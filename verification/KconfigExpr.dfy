/** Kconfig dependency expressions and their three-valued meaning
    (util/kconfig/expr.h, util/kconfig/expr.c). */
module KconfigExpr {

  datatype SymbolType = Unknown | Boolean | Tristate | Int | Hex | String | Other

  /** The three built-in constants, the other constants (quoted words, which never get a
      type), and the declared symbols.  Two symbols are the same object in the C program
      exactly when they are equal here. */
  datatype Symbol =
    | Yes
    | Mod
    | No
    | Literal(word: nat)
    | Named(id: nat, kind: SymbolType)
  {
    function Type(): SymbolType {
      if Named? then kind else Unknown
    }

    // The SYMBOL_CONST flag.
    predicate Const() {
      !Named?
    }

    predicate Logical() {
      Type() == Boolean || Type() == Tristate
    }
  }

  datatype Op = And | Or

  function Dual(op: Op): Op {
    if op == And then Or else And
  }

  datatype Expr =
    | Sym(sym: Symbol)
    | Not(arg: Expr)
    | Cmp(equal: bool, lhs: Symbol, rhs: Symbol)
    | Bin(op: Op, left: Expr, right: Expr)

  const YES := Sym(Yes)
  const NO := Sym(No)

  predicate IsConstant(e: Expr) {
    e == YES || e == NO
  }

  /** `n` for a sum, `y` for a product: the leaf that changes nothing. */
  function Neutral(op: Op): Expr {
    if op == And then YES else NO
  }

  // ----- values -----

  newtype Tri = v: int | 0 <= v <= 2

  const N: Tri := 0
  const M: Tri := 1
  const Y: Tri := 2

  function Min(a: Tri, b: Tri): Tri { if a < b then a else b }
  function Max(a: Tri, b: Tri): Tri { if a > b then a else b }
  function Negate(a: Tri): Tri { 2 - a }

  function Apply(op: Op, a: Tri, b: Tri): Tri {
    if op == And then Min(a, b) else Max(a, b)
  }

  function Unit(op: Op): Tri {
    if op == And then Y else N
  }

  /** An assignment: the tristate value and the string value of every symbol. */
  datatype Env = Env(tri: Symbol -> Tri, str: Symbol -> string)

  function TriName(t: Tri): string {
    if t == N then "n" else if t == M then "m" else "y"
  }

  /** What symbol.c guarantees of an assignment: the constants have their own values, a
      logical symbol's string is the name of its tristate, a boolean is never `m`,
      a symbol that is neither logical nor built in has tristate `n`, and
      different constants are spelt differently. */
  ghost predicate Sensible(env: Env) {
    && env.tri(Yes) == Y && env.tri(Mod) == M && env.tri(No) == N
    && env.str(Yes) == "y" && env.str(Mod) == "m" && env.str(No) == "n"
    && (forall s: Symbol {:trigger env.str(s)} :: s.Logical() ==> env.str(s) == TriName(env.tri(s)))
    && (forall s: Symbol {:trigger env.tri(s)} :: s.Type() == Boolean ==> env.tri(s) != M)
    && (forall s: Symbol {:trigger env.tri(s)} :: s.Named? || s.Literal? ==> s.Logical() || env.tri(s) == N)
    && (forall s: Symbol, t: Symbol {:trigger env.str(s), env.str(t)} ::
          s.Const() && t.Const() && s != t ==> env.str(s) != env.str(t))
  }

  function Value(e: Expr, env: Env): Tri {
    match e
    case Sym(s) => env.tri(s)
    case Not(a) => Negate(Value(a, env))
    case Cmp(eq, l, r) => if (env.str(l) == env.str(r)) == eq then Y else N
    case Bin(op, l, r) => Apply(op, Value(l, env), Value(r, env))
  }

  // A string of n letters.
  function Word(n: nat): (w: string)
    ensures |w| == n
  {
    if n == 0 then "" else "x" + Word(n - 1)
  }

  function AssignedTri(f: nat -> Tri, b: nat -> bool, s: Symbol): Tri {
    match s
    case Yes => Y
    case Mod => M
    case No => N
    case Literal(_) => N
    case Named(i, k) =>
      if k == Tristate then f(i) else if k == Boolean && b(i) then Y else N
  }

  function AssignedStr(f: nat -> Tri, b: nat -> bool, s: Symbol): (r: string)
    ensures |r| == if s.Literal? then s.word + 2 else 1
  {
    match s
    case Literal(w) => Word(w + 2)
    case _ => TriName(AssignedTri(f, b, s))
  }

  /** Any choice of values for the tristate and boolean symbols is a sensible assignment. */
  function Assignment(f: nat -> Tri, b: nat -> bool): Env {
    Env((s: Symbol) => AssignedTri(f, b, s), (s: Symbol) => AssignedStr(f, b, s))
  }

  lemma AssignmentIsSensible(f: nat -> Tri, b: nat -> bool)
    ensures Sensible(Assignment(f, b))
    ensures forall i: nat :: Assignment(f, b).tri(Named(i, Tristate)) == f(i)
    ensures forall i: nat :: Assignment(f, b).tri(Named(i, Boolean)) == if b(i) then Y else N
  {
    var env := Assignment(f, b);
    forall s: Symbol, t: Symbol | s.Const() && t.Const() && s != t
      ensures env.str(s) != env.str(t)
    {
      if s.Literal? || t.Literal? {
        assert |AssignedStr(f, b, s)| != |AssignedStr(f, b, t)|;
      } else {
        assert AssignedStr(f, b, s)[0] != AssignedStr(f, b, t)[0];
      }
    }
  }

  /** Equal on every assignment, `m` included. */
  ghost predicate Equivalent(a: Expr, b: Expr) {
    forall env: Env {:trigger Sensible(env)} :: Sensible(env) ==> Value(a, env) == Value(b, env)
  }

  /** Kleene's information order, where `m` is "unknown": b keeps every definite answer of a. */
  ghost predicate Refines(a: Expr, b: Expr) {
    forall env: Env {:trigger Sensible(env)} ::
      Sensible(env) && Value(a, env) != M ==> Value(b, env) == Value(a, env)
  }

  // ----- sizes -----

  function Size(e: Expr): nat
    ensures Size(e) > 0
  {
    match e
    case Sym(_) => 1
    case Not(a) => 1 + Size(a)
    case Cmp(_, _, _) => 1
    case Bin(_, l, r) => 1 + Size(l) + Size(r)
  }

  function MaxNat(a: nat, b: nat): nat { if a > b then a else b }

  /** How often the operator alternates between And and Or on the way down. */
  function Rank(e: Expr): nat
    decreases e, 0
  {
    match e
    case Bin(op, l, r) => 1 + MaxNat(RankUnder(op, l), RankUnder(op, r))
    case _ => 0
  }

  function RankUnder(op: Op, e: Expr): nat
    decreases e, 1
  {
    if e.Bin? && e.op == op
    then MaxNat(RankUnder(op, e.left), RankUnder(op, e.right))
    else Rank(e)
  }

  // ----- expr_eliminate_yn -----

  /** Drops the constants `y` and `n` from sums and products. */
  function EliminateYN(e: Expr): Expr {
    match e
    case Bin(op, l, r) =>
      var l', r' := EliminateYN(l), EliminateYN(r);
      if l' == Neutral(Dual(op)) then l'
      else if l' == Neutral(op) then r'
      else if r' == Neutral(Dual(op)) then r'
      else if r' == Neutral(op) then l'
      else Bin(op, l', r')
    case _ => e
  }

  /** Some sum or product above any negation has a constant operand. */
  predicate Reducible(e: Expr) {
    e.Bin? && (IsConstant(e.left) || IsConstant(e.right) || Reducible(e.left) || Reducible(e.right))
  }

  lemma {:induction false} EliminateYNValue(e: Expr, env: Env)
    requires Sensible(env)
    ensures Value(EliminateYN(e), env) == Value(e, env)
  {
    if e.Bin? {
      EliminateYNValue(e.left, env);
      EliminateYNValue(e.right, env);
    }
  }

  lemma EliminateYNEquivalent(e: Expr)
    ensures Equivalent(e, EliminateYN(e))
  {
    forall env: Env | Sensible(env) ensures Value(e, env) == Value(EliminateYN(e), env) {
      EliminateYNValue(e, env);
    }
  }

  /** One pass leaves nothing to drop, and it shrinks exactly the trees that had something to drop. */
  lemma {:induction false} EliminateYNShrinks(e: Expr)
    ensures !Reducible(EliminateYN(e))
    ensures Reducible(e) <==> Size(EliminateYN(e)) < Size(e)
    ensures !Reducible(e) <==> EliminateYN(e) == e
  {
    if e.Bin? {
      EliminateYNShrinks(e.left);
      EliminateYNShrinks(e.right);
    }
  }
}

/** When an entry is nested under the entry before it (util/kconfig/menu.c:341-372). */
module KconfigNesting {
  import opened Common
  import opened KconfigExpr
  import opened KconfigTransform
  import opened KconfigEquality
  import opened KconfigTidy
  import opened KconfigDups

  function BuiltIn(yes: bool): Symbol {
    if yes then Yes else No
  }

  /** expr_trans_compare against symbol_yes or symbol_no; `eq` is the C type argument. */
  function TransCompare(e: Expr, eq: bool, yes: bool): Expr {
    match e
    case Bin(op, l, r) =>
      var joined := Bin(if yes then op else Dual(op), TransCompare(l, true, yes), TransCompare(r, true, yes));
      if eq then joined else Not(joined)
    case Not(a) => TransCompare(a, !eq, yes)
    case Cmp(_, _, _) => if eq == yes then e else Not(e)
    case Sym(s) => Cmp(eq, s, BuiltIn(yes))
  }

  // A missing expression stands for y.
  function TransCompareOption(e: Option<Expr>, eq: bool, yes: bool): Expr {
    match e
    case Some(x) => TransCompare(x, eq, yes)
    case None => if eq then Sym(BuiltIn(yes)) else Not(Sym(BuiltIn(yes)))
  }

  /** A condition of an entry; a missing one stands for y. */
  function Condition(e: Option<Expr>, env: Env): Tri {
    match e
    case Some(x) => Value(x, env)
    case None => Y
  }

  /** What the comparison relies on: a symbol that stands alone reads like its tristate value, and
      no operand of a negation is m. */
  predicate Comparable(e: Expr, env: Env) {
    match e
    case Sym(s) => env.str(s) == TriName(env.tri(s))
    case Not(a) => Comparable(a, env) && Value(a, env) != M
    case Cmp(_, _, _) => true
    case Bin(_, l, r) => Comparable(l, env) && Comparable(r, env)
  }

  predicate ComparableOption(e: Option<Expr>, env: Env) {
    e.Some? ==> Comparable(e.value, env)
  }

  /** The comparison has the truth value it is meant to have. */
  lemma {:induction false} TransCompareValue(e: Expr, eq: bool, yes: bool, env: Env)
    requires Sensible(env) && Comparable(e, env)
    ensures Value(TransCompare(e, eq, yes), env) == Y <==> ((Value(e, env) == if yes then Y else N) == eq)
    ensures Value(TransCompare(e, eq, yes), env) != M
  {
    match e
    case Bin(op, l, r) =>
      TransCompareValue(l, true, yes, env);
      TransCompareValue(r, true, yes, env);
    case Not(a) => TransCompareValue(a, !eq, yes, env);
    case _ =>
  }

  /** Under a negation it is right exactly when the operand is not m: !FOO = n is turned into
      FOO != n. */
  lemma TransCompareNegation(a: Expr, eq: bool, yes: bool, env: Env)
    requires Sensible(env) && Comparable(a, env)
    ensures (Value(TransCompare(Not(a), eq, yes), env) == Y
         <==> ((Value(Not(a), env) == if yes then Y else N) == eq))
       <==> Value(a, env) != M
  {
    TransCompareValue(a, !eq, yes, env);
  }

  /** On assignments of y and n to logical symbols every expression of these can be compared. */
  lemma {:induction false} DefiniteComparable(e: Expr, env: Env)
    requires Sensible(env) && Definite(e, env) && Standing(e)
    ensures Comparable(e, env)
  {
    DefiniteValue(e, env);
    match e
    case Bin(_, l, r) =>
      DefiniteComparable(l, env);
      DefiniteComparable(r, env);
    case Not(a) =>
      DefiniteComparable(a, env);
      DefiniteValue(a, env);
    case _ =>
  }

  /** Only boolean and tristate symbols, y, m and n stand alone in e. */
  predicate Standing(e: Expr) {
    match e
    case Sym(s) => s.Logical() || s == Yes || s == Mod || s == No
    case Not(a) => Standing(a)
    case Cmp(_, _, _) => true
    case Bin(_, l, r) => Standing(l) && Standing(r)
  }

  // ----- expr_contains_symbol and expr_depends_symbol -----

  predicate ContainsSymbol(e: Expr, s: Symbol) {
    match e
    case Sym(x) => x == s
    case Not(a) => ContainsSymbol(a, s)
    case Cmp(_, l, r) => l == s || r == s
    case Bin(_, l, r) => ContainsSymbol(l, s) || ContainsSymbol(r, s)
  }

  predicate DependsSymbol(e: Expr, s: Symbol) {
    match e
    case Sym(x) => x == s
    case Cmp(eq, l, r) => l == s && (if eq then r == Yes || r == Mod else r == No)
    case Bin(op, l, r) => op == And && (DependsSymbol(l, s) || DependsSymbol(r, s))
    case Not(_) => false
  }

  /** An expression that does not contain a symbol does not depend on its value. */
  lemma {:induction false} NotContained(e: Expr, s: Symbol, env: Env, other: Env)
    requires !ContainsSymbol(e, s)
    requires forall x: Symbol :: x != s ==> env.tri(x) == other.tri(x) && env.str(x) == other.str(x)
    ensures Value(e, env) == Value(e, other)
  {
    match e
    case Sym(_) =>
    case Not(a) => NotContained(a, s, env, other);
    case Cmp(_, _, _) =>
    case Bin(_, l, r) =>
      NotContained(l, s, env, other);
      NotContained(r, s, env, other);
  }

  function Rename(e: Expr, s: Symbol, u: Symbol): Expr {
    match e
    case Sym(x) => Sym(if x == s then u else x)
    case Not(a) => Not(Rename(a, s, u))
    case Cmp(eq, l, r) => Cmp(eq, if l == s then u else l, if r == s then u else r)
    case Bin(op, l, r) => Bin(op, Rename(l, s, u), Rename(r, s, u))
  }

  /** It contains the symbols that can be renamed in it. */
  lemma {:induction false} ContainsIff(e: Expr, s: Symbol, u: Symbol)
    requires u != s
    ensures ContainsSymbol(e, s) <==> Rename(e, s, u) != e
  {
    match e
    case Sym(_) =>
    case Not(a) => ContainsIff(a, s, u);
    case Cmp(_, _, _) =>
    case Bin(_, l, r) =>
      ContainsIff(l, s, u);
      ContainsIff(r, s, u);
  }

  /** s itself, or a comparison that only a set symbol can meet. */
  predicate Demands(x: Expr, s: Symbol) {
    x == Sym(s) || x == Cmp(true, s, Yes) || x == Cmp(true, s, Mod) || x == Cmp(false, s, No)
  }

  /** An expression depends on s exactly if one of the operands of the product that it is demands s. */
  lemma {:induction false} DependsIff(e: Expr, s: Symbol)
    ensures DependsSymbol(e, s) <==> exists x :: x in Operands(And, e) && Demands(x, s)
    decreases e
  {
    if IsOp(And, e) {
      DependsIff(e.left, s);
      DependsIff(e.right, s);
    } else {
      assert Operands(And, e) == [e] && e in Operands(And, e);
      assert DependsSymbol(e, s) <==> Demands(e, s);
    }
  }

  /** The symbol is set: its value does not read "n". */
  predicate On(s: Symbol, env: Env) {
    env.str(s) != "n"
  }

  lemma {:induction false} DependsMeansOn(e: Expr, s: Symbol, env: Env)
    requires Sensible(env) && DependsSymbol(e, s) && Value(e, env) != N
    ensures On(s, env)
  {
    match e
    case Bin(_, l, r) =>
      if DependsSymbol(l, s) {
        DependsMeansOn(l, s, env);
      } else {
        DependsMeansOn(r, s, env);
      }
    case Sym(_) =>
      if s.Logical() {
        assert env.str(s) == TriName(env.tri(s));
      }
    case Cmp(eq, l, r) =>
    case Not(_) =>
  }

  /** For a boolean or tristate symbol that is the same as a tristate value other than n. */
  lemma OnLogical(s: Symbol, env: Env)
    requires Sensible(env) && s.Logical()
    ensures On(s, env) <==> env.tri(s) != N
  {
    assert env.str(s) == TriName(env.tri(s));
  }

  // ----- the test -----

  /** An entry may have no prompt at all, or one with or without a condition. */
  datatype Prompt = NoPrompt | Prompt(condition: Option<Expr>)

  /** What the C code takes for the parent's condition: none stands for y, whether there is a prompt
      without a condition or no prompt. */
  function Base(p: Prompt): Option<Expr> {
    match p
    case NoPrompt => None
    case Prompt(c) => c
  }

  /** A prompt that is not there is never shown. */
  function Shown(p: Prompt, env: Env): Tri {
    match p
    case NoPrompt => N
    case Prompt(c) => Condition(c, env)
  }

  /** When the entry's condition is met, the parent's symbol is on or its prompt is shown. */
  ghost predicate Implied(dep: Option<Expr>, prompt: Prompt, s: Symbol) {
    forall env: Env {:trigger Sensible(env)} ::
      Sensible(env) && ComparableOption(dep, env) && ComparableOption(Base(prompt), env) && Condition(dep, env) != N
      ==> On(s, env) || Shown(prompt, env) != N
  }

  /** r says, whenever the condition e can be compared, whether it is met, and it is simplified. */
  ghost predicate NormalForm(e: Option<Expr>, r: Expr) {
    && NoJoin(r) && NoContradiction(r) && (e.None? ==> r == YES)
    && forall env: Env {:trigger Sensible(env)} :: Sensible(env) && ComparableOption(e, env) ==>
         Value(r, env) == if Condition(e, env) == N then N else Y
  }

  /** The test of the loop as it comes out for some normal forms of the two conditions. */
  ghost predicate NestsOutcome(dep: Option<Expr>, prompt: Prompt, s: Symbol, nests: bool) {
    exists d: Expr, base: Expr :: NormalForm(dep, d) && NormalForm(Base(prompt), base) && nests == Test(dep, s, d, base)
  }

  predicate Test(dep: Option<Expr>, s: Symbol, d: Expr, base: Expr) {
    dep.Some? && ContainsSymbol(dep.value, s) && (DependsSymbol(dep.value, s) || EliminateEq(d, base).1 == YES)
  }

  predicate Mentions(dep: Option<Expr>, s: Symbol) {
    dep.Some? && ContainsSymbol(dep.value, s)
  }

  /** The entry depends on s in the sense of expr_depends_symbol. */
  predicate Depends(dep: Option<Expr>, s: Symbol) {
    dep.Some? && DependsSymbol(dep.value, s)
  }

  /** What passing the test means. */
  ghost predicate Passed(dep: Option<Expr>, prompt: Prompt, s: Symbol) {
    Mentions(dep, s) && (prompt.Prompt? || Depends(dep, s) ==> Implied(dep, prompt, s))
  }

  /** It means nothing more than a mention of the symbol if the parent has no prompt and the entry
      does not depend on the symbol; otherwise the parent's symbol or prompt is implied. */
  lemma OutcomeImplied(dep: Option<Expr>, prompt: Prompt, s: Symbol)
    requires NestsOutcome(dep, prompt, s, true)
    ensures Passed(dep, prompt, s)
  {
    hide EliminateEq, Value, Comparable, ContainsSymbol, DependsSymbol, NoJoin, NoContradiction;
    var d: Expr, base: Expr :| NormalForm(dep, d) && NormalForm(Base(prompt), base) && Test(dep, s, d, base);
    forall env: Env | Sensible(env) && ComparableOption(dep, env) && ComparableOption(Base(prompt), env)
                      && Condition(dep, env) != N && (prompt.Prompt? || Depends(dep, s))
      ensures On(s, env) || Shown(prompt, env) != N
    {
      if DependsSymbol(dep.value, s) {
        DependsMeansOn(dep.value, s, env);
      } else {
        YesIsYes(env);
        EliminateEqOrder(d, base, env);
      }
    }
  }

  lemma YesIsYes(env: Env)
    requires Sensible(env)
    ensures Value(YES, env) == Y
  {
  }

  // ----- a parent without a condition -----

  /** Nothing but y can be struck out against y. */
  lemma {:induction false} PairsAgainstYes(op: Op, d: Expr)
    ensures EliminatePairs(op, d, YES).1 == YES
    decreases d
  {
    if IsOp(op, d) {
      PairsAgainstYes(op, d.left);
      PairsAgainstYes(op, d.right);
    } else {
      OnlyYesIsYes(d);
    }
  }

  lemma OnlyYesIsYes(d: Expr)
    ensures ExprEq(d, YES) ==> d == YES
  {
  }

  lemma NothingBelowYes(d: Expr)
    ensures EliminateEq(d, YES).1 == YES
  {
    hide EliminatePairs;
    if d.Bin? {
      PairsAgainstYes(d.op, d);
    }
  }

  /** Without a condition on the parent's prompt, or without a prompt, the test passes exactly for
      the entries that mention the parent's symbol. */
  lemma UnconditionalTest(dep: Option<Expr>, prompt: Prompt, s: Symbol, nests: bool)
    requires Base(prompt).None? && NestsOutcome(dep, prompt, s, nests)
    ensures nests <==> Mentions(dep, s)
  {
    hide EliminateEq, NoJoin, NoContradiction, Comparable, Condition;
    var d: Expr, base: Expr :| NormalForm(dep, d) && NormalForm(Base(prompt), base) && nests == Test(dep, s, d, base);
    NothingBelowYes(d);
  }

  // ----- the loop's code -----

  method Normalise(e: Option<Expr>) returns (r: Expr)
    ensures NormalForm(e, r)
  {
    var c := TransCompareOption(e, false, false);
    var contradictions;
    r, contradictions := EliminateDups(Transform(c));
    forall env: Env | Sensible(env) && ComparableOption(e, env)
      ensures Value(r, env) == if Condition(e, env) == N then N else Y
    {
      TransformValue(c, env);
      if e.Some? {
        TransCompareValue(e.value, false, false, env);
      }
      assert Value(Transform(c), env) != M;
    }
  }

  /** The test of the loop.  dep is the condition of the later entry (of its prompt, or its own if
      it has none), prompt that of the parent; d and base are the normal forms. */
  method Nests(dep: Option<Expr>, prompt: Prompt, s: Symbol)
    returns (nests: bool, d: Expr, base: Expr)
    ensures NormalForm(Base(prompt), base)
    ensures NormalForm(dep, d)
    ensures nests == Test(dep, s, d, base)
    ensures NestsOutcome(dep, prompt, s, nests)
    ensures nests ==> Passed(dep, prompt, s)
    ensures Base(prompt).None? ==> (nests <==> Mentions(dep, s))
  {
    hide NormalForm, EliminateEq, Passed;
    base := Normalise(Base(prompt));
    d := Normalise(dep);
    if dep.None? || !ContainsSymbol(dep.value, s) {
      nests := false;
    } else if DependsSymbol(dep.value, s) {
      nests := true;
    } else {
      nests := EliminateEq(d, base).1 == YES;
    }
    if nests {
      OutcomeImplied(dep, prompt, s);
    }
    if Base(prompt).None? {
      UnconditionalTest(dep, prompt, s, nests);
    }
  }
}

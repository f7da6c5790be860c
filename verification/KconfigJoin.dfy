/** Joining two operands of one spine, and recognising an operand that contradicts the rest
    of its spine (util/kconfig/expr.c:346-510, 560-610). */
module KconfigJoin {
  import opened Common
  import opened KconfigExpr
  import opened KconfigEquality
  import opened KconfigTransform
  import opened KconfigSpine

  // The symbol expr_join_* reads from its first and from its second operand.
  function FirstSymbol(e: Expr): Option<Symbol> {
    match e
    case Sym(s) => Some(s)
    case Cmp(_, l, _) => Some(l)
    case Not(Sym(s)) => Some(s)
    case Not(Cmp(_, l, _)) => Some(l)
    case _ => None
  }

  function SecondSymbol(e: Expr): Option<Symbol> {
    match e
    case Sym(s) => Some(s)
    case Cmp(_, l, _) => Some(l)
    case Not(Sym(s)) => Some(s)
    case _ => None
  }

  predicate Both(eq: bool, a: Expr, b: Expr, x: Symbol, y: Symbol) {
    && a.Cmp? && b.Cmp? && a.equal == eq && b.equal == eq
    && ((a.rhs == x && b.rhs == y) || (a.rhs == y && b.rhs == x))
  }

  predicate SymbolAnd(a: Expr, b: Expr, eq: bool, x: Symbol) {
    || (a.Sym? && b.Cmp? && b.equal == eq && b.rhs == x)
    || (b.Sym? && a.Cmp? && a.equal == eq && a.rhs == x)
  }

  /** expr_join_or; None is the C function's NULL. */
  function JoinOr(a: Expr, b: Expr): Option<Expr> {
    if ExprEq(a, b) then Some(a)
    else
      var s1, s2 := FirstSymbol(a), SecondSymbol(b);
      if s1.None? || s2.None? || s1 != s2 || !s1.value.Logical() then None
      else
        var s := s1.value;
        if s.Type() == Tristate && Both(true, a, b, Yes, Mod) then Some(Cmp(false, s, No))
        else if s.Type() == Tristate && Both(true, a, b, Yes, No) then Some(Cmp(false, s, Mod))
        else if s.Type() == Tristate && Both(true, a, b, Mod, No) then Some(Cmp(false, s, Yes))
        else if s.Type() == Boolean && ((a.Not? && a.arg.Sym? && b.Sym?) || (b.Not? && b.arg.Sym? && a.Sym?))
        then Some(YES)
        else None
  }

  /** expr_join_and. */
  function JoinAnd(a: Expr, b: Expr): Option<Expr> {
    if ExprEq(a, b) then Some(a)
    else
      var s1, s2 := FirstSymbol(a), SecondSymbol(b);
      if s1.None? || s2.None? || s1 != s2 || !s1.value.Logical() then None
      else
        var s := s1.value;
        if SymbolAnd(a, b, true, Yes) then Some(Cmp(true, s, Yes))
        else if SymbolAnd(a, b, false, No) then Some(Sym(s))
        else if SymbolAnd(a, b, false, Mod) then Some(Cmp(true, s, Yes))
        else if s.Type() != Tristate then None
        else if a.Cmp? && b.Cmp? && a.equal && !b.equal && a.rhs.Const() && b.rhs.Const()
        then Some(if a.rhs != b.rhs then Cmp(true, s, a.rhs) else NO)
        else if a.Cmp? && b.Cmp? && !a.equal && b.equal && a.rhs.Const() && b.rhs.Const()
        then Some(if a.rhs != b.rhs then Cmp(true, s, b.rhs) else NO)
        else if Both(false, a, b, Yes, No) then Some(Cmp(true, s, Mod))
        else if Both(false, a, b, Yes, Mod) then Some(Cmp(true, s, No))
        else if Both(false, a, b, Mod, No) then Some(Cmp(true, s, Yes))
        else None
  }

  function Join(op: Op, a: Expr, b: Expr): Option<Expr> {
    if op == And then JoinAnd(a, b) else JoinOr(a, b)
  }

  lemma LogicalString(s: Symbol, env: Env)
    requires Sensible(env) && s.Logical()
    ensures env.str(s) == TriName(env.tri(s))
    ensures s.Type() == Boolean ==> env.tri(s) != M
  {
  }

  lemma ConstantsDiffer(s: Symbol, t: Symbol, env: Env)
    requires Sensible(env) && s.Const() && t.Const() && s != t
    ensures env.str(s) != env.str(t)
  {
  }

  lemma JoinOrValue(a: Expr, b: Expr, env: Env)
    requires Sensible(env) && JoinOr(a, b).Some?
    ensures Value(JoinOr(a, b).value, env) == Max(Value(a, env), Value(b, env))
  {
    if ExprEq(a, b) {
      ExprEqValue(a, b, env);
    } else {
      LogicalString(FirstSymbol(a).value, env);
    }
  }

  lemma JoinAndValue(a: Expr, b: Expr, env: Env)
    requires Sensible(env) && JoinAnd(a, b).Some?
    ensures Value(JoinAnd(a, b).value, env) == Min(Value(a, env), Value(b, env))
  {
    if ExprEq(a, b) {
      ExprEqValue(a, b, env);
    } else {
      LogicalString(FirstSymbol(a).value, env);
      if a.Cmp? && b.Cmp? && a.equal != b.equal && a.rhs != b.rhs {
        ConstantsDiffer(a.rhs, b.rhs, env);
      }
    }
  }

  /** A join is exact on all three values, and its result is again a leaf that is no larger
      than the first operand. */
  lemma JoinValue(op: Op, a: Expr, b: Expr, env: Env)
    requires Sensible(env) && Join(op, a, b).Some?
    ensures Value(Join(op, a, b).value, env) == Apply(op, Value(a, env), Value(b, env))
  {
    if op == And { JoinAndValue(a, b, env); } else { JoinOrValue(a, b, env); }
  }

  lemma JoinShape(op: Op, a: Expr, b: Expr)
    requires Join(op, a, b).Some? && !IsOp(op, a)
    ensures !IsOp(op, Join(op, a, b).value)
    ensures Size(Join(op, a, b).value) <= Size(a)
    ensures Rank(Join(op, a, b).value) <= Rank(a)
  {
  }

  // ----- contradictions -----

  /** `a` is a product inside a sum, or the other way round, and every operand of its
      negation is also an operand of `b`: (FOO || BAR) && (!FOO && !BAR). */
  predicate Contradicts(op: Op, a: Expr, b: Expr) {
    IsOp(Dual(op), a) && ExtractEq(op, Transform(Not(a)), b).1 == Neutral(op)
  }

  /** Then b lies beyond the negation of a. */
  lemma ContradictsValue(op: Op, a: Expr, b: Expr, env: Env)
    requires Sensible(env) && Contradicts(op, a, b)
    ensures op == And ==> Value(b, env) <= Negate(Value(a, env))
    ensures op == Or ==> Value(b, env) >= Negate(Value(a, env))
  {
    hide ExtractEq, Transform;
    TransformValue(Not(a), env);
    ExtractEqSplits(op, Transform(Not(a)), b, env);
  }

  /** Replacing `a` by the absorbing constant in a spine that also holds `b` gives that
      constant, and this is right exactly when the spine was not `m`. */
  lemma ContradictionExact(op: Op, t: Expr, p: Path, q: Path, env: Env)
    requires Sensible(env) && SpinePath(op, t, p) && SpinePath(op, t, q)
    requires Contradicts(op, At(op, t, p), At(op, t, q))
    ensures Value(Put(op, t, p, Neutral(Dual(op))), env) == Unit(Dual(op))
    ensures Value(t, env) == Value(Put(op, t, p, Neutral(Dual(op))), env) <==> Value(t, env) != M
  {
    ContradictsValue(op, At(op, t, p), At(op, t, q), env);
    SlotValue(op, t, p, env);
    SlotValue(op, t, q, env);
    PutValue(op, t, p, Neutral(Dual(op)), env);
  }

  /** (FOO || BAR) && !FOO && !BAR is m when FOO is m and BAR is n; the rewritten tree is n. */
  lemma ContradictionInexact()
    ensures var foo, bar := Sym(Named(0, Tristate)), Sym(Named(1, Tristate));
      var t := Bin(And, Bin(Or, foo, bar), Bin(And, Not(foo), Not(bar)));
      var env := Assignment(i => if i == 0 then M else N, i => false);
      && Sensible(env) && SpinePath(And, t, [false]) && SpinePath(And, t, [true])
      && Contradicts(And, At(And, t, [false]), At(And, t, [true]))
      && Value(t, env) == M
      && Value(Put(And, t, [false], NO), env) == N
  {
    hide Contradicts;
    var foo, bar := Sym(Named(0, Tristate)), Sym(Named(1, Tristate));
    var t := Bin(And, Bin(Or, foo, bar), Bin(And, Not(foo), Not(bar)));
    var f: nat -> Tri := i => if i == 0 then M else N;
    AssignmentIsSensible(f, i => false);
    assert At(And, t, [false]) == Bin(Or, foo, bar);
    assert At(And, t, [true]) == Bin(And, Not(foo), Not(bar));
    InexactContradicts();
  }

  lemma InexactContradicts()
    ensures var foo, bar := Sym(Named(0, Tristate)), Sym(Named(1, Tristate));
      Contradicts(And, Bin(Or, foo, bar), Bin(And, Not(foo), Not(bar)))
  {
    hide ExtractPairs;
    var foo, bar := Sym(Named(0, Tristate)), Sym(Named(1, Tristate));
    assert Transform(Not(Bin(Or, foo, bar))) == Bin(And, Not(foo), Not(bar));
    AllExtracted();
  }

  lemma AllExtracted()
    ensures var c := Bin(And, Not(Sym(Named(0, Tristate))), Not(Sym(Named(1, Tristate))));
      ExtractPairs(And, None, c, c).0.Some? && ExtractPairs(And, None, c, c).1 == Bin(And, YES, YES)
  {
    var foo, bar := Sym(Named(0, Tristate)), Sym(Named(1, Tristate));
    var c := Bin(And, Not(foo), Not(bar));
    assert ExtractPairs(And, None, Not(foo), Not(foo)) == (Some(Not(foo)), YES, YES);
    assert ExtractPairs(And, Some(Not(foo)), YES, Not(bar)) == (Some(Not(foo)), YES, Not(bar));
    assert ExtractPairs(And, None, Not(foo), c) == (Some(Not(foo)), YES, Bin(And, YES, Not(bar)));
    assert ExtractPairs(And, Some(Not(foo)), Not(bar), Bin(And, YES, Not(bar)))
        == (Some(c), YES, Bin(And, YES, YES));
    assert ExtractPairs(And, None, c, c).0.Some? && ExtractPairs(And, None, c, c).1 == Bin(And, YES, YES);
  }
}

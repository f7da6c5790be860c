/** Comparing expressions by striking out what they have in common: expr_eq,
    expr_eliminate_eq and expr_extract_eq (util/kconfig/expr.c:130-229, 832-872). */
module KconfigEquality {
  import opened Common
  import opened KconfigExpr

  predicate IsOp(op: Op, e: Expr) {
    e.Bin? && e.op == op
  }

  // The C code compares the `type` tags of two nodes.
  predicate SameType(a: Expr, b: Expr) {
    match a
    case Sym(_) => b.Sym?
    case Not(_) => b.Not?
    case Cmp(eq, _, _) => b.Cmp? && b.equal == eq
    case Bin(op, _, _) => IsOp(op, b)
  }

  predicate ExprEq(a: Expr, b: Expr)
    decreases Size(a) + Size(b), 2
  {
    SameType(a, b) &&
    match a
    case Sym(s) => b.sym == s
    case Not(x) => ExprEq(x, b.arg)
    case Cmp(_, l, r) => b.lhs == l && b.rhs == r
    case Bin(_, _, _) =>
      var (x, y) := EliminateEq(a, b);
      x.Sym? && y.Sym? && x.sym == y.sym
  }

  /** Both trees are copies owned by the caller, so each is rewritten on its own; a leaf of
      the first that equals a leaf of the second turns both into the neutral constant. */
  function EliminatePairs(op: Op, a: Expr, b: Expr): (r: (Expr, Expr))
    ensures Size(r.0) <= Size(a) && Size(r.1) <= Size(b)
    decreases Size(a) + Size(b), if IsOp(op, a) || IsOp(op, b) then 0 else 3
  {
    if IsOp(op, a) then
      var (l, b1) := EliminatePairs(op, a.left, b);
      var (r, b2) := EliminatePairs(op, a.right, b1);
      (Bin(op, l, r), b2)
    else if IsOp(op, b) then
      var (a1, l) := EliminatePairs(op, a, b.left);
      var (a2, r) := EliminatePairs(op, a1, b.right);
      (a2, Bin(op, l, r))
    else if a == b && IsConstant(a) then (a, b)
    else if !ExprEq(a, b) then (a, b)
    else (Neutral(op), Neutral(op))
  }

  function EliminateEq(a: Expr, b: Expr): (Expr, Expr)
    decreases Size(a) + Size(b), 1
  {
    var (a1, b1) := if a.Bin? then EliminatePairs(a.op, a, b) else (a, b);
    var (a2, b2) := if !SameType(a1, b1) && b1.Bin? then EliminatePairs(b1.op, a1, b1) else (a1, b1);
    (EliminateYN(a2), EliminateYN(b2))
  }

  lemma Regroup(op: Op, c1: Tri, c2: Tri, x: Tri, y: Tri)
    ensures Apply(op, Apply(op, c1, x), Apply(op, c2, y)) == Apply(op, Apply(op, c1, c2), Apply(op, x, y))
    ensures Apply(op, c1, Apply(op, c2, y)) == Apply(op, Apply(op, c1, c2), y)
  {
  }

  lemma ApplyMonotone(op: Op, c: Tri, x: Tri, y: Tri)
    requires x <= y
    ensures Apply(op, c, x) <= Apply(op, c, y)
  {
  }

  /** Every stage only splits off a common operand c: a = c op a' and b = c op b'. */
  lemma {:induction false} EliminatePairsSplits(op: Op, a: Expr, b: Expr, env: Env) returns (c: Tri)
    requires Sensible(env)
    ensures Value(a, env) == Apply(op, c, Value(EliminatePairs(op, a, b).0, env))
    ensures Value(b, env) == Apply(op, c, Value(EliminatePairs(op, a, b).1, env))
    decreases Size(a) + Size(b), if IsOp(op, a) || IsOp(op, b) then 0 else 3
  {
    if IsOp(op, a) {
      var (l, b1) := EliminatePairs(op, a.left, b);
      var (r, b2) := EliminatePairs(op, a.right, b1);
      var c1 := EliminatePairsSplits(op, a.left, b, env);
      var c2 := EliminatePairsSplits(op, a.right, b1, env);
      Regroup(op, c1, c2, Value(l, env), Value(r, env));
      Regroup(op, c1, c2, Value(l, env), Value(b2, env));
      c := Apply(op, c1, c2);
    } else if IsOp(op, b) {
      var (a1, l) := EliminatePairs(op, a, b.left);
      var (a2, r) := EliminatePairs(op, a1, b.right);
      var c1 := EliminatePairsSplits(op, a, b.left, env);
      var c2 := EliminatePairsSplits(op, a1, b.right, env);
      Regroup(op, c1, c2, Value(l, env), Value(r, env));
      Regroup(op, c1, c2, Value(l, env), Value(a2, env));
      c := Apply(op, c1, c2);
    } else if !(a == b && IsConstant(a)) && ExprEq(a, b) {
      ExprEqValue(a, b, env);
      c := Value(a, env);
    } else {
      c := Unit(op);
    }
  }

  /** The two stages of expr_eliminate_eq, one per operator. */
  lemma EliminateEqSplits(a: Expr, b: Expr, env: Env) returns (op1: Op, c1: Tri, op2: Op, c2: Tri)
    requires Sensible(env)
    ensures Value(a, env) == Apply(op1, c1, Apply(op2, c2, Value(EliminateEq(a, b).0, env)))
    ensures Value(b, env) == Apply(op1, c1, Apply(op2, c2, Value(EliminateEq(a, b).1, env)))
    decreases Size(a) + Size(b), 1
  {
    var a1, b1 := a, b;
    op1, c1 := And, Y;
    if a.Bin? {
      op1 := a.op;
      c1 := EliminatePairsSplits(op1, a, b, env);
      a1, b1 := EliminatePairs(op1, a, b).0, EliminatePairs(op1, a, b).1;
    }
    var a2, b2 := a1, b1;
    op2, c2 := And, Y;
    if !SameType(a1, b1) && b1.Bin? {
      op2 := b1.op;
      c2 := EliminatePairsSplits(op2, a1, b1, env);
      a2, b2 := EliminatePairs(op2, a1, b1).0, EliminatePairs(op2, a1, b1).1;
    }
    EliminateYNValue(a2, env);
    EliminateYNValue(b2, env);
  }

  lemma {:induction false} ExprEqValue(a: Expr, b: Expr, env: Env)
    requires Sensible(env) && ExprEq(a, b)
    ensures Value(a, env) == Value(b, env)
    decreases Size(a) + Size(b), 2
  {
    if a.Not? {
      ExprEqValue(a.arg, b.arg, env);
    } else if a.Bin? {
      var _, _, _, _ := EliminateEqSplits(a, b, env);
    }
  }

  /** expr_eq never calls two expressions equal that differ on some assignment, m included. */
  lemma ExprEqSound(a: Expr, b: Expr)
    ensures ExprEq(a, b) ==> Equivalent(a, b)
  {
    if ExprEq(a, b) {
      forall env: Env | Sensible(env) ensures Value(a, env) == Value(b, env) {
        ExprEqValue(a, b, env);
      }
    }
  }

  /** It is not complete: it does not see that a factor absorbs a repetition. */
  lemma ExprEqIncomplete(s: Symbol)
    requires s.Named?
    ensures Equivalent(Bin(And, Sym(s), Sym(s)), Sym(s))
    ensures !ExprEq(Bin(And, Sym(s), Sym(s)), Sym(s))
  {
  }

  /** Striking out keeps the order: what is left decides it. */
  lemma EliminateEqOrder(a: Expr, b: Expr, env: Env)
    requires Sensible(env)
    requires var (x, y) := EliminateEq(a, b); Value(x, env) <= Value(y, env)
    ensures Value(a, env) <= Value(b, env)
  {
    var op1, c1, op2, c2 := EliminateEqSplits(a, b, env);
    var x, y := Value(EliminateEq(a, b).0, env), Value(EliminateEq(a, b).1, env);
    ApplyMonotone(op2, c2, x, y);
    ApplyMonotone(op1, c1, Apply(op2, c2, x), Apply(op2, c2, y));
  }

  // ----- expr_extract_eq -----

  /** As EliminatePairs, but the common operands are collected (the C code links them into *ep). */
  function ExtractPairs(op: Op, common: Option<Expr>, a: Expr, b: Expr): (r: (Option<Expr>, Expr, Expr))
    ensures Size(r.1) <= Size(a) && Size(r.2) <= Size(b)
    decreases Size(a) + Size(b)
  {
    if IsOp(op, a) then
      var (c1, l, b1) := ExtractPairs(op, common, a.left, b);
      var (c2, r, b2) := ExtractPairs(op, c1, a.right, b1);
      (c2, Bin(op, l, r), b2)
    else if IsOp(op, b) then
      var (c1, a1, l) := ExtractPairs(op, common, a, b.left);
      var (c2, a2, r) := ExtractPairs(op, c1, a1, b.right);
      (c2, a2, Bin(op, l, r))
    else if ExprEq(a, b) then
      (Some(if common.None? then a else Bin(op, common.value, a)), Neutral(op), Neutral(op))
    else (common, a, b)
  }

  /** expr_extract_eq_and / expr_extract_eq_or. */
  function ExtractEq(op: Op, a: Expr, b: Expr): (Option<Expr>, Expr, Expr) {
    var (c, a1, b1) := ExtractPairs(op, None, a, b);
    if c.Some? then (c, EliminateYN(a1), EliminateYN(b1)) else (c, a1, b1)
  }

  function OptionValue(op: Op, e: Option<Expr>, env: Env): Tri {
    match e
    case None => Unit(op)
    case Some(x) => Value(x, env)
  }

  lemma {:induction false} ExtractPairsSplits(op: Op, common: Option<Expr>, a: Expr, b: Expr, env: Env)
    returns (c: Tri)
    requires Sensible(env)
    ensures var (k, x, y) := ExtractPairs(op, common, a, b);
      && OptionValue(op, k, env) == Apply(op, OptionValue(op, common, env), c)
      && Value(a, env) == Apply(op, c, Value(x, env))
      && Value(b, env) == Apply(op, c, Value(y, env))
    decreases Size(a) + Size(b)
  {
    hide ExprEq;
    if IsOp(op, a) {
      var (k, l, b1) := ExtractPairs(op, common, a.left, b);
      var (k2, r, b2) := ExtractPairs(op, k, a.right, b1);
      var c1 := ExtractPairsSplits(op, common, a.left, b, env);
      var c2 := ExtractPairsSplits(op, k, a.right, b1, env);
      Regroup(op, c1, c2, Value(l, env), Value(r, env));
      Regroup(op, c1, c2, Value(l, env), Value(b2, env));
      Regroup(op, OptionValue(op, common, env), c1, Value(l, env), c2);
      c := Apply(op, c1, c2);
    } else if IsOp(op, b) {
      var (k, a1, l) := ExtractPairs(op, common, a, b.left);
      var (k2, a2, r) := ExtractPairs(op, k, a1, b.right);
      var c1 := ExtractPairsSplits(op, common, a, b.left, env);
      var c2 := ExtractPairsSplits(op, k, a1, b.right, env);
      Regroup(op, c1, c2, Value(l, env), Value(r, env));
      Regroup(op, c1, c2, Value(l, env), Value(a2, env));
      Regroup(op, OptionValue(op, common, env), c1, Value(l, env), c2);
      c := Apply(op, c1, c2);
    } else if ExprEq(a, b) {
      ExprEqValue(a, b, env);
      c := Value(a, env);
    } else {
      c := Unit(op);
    }
  }

  /** The extracted part is the common operand itself: a = c op a', b = c op b'. */
  lemma ExtractEqSplits(op: Op, a: Expr, b: Expr, env: Env)
    requires Sensible(env)
    ensures var (k, x, y) := ExtractEq(op, a, b); var c := OptionValue(op, k, env);
      Value(a, env) == Apply(op, c, Value(x, env)) && Value(b, env) == Apply(op, c, Value(y, env))
  {
    hide ExtractPairs, EliminateYN, ExprEq, Value;
    var (k, x, y) := ExtractPairs(op, None, a, b);
    var c := ExtractPairsSplits(op, None, a, b, env);
    assert OptionValue(op, k, env) == c;
    EliminateYNValue(x, env);
    EliminateYNValue(y, env);
  }
}

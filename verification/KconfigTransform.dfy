/** expr_transform: comparisons of booleans become literals, negations move down to the
    leaves (util/kconfig/expr.c:636-771). */
module KconfigTransform {
  import opened KconfigExpr

  /** A size that doubles under Not, so that De Morgan makes the tree strictly lighter. */
  function Weight(e: Expr): nat
    ensures Weight(e) > 0
  {
    match e
    case Sym(_) => 1
    case Not(a) => 2 * Weight(a)
    case Cmp(_, _, _) => 2
    case Bin(_, l, r) => 1 + Weight(l) + Weight(r)
  }

  lemma DeMorganLighter(op: Op, l: Expr, r: Expr)
    ensures Weight(Bin(Dual(op), Not(l), Not(r))) < Weight(Not(Bin(op, l, r)))
  {
    assert Weight(Not(l)) == 2 * Weight(l) && Weight(Not(r)) == 2 * Weight(r);
  }

  /** A comparison of a boolean with a built-in constant. */
  function TransformCompare(eq: bool, l: Symbol, r: Symbol): Expr {
    if l.Type() != Boolean then Cmp(eq, l, r)
    else match r
      case No => if eq then Not(Sym(l)) else Sym(l)
      case Mod => if eq then NO else YES
      case Yes => if eq then Sym(l) else Not(Sym(l))
      case _ => Cmp(eq, l, r)
  }

  /** The De Morgan results are handed back to Transform although their operands have been
      transformed before, as in the C code. */
  function Transform(e: Expr): (r: Expr)
    ensures Weight(r) <= Weight(e)
    decreases Weight(e)
  {
    match e
    case Sym(_) => e
    case Cmp(eq, l, r) => TransformCompare(eq, l, r)
    case Bin(op, l, r) => Bin(op, Transform(l), Transform(r))
    case Not(a0) =>
      var a := Transform(a0);
      match a
      case Not(b) => Transform(b)
      case Cmp(eq, l, r) => Cmp(!eq, l, r)
      case Bin(op, l, r) => DeMorganLighter(op, l, r); Transform(Bin(Dual(op), Not(l), Not(r)))
      case Sym(Yes) => NO
      case Sym(Mod) => Sym(Mod)
      case Sym(No) => YES
      case Sym(_) => Not(a)
  }

  /** Negation normal form: Not only above a symbol other than y, m and n, and no boolean
      is compared with one of these three. */
  predicate NNF(e: Expr) {
    match e
    case Sym(_) => true
    case Not(a) => a.Sym? && (a.sym.Named? || a.sym.Literal?)
    case Cmp(eq, l, r) => l.Type() == Boolean ==> r.Named? || r.Literal?
    case Bin(_, l, r) => NNF(l) && NNF(r)
  }

  lemma {:induction false} TransformNNF(e: Expr)
    ensures NNF(Transform(e))
    decreases Weight(e)
  {
    match e
    case Sym(_) =>
    case Cmp(_, _, _) =>
    case Bin(op, l, r) =>
      TransformNNF(l);
      TransformNNF(r);
    case Not(a0) =>
      TransformNNF(a0);
      var a := Transform(a0);
      match a {
        case Not(b) => TransformNNF(b);
        case Bin(op, l, r) => DeMorganLighter(op, l, r); TransformNNF(Bin(Dual(op), Not(l), Not(r)));
        case _ =>
      }
  }

  lemma {:induction false} TransformValue(e: Expr, env: Env)
    requires Sensible(env)
    ensures Value(Transform(e), env) == Value(e, env)
    decreases Weight(e)
  {
    match e
    case Sym(_) =>
    case Cmp(eq, l, r) =>
      if l.Type() == Boolean {
        assert l.Logical();
        assert env.str(l) == TriName(env.tri(l)) && env.tri(l) != M;
      }
    case Bin(op, l, r) =>
      TransformValue(l, env);
      TransformValue(r, env);
    case Not(a0) =>
      TransformValue(a0, env);
      var a := Transform(a0);
      match a {
        case Not(b) => TransformValue(b, env);
        case Bin(op, l, r) => DeMorganLighter(op, l, r); TransformValue(Bin(Dual(op), Not(l), Not(r)), env);
        case _ =>
      }
  }

  /** Meaning is preserved on every assignment, m included. */
  lemma TransformEquivalent(e: Expr)
    ensures Equivalent(e, Transform(e))
  {
    forall env: Env | Sensible(env) ensures Value(e, env) == Value(Transform(e), env) {
      TransformValue(e, env);
    }
  }

  /** The normal forms are exactly the trees that Transform leaves alone. */
  lemma {:induction false} TransformFixed(e: Expr)
    ensures NNF(e) <==> Transform(e) == e
  {
    if Transform(e) == e {
      TransformNNF(e);
    }
    if NNF(e) && e.Bin? {
      TransformFixed(e.left);
      TransformFixed(e.right);
    }
  }
}

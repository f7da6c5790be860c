/** The spine of a sum or product: the nodes reached from its root through nodes of the same
    operator.  The C passes hold pointers to slots of one tree; here a slot is the path that
    leads to it, so two pointers into the same tree alias exactly when their paths agree. */
module KconfigSpine {
  import opened KconfigExpr
  import opened KconfigEquality

  // false: the left operand, true: the right operand
  type Path = seq<bool>

  function Child(e: Expr, right: bool): Expr
    requires e.Bin?
  {
    if right then e.right else e.left
  }

  function WithChild(e: Expr, right: bool, c: Expr): Expr
    requires e.Bin?
  {
    if right then Bin(e.op, e.left, c) else Bin(e.op, c, e.right)
  }

  /** p leads from t through nodes of operator op only. */
  predicate SpinePath(op: Op, t: Expr, p: Path) {
    p == [] || (IsOp(op, t) && SpinePath(op, Child(t, p[0]), p[1..]))
  }

  function At(op: Op, t: Expr, p: Path): (r: Expr)
    requires SpinePath(op, t, p)
    ensures p != [] ==> Size(r) < Size(t)
    decreases p
  {
    if p == [] then t else At(op, Child(t, p[0]), p[1..])
  }

  function Put(op: Op, t: Expr, p: Path, x: Expr): Expr
    requires SpinePath(op, t, p)
    decreases p
  {
    if p == [] then x else WithChild(t, p[0], Put(op, Child(t, p[0]), p[1..], x))
  }

  predicate LeafPath(op: Op, t: Expr, p: Path) {
    SpinePath(op, t, p) && !IsOp(op, At(op, t, p))
  }

  function SpineSize(op: Op, t: Expr): nat {
    if IsOp(op, t) then 1 + SpineSize(op, t.left) + SpineSize(op, t.right) else 0
  }

  /** a and b have their leaves in the same places. */
  predicate SameSpine(op: Op, a: Expr, b: Expr) {
    if IsOp(op, a)
    then IsOp(op, b) && SameSpine(op, a.left, b.left) && SameSpine(op, a.right, b.right)
    else !IsOp(op, b)
  }

  lemma {:induction false} SameSpineReflexive(op: Op, a: Expr)
    ensures SameSpine(op, a, a)
  {
    if IsOp(op, a) {
      SameSpineReflexive(op, a.left);
      SameSpineReflexive(op, a.right);
    }
  }

  lemma {:induction false} SameSpineTransitive(op: Op, a: Expr, b: Expr, c: Expr)
    requires SameSpine(op, a, b) && SameSpine(op, b, c)
    ensures SameSpine(op, a, c)
  {
    if IsOp(op, a) {
      SameSpineTransitive(op, a.left, b.left, c.left);
      SameSpineTransitive(op, a.right, b.right, c.right);
    }
  }

  lemma {:induction false} SameSpinePath(op: Op, a: Expr, b: Expr, p: Path)
    requires SameSpine(op, a, b) && SpinePath(op, a, p)
    ensures SpinePath(op, b, p) && SameSpine(op, At(op, a, p), At(op, b, p))
    decreases p
  {
    if p != [] {
      SameSpinePath(op, Child(a, p[0]), Child(b, p[0]), p[1..]);
    }
  }

  lemma {:induction false} SameSpineSize(op: Op, a: Expr, b: Expr)
    requires SameSpine(op, a, b)
    ensures SpineSize(op, a) == SpineSize(op, b)
  {
    if IsOp(op, a) {
      SameSpineSize(op, a.left, b.left);
      SameSpineSize(op, a.right, b.right);
    }
  }

  lemma {:induction false} AtStep(op: Op, t: Expr, p: Path, right: bool)
    requires SpinePath(op, t, p) && IsOp(op, At(op, t, p))
    ensures SpinePath(op, t, p + [right])
    ensures At(op, t, p + [right]) == Child(At(op, t, p), right)
    decreases p
  {
    if p == [] {
      assert [right][1..] == [];
    } else {
      AtStep(op, Child(t, p[0]), p[1..], right);
      assert (p + [right])[1..] == p[1..] + [right];
    }
  }

  /** A leaf below an inner slot lies below one of its two operands. */
  lemma {:induction false} LeafBelow(op: Op, t: Expr, p: Path, q: Path)
    requires LeafPath(op, t, q) && p <= q
    ensures SpinePath(op, t, p)
    ensures IsOp(op, At(op, t, p)) ==> p + [false] <= q || p + [true] <= q
    ensures !IsOp(op, At(op, t, p)) ==> p == q
    decreases p
  {
    if p == [] {
    } else {
      LeafBelow(op, Child(t, p[0]), p[1..], q[1..]);
      if IsOp(op, At(op, t, p)) {
        assert |p| < |q|;
        assert p + [q[|p|]] <= q;
      }
    }
  }

  // ----- replacing a leaf -----

  lemma {:induction false} PutLeaf(op: Op, t: Expr, p: Path, x: Expr)
    requires LeafPath(op, t, p) && !IsOp(op, x)
    ensures SameSpine(op, t, Put(op, t, p, x))
    ensures LeafPath(op, Put(op, t, p, x), p) && At(op, Put(op, t, p, x), p) == x
    decreases p
  {
    SameSpineReflexive(op, t);
    if p != [] {
      PutLeaf(op, Child(t, p[0]), p[1..], x);
      SameSpineReflexive(op, t.left);
      SameSpineReflexive(op, t.right);
    }
  }

  lemma {:induction false} PutSame(op: Op, t: Expr, p: Path)
    requires SpinePath(op, t, p)
    ensures Put(op, t, p, At(op, t, p)) == t
    decreases p
  {
    if p != [] {
      PutSame(op, Child(t, p[0]), p[1..]);
    }
  }

  lemma {:induction false} PutElsewhere(op: Op, t: Expr, p: Path, x: Expr, q: Path)
    requires LeafPath(op, t, p) && LeafPath(op, t, q) && p != q
    ensures LeafPath(op, Put(op, t, p, x), q)
    ensures At(op, Put(op, t, p, x), q) == At(op, t, q)
    decreases p
  {
    assert p != [] && q != [];
    if p[0] == q[0] {
      assert p == [p[0]] + p[1..] && q == [q[0]] + q[1..];
      PutElsewhere(op, Child(t, p[0]), p[1..], x, q[1..]);
    }
  }

  lemma {:induction false} PutSize(op: Op, t: Expr, p: Path, x: Expr)
    requires SpinePath(op, t, p)
    ensures Size(Put(op, t, p, x)) == Size(t) - Size(At(op, t, p)) + Size(x)
    decreases p
  {
    if p != [] {
      PutSize(op, Child(t, p[0]), p[1..], x);
    }
  }

  lemma {:induction false} PutRank(op: Op, t: Expr, p: Path, x: Expr)
    requires LeafPath(op, t, p) && !IsOp(op, x)
    ensures Rank(At(op, t, p)) <= RankUnder(op, t)
    ensures RankUnder(op, Put(op, t, p, x)) <= MaxNat(RankUnder(op, t), Rank(x))
    decreases p
  {
    if p != [] {
      PutRank(op, Child(t, p[0]), p[1..], x);
    }
  }

  lemma {:induction false} PutReducible(op: Op, t: Expr, p: Path, x: Expr)
    requires SpinePath(op, t, p) && p != []
    requires IsConstant(x) || Reducible(x)
    ensures Reducible(Put(op, t, p, x))
    decreases p
  {
    if |p| > 1 {
      PutReducible(op, Child(t, p[0]), p[1..], x);
    }
  }

  /** What the rest of the spine contributes around slot p. */
  function Context(op: Op, t: Expr, p: Path, env: Env): Tri
    requires SpinePath(op, t, p)
    decreases p
  {
    if p == [] then Unit(op)
    else Apply(op, Context(op, Child(t, p[0]), p[1..], env), Value(Child(t, !p[0]), env))
  }

  lemma {:induction false} PutValue(op: Op, t: Expr, p: Path, x: Expr, env: Env)
    requires SpinePath(op, t, p)
    ensures Value(Put(op, t, p, x), env) == Apply(op, Context(op, t, p, env), Value(x, env))
    decreases p
  {
    hide Value, Apply;
    if p == [] {
      UnitApply(op, Value(x, env));
    } else {
      var l := Put(op, Child(t, p[0]), p[1..], x);
      var other := Value(Child(t, !p[0]), env);
      PutValue(op, Child(t, p[0]), p[1..], x, env);
      WithChildValue(op, t, p[0], l, env);
      Regroup3(op, Context(op, Child(t, p[0]), p[1..], env), Value(x, env), other);
    }
  }

  lemma UnitApply(op: Op, v: Tri)
    ensures Apply(op, Unit(op), v) == v
  {
  }

  lemma WithChildValue(op: Op, t: Expr, right: bool, x: Expr, env: Env)
    requires IsOp(op, t)
    ensures Value(WithChild(t, right, x), env) == Apply(op, Value(x, env), Value(Child(t, !right), env))
  {
    Swap(op, Value(x, env), Value(Child(t, !right), env));
  }

  lemma Regroup3(op: Op, a: Tri, b: Tri, c: Tri)
    ensures Apply(op, Apply(op, a, b), c) == Apply(op, Apply(op, a, c), b)
  {
  }

  lemma SlotValue(op: Op, t: Expr, p: Path, env: Env)
    requires SpinePath(op, t, p)
    ensures Value(t, env) == Apply(op, Context(op, t, p, env), Value(At(op, t, p), env))
  {
    PutSame(op, t, p);
    PutValue(op, t, p, At(op, t, p), env);
  }

  /** Two leaves may be exchanged for any two others with the same joint value. */
  lemma {:induction false} PutTwoValue(op: Op, t: Expr, p: Path, q: Path, x: Expr, y: Expr, env: Env)
    requires LeafPath(op, t, p) && LeafPath(op, t, q) && p != q && !IsOp(op, x)
    requires Apply(op, Value(x, env), Value(y, env))
          == Apply(op, Value(At(op, t, p), env), Value(At(op, t, q), env))
    ensures SpinePath(op, Put(op, t, p, x), q)
    ensures Value(Put(op, Put(op, t, p, x), q, y), env) == Value(t, env)
    decreases p
  {
    assert p != [] && q != [];
    var l, r := Child(t, p[0]), Child(t, q[0]);
    if p[0] == q[0] {
      assert p == [p[0]] + p[1..] && q == [q[0]] + q[1..];
      PutTwoValue(op, l, p[1..], q[1..], x, y, env);
    } else {
      var cl, cr := Context(op, l, p[1..], env), Context(op, r, q[1..], env);
      PutValue(op, l, p[1..], x, env);
      PutValue(op, r, q[1..], y, env);
      SlotValue(op, l, p[1..], env);
      SlotValue(op, r, q[1..], env);
      Regroup(op, cl, cr, Value(x, env), Value(y, env));
      Regroup(op, cl, cr, Value(At(op, t, p), env), Value(At(op, t, q), env));
      Swap(op, Value(l, env), Value(r, env));
      Swap(op, Apply(op, cl, Value(x, env)), Apply(op, cr, Value(y, env)));
    }
  }

  lemma Swap(op: Op, a: Tri, b: Tri)
    ensures Apply(op, a, b) == Apply(op, b, a)
  {
  }
}

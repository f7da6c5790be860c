/** expr_eliminate_dups: joining passes and contradiction passes over a spine until neither
    changes anything (util/kconfig/expr.c:512-634). */
module KconfigDups {
  import opened KconfigExpr
  import opened KconfigEquality
  import opened KconfigSpine
  import opened KconfigJoin
  import opened KconfigTidy

  // ----- what the passes have dealt with -----

  ghost predicate JoinedBetween(op: Op, t: Expr, p1: Path, p2: Path)
    requires IsOp(op, t)
  {
    forall a: Path, b: Path {:trigger LeafPath(op, t, a), LeafPath(op, t, b)} ::
      LeafPath(op, t, a) && LeafPath(op, t, b) && p1 <= a && p2 <= b && a != b ==>
        NoJoinPair(op, t, a, b)
  }

  ghost predicate ConsistentBetween(op: Op, t: Expr, p1: Path, p2: Path)
    requires IsOp(op, t)
  {
    forall a: Path, b: Path {:trigger LeafPath(op, t, a), SpinePath(op, t, b)} ::
      LeafPath(op, t, a) && SpinePath(op, t, b) && p1 <= a && p2 <= b && a != b ==>
        NoContradictionPair(op, t, a, b)
  }

  // ----- what every step of a pass keeps -----

  /** The leaves stay in place and the tree grows neither in size nor in alternation. */
  ghost predicate Tame(op: Op, t: Expr, r: Expr) {
    && IsOp(op, t) && IsOp(op, r) && SameSpine(op, t, r)
    && Size(r) <= Size(t) && Rank(r) <= Rank(t)
  }

  lemma TameTransitive(op: Op, a: Expr, b: Expr, c: Expr)
    requires Tame(op, a, b) && Tame(op, b, c)
    ensures Tame(op, a, c)
  {
    SameSpineTransitive(op, a, b, c);
  }

  lemma TameReflexive(op: Op, a: Expr)
    requires IsOp(op, a)
    ensures Tame(op, a, a)
  {
    SameSpineReflexive(op, a);
  }

  lemma PutTame(op: Op, t: Expr, p: Path, x: Expr)
    requires IsOp(op, t) && LeafPath(op, t, p) && !IsOp(op, x)
    requires Size(x) <= Size(At(op, t, p)) && Rank(x) <= Rank(At(op, t, p))
    ensures Tame(op, t, Put(op, t, p, x))
  {
    PutLeaf(op, t, p, x);
    PutSize(op, t, p, x);
    PutRank(op, t, p, x);
  }

  lemma JoinTame(op: Op, t: Expr, p: Path, q: Path, x: Expr)
    requires IsOp(op, t) && LeafPath(op, t, p) && LeafPath(op, t, q) && p != q
    requires !IsOp(op, x) && Size(x) <= Size(At(op, t, p)) && Rank(x) <= Rank(At(op, t, p))
    ensures LeafPath(op, Put(op, t, p, Neutral(op)), q)
    ensures Tame(op, t, Put(op, Put(op, t, p, Neutral(op)), q, x))
    ensures Reducible(Put(op, Put(op, t, p, Neutral(op)), q, x))
  {
    var u := Put(op, t, p, Neutral(op));
    PutLeaf(op, t, p, Neutral(op));
    PutElsewhere(op, t, p, Neutral(op), q);
    PutLeaf(op, u, q, x);
    PutSize(op, t, p, Neutral(op));
    PutSize(op, u, q, x);
    PutRank(op, t, p, Neutral(op));
    PutRank(op, u, q, x);
    SameSpineTransitive(op, t, u, Put(op, u, q, x));
    PutElsewhere(op, u, q, x, p);
    PutSame(op, Put(op, u, q, x), p);
    PutReducible(op, Put(op, u, q, x), p, Neutral(op));
  }

  lemma PutEquivalent(op: Op, t: Expr, p: Path, x: Expr)
    requires SpinePath(op, t, p) && Equivalent(At(op, t, p), x)
    ensures Equivalent(t, Put(op, t, p, x))
  {
    forall env: Env | Sensible(env) ensures Value(t, env) == Value(Put(op, t, p, x), env) {
      SlotValue(op, t, p, env);
      PutValue(op, t, p, x, env);
    }
  }

  lemma PutRefines(op: Op, t: Expr, p: Path, x: Expr)
    requires SpinePath(op, t, p) && Refines(At(op, t, p), x)
    ensures Refines(t, Put(op, t, p, x))
  {
    forall env: Env | Sensible(env) && Value(t, env) != M
      ensures Value(Put(op, t, p, x), env) == Value(t, env)
    {
      SlotValue(op, t, p, env);
      PutValue(op, t, p, x, env);
    }
  }

  lemma JoinEquivalent(op: Op, t: Expr, p: Path, q: Path)
    requires LeafPath(op, t, p) && LeafPath(op, t, q) && p != q
    requires Join(op, At(op, t, p), At(op, t, q)).Some?
    ensures SpinePath(op, Put(op, t, p, Neutral(op)), q)
    ensures Equivalent(t, Put(op, Put(op, t, p, Neutral(op)), q, Join(op, At(op, t, p), At(op, t, q)).value))
  {
    PutElsewhere(op, t, p, Neutral(op), q);
    var x := Join(op, At(op, t, p), At(op, t, q)).value;
    forall env: Env | Sensible(env)
      ensures Value(t, env) == Value(Put(op, Put(op, t, p, Neutral(op)), q, x), env)
    {
      JoinValue(op, At(op, t, p), At(op, t, q), env);
      PutTwoValue(op, t, p, q, Neutral(op), x, env);
    }
  }

  lemma ContradictionRefines(op: Op, t: Expr, p: Path, q: Path)
    requires SpinePath(op, t, p) && SpinePath(op, t, q)
    requires Contradicts(op, At(op, t, p), At(op, t, q))
    ensures Refines(t, Put(op, t, p, Neutral(Dual(op))))
  {
    forall env: Env | Sensible(env) && Value(t, env) != M
      ensures Value(Put(op, t, p, Neutral(Dual(op))), env) == Value(t, env)
    {
      ContradictionExact(op, t, p, q, env);
    }
  }

  lemma EquivalentTransitive(a: Expr, b: Expr, c: Expr)
    requires Equivalent(a, b) && Equivalent(b, c)
    ensures Equivalent(a, c)
  {
    forall env: Env | Sensible(env) ensures Value(a, env) == Value(c, env) {
      assert Value(a, env) == Value(b, env);
    }
  }

  lemma RefinesTransitive(a: Expr, b: Expr, c: Expr)
    requires Refines(a, b) && Refines(b, c)
    ensures Refines(a, c)
  {
    forall env: Env | Sensible(env) && Value(a, env) != M ensures Value(c, env) == Value(a, env) {
      assert Value(a, env) == Value(b, env);
    }
  }

  lemma EquivalentRefines(a: Expr, b: Expr)
    requires Equivalent(a, b)
    ensures Refines(a, b)
  {
    forall env: Env | Sensible(env) && Value(a, env) != M ensures Value(b, env) == Value(a, env) {
      assert Value(a, env) == Value(b, env);
    }
  }

  lemma LeafRank(op: Op, t: Expr, p: Path)
    requires IsOp(op, t) && LeafPath(op, t, p)
    ensures Rank(At(op, t, p)) < Rank(t)
  {
    PutRank(op, t, p, At(op, t, p));
  }

  // ----- expr_eliminate_dups1 -----

  /** p1 and p2 are the two slots.  A join empties the first slot and counts one rewrite. */
  method Dups1(op: Op, t: Expr, p1: Path, p2: Path, count: nat) returns (r: Expr, n: nat)
    requires IsOp(op, t) && SpinePath(op, t, p1) && SpinePath(op, t, p2)
    ensures Tame(op, t, r) && Equivalent(t, r)
    ensures n >= count
    ensures n > count ==> Reducible(r)
    ensures n == count ==> r == t && JoinedBetween(op, t, p1, p2)
    decreases Rank(t), SpineSize(op, At(op, t, p1)) + SpineSize(op, At(op, t, p2))
  {
    if IsOp(op, At(op, t, p1)) {
      AtStep(op, t, p1, false);
      AtStep(op, t, p1, true);
      r, n := Dups1(op, t, p1 + [false], p2, count);
      ghost var u := r;
      SameSpinePath(op, t, r, p1 + [true]);
      SameSpinePath(op, t, r, p2);
      SameSpineSize(op, At(op, t, p1 + [true]), At(op, r, p1 + [true]));
      SameSpineSize(op, At(op, t, p2), At(op, r, p2));
      r, n := Dups1(op, r, p1 + [true], p2, n);
      TameTransitive(op, t, u, r);
      EquivalentTransitive(t, u, r);
      if n == count {
        JoinedSplitFirst(op, t, p1, p2);
      }
      return;
    }
    if IsOp(op, At(op, t, p2)) {
      AtStep(op, t, p2, false);
      AtStep(op, t, p2, true);
      r, n := Dups1(op, t, p1, p2 + [false], count);
      ghost var u := r;
      SameSpinePath(op, t, r, p2 + [true]);
      SameSpinePath(op, t, r, p1);
      SameSpineSize(op, At(op, t, p2 + [true]), At(op, r, p2 + [true]));
      SameSpineSize(op, At(op, t, p1), At(op, r, p1));
      r, n := Dups1(op, r, p1, p2 + [true], n);
      TameTransitive(op, t, u, r);
      EquivalentTransitive(t, u, r);
      if n == count {
        JoinedSplitSecond(op, t, p1, p2);
      }
      return;
    }
    r, n := t, count;
    TameReflexive(op, t);
    if p1 == p2 {
      JoinedSelf(op, t, p1);
      return;
    }
    var a := At(op, t, p1);
    if a.Bin? {
      LeafRank(op, t, p1);
      var a';
      a', n := Dups1(a.op, a, [], [], n);
      r := Put(op, t, p1, a');
      PutTame(op, t, p1, a');
      PutEquivalent(op, t, p1, a');
      PutLeaf(op, t, p1, a');
      PutElsewhere(op, t, p1, a', p2);
      if n > count {
        PutReducible(op, t, p1, a');
      } else {
        PutSame(op, t, p1);
        JoinedWhole(a.op, a);
      }
    }
    var j := Join(op, At(op, r, p1), At(op, r, p2));
    if j.Some? {
      ghost var u := r;
      JoinShape(op, At(op, r, p1), At(op, r, p2));
      JoinTame(op, r, p1, p2, j.value);
      JoinEquivalent(op, r, p1, p2);
      r := Put(op, Put(op, r, p1, Neutral(op)), p2, j.value);
      TameTransitive(op, t, u, r);
      EquivalentTransitive(t, u, r);
      n := n + 1;
    } else if n == count {
      JoinedLeaves(op, t, p1, p2);
    }
  }

  lemma JoinedSplitFirst(op: Op, t: Expr, p1: Path, p2: Path)
    requires IsOp(op, t) && SpinePath(op, t, p1) && IsOp(op, At(op, t, p1))
    requires JoinedBetween(op, t, p1 + [false], p2) && JoinedBetween(op, t, p1 + [true], p2)
    ensures JoinedBetween(op, t, p1, p2)
  {
    forall a: Path, b: Path | LeafPath(op, t, a) && LeafPath(op, t, b) && p1 <= a && p2 <= b && a != b
      ensures NoJoinPair(op, t, a, b)
    {
      LeafBelow(op, t, p1, a);
    }
  }

  lemma JoinedSplitSecond(op: Op, t: Expr, p1: Path, p2: Path)
    requires IsOp(op, t) && SpinePath(op, t, p2) && IsOp(op, At(op, t, p2))
    requires JoinedBetween(op, t, p1, p2 + [false]) && JoinedBetween(op, t, p1, p2 + [true])
    ensures JoinedBetween(op, t, p1, p2)
  {
    forall a: Path, b: Path | LeafPath(op, t, a) && LeafPath(op, t, b) && p1 <= a && p2 <= b && a != b
      ensures NoJoinPair(op, t, a, b)
    {
      LeafBelow(op, t, p2, b);
    }
  }

  lemma JoinedSelf(op: Op, t: Expr, p: Path)
    requires IsOp(op, t) && LeafPath(op, t, p)
    ensures JoinedBetween(op, t, p, p)
  {
    forall a: Path | LeafPath(op, t, a) && p <= a ensures a == p {
      LeafBelow(op, t, p, a);
    }
  }

  lemma JoinedLeaves(op: Op, t: Expr, p1: Path, p2: Path)
    requires IsOp(op, t) && LeafPath(op, t, p1) && LeafPath(op, t, p2) && p1 != p2
    requires NoJoinPair(op, t, p1, p2)
    ensures JoinedBetween(op, t, p1, p2)
  {
    forall a: Path, b: Path | LeafPath(op, t, a) && LeafPath(op, t, b) && p1 <= a && p2 <= b && a != b
      ensures NoJoinPair(op, t, a, b)
    {
      LeafBelow(op, t, p1, a);
      LeafBelow(op, t, p2, b);
    }
  }

  lemma JoinedWhole(op: Op, t: Expr)
    requires IsOp(op, t) && JoinedBetween(op, t, [], [])
    ensures NoJoin(t)
  {
  }

  // ----- expr_eliminate_dups2 -----

  /** Unlike the first pass, this one goes on to hold the first operand against the inner
      nodes of the spine too, after it has visited their operands. */
  method Dups2(op: Op, t: Expr, p1: Path, p2: Path, count: nat) returns (r: Expr, n: nat)
    requires IsOp(op, t) && SpinePath(op, t, p1) && SpinePath(op, t, p2)
    ensures Tame(op, t, r) && Refines(t, r)
    ensures n >= count
    ensures n > count ==> Reducible(r)
    ensures n == count ==> r == t && ConsistentBetween(op, t, p1, p2)
    decreases Rank(t), SpineSize(op, At(op, t, p1)) + SpineSize(op, At(op, t, p2)), 1
  {
    if IsOp(op, At(op, t, p1)) {
      AtStep(op, t, p1, false);
      AtStep(op, t, p1, true);
      r, n := Dups2(op, t, p1 + [false], p2, count);
      ghost var u := r;
      SameSpinePath(op, t, r, p1 + [true]);
      SameSpinePath(op, t, r, p2);
      SameSpineSize(op, At(op, t, p1 + [true]), At(op, r, p1 + [true]));
      SameSpineSize(op, At(op, t, p2), At(op, r, p2));
      r, n := Dups2(op, r, p1 + [true], p2, n);
      TameTransitive(op, t, u, r);
      RefinesTransitive(t, u, r);
      if n == count {
        ConsistentSplitFirst(op, t, p1, p2);
      }
      return;
    }
    r, n := t, count;
    TameReflexive(op, t);
    if IsOp(op, At(op, t, p2)) {
      AtStep(op, t, p2, false);
      AtStep(op, t, p2, true);
      r, n := Dups2(op, t, p1, p2 + [false], count);
      ghost var u := r;
      SameSpinePath(op, t, r, p2 + [true]);
      SameSpinePath(op, t, r, p1);
      SameSpineSize(op, At(op, t, p2 + [true]), At(op, r, p2 + [true]));
      SameSpineSize(op, At(op, t, p1), At(op, r, p1));
      r, n := Dups2(op, r, p1, p2 + [true], n);
      TameTransitive(op, t, u, r);
      RefinesTransitive(t, u, r);
      SameSpinePath(op, t, r, p1);
      SameSpinePath(op, t, r, p2);
    }
    if p1 == p2 {
      ConsistentSelf(op, t, p1);
      return;
    }
    ghost var u := r;
    r, n := Dups2Slot(op, r, p1, p2, n);
    TameTransitive(op, t, u, r);
    RefinesTransitive(t, u, r);
    if n == count {
      if IsOp(op, At(op, t, p2)) {
        ConsistentSplitSecond(op, t, p1, p2);
      } else {
        ConsistentLeaves(op, t, p1, p2);
      }
    }
  }

  /** The body of the switch: clean up the first operand, then hold it against the second. */
  method Dups2Slot(op: Op, t: Expr, p1: Path, p2: Path, count: nat) returns (r: Expr, n: nat)
    requires LeafPath(op, t, p1) && IsOp(op, t) && SpinePath(op, t, p2) && p1 != p2
    ensures Tame(op, t, r) && Refines(t, r)
    ensures n >= count
    ensures n > count ==> Reducible(r)
    ensures n == count ==> r == t && NoContradictionPair(op, t, p1, p2)
    decreases Rank(t), 0, 0
  {
    r, n := t, count;
    TameReflexive(op, t);
    var a := At(op, t, p1);
    if a.Bin? {
      LeafRank(op, t, p1);
      var a';
      a', n := Dups2(a.op, a, [], [], n);
      r := Put(op, t, p1, a');
      PutTame(op, t, p1, a');
      PutRefines(op, t, p1, a');
      PutLeaf(op, t, p1, a');
      SameSpinePath(op, t, r, p2);
      if n > count {
        PutReducible(op, t, p1, a');
      } else {
        PutSame(op, t, p1);
        ConsistentWhole(a.op, a);
      }
      if Contradicts(op, a', At(op, r, p2)) {
        ghost var u := r;
        ContradictionRefines(op, r, p1, p2);
        PutTame(op, r, p1, Neutral(Dual(op)));
        PutReducible(op, r, p1, Neutral(Dual(op)));
        r := Put(op, r, p1, Neutral(Dual(op)));
        TameTransitive(op, t, u, r);
        RefinesTransitive(t, u, r);
        n := n + 1;
      }
    }
  }

  lemma ConsistentSplitFirst(op: Op, t: Expr, p1: Path, p2: Path)
    requires IsOp(op, t) && SpinePath(op, t, p1) && IsOp(op, At(op, t, p1))
    requires ConsistentBetween(op, t, p1 + [false], p2) && ConsistentBetween(op, t, p1 + [true], p2)
    ensures ConsistentBetween(op, t, p1, p2)
  {
    forall a: Path, b: Path | LeafPath(op, t, a) && SpinePath(op, t, b) && p1 <= a && p2 <= b && a != b
      ensures NoContradictionPair(op, t, a, b)
    {
      LeafBelow(op, t, p1, a);
    }
  }

  lemma ConsistentSplitSecond(op: Op, t: Expr, p1: Path, p2: Path)
    requires IsOp(op, t) && LeafPath(op, t, p1) && SpinePath(op, t, p2) && p1 != p2
    requires IsOp(op, At(op, t, p2))
    requires ConsistentBetween(op, t, p1, p2 + [false]) && ConsistentBetween(op, t, p1, p2 + [true])
    requires NoContradictionPair(op, t, p1, p2)
    ensures ConsistentBetween(op, t, p1, p2)
  {
    hide NoContradictionPair;
    forall a: Path, b: Path | LeafPath(op, t, a) && SpinePath(op, t, b) && p1 <= a && p2 <= b && a != b
      ensures NoContradictionPair(op, t, a, b)
    {
      LeafBelow(op, t, p1, a);
      if b != p2 {
        StepTowards(p2, b);
        if b[|p2|] {
          BetweenAt(op, t, p1, p2 + [true], a, b);
        } else {
          BetweenAt(op, t, p1, p2 + [false], a, b);
        }
      }
    }
  }

  lemma StepTowards(p: Path, q: Path)
    requires p <= q && p != q
    ensures |p| < |q| && p + [q[|p|]] <= q
  {
  }

  lemma BetweenAt(op: Op, t: Expr, p1: Path, p2: Path, a: Path, b: Path)
    requires IsOp(op, t) && ConsistentBetween(op, t, p1, p2)
    requires LeafPath(op, t, a) && SpinePath(op, t, b) && p1 <= a && p2 <= b && a != b
    ensures NoContradictionPair(op, t, a, b)
  {
  }

  lemma {:induction false} BelowLeaf(op: Op, t: Expr, p: Path, q: Path)
    requires LeafPath(op, t, p) && SpinePath(op, t, q) && p <= q
    ensures p == q
    decreases p
  {
    if p != [] {
      BelowLeaf(op, Child(t, p[0]), p[1..], q[1..]);
    }
  }

  lemma ConsistentSelf(op: Op, t: Expr, p: Path)
    requires IsOp(op, t) && LeafPath(op, t, p)
    ensures ConsistentBetween(op, t, p, p)
  {
    forall a: Path | SpinePath(op, t, a) && p <= a ensures a == p {
      BelowLeaf(op, t, p, a);
    }
  }

  lemma ConsistentLeaves(op: Op, t: Expr, p1: Path, p2: Path)
    requires IsOp(op, t) && LeafPath(op, t, p1) && LeafPath(op, t, p2) && p1 != p2
    requires NoContradictionPair(op, t, p1, p2)
    ensures ConsistentBetween(op, t, p1, p2)
  {
    forall a: Path, b: Path | LeafPath(op, t, a) && SpinePath(op, t, b) && p1 <= a && p2 <= b && a != b
      ensures NoContradictionPair(op, t, a, b)
    {
      LeafBelow(op, t, p1, a);
      BelowLeaf(op, t, p2, b);
    }
  }

  lemma ConsistentWhole(op: Op, t: Expr)
    requires IsOp(op, t) && ConsistentBetween(op, t, [], [])
    ensures NoContradiction(t)
  {
  }

  // ----- expr_eliminate_dups -----

  /** The result keeps every definite answer, it equals the input on all three values when no
      contradiction was struck out, and nothing is left to join or to strike out. */
  method EliminateDups(e: Expr) returns (r: Expr, contradictions: nat)
    ensures Refines(e, r)
    ensures contradictions == 0 ==> Equivalent(e, r)
    ensures NoJoin(r) && NoContradiction(r) && Tidy(r) && Consistent(r)
    ensures r != e ==> Size(r) < Size(e)
  {
    hide Tidy, Consistent;
    r, contradictions := e, 0;
    while true
      invariant Refines(e, r)
      invariant contradictions == 0 ==> Equivalent(e, r)
      invariant r != e ==> Size(r) < Size(e)
      decreases Size(r)
    {
      var before := r;
      var n, k := 0, 0;
      if r.Bin? {
        r, n := Dups1(r.op, r, [], [], 0);
        ghost var joined := r;
        if contradictions == 0 {
          EquivalentTransitive(e, before, r);
        }
        EquivalentRefines(before, r);
        r, k := Dups2(r.op, r, [], [], n);
        RefinesTransitive(before, joined, r);
        RefinesTransitive(e, before, r);
        if k == 0 {
          JoinedWhole(r.op, r);
          ConsistentWhole(r.op, r);
        }
      }
      if k == 0 {
        JoinedTidy(r);
        NoContradictionConsistent(r);
        return;
      }
      contradictions := contradictions + (k - n);
      EliminateYNEquivalent(r);
      EliminateYNShrinks(r);
      EquivalentRefines(r, EliminateYN(r));
      RefinesTransitive(e, r, EliminateYN(r));
      if contradictions == 0 {
        EquivalentTransitive(e, r, EliminateYN(r));
      }
      r := EliminateYN(r);
    }
  }

  /** On an assignment of y and n only, a refinement of e has e's value. */
  lemma {:induction false} DefiniteValue(e: Expr, env: Env)
    requires Definite(e, env)
    ensures Value(e, env) != M
  {
    if e.Bin? {
      DefiniteValue(e.left, env);
      DefiniteValue(e.right, env);
    } else if e.Not? {
      DefiniteValue(e.arg, env);
    }
  }

  predicate Definite(e: Expr, env: Env) {
    match e
    case Sym(s) => env.tri(s) != M
    case Not(a) => Definite(a, env)
    case Cmp(_, _, _) => true
    case Bin(_, l, r) => Definite(l, env) && Definite(r, env)
  }

  lemma RefinementExactOnDefinite(e: Expr, r: Expr, env: Env)
    requires Refines(e, r) && Sensible(env) && Definite(e, env)
    ensures Value(r, env) == Value(e, env)
  {
    DefiniteValue(e, env);
  }
}

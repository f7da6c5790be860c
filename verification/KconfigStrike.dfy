/** What expr_eliminate_eq and expr_eq are sure to find: literals, in any order
    (util/kconfig/expr.c:130-229). */
module KconfigStrike {
  import opened KconfigExpr
  import opened KconfigEquality
  import opened KconfigSpine
  import opened KconfigTidy
  import opened KconfigNesting
  import opened Common

  /** Different literals, some of them already struck out. */
  predicate Partly(op: Op, xs: seq<Expr>) {
    && (forall x :: x in xs ==> IsLiteral(x) || x == Neutral(op))
    && forall i, j :: 0 <= i < j < |xs| ==> xs[i] != xs[j] || xs[i] == Neutral(op)
  }

  /** ys is xs with some literals struck out. */
  predicate Struck(op: Op, xs: seq<Expr>, ys: seq<Expr>) {
    |ys| == |xs| && forall i :: 0 <= i < |xs| ==> ys[i] == xs[i] || ys[i] == Neutral(op)
  }

  lemma PartlyParts(op: Op, l: seq<Expr>, r: seq<Expr>)
    requires Partly(op, l + r)
    ensures Partly(op, l) && Partly(op, r)
    ensures forall x :: x in l && x in r ==> x == Neutral(op)
  {
    var s := l + r;
    assert forall i :: 0 <= i < |l| ==> s[i] == l[i];
    assert forall i :: 0 <= i < |r| ==> s[|l| + i] == r[i];
    forall i, j | 0 <= i < |l| && 0 <= j < |r| ensures l[i] != r[j] || l[i] == Neutral(op) {
      assert s[i] != s[|l| + j] || s[i] == Neutral(op);
    }
  }

  lemma StruckPartly(op: Op, xs: seq<Expr>, ys: seq<Expr>)
    requires Partly(op, xs) && Struck(op, xs, ys)
    ensures Partly(op, ys)
  {
    hide IsLiteral;
  }

  lemma StruckTwice(op: Op, xs: seq<Expr>, ys: seq<Expr>, zs: seq<Expr>)
    requires Struck(op, xs, ys) && Struck(op, ys, zs)
    ensures Struck(op, xs, zs)
  {
  }

  lemma StruckParts(op: Op, l: seq<Expr>, r: seq<Expr>, l': seq<Expr>, r': seq<Expr>)
    requires Struck(op, l, l') && Struck(op, r, r')
    ensures Struck(op, l + r, l' + r')
  {
  }

  /** One leaf against a sum or product of different literals. */
  lemma {:induction false} StrikeLeaf(op: Op, x: Expr, b: Expr)
    requires !IsOp(op, x) && Partly(op, Operands(op, b))
    ensures var (x', b') := EliminatePairs(op, x, b);
      && (x' == x || x' == Neutral(op))
      && Struck(op, Operands(op, b), Operands(op, b'))
      && (IsLiteral(x) && x in Operands(op, b) ==> x' == Neutral(op) && x !in Operands(op, b'))
      && (IsLiteral(x) && x !in Operands(op, b) ==> x' == x)
      && (IsLiteral(x) || x == Neutral(op) ==>
            forall m :: m in Operands(op, b) && IsLiteral(m) && m != x ==> m in Operands(op, b'))
    decreases b
  {
    hide IsLiteral, ExprEq;
    if IsOp(op, b) {
      var l, r := Operands(op, b.left), Operands(op, b.right);
      PartlyParts(op, l, r);
      var (x1, l') := EliminatePairs(op, x, b.left);
      StrikeLeaf(op, x, b.left);
      NeutralLeaf(op);
      var (x2, r') := EliminatePairs(op, x1, b.right);
      StrikeLeaf(op, x1, b.right);
      StruckParts(op, l, r, Operands(op, l'), Operands(op, r'));
      assert Operands(op, Bin(op, l', r')) == Operands(op, l') + Operands(op, r');
      if IsLiteral(x) {
        StruckStays(op, r, Operands(op, r'), x);
      }
    } else {
      assert Operands(op, b) == [b] && b in Operands(op, b);
      LiteralOnly(op, x, b);
    }
  }

  lemma NeutralLeaf(op: Op)
    ensures !IsLiteral(Neutral(op)) && !IsOp(op, Neutral(op))
  {
  }

  lemma StruckStays(op: Op, xs: seq<Expr>, ys: seq<Expr>, x: Expr)
    requires Struck(op, xs, ys) && IsLiteral(x)
    ensures x !in xs ==> x !in ys
  {
    NeutralLeaf(op);
    hide IsLiteral;
  }

  /** A leaf against a leaf. */
  lemma LiteralOnly(op: Op, x: Expr, b: Expr)
    requires !IsOp(op, x) && (IsLiteral(b) || b == Neutral(op))
    ensures IsLiteral(x) ==> (ExprEq(x, b) <==> x == b) && !IsConstant(x)
    ensures x == Neutral(op) ==> (ExprEq(x, b) <==> x == b)
    ensures !IsOp(op, b) && Operands(op, b) == [b] && Operands(op, Neutral(op)) == [Neutral(op)]
  {
    if IsLiteral(x) || x == Neutral(op) {
      LiteralEqual(x, b);
    }
  }

  /** Every literal of b that is an operand of a is struck out of b. */
  lemma {:induction false} StrikeAll(op: Op, a: Expr, b: Expr)
    requires Partly(op, Operands(op, b))
    ensures var b' := EliminatePairs(op, a, b).1;
      && Struck(op, Operands(op, b), Operands(op, b'))
      && forall x :: x in Operands(op, a) && IsLiteral(x) ==> x !in Operands(op, b')
    decreases a
  {
    hide IsLiteral, ExprEq;
    if IsOp(op, a) {
      var b1 := EliminatePairs(op, a.left, b).1;
      StrikeAll(op, a.left, b);
      StruckPartly(op, Operands(op, b), Operands(op, b1));
      StrikeAll(op, a.right, b1);
      var b2 := EliminatePairs(op, a.right, b1).1;
      StruckTwice(op, Operands(op, b), Operands(op, b1), Operands(op, b2));
      forall x | x in Operands(op, a) && IsLiteral(x) ensures x !in Operands(op, b2) {
        StruckStays(op, Operands(op, b1), Operands(op, b2), x);
      }
    } else {
      assert Operands(op, a) == [a];
      StrikeLeaf(op, a, b);
      var b' := EliminatePairs(op, a, b).1;
      if IsLiteral(a) {
        StruckStays(op, Operands(op, b), Operands(op, b'), a);
      }
    }
  }

  lemma {:induction false} AllNeutral(op: Op, b: Expr)
    requires forall x :: x in Operands(op, b) ==> x == Neutral(op)
    ensures EliminateYN(b) == Neutral(op)
    decreases b
  {
    if IsOp(op, b) {
      var l, r := Operands(op, b.left), Operands(op, b.right);
      assert Operands(op, b) == l + r;
      forall x | x in l || x in r ensures x == Neutral(op) {
        assert x in l + r;
      }
      AllNeutral(op, b.left);
      AllNeutral(op, b.right);
    } else {
      assert b in Operands(op, b);
    }
  }

  /** When all literals of b are operands of a nothing is left of b. */
  lemma StruckOut(op: Op, a: Expr, b: Expr)
    requires Literals(Operands(op, b)) && Different(Operands(op, b))
    requires forall x :: x in Operands(op, b) ==> x in Operands(op, a)
    ensures EliminateYN(EliminatePairs(op, a, b).1) == Neutral(op)
    ensures var b' := EliminatePairs(op, a, b).1; forall x :: x in Operands(op, b') ==> x == Neutral(op)
  {
    hide IsLiteral, EliminatePairs;
    StrikeAll(op, a, b);
    var xs, ys := Operands(op, b), Operands(op, EliminatePairs(op, a, b).1);
    forall y | y in ys ensures y == Neutral(op) {
      var i :| 0 <= i < |ys| && ys[i] == y;
      assert xs[i] in xs;
    }
    AllNeutral(op, EliminatePairs(op, a, b).1);
  }

  /** When all literals of a are operands of b nothing is left of a, and b keeps the others. */
  lemma {:induction false} StruckFirst(op: Op, a: Expr, b: Expr)
    requires Literals(Operands(op, a)) && Different(Operands(op, a)) && Partly(op, Operands(op, b))
    requires forall x :: x in Operands(op, a) ==> x in Operands(op, b)
    ensures var (a', b') := EliminatePairs(op, a, b);
      && EliminateYN(a') == Neutral(op) && (IsOp(op, a') <==> IsOp(op, a))
      && Struck(op, Operands(op, b), Operands(op, b'))
      && forall m :: m in Operands(op, b) && IsLiteral(m) && m !in Operands(op, a) ==> m in Operands(op, b')
    decreases a
  {
    hide IsLiteral, ExprEq;
    if IsOp(op, a) {
      var l, r := Operands(op, a.left), Operands(op, a.right);
      DifferentParts(l, r);
      assert (forall x :: x in l ==> x in l + r) && (forall x :: x in r ==> x in l + r);
      var b1 := EliminatePairs(op, a.left, b).1;
      StruckFirst(op, a.left, b);
      StruckPartly(op, Operands(op, b), Operands(op, b1));
      StruckFirst(op, a.right, b1);
      StruckTwice(op, Operands(op, b), Operands(op, b1), Operands(op, EliminatePairs(op, a.right, b1).1));
    } else {
      assert Operands(op, a) == [a] && a in Operands(op, a);
      StrikeLeaf(op, a, b);
      NeutralLeaf(op);
    }
  }

  lemma {:induction false} KeepsOp(op: Op, a: Expr, b: Expr)
    ensures IsOp(op, b) && !IsOp(op, a) ==> IsOp(op, EliminatePairs(op, a, b).1)
    ensures IsOp(op, b) && IsOp(op, a) ==> IsOp(op, EliminatePairs(op, a, b).1) && IsOp(op, EliminatePairs(op, a, b).0)
    decreases a
  {
    hide ExprEq;
    if IsOp(op, a) {
      KeepsOp(op, a.left, b);
      KeepsOp(op, a.right, EliminatePairs(op, a.left, b).1);
    }
  }

  /** Two sums, or two products, of the same different literals are equal to expr_eq, whatever their
      order and nesting. */
  lemma SameLiteralsEqual(op: Op, a: Expr, b: Expr)
    requires IsOp(op, a) && IsOp(op, b)
    requires Literals(Operands(op, a)) && Different(Operands(op, a))
    requires Literals(Operands(op, b)) && Different(Operands(op, b))
    requires forall x :: x in Operands(op, a) <==> x in Operands(op, b)
    ensures ExprEq(a, b)
  {
    hide IsLiteral, EliminatePairs;
    StruckFirst(op, a, b);
    StruckOut(op, a, b);
    KeepsOp(op, a, b);
  }

  /** A later entry whose condition is a product that has every literal of the parent's condition
      passes the nesting test, if it mentions the parent's symbol. */
  lemma PassesByLiterals(dep: Option<Expr>, s: Symbol, d: Expr, base: Expr)
    requires Mentions(dep, s) && IsOp(And, d)
    requires Literals(Operands(And, base)) && Different(Operands(And, base))
    requires forall x :: x in Operands(And, base) ==> x in Operands(And, d)
    ensures Test(dep, s, d, base)
  {
    hide IsLiteral, EliminatePairs;
    StruckOut(And, d, base);
    KeepsOp(And, d, base);
    if !IsOp(And, base) {
      LeafLiteral(base);
      StrikeLeafResult(d, base);
    }
  }

  lemma LeafLiteral(b: Expr)
    requires !IsOp(And, b) && Literals(Operands(And, b))
    ensures IsLiteral(b) && !b.Bin? && Operands(And, b) == [b]
  {
    assert b in Operands(And, b);
  }

  lemma {:induction false} StrikeLeafResult(d: Expr, base: Expr)
    requires !base.Bin?
    ensures !EliminatePairs(And, d, base).1.Bin?
    decreases d
  {
    hide ExprEq;
    if IsOp(And, d) {
      StrikeLeafResult(d.left, base);
      StrikeLeafResult(d.right, EliminatePairs(And, d.left, base).1);
    }
  }
}

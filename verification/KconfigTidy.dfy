/** What expr_eliminate_dups leaves, by shape: which operands no longer stand side by side
    (util/kconfig/expr.c:346-502, 556-634). */
module KconfigTidy {
  import opened Common
  import opened KconfigExpr
  import opened KconfigTransform
  import opened KconfigEquality
  import opened KconfigSpine
  import opened KconfigJoin

  // ----- what the passes look for -----

  /** No two operands of any spine of e (above negations) can be joined. */
  ghost predicate NoJoin(e: Expr)
    decreases Size(e), 1
  {
    e.Bin? ==>
      forall a: Path, b: Path {:trigger LeafPath(e.op, e, a), LeafPath(e.op, e, b)} ::
        LeafPath(e.op, e, a) && LeafPath(e.op, e, b) && a != b ==>
          NoJoinPair(e.op, e, a, b)
  }

  ghost predicate NoJoinPair(op: Op, e: Expr, a: Path, b: Path)
    requires IsOp(op, e) && LeafPath(op, e, a) && LeafPath(op, e, b) && a != b
    decreases Size(e), 0
  {
    assert a != [];
    Join(op, At(op, e, a), At(op, e, b)).None? && NoJoin(At(op, e, a))
  }

  /** No operand of any spine of e contradicts another part of that spine. */
  ghost predicate NoContradiction(e: Expr)
    decreases Size(e), 1
  {
    e.Bin? ==>
      forall a: Path, b: Path {:trigger LeafPath(e.op, e, a), SpinePath(e.op, e, b)} ::
        LeafPath(e.op, e, a) && SpinePath(e.op, e, b) && a != b ==>
          NoContradictionPair(e.op, e, a, b)
  }

  ghost predicate NoContradictionPair(op: Op, e: Expr, a: Path, b: Path)
    requires IsOp(op, e) && LeafPath(op, e, a) && SpinePath(op, e, b) && a != b
    decreases Size(e), 0
  {
    assert a != [];
    !Contradicts(op, At(op, e, a), At(op, e, b)) && NoContradiction(At(op, e, a))
  }

  // ----- operands that can be merged -----

  /** The same symbol, comparison or negated symbol. */
  predicate Repeated(a: Expr, b: Expr) {
    a == b && (a.Sym? || a.Cmp? || (a.Not? && a.arg.Sym?))
  }

  predicate YModN(c: Symbol) {
    c == Yes || c == Mod || c == No
  }

  /** Two operands that a sum or a product of them does not need both: FOO || !FOO for a boolean,
      FOO=y || FOO=m for a tristate, and so on. */
  predicate Mergeable(op: Op, a: Expr, b: Expr) {
    match (op, a, b)
    case (Or, Sym(s), Not(Sym(t))) => s == t && s.Type() == Boolean
    case (Or, Not(Sym(s)), Sym(t)) => s == t && s.Type() == Boolean
    case (Or, Cmp(true, s, c), Cmp(true, t, d)) => s == t && s.Type() == Tristate && YModN(c) && YModN(d) && c != d
    case (And, Sym(s), Cmp(eq, t, d)) => s == t && s.Logical() && (if eq then d == Yes else d == No || d == Mod)
    case (And, Cmp(eq, s, c), Sym(t)) => s == t && s.Logical() && (if eq then c == Yes else c == No || c == Mod)
    case (And, Cmp(e, s, c), Cmp(f, t, d)) =>
      && s == t && s.Type() == Tristate
      && (if e != f then c.Const() && d.Const() else !e && YModN(c) && YModN(d) && c != d)
    case _ => false
  }

  /** These and equal operands are exactly what the two join functions join. */
  lemma JoinIff(op: Op, a: Expr, b: Expr)
    ensures Join(op, a, b).Some? <==> ExprEq(a, b) || Mergeable(op, a, b)
  {
    hide ExprEq;
  }

  lemma RepeatedEqual(a: Expr, b: Expr)
    requires Repeated(a, b)
    ensures ExprEq(a, b)
  {
  }

  /** In no sum or product of e do two operands repeat each other or ask to be merged. */
  ghost predicate Tidy(e: Expr)
    decreases Size(e), 1
  {
    e.Bin? ==>
      forall a: Path, b: Path {:trigger LeafPath(e.op, e, a), LeafPath(e.op, e, b)} ::
        LeafPath(e.op, e, a) && LeafPath(e.op, e, b) && a != b ==> TidyPair(e.op, e, a, b)
  }

  ghost predicate TidyPair(op: Op, e: Expr, a: Path, b: Path)
    requires IsOp(op, e) && LeafPath(op, e, a) && LeafPath(op, e, b) && a != b
    decreases Size(e), 0
  {
    assert a != [];
    var x, y := At(op, e, a), At(op, e, b);
    !Repeated(x, y) && !Mergeable(op, x, y) && Tidy(x)
  }

  lemma {:induction false} JoinedTidy(e: Expr)
    requires NoJoin(e)
    ensures Tidy(e)
    decreases Size(e)
  {
    hide LeafPath, Join, Mergeable, ExprEq, Repeated;
    if e.Bin? {
      forall a: Path, b: Path | LeafPath(e.op, e, a) && LeafPath(e.op, e, b) && a != b
        ensures TidyPair(e.op, e, a, b)
      {
        LeafSmaller(e.op, e, a, b);
        assert NoJoinPair(e.op, e, a, b);
        var x, y := At(e.op, e, a), At(e.op, e, b);
        JoinIff(e.op, x, y);
        if Repeated(x, y) {
          RepeatedEqual(x, y);
        }
        JoinedTidy(x);
      }
    }
  }

  lemma LeafSmaller(op: Op, e: Expr, a: Path, b: Path)
    requires IsOp(op, e) && LeafPath(op, e, a) && LeafPath(op, e, b) && a != b
    ensures SpinePath(op, e, a) && SpinePath(op, e, b) && a != [] && Size(At(op, e, a)) < Size(e)
  {
  }

  // ----- operands that contradict each other -----

  /** A symbol other than y, m and n, or its negation. */
  predicate IsLiteral(x: Expr) {
    match x
    case Sym(s) => s.Named? || s.Literal?
    case Not(Sym(s)) => s.Named? || s.Literal?
    case _ => false
  }

  function Complement(x: Expr): Expr
    requires IsLiteral(x)
  {
    if x.Not? then x.arg else Not(x)
  }

  /** The operands of a sum or product, from left to right. */
  function Operands(op: Op, e: Expr): seq<Expr> {
    if IsOp(op, e) then Operands(op, e.left) + Operands(op, e.right) else [e]
  }

  predicate Literals(xs: seq<Expr>) {
    forall x :: x in xs ==> IsLiteral(x)
  }

  predicate Different(xs: seq<Expr>) {
    forall i, j :: 0 <= i < j < |xs| ==> xs[i] != xs[j]
  }

  /** `a` is a sum of different literals inside a product, or the other way round, and b has the
      complements of all of them among its operands: (FOO || BAR) beside !FOO && X && !BAR. */
  ghost predicate Opposed(op: Op, a: Expr, b: Expr) {
    && IsOp(Dual(op), a) && Literals(Operands(Dual(op), a)) && Different(Operands(Dual(op), a))
    && forall x :: x in Operands(Dual(op), a) ==> Complement(x) in Operands(op, b)
  }

  lemma LiteralEqual(x: Expr, e: Expr)
    requires x.Sym? || (x.Not? && x.arg.Sym?)
    ensures ExprEq(x, e) <==> x == e
  {
  }

  /** A leaf is extracted if it is there, and nothing else is. */
  lemma {:induction false} ExtractLeaf(op: Op, common: Option<Expr>, x: Expr, b: Expr)
    requires x.Sym? || (x.Not? && x.arg.Sym?)
    ensures var (k, x', b') := ExtractPairs(op, common, x, b);
      && (common.Some? ==> k.Some?)
      && (x in Operands(op, b) ==> k.Some? && x' == Neutral(op))
      && (x !in Operands(op, b) ==> x' == x)
      && forall m :: m in Operands(op, b) && (m != x || m == Neutral(op)) ==> m in Operands(op, b')
    decreases b
  {
    if IsOp(op, b) {
      var (c, x1, l) := ExtractPairs(op, common, x, b.left);
      ExtractLeaf(op, common, x, b.left);
      ExtractLeaf(op, c, x1, b.right);
      var r := ExtractPairs(op, c, x1, b.right).2;
      assert Operands(op, Bin(op, l, r)) == Operands(op, l) + Operands(op, r);
    } else {
      LiteralEqual(x, b);
    }
  }

  lemma DifferentParts(l: seq<Expr>, r: seq<Expr>)
    requires Different(l + r)
    ensures Different(l) && Different(r) && forall x :: x in r ==> x !in l
  {
    var s := l + r;
    assert forall i :: 0 <= i < |l| ==> s[i] == l[i];
    assert forall i :: 0 <= i < |r| ==> s[|l| + i] == r[i];
    forall i, j | 0 <= i < |l| && 0 <= j < |r| ensures l[i] != r[j] {
      assert s[i] != s[|l| + j];
    }
  }

  /** Different literals that are all there are all extracted. */
  lemma {:induction false} ExtractLiterals(op: Op, common: Option<Expr>, a: Expr, b: Expr)
    requires Literals(Operands(op, a)) && Different(Operands(op, a))
    requires forall x :: x in Operands(op, a) ==> x in Operands(op, b)
    ensures var (k, a', b') := ExtractPairs(op, common, a, b);
      && k.Some? && EliminateYN(a') == Neutral(op)
      && forall m :: m in Operands(op, b) && m !in Operands(op, a) ==> m in Operands(op, b')
    decreases a
  {
    hide IsLiteral, ExprEq;
    if IsOp(op, a) {
      var l, r := Operands(op, a.left), Operands(op, a.right);
      assert Operands(op, a) == l + r;
      DifferentParts(l, r);
      var (c, a1, b1) := ExtractPairs(op, common, a.left, b);
      ExtractLiterals(op, common, a.left, b);
      ExtractLiterals(op, c, a.right, b1);
    } else {
      assert Operands(op, a) == [a] && a in Operands(op, a);
      LiteralShape(a);
      ExtractLeaf(op, common, a, b);
    }
  }

  lemma LiteralShape(x: Expr)
    requires IsLiteral(x)
    ensures x.Sym? || (x.Not? && x.arg.Sym?)
    ensures NNF(x) && Transform(Not(x)) == Complement(x) && IsLiteral(Complement(x))
    ensures Complement(Complement(x)) == x
  {
  }

  /** The negation of a sum of literals is the product of their complements. */
  lemma {:induction false} NegatedLiterals(op: Op, a: Expr)
    requires Literals(Operands(op, a))
    ensures NNF(a)
    ensures var xs, ys := Operands(op, a), Operands(Dual(op), Transform(Not(a)));
      |ys| == |xs| && forall i :: 0 <= i < |xs| ==> IsLiteral(xs[i]) && ys[i] == Complement(xs[i])
    decreases a
  {
    hide IsLiteral, Complement, NNF, Transform, Weight;
    if IsOp(op, a) {
      var l, r := Operands(op, a.left), Operands(op, a.right);
      assert Operands(op, a) == l + r;
      assert forall x :: x in l ==> x in l + r;
      assert forall x :: x in r ==> x in l + r;
      NegatedLiterals(op, a.left);
      NegatedLiterals(op, a.right);
      NegatedSpine(op, a.left, a.right);
    } else {
      assert a in Operands(op, a);
      LiteralShape(a);
    }
  }

  lemma NegatedSpine(op: Op, l: Expr, r: Expr)
    requires NNF(l) && NNF(r)
    ensures NNF(Bin(op, l, r))
    ensures Transform(Not(Bin(op, l, r))) == Bin(Dual(op), Transform(Not(l)), Transform(Not(r)))
  {
    hide NNF;
    assert NNF(Bin(op, l, r)) by { SpineNNF(op, l, r); }
    TransformFixed(Bin(op, l, r));
    DeMorganLighter(op, l, r);
  }

  lemma SpineNNF(op: Op, l: Expr, r: Expr)
    requires NNF(l) && NNF(r)
    ensures NNF(Bin(op, l, r))
  {
  }

  lemma ComplementsDiffer(xs: seq<Expr>, ys: seq<Expr>)
    requires |ys| == |xs| && Different(xs)
    requires forall i :: 0 <= i < |xs| ==> IsLiteral(xs[i]) && ys[i] == Complement(xs[i])
    ensures Different(ys) && Literals(ys)
  {
    hide IsLiteral, Complement;
    forall i | 0 <= i < |xs| ensures IsLiteral(ys[i]) && Complement(ys[i]) == xs[i] {
      LiteralShape(xs[i]);
    }
  }

  /** The contradiction test finds every such pair. */
  lemma OpposedContradicts(op: Op, a: Expr, b: Expr)
    requires Opposed(op, a, b)
    ensures Contradicts(op, a, b)
  {
    hide IsLiteral, Complement, Transform, ExtractPairs;
    var n := Transform(Not(a));
    var xs, ys := Operands(Dual(op), a), Operands(op, n);
    NegatedLiterals(Dual(op), a);
    ComplementsDiffer(xs, ys);
    forall y | y in ys ensures y in Operands(op, b) {
      var i :| 0 <= i < |ys| && ys[i] == y;
      assert xs[i] in xs;
    }
    ExtractLiterals(op, None, n, b);
  }

  /** Nowhere in e is a sum of literals beside the complements of all of them, or the other way
      round. */
  ghost predicate Consistent(e: Expr)
    decreases Size(e), 1
  {
    e.Bin? ==>
      forall a: Path, b: Path {:trigger LeafPath(e.op, e, a), SpinePath(e.op, e, b)} ::
        LeafPath(e.op, e, a) && SpinePath(e.op, e, b) && a != b ==> ConsistentPair(e.op, e, a, b)
  }

  ghost predicate ConsistentPair(op: Op, e: Expr, a: Path, b: Path)
    requires IsOp(op, e) && LeafPath(op, e, a) && SpinePath(op, e, b) && a != b
    decreases Size(e), 0
  {
    assert a != [];
    !Opposed(op, At(op, e, a), At(op, e, b)) && Consistent(At(op, e, a))
  }

  lemma {:induction false} NoContradictionConsistent(e: Expr)
    requires NoContradiction(e)
    ensures Consistent(e)
    decreases Size(e)
  {
    hide LeafPath, SpinePath, Contradicts, Opposed;
    if e.Bin? {
      forall a: Path, b: Path | LeafPath(e.op, e, a) && SpinePath(e.op, e, b) && a != b
        ensures ConsistentPair(e.op, e, a, b)
      {
        SlotSmaller(e.op, e, a);
        assert NoContradictionPair(e.op, e, a, b);
        if Opposed(e.op, At(e.op, e, a), At(e.op, e, b)) {
          OpposedContradicts(e.op, At(e.op, e, a), At(e.op, e, b));
        }
        NoContradictionConsistent(At(e.op, e, a));
      }
    }
  }

  lemma SlotSmaller(op: Op, e: Expr, a: Path)
    requires IsOp(op, e) && LeafPath(op, e, a)
    ensures SpinePath(op, e, a) && a != [] && Size(At(op, e, a)) < Size(e)
  {
  }
}

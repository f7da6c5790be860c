/** The phandles of a tree, taken together (src/base/device_tree.c:153-314, 1098-1145, 1354-1397). */
module DtTreePhandles {
  import opened Common
  import opened FdtFormat
  import opened FdtRead
  import opened DtPhandles
  import opened DtFixups
  import opened DtReferences
  import opened DtCopy
  import opened DtPlaces

  // ----- the phandles of all nodes -----

  function One(phandle: nat): multiset<nat> {
    if phandle == 0 then multiset{} else multiset{phandle}
  }

  /** The phandles of all nodes, with repetitions. */
  function Phandles(n: Node): multiset<nat>
    decreases n, 1
  {
    One(n.phandle) + PhandlesAll(n.children)
  }

  function PhandlesAll(ns: seq<Node>): multiset<nat>
    decreases ns, 0
  {
    if ns == [] then multiset{} else Phandles(ns[0]) + PhandlesAll(ns[1..])
  }

  ghost predicate Bounded(m: multiset<nat>, max: nat) {
    forall x: nat :: m[x] > 0 ==> 0 < x <= max
  }

  lemma {:induction false} PhandlesUpdate(ns: seq<Node>, i: nat, c: Node)
    requires i < |ns|
    ensures PhandlesAll(ns[i := c]) + Phandles(ns[i]) == PhandlesAll(ns) + Phandles(c)
    decreases i
  {
    hide Phandles;
    if i == 0 {
      assert ns[0 := c][1..] == ns[1..];
    } else {
      assert ns[i := c][1..] == ns[1..][i - 1 := c];
      PhandlesUpdate(ns[1..], i - 1, c);
      AddFirst(Phandles(ns[0]), PhandlesAll(ns[1..][i - 1 := c]), Phandles(ns[i]), PhandlesAll(ns[1..]), Phandles(c));
    }
  }

  lemma AddFirst(h: multiset<nat>, x: multiset<nat>, p: multiset<nat>, y: multiset<nat>, c: multiset<nat>)
    requires x + p == y + c
    ensures (h + x) + p == (h + y) + c
  {
    assert (h + x) + p == h + (x + p) && (h + y) + c == h + (y + c);
  }

  // ----- relocation moves the overlay out of the way -----

  lemma {:induction false} ShapePhandles(a: Node, b: Node)
    requires SameShape(a, b)
    ensures Phandles(a) == Phandles(b)
    decreases a, 1
  {
    ShapesPhandles(a.children, b.children);
  }

  lemma {:induction false} ShapesPhandles(a: seq<Node>, b: seq<Node>)
    requires SameShapes(a, b)
    ensures PhandlesAll(a) == PhandlesAll(b)
    decreases a, 0
  {
    hide SameShape, Phandles;
    if a != [] {
      ShapePhandles(a[0], b[0]);
      ShapesPhandles(a[1..], b[1..]);
    }
  }

  lemma OneShifted(phandle: nat, base: nat, x: nat)
    ensures One(if phandle == 0 then 0 else phandle + base)[x] == if x > base then One(phandle)[x - base] else 0
    ensures One(phandle)[0] == 0
  {
  }

  lemma {:induction false} ShiftPhandles(n: Node, base: nat, x: nat)
    ensures Phandles(Shift(n, base))[x] == if x > base then Phandles(n)[x - base] else 0
    ensures Phandles(n)[0] == 0
    decreases n, 1
  {
    hide ShiftProperties, One, ShiftAll, PhandlesAll;
    OneShifted(n.phandle, base, x);
    ShiftAllPhandles(n.children, base, x);
  }

  lemma {:induction false} ShiftAllPhandles(ns: seq<Node>, base: nat, x: nat)
    ensures PhandlesAll(ShiftAll(ns, base))[x] == if x > base then PhandlesAll(ns)[x - base] else 0
    ensures PhandlesAll(ns)[0] == 0
    decreases ns, 0
  {
    hide Shift, Phandles;
    if ns != [] {
      ShiftPhandles(ns[0], base, x);
      ShiftAllPhandles(ns[1..], base, x);
      assert ShiftAll(ns, base)[1..] == ShiftAll(ns[1..], base);
    }
  }

  lemma {:induction false} LastBelowMax(ps: seq<Property>, phandle: nat, m: nat)
    requires phandle <= m
    ensures LastPhandle(ps, phandle) <= MaxInProperties(ps, m) && m <= MaxInProperties(ps, m)
    decreases ps
  {
    hide IsPhandle, PhandleIn;
    if ps != [] {
      if IsPhandle(ps[0]) {
        LastBelowMax(ps[1..], PhandleIn(ps[0]), Max(m, PhandleIn(ps[0])));
      } else {
        LastBelowMax(ps[1..], phandle, m);
      }
    }
  }

  lemma {:induction false} MaxBounds(n: Node, m: nat)
    requires PhandleOk(n)
    ensures forall x :: Phandles(n)[x] > 0 ==> 0 < x <= MaxInNode(n, m)
    ensures m <= MaxInNode(n, m)
    decreases n, 1
  {
    LastBelowMax(n.properties, 0, m);
    MaxBoundsAll(n.children, MaxInProperties(n.properties, m));
  }

  lemma {:induction false} MaxBoundsAll(ns: seq<Node>, m: nat)
    requires PhandlesOk(ns)
    ensures forall x :: PhandlesAll(ns)[x] > 0 ==> 0 < x <= MaxInChildren(ns, m)
    ensures m <= MaxInChildren(ns, m)
    decreases ns, 0
  {
    hide PhandleOk, Phandles, MaxInNode;
    if ns != [] {
      MaxBounds(ns[0], m);
      MaxBoundsAll(ns[1..], MaxInNode(ns[0], m));
    }
  }

  lemma {:induction false} ShiftPhandleOk(n: Node, base: nat)
    requires PhandleOk(n) && NodeFits(n, base)
    ensures PhandleOk(Shift(n, base))
    decreases n, 1
  {
    ShiftedPhandle(n.properties, 0, base);
    ShiftPhandlesOk(n.children, base);
  }

  lemma {:induction false} ShiftPhandlesOk(ns: seq<Node>, base: nat)
    requires PhandlesOk(ns) && ChildrenFit(ns, base)
    ensures PhandlesOk(ShiftAll(ns, base))
    decreases ns, 0
  {
    hide NodeFits, Shift, PhandleOk;
    if ns != [] {
      ShiftPhandleOk(ns[0], base);
      ShiftPhandlesOk(ns[1..], base);
      assert ShiftAll(ns, base)[1..] == ShiftAll(ns[1..], base);
    }
  }

  // ----- a tree that was just unflattened -----

  /** tree->max_phandle bounds every phandle of the tree that fdt_unflatten makes. */
  lemma UnflattenBounded(b: Bytes)
    requires Unflatten(b).ATree?
    ensures Bounded(Phandles(Unflatten(b).tree.root), Unflatten(b).tree.maxPhandle)
  {
    hide UnflattenNode, ReadMap, Phandles;
    UnflattenNodeBounded(b, U32(b, STRUCTURE_OFFSET), 0);
  }

  lemma NodeInside(b: Bytes, off: nat, m: nat)
    ensures UnflattenNode(b, off, m).ANode? ==> NodeName(b, off).Got? && off < |b|
  {
    hide ReadProperties, UnflattenChildren, StringAt, U32;
  }

  lemma {:induction false} UnflattenNodeBounded(b: Bytes, off: nat, m: nat)
    requires UnflattenNode(b, off, m).ANode?
    ensures var r := UnflattenNode(b, off, m); m <= r.maxPhandle && Bounded(Phandles(r.node), r.maxPhandle)
    decreases |b| - off, 0
  {
    hide ReadProperties, UnflattenChildren, PhandlesAll, StringAt, U32;
    NodeInside(b, off, m);
    var size := NodeName(b, off).size;
    ReadPropertiesBounded(b, off + size, [], 0, m);
    var ps := ReadProperties(b, off + size, [], 0, m).value;
    NoPhandles();
    UnflattenChildrenBounded(b, ps.end, [], ps.maxPhandle);
  }

  lemma {:induction false} UnflattenChildrenBounded(b: Bytes, off: nat, done: seq<Node>, m: nat)
    requires UnflattenChildren(b, off, done, m).Some? && Bounded(PhandlesAll(done), m)
    ensures var r := UnflattenChildren(b, off, done, m).value;
      m <= r.maxPhandle && Bounded(PhandlesAll(r.list), r.maxPhandle)
    decreases |b| - off, 1
  {
    hide UnflattenNode, Phandles, PhandlesAll;
    NodeInside(b, off, m);
    var c := UnflattenNode(b, off, m);
    if c.ANode? {
      UnflattenNodeBounded(b, off, m);
      PhandlesSnoc(done, c.node);
      UnflattenChildrenBounded(b, off + c.size, done + [c.node], c.maxPhandle);
    }
  }

  lemma {:induction false} PhandlesSnoc(ns: seq<Node>, n: Node)
    ensures PhandlesAll(ns + [n]) == PhandlesAll(ns) + Phandles(n)
    decreases ns
  {
    hide Phandles;
    if ns == [] {
      assert ([] + [n])[1..] == [];
    } else {
      assert (ns + [n])[1..] == ns[1..] + [n];
      PhandlesSnoc(ns[1..], n);
    }
  }

  lemma {:induction false} ReadPropertiesBounded(b: Bytes, off: nat, done: seq<Property>, phandle: nat, m: nat)
    requires ReadProperties(b, off, done, phandle, m).Some? && phandle <= m
    ensures var r := ReadProperties(b, off, done, phandle, m).value; m <= r.maxPhandle && r.phandle <= r.maxPhandle
    decreases |b| - off
  {
    hide NextProperty, IsPhandle, U32;
    ReadStep(b, off, done, phandle, m);
    var p := NextProperty(b, off);
    if p.Got? && IsPhandle(p.value) {
      var ph := U32(b, off + 12);
      ReadPropertiesBounded(b, off + p.size, done + [p.value], ph, Max(m, ph));
    } else if p.Got? {
      ReadPropertiesBounded(b, off + p.size, done + [p.value], phandle, m);
    }
  }

  /** When all its phandle properties hold a whole word, every node has the phandle they name. */
  lemma UnflattenPhandleOk(b: Bytes, base: nat)
    requires Unflatten(b).ATree? && NodeFits(Unflatten(b).tree.root, base)
    ensures PhandleOk(Unflatten(b).tree.root)
  {
    hide UnflattenNode, ReadMap, NodeFits, PhandleOk;
    UnflattenNodeOk(b, U32(b, STRUCTURE_OFFSET), 0, base);
  }

  lemma {:induction false} UnflattenNodeOk(b: Bytes, off: nat, m: nat, base: nat)
    requires UnflattenNode(b, off, m).ANode? && NodeFits(UnflattenNode(b, off, m).node, base)
    ensures PhandleOk(UnflattenNode(b, off, m).node)
    decreases |b| - off, 0
  {
    hide ReadProperties, UnflattenChildren, StringAt, U32, PhandlesFit, ChildrenFit, PhandlesOk;
    NodeInside(b, off, m);
    var size := NodeName(b, off).size;
    assert LastPhandle([], 0) == 0;
    ReadPropertiesPhandle(b, off + size, [], 0, m, base);
    var ps := ReadProperties(b, off + size, [], 0, m).value;
    NoPhandles();
    UnflattenChildrenOk(b, ps.end, [], ps.maxPhandle, base);
  }

  lemma NoPhandles()
    ensures PhandlesOk([]) && PhandlesAll([]) == multiset{}
  {
  }

  lemma {:induction false} UnflattenChildrenOk(b: Bytes, off: nat, done: seq<Node>, m: nat, base: nat)
    requires UnflattenChildren(b, off, done, m).Some? && PhandlesOk(done)
    requires ChildrenFit(UnflattenChildren(b, off, done, m).value.list, base)
    ensures PhandlesOk(UnflattenChildren(b, off, done, m).value.list)
    decreases |b| - off, 1
  {
    hide UnflattenNode, PhandlesOk, ChildrenFit, NodeFits, PhandleOk;
    NodeInside(b, off, m);
    var c := UnflattenNode(b, off, m);
    if c.ANode? {
      ChildrenGrow(b, off + c.size, done + [c.node], c.maxPhandle);
      FitsAt(UnflattenChildren(b, off, done, m).value.list, base, |done|);
      UnflattenNodeOk(b, off, m, base);
      OkSnoc(done, c.node);
      UnflattenChildrenOk(b, off + c.size, done + [c.node], c.maxPhandle, base);
    }
  }

  lemma {:induction false} ChildrenGrow(b: Bytes, off: nat, done: seq<Node>, m: nat)
    requires UnflattenChildren(b, off, done, m).Some?
    ensures done <= UnflattenChildren(b, off, done, m).value.list
    decreases |b| - off
  {
    hide UnflattenNode;
    NodeInside(b, off, m);
    var c := UnflattenNode(b, off, m);
    if c.ANode? {
      ChildrenGrow(b, off + c.size, done + [c.node], c.maxPhandle);
    }
  }

  lemma {:induction false} FitsAt(ns: seq<Node>, base: nat, i: nat)
    requires ChildrenFit(ns, base) && i < |ns|
    ensures NodeFits(ns[i], base)
    decreases i
  {
    hide NodeFits;
    if i > 0 {
      FitsAt(ns[1..], base, i - 1);
    }
  }

  lemma {:induction false} OkSnoc(ns: seq<Node>, n: Node)
    requires PhandlesOk(ns) && PhandleOk(n)
    ensures PhandlesOk(ns + [n])
    decreases ns
  {
    hide PhandleOk;
    if ns == [] {
      assert ([] + [n])[1..] == [];
    } else {
      assert (ns + [n])[1..] == ns[1..] + [n];
      OkSnoc(ns[1..], n);
    }
  }

  lemma {:induction false} PropertiesGrow(b: Bytes, off: nat, done: seq<Property>, phandle: nat, m: nat)
    requires ReadProperties(b, off, done, phandle, m).Some?
    ensures done <= ReadProperties(b, off, done, phandle, m).value.list
    decreases |b| - off
  {
    hide NextProperty, IsPhandle, U32;
    ReadStep(b, off, done, phandle, m);
    var p := NextProperty(b, off);
    if p.Got? && IsPhandle(p.value) {
      var ph := U32(b, off + 12);
      PropertiesGrow(b, off + p.size, done + [p.value], ph, Max(m, ph));
    } else if p.Got? {
      PropertiesGrow(b, off + p.size, done + [p.value], phandle, m);
    }
  }

  lemma {:induction false} ReadPropertiesPhandle(b: Bytes, off: nat, done: seq<Property>, phandle: nat, m: nat,
                                                 base: nat)
    requires ReadProperties(b, off, done, phandle, m).Some? && phandle == LastPhandle(done, 0)
    requires PhandlesFit(ReadProperties(b, off, done, phandle, m).value.list, base)
    ensures var r := ReadProperties(b, off, done, phandle, m).value; r.phandle == LastPhandle(r.list, 0)
    decreases |b| - off
  {
    hide NextProperty, IsPhandle, U32, PhandlesFit, LastPhandle, PhandleIn;
    ReadStep(b, off, done, phandle, m);
    var p := NextProperty(b, off);
    if p.Got? {
      var isPhandle := IsPhandle(p.value);
      var ph := if isPhandle then U32(b, off + 12) else phandle;
      var max := if isPhandle then Max(m, ph) else m;
      var list := ReadProperties(b, off, done, phandle, m).value.list;
      PropertiesGrow(b, off + p.size, done + [p.value], ph, max);
      assert list[|done|] == p.value;
      PropertyFitsAt(list, base, |done|);
      if isPhandle {
        WholeWord(b, off, p.value);
      }
      LastSnoc(done, p.value, 0);
      ReadPropertiesPhandle(b, off + p.size, done + [p.value], ph, max, base);
    }
  }

  lemma WholeWord(b: Bytes, off: nat, p: Property)
    requires NextProperty(b, off).Got? && NextProperty(b, off).value == p && |p.data| >= 4
    ensures PhandleIn(p) == U32(b, off + 12)
  {
    hide BigEndian, StringAt, PropertySize;
    assert p.data[0..4] == b[off + 12..off + 16];
  }

  lemma {:induction false} LastSnoc(ps: seq<Property>, p: Property, phandle: nat)
    ensures LastPhandle(ps + [p], phandle) == if IsPhandle(p) then PhandleIn(p) else LastPhandle(ps, phandle)
    decreases ps
  {
    hide IsPhandle, PhandleIn;
    if ps == [] {
      assert ([] + [p])[1..] == [];
    } else {
      assert (ps + [p])[1..] == ps[1..] + [p];
      LastSnoc(ps[1..], p, if IsPhandle(ps[0]) then PhandleIn(ps[0]) else phandle);
    }
  }

  lemma {:induction false} PropertyFitsAt(ps: seq<Property>, base: nat, i: nat)
    requires PhandlesFit(ps, base) && i < |ps|
    ensures PropertyFits(ps[i], base)
    decreases i
  {
    hide PropertyFits;
    if i > 0 {
      PropertyFitsAt(ps[1..], base, i - 1);
    }
  }
}

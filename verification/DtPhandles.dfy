/** Phandle relocation for overlays (src/base/device_tree.c:1098-1145). */
module DtPhandles {
  import opened Common
  import opened FdtFormat

  const PHANDLE_ILLEGAL := 0xdeadbeef

  function Put32(d: Bytes, off: nat, v: nat): Bytes
    requires off + 4 <= |d|
  {
    d[..off] + Encode32(v) + d[off + 4..]
  }

  lemma Put32Word(d: Bytes, off: nat, v: nat)
    requires off + 4 <= |d| && v < 0x1_0000_0000
    ensures |Put32(d, off, v)| == |d| && U32(Put32(d, off, v), off) == v
    ensures forall o :: 0 <= o && o + 4 <= |d| && (o + 4 <= off || off + 4 <= o) ==>
      U32(Put32(d, off, v), o) == U32(d, o)
  {
    WordSizes();
    EncodeRoundTrip(v, 4);
    var r := Put32(d, off, v);
    assert r[off..off + 4] == Encode32(v);
    forall o | 0 <= o && o + 4 <= |d| && (o + 4 <= off || off + 4 <= o) ensures U32(r, o) == U32(d, o) {
      assert r[o..o + 4] == d[o..o + 4];
    }
  }

  /** dt_adjust_phandle: the data, patched if the phandle is usable, and the new phandle or 0.
      A sum that wraps to 0 is written and still counts as an error. */
  function AdjustPhandle(d: Bytes, adjustment: nat, off: nat): (Bytes, nat) {
    if off + 4 > |d| then (d, 0)
    else
      var v := U32(d, off);
      if v == 0 || v == PHANDLE_ILLEGAL || v == 0xffffffff then (d, 0)
      else
        var w := (v + adjustment) % 0x1_0000_0000;
        if w >= PHANDLE_ILLEGAL then (d, 0) else (Put32(d, off, w), w)
  }

  datatype Adjusted = Adjusted(list: seq<Property>, phandle: nat, newMax: nat)

  /** The property loop of dt_adjust_all_phandles; newMax == 0 stands for its early return. */
  function AdjustProperties(ps: seq<Property>, phandle: nat, base: nat, newMax: nat): Adjusted {
    if ps == [] then Adjusted([], phandle, newMax)
    else if !IsPhandle(ps[0]) then
      var rest := AdjustProperties(ps[1..], phandle, base, newMax);
      rest.(list := [ps[0]] + rest.list)
    else
      var (d, w) := AdjustPhandle(ps[0].data, base, 0);
      var p := Property(ps[0].name, d);
      if w == 0 then Adjusted([p] + ps[1..], 0, 0)
      else
        var rest := AdjustProperties(ps[1..], w, base, Max(newMax, w));
        rest.(list := [p] + rest.list)
  }

  /** dt_adjust_all_phandles: the changed subtree, and its highest phandle or 0. */
  function AdjustAll(n: Node, base: nat): (Node, nat)
    decreases n, 1
  {
    var a := AdjustProperties(n.properties, n.phandle, base, Max(base, 1));
    var m := n.(properties := a.list, phandle := a.phandle);
    if a.newMax == 0 then (m, 0)
    else
      var (kids, newMax) := AdjustChildren(n.children, base, a.newMax);
      (m.(children := kids), newMax)
  }

  function AdjustChildren(ns: seq<Node>, base: nat, newMax: nat): (seq<Node>, nat)
    decreases ns, 0
  {
    if ns == [] then ([], newMax)
    else
      var (c, m) := AdjustAll(ns[0], base);
      var (rest, m') := AdjustChildren(ns[1..], base, Max(newMax, m));
      ([c] + rest, m')
  }

  // ----- the loops of the C code -----

  method DtAdjustAllPhandles(n: Node, base: nat) returns (r: Node, newMax: nat)
    ensures (r, newMax) == AdjustAll(n, base)
    decreases n
  {
    hide AdjustPhandle, IsPhandle;
    newMax := Max(base, 1);
    var list, phandle := [], n.phandle;
    ghost var whole := AdjustProperties(n.properties, phandle, base, newMax);
    for i := 0 to |n.properties|
      invariant newMax > 0
      invariant var rest := AdjustProperties(n.properties[i..], phandle, base, newMax);
        whole == rest.(list := list + rest.list)
    {
      var p := n.properties[i];
      assert n.properties[i..][0] == p && n.properties[i..][1..] == n.properties[i + 1..];
      if IsPhandle(p) {
        var (d, w) := AdjustPhandle(p.data, base, 0);
        phandle := w;
        p := Property(p.name, d);
        if w == 0 {
          return n.(properties := list + ([p] + n.properties[i + 1..]), phandle := 0), 0;
        }
        newMax := Max(newMax, w);
      }
      Cons(list, p, AdjustProperties(n.properties[i + 1..], phandle, base, newMax).list);
      list := list + [p];
    }
    assert list + [] == list;
    var kids := [];
    ghost var m0 := newMax;
    assert n.children[0..] == n.children;
    assert [] + AdjustChildren(n.children, base, m0).0 == AdjustChildren(n.children, base, m0).0;
    for i := 0 to |n.children|
      invariant newMax > 0
      invariant var rest := AdjustChildren(n.children[i..], base, newMax);
        AdjustChildren(n.children, base, m0) == (kids + rest.0, rest.1)
    {
      assert n.children[i..][0] == n.children[i] && n.children[i..][1..] == n.children[i + 1..];
      var c, m := DtAdjustAllPhandles(n.children[i], base);
      newMax := Max(newMax, m);
      Cons(kids, c, AdjustChildren(n.children[i + 1..], base, newMax).0);
      kids := kids + [c];
    }
    assert kids + [] == kids;
    r := n.(properties := list, phandle := phandle, children := kids);
  }

  lemma Cons<T>(xs: seq<T>, x: T, ys: seq<T>)
    ensures xs + ([x] + ys) == (xs + [x]) + ys
  {
  }

  // ----- relocation as it is meant -----

  function ShiftProperty(p: Property, base: nat): Property {
    if IsPhandle(p) && |p.data| >= 4 then Property(p.name, Put32(p.data, 0, U32(p.data, 0) + base)) else p
  }

  function ShiftProperties(ps: seq<Property>, base: nat): seq<Property> {
    if ps == [] then [] else [ShiftProperty(ps[0], base)] + ShiftProperties(ps[1..], base)
  }

  /** Every phandle of the subtree moved up by base; a node without one keeps 0. */
  function Shift(n: Node, base: nat): Node
    decreases n, 1
  {
    Node(n.name, if n.phandle == 0 then 0 else n.phandle + base,
         ShiftProperties(n.properties, base), ShiftAll(n.children, base))
  }

  function ShiftAll(ns: seq<Node>, base: nat): seq<Node>
    decreases ns, 0
  {
    if ns == [] then [] else [Shift(ns[0], base)] + ShiftAll(ns[1..], base)
  }

  /** Every phandle property holds a usable phandle that stays in range when base is added. */
  predicate PhandlesFit(ps: seq<Property>, base: nat) {
    ps != [] ==>
      && PropertyFits(ps[0], base)
      && PhandlesFit(ps[1..], base)
  }

  predicate NodeFits(n: Node, base: nat)
    decreases n, 1
  {
    PhandlesFit(n.properties, base) && ChildrenFit(n.children, base)
  }

  predicate ChildrenFit(ns: seq<Node>, base: nat)
    decreases ns, 0
  {
    ns != [] ==> NodeFits(ns[0], base) && ChildrenFit(ns[1..], base)
  }

  predicate PropertyFits(p: Property, base: nat) {
    IsPhandle(p) ==> |p.data| >= 4 && 0 < U32(p.data, 0) && U32(p.data, 0) + base < PHANDLE_ILLEGAL
  }

  lemma ShiftOne(p: Property, base: nat)
    requires IsPhandle(p) && PropertyFits(p, base)
    ensures AdjustPhandle(p.data, base, 0) == (ShiftProperty(p, base).data, PhandleIn(p) + base)
    ensures PhandleIn(ShiftProperty(p, base)) == PhandleIn(p) + base
    ensures ShiftProperty(p, base).name == p.name && PhandleIn(p) > 0
  {
    hide IsPhandle, U32, Put32;
    var v := U32(p.data, 0);
    assert (v + base) % 0x1_0000_0000 == v + base;
    Put32Word(p.data, 0, v + base);
  }

  lemma ShiftOther(p: Property, base: nat)
    requires !IsPhandle(p)
    ensures ShiftProperty(p, base) == p
  {
  }

  lemma {:induction false} ShiftedProperties(ps: seq<Property>, phandle: nat, base: nat, newMax: nat)
    requires PhandlesFit(ps, base) && newMax > 0
    ensures var a := AdjustProperties(ps, phandle, base, newMax); var s := ShiftProperties(ps, base);
      a == Adjusted(s, LastPhandle(s, phandle), MaxInProperties(s, newMax)) && a.newMax >= newMax
    decreases ps
  {
    hide AdjustPhandle, PropertyFits, ShiftProperty, PhandleIn;
    if ps != [] {
      var p := ps[0];
      assert IsPhandle(p) == IsPhandle(ShiftProperty(p, base)) by { ShiftName(p, base); }
      if IsPhandle(p) {
        ShiftOne(p, base);
        ShiftedProperties(ps[1..], PhandleIn(p) + base, base, Max(newMax, PhandleIn(p) + base));
      } else {
        ShiftOther(p, base);
        ShiftedProperties(ps[1..], phandle, base, newMax);
      }
      assert ShiftProperties(ps, base)[1..] == ShiftProperties(ps[1..], base);
    }
  }

  lemma ShiftName(p: Property, base: nat)
    ensures ShiftProperty(p, base).name == p.name && IsPhandle(p) == IsPhandle(ShiftProperty(p, base))
  {
  }

  /** The phandle of a node is shifted with its properties. */
  lemma {:induction false} ShiftedPhandle(ps: seq<Property>, phandle: nat, base: nat)
    requires PhandlesFit(ps, base)
    ensures var s := ShiftProperties(ps, base); var l := LastPhandle(ps, phandle);
      LastPhandle(s, if phandle == 0 then 0 else phandle + base) == if l == 0 then 0 else l + base
    decreases ps
  {
    hide PropertyFits, ShiftProperty, PhandleIn;
    if ps != [] {
      var p := ps[0];
      assert ShiftProperties(ps, base)[1..] == ShiftProperties(ps[1..], base);
      ShiftName(p, base);
      if IsPhandle(p) {
        ShiftOne(p, base);
        ShiftedPhandle(ps[1..], PhandleIn(p), base);
      } else {
        ShiftedPhandle(ps[1..], phandle, base);
      }
    }
  }

  lemma {:induction false} MaxFrom(ps: seq<Property>, a: nat, b: nat)
    ensures MaxInProperties(ps, Max(a, b)) == Max(a, MaxInProperties(ps, b))
    decreases ps
  {
    hide IsPhandle, PhandleIn;
    if ps != [] {
      if IsPhandle(ps[0]) {
        assert Max(Max(a, b), PhandleIn(ps[0])) == Max(a, Max(b, PhandleIn(ps[0])));
        MaxFrom(ps[1..], a, Max(b, PhandleIn(ps[0])));
      } else {
        MaxFrom(ps[1..], a, b);
      }
    }
  }

  lemma {:induction false} MaxFromNode(n: Node, a: nat, b: nat)
    ensures MaxInNode(n, Max(a, b)) == Max(a, MaxInNode(n, b))
    decreases n, 1
  {
    MaxFrom(n.properties, a, b);
    MaxFromChildren(n.children, a, MaxInProperties(n.properties, b));
  }

  lemma {:induction false} MaxFromChildren(ns: seq<Node>, a: nat, b: nat)
    ensures MaxInChildren(ns, Max(a, b)) == Max(a, MaxInChildren(ns, b))
    decreases ns, 0
  {
    if ns != [] {
      MaxFromNode(ns[0], a, b);
      MaxFromChildren(ns[1..], a, MaxInNode(ns[0], b));
    }
  }

  /** When every phandle fits, dt_adjust_all_phandles moves them all up by base and returns the
      largest of them (and of base and 1). */
  lemma {:induction false} AdjustAllShifts(n: Node, base: nat)
    requires PhandleOk(n) && NodeFits(n, base)
    ensures AdjustAll(n, base) == (Shift(n, base), MaxInNode(Shift(n, base), Max(base, 1)))
    ensures AdjustAll(n, base).1 >= Max(base, 1)
    decreases n, 1
  {
    hide PhandlesFit, MaxInProperties, ShiftProperties, AdjustProperties;
    ShiftedProperties(n.properties, n.phandle, base, Max(base, 1));
    ShiftedPhandle(n.properties, 0, base);
    SameLast(n.properties, base, n.phandle);
    AdjustChildrenShift(n.children, base, MaxInProperties(ShiftProperties(n.properties, base), Max(base, 1)));
  }

  /** With a phandle property the start value of the phandle does not matter; without one the
      phandle of a well-formed node is 0. */
  lemma {:induction false} SameLast(ps: seq<Property>, base: nat, phandle: nat)
    requires PhandlesFit(ps, base)
    ensures LastPhandle(ps, 0) == phandle ==>
              LastPhandle(ShiftProperties(ps, base), phandle) == LastPhandle(ShiftProperties(ps, base), 0)
    decreases ps
  {
    if LastPhandle(ps, 0) == phandle && phandle != 0 {
      LastIgnoresStart(ps, base, 0, phandle);
    }
  }

  lemma {:induction false} LastIgnoresStart(ps: seq<Property>, base: nat, a: nat, b: nat)
    requires PhandlesFit(ps, base) && LastPhandle(ps, a) != a
    ensures LastPhandle(ShiftProperties(ps, base), a) == LastPhandle(ShiftProperties(ps, base), b)
    decreases ps
  {
    if ps != [] {
      assert ShiftProperties(ps, base)[1..] == ShiftProperties(ps[1..], base);
      if !IsPhandle(ps[0]) {
        LastIgnoresStart(ps[1..], base, a, b);
      }
    }
  }

  lemma {:induction false} AdjustChildrenShift(ns: seq<Node>, base: nat, newMax: nat)
    requires PhandlesOk(ns) && ChildrenFit(ns, base) && newMax >= Max(base, 1)
    ensures AdjustChildren(ns, base, newMax) == (ShiftAll(ns, base), MaxInChildren(ShiftAll(ns, base), newMax))
    ensures AdjustChildren(ns, base, newMax).1 >= newMax
    decreases ns, 0
  {
    hide PhandleOk, NodeFits, AdjustAll, Shift, MaxInNode;
    if ns != [] {
      AdjustAllShifts(ns[0], base);
      var m := AdjustAll(ns[0], base).1;
      var s := Shift(ns[0], base);
      MaxFromNode(s, newMax, Max(base, 1));
      assert Max(newMax, Max(base, 1)) == newMax;
      assert Max(newMax, m) == MaxInNode(s, newMax);
      AdjustChildrenShift(ns[1..], base, Max(newMax, m));
      assert ShiftAll(ns, base)[1..] == ShiftAll(ns[1..], base);
    }
  }

  // ----- errors -----

  /** A phandle moves up by exactly base if and only if it is usable and the sum is in range.
      Otherwise dt_adjust_phandle fails, or the sum wraps at 2^32 and no longer clears the
      phandles of the base tree. */
  lemma AdjustExact(d: Bytes, base: nat, off: nat)
    requires off + 4 <= |d| && base < 0x1_0000_0000
    ensures var w := AdjustPhandle(d, base, off).1;
      w == U32(d, off) + base && w > 0 <==> 0 < U32(d, off) && U32(d, off) + base < PHANDLE_ILLEGAL
  {
    hide Put32;
    BigEndianBound(d[off..off + 4]);
    WordSizes();
  }

  /** 0xfffff001 moved up by 0x1000 becomes 1, without an error. */
  lemma WrappedPhandle()
    ensures AdjustPhandle([0xff, 0xff, 0xf0, 0x01], 0x1000, 0).1 == 1
  {
    var d: Bytes := [0xff, 0xff, 0xf0, 0x01];
    assert d[0..4] == d && d[..3] == [0xff, 0xff, 0xf0] && d[..3][..2] == [0xff, 0xff] && d[..3][..2][..1] == [0xff];
    assert BigEndian([0xff]) == 0xff;
    assert BigEndian([0xff, 0xff]) == 0xffff;
    assert U32(d, 0) == 0xfffff001;
  }

  /** The word at the start of the data is a phandle that can be moved by base: it is none of the
      reserved values, and neither is the sum as a uint32_t. */
  predicate Usable(d: Bytes, base: nat) {
    && |d| >= 4
    && U32(d, 0) != 0 && U32(d, 0) != 0xdeadbeef && U32(d, 0) != 0xffffffff
    && 0 < (U32(d, 0) + base) % 0x1_0000_0000 < 0xdeadbeef
  }

  lemma AdjustUsable(d: Bytes, base: nat)
    ensures AdjustPhandle(d, base, 0).1 > 0 <==> Usable(d, base)
  {
    hide U32, Put32;
  }

  /** dt_adjust_all_phandles reports an error exactly when the root of the subtree has an
      unusable phandle of its own: a child's error is lost in the maximum. */
  lemma ErrorIffOwn(n: Node, base: nat)
    ensures AdjustAll(n, base).1 == 0
       <==> exists i :: 0 <= i < |n.properties| && IsPhandle(n.properties[i]) && !Usable(n.properties[i].data, base)
  {
    hide AdjustProperties, Usable, IsPhandle;
    OwnErrorLoop(n.properties, n.phandle, base, Max(base, 1));
    var a := AdjustProperties(n.properties, n.phandle, base, Max(base, 1));
    if a.newMax != 0 {
      ChildrenKeepMax(n.children, base, a.newMax);
    }
  }

  lemma {:induction false} OwnErrorLoop(ps: seq<Property>, phandle: nat, base: nat, newMax: nat)
    requires newMax > 0
    ensures AdjustProperties(ps, phandle, base, newMax).newMax == 0
       <==> exists i :: 0 <= i < |ps| && IsPhandle(ps[i]) && !Usable(ps[i].data, base)
    decreases ps
  {
    hide AdjustPhandle, IsPhandle, Usable;
    if ps != [] {
      AdjustUsable(ps[0].data, base);
      var w := AdjustPhandle(ps[0].data, base, 0).1;
      assert forall i :: 0 < i < |ps| ==> ps[i] == ps[1..][i - 1];
      assert forall i :: 0 <= i < |ps[1..]| ==> ps[1..][i] == ps[i + 1];
      if !IsPhandle(ps[0]) {
        OwnErrorLoop(ps[1..], phandle, base, newMax);
      } else if w != 0 {
        OwnErrorLoop(ps[1..], w, base, Max(newMax, w));
      }
    }
  }

  /** A child's phandle 0 is an error, but the parent reports success, and the child keeps it. */
  lemma ChildErrorLost()
    ensures var child := Node([99], 0, [Property(PHANDLE, [0, 0, 0, 0])], []);
      var root := Node([], 0, [], [child]);
      && AdjustAll(child, 5).1 == 0
      && AdjustAll(root, 5) == (root, 5)
  {
    var d: Bytes := [0, 0, 0, 0];
    assert d[0..4] == d && d[..3] == [0, 0, 0] && d[..3][..2] == [0, 0] && d[..3][..2][..1] == [0];
    assert BigEndian([0]) == 0;
    assert BigEndian([0, 0]) == 0;
    assert BigEndian([0, 0, 0]) == 0;
    assert U32(d, 0) == 0;
    assert IsPhandle(Property(PHANDLE, d));
    var child := Node([99], 0, [Property(PHANDLE, d)], []);
    assert AdjustProperties(child.properties, 0, 5, 5) == Adjusted(child.properties, 0, 0);
    assert AdjustAll(child, 5) == (child, 0);
    assert [child][1..] == [] && [child] + [] == [child];
    assert AdjustChildren([], 5, 5) == ([], 5);
    assert AdjustChildren([child], 5, 5) == ([child], 5);
  }

  lemma {:induction false} ChildrenKeepMax(ns: seq<Node>, base: nat, newMax: nat)
    ensures AdjustChildren(ns, base, newMax).1 >= newMax
    decreases ns
  {
    hide AdjustAll;
    if ns != [] {
      ChildrenKeepMax(ns[1..], base, Max(newMax, AdjustAll(ns[0], base).1));
    }
  }
}

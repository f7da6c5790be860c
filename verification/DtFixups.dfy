/** Local fixups of an overlay: the words listed in /__local_fixups__ are moved like the
    phandles they refer to (src/base/device_tree.c:1147-1209). */
module DtFixups {
  import opened Common
  import opened FdtFormat
  import opened DtPhandles

  // ----- finding things by name -----

  /** The first property of that name. */
  function PropertyIndex(ps: seq<Property>, name: Bytes): (r: Option<nat>)
    ensures r.Some? ==> r.value < |ps| && ps[r.value].name == name
    ensures r.None? ==> forall i :: 0 <= i < |ps| ==> ps[i].name != name
  {
    if ps == [] then None
    else if ps[0].name == name then Some(0)
    else match PropertyIndex(ps[1..], name)
      case None => None
      case Some(i) => Some(i + 1)
  }

  function ChildIndex(ns: seq<Node>, name: Bytes): (r: Option<nat>)
    ensures r.Some? ==> r.value < |ns| && ns[r.value].name == name
    ensures r.None? ==> forall i :: 0 <= i < |ns| ==> ns[i].name != name
  {
    if ns == [] then None
    else if ns[0].name == name then Some(0)
    else match ChildIndex(ns[1..], name)
      case None => None
      case Some(i) => Some(i + 1)
  }

  function Data(ps: seq<Property>, name: Bytes): Option<Bytes> {
    match PropertyIndex(ps, name)
    case None => None
    case Some(i) => Some(ps[i].data)
  }

  /** The node reached from n by following names, as dt_find_node does with create == 0. */
  function Find(n: Node, path: seq<Bytes>): Option<Node>
    decreases path
  {
    if path == [] then Some(n)
    else match ChildIndex(n.children, path[0])
      case None => None
      case Some(i) => Find(n.children[i], path[1..])
  }

  function Lookup(n: Node, path: seq<Bytes>, name: Bytes): Option<Bytes> {
    match Find(n, path)
    case None => None
    case Some(m) => Data(m.properties, name)
  }

  /** dt_find_node_by_phandle: the child numbers that lead to the first such node. */
  function FindByPhandle(n: Node, phandle: nat): Option<seq<nat>>
    decreases n, 1
  {
    if n.phandle == phandle then Some([]) else FindAmong(n.children, phandle, 0)
  }

  function FindAmong(ns: seq<Node>, phandle: nat, i: nat): Option<seq<nat>>
    decreases ns, 0
  {
    if ns == [] then None
    else match FindByPhandle(ns[0], phandle)
      case Some(p) => Some([i] + p)
      case None => FindAmong(ns[1..], phandle, i + 1)
  }

  // ----- dt_fixup_locals -----

  /** The offsets listed in a fixup property. */
  function Slots(d: Bytes): seq<nat>
    requires |d| % 4 == 0
  {
    if d == [] then [] else [U32(d, 0)] + Slots(d[4..])
  }

  function AdjustSlots(d: Bytes, slots: seq<nat>, base: nat): Option<Bytes>
    decreases slots
  {
    if slots == [] then Some(d)
    else
      var (d', w) := AdjustPhandle(d, base, slots[0]);
      if w == 0 then None else AdjustSlots(d', slots[1..], base)
  }

  function FixupProperties(ps: seq<Property>, fix: seq<Property>, base: nat): Option<seq<Property>>
    decreases fix
  {
    if fix == [] then Some(ps)
    else match PropertyIndex(ps, fix[0].name)
      case None => None
      case Some(i) =>
        if |fix[0].data| % 4 != 0 then None
        else match AdjustSlots(ps[i].data, Slots(fix[0].data), base)
          case None => None
          case Some(d) => FixupProperties(ps[i := Property(ps[i].name, d)], fix[1..], base)
  }

  function FixupLocals(n: Node, fix: Node, base: nat): Option<Node>
    decreases fix, 1
  {
    match FixupProperties(n.properties, fix.properties, base)
    case None => None
    case Some(ps) =>
      match FixupChildren(n.children, fix.children, base)
      case None => None
      case Some(kids) => Some(n.(properties := ps, children := kids))
  }

  function FixupChildren(ns: seq<Node>, fix: seq<Node>, base: nat): (r: Option<seq<Node>>)
    ensures r.Some? ==> |r.value| == |ns|
    decreases fix, 0
  {
    if fix == [] then Some(ns)
    else match ChildIndex(ns, fix[0].name)
      case None => None
      case Some(i) =>
        match FixupLocals(ns[i], fix[0], base)
        case None => None
        case Some(c) => FixupChildren(ns[i := c], fix[1..], base)
  }

  // ----- the loops of the C code -----

  method DtFixupLocals(n: Node, fix: Node, base: nat) returns (r: Option<Node>)
    ensures r == FixupLocals(n, fix, base)
    decreases fix
  {
    hide AdjustSlots, Slots, PropertyIndex, ChildIndex;
    var ps := n.properties;
    assert fix.properties[0..] == fix.properties && fix.children[0..] == fix.children;
    for i := 0 to |fix.properties|
      invariant FixupProperties(ps, fix.properties[i..], base) == FixupProperties(n.properties, fix.properties, base)
    {
      var f := fix.properties[i];
      assert fix.properties[i..][0] == f && fix.properties[i..][1..] == fix.properties[i + 1..];
      var k := PropertyIndex(ps, f.name);
      if k.None? || |f.data| % 4 != 0 {
        return None;
      }
      var d := AdjustSlotsLoop(ps[k.value].data, f.data, base);
      if d.None? {
        return None;
      }
      ps := ps[k.value := Property(ps[k.value].name, d.value)];
    }
    var kids := n.children;
    for i := 0 to |fix.children|
      invariant FixupChildren(kids, fix.children[i..], base) == FixupChildren(n.children, fix.children, base)
    {
      var f := fix.children[i];
      assert fix.children[i..][0] == f && fix.children[i..][1..] == fix.children[i + 1..];
      var k := ChildIndex(kids, f.name);
      if k.None? {
        return None;
      }
      var c := DtFixupLocals(kids[k.value], f, base);
      if c.None? {
        return None;
      }
      kids := kids[k.value := c.value];
    }
    r := Some(n.(properties := ps, children := kids));
  }

  /** The innermost loop, over the words of one fixup property. */
  method AdjustSlotsLoop(d: Bytes, fix: Bytes, base: nat) returns (r: Option<Bytes>)
    requires |fix| % 4 == 0
    ensures r == AdjustSlots(d, Slots(fix), base)
  {
    hide AdjustPhandle, U32;
    var data := d;
    var i := 0;
    assert fix[0..] == fix;
    while i < |fix|
      invariant 0 <= i <= |fix| && i % 4 == 0
      invariant AdjustSlots(data, Slots(fix[i..]), base) == AdjustSlots(d, Slots(fix), base)
    {
      SlotsStep(fix, i);
      var (d', w) := AdjustPhandle(data, base, U32(fix, i));
      if w == 0 {
        return None;
      }
      data := d';
      i := i + 4;
    }
    r := Some(data);
  }

  lemma SlotsStep(fix: Bytes, i: nat)
    requires |fix| % 4 == 0 && i % 4 == 0 && i < |fix|
    ensures Slots(fix[i..]) == [U32(fix, i)] + Slots(fix[i + 4..])
  {
    assert fix[i..][0..4] == fix[i..i + 4] && fix[i..][4..] == fix[i + 4..];
  }

  // ----- what the fixups of one property do -----

  /** The slots lie in the data, do not overlap, and hold phandles that fit. */
  predicate SlotsFit(d: Bytes, slots: seq<nat>, base: nat) {
    && (forall i :: 0 <= i < |slots| ==>
          slots[i] + 4 <= |d| && 0 < U32(d, slots[i]) && U32(d, slots[i]) + base < PHANDLE_ILLEGAL)
    && (forall i, j :: 0 <= i < j < |slots| ==> slots[i] + 4 <= slots[j] || slots[j] + 4 <= slots[i])
  }

  /** The word at o touches no listed one. */
  predicate Clear(slots: seq<nat>, o: nat) {
    forall i :: 0 <= i < |slots| ==> o + 4 <= slots[i] || slots[i] + 4 <= o
  }

  /** Slot k is listed once: it lies in the data, holds a phandle that fits, and no other listed
      slot overlaps it. */
  predicate ListedOnce(d: Bytes, slots: seq<nat>, base: nat, k: nat) {
    && k < |slots| && slots[k] + 4 <= |d|
    && 0 < U32(d, slots[k]) && U32(d, slots[k]) + base < PHANDLE_ILLEGAL
    && forall j :: 0 <= j < |slots| && j != k ==> slots[j] + 4 <= slots[k] || slots[k] + 4 <= slots[j]
  }

  lemma {:induction false} SlotMoves(d: Bytes, slots: seq<nat>, base: nat, k: nat)
    requires ListedOnce(d, slots, base, k) && AdjustSlots(d, slots, base).Some?
    ensures slots[k] + 4 <= |d| && U32(d, slots[k]) > 0
    ensures var r := AdjustSlots(d, slots, base);
      |r.value| == |d| && U32(r.value, slots[k]) == U32(d, slots[k]) + base
    decreases slots
  {
    hide U32, Put32, AdjustPhandle, AdjustSlots;
    assert slots != [];
    var (d', w) := AdjustPhandle(d, base, slots[0]);
    AdjustSlotsUnfold(d, slots, base);
    AdjustFrame(d, base, slots[0], slots[k]);
    if k == 0 {
      assert forall j :: 0 <= j < |slots[1..]| ==> slots[1..][j] == slots[j + 1];
      SlotStays(d', slots[1..], base, slots[0]);
    } else {
      assert slots[0] + 4 <= slots[k] || slots[k] + 4 <= slots[0];
      assert slots[1..][k - 1] == slots[k];
      assert forall j :: 0 <= j < |slots[1..]| ==> slots[1..][j] == slots[j + 1];
      SlotMoves(d', slots[1..], base, k - 1);
    }
  }

  lemma AdjustSlotsUnfold(d: Bytes, slots: seq<nat>, base: nat)
    requires slots != [] && AdjustSlots(d, slots, base).Some?
    ensures var (d', w) := AdjustPhandle(d, base, slots[0]);
      w != 0 && AdjustSlots(d, slots, base) == AdjustSlots(d', slots[1..], base)
  {
    hide AdjustPhandle;
  }

  /** dt_adjust_phandle moves the word it is given and leaves words beside it alone. */
  lemma AdjustFrame(d: Bytes, base: nat, off: nat, o: nat)
    requires o + 4 <= |d|
    ensures var (d', w) := AdjustPhandle(d, base, off);
      && |d'| == |d|
      && (o + 4 <= off || off + 4 <= o ==> U32(d', o) == U32(d, o))
      && (o == off && 0 < U32(d, o) && U32(d, o) + base < PHANDLE_ILLEGAL ==> U32(d', o) == U32(d, o) + base)
  {
    hide U32, Put32;
    if off + 4 <= |d| {
      Put32Word(d, off, (U32(d, off) + base) % 0x1_0000_0000);
    }
  }

  lemma {:induction false} SlotStays(d: Bytes, slots: seq<nat>, base: nat, o: nat)
    requires o + 4 <= |d| && AdjustSlots(d, slots, base).Some?
    requires Clear(slots, o)
    ensures |AdjustSlots(d, slots, base).value| == |d| && U32(AdjustSlots(d, slots, base).value, o) == U32(d, o)
    decreases slots
  {
    hide U32, AdjustPhandle;
    if slots != [] {
      AdjustFrame(d, base, slots[0], o);
      assert forall j :: 0 <= j < |slots[1..]| ==> slots[1..][j] == slots[j + 1];
      SlotStays(AdjustPhandle(d, base, slots[0]).0, slots[1..], base, o);
    }
  }

  /** Every listed word moves up by base; words that touch no listed one stay. */
  lemma AdjustSlotsMoves(d: Bytes, slots: seq<nat>, base: nat)
    requires SlotsFit(d, slots, base)
    ensures var r := AdjustSlots(d, slots, base);
      && r.Some? && |r.value| == |d|
      && (forall i :: 0 <= i < |slots| ==> U32(r.value, slots[i]) == U32(d, slots[i]) + base)
      && (forall o | 0 <= o && o + 4 <= |d| && Clear(slots, o) :: U32(r.value, o) == U32(d, o))
  {
    hide U32, AdjustSlots;
    SlotsSucceed(d, slots, base);
    var r := AdjustSlots(d, slots, base).value;
    forall i | 0 <= i < |slots| ensures U32(r, slots[i]) == U32(d, slots[i]) + base {
      SlotMoves(d, slots, base, i);
    }
    forall o | 0 <= o && o + 4 <= |d| && Clear(slots, o) ensures U32(r, o) == U32(d, o) {
      SlotStays(d, slots, base, o);
    }
  }

  lemma {:induction false} SlotsSucceed(d: Bytes, slots: seq<nat>, base: nat)
    requires SlotsFit(d, slots, base)
    ensures AdjustSlots(d, slots, base).Some? && |AdjustSlots(d, slots, base).value| == |d|
    decreases slots
  {
    hide U32, Put32;
    if slots != [] {
      var (d', w) := AdjustPhandle(d, base, slots[0]);
      var rest := slots[1..];
      AdjustFrame(d, base, slots[0], slots[0]);
      assert (U32(d, slots[0]) + base) % 0x1_0000_0000 == U32(d, slots[0]) + base;
      forall i | 0 <= i < |rest| ensures rest[i] == slots[i + 1] && U32(d', rest[i]) == U32(d, rest[i]) {
        AdjustFrame(d, base, slots[0], slots[i + 1]);
      }
      SlotsSucceed(d', rest, base);
    }
  }
}

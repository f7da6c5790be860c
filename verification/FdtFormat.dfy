/** The unflattened tree and the flattened format (src/base/device_tree.h; chapter 5 of the
    Devicetree Specification: 5.3 reservation block, 5.4 structure block, 5.5 strings block). */
module FdtFormat {
  import opened Common

  const TOKEN_BEGIN_NODE := 1
  const TOKEN_END_NODE := 2
  const TOKEN_PROPERTY := 3
  const TOKEN_END := 9
  const FDT_MAGIC := 0xd00dfeed
  const FDT_SUPPORTED_VERSION := 17

  // Byte offsets of the fields of FdtHeader, and its size.
  const MAGIC := 0
  const TOTALSIZE := 4
  const STRUCTURE_OFFSET := 8
  const STRINGS_OFFSET := 12
  const RESERVE_MAP_OFFSET := 16
  const LAST_COMP_VERSION := 24
  const STRINGS_SIZE := 32
  const STRUCTURE_SIZE := 36
  const HEADER_SIZE := 40

  datatype Property = Property(name: Bytes, data: Bytes)

  datatype Node = Node(name: Bytes, phandle: nat, properties: seq<Property>, children: seq<Node>)

  datatype MapEntry = MapEntry(start: nat, size: nat)

  /** `header` holds the header_size bytes in front of the first block. */
  datatype DeviceTree = DeviceTree(header: Bytes, maxPhandle: nat, reserveMap: seq<MapEntry>, root: Node)

  // ----- bytes -----

  /** The big-endian value of some bytes. */
  function BigEndian(s: Bytes): nat {
    if s == [] then 0 else BigEndian(s[..|s| - 1]) * 0x100 + s[|s| - 1] as nat
  }

  function U32(b: Bytes, off: nat): nat
    requires off + 4 <= |b|
  {
    BigEndian(b[off..off + 4])
  }

  function U64(b: Bytes, off: nat): nat
    requires off + 8 <= |b|
  {
    BigEndian(b[off..off + 8])
  }

  function Power256(k: nat): nat {
    if k == 0 then 1 else 0x100 * Power256(k - 1)
  }

  /** The k low bytes of v, most significant first. */
  function Encode(v: nat, k: nat): (b: Bytes)
    ensures |b| == k
    decreases k
  {
    if k == 0 then [] else Encode(v / 0x100, k - 1) + [(v % 0x100) as Byte]
  }

  function Encode32(v: nat): Bytes { Encode(v, 4) }

  function Encode64(v: nat): Bytes { Encode(v, 8) }

  lemma {:induction false} EncodeRoundTrip(v: nat, k: nat)
    requires v < Power256(k)
    ensures BigEndian(Encode(v, k)) == v
    decreases k
  {
    if k > 0 {
      EncodeRoundTrip(v / 0x100, k - 1);
      assert Encode(v, k)[..k - 1] == Encode(v / 0x100, k - 1);
    }
  }

  lemma {:induction false} BigEndianBound(s: Bytes)
    ensures BigEndian(s) < Power256(|s|)
  {
    if s != [] {
      BigEndianBound(s[..|s| - 1]);
    }
  }

  lemma WordSizes()
    ensures Power256(4) == 0x1_0000_0000 && Power256(8) == 0x1_0000_0000_0000_0000
  {
    assert Power256(2) == 0x1_0000;
    assert Power256(4) == 0x1_0000_0000;
    assert Power256(6) == 0x1_0000_0000_0000;
  }

  /** The length of n bytes padded to whole 32-bit words. */
  function Pad4(n: nat): nat {
    (n + 3) / 4 * 4
  }

  /** b holds the bytes x from off on. */
  predicate Has(b: Bytes, off: nat, x: Bytes) {
    off + |x| <= |b| && b[off..off + |x|] == x
  }

  predicate Has32(b: Bytes, off: nat, v: nat) {
    off + 4 <= |b| && U32(b, off) == v
  }

  predicate NoNul(s: Bytes) {
    forall i :: 0 <= i < |s| ==> s[i] != 0
  }

  /** b holds s and a terminating NUL from off on. */
  predicate HasString(b: Bytes, off: nat, s: Bytes) {
    Has(b, off, s + [0])
  }

  // ----- phandles -----

  const PHANDLE: Bytes := [112, 104, 97, 110, 100, 108, 101]
  const LINUX_PHANDLE: Bytes := [108, 105, 110, 117, 120, 44, 112, 104, 97, 110, 100, 108, 101]

  predicate IsPhandle(p: Property) {
    p.name == PHANDLE || p.name == LINUX_PHANDLE
  }

  function PhandleIn(p: Property): nat {
    if |p.data| >= 4 then U32(p.data, 0) else 0
  }

  /** node->phandle after the properties ps, if it was phandle before: the last one wins. */
  function LastPhandle(ps: seq<Property>, phandle: nat): nat {
    if ps == [] then phandle
    else LastPhandle(ps[1..], if IsPhandle(ps[0]) then PhandleIn(ps[0]) else phandle)
  }

  predicate PropertyOk(p: Property) {
    NoNul(p.name) && |p.data| < 0x1_0000_0000 && (IsPhandle(p) ==> |p.data| >= 4)
  }

  predicate PropertiesOk(ps: seq<Property>) {
    ps != [] ==> PropertyOk(ps[0]) && PropertiesOk(ps[1..])
  }

  /** Names are C strings and property data has a 32-bit size; a node's phandle field may hold
      anything. */
  predicate NodeOk(n: Node)
    decreases n, 1
  {
    NoNul(n.name) && PropertiesOk(n.properties) && ChildrenOk(n.children)
  }

  predicate ChildrenOk(ns: seq<Node>)
    decreases ns, 0
  {
    ns != [] ==> NodeOk(ns[0]) && ChildrenOk(ns[1..])
  }

  /** The phandle of every node is the one in its properties. */
  predicate PhandleOk(n: Node)
    decreases n, 1
  {
    n.phandle == LastPhandle(n.properties, 0) && PhandlesOk(n.children)
  }

  predicate PhandlesOk(ns: seq<Node>)
    decreases ns, 0
  {
    ns != [] ==> PhandleOk(ns[0]) && PhandlesOk(ns[1..])
  }

  /** The tree with every phandle computed afresh from the properties of its node. */
  function Recomputed(n: Node): Node
    decreases n, 1
  {
    Node(n.name, LastPhandle(n.properties, 0), n.properties, RecomputedAll(n.children))
  }

  function RecomputedAll(ns: seq<Node>): seq<Node>
    decreases ns, 0
  {
    if ns == [] then [] else [Recomputed(ns[0])] + RecomputedAll(ns[1..])
  }

  /** Recomputing changes exactly the trees in which some phandle is out of date. */
  lemma {:induction false} RecomputedIff(n: Node)
    ensures PhandleOk(Recomputed(n))
    ensures Recomputed(n) == n <==> PhandleOk(n)
    decreases n, 1
  {
    RecomputedAllIff(n.children);
  }

  lemma {:induction false} RecomputedAllIff(ns: seq<Node>)
    ensures PhandlesOk(RecomputedAll(ns))
    ensures RecomputedAll(ns) == ns <==> PhandlesOk(ns)
    decreases ns, 0
  {
    hide PhandleOk, Recomputed;
    if ns != [] {
      RecomputedIff(ns[0]);
      RecomputedAllIff(ns[1..]);
      var r := RecomputedAll(ns);
      assert r[0] == Recomputed(ns[0]) && r[1..] == RecomputedAll(ns[1..]);
      assert ns == [ns[0]] + ns[1..];
    }
  }

  function Max(a: nat, b: nat): nat { if a > b then a else b }

  /** tree->max_phandle after the properties ps, if it was m before. */
  function MaxInProperties(ps: seq<Property>, m: nat): nat {
    if ps == [] then m
    else MaxInProperties(ps[1..], if IsPhandle(ps[0]) then Max(m, PhandleIn(ps[0])) else m)
  }

  function MaxInNode(n: Node, m: nat): nat
    decreases n, 1
  {
    MaxInChildren(n.children, MaxInProperties(n.properties, m))
  }

  function MaxInChildren(ns: seq<Node>, m: nat): nat
    decreases ns, 0
  {
    if ns == [] then m else MaxInChildren(ns[1..], MaxInNode(ns[0], m))
  }

  // ----- sizes -----

  function PropStruct(p: Property): nat { 12 + Pad4(|p.data|) }

  function PropStrings(p: Property): nat { |p.name| + 1 }

  function PropsStruct(ps: seq<Property>): nat {
    if ps == [] then 0 else PropStruct(ps[0]) + PropsStruct(ps[1..])
  }

  function PropsStrings(ps: seq<Property>): nat {
    if ps == [] then 0 else PropStrings(ps[0]) + PropsStrings(ps[1..])
  }

  function NodeStruct(n: Node): nat
    decreases n, 1
  {
    4 + Pad4(|n.name| + 1) + PropsStruct(n.properties) + KidsStruct(n.children) + 4
  }

  function KidsStruct(ns: seq<Node>): nat
    decreases ns, 0
  {
    if ns == [] then 0 else NodeStruct(ns[0]) + KidsStruct(ns[1..])
  }

  function NodeStrings(n: Node): nat
    decreases n, 1
  {
    PropsStrings(n.properties) + KidsStrings(n.children)
  }

  function KidsStrings(ns: seq<Node>): nat
    decreases ns, 0
  {
    if ns == [] then 0 else NodeStrings(ns[0]) + KidsStrings(ns[1..])
  }

  function FlatSize(t: DeviceTree): nat {
    |t.header| + 16 * |t.reserveMap| + 16 + NodeStruct(t.root) + 4 + NodeStrings(t.root)
  }

  // ----- the format -----

  /** The property starts at off of the structure block; its name is at offset s of the
      strings block, which starts at base. */
  predicate PropertyAt(b: Bytes, off: nat, base: nat, s: nat, p: Property) {
    && Has32(b, off, TOKEN_PROPERTY) && Has32(b, off + 4, |p.data|) && Has32(b, off + 8, s)
    && Has(b, off + 12, p.data) && HasString(b, base + s, p.name)
  }

  predicate PropertiesAt(b: Bytes, off: nat, base: nat, s: nat, ps: seq<Property>)
    decreases ps
  {
    ps != [] ==>
      && PropertyAt(b, off, base, s, ps[0])
      && PropertiesAt(b, off + PropStruct(ps[0]), base, s + PropStrings(ps[0]), ps[1..])
  }

  predicate NodeAt(b: Bytes, off: nat, base: nat, s: nat, n: Node)
    decreases n, 1
  {
    var props := off + 4 + Pad4(|n.name| + 1);
    var kids := props + PropsStruct(n.properties);
    && Has32(b, off, TOKEN_BEGIN_NODE) && HasString(b, off + 4, n.name)
    && PropertiesAt(b, props, base, s, n.properties)
    && ChildrenAt(b, kids, base, s + PropsStrings(n.properties), n.children)
    && Has32(b, kids + KidsStruct(n.children), TOKEN_END_NODE)
  }

  predicate ChildrenAt(b: Bytes, off: nat, base: nat, s: nat, ns: seq<Node>)
    decreases ns, 0
  {
    ns != [] ==>
      && NodeAt(b, off, base, s, ns[0])
      && ChildrenAt(b, off + NodeStruct(ns[0]), base, s + NodeStrings(ns[0]), ns[1..])
  }

  predicate MapAt(b: Bytes, off: nat, m: seq<MapEntry>)
    decreases m
  {
    off + 16 <= |b| &&
    if m == [] then U64(b, off) == 0 && U64(b, off + 8) == 0
    else U64(b, off) == m[0].start && U64(b, off + 8) == m[0].size && MapAt(b, off + 16, m[1..])
  }
}

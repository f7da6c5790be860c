/** The reader gives back the tree that the format predicate describes. */
module FdtDecode {
  import opened Common
  import opened FdtFormat
  import opened FdtRead

  lemma {:induction false} HasStringAt(b: Bytes, off: nat, s: Bytes)
    requires HasString(b, off, s) && NoNul(s)
    ensures StringAt(b, off) == Some(s)
    decreases s
  {
    assert b[off..off + |s| + 1] == s + [0];
    if s == [] {
      assert b[off] == (s + [0])[0];
    } else {
      assert b[off] == (s + [0])[0];
      assert b[off + 1..off + 1 + |s[1..]| + 1] == (s + [0])[1..];
      assert (s + [0])[1..] == s[1..] + [0];
      HasStringAt(b, off + 1, s[1..]);
      assert s == [s[0]] + s[1..];
    }
  }

  lemma PropertyRead(b: Bytes, off: nat, base: nat, s: nat, p: Property)
    requires HEADER_SIZE <= |b| < 0x1_0000_0000 && U32(b, STRINGS_OFFSET) == base
    requires PropertyAt(b, off, base, s, p) && PropertyOk(p)
    ensures NextProperty(b, off) == Got(PropStruct(p), p)
    ensures IsPhandle(p) ==> off + 16 <= |b| && U32(b, off + 12) == PhandleIn(p)
  {
    hide BigEndian, StringAt, IsPhandle, NoNul;
    HasStringAt(b, base + s, p.name);
    assert (s + base) % 0x1_0000_0000 == base + s;
    var d := b[off + 12..off + 12 + |p.data|];
    assert d == p.data;
    if IsPhandle(p) {
      assert b[off + 12..off + 16] == d[0..4];
    }
  }

  lemma Regroup<T>(done: seq<T>, xs: seq<T>)
    requires xs != []
    ensures (done + [xs[0]]) + xs[1..] == done + xs
  {
  }

  lemma PropertiesHead(b: Bytes, off: nat, base: nat, s: nat, ps: seq<Property>)
    requires ps != [] && PropertiesAt(b, off, base, s, ps)
    ensures PropertyAt(b, off, base, s, ps[0]) && PropertySize(b, off) == Got(PropStruct(ps[0]), ())
    ensures PropertiesAt(b, off + PropStruct(ps[0]), base, s + PropStrings(ps[0]), ps[1..])
    ensures PropsStruct(ps) == PropStruct(ps[0]) + PropsStruct(ps[1..])
  {
  }

  // One turn of the property loop.
  lemma ReadOne(b: Bytes, off: nat, done: seq<Property>, ph: nat, m: nat, size: nat, p: Property)
    requires NextProperty(b, off) == Got(size, p)
    requires IsPhandle(p) ==> off + 16 <= |b| && U32(b, off + 12) == PhandleIn(p)
    ensures ReadProperties(b, off, done, ph, m)
         == ReadProperties(b, off + size, done + [p], if IsPhandle(p) then PhandleIn(p) else ph,
                           if IsPhandle(p) then Max(m, PhandleIn(p)) else m)
  {
    hide NextProperty, U32, PhandleIn, IsPhandle;
  }

  lemma ReadNone(b: Bytes, off: nat, done: seq<Property>, ph: nat, m: nat)
    requires PropertySize(b, off) == Absent
    ensures ReadProperties(b, off, done, ph, m) == Some(Properties(done, off, ph, m))
  {
    hide PropertySize;
  }

  lemma NothingBefore<T>(xs: seq<T>)
    ensures [] + xs == xs
  {
  }

  /** The property loop reads ps after `done`, provided something other than a property follows. */
  lemma {:induction false} PropertiesRead(b: Bytes, off: nat, base: nat, s: nat, done: seq<Property>,
                                          ps: seq<Property>, ph: nat, m: nat)
    requires HEADER_SIZE <= |b| < 0x1_0000_0000 && U32(b, STRINGS_OFFSET) == base
    requires PropertiesAt(b, off, base, s, ps) && PropertiesOk(ps)
    requires PropertySize(b, off + PropsStruct(ps)) == Absent
    ensures ReadProperties(b, off, done, ph, m)
         == Some(Properties(done + ps, off + PropsStruct(ps), LastPhandle(ps, ph), MaxInProperties(ps, m)))
    decreases ps
  {
    hide ReadProperties, PropertiesAt, PropertySize, PropertyAt, U32, PropertyOk, PropStruct, IsPhandle, PhandleIn;
    if ps == [] {
      assert done + ps == done;
      ReadNone(b, off, done, ph, m);
    } else {
      var p := ps[0];
      PropertiesHead(b, off, base, s, ps);
      PropertyRead(b, off, base, s, p);
      ReadOne(b, off, done, ph, m, PropStruct(p), p);
      Regroup(done, ps);
      var ph', m' := if IsPhandle(p) then PhandleIn(p) else ph, if IsPhandle(p) then Max(m, PhandleIn(p)) else m;
      PropertiesRead(b, off + PropStruct(p), base, s + PropStrings(p), done + [p], ps[1..], ph', m');
    }
  }

  /** The offset of the first property, and that of the first child. */
  function PropsStart(off: nat, n: Node): nat {
    off + 4 + Pad4(|n.name| + 1)
  }

  function KidsStart(off: nat, n: Node): nat {
    PropsStart(off, n) + PropsStruct(n.properties)
  }

  lemma TokenRead(b: Bytes, off: nat, token: nat)
    requires Has32(b, off, token)
    ensures token == TOKEN_BEGIN_NODE || token == TOKEN_END_NODE ==> PropertySize(b, off) == Absent
    ensures token == TOKEN_END_NODE ==> NodeName(b, off) == Absent
  {
    hide U32;
  }

  lemma NameRead(b: Bytes, off: nat, name: Bytes)
    requires Has32(b, off, TOKEN_BEGIN_NODE) && HasString(b, off + 4, name) && NoNul(name)
    ensures NodeName(b, off) == Got(Pad4(|name| + 1) + 4, name)
  {
    HasStringAt(b, off + 4, name);
  }

  lemma FirstChildToken(b: Bytes, off: nat, base: nat, s: nat, ns: seq<Node>)
    requires ns != [] && ChildrenAt(b, off, base, s, ns)
    ensures Has32(b, off, TOKEN_BEGIN_NODE)
  {
    hide Has32, HasString, PropertiesAt, Pad4;
    assert NodeAt(b, off, base, s, ns[0]);
  }

  lemma NodeHead(b: Bytes, off: nat, base: nat, s: nat, n: Node)
    requires NodeAt(b, off, base, s, n) && NodeOk(n)
    ensures NodeName(b, off) == Got(Pad4(|n.name| + 1) + 4, n.name)
    ensures PropertySize(b, KidsStart(off, n)) == Absent
    ensures NodeName(b, KidsStart(off, n) + KidsStruct(n.children)) == Absent
    ensures PropertiesAt(b, PropsStart(off, n), base, s, n.properties)
    ensures ChildrenAt(b, KidsStart(off, n), base, s + PropsStrings(n.properties), n.children)
    ensures PropertiesOk(n.properties) && ChildrenOk(n.children)
    ensures PropsStart(off, n) == off + (Pad4(|n.name| + 1) + 4)
    ensures KidsStart(off, n) == PropsStart(off, n) + PropsStruct(n.properties)
    ensures NodeStruct(n) == KidsStart(off, n) + KidsStruct(n.children) - off + 4
  {
    hide Has32, HasString, PropertiesAt, ChildrenAt, Pad4, NodeName, PropertySize, NoNul;
    NameRead(b, off, n.name);
    var kids := KidsStart(off, n);
    TokenRead(b, kids + KidsStruct(n.children), TOKEN_END_NODE);
    if n.children == [] {
      TokenRead(b, kids, TOKEN_END_NODE);
    } else {
      FirstChildToken(b, kids, base, s + PropsStrings(n.properties), n.children);
      TokenRead(b, kids, TOKEN_BEGIN_NODE);
    }
  }

  // The steps of fdt_unflatten_node put together.
  lemma NodePieces(b: Bytes, off: nat, m: nat, size: nat, name: Bytes, ps: Properties, kids: Children)
    requires NodeName(b, off) == Got(size, name)
    requires ReadProperties(b, off + size, [], 0, m) == Some(ps)
    requires UnflattenChildren(b, ps.end, [], ps.maxPhandle) == Some(kids)
    ensures kids.end >= ps.end >= off + size
    ensures UnflattenNode(b, off, m)
         == ANode(kids.end - off + 4, Node(name, ps.phandle, ps.list, kids.list), kids.maxPhandle)
  {
    hide NodeName, ReadProperties, UnflattenChildren;
  }

  /** fdt_unflatten_node undoes the format: same name, properties, children, in order, with
      the phandle recomputed from the properties. */
  lemma {:induction false} NodeRoundTrip(b: Bytes, off: nat, base: nat, s: nat, n: Node, m: nat)
    requires HEADER_SIZE <= |b| < 0x1_0000_0000 && U32(b, STRINGS_OFFSET) == base
    requires NodeAt(b, off, base, s, n) && NodeOk(n)
    ensures UnflattenNode(b, off, m) == ANode(NodeStruct(n), Recomputed(n), MaxInNode(n, m))
    decreases n, 1
  {
    hide NodeAt, PropertiesAt, ChildrenAt, NodeName, Pad4, ReadProperties, UnflattenNode, UnflattenChildren,
         PropertySize, U32, NodeOk, NodeStruct, PropsStart, KidsStart, PropsStruct, PropsStrings, KidsStruct,
         LastPhandle, MaxInProperties, MaxInChildren, PropertiesOk, ChildrenOk, RecomputedAll;
    var kids := KidsStart(off, n);
    var m' := MaxInProperties(n.properties, m);
    NodeHead(b, off, base, s, n);
    PropertiesRead(b, PropsStart(off, n), base, s, [], n.properties, 0, m);
    ChildrenRoundTrip(b, kids, base, s + PropsStrings(n.properties), [], n.children, m');
    NothingBefore(n.properties);
    NothingBefore(RecomputedAll(n.children));
    NodePieces(b, off, m, Pad4(|n.name| + 1) + 4, n.name,
               Properties(n.properties, kids, LastPhandle(n.properties, 0), m'),
               Children(RecomputedAll(n.children), kids + KidsStruct(n.children), MaxInNode(n, m)));
  }

  lemma NoChild(b: Bytes, off: nat, m: nat)
    requires NodeName(b, off) == Absent
    ensures UnflattenNode(b, off, m) == NoNode && SkipNode(b, off) == Absent
  {
  }

  lemma ChildrenHead(b: Bytes, off: nat, base: nat, s: nat, ns: seq<Node>)
    requires ns != [] && ChildrenAt(b, off, base, s, ns)
    ensures NodeAt(b, off, base, s, ns[0])
    ensures ChildrenAt(b, off + NodeStruct(ns[0]), base, s + NodeStrings(ns[0]), ns[1..])
  {
    hide NodeAt, NodeStruct, NodeStrings;
  }

  lemma {:induction false} ChildrenRoundTrip(b: Bytes, off: nat, base: nat, s: nat, done: seq<Node>, ns: seq<Node>,
                                             m: nat)
    requires HEADER_SIZE <= |b| < 0x1_0000_0000 && U32(b, STRINGS_OFFSET) == base
    requires ChildrenAt(b, off, base, s, ns) && ChildrenOk(ns)
    requires NodeName(b, off + KidsStruct(ns)) == Absent
    ensures UnflattenChildren(b, off, done, m)
         == Some(Children(done + RecomputedAll(ns), off + KidsStruct(ns), MaxInChildren(ns, m)))
    decreases ns, 0
  {
    hide NodeAt, NodeName, U32, NodeOk, NodeStruct, UnflattenNode, ChildrenAt, Recomputed;
    if ns == [] {
      assert done + RecomputedAll(ns) == done;
      NoChild(b, off, m);
    } else {
      ChildrenHead(b, off, base, s, ns);
      NodeRoundTrip(b, off, base, s, ns[0], m);
      Regroup(done, RecomputedAll(ns));
      ChildrenRoundTrip(b, off + NodeStruct(ns[0]), base, s + NodeStrings(ns[0]), done + [Recomputed(ns[0])], ns[1..],
                        MaxInNode(ns[0], m));
    }
  }

  // ----- fdt_skip_node -----

  lemma {:induction false} PropertiesSkipped(b: Bytes, off: nat, base: nat, s: nat, ps: seq<Property>)
    requires PropertiesAt(b, off, base, s, ps) && PropertySize(b, off + PropsStruct(ps)) == Absent
    ensures SkipProperties(b, off) == Some(off + PropsStruct(ps))
    decreases ps
  {
    hide PropertiesAt, PropertySize, PropStruct, PropertyAt;
    if ps != [] {
      PropertiesHead(b, off, base, s, ps);
      PropertiesSkipped(b, off + PropStruct(ps[0]), base, s + PropStrings(ps[0]), ps[1..]);
    }
  }

  /** fdt_skip_node steps over exactly the bytes of the node. */
  lemma {:induction false} NodeSkipped(b: Bytes, off: nat, base: nat, s: nat, n: Node)
    requires NodeAt(b, off, base, s, n) && NodeOk(n)
    ensures SkipNode(b, off) == Got(NodeStruct(n), ())
    decreases n, 1
  {
    hide NodeAt, PropertiesAt, ChildrenAt, NodeName, Pad4, SkipProperties, SkipChildren, PropertySize, NodeOk,
         NodeStruct, KidsStart;
    NodeHead(b, off, base, s, n);
    PropertiesSkipped(b, PropsStart(off, n), base, s, n.properties);
    ChildrenSkipped(b, KidsStart(off, n), base, s + PropsStrings(n.properties), n.children);
  }

  lemma {:induction false} ChildrenSkipped(b: Bytes, off: nat, base: nat, s: nat, ns: seq<Node>)
    requires ChildrenAt(b, off, base, s, ns) && ChildrenOk(ns)
    requires NodeName(b, off + KidsStruct(ns)) == Absent
    ensures SkipChildren(b, off) == Some(off + KidsStruct(ns))
    decreases ns, 0
  {
    hide NodeAt, NodeName, NodeOk, NodeStruct, SkipNode, ChildrenAt;
    if ns == [] {
      NoChild(b, off, 0);
    } else {
      ChildrenHead(b, off, base, s, ns);
      NodeSkipped(b, off, base, s, ns[0]);
      ChildrenSkipped(b, off + NodeStruct(ns[0]), base, s + NodeStrings(ns[0]), ns[1..]);
    }
  }

  // ----- the reservation block -----

  predicate MapOk(m: seq<MapEntry>) {
    forall i :: 0 <= i < |m| ==> m[i].start < LIMIT64 && 0 < m[i].size < LIMIT64
  }

  lemma {:induction false} MapRoundTrip(b: Bytes, off: nat, done: seq<MapEntry>, m: seq<MapEntry>)
    requires MapAt(b, off, m) && MapOk(m)
    ensures ReadMap(b, off, done) == Some(done + m)
    decreases m
  {
    if m == [] {
      assert done + m == done;
    } else {
      MapRoundTrip(b, off + 16, done + [m[0]], m[1..]);
      assert (done + [m[0]]) + m[1..] == done + m;
    }
  }
}

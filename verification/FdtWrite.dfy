/** Measuring and flattening a tree (src/base/device_tree.c:320-490). */
module FdtWrite {
  import opened Common
  import opened FdtFormat
  import opened FdtDecode

  // ----- dt_flat_size -----

  // A uint32_t counter.
  function Wrap(n: nat): nat { n % 0x1_0000_0000 }

  lemma WrapUnique(x: nat, q: nat, r: nat)
    requires x == 0x1_0000_0000 * q + r && r < 0x1_0000_0000
    ensures Wrap(x) == r
  {
  }

  lemma WrapAdd(n: nat, k: nat)
    ensures Wrap(Wrap(n) + k) == Wrap(n + k)
  {
    var r := Wrap(n) + k;
    WrapUnique(n + k, n / 0x1_0000_0000 + r / 0x1_0000_0000, Wrap(r));
  }

  lemma WrapSmall(n: nat)
    requires n < 0x1_0000_0000
    ensures Wrap(n) == n
  {
  }

  lemma {:induction false} PropsSnoc(ps: seq<Property>, p: Property)
    ensures PropsStruct(ps + [p]) == PropsStruct(ps) + PropStruct(p)
    ensures PropsStrings(ps + [p]) == PropsStrings(ps) + PropStrings(p)
  {
    if ps == [] {
      assert [p][1..] == [];
    } else {
      assert (ps + [p])[1..] == ps[1..] + [p];
      PropsSnoc(ps[1..], p);
    }
  }

  lemma {:induction false} KidsSnoc(ns: seq<Node>, n: Node)
    ensures KidsStruct(ns + [n]) == KidsStruct(ns) + NodeStruct(n)
    ensures KidsStrings(ns + [n]) == KidsStrings(ns) + NodeStrings(n)
  {
    hide NodeStruct, NodeStrings;
    if ns == [] {
      assert [n][1..] == [];
    } else {
      assert (ns + [n])[1..] == ns[1..] + [n];
      KidsSnoc(ns[1..], n);
    }
  }

  lemma TakeNext<T>(xs: seq<T>, i: nat)
    requires i < |xs|
    ensures xs[..i + 1] == xs[..i] + [xs[i]]
  {
  }

  /** dt_flat_prop_size and dt_flat_node_size add to two counters. */
  method FlatNodeSize(n: Node, structSize: nat, stringsSize: nat) returns (st: nat, str: nat)
    ensures st == Wrap(structSize + NodeStruct(n)) && str == Wrap(stringsSize + NodeStrings(n))
    decreases n
  {
    hide Wrap, Pad4, PropsStruct, PropsStrings, KidsStruct, KidsStrings, NodeStruct, NodeStrings;
    st, str := Wrap(structSize + 4), Wrap(stringsSize);
    ghost var s0 := structSize + 4 + Pad4(|n.name| + 1);
    WrapAdd(structSize + 4, Pad4(|n.name| + 1));
    st := Wrap(st + Pad4(|n.name| + 1));
    NoSizes();
    for i := 0 to |n.properties|
      invariant st == Wrap(s0 + PropsStruct(n.properties[..i]))
      invariant str == Wrap(stringsSize + PropsStrings(n.properties[..i]))
    {
      var p := n.properties[i];
      TakeNext(n.properties, i);
      PropsSnoc(n.properties[..i], p);
      WrapAdd(s0 + PropsStruct(n.properties[..i]), PropStruct(p));
      WrapAdd(stringsSize + PropsStrings(n.properties[..i]), PropStrings(p));
      st := Wrap(st + PropStruct(p));
      str := Wrap(str + PropStrings(p));
    }
    assert n.properties[..|n.properties|] == n.properties;
    ghost var s1, t1 := s0 + PropsStruct(n.properties), stringsSize + PropsStrings(n.properties);
    for i := 0 to |n.children|
      invariant st == Wrap(s1 + KidsStruct(n.children[..i]))
      invariant str == Wrap(t1 + KidsStrings(n.children[..i]))
    {
      TakeNext(n.children, i);
      KidsSnoc(n.children[..i], n.children[i]);
      WrapAdd(s1 + KidsStruct(n.children[..i]), NodeStruct(n.children[i]));
      WrapAdd(t1 + KidsStrings(n.children[..i]), NodeStrings(n.children[i]));
      var st0, str0 := FlatNodeSize(n.children[i], st, str);
      st, str := st0, str0;
    }
    assert n.children[..|n.children|] == n.children;
    WrapAdd(s1 + KidsStruct(n.children), 4);
    st := Wrap(st + 4);
    NodeSizes(n);
  }

  lemma NoSizes()
    ensures PropsStruct([]) == 0 && PropsStrings([]) == 0 && KidsStruct([]) == 0 && KidsStrings([]) == 0
  {
  }

  lemma NodeSizes(n: Node)
    ensures NodeStruct(n) == 4 + Pad4(|n.name| + 1) + PropsStruct(n.properties) + KidsStruct(n.children) + 4
    ensures NodeStrings(n) == PropsStrings(n.properties) + KidsStrings(n.children)
  {
  }

  method DtFlatSize(t: DeviceTree) returns (size: nat)
    requires |t.header| < 0x1_0000_0000
    ensures size == Wrap(FlatSize(t))
  {
    hide Wrap, NodeStruct, NodeStrings;
    WrapSmall(|t.header|);
    size := |t.header|;
    for i := 0 to |t.reserveMap|
      invariant size == Wrap(|t.header| + 16 * i)
    {
      WrapAdd(|t.header| + 16 * i, 16);
      size := Wrap(size + 16);
    }
    var base := |t.header| + 16 * |t.reserveMap|;
    WrapAdd(base, 16);
    size := Wrap(size + 16);
    var st, str := FlatNodeSize(t.root, 0, 0);
    WrapAdd(NodeStruct(t.root), base + 16);
    WrapAdd(base + 16, Wrap(NodeStruct(t.root)));
    size := Wrap(size + st);
    WrapAdd(base + 16 + NodeStruct(t.root), 4);
    size := Wrap(size + 4);
    WrapAdd(NodeStrings(t.root), base + 16 + NodeStruct(t.root) + 4);
    WrapAdd(base + 16 + NodeStruct(t.root) + 4, Wrap(NodeStrings(t.root)));
    size := Wrap(size + str);
  }

  // ----- what a write leaves alone -----

  /** The two buffers agree on the bytes from lo up to hi. */
  ghost predicate Agree(a: Bytes, b: Bytes, lo: int, hi: int) {
    |a| == |b| && forall i {:trigger b[i]} :: lo <= i < hi && 0 <= i < |a| ==> a[i] == b[i]
  }

  /** Only bytes in [s, s') and [t, t') differ. */
  ghost predicate Within(a: Bytes, b: Bytes, s: int, s': int, t: int, t': int) {
    |a| == |b| && forall i {:trigger b[i]} :: 0 <= i < |a| && !(s <= i < s') && !(t <= i < t') ==> a[i] == b[i]
  }

  lemma HasFrame(a: Bytes, b: Bytes, off: nat, x: Bytes)
    requires Has(a, off, x) && Agree(a, b, off, off + |x|)
    ensures Has(b, off, x)
  {
    assert forall i :: 0 <= i < |x| ==> a[off..off + |x|][i] == x[i];
    assert b[off..off + |x|] == x;
  }

  lemma Has32Frame(a: Bytes, b: Bytes, off: nat, v: nat)
    requires Has32(a, off, v) && Agree(a, b, off, off + 4)
    ensures Has32(b, off, v)
  {
    assert a[off..off + 4] == b[off..off + 4];
  }

  lemma PropertyFrame(a: Bytes, b: Bytes, off: nat, base: nat, s: nat, p: Property)
    requires PropertyAt(a, off, base, s, p)
    requires Agree(a, b, off, off + PropStruct(p)) && Agree(a, b, base + s, base + s + PropStrings(p))
    ensures PropertyAt(b, off, base, s, p)
  {
    hide Has, Has32;
    Has32Frame(a, b, off, TOKEN_PROPERTY);
    Has32Frame(a, b, off + 4, |p.data|);
    Has32Frame(a, b, off + 8, s);
    HasFrame(a, b, off + 12, p.data);
    HasFrame(a, b, base + s, p.name + [0]);
  }

  lemma {:induction false} PropertiesFrame(a: Bytes, b: Bytes, off: nat, base: nat, s: nat, ps: seq<Property>)
    requires PropertiesAt(a, off, base, s, ps)
    requires Agree(a, b, off, off + PropsStruct(ps)) && Agree(a, b, base + s, base + s + PropsStrings(ps))
    ensures PropertiesAt(b, off, base, s, ps)
    decreases ps
  {
    hide PropertyAt, PropStruct, PropStrings;
    if ps != [] {
      PropertyFrame(a, b, off, base, s, ps[0]);
      PropertiesFrame(a, b, off + PropStruct(ps[0]), base, s + PropStrings(ps[0]), ps[1..]);
    }
  }

  lemma {:induction false} NodeFrame(a: Bytes, b: Bytes, off: nat, base: nat, s: nat, n: Node)
    requires NodeAt(a, off, base, s, n)
    requires Agree(a, b, off, off + NodeStruct(n)) && Agree(a, b, base + s, base + s + NodeStrings(n))
    ensures NodeAt(b, off, base, s, n)
    decreases n, 1
  {
    hide Has32, Has, PropertiesAt, ChildrenAt, PropsStruct, PropsStrings, KidsStruct, KidsStrings;
    var props := off + 4 + Pad4(|n.name| + 1);
    var kids := props + PropsStruct(n.properties);
    Has32Frame(a, b, off, TOKEN_BEGIN_NODE);
    HasFrame(a, b, off + 4, n.name + [0]);
    PropertiesFrame(a, b, props, base, s, n.properties);
    ChildrenFrame(a, b, kids, base, s + PropsStrings(n.properties), n.children);
    Has32Frame(a, b, kids + KidsStruct(n.children), TOKEN_END_NODE);
  }

  lemma {:induction false} ChildrenFrame(a: Bytes, b: Bytes, off: nat, base: nat, s: nat, ns: seq<Node>)
    requires ChildrenAt(a, off, base, s, ns)
    requires Agree(a, b, off, off + KidsStruct(ns)) && Agree(a, b, base + s, base + s + KidsStrings(ns))
    ensures ChildrenAt(b, off, base, s, ns)
    decreases ns, 0
  {
    hide NodeAt, NodeStruct, NodeStrings;
    if ns != [] {
      NodeFrame(a, b, off, base, s, ns[0]);
      ChildrenFrame(a, b, off + NodeStruct(ns[0]), base, s + NodeStrings(ns[0]), ns[1..]);
    }
  }

  lemma {:induction false} MapFrame(a: Bytes, b: Bytes, off: nat, m: seq<MapEntry>)
    requires MapAt(a, off, m) && Agree(a, b, off, off + 16 * |m| + 16)
    ensures MapAt(b, off, m)
    decreases m
  {
    assert a[off..off + 8] == b[off..off + 8];
    assert a[off + 8..off + 8 + 8] == b[off + 8..off + 8 + 8];
    if m != [] {
      MapFrame(a, b, off + 16, m[1..]);
    }
  }

  lemma {:induction false} PropertiesAtSnoc(b: Bytes, off: nat, base: nat, s: nat, ps: seq<Property>, p: Property)
    requires PropertiesAt(b, off, base, s, ps)
    requires PropertyAt(b, off + PropsStruct(ps), base, s + PropsStrings(ps), p)
    ensures PropertiesAt(b, off, base, s, ps + [p])
    decreases ps
  {
    hide PropertyAt, PropStruct, PropStrings;
    if ps == [] {
      assert [p][1..] == [];
      assert ps + [p] == [p];
    } else {
      assert (ps + [p])[1..] == ps[1..] + [p];
      PropertiesAtSnoc(b, off + PropStruct(ps[0]), base, s + PropStrings(ps[0]), ps[1..], p);
    }
  }

  lemma {:induction false} ChildrenAtSnoc(b: Bytes, off: nat, base: nat, s: nat, ns: seq<Node>, n: Node)
    requires ChildrenAt(b, off, base, s, ns)
    requires NodeAt(b, off + KidsStruct(ns), base, s + KidsStrings(ns), n)
    ensures ChildrenAt(b, off, base, s, ns + [n])
    decreases ns
  {
    hide NodeAt, NodeStruct, NodeStrings;
    if ns == [] {
      assert [n][1..] == [];
      assert ns + [n] == [n];
    } else {
      assert (ns + [n])[1..] == ns[1..] + [n];
      ChildrenAtSnoc(b, off + NodeStruct(ns[0]), base, s + NodeStrings(ns[0]), ns[1..], n);
    }
  }

  // ----- writing -----

  method WriteBytes(dest: array<Byte>, off: nat, x: Bytes)
    requires off + |x| <= dest.Length
    modifies dest
    ensures Has(dest[..], off, x)
    ensures Within(old(dest[..]), dest[..], off, off + |x|, 0, 0)
  {
    forall i | 0 <= i < |x| {
      dest[off + i] := x[i];
    }
    assert dest[..][off..off + |x|] == x;
  }

  method Write32(dest: array<Byte>, off: nat, v: nat)
    requires off + 4 <= dest.Length && v < 0x1_0000_0000
    modifies dest
    ensures Has32(dest[..], off, v)
    ensures Within(old(dest[..]), dest[..], off, off + 4, 0, 0)
  {
    WordSizes();
    EncodeRoundTrip(v, 4);
    WriteBytes(dest, off, Encode32(v));
  }

  /** dt_flatten_prop: the structure cursor and the strings cursor move by the sizes of the
      property, and the padding bytes keep what the buffer held before. */
  method FlattenProperty(dest: array<Byte>, p: Property, st: nat, base: nat, str: nat) returns (st': nat, str': nat)
    requires PropertyOk(p) && st + PropStruct(p) <= base <= str && str + PropStrings(p) <= dest.Length < 0x1_0000_0000
    modifies dest
    ensures st' == st + PropStruct(p) && str' == str + PropStrings(p)
    ensures PropertyAt(dest[..], st, base, str - base, p)
    ensures Within(old(dest[..]), dest[..], st, st', str, str')
  {
    hide Has, Has32;
    Write32(dest, st, TOKEN_PROPERTY);
    ghost var d1 := dest[..];
    Write32(dest, st + 4, |p.data|);
    ghost var d2 := dest[..];
    Write32(dest, st + 8, str - base);
    ghost var d3 := dest[..];
    WriteBytes(dest, str, p.name + [0]);
    ghost var d4 := dest[..];
    WriteBytes(dest, st + 12, p.data);
    st', str' := st + PropStruct(p), str + PropStrings(p);
    ghost var d := dest[..];
    Has32Frame(d1, d, st, TOKEN_PROPERTY);
    Has32Frame(d2, d, st + 4, |p.data|);
    Has32Frame(d3, d, st + 8, str - base);
    HasFrame(d4, d, str, p.name + [0]);
  }

  /** The first loop of dt_flatten_node. */
  method FlattenProperties(dest: array<Byte>, ps: seq<Property>, st: nat, base: nat, str: nat)
    returns (st': nat, str': nat)
    requires PropertiesOk(ps) && st + PropsStruct(ps) <= base <= str
    requires str + PropsStrings(ps) <= dest.Length < 0x1_0000_0000
    modifies dest
    ensures st' == st + PropsStruct(ps) && str' == str + PropsStrings(ps)
    ensures PropertiesAt(dest[..], st, base, str - base, ps)
    ensures Within(old(dest[..]), dest[..], st, st', str, str')
  {
    hide PropertyOk, PropStruct, PropStrings, PropsStruct, PropsStrings, PropertyAt, PropertiesAt, PropertiesOk;
    st', str' := st, str;
    PropertiesStart(dest[..], st, base, str - base);
    for i := 0 to |ps|
      invariant st' == st + PropsStruct(ps[..i]) && str' == str + PropsStrings(ps[..i])
      invariant PropertiesAt(dest[..], st, base, str - base, ps[..i])
      invariant Within(old(dest[..]), dest[..], st, st', str, str')
    {
      ghost var d := dest[..];
      PropsRoom(ps, i);
      TakeNext(ps, i);
      PropsSnoc(ps[..i], ps[i]);
      st', str' := FlattenProperty(dest, ps[i], st', base, str');
      PropertiesFrame(d, dest[..], st, base, str - base, ps[..i]);
      PropertiesAtSnoc(dest[..], st, base, str - base, ps[..i], ps[i]);
    }
    assert ps[..|ps|] == ps;
  }

  lemma PropertiesStart(b: Bytes, off: nat, base: nat, s: nat)
    ensures PropertiesAt(b, off, base, s, []) && PropsStruct([]) == 0 && PropsStrings([]) == 0
  {
  }

  lemma {:induction false} PropsRoom(ps: seq<Property>, i: nat)
    requires i < |ps| && PropertiesOk(ps)
    ensures PropertyOk(ps[i])
    ensures PropsStruct(ps[..i]) + PropStruct(ps[i]) <= PropsStruct(ps)
    ensures PropsStrings(ps[..i]) + PropStrings(ps[i]) <= PropsStrings(ps)
    decreases ps
  {
    hide PropertyOk, PropStruct, PropStrings;
    if i > 0 {
      PropsRoom(ps[1..], i - 1);
      assert ps[..i][1..] == ps[1..][..i - 1] && ps[..i][0] == ps[0];
    }
  }

  lemma {:induction false} KidsRoom(ns: seq<Node>, i: nat)
    requires i < |ns| && ChildrenOk(ns)
    ensures NodeOk(ns[i])
    ensures KidsStruct(ns[..i]) + NodeStruct(ns[i]) <= KidsStruct(ns)
    ensures KidsStrings(ns[..i]) + NodeStrings(ns[i]) <= KidsStrings(ns)
    decreases ns
  {
    hide NodeOk, NodeStruct, NodeStrings;
    if i > 0 {
      KidsRoom(ns[1..], i - 1);
      assert ns[..i][1..] == ns[1..][..i - 1] && ns[..i][0] == ns[0];
    }
  }

  lemma ChildrenStart(b: Bytes, off: nat, base: nat, s: nat)
    ensures ChildrenAt(b, off, base, s, []) && KidsStruct([]) == 0 && KidsStrings([]) == 0
  {
  }

  /** Two writes, the later one further back in both blocks, as one. */
  lemma Chain(a: Bytes, b: Bytes, c: Bytes, s: int, m: int, s': int, t: int, t': int, k: int, k': int)
    requires Within(a, b, s, m, t, t') && Within(b, c, m, s', k, k')
    requires s <= m <= s' && ((t <= k <= t' <= k') || k == k')
    ensures Within(a, c, s, s', t, if k == k' then t' else k')
  {
  }

  lemma Kept(a: Bytes, b: Bytes, s: int, s': int, t: int, t': int, lo: int, hi: int)
    requires Within(a, b, s, s', t, t')
    requires (hi <= s || s' <= lo) && (hi <= t || t' <= lo || t == t')
    ensures Agree(a, b, lo, hi)
  {
  }

  /** The five writes of dt_flatten_node, with the buffer after each of them. */
  lemma NodeWritten(d0: Bytes, d1: Bytes, d2: Bytes, d3: Bytes, d4: Bytes, d: Bytes, n: Node, st: nat, base: nat,
                    str: nat)
    requires st + NodeStruct(n) <= base <= str
    requires var props := st + 4 + Pad4(|n.name| + 1);
      var kids := props + PropsStruct(n.properties);
      var end := kids + KidsStruct(n.children);
      var s1 := str + PropsStrings(n.properties);
      var s2 := s1 + KidsStrings(n.children);
      && Has32(d1, st, TOKEN_BEGIN_NODE) && Within(d0, d1, st, st + 4, 0, 0)
      && HasString(d2, st + 4, n.name) && Within(d1, d2, st + 4, props, 0, 0)
      && PropertiesAt(d3, props, base, str - base, n.properties) && Within(d2, d3, props, kids, str, s1)
      && ChildrenAt(d4, kids, base, s1 - base, n.children) && Within(d3, d4, kids, end, s1, s2)
      && Has32(d, end, TOKEN_END_NODE) && Within(d4, d, end, end + 4, 0, 0)
    ensures NodeAt(d, st, base, str - base, n)
    ensures Within(d0, d, st, st + NodeStruct(n), str, str + NodeStrings(n))
  {
    hide Has, Has32, PropertiesAt, ChildrenAt, NodeAt, PropsStruct, PropsStrings, KidsStruct, KidsStrings,
         NodeStruct, NodeStrings, Pad4, Within, Agree;
    var props := st + 4 + Pad4(|n.name| + 1);
    var kids := props + PropsStruct(n.properties);
    var end := kids + KidsStruct(n.children);
    var s1 := str + PropsStrings(n.properties);
    var s2 := s1 + KidsStrings(n.children);
    NodeSizes(n);
    Pad4Room(|n.name| + 1);
    Chain(d3, d4, d, kids, end, end + 4, s1, s2, 0, 0);
    Chain(d2, d3, d, props, kids, end + 4, str, s1, s1, s2);
    Later(d1, d2, d, st + 4, props, end + 4, str, s2);
    Later(d0, d1, d, st, st + 4, end + 4, str, s2);
    Kept(d1, d, st + 4, end + 4, str, s2, st, st + 4);
    Has32Frame(d1, d, st, TOKEN_BEGIN_NODE);
    Kept(d2, d, props, end + 4, str, s2, st + 4, props);
    Narrower(d2, d, st + 4, props, st + 4 + |n.name + [0]|);
    HasFrame(d2, d, st + 4, n.name + [0]);
    Kept(d3, d, kids, end + 4, s1, s2, props, kids);
    Kept(d3, d, kids, end + 4, s1, s2, str, s1);
    PropertiesFrame(d3, d, props, base, str - base, n.properties);
    Kept(d4, d, end, end + 4, 0, 0, kids, end);
    Kept(d4, d, end, end + 4, 0, 0, s1, s2);
    ChildrenFrame(d4, d, kids, base, s1 - base, n.children);
    NodeAtParts(d, st, base, str - base, n);
  }

  lemma Later(a: Bytes, b: Bytes, c: Bytes, s: int, m: int, s': int, t: int, t': int)
    requires Within(a, b, s, m, 0, 0) && Within(b, c, m, s', t, t') && s <= m <= s'
    ensures Within(a, c, s, s', t, t')
  {
  }

  lemma Narrower(a: Bytes, b: Bytes, lo: int, hi: int, hi': int)
    requires Agree(a, b, lo, hi) && hi' <= hi
    ensures Agree(a, b, lo, hi')
  {
  }

  /** dt_flatten_node: both cursors end where the sizes say, and nothing else is written. */
  method FlattenNode(dest: array<Byte>, n: Node, st: nat, base: nat, str: nat) returns (st': nat, str': nat)
    requires NodeOk(n) && st + NodeStruct(n) <= base <= str && str + NodeStrings(n) <= dest.Length < 0x1_0000_0000
    modifies dest
    ensures st' == st + NodeStruct(n) && str' == str + NodeStrings(n)
    ensures NodeAt(dest[..], st, base, str - base, n)
    ensures Within(old(dest[..]), dest[..], st, st', str, str')
    decreases n, 1
  {
    hide Has, Has32, PropertiesAt, ChildrenAt, NodeAt, PropsStruct, PropsStrings, KidsStruct, KidsStrings,
         NodeStruct, NodeStrings, NodeOk, Pad4, U32, BigEndian, NoNul, PropertiesOk, ChildrenOk, Within;
    NodeParts(n);
    Pad4Room(|n.name| + 1);
    ghost var d0 := dest[..];
    var props := st + 4 + Pad4(|n.name| + 1);
    Write32(dest, st, TOKEN_BEGIN_NODE);
    ghost var d1 := dest[..];
    WriteBytes(dest, st + 4, n.name + [0]);
    ghost var d2 := dest[..];
    Wider(d1, d2, st + 4, st + 4 + |n.name + [0]|, props);
    var kids, s1 := FlattenProperties(dest, n.properties, props, base, str);
    ghost var d3 := dest[..];
    st', str' := FlattenChildren(dest, n.children, kids, base, s1);
    ghost var d4 := dest[..];
    Write32(dest, st', TOKEN_END_NODE);
    NodeWritten(d0, d1, d2, d3, d4, dest[..], n, st, base, str);
    st' := st' + 4;
  }

  lemma Wider(a: Bytes, b: Bytes, s: int, m: int, s': int)
    requires Within(a, b, s, m, 0, 0) && m <= s'
    ensures Within(a, b, s, s', 0, 0)
  {
  }

  lemma Pad4Room(n: nat)
    ensures n <= Pad4(n) < n + 4
  {
  }

  lemma NodeParts(n: Node)
    requires NodeOk(n)
    ensures NoNul(n.name) && PropertiesOk(n.properties) && ChildrenOk(n.children)
    ensures NodeStruct(n) == 4 + Pad4(|n.name| + 1) + PropsStruct(n.properties) + KidsStruct(n.children) + 4
    ensures NodeStrings(n) == PropsStrings(n.properties) + KidsStrings(n.children)
  {
  }

  lemma NodeAtParts(b: Bytes, off: nat, base: nat, s: nat, n: Node)
    requires Has32(b, off, TOKEN_BEGIN_NODE) && HasString(b, off + 4, n.name)
    requires PropertiesAt(b, off + 4 + Pad4(|n.name| + 1), base, s, n.properties)
    requires ChildrenAt(b, off + 4 + Pad4(|n.name| + 1) + PropsStruct(n.properties), base,
                        s + PropsStrings(n.properties), n.children)
    requires Has32(b, off + 4 + Pad4(|n.name| + 1) + PropsStruct(n.properties) + KidsStruct(n.children), TOKEN_END_NODE)
    ensures NodeAt(b, off, base, s, n)
  {
    hide Has, Has32, PropertiesAt, ChildrenAt, PropsStruct, PropsStrings, KidsStruct, Pad4;
  }

  /** The second loop. */
  method FlattenChildren(dest: array<Byte>, ns: seq<Node>, st: nat, base: nat, str: nat) returns (st': nat, str': nat)
    requires ChildrenOk(ns) && st + KidsStruct(ns) <= base <= str
    requires str + KidsStrings(ns) <= dest.Length < 0x1_0000_0000
    modifies dest
    ensures st' == st + KidsStruct(ns) && str' == str + KidsStrings(ns)
    ensures ChildrenAt(dest[..], st, base, str - base, ns)
    ensures Within(old(dest[..]), dest[..], st, st', str, str')
    decreases ns, 0
  {
    hide NodeOk, NodeStruct, NodeStrings, KidsStruct, KidsStrings, NodeAt, ChildrenAt, ChildrenOk;
    st', str' := st, str;
    ChildrenStart(dest[..], st, base, str - base);
    for i := 0 to |ns|
      invariant st' == st + KidsStruct(ns[..i]) && str' == str + KidsStrings(ns[..i])
      invariant ChildrenAt(dest[..], st, base, str - base, ns[..i])
      invariant Within(old(dest[..]), dest[..], st, st', str, str')
    {
      ghost var d := dest[..];
      KidsRoom(ns, i);
      TakeNext(ns, i);
      KidsSnoc(ns[..i], ns[i]);
      st', str' := FlattenNode(dest, ns[i], st', base, str');
      ChildrenFrame(d, dest[..], st, base, str - base, ns[..i]);
      ChildrenAtSnoc(dest[..], st, base, str - base, ns[..i], ns[i]);
    }
    assert ns[..|ns|] == ns;
  }

  // ----- dt_flatten -----

  /** The header field at off is written by dt_flatten. */
  predicate Rewritten(off: nat) {
    TOTALSIZE <= off < RESERVE_MAP_OFFSET || STRINGS_SIZE <= off < HEADER_SIZE
  }

  /** b starts with the flattened form of t. */
  ghost predicate TreeAt(b: Bytes, t: DeviceTree) {
    var h := |t.header|;
    var st := h + 16 * |t.reserveMap| + 16;
    var base := st + NodeStruct(t.root) + 4;
    && FlatSize(t) <= |b|
    && (forall i :: 0 <= i < h && !Rewritten(i) ==> b[i] == t.header[i])
    && Has32(b, TOTALSIZE, FlatSize(t)) && Has32(b, STRUCTURE_OFFSET, st) && Has32(b, STRINGS_OFFSET, base)
    && Has32(b, STRINGS_SIZE, NodeStrings(t.root)) && Has32(b, STRUCTURE_SIZE, NodeStruct(t.root))
    && MapAt(b, h, t.reserveMap)
    && NodeAt(b, st, base, 0, t.root)
    && Has32(b, st + NodeStruct(t.root), TOKEN_END)
  }

  method FlattenMap(dest: array<Byte>, m: seq<MapEntry>, off: nat) returns (end: nat)
    requires MapOk(m) && off + 16 * |m| + 16 <= dest.Length
    modifies dest
    ensures end == off + 16 * |m| + 16
    ensures MapAt(dest[..], off, m)
    ensures Within(old(dest[..]), dest[..], off, end, 0, 0)
    decreases |m|
  {
    end := off;
    for i := 0 to |m|
      invariant end == off + 16 * i
      invariant forall k :: 0 <= k < i ==> EntryAt(dest[..], off + 16 * k, m[k])
      invariant Within(old(dest[..]), dest[..], off, end, 0, 0)
    {
      ghost var d := dest[..];
      WriteEntry(dest, end, m[i]);
      forall k | 0 <= k < i ensures EntryAt(dest[..], off + 16 * k, m[k]) {
        EntryFrame(d, dest[..], off + 16 * k, m[k]);
      }
      end := end + 16;
    }
    ghost var d := dest[..];
    WriteEntry(dest, end, MapEntry(0, 0));
    forall k | 0 <= k < |m| ensures EntryAt(dest[..], off + 16 * k, m[k]) {
      EntryFrame(d, dest[..], off + 16 * k, m[k]);
    }
    EntriesMap(dest[..], off, m);
    end := end + 16;
  }

  predicate EntryAt(b: Bytes, off: nat, e: MapEntry) {
    off + 16 <= |b| && U64(b, off) == e.start && U64(b, off + 8) == e.size
  }

  lemma EntryFrame(a: Bytes, b: Bytes, off: nat, e: MapEntry)
    requires EntryAt(a, off, e) && Agree(a, b, off, off + 16)
    ensures EntryAt(b, off, e)
  {
    assert a[off..off + 8] == b[off..off + 8];
    assert a[off + 8..off + 8 + 8] == b[off + 8..off + 8 + 8];
  }

  lemma {:induction false} EntriesMap(b: Bytes, off: nat, m: seq<MapEntry>)
    requires forall k :: 0 <= k < |m| ==> EntryAt(b, off + 16 * k, m[k])
    requires EntryAt(b, off + 16 * |m|, MapEntry(0, 0))
    ensures MapAt(b, off, m)
    decreases m
  {
    if m != [] {
      assert EntryAt(b, off + 16 * 0, m[0]);
      forall k | 0 <= k < |m[1..]| ensures EntryAt(b, off + 16 + 16 * k, m[1..][k]) {
        assert EntryAt(b, off + 16 * (k + 1), m[k + 1]);
      }
      EntriesMap(b, off + 16, m[1..]);
    }
  }

  /** dt_flatten_map_entry. */
  method WriteEntry(dest: array<Byte>, off: nat, e: MapEntry)
    requires off + 16 <= dest.Length && e.start < LIMIT64 && e.size < LIMIT64
    modifies dest
    ensures EntryAt(dest[..], off, e)
    ensures Within(old(dest[..]), dest[..], off, off + 16, 0, 0)
  {
    WordSizes();
    EncodeRoundTrip(e.start, 8);
    EncodeRoundTrip(e.size, 8);
    WriteBytes(dest, off, Encode64(e.start));
    ghost var d := dest[..];
    WriteBytes(dest, off + 8, Encode64(e.size));
    HasFrame(d, dest[..], off, Encode64(e.start));
    assert dest[..][off..off + 8] == Encode64(e.start);
    assert dest[..][off + 8..off + 8 + 8] == Encode64(e.size);
  }
}

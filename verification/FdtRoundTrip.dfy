/** dt_flatten (src/base/device_tree.c:445-490), and reading back what it wrote. */
module FdtRoundTrip {
  import opened Common
  import opened FdtFormat
  import opened FdtRead
  import opened FdtDecode
  import opened FdtWrite

  /** A tree as fdt_unflatten makes it, small enough for 32-bit offsets. */
  predicate TreeOk(t: DeviceTree) {
    && HEADER_SIZE <= |t.header|
    && U32(t.header, MAGIC) == FDT_MAGIC && U32(t.header, LAST_COMP_VERSION) <= FDT_SUPPORTED_VERSION
    && MapOk(t.reserveMap) && NodeOk(t.root)
    && FlatSize(t) < 0x1_0000_0000
  }

  /** Writes exactly dt_flat_size bytes. */
  method DtFlatten(t: DeviceTree, dest: array<Byte>)
    requires TreeOk(t) && FlatSize(t) <= dest.Length < 0x1_0000_0000
    modifies dest
    ensures TreeAt(dest[..], t)
    ensures dest[FlatSize(t)..] == old(dest[..])[FlatSize(t)..]
  {
    hide NodeStruct, NodeStrings, NodeAt, MapAt, Has32, NodeOk, MapOk, U32;
    var st, structSize, stringsSize := FlattenFront(t, dest);
    var base := st + structSize + 4;
    ghost var d1 := dest[..];
    Write32(dest, st + structSize, TOKEN_END);
    ghost var d2 := dest[..];
    var structEnd, stringsEnd := FlattenNode(dest, t.root, st, base, base);
    ghost var d3 := dest[..];
    Write32(dest, TOTALSIZE, base + stringsSize);
    ghost var d := dest[..];
    MapFrame(d1, d, |t.header|, t.reserveMap);
    Has32Frame(d1, d, STRUCTURE_OFFSET, st);
    Has32Frame(d1, d, STRUCTURE_SIZE, structSize);
    Has32Frame(d1, d, STRINGS_OFFSET, base);
    Has32Frame(d1, d, STRINGS_SIZE, stringsSize);
    Has32Frame(d2, d, st + structSize, TOKEN_END);
    NodeFrame(d3, d, st, base, 0, t.root);
  }

  /** Everything in front of the structure block. */
  method FlattenFront(t: DeviceTree, dest: array<Byte>) returns (st: nat, structSize: nat, stringsSize: nat)
    requires TreeOk(t) && FlatSize(t) <= dest.Length < 0x1_0000_0000
    modifies dest
    ensures st == |t.header| + 16 * |t.reserveMap| + 16
    ensures structSize == NodeStruct(t.root) && stringsSize == NodeStrings(t.root)
    ensures forall i :: 0 <= i < |t.header| && !Rewritten(i) ==> dest[i] == t.header[i]
    ensures MapAt(dest[..], |t.header|, t.reserveMap)
    ensures Has32(dest[..], STRUCTURE_OFFSET, st) && Has32(dest[..], STRUCTURE_SIZE, structSize)
    ensures Has32(dest[..], STRINGS_OFFSET, st + structSize + 4) && Has32(dest[..], STRINGS_SIZE, stringsSize)
    ensures Within(old(dest[..]), dest[..], 0, st, 0, 0)
  {
    hide NodeStruct, NodeStrings, MapAt, Has, Has32, NodeOk, MapOk, U32;
    WriteBytes(dest, 0, t.header);
    ghost var d0 := dest[..];
    st := FlattenMap(dest, t.reserveMap, |t.header|);
    ghost var d1 := dest[..];
    structSize, stringsSize := FlatNodeSize(t.root, 0, 0);
    WriteOffsets(dest, st, structSize, st + structSize + 4, stringsSize);
    HeaderKept(d0, dest[..], t.header);
    MapFrame(d1, dest[..], |t.header|, t.reserveMap);
  }

  /** The four header fields that describe the blocks. */
  method WriteOffsets(dest: array<Byte>, st: nat, structSize: nat, base: nat, stringsSize: nat)
    requires HEADER_SIZE <= dest.Length
    requires st < 0x1_0000_0000 && structSize < 0x1_0000_0000 && base < 0x1_0000_0000 && stringsSize < 0x1_0000_0000
    modifies dest
    ensures Has32(dest[..], STRUCTURE_OFFSET, st) && Has32(dest[..], STRUCTURE_SIZE, structSize)
    ensures Has32(dest[..], STRINGS_OFFSET, base) && Has32(dest[..], STRINGS_SIZE, stringsSize)
    ensures Within(old(dest[..]), dest[..], STRUCTURE_OFFSET, RESERVE_MAP_OFFSET, STRINGS_SIZE, HEADER_SIZE)
  {
    hide Has32;
    Write32(dest, STRUCTURE_OFFSET, st);
    ghost var d1 := dest[..];
    Write32(dest, STRUCTURE_SIZE, structSize);
    ghost var d2 := dest[..];
    Write32(dest, STRINGS_OFFSET, base);
    ghost var d3 := dest[..];
    Write32(dest, STRINGS_SIZE, stringsSize);
    Has32Frame(d1, dest[..], STRUCTURE_OFFSET, st);
    Has32Frame(d2, dest[..], STRUCTURE_SIZE, structSize);
    Has32Frame(d3, dest[..], STRINGS_OFFSET, base);
  }

  lemma HeaderKept(a: Bytes, b: Bytes, header: Bytes)
    requires Has(a, 0, header) && |a| == |b|
    requires forall i {:trigger b[i]} :: 0 <= i < |header| && !Rewritten(i) ==> a[i] == b[i]
    ensures forall i :: 0 <= i < |header| && !Rewritten(i) ==> b[i] == header[i]
  {
    assert forall i :: 0 <= i < |header| ==> a[0..0 + |header|][i] == header[i];
  }

  /** The header fields that dt_flatten does not write. */
  lemma KeptField(b: Bytes, header: Bytes, off: nat)
    requires off + 4 <= |header| <= |b|
    requires forall i :: 0 <= i < |header| && !Rewritten(i) ==> b[i] == header[i]
    requires forall i :: off <= i < off + 4 ==> !Rewritten(i)
    ensures U32(b, off) == U32(header, off)
  {
    assert b[off..off + 4] == header[off..off + 4];
  }

  /** Flattening and unflattening gives back names, properties, children and their order, the
      reserve map and the header bytes that were not rewritten.  The phandles of the nodes and
      max_phandle are recomputed from the properties, whatever the fields held before.
      The source must have had its reserve map in front of the other blocks. */
  lemma FlattenUnflatten(b: Bytes, t: DeviceTree)
    requires TreeOk(t) && TreeAt(b, t) && |b| < 0x1_0000_0000
    requires U32(t.header, RESERVE_MAP_OFFSET) == |t.header|
    ensures Unflatten(b) == ATree(DeviceTree(b[..|t.header|], MaxInNode(t.root, 0), t.reserveMap, Recomputed(t.root)))
    ensures forall i :: 0 <= i < |t.header| && !Rewritten(i) ==> b[..|t.header|][i] == t.header[i]
  {
    hide NodeAt, MapAt, MapOk, NodeOk, UnflattenNode, ReadMap, NodeStruct, NodeStrings, MaxInNode, U32, Recomputed;
    var h := |t.header|;
    KeptField(b, t.header, MAGIC);
    KeptField(b, t.header, LAST_COMP_VERSION);
    KeptField(b, t.header, RESERVE_MAP_OFFSET);
    var st := h + 16 * |t.reserveMap| + 16;
    NodeRoundTrip(b, st, st + NodeStruct(t.root) + 4, 0, t.root, 0);
    MapRoundTrip(b, h, [], t.reserveMap);
    NothingBefore(t.reserveMap);
  }

  /** fdt_skip_node measures the flattened root, and the structure block ends right there. */
  lemma SkipRoot(b: Bytes, t: DeviceTree)
    requires TreeOk(t) && TreeAt(b, t)
    ensures var st := |t.header| + 16 * |t.reserveMap| + 16;
      SkipNode(b, st) == Got(NodeStruct(t.root), ()) && Has32(b, st + NodeStruct(t.root), TOKEN_END)
  {
    hide NodeAt, MapAt, MapOk, NodeOk, SkipNode, NodeStruct, NodeStrings, Has32;
    var st := |t.header| + 16 * |t.reserveMap| + 16;
    NodeSkipped(b, st, st + NodeStruct(t.root) + 4, 0, t.root);
  }

  /** The field reserve_map_offset is copied from the source header, although the map moves to
      the end of the header.  A reader that starts at the field finds the map exactly if the
      entries of the map stand there, one after the other, with an end marker behind them. */
  lemma ReaderFindsMapIff(b: Bytes, t: DeviceTree)
    requires TreeOk(t) && TreeAt(b, t)
    ensures ReadMap(b, U32(b, RESERVE_MAP_OFFSET), []) == Some(t.reserveMap)
       <==> MapStandsAt(b, U32(t.header, RESERVE_MAP_OFFSET), t.reserveMap)
  {
    hide NodeAt, MapAt, MapOk, NodeOk, ReadMap, NodeStruct, NodeStrings, U32, MapStandsAt;
    KeptField(b, t.header, RESERVE_MAP_OFFSET);
    ReadMapIff(b, U32(b, RESERVE_MAP_OFFSET), [], t.reserveMap);
    NothingBefore(t.reserveMap);
  }

  /** The entries of m stand at off, followed by an entry of size 0. */
  predicate MapStandsAt(b: Bytes, off: nat, m: seq<MapEntry>) {
    && off + 16 * |m| + 16 <= |b|
    && (forall i :: 0 <= i < |m| ==> MapEntry(U64(b, off + 16 * i), U64(b, off + 16 * i + 8)) == m[i])
    && U64(b, off + 16 * |m| + 8) == 0
  }

  lemma {:induction false} ReadMapIff(b: Bytes, off: nat, done: seq<MapEntry>, m: seq<MapEntry>)
    requires MapOk(m)
    ensures ReadMap(b, off, done) == Some(done + m) <==> MapStandsAt(b, off, m)
    decreases m
  {
    hide U64, MapStandsAt;
    if m != [] {
      MapStandsStep(b, off, m);
    }
    NoMapStands(b, off);
    if off + 16 <= |b| && U64(b, off + 8) != 0 {
      var e := MapEntry(U64(b, off), U64(b, off + 8));
      ReadMapGrows(b, off + 16, done + [e]);
      if m != [] && e == m[0] {
        ReadMapIff(b, off + 16, done + [e], m[1..]);
        assert (done + [e]) + m[1..] == done + m;
      }
      var r := ReadMap(b, off, done);
      assert r.Some? ==> r.value[|done|] == r.value[..|done| + 1][|done|] == e;
      assert m != [] ==> (done + m)[|done|] == m[0];
    }
    assert m == [] ==> done + m == done;
  }

  lemma NoMapStands(b: Bytes, off: nat)
    ensures MapStandsAt(b, off, []) <==> off + 16 <= |b| && U64(b, off + 8) == 0
  {
    hide U64;
  }

  /** What has been read stays in front. */
  lemma {:induction false} ReadMapGrows(b: Bytes, off: nat, done: seq<MapEntry>)
    ensures var r := ReadMap(b, off, done);
      r.Some? ==> |r.value| >= |done| && r.value[..|done|] == done
    decreases |b| - off
  {
    hide U64;
    if off + 16 <= |b| && U64(b, off + 8) != 0 {
      var next := done + [MapEntry(U64(b, off), U64(b, off + 8))];
      ReadMapGrows(b, off + 16, next);
      var r := ReadMap(b, off + 16, next);
      if r.Some? {
        assert r.value[..|done|] == r.value[..|next|][..|done|];
      }
    }
  }

  lemma MapStandsStep(b: Bytes, off: nat, m: seq<MapEntry>)
    requires m != []
    ensures MapStandsAt(b, off, m)
       <==> off + 16 <= |b| && MapEntry(U64(b, off), U64(b, off + 8)) == m[0] && MapStandsAt(b, off + 16, m[1..])
  {
    hide U64;
    if off + 16 <= |b| && MapEntry(U64(b, off), U64(b, off + 8)) == m[0] && MapStandsAt(b, off + 16, m[1..]) {
      forall i | 0 <= i < |m| ensures MapEntry(U64(b, off + 16 * i), U64(b, off + 16 * i + 8)) == m[i] {
        if i > 0 {
          assert m[i] == m[1..][i - 1];
          assert off + 16 + 16 * (i - 1) == off + 16 * i;
        }
      }
    }
    if MapStandsAt(b, off, m) {
      assert off + 16 * 0 == off;
      assert MapEntry(U64(b, off + 16 * 0), U64(b, off + 16 * 0 + 8)) == m[0];
      forall i | 0 <= i < |m[1..]|
        ensures MapEntry(U64(b, off + 16 + 16 * i), U64(b, off + 16 + 16 * i + 8)) == m[1..][i]
      {
        assert off + 16 + 16 * i == off + 16 * (i + 1);
        assert m[1..][i] == m[i + 1];
      }
    }
  }

  /** With the field pointing at the k-th written entry the reader gets the map without its first
      k entries, so it gets the whole map if and only if k is 0; with k == |map| it gets none. */
  lemma MapReadFrom(b: Bytes, t: DeviceTree, k: nat)
    requires TreeOk(t) && TreeAt(b, t) && k <= |t.reserveMap|
    requires U32(t.header, RESERVE_MAP_OFFSET) == |t.header| + 16 * k
    ensures ReadMap(b, U32(b, RESERVE_MAP_OFFSET), []) == Some(t.reserveMap[k..])
    ensures ReadMap(b, U32(b, RESERVE_MAP_OFFSET), []) == Some(t.reserveMap) <==> k == 0
  {
    hide NodeAt, MapAt, NodeOk, NodeStruct, NodeStrings, U32, ReadMap;
    KeptField(b, t.header, RESERVE_MAP_OFFSET);
    MapTail(b, |t.header|, t.reserveMap, k);
    MapRoundTrip(b, |t.header| + 16 * k, [], t.reserveMap[k..]);
    NothingBefore(t.reserveMap[k..]);
  }

  lemma {:induction false} MapTail(b: Bytes, off: nat, m: seq<MapEntry>, k: nat)
    requires MapAt(b, off, m) && k <= |m|
    ensures MapAt(b, off + 16 * k, m[k..])
    decreases k
  {
    hide U64;
    if k > 0 {
      MapTail(b, off + 16, m[1..], k - 1);
      assert m[1..][k - 1..] == m[k..];
    }
  }

  /** For a tree that was read from a blob, the field points at the end of the header, where the
      map goes, exactly when the reserve map was the first block of that blob. */
  lemma MapFirstIff(b: Bytes, t: DeviceTree)
    requires Unflatten(b) == ATree(t) && |t.header| >= HEADER_SIZE
    ensures U32(t.header, RESERVE_MAP_OFFSET) == |t.header|
       <==> U32(b, RESERVE_MAP_OFFSET) <= Min(U32(b, STRUCTURE_OFFSET), U32(b, STRINGS_OFFSET))
  {
    hide U32, UnflattenNode, ReadMap;
    assert t.header[RESERVE_MAP_OFFSET..RESERVE_MAP_OFFSET + 4] == b[RESERVE_MAP_OFFSET..RESERVE_MAP_OFFSET + 4];
    FieldEqual(t.header, b);
  }

  lemma FieldEqual(a: Bytes, b: Bytes)
    requires HEADER_SIZE <= |a| <= |b| && a == b[..|a|]
    ensures U32(a, RESERVE_MAP_OFFSET) == U32(b, RESERVE_MAP_OFFSET)
  {
    assert a[RESERVE_MAP_OFFSET..RESERVE_MAP_OFFSET + 4] == b[RESERVE_MAP_OFFSET..RESERVE_MAP_OFFSET + 4];
  }
}

/** The "reg" property of the memory node: ranges cut so that each size fits its cells, counted,
    written and read back (src/boot/fit.c, dt_write_int of src/base/device_tree.c). */
module FitReg {
  import opened Common
  import opened FdtFormat
  import opened RangeSets

  const LIMIT32: nat := 0x1_0000_0000

  datatype Entry = Entry(start: nat, size: nat)

  /** 1 << (size_cells * 32 - 1), for the cell counts the shift is defined for. */
  function MaxRange(sizeCells: nat): nat
    requires 1 <= sizeCells <= 2
  {
    if sizeCells == 1 then 0x8000_0000 else 0x8000_0000_0000_0000
  }

  /** Half of what the cells could count to, so that a chunk of this size still fits. */
  lemma MaxRangeIsHalf(sizeCells: nat)
    requires 1 <= sizeCells <= 2
    ensures 2 * MaxRange(sizeCells) == Power256(4 * sizeCells)
  {
    WordSizes();
  }

  /** The entries update_mem_property writes for one range. */
  function Chunks(start: nat, size: nat, max: nat): seq<Entry>
    requires max > 0
    decreases size
  {
    if size == 0 then []
    else
      var n := if size < max then size else max;
      [Entry(start, n)] + Chunks(start + n, size - n, max)
  }

  function AllChunks(rs: seq<Interval>, max: nat): seq<Entry>
    requires max > 0 && forall i :: 0 <= i < |rs| ==> rs[i].start <= rs[i].end
  {
    if rs == [] then []
    else AllChunks(rs[..|rs| - 1], max) + Chunks(rs[|rs| - 1].start, rs[|rs| - 1].end - rs[|rs| - 1].start, max)
  }

  // ----- the entries tile the ranges -----

  predicate InEntries(es: seq<Entry>, x: nat) {
    exists i :: 0 <= i < |es| && es[i].start <= x < es[i].start + es[i].size
  }

  /** Non-empty entries of at most `max` bytes, in ascending order and without overlap. */
  predicate Tiling(es: seq<Entry>, max: nat) {
    && (forall i :: 0 <= i < |es| ==> 0 < es[i].size <= max)
    && (forall i, j :: 0 <= i < j < |es| ==> es[i].start + es[i].size <= es[j].start)
  }

  predicate Within(es: seq<Entry>, low: nat, high: nat) {
    forall i :: 0 <= i < |es| ==> low <= es[i].start && es[i].start + es[i].size <= high
  }

  lemma InEntriesAppend(a: seq<Entry>, b: seq<Entry>, x: nat)
    ensures InEntries(a + b, x) <==> InEntries(a, x) || InEntries(b, x)
  {
    if InEntries(a, x) {
      var i :| 0 <= i < |a| && a[i].start <= x < a[i].start + a[i].size;
      assert (a + b)[i] == a[i];
    }
    if InEntries(b, x) {
      var i :| 0 <= i < |b| && b[i].start <= x < b[i].start + b[i].size;
      assert (a + b)[|a| + i] == b[i];
    }
  }

  lemma TilingAppend(a: seq<Entry>, b: seq<Entry>, max: nat, low: nat, mid: nat, high: nat)
    requires Tiling(a, max) && Tiling(b, max)
    requires low <= mid <= high && Within(a, low, mid) && Within(b, mid, high)
    ensures Tiling(a + b, max) && Within(a + b, low, high)
  {
  }

  lemma {:induction false} ChunksTile(start: nat, size: nat, max: nat, x: nat)
    requires max > 0
    ensures Tiling(Chunks(start, size, max), max) && Within(Chunks(start, size, max), start, start + size)
    ensures InEntries(Chunks(start, size, max), x) <==> start <= x < start + size
    decreases size
  {
    hide InEntries, Tiling, Within;
    if size == 0 {
      NoEntries(max, start, start, x);
    } else {
      var n := if size < max then size else max;
      ChunksTile(start + n, size - n, max, x);
      OneEntry(Entry(start, n), max, x);
      InEntriesAppend([Entry(start, n)], Chunks(start + n, size - n, max), x);
      TilingAppend([Entry(start, n)], Chunks(start + n, size - n, max), max, start, start + n, start + size);
    }
  }

  /** All entries of a range but the last have the full size. */
  lemma {:induction false} ChunkSizes(start: nat, size: nat, max: nat, i: nat)
    requires max > 0 && i < |Chunks(start, size, max)|
    ensures var cs := Chunks(start, size, max);
      cs[i].start == (if i == 0 then start else cs[i - 1].start + max)
      && (i + 1 < |cs| ==> cs[i].size == max) && (i + 1 == |cs| ==> cs[i].start + cs[i].size == start + size)
    decreases size
  {
    var n := if size < max then size else max;
    if i > 0 {
      ChunkSizes(start + n, size - n, max, i - 1);
      if i == 1 {
        assert Chunks(start + n, size - n, max)[0].start == start + n;
      }
    }
  }

  lemma NoEntries(max: nat, low: nat, high: nat, x: nat)
    ensures Tiling([], max) && Within([], low, high) && !InEntries([], x)
  {
  }

  lemma OneEntry(e: Entry, max: nat, x: nat)
    requires 0 < e.size <= max
    ensures Tiling([e], max) && Within([e], e.start, e.start + e.size)
    ensures InEntries([e], x) <==> e.start <= x < e.start + e.size
  {
    assert [e][0] == e;
  }

  /** Where the last range ends. */
  function High(rs: seq<Interval>): nat {
    if rs == [] then 0 else rs[|rs| - 1].end
  }

  /** The entries of separated ranges cover exactly those ranges, each address once, and every
      size is at most `max`. */
  lemma {:induction false} EntriesTile(rs: seq<Interval>, max: nat, x: nat)
    requires Separated(rs) && max > 0
    ensures Tiling(AllChunks(rs, max), max) && Within(AllChunks(rs, max), 0, High(rs))
    ensures InEntries(AllChunks(rs, max), x) <==> InSome(rs, x)
    decreases rs
  {
    hide InEntries, Tiling, Within;
    if rs == [] {
      NoEntries(max, 0, 0, x);
    } else {
      var n := |rs| - 1;
      var r := rs[n];
      EntriesTile(rs[..n], max, x);
      ChunksTile(r.start, r.end - r.start, max, x);
      InEntriesAppend(AllChunks(rs[..n], max), Chunks(r.start, r.end - r.start, max), x);
      WithinWider(AllChunks(rs[..n], max), 0, High(rs[..n]), r.start);
      TilingAppend(AllChunks(rs[..n], max), Chunks(r.start, r.end - r.start, max), max, 0, r.start, r.end);
      InSomeLast(rs, x);
    }
  }

  lemma WithinWider(es: seq<Entry>, low: nat, high: nat, higher: nat)
    requires Within(es, low, high) && high <= higher
    ensures Within(es, low, higher)
  {
  }

  lemma InSomeLast(rs: seq<Interval>, x: nat)
    requires rs != []
    ensures InSome(rs, x) <==> InSome(rs[..|rs| - 1], x) || rs[|rs| - 1].start <= x < rs[|rs| - 1].end
  {
    if InSome(rs[..|rs| - 1], x) {
      var i :| 0 <= i < |rs| - 1 && rs[..|rs| - 1][i].start <= x < rs[..|rs| - 1][i].end;
      assert rs[i] == rs[..|rs| - 1][i];
    }
    if InSome(rs, x) {
      var i :| 0 <= i < |rs| && rs[i].start <= x < rs[i].end;
      assert i < |rs| - 1 ==> rs[..|rs| - 1][i] == rs[i];
    }
  }

  // ----- counting -----

  /** ALIGN_UP to max_range in 64 bits. */
  function AlignUp64(x: nat, sizeCells: nat): nat
    requires 1 <= sizeCells <= 2
  {
    if sizeCells == 1 then (x + 0x7fff_ffff) % LIMIT64 / 0x8000_0000 * 0x8000_0000
    else (x + 0x7fff_ffff_ffff_ffff) % LIMIT64 / 0x8000_0000_0000_0000 * 0x8000_0000_0000_0000
  }

  /** What count_entries adds for a range of `size` bytes. */
  function CountFor(size: nat, sizeCells: nat): nat
    requires 1 <= sizeCells <= 2
  {
    AlignUp64(size, sizeCells) / MaxRange(sizeCells)
  }

  lemma {:induction false} ChunkCount(start: nat, size: nat, sizeCells: nat)
    requires 1 <= sizeCells <= 2
    ensures |Chunks(start, size, MaxRange(sizeCells))|
      == if sizeCells == 1 then (size + 0x7fff_ffff) / 0x8000_0000
         else (size + 0x7fff_ffff_ffff_ffff) / 0x8000_0000_0000_0000
    decreases size
  {
    var max := MaxRange(sizeCells);
    if size >= max {
      ChunkCount(start + max, size - max, sizeCells);
    }
  }

  /** count_entries counts the entries that are written, unless the rounding wraps at 2^64; then
      it counts none although there are some. */
  lemma CountExact(start: nat, size: nat, sizeCells: nat)
    requires 1 <= sizeCells <= 2 && size < LIMIT64
    ensures CountFor(size, sizeCells) == |Chunks(start, size, MaxRange(sizeCells))|
      <==> size <= LIMIT64 - MaxRange(sizeCells)
  {
    hide Chunks;
    ChunkCount(start, size, sizeCells);
  }

  // ----- the bytes -----

  function Stride(addrCells: nat, sizeCells: nat): nat { addrCells * 4 + sizeCells * 4 }

  function EntryBytes(e: Entry, addrCells: nat, sizeCells: nat): (b: Bytes)
    ensures |b| == Stride(addrCells, sizeCells)
  {
    Encode(e.start, addrCells * 4) + Encode(e.size, sizeCells * 4)
  }

  function RegBytes(es: seq<Entry>, addrCells: nat, sizeCells: nat): Bytes {
    if es == [] then []
    else RegBytes(es[..|es| - 1], addrCells, sizeCells) + EntryBytes(es[|es| - 1], addrCells, sizeCells)
  }

  /** The entries the kernel reads from a "reg" property. */
  function ReadEntries(b: Bytes, addrCells: nat, sizeCells: nat): seq<Entry>
    requires sizeCells > 0
    decreases |b|
  {
    var stride := Stride(addrCells, sizeCells);
    if |b| < stride then []
    else
      var last := b[|b| - stride..];
      ReadEntries(b[..|b| - stride], addrCells, sizeCells)
      + [Entry(BigEndian(last[..addrCells * 4]), BigEndian(last[addrCells * 4..]))]
  }

  predicate FitsCells(e: Entry, addrCells: nat, sizeCells: nat) {
    e.start < Power256(addrCells * 4) && e.size < Power256(sizeCells * 4)
  }

  lemma EncodeExact(v: nat, k: nat)
    ensures BigEndian(Encode(v, k)) == v <==> v < Power256(k)
  {
    BigEndianBound(Encode(v, k));
    if v < Power256(k) {
      EncodeRoundTrip(v, k);
    }
  }

  /** The property reads back as the entries written exactly when every address and every size
      fits its cells. */
  lemma {:induction false} RegReadsBack(es: seq<Entry>, addrCells: nat, sizeCells: nat)
    requires sizeCells > 0
    ensures |ReadEntries(RegBytes(es, addrCells, sizeCells), addrCells, sizeCells)| == |es|
    ensures ReadEntries(RegBytes(es, addrCells, sizeCells), addrCells, sizeCells) == es
      <==> forall i :: 0 <= i < |es| ==> FitsCells(es[i], addrCells, sizeCells)
    decreases es
  {
    hide Encode, BigEndian, Power256, EntryBytes, Stride, RegBytes, ReadEntries;
    if es == [] {
      ReadNothing(addrCells, sizeCells);
    } else {
      var n := |es| - 1;
      RegReadsBack(es[..n], addrCells, sizeCells);
      ReadLast(es, addrCells, sizeCells);
      EncodeExact(es[n].start, addrCells * 4);
      EncodeExact(es[n].size, sizeCells * 4);
      assert es == es[..n] + [es[n]];
    }
  }

  lemma ReadNothing(addrCells: nat, sizeCells: nat)
    requires sizeCells > 0
    ensures ReadEntries(RegBytes([], addrCells, sizeCells), addrCells, sizeCells) == []
  {
  }

  lemma ReadLast(es: seq<Entry>, addrCells: nat, sizeCells: nat)
    requires es != [] && sizeCells > 0
    ensures var e := es[|es| - 1];
      ReadEntries(RegBytes(es, addrCells, sizeCells), addrCells, sizeCells)
        == ReadEntries(RegBytes(es[..|es| - 1], addrCells, sizeCells), addrCells, sizeCells)
           + [Entry(BigEndian(Encode(e.start, addrCells * 4)), BigEndian(Encode(e.size, sizeCells * 4)))]
  {
    hide Encode, BigEndian, Power256;
    var e := es[|es| - 1];
    var front, b := RegBytes(es[..|es| - 1], addrCells, sizeCells), RegBytes(es, addrCells, sizeCells);
    var stride := Stride(addrCells, sizeCells);
    var last := EntryBytes(e, addrCells, sizeCells);
    assert b[..|b| - stride] == front && b[|b| - stride..] == last;
    assert last[..addrCells * 4] == Encode(e.start, addrCells * 4);
    assert last[addrCells * 4..] == Encode(e.size, sizeCells * 4);
  }

  lemma {:induction false} RegAppend(a: seq<Entry>, b: seq<Entry>, addrCells: nat, sizeCells: nat)
    ensures RegBytes(a + b, addrCells, sizeCells)
         == RegBytes(a, addrCells, sizeCells) + RegBytes(b, addrCells, sizeCells)
    decreases b
  {
    hide EntryBytes;
    if b == [] {
      assert a + b == a;
    } else {
      assert (a + b)[..|a + b| - 1] == a + b[..|b| - 1];
      RegAppend(a, b[..|b| - 1], addrCells, sizeCells);
    }
  }

  function Times(n: nat, k: nat): nat { n * k }

  lemma TimesAdd(m: nat, n: nat, k: nat)
    ensures Times(m + n, k) == Times(m, k) + Times(n, k)
    ensures Times(1, k) == k && Times(0, k) == 0
  {
  }

  lemma {:induction false} RegLength(es: seq<Entry>, addrCells: nat, sizeCells: nat)
    ensures |RegBytes(es, addrCells, sizeCells)| == Times(|es|, Stride(addrCells, sizeCells))
    decreases es
  {
    hide Times, Stride;
    if es == [] {
      TimesAdd(0, 0, Stride(addrCells, sizeCells));
    } else {
      RegLength(es[..|es| - 1], addrCells, sizeCells);
      TimesAdd(|es| - 1, 1, Stride(addrCells, sizeCells));
    }
  }

  // ----- writing -----

  /** dt_write_int: the low `length` bytes of src, most significant first. */
  method WriteInt(dest: array<Byte>, at: nat, src: nat, length: nat)
    requires at + length <= dest.Length
    modifies dest
    ensures dest[..] == old(dest[..at]) + Encode(src, length) + old(dest[at + length..])
  {
    hide Encode;
    var n: nat, v: nat := length, src;
    ghost var all := Encode(src, length);
    while n > 0
      invariant n <= length
      invariant dest[..at + n] == old(dest[..at + n]) && dest[at + length..] == old(dest[at + length..])
      invariant dest[at + n..at + length] == all[n..]
      invariant all[..n] == Encode(v, n)
    {
      EncodeLast(v, n);
      assert all[n - 1] == all[..n][n - 1];
      n := n - 1;
      dest[at + n] := (v % 0x100) as Byte;
      v := v / 0x100;
      assert all[..n] == all[..n + 1][..n];
      assert all[n..] == [all[n]] + all[n + 1..];
    }
    assert dest[..] == dest[..at] + dest[at..at + length] + dest[at + length..];
  }

  lemma EncodeLast(v: nat, n: nat)
    requires n > 0
    ensures Encode(v, n) == Encode(v / 0x100, n - 1) + [(v % 0x100) as Byte]
  {
  }

  class EntryParams {
    const addrCells: nat
    const sizeCells: nat
    const buffer: array<Byte>
    /** Where the next entry goes in the buffer. */
    var data: nat

    constructor (addrCells: nat, sizeCells: nat, buffer: array<Byte>)
      ensures this.addrCells == addrCells && this.sizeCells == sizeCells && this.buffer == buffer && data == 0
    {
      this.addrCells := addrCells;
      this.sizeCells := sizeCells;
      this.buffer := buffer;
      data := 0;
    }

    method WriteEntry(start: nat, size: nat)
      requires data + Stride(addrCells, sizeCells) <= buffer.Length
      modifies this`data, buffer
      ensures data == old(data) + Stride(addrCells, sizeCells)
      ensures buffer[..data] == old(buffer[..data]) + EntryBytes(Entry(start, size), addrCells, sizeCells)
    {
      hide Encode;
      WriteInt(buffer, data, start, addrCells * 4);
      data := data + addrCells * 4;
      assert buffer[..data] == old(buffer[..data]) + Encode(start, addrCells * 4);
      label Address:
      WriteInt(buffer, data, size, sizeCells * 4);
      data := data + sizeCells * 4;
      assert buffer[..data] == old@Address(buffer[..data]) + Encode(size, sizeCells * 4);
    }

    /** update_mem_property: the entries of one range go behind what is written already. */
    method UpdateMemProperty(start: nat, end: nat)
      requires start <= end && 1 <= sizeCells <= 2
      requires data + |RegBytes(Chunks(start, end - start, MaxRange(sizeCells)), addrCells, sizeCells)| <= buffer.Length
      modifies this`data, buffer
      ensures data == old(data) + |RegBytes(Chunks(start, end - start, MaxRange(sizeCells)), addrCells, sizeCells)|
      ensures data <= buffer.Length
      ensures buffer[..data]
        == old(buffer[..data]) + RegBytes(Chunks(start, end - start, MaxRange(sizeCells)), addrCells, sizeCells)
    {
      hide EntryBytes, RegBytes, Chunks, Stride;
      var at: nat, fullSize: nat := start, end - start;
      var maxSize := MaxRange(sizeCells);
      ghost var all := Chunks(start, fullSize, maxSize);
      ghost var done: seq<Entry> := [];
      ghost var room := buffer.Length - data;
      NoBytes(addrCells, sizeCells);
      assert buffer[..data] == old(buffer[..data]) + [];
      while fullSize > 0
        invariant all == done + Chunks(at, fullSize, maxSize)
        invariant data == old(data) + |RegBytes(done, addrCells, sizeCells)| <= buffer.Length
        invariant buffer[..data] == old(buffer[..data]) + RegBytes(done, addrCells, sizeCells)
        decreases fullSize
      {
        var size := if fullSize < maxSize then fullSize else maxSize;
        NextChunk(at, fullSize, maxSize);
        ghost var rest := Chunks(at + size, fullSize - size, maxSize);
        assert all == done + [Entry(at, size)] + rest;
        RegAppend(done + [Entry(at, size)], rest, addrCells, sizeCells);
        RegOne(done, Entry(at, size), addrCells, sizeCells);
        WriteEntry(at, size);
        at := at + size;
        fullSize := fullSize - size;
        done := done + [Entry(at - size, size)];
      }
      NextChunk(at, 0, maxSize);
      assert all == done;
    }
  }

  lemma NoBytes(addrCells: nat, sizeCells: nat)
    ensures RegBytes([], addrCells, sizeCells) == []
  {
  }

  lemma RegOne(done: seq<Entry>, e: Entry, addrCells: nat, sizeCells: nat)
    ensures RegBytes(done + [e], addrCells, sizeCells)
      == RegBytes(done, addrCells, sizeCells) + EntryBytes(e, addrCells, sizeCells)
  {
    assert (done + [e])[..|done + [e]| - 1] == done;
  }

  lemma NextChunk(start: nat, size: nat, max: nat)
    requires max > 0
    ensures size == 0 ==> Chunks(start, size, max) == []
    ensures size > 0 ==>
      var n := if size < max then size else max;
      Chunks(start, size, max) == [Entry(start, n)] + Chunks(start + n, size - n, max)
  {
  }
}

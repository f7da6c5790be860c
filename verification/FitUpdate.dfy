/** update_memory as a whole: from the memory ranges to the "reg" property (src/boot/fit.c). */
module FitUpdate {
  import opened Common
  import opened FdtFormat
  import opened RangeSets
  import opened FitMemory
  import R = FitReg

  /** The ranges ranges_for_each reports never end before they start. */
  predicate Ordered(rs: seq<Interval>) {
    forall i :: 0 <= i < |rs| ==> rs[i].start <= rs[i].end
  }

  /** The entry count of every range is exact (FitReg.CountExact), and the whole property stays
      below 2^32 words. */
  predicate Countable(rs: seq<Interval>, addrCells: nat, sizeCells: nat)
    requires Ordered(rs) && 1 <= sizeCells <= 2
  {
    && (forall i :: 0 <= i < |rs| ==> rs[i].end - rs[i].start <= LIMIT64 - R.MaxRange(sizeCells))
    && R.Times(|R.AllChunks(rs, R.MaxRange(sizeCells))|, addrCells + sizeCells) < R.LIMIT32
  }

  lemma {:induction false} CountGrows(rs: seq<Interval>, max: nat, i: nat)
    requires Ordered(rs) && max > 0 && i <= |rs|
    ensures |R.AllChunks(rs[..i], max)| <= |R.AllChunks(rs, max)|
    decreases |rs| - i
  {
    if i < |rs| {
      CountGrows(rs, max, i + 1);
      assert rs[..i + 1][..i] == rs[..i];
    } else {
      assert rs[..i] == rs;
    }
  }

  lemma TimesMonotonic(m: nat, n: nat, k: nat)
    requires m <= n && k > 0
    ensures R.Times(m, k) <= R.Times(n, k) && m <= R.Times(m, k)
  {
  }

  lemma WordsToBytes(n: nat, addrCells: nat, sizeCells: nat)
    ensures R.Times(n, R.Stride(addrCells, sizeCells)) == R.Times(n, addrCells + sizeCells) * 4
  {
  }

  lemma NextRange(rs: seq<Interval>, max: nat, i: nat)
    requires Ordered(rs) && max > 0 && i < |rs|
    ensures R.AllChunks(rs[..i + 1], max)
      == R.AllChunks(rs[..i], max) + R.Chunks(rs[i].start, rs[i].end - rs[i].start, max)
  {
    assert rs[..i + 1][..i] == rs[..i];
  }

  /** ranges_for_each with count_entries: `count` is an unsigned int. */
  method CountEntries(rs: seq<Interval>, addrCells: nat, sizeCells: nat) returns (count: nat)
    requires Ordered(rs) && 1 <= sizeCells <= 2 && Countable(rs, addrCells, sizeCells)
    ensures count == |R.AllChunks(rs, R.MaxRange(sizeCells))|
  {
    hide R.AllChunks, R.Chunks, R.CountFor, R.Times;
    var max := R.MaxRange(sizeCells);
    count := 0;
    NoChunks(max);
    for i := 0 to |rs|
      invariant count == |R.AllChunks(rs[..i], max)|
    {
      NextRange(rs, max, i);
      CountGrows(rs, max, i + 1);
      TimesMonotonic(|R.AllChunks(rs, max)|, |R.AllChunks(rs, max)|, addrCells + sizeCells);
      R.CountExact(rs[i].start, rs[i].end - rs[i].start, sizeCells);
      count := (count + R.CountFor(rs[i].end - rs[i].start, sizeCells)) % R.LIMIT32;
    }
    assert rs[..|rs|] == rs;
  }

  lemma NoChunks(max: nat)
    requires max > 0
    ensures R.AllChunks([], max) == []
  {
  }

  /** Counts, allocates and fills the "reg" data; the assertion is the one at the end of
      update_memory: exactly the counted length is written. */
  method FillReg(rs: seq<Interval>, addrCells: nat, sizeCells: nat) returns (reg: array<Byte>)
    requires Ordered(rs) && 1 <= sizeCells <= 2 && Countable(rs, addrCells, sizeCells)
    ensures reg[..] == R.RegBytes(R.AllChunks(rs, R.MaxRange(sizeCells)), addrCells, sizeCells)
  {
    hide R.AllChunks, R.Chunks, R.RegBytes, R.Times, R.Stride;
    var max := R.MaxRange(sizeCells);
    ghost var all := R.AllChunks(rs, max);
    var count := CountEntries(rs, addrCells, sizeCells);
    var length := count * (addrCells + sizeCells) % R.LIMIT32 * 4;
    RegSize(all, addrCells, sizeCells);
    reg := new Byte[length](_ => 0);
    var params := new R.EntryParams(addrCells, sizeCells, reg);
    NoChunks(max);
    R.NoBytes(addrCells, sizeCells);
    for i := 0 to |rs|
      invariant fresh(params) && params.data <= reg.Length
      invariant reg[..params.data] == R.RegBytes(R.AllChunks(rs[..i], max), addrCells, sizeCells)
    {
      NextRange(rs, max, i);
      ghost var front, next := R.AllChunks(rs[..i], max), R.Chunks(rs[i].start, rs[i].end - rs[i].start, max);
      R.RegAppend(front, next, addrCells, sizeCells);
      RegRoom(rs, i + 1, addrCells, sizeCells);
      params.UpdateMemProperty(rs[i].start, rs[i].end);
    }
    assert rs[..|rs|] == rs;
    assert params.data == length;
    assert reg[..params.data] == reg[..];
  }

  lemma RegSize(es: seq<R.Entry>, addrCells: nat, sizeCells: nat)
    requires R.Times(|es|, addrCells + sizeCells) < R.LIMIT32
    ensures |R.RegBytes(es, addrCells, sizeCells)| == |es| * (addrCells + sizeCells) % R.LIMIT32 * 4
  {
    hide R.RegBytes;
    R.RegLength(es, addrCells, sizeCells);
    WordsToBytes(|es|, addrCells, sizeCells);
  }

  lemma RegRoom(rs: seq<Interval>, i: nat, addrCells: nat, sizeCells: nat)
    requires Ordered(rs) && 1 <= sizeCells <= 2 && i <= |rs|
    ensures |R.RegBytes(R.AllChunks(rs[..i], R.MaxRange(sizeCells)), addrCells, sizeCells)|
      <= |R.RegBytes(R.AllChunks(rs, R.MaxRange(sizeCells)), addrCells, sizeCells)|
  {
    hide R.RegBytes, R.AllChunks, R.Times;
    var max := R.MaxRange(sizeCells);
    CountGrows(rs, max, i);
    R.RegLength(R.AllChunks(rs[..i], max), addrCells, sizeCells);
    R.RegLength(R.AllChunks(rs, max), addrCells, sizeCells);
    TimesMonotonic(|R.AllChunks(rs[..i], max)|, |R.AllChunks(rs, max)|, R.Stride(addrCells, sizeCells));
  }

  lemma MemOrdered(rs: seq<MemRange>)
    requires AllRoomy(rs)
    ensures Separated(Intervals(MemEdges(rs))) && Ordered(Intervals(MemEdges(rs)))
    ensures Canonical(MemEdges(rs))
  {
    hide Canonical, Intervals, MemEdges, AllMemAdds, Member, Ranges.After, Ranges.LastWord;
    AllRanges(rs, 0);
    Ranges.RunMeans(AllMemAdds(rs), 0);
    MemEdgesRun(rs);
    IntervalsSeparated(MemEdges(rs));
  }

  lemma MemEdgesRun(rs: seq<MemRange>)
    ensures MemEdges(rs) == Ranges.After([], AllMemAdds(rs))
  {
  }

  /** The entries that describe the memory the kernel gets. */
  function KernelEntries(rs: seq<MemRange>, sizeCells: nat): seq<R.Entry>
    requires AllRoomy(rs) && 1 <= sizeCells <= 2
  {
    MemOrdered(rs);
    R.AllChunks(Intervals(MemEdges(rs)), R.MaxRange(sizeCells))
  }

  predicate RegCountable(rs: seq<MemRange>, addrCells: nat, sizeCells: nat)
    requires AllRoomy(rs) && 1 <= sizeCells <= 2
  {
    MemOrdered(rs);
    Countable(Intervals(MemEdges(rs)), addrCells, sizeCells)
  }

  /** update_memory without the tree around it: the data of the new "reg" property. */
  method UpdateMemory(rs: seq<MemRange>, addrCells: nat, sizeCells: nat) returns (reg: array<Byte>)
    requires AllRoomy(rs) && 1 <= sizeCells <= 2 && RegCountable(rs, addrCells, sizeCells)
    ensures reg[..] == R.RegBytes(KernelEntries(rs, sizeCells), addrCells, sizeCells)
  {
    hide Canonical, Intervals, MemEdges, R.RegBytes, R.AllChunks, Countable;
    MemOrdered(rs);
    var mem, reserved := SplitMemory(rs);
    var calls, odd := mem.ForEach();
    reg := FillReg(calls, addrCells, sizeCells);
  }

  /** Every RAM address the kernel may get fits the address cells. */
  predicate Addressable(rs: seq<MemRange>, addrCells: nat) {
    forall i :: 0 <= i < |rs| && rs[i].ram ==> rs[i].End() <= Power256(addrCells * 4)
  }

  /** The main result: the property, read back as cells, tiles exactly the aligned parts of the
      RAM ranges: non-empty entries, in ascending order, without gap or overlap, each size fitting
      its cells. */
  lemma RegDescribesMemory(rs: seq<MemRange>, addrCells: nat, sizeCells: nat, x: nat)
    requires AllRoomy(rs) && 1 <= sizeCells <= 2 && Addressable(rs, addrCells)
    ensures var max := R.MaxRange(sizeCells);
      var read := R.ReadEntries(R.RegBytes(KernelEntries(rs, sizeCells), addrCells, sizeCells), addrCells, sizeCells);
      && R.Tiling(read, max) && max < Power256(sizeCells * 4)
      && (R.InEntries(read, x) <==> exists i :: 0 <= i < |rs| && Usable(rs[i], x))
  {
    hide Canonical, Intervals, MemEdges, R.RegBytes, R.AllChunks, R.InEntries, Power256, R.ReadEntries, Usable,
         Separated, KernelEntries;
    var max := R.MaxRange(sizeCells);
    var es := KernelEntries(rs, sizeCells);
    EntriesUsable(rs, sizeCells, x);
    SizesFit(sizeCells);
    forall k | 0 <= k < |es| ensures R.FitsCells(es[k], addrCells, sizeCells) {
      EntriesUsable(rs, sizeCells, es[k].start);
      StartIn(es, k, max);
      var i :| 0 <= i < |rs| && Usable(rs[i], es[k].start);
      UsableBelow(rs[i], es[k].start);
    }
    R.RegReadsBack(es, addrCells, sizeCells);
  }

  lemma EntriesUsable(rs: seq<MemRange>, sizeCells: nat, x: nat)
    requires AllRoomy(rs) && 1 <= sizeCells <= 2
    ensures R.Tiling(KernelEntries(rs, sizeCells), R.MaxRange(sizeCells))
    ensures R.InEntries(KernelEntries(rs, sizeCells), x) <==> exists i :: 0 <= i < |rs| && Usable(rs[i], x)
  {
    hide Canonical, Intervals, MemEdges, R.AllChunks, R.InEntries, Usable, Member, InSome, Separated, R.Tiling;
    MemOrdered(rs);
    R.EntriesTile(Intervals(MemEdges(rs)), R.MaxRange(sizeCells), x);
    IntervalsMember(MemEdges(rs), x);
    MemoryConserved(rs, x);
  }

  lemma StartIn(es: seq<R.Entry>, k: nat, max: nat)
    requires k < |es| && R.Tiling(es, max)
    ensures R.InEntries(es, es[k].start)
  {
  }

  lemma UsableBelow(r: MemRange, x: nat)
    requires Usable(r, x)
    ensures r.ram && x < r.End()
  {
    hide AlignUp, AlignDown;
    Rounding(r.End());
  }

  lemma SizesFit(sizeCells: nat)
    requires 1 <= sizeCells <= 2
    ensures R.MaxRange(sizeCells) < Power256(sizeCells * 4)
  {
    WordSizes();
  }
}

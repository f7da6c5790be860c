/** How update_memory splits the machine's memory into what the kernel may use and what is
    reserved (src/boot/fit.c). */
module FitMemory {
  import opened Common
  import opened RangeSets
  import opened Ranges

  const MEMORY_ALIGNMENT: nat := 0x10_0000

  datatype MemRange = MemRange(base: nat, size: nat, ram: bool) {
    function End(): nat { base + size }
  }

  function AlignDown(x: nat): nat { x / MEMORY_ALIGNMENT * MEMORY_ALIGNMENT }

  /** On a uint64_t: in the last megabyte of the address space the result is 0. */
  function AlignUp(x: nat): nat { (x + MEMORY_ALIGNMENT - 1) % LIMIT64 / MEMORY_ALIGNMENT * MEMORY_ALIGNMENT }

  predicate Covers(r: MemRange, x: nat) { r.base <= x < r.End() }

  /** A RAM range whose start can be rounded up, to an address that is not behind its rounded end;
      any other range non-empty. */
  predicate Roomy(r: MemRange) {
    && r.End() < LIMIT64
    && if r.ram then r.base <= LIMIT64 - MEMORY_ALIGNMENT && AlignUp(r.base) <= AlignDown(r.End()) else r.size > 0
  }

  predicate AllRoomy(rs: seq<MemRange>) {
    forall i :: 0 <= i < |rs| ==> Roomy(rs[i])
  }

  ghost predicate Disjoint(rs: seq<MemRange>) {
    forall i, j, x: nat :: 0 <= i < j < |rs| && Covers(rs[i], x) ==> !Covers(rs[j], x)
  }

  predicate InInputs(rs: seq<MemRange>, x: nat) {
    exists i :: 0 <= i < |rs| && Covers(rs[i], x)
  }

  /** The part of a range the kernel gets, and the part that is reserved. */
  predicate Usable(r: MemRange, x: nat) {
    r.ram && AlignUp(r.base) <= x < AlignDown(r.End())
  }

  predicate Padding(r: MemRange, x: nat) {
    Covers(r, x) && !Usable(r, x)
  }

  function AddIf(c: bool, start: nat, end: nat): seq<Update> {
    if c then [Update(start, end, true)] else []
  }

  /** What one memory range adds to `mem` and to `reserved`. */
  function MemAdds(r: MemRange): seq<Update> {
    AddIf(r.ram && AlignUp(r.base) != AlignDown(r.End()), AlignUp(r.base), AlignDown(r.End()))
  }

  function ReservedAdds(r: MemRange): seq<Update> {
    if r.ram then
      AddIf(AlignUp(r.base) != r.base, r.base, AlignUp(r.base))
      + AddIf(AlignDown(r.End()) != r.End(), AlignDown(r.End()), r.End())
    else [Update(r.base, r.End(), true)]
  }

  function AllMemAdds(rs: seq<MemRange>): seq<Update> {
    if rs == [] then [] else AllMemAdds(rs[..|rs| - 1]) + MemAdds(rs[|rs| - 1])
  }

  function AllReservedAdds(rs: seq<MemRange>): seq<Update> {
    if rs == [] then [] else AllReservedAdds(rs[..|rs| - 1]) + ReservedAdds(rs[|rs| - 1])
  }

  /** The edges of `mem` and of `reserved` after the loop. */
  function MemEdges(rs: seq<MemRange>): seq<nat> { After([], AllMemAdds(rs)) }

  function ReservedEdges(rs: seq<MemRange>): seq<nat> { After([], AllReservedAdds(rs)) }

  // ----- rounding -----

  lemma Floor(y: nat)
    ensures y / MEMORY_ALIGNMENT * MEMORY_ALIGNMENT <= y < y / MEMORY_ALIGNMENT * MEMORY_ALIGNMENT + MEMORY_ALIGNMENT
    ensures (y / MEMORY_ALIGNMENT * MEMORY_ALIGNMENT) % MEMORY_ALIGNMENT == 0
    ensures y < MEMORY_ALIGNMENT ==> y / MEMORY_ALIGNMENT == 0
  {
  }

  lemma Wrapped(x: nat)
    ensures x < LIMIT64 ==> x % LIMIT64 == x
    ensures LIMIT64 <= x < 2 * LIMIT64 ==> x % LIMIT64 == x - LIMIT64
  {
  }

  lemma Rounding(x: nat)
    ensures AlignDown(x) <= x < AlignDown(x) + MEMORY_ALIGNMENT
    ensures x <= LIMIT64 - MEMORY_ALIGNMENT ==> x <= AlignUp(x) < x + MEMORY_ALIGNMENT
    ensures LIMIT64 - MEMORY_ALIGNMENT < x < LIMIT64 ==> AlignUp(x) == 0
    ensures AlignDown(x) % MEMORY_ALIGNMENT == 0 && AlignUp(x) % MEMORY_ALIGNMENT == 0
  {
    Floor(x);
    var y := x + MEMORY_ALIGNMENT - 1;
    Wrapped(y);
    Floor(y % LIMIT64);
  }

  /** The nearest megabyte below and above, where there is one. */
  lemma Megabytes(x: nat)
    requires x <= LIMIT64 - 0x10_0000
    ensures AlignDown(x) % 0x10_0000 == 0 && AlignDown(x) <= x < AlignDown(x) + 0x10_0000
    ensures AlignUp(x) % 0x10_0000 == 0 && x <= AlignUp(x) < x + 0x10_0000
  {
    Rounding(x);
  }

  lemma AddsForward(r: MemRange)
    requires Roomy(r)
    ensures Forward(MemAdds(r)) && Forward(ReservedAdds(r))
  {
    hide AlignUp, AlignDown;
    Rounding(r.base);
    Rounding(r.End());
  }

  /** Every add puts addresses in, so an address is in the set when some add covers it. */
  lemma {:induction false} LastWordAppend(us: seq<Update>, vs: seq<Update>, x: nat)
    requires forall i :: 0 <= i < |vs| ==> vs[i].included
    ensures LastWord(us + vs, x) <==> LastWord(us, x) || LastWord(vs, x)
    decreases vs
  {
    if vs == [] {
      assert us + vs == us;
    } else {
      var n := |vs| - 1;
      assert (us + vs)[..|us + vs| - 1] == us + vs[..n];
      LastWordAppend(us, vs[..n], x);
    }
  }

  lemma LastWordAdd(c: bool, start: nat, end: nat, x: nat)
    ensures LastWord(AddIf(c, start, end), x) <==> c && start <= x < end
  {
    if c {
      assert [Update(start, end, true)][..0] == [];
    }
  }

  lemma RoomyOrder(r: MemRange)
    requires Roomy(r)
    ensures r.ram ==> r.base <= AlignUp(r.base) <= AlignDown(r.End()) <= r.End()
    ensures !r.ram ==> r.base < r.End()
  {
    hide AlignUp, AlignDown;
    Rounding(r.base);
    Rounding(r.End());
  }

  /** What the three adds of a RAM range cover. */
  lemma RamParts(base: nat, up: nat, down: nat, end: nat, x: nat)
    requires base <= up <= down <= end
    ensures LastWord(AddIf(up != down, up, down), x) <==> up <= x < down
    ensures LastWord(AddIf(up != base, base, up) + AddIf(down != end, down, end), x)
      <==> base <= x < end && !(up <= x < down)
  {
    hide LastWord;
    AddIfEither(down != end, down, end);
    LastWordAdd(up != down, up, down, x);
    LastWordAppend(AddIf(up != base, base, up), AddIf(down != end, down, end), x);
    LastWordAdd(up != base, base, up, x);
    LastWordAdd(down != end, down, end, x);
  }

  lemma OneRange(r: MemRange, x: nat)
    requires Roomy(r)
    ensures LastWord(MemAdds(r), x) <==> Usable(r, x)
    ensures LastWord(ReservedAdds(r), x) <==> Padding(r, x)
  {
    hide AlignUp, AlignDown, LastWord, Roomy, AddIf;
    RoomyOrder(r);
    if r.ram {
      RamParts(r.base, AlignUp(r.base), AlignDown(r.End()), r.End(), x);
    } else {
      AddIfEither(true, r.base, r.End());
      AddIfEither(false, AlignUp(r.base), AlignDown(r.End()));
      NoAdds(x);
      LastWordAdd(true, r.base, r.End(), x);
    }
  }

  lemma {:induction false} AllRanges(rs: seq<MemRange>, x: nat)
    requires AllRoomy(rs)
    ensures Forward(AllMemAdds(rs)) && Forward(AllReservedAdds(rs))
    ensures LastWord(AllMemAdds(rs), x) <==> exists i :: 0 <= i < |rs| && Usable(rs[i], x)
    ensures LastWord(AllReservedAdds(rs), x) <==> exists i :: 0 <= i < |rs| && Padding(rs[i], x)
    decreases rs
  {
    hide Usable, Padding, Roomy, LastWord, MemAdds, ReservedAdds, Forward;
    if rs == [] {
      NoAdds(x);
      ForwardAppend([], []);
    } else {
      var n := |rs| - 1;
      AllRanges(rs[..n], x);
      OneRange(rs[n], x);
      AddsForward(rs[n]);
      AddsIncluded(rs[n]);
      ForwardAppend(AllMemAdds(rs[..n]), MemAdds(rs[n]));
      ForwardAppend(AllReservedAdds(rs[..n]), ReservedAdds(rs[n]));
      LastWordAppend(AllMemAdds(rs[..n]), MemAdds(rs[n]), x);
      LastWordAppend(AllReservedAdds(rs[..n]), ReservedAdds(rs[n]), x);
      assert forall i :: 0 <= i < n ==> rs[..n][i] == rs[i];
    }
  }

  lemma ForwardAppend(us: seq<Update>, vs: seq<Update>)
    ensures Forward([])
    ensures Forward(us) && Forward(vs) ==> Forward(us + vs)
  {
  }

  lemma NoAdds(x: nat)
    ensures !LastWord([], x)
  {
  }

  lemma AddsIncluded(r: MemRange)
    ensures forall i :: 0 <= i < |MemAdds(r)| ==> MemAdds(r)[i].included
    ensures forall i :: 0 <= i < |ReservedAdds(r)| ==> ReservedAdds(r)[i].included
  {
  }

  /** Conservation: `mem` and `reserved` together hold exactly the input ranges, and for pairwise
      disjoint ranges no address is in both. */
  lemma MemoryConserved(rs: seq<MemRange>, x: nat)
    requires AllRoomy(rs)
    ensures InInputs(rs, x) <==> Member(MemEdges(rs), x) || Member(ReservedEdges(rs), x)
    ensures Disjoint(rs) ==> !(Member(MemEdges(rs), x) && Member(ReservedEdges(rs), x))
    ensures Member(MemEdges(rs), x) <==> exists i :: 0 <= i < |rs| && Usable(rs[i], x)
  {
    hide LastWord, Member, After, AllMemAdds, AllReservedAdds, Roomy, AlignUp, AlignDown;
    AllRanges(rs, x);
    RunMeans(AllMemAdds(rs), x);
    RunMeans(AllReservedAdds(rs), x);
    forall i | 0 <= i < |rs| ensures Covers(rs[i], x) <==> Usable(rs[i], x) || Padding(rs[i], x) {
      UsableCovered(rs[i], x);
    }
  }

  lemma UsableCovered(r: MemRange, x: nat)
    requires Roomy(r)
    ensures Usable(r, x) ==> Covers(r, x)
  {
    hide AlignUp, AlignDown;
    Rounding(r.base);
    Rounding(r.End());
  }

  /** Rounding is what can break conservation: a RAM range alone is kept exactly when it is roomy. */
  lemma SmallRamRange(r: MemRange)
    requires r.ram && r.size > 0 && r.End() < LIMIT64
    ensures (forall x: nat :: Covers(r, x) <==> Member(MemEdges([r]), x) || Member(ReservedEdges([r]), x))
      <==> Roomy(r)
  {
    hide AlignUp, AlignDown, Member, MemEdges, ReservedEdges;
    if Roomy(r) {
      forall x: nat ensures Covers(r, x) <==> Member(MemEdges([r]), x) || Member(ReservedEdges([r]), x) {
        MemoryConserved([r], x);
        assert InInputs([r], x) <==> Covers([r][0], x);
      }
    } else if r.base > LIMIT64 - MEMORY_ALIGNMENT {
      LastMegabyte(r);
      assert !Covers(r, 0);
    } else {
      var x := AlignDown(r.End());
      SmallRamBackwards(r, x);
      assert !Covers(r, x);
    }
  }

  /** A RAM range inside one megabyte: all of that megabyte becomes reserved, and mem gets the
      two bounds of the megabyte in the wrong order, so that ranges_for_each reports a range with
      its start behind its end. */
  lemma SmallRamBackwards(r: MemRange, x: nat)
    requires r.ram && r.size > 0 && r.base <= LIMIT64 - MEMORY_ALIGNMENT && AlignUp(r.base) > AlignDown(r.End())
    ensures AlignDown(r.End()) < r.base && AlignUp(r.base) == AlignDown(r.End()) + MEMORY_ALIGNMENT
    ensures Intervals(MemEdges([r])) == [Interval(AlignUp(r.base), AlignDown(r.End()))]
    ensures Member(ReservedEdges([r]), x) <==> AlignDown(r.End()) <= x < AlignUp(r.base)
  {
    hide AlignUp, AlignDown, Member, LastWord, After;
    Rounding(r.base);
    Rounding(r.End());
    RoundingApart(r.base, r.End());
    var up, down := AlignUp(r.base), AlignDown(r.End());
    OneAdd(r);
    OneRegion(up, down);
    var low, high := AddIf(up != r.base, r.base, up), AddIf(down != r.End(), down, r.End());
    assert AllReservedAdds([r]) == low + high by {
      assert [r][..0] == [];
    }
    RunMeans(low + high, x);
    LastWordAppend(low, high, x);
    LastWordAdd(up != r.base, r.base, up, x);
    LastWordAdd(down != r.End(), down, r.End(), x);
  }

  /** A RAM range in the last megabyte: its start is rounded to 0, and mem gets everything below
      its rounded end. */
  lemma LastMegabyte(r: MemRange)
    requires r.ram && r.base > LIMIT64 - MEMORY_ALIGNMENT && r.End() < LIMIT64
    ensures Intervals(MemEdges([r])) == [Interval(0, LIMIT64 - MEMORY_ALIGNMENT)]
    ensures Member(MemEdges([r]), 0)
  {
    hide AlignUp, AlignDown, LastWord, After, Member;
    Rounding(r.base);
    Rounding(r.End());
    assert AlignUp(r.base) == 0;
    assert AlignDown(r.End()) == LIMIT64 - MEMORY_ALIGNMENT by { Top(r.End()); }
    OneAdd(r);
    OneRegion(0, LIMIT64 - MEMORY_ALIGNMENT);
    IntervalsMember(MemEdges([r]), 0);
    assert Intervals(MemEdges([r]))[0] == Interval(0, LIMIT64 - MEMORY_ALIGNMENT);
  }

  lemma Top(x: nat)
    requires LIMIT64 - MEMORY_ALIGNMENT < x < LIMIT64
    ensures AlignDown(x) == LIMIT64 - MEMORY_ALIGNMENT
  {
  }

  lemma OneAdd(r: MemRange)
    ensures MemEdges([r]) == After([], MemAdds(r))
  {
    hide After, MemAdds;
    var rs := [r];
    assert rs[..0] == [] && rs[0] == r;
    assert AllMemAdds(rs[..0]) == [];
    assert AllMemAdds(rs) == [] + MemAdds(r) == MemAdds(r);
  }

  lemma OneRegion(start: nat, end: nat)
    ensures start != end ==> Intervals(After([], AddIf(start != end, start, end))) == [Interval(start, end)]
    ensures start < end ==> Canonical(After([], AddIf(start != end, start, end)))
  {
    hide SetRegion, Intervals;
    AfterAdd([], start != end, start, end);
    assert SetRegion([], start, end, true) == [start, end] by { EmptyRegion(start, end); }
    TwoEdges(start, end);
  }

  lemma EmptyRegion(start: nat, end: nat)
    ensures SetRegion([], start, end, true) == [start, end]
  {
  }

  lemma TwoEdges(start: nat, end: nat)
    ensures Intervals([start, end]) == [Interval(start, end)]
  {
    assert [start, end][2..] == [];
  }

  lemma RoundingApart(base: nat, end: nat)
    requires base < end && base <= LIMIT64 - MEMORY_ALIGNMENT && AlignUp(base) > AlignDown(end)
    ensures AlignDown(end) < base && AlignUp(base) == AlignDown(end) + MEMORY_ALIGNMENT
  {
  }

  // ----- what the kernel gets is aligned -----

  predicate Aligned(es: seq<nat>) {
    forall i :: 0 <= i < |es| ==> es[i] % 0x10_0000 == 0
  }

  lemma {:induction false} RunAligned(es: seq<nat>, us: seq<Update>)
    requires Aligned(es)
    requires forall i :: 0 <= i < |us| ==> us[i].start % MEMORY_ALIGNMENT == 0 && us[i].end % MEMORY_ALIGNMENT == 0
    ensures Aligned(After(es, us))
    decreases us
  {
    hide SetRegion, Aligned;
    if us != [] {
      RunAligned(es, us[..|us| - 1]);
      var u := us[|us| - 1];
      SetRegionAligned(After(es, us[..|us| - 1]), u.start, u.end, u.included);
    }
  }

  lemma SetRegionAligned(es: seq<nat>, start: nat, end: nat, included: bool)
    requires Aligned(es) && start % MEMORY_ALIGNMENT == 0 && end % MEMORY_ALIGNMENT == 0
    ensures Aligned(SetRegion(es, start, end, included))
  {
    hide Below, Behind, Odd;
    var k := Below(es, start);
    var m := Behind(es, k, end);
    assert [start][0] == start && [end][0] == end;
    FourAligned(es[..k], included != Odd(k), start, included != Odd(m), end, es[m..]);
  }

  lemma FourAligned(a: seq<nat>, c: bool, start: nat, d: bool, end: nat, b: seq<nat>)
    requires Aligned(a) && Aligned(b) && Aligned([start]) && Aligned([end])
    ensures Aligned(a + EdgeIf(c, start) + EdgeIf(d, end) + b)
  {
  }

  lemma {:induction false} MemAddsAligned(rs: seq<MemRange>)
    ensures forall i :: 0 <= i < |AllMemAdds(rs)| ==>
      && AllMemAdds(rs)[i].start % MEMORY_ALIGNMENT == 0
      && AllMemAdds(rs)[i].end % MEMORY_ALIGNMENT == 0
    decreases rs
  {
    hide AlignUp, AlignDown;
    if rs != [] {
      MemAddsAligned(rs[..|rs| - 1]);
      Rounding(rs[|rs| - 1].base);
      Rounding(rs[|rs| - 1].End());
    }
  }

  /** Every edge of `mem` is a multiple of 1 MiB. */
  lemma MemAligned(rs: seq<MemRange>)
    ensures Aligned(MemEdges(rs))
  {
    hide Aligned, After, AllMemAdds;
    MemAddsAligned(rs);
    EmptyAligned();
    RunAligned([], AllMemAdds(rs));
  }

  lemma EmptyAligned()
    ensures Aligned([])
  {
  }

  // ----- the loop -----

  lemma {:induction false} AfterAppend(es: seq<nat>, us: seq<Update>, vs: seq<Update>)
    ensures After(es, us + vs) == After(After(es, us), vs)
    decreases vs
  {
    if vs == [] {
      assert us + vs == us;
    } else {
      var n := |vs| - 1;
      assert (us + vs)[..|us + vs| - 1] == us + vs[..n];
      AfterAppend(es, us, vs[..n]);
    }
  }

  lemma AfterAdd(es: seq<nat>, c: bool, start: nat, end: nat)
    ensures After(es, AddIf(c, start, end)) == if c then SetRegion(es, start, end, true) else es
  {
    if c {
      assert [Update(start, end, true)][..0] == [];
    }
  }

  /** One round of the loop over the memory ranges. */
  method SplitRange(mem: RangeList, reserved: RangeList, r: MemRange)
    requires mem.Valid() && reserved.Valid() && mem != reserved && mem.repr !! reserved.repr
    requires Canonical(mem.edges) && Canonical(reserved.edges) && Roomy(r)
    modifies mem, mem.repr, reserved, reserved.repr
    ensures mem.Valid() && reserved.Valid() && mem.repr !! reserved.repr
    ensures fresh(mem.repr - old(mem.repr)) && fresh(reserved.repr - old(reserved.repr))
    ensures Canonical(mem.edges) && mem.edges == After(old(mem.edges), MemAdds(r))
    ensures Canonical(reserved.edges) && reserved.edges == After(old(reserved.edges), ReservedAdds(r))
  {
    hide AlignUp, AlignDown, Canonical, After, SetRegion, Member, AddIf, Roomy, RangeList.Valid;
    var start, end := r.base, r.End();
    RoomyOrder(r);
    if r.ram {
      var newStart, newEnd := AlignUp(start), AlignDown(end);
      if newStart != start {
        reserved.Add(start, newStart);
      }
      AfterAdd(old(reserved.edges), newStart != start, start, newStart);
      AfterAdd(old(mem.edges), newStart != newEnd, newStart, newEnd);
      if newStart != newEnd {
        mem.Add(newStart, newEnd);
      }
      AfterAdd(reserved.edges, newEnd != end, newEnd, end);
      AfterAppend(old(reserved.edges), AddIf(newStart != start, start, newStart), AddIf(newEnd != end, newEnd, end));
      if newEnd != end {
        reserved.Add(newEnd, end);
      }
    } else {
      AfterAdd(old(reserved.edges), true, start, end);
      AfterAdd(old(mem.edges), false, 0, 0);
      AddIfEither(true, start, end);
      AddIfEither(r.ram && AlignUp(r.base) != AlignDown(r.End()), AlignUp(r.base), AlignDown(r.End()));
      AddIfEither(false, 0, 0);
      reserved.Add(start, end);
    }
  }

  lemma AddIfEither(c: bool, start: nat, end: nat)
    ensures AddIf(c, start, end) == if c then [Update(start, end, true)] else []
  {
  }

  /** The loop of update_memory over the memory ranges. */
  method SplitMemory(rs: seq<MemRange>) returns (mem: RangeList, reserved: RangeList)
    requires AllRoomy(rs)
    ensures mem.Valid() && Canonical(mem.edges) && mem.edges == MemEdges(rs)
    ensures reserved.Valid() && Canonical(reserved.edges) && reserved.edges == ReservedEdges(rs)
  {
    hide Canonical, After, MemAdds, ReservedAdds, Roomy;
    mem := new RangeList();
    reserved := new RangeList();
    EmptyRun();
    for i := 0 to |rs|
      invariant mem.Valid() && reserved.Valid() && mem != reserved && mem.repr !! reserved.repr
      invariant fresh(mem) && fresh(reserved) && fresh(mem.repr) && fresh(reserved.repr)
      invariant Canonical(mem.edges) && mem.edges == MemEdges(rs[..i])
      invariant Canonical(reserved.edges) && reserved.edges == ReservedEdges(rs[..i])
    {
      assert rs[..i + 1][..i] == rs[..i];
      AfterAppend([], AllMemAdds(rs[..i]), MemAdds(rs[i]));
      AfterAppend([], AllReservedAdds(rs[..i]), ReservedAdds(rs[i]));
      SplitRange(mem, reserved, rs[i]);
    }
    assert rs[..|rs|] == rs;
  }

  lemma EmptyRun()
    ensures After([], []) == [] && Canonical([])
  {
  }
}

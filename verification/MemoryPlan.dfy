/** The order in which the memory test visits patterns, operations and chunks
    (src/diag/memory.c). */
module MemoryPlan {
  import opened RangeSets

  const CHUNK_SIZE: nat := 0x1000_0000

  /** One step: operation `op` (0 writes, 1 checks) with pattern `pattern` on one chunk. */
  datatype Visit = Visit(pattern: nat, op: nat, chunk: Interval)

  // ----- the nested loops, as what is left of them -----

  function ChunkEnd(st: nat, end: nat): nat {
    if end < st + CHUNK_SIZE then end else st + CHUNK_SIZE
  }

  function ChunkTail(st: nat, end: nat): seq<Interval>
    decreases end - st
  {
    if st >= end then [] else [Interval(st, ChunkEnd(st, end))] + ChunkTail(ChunkEnd(st, end), end)
  }

  /** The chunks of the ranges from edge r on. */
  function RangeTail(edges: seq<nat>, r: nat): seq<Interval>
    decreases |edges| - r
  {
    if r + 1 >= |edges| then [] else ChunkTail(edges[r], edges[r + 1]) + RangeTail(edges, r + 2)
  }

  function Visits(p: nat, op: nat, chunks: seq<Interval>): (vs: seq<Visit>)
    ensures |vs| == |chunks|
    ensures forall i :: 0 <= i < |vs| ==> vs[i] == Visit(p, op, chunks[i])
  {
    seq(|chunks|, i requires 0 <= i < |chunks| => Visit(p, op, chunks[i]))
  }

  function OpTail(p: nat, op: nat, chunks: seq<Interval>): seq<Visit>
    decreases 2 - op
  {
    if op >= 2 then [] else Visits(p, op, chunks) + OpTail(p, op + 1, chunks)
  }

  function PatternTail(n: nat, p: nat, chunks: seq<Interval>): seq<Visit>
    decreases n - p
  {
    if p >= n then [] else OpTail(p, 0, chunks) + PatternTail(n, p + 1, chunks)
  }

  function Chunks(edges: seq<nat>): seq<Interval> { RangeTail(edges, 0) }

  /** The whole test with n patterns. */
  function AllVisits(n: nat, edges: seq<nat>): seq<Visit> { PatternTail(n, 0, Chunks(edges)) }

  /** What is left when the cursors stand at pattern p, operation op, edge r and address st. */
  function Remaining(n: nat, edges: seq<nat>, p: nat, op: nat, r: nat, st: nat): seq<Visit>
    requires r + 1 < |edges|
  {
    Visits(p, op, ChunkTail(st, edges[r + 1]) + RangeTail(edges, r + 2))
    + OpTail(p, op + 1, Chunks(edges))
    + PatternTail(n, p + 1, Chunks(edges))
  }

  // ----- the chunks are the ranges, cut -----

  /** Non-empty chunks of at most CHUNK_SIZE bytes, in ascending order, inside [low, high). */
  predicate Ordered(cs: seq<Interval>, low: nat, high: nat) {
    && (forall i :: 0 <= i < |cs| ==> low <= cs[i].start < cs[i].end <= high && cs[i].end - cs[i].start <= CHUNK_SIZE)
    && (forall i, j :: 0 <= i < j < |cs| ==> cs[i].end <= cs[j].start)
  }

  lemma OrderedAppend(a: seq<Interval>, b: seq<Interval>, low: nat, mid: nat, high: nat)
    requires Ordered(a, low, mid) && Ordered(b, mid, high) && low <= mid <= high
    ensures Ordered(a + b, low, high)
  {
  }

  lemma InSomeAppend(a: seq<Interval>, b: seq<Interval>, x: nat)
    ensures InSome(a + b, x) <==> InSome(a, x) || InSome(b, x)
  {
    if InSome(a, x) {
      var i :| 0 <= i < |a| && a[i].start <= x < a[i].end;
      assert (a + b)[i] == a[i];
    }
    if InSome(b, x) {
      var i :| 0 <= i < |b| && b[i].start <= x < b[i].end;
      assert (a + b)[|a| + i] == b[i];
    }
  }

  lemma {:induction false} ChunkTailCut(st: nat, end: nat, x: nat)
    requires st <= end
    ensures Ordered(ChunkTail(st, end), st, end)
    ensures InSome(ChunkTail(st, end), x) <==> st <= x < end
    decreases end - st
  {
    if st < end {
      hide Ordered, InSome;
      var e := ChunkEnd(st, end);
      ChunkTailCut(e, end, x);
      OneChunk(Interval(st, e), x);
      OrderedAppend([Interval(st, e)], ChunkTail(e, end), st, e, end);
      InSomeAppend([Interval(st, e)], ChunkTail(e, end), x);
    }
  }

  lemma OneChunk(c: Interval, x: nat)
    requires c.start < c.end <= c.start + CHUNK_SIZE
    ensures Ordered([c], c.start, c.end)
    ensures InSome([c], x) <==> c.start <= x < c.end
  {
    assert [c][0] == c;
  }

  lemma {:induction false} RangeTailCut(edges: seq<nat>, r: nat, high: nat, x: nat)
    requires Canonical(edges) && r % 2 == 0 && r <= |edges|
    requires forall i :: 0 <= i < |edges| ==> edges[i] <= high
    ensures Ordered(RangeTail(edges, r), if r < |edges| then edges[r] else high, high)
    ensures InSome(RangeTail(edges, r), x) <==> InSome(Intervals(edges[r..]), x)
    decreases |edges| - r
  {
    if r < |edges| {
      hide Ordered, InSome, ChunkTail, Intervals, Canonical;
      FirstRange(edges, r);
      RangeTailCut(edges, r + 2, high, x);
      ChunkTailCut(edges[r], edges[r + 1], x);
      InSomeAppend(ChunkTail(edges[r], edges[r + 1]), RangeTail(edges, r + 2), x);
      var next := if r + 2 < |edges| then edges[r + 2] else high;
      OrderedWider(RangeTail(edges, r + 2), next, high, edges[r + 1]);
      OrderedAppend(ChunkTail(edges[r], edges[r + 1]), RangeTail(edges, r + 2), edges[r], edges[r + 1], high);
      InSomeCons(Interval(edges[r], edges[r + 1]), Intervals(edges[r + 2..]), x);
    }
  }

  lemma FirstRange(edges: seq<nat>, r: nat)
    requires Canonical(edges) && r % 2 == 0 && r < |edges|
    ensures r + 1 < |edges| && edges[r] <= edges[r + 1] && (r + 2 < |edges| ==> edges[r + 1] <= edges[r + 2])
    ensures Intervals(edges[r..]) == [Interval(edges[r], edges[r + 1])] + Intervals(edges[r + 2..])
  {
    assert edges[r..][2..] == edges[r + 2..];
  }

  lemma OrderedWider(cs: seq<Interval>, low: nat, high: nat, lower: nat)
    requires Ordered(cs, low, high) && lower <= low
    ensures Ordered(cs, lower, high)
  {
  }

  /** The chunks hold exactly the addresses of the set, each once and in order. */
  lemma ChunksCut(edges: seq<nat>, x: nat)
    requires Canonical(edges) && edges != []
    ensures Ordered(Chunks(edges), edges[0], edges[|edges| - 1])
    ensures InSome(Chunks(edges), x) <==> Member(edges, x)
  {
    hide Ordered, InSome, Member;
    RangeTailCut(edges, 0, edges[|edges| - 1], x);
    assert edges[0..] == edges;
    IntervalsMember(edges, x);
  }

  /** A chunk starts at an edge or where the one before it ends, and it has 256 MiB unless its range
      ends first. */
  predicate Full(edges: seq<nat>, cs: seq<Interval>, i: nat)
    requires i < |cs|
  {
    && (cs[i].start in edges || (i > 0 && cs[i - 1].end == cs[i].start))
    && (cs[i].end - cs[i].start == 0x1000_0000 || (cs[i].end in edges && cs[i].end - cs[i].start < 0x1000_0000))
  }

  predicate AllFull(edges: seq<nat>, cs: seq<Interval>) {
    forall i :: 0 <= i < |cs| ==> Full(edges, cs, i)
  }

  lemma OneChunkMore(edges: seq<nat>, cs: seq<Interval>, c: Interval)
    requires AllFull(edges, cs) && Full(edges, cs + [c], |cs|)
    ensures AllFull(edges, cs + [c])
  {
    var more := cs + [c];
    forall i | 0 <= i < |more| ensures Full(edges, more, i) {
      if i < |cs| {
        assert Full(edges, cs, i);
        assert more[i] == cs[i] && (i > 0 ==> more[i - 1] == cs[i - 1]);
      }
    }
  }

  lemma {:induction false} ChunkTailFull(edges: seq<nat>, st: nat, end: nat, cs: seq<Interval>)
    requires st <= end && end in edges && (st in edges || (cs != [] && cs[|cs| - 1].end == st))
    requires AllFull(edges, cs)
    ensures AllFull(edges, cs + ChunkTail(st, end))
    decreases end - st
  {
    hide AllFull;
    if st < end {
      var c := Interval(st, ChunkEnd(st, end));
      OneChunkMore(edges, cs, c);
      ChunkTailFull(edges, c.end, end, cs + [c]);
      Regroup(cs, [c], ChunkTail(c.end, end));
    } else {
      assert cs + [] == cs;
    }
  }

  lemma {:induction false} RangeTailFull(edges: seq<nat>, r: nat, cs: seq<Interval>)
    requires Increasing(edges) && AllFull(edges, cs)
    ensures AllFull(edges, cs + RangeTail(edges, r))
    decreases |edges| - r
  {
    hide AllFull, ChunkTail, Increasing;
    if r + 1 < |edges| {
      var tail, rest := ChunkTail(edges[r], edges[r + 1]), RangeTail(edges, r + 2);
      InOrder(edges, r);
      ChunkTailFull(edges, edges[r], edges[r + 1], cs);
      RangeTailFull(edges, r + 2, cs + tail);
      assert RangeTail(edges, r) == tail + rest;
      Regroup(cs, tail, rest);
    } else {
      assert cs + [] == cs;
    }
  }

  lemma InOrder(edges: seq<nat>, r: nat)
    requires Increasing(edges) && r + 1 < |edges|
    ensures edges[r] <= edges[r + 1]
  {
  }

  lemma Regroup(a: seq<Interval>, b: seq<Interval>, c: seq<Interval>)
    ensures a + (b + c) == (a + b) + c
  {
  }

  /** The ranges are cut from their starts into pieces of exactly 256 MiB and a rest. */
  lemma ChunksFull(edges: seq<nat>, i: nat)
    requires Increasing(edges) && i < |Chunks(edges)|
    ensures Full(edges, Chunks(edges), i)
  {
    hide Full;
    RangeTailFull(edges, 0, []);
    assert [] + RangeTail(edges, 0) == Chunks(edges);
  }

  // ----- each visit happens once, in the order of the nested loops -----

  predicate Before(v: Visit, w: Visit) {
    || v.pattern < w.pattern
    || (v.pattern == w.pattern && v.op < w.op)
    || (v.pattern == w.pattern && v.op == w.op && v.chunk.end <= w.chunk.start)
  }

  predicate Lexicographic(vs: seq<Visit>) {
    forall i, j :: 0 <= i < j < |vs| ==> Before(vs[i], vs[j])
  }

  lemma LexicographicAppend(a: seq<Visit>, b: seq<Visit>)
    requires Lexicographic(a) && Lexicographic(b)
    requires forall v, w :: v in a && w in b ==> Before(v, w)
    ensures Lexicographic(a + b)
  {
    forall i, j | 0 <= i < j < |a + b| ensures Before((a + b)[i], (a + b)[j]) {
      if i < |a| <= j {
        assert a[i] in a && b[j - |a|] in b;
      }
    }
  }

  lemma {:induction false} OpVisits(p: nat, op: nat, chunks: seq<Interval>, low: nat, high: nat, v: Visit)
    requires Ordered(chunks, low, high)
    ensures Lexicographic(OpTail(p, op, chunks))
    ensures v in OpTail(p, op, chunks) <==> v.pattern == p && op <= v.op < 2 && v.chunk in chunks
    decreases 2 - op
  {
    if op < 2 {
      OpVisits(p, op + 1, chunks, low, high, v);
      VisitsIn(p, op, chunks, v);
      forall v', w | v' in Visits(p, op, chunks) && w in OpTail(p, op + 1, chunks) ensures Before(v', w) {
        OpVisits(p, op + 1, chunks, low, high, w);
      }
      LexicographicAppend(Visits(p, op, chunks), OpTail(p, op + 1, chunks));
    }
  }

  lemma VisitsIn(p: nat, op: nat, chunks: seq<Interval>, v: Visit)
    ensures v in Visits(p, op, chunks) <==> v.pattern == p && v.op == op && v.chunk in chunks
  {
    if v.pattern == p && v.op == op && v.chunk in chunks {
      var i :| 0 <= i < |chunks| && chunks[i] == v.chunk;
      assert Visits(p, op, chunks)[i] == v;
    }
  }

  lemma {:induction false} PatternVisits(n: nat, p: nat, chunks: seq<Interval>, low: nat, high: nat, v: Visit)
    requires Ordered(chunks, low, high)
    ensures Lexicographic(PatternTail(n, p, chunks))
    ensures v in PatternTail(n, p, chunks) <==> p <= v.pattern < n && v.op < 2 && v.chunk in chunks
    decreases n - p
  {
    hide Lexicographic, Ordered, OpTail;
    if p < n {
      PatternVisits(n, p + 1, chunks, low, high, v);
      OpVisits(p, 0, chunks, low, high, v);
      forall v', w | v' in OpTail(p, 0, chunks) && w in PatternTail(n, p + 1, chunks) ensures Before(v', w) {
        OpVisits(p, 0, chunks, low, high, v');
        PatternVisits(n, p + 1, chunks, low, high, w);
      }
      LexicographicAppend(OpTail(p, 0, chunks), PatternTail(n, p + 1, chunks));
    } else {
      NoVisits();
    }
  }

  lemma NoVisits()
    ensures Lexicographic([])
  {
  }

  /** The plan holds every combination of pattern, operation and chunk, and being strictly
      ascending in the order of the nested loops it holds each exactly once. */
  lemma PlanComplete(n: nat, edges: seq<nat>, v: Visit)
    requires Canonical(edges) && edges != []
    ensures v in AllVisits(n, edges) <==> v.pattern < n && v.op < 2 && v.chunk in Chunks(edges)
    ensures Lexicographic(AllVisits(n, edges))
  {
    ChunksCut(edges, 0);
    PatternVisits(n, 0, Chunks(edges), edges[0], edges[|edges| - 1], v);
  }

  // ----- bytes -----

  function Bytes(cs: seq<Interval>): int {
    if cs == [] then 0 else cs[0].end - cs[0].start + Bytes(cs[1..])
  }

  function VisitBytes(vs: seq<Visit>): int {
    if vs == [] then 0 else vs[0].chunk.end - vs[0].chunk.start + VisitBytes(vs[1..])
  }

  /** The total size of the ranges from edge r on. */
  function RangeBytes(edges: seq<nat>, r: nat): int
    decreases |edges| - r
  {
    if r + 1 >= |edges| then 0 else edges[r + 1] - edges[r] + RangeBytes(edges, r + 2)
  }

  lemma {:induction false} BytesAppend(a: seq<Interval>, b: seq<Interval>)
    ensures Bytes(a + b) == Bytes(a) + Bytes(b)
    decreases a
  {
    if a == [] {
      assert a + b == b;
    } else {
      assert (a + b)[1..] == a[1..] + b;
      BytesAppend(a[1..], b);
    }
  }

  lemma {:induction false} VisitBytesAppend(a: seq<Visit>, b: seq<Visit>)
    ensures VisitBytes(a + b) == VisitBytes(a) + VisitBytes(b)
    decreases a
  {
    if a == [] {
      assert a + b == b;
    } else {
      assert (a + b)[1..] == a[1..] + b;
      VisitBytesAppend(a[1..], b);
    }
  }

  lemma {:induction false} ChunkTailBytes(st: nat, end: nat)
    requires st <= end
    ensures Bytes(ChunkTail(st, end)) == end - st
    decreases end - st
  {
    if st < end {
      ChunkTailBytes(ChunkEnd(st, end), end);
    }
  }

  lemma {:induction false} RangeTailBytes(edges: seq<nat>, r: nat)
    requires Increasing(edges)
    ensures Bytes(RangeTail(edges, r)) == RangeBytes(edges, r)
    decreases |edges| - r
  {
    if r + 1 < |edges| {
      RangeTailBytes(edges, r + 2);
      ChunkTailBytes(edges[r], edges[r + 1]);
      BytesAppend(ChunkTail(edges[r], edges[r + 1]), RangeTail(edges, r + 2));
    }
  }

  lemma {:induction false} VisitsBytes(p: nat, op: nat, chunks: seq<Interval>)
    ensures VisitBytes(Visits(p, op, chunks)) == Bytes(chunks)
    decreases chunks
  {
    if chunks != [] {
      assert Visits(p, op, chunks)[1..] == Visits(p, op, chunks[1..]);
      VisitsBytes(p, op, chunks[1..]);
    }
  }

  lemma OpBytes(p: nat, chunks: seq<Interval>)
    ensures VisitBytes(OpTail(p, 0, chunks)) == 2 * Bytes(chunks)
  {
    VisitsBytes(p, 0, chunks);
    VisitsBytes(p, 1, chunks);
    assert OpTail(p, 1, chunks) == Visits(p, 1, chunks);
    VisitBytesAppend(Visits(p, 0, chunks), Visits(p, 1, chunks));
  }

  lemma {:induction false} PatternBytes(n: nat, p: nat, chunks: seq<Interval>)
    requires p <= n
    ensures VisitBytes(PatternTail(n, p, chunks)) == (n - p) * (2 * Bytes(chunks))
    decreases n - p
  {
    hide OpTail, VisitBytes, Bytes, Visits;
    var b := 2 * Bytes(chunks);
    if p < n {
      var k := n - p - 1;
      PatternBytes(n, p + 1, chunks);
      OpBytes(p, chunks);
      VisitBytesAppend(OpTail(p, 0, chunks), PatternTail(n, p + 1, chunks));
      OneMore(k, b);
    } else {
      NoVisitBytes();
      OneMore(0, b);
    }
  }

  lemma NoVisitBytes()
    ensures VisitBytes([]) == 0
  {
  }

  lemma OneMore(k: nat, b: int)
    ensures (k + 1) * b == k * b + b && 0 * b == 0
  {
  }

  /** The whole test processes every byte twice with each pattern. */
  lemma PlanBytes(n: nat, edges: seq<nat>)
    requires Increasing(edges)
    ensures VisitBytes(AllVisits(n, edges)) == n * (2 * RangeBytes(edges, 0))
  {
    RangeTailBytes(edges, 0);
    PatternBytes(n, 0, Chunks(edges));
  }
}

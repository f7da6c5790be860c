/** The resumable memory test (src/diag/memory.c). */
module MemoryTest {
  import opened RangeSets
  import opened MemoryPlan
  import C = Common

  const PATTERN_CACHE_BYTES: nat := 4096

  /** Memory m after memcpy of the first n bytes of s to `at`. */
  function Copied(m: nat -> C.Byte, at: nat, n: nat, s: seq<C.Byte>): nat -> C.Byte
    requires n <= |s|
  {
    (a: nat) => if at <= a < at + n then s[a - at] else m(a)
  }

  lemma MulMonotone(x: nat, y: nat, t: nat)
    requires x <= y
    ensures x * t <= y * t
  {
  }

  lemma DivMonotone(a: nat, b: nat, t: nat)
    requires a <= b && t > 0
    ensures a / t <= b / t
  {
    assert a == a / t * t + a % t;
    assert b == b / t * t + b % t;
    if a / t > b / t {
      MulMonotone(b / t + 1, a / t, t);
    }
  }

  lemma HundredPercent(t: nat)
    requires t > 0
    ensures 100 * t / t == 100
  {
  }

  class MemoryTestState {
    /** The bytes of the patterns, and the edges of the ranges to test. */
    const patterns: seq<seq<C.Byte>>
    const edges: seq<nat>
    /** How far arch_phys_map lets one call of its function reach. */
    const window: (nat, nat) -> nat
    /** What a read of an address gives, by the byte last written there. */
    const read: (nat, C.Byte) -> C.Byte
    /** The pattern of single_operation_data. */
    const pattern: array<C.Byte>

    var isRunning: bool
    var patternCur: nat
    var op: nat
    var rangeCur: nat
    var chunkSt: nat
    var numBytes: nat
    var numBytesProcessed: nat
    var percent: nat
    var failed: bool
    /** The byte last written to every address. */
    var mem: nat -> C.Byte
    ghost var visited: seq<Visit>

    constructor (patterns: seq<seq<C.Byte>>, edges: seq<nat>, window: (nat, nat) -> nat,
                 read: (nat, C.Byte) -> C.Byte, mem: nat -> C.Byte)
      ensures this.patterns == patterns && this.edges == edges && this.window == window && this.read == read
      ensures pattern.Length == PATTERN_CACHE_BYTES && fresh(pattern) && !isRunning
    {
      this.patterns := patterns;
      this.edges := edges;
      this.window := window;
      this.read := read;
      this.mem := mem;
      pattern := new C.Byte[PATTERN_CACHE_BYTES](_ => 0);
      isRunning, patternCur, op, rangeCur, chunkSt := false, 0, 0, 0, 0;
      numBytes, numBytesProcessed, percent, failed := 0, 0, 0, false;
      visited := [];
    }

    ghost predicate Windows() {
      forall a: nat, n: nat {:trigger window(a, n)} :: n > 0 ==> 1 <= window(a, n) <= n
    }

    /** Some patterns, none empty, some ranges, and progress that is counted in 64 bits. */
    ghost predicate Configured() {
      && Increasing(edges) && edges != [] && Windows()
      && patterns != [] && (forall i :: 0 <= i < |patterns| ==> patterns[i] != [])
      && pattern.Length == PATTERN_CACHE_BYTES
      && 100 * Total() < C.LIMIT64
    }

    ghost predicate Fixed() {
      Configured() && |edges| % 2 == 0
    }

    function Total(): int { |patterns| * (2 * RangeBytes(edges, 0)) }

    // ----- what the operations write and expect -----

    /** Where the piece of [start, start + size) that holds `a` begins. */
    ghost function PieceStart(start: nat, size: nat, a: nat): (s: nat)
      requires Windows() && start <= a < start + size
      ensures start <= s <= a
      decreases size
    {
      var w := window(start, size);
      if a < start + w then start else PieceStart(start + w, size - w, a)
    }

    /** The byte of a chunk that pattern p puts at `a`. */
    ghost function Expect(p: nat, c: Interval, a: nat): C.Byte
      requires Windows() && p < |patterns| && patterns[p] != [] && c.start <= a < c.end
    {
      patterns[p][(a - PieceStart(c.start, c.end - c.start, a)) % PATTERN_CACHE_BYTES % |patterns[p]|]
    }

    /** The memory gives back what pattern p puts into the chunk. */
    ghost predicate Good(p: nat, c: Interval)
      requires Windows() && p < |patterns| && patterns[p] != []
    {
      forall a: nat :: c.start <= a < c.end ==> read(a, Expect(p, c, a)) == Expect(p, c, a)
    }

    /** Memory m holds in the chunk what pattern p puts there. */
    ghost predicate Holds(m: nat -> C.Byte, p: nat, c: Interval)
      requires Windows() && p < |patterns| && patterns[p] != []
    {
      forall a: nat :: c.start <= a < c.end ==> m(a) == Expect(p, c, a)
    }

    ghost predicate Loaded()
      reads this`patternCur, pattern
    {
      && patternCur < |patterns| && patterns[patternCur] != [] && pattern.Length == PATTERN_CACHE_BYTES
      && forall i :: 0 <= i < PATTERN_CACHE_BYTES ==> pattern[i] == patterns[patternCur][i % |patterns[patternCur]|]
    }

    /** Memory m with `size` bytes at `start` overwritten by the loaded pattern. */
    ghost predicate Overwritten(m: nat -> C.Byte, was: nat -> C.Byte, start: nat, size: nat)
      requires pattern.Length == PATTERN_CACHE_BYTES
      reads pattern
    {
      forall a: nat ::
        m(a) == (if start <= a < start + size then pattern[(a - start) % PATTERN_CACHE_BYTES] else was(a))
    }

    /** Some byte of the `size` bytes at `start` does not read as the loaded pattern. */
    ghost predicate Mismatch(m: nat -> C.Byte, start: nat, size: nat)
      requires pattern.Length == PATTERN_CACHE_BYTES
      reads pattern
    {
      exists a: nat ::
        start <= a < start + size && read(a, m(a)) != pattern[(a - start) % PATTERN_CACHE_BYTES]
    }

    /** op_write. */
    method OpWrite(physAddr: nat, size: nat)
      requires pattern.Length == PATTERN_CACHE_BYTES
      modifies this`mem
      ensures Overwritten(mem, old(mem), physAddr, size)
    {
      hide Overwritten, Copied;
      var pos: nat := 0;
      NothingYet(mem, physAddr);
      while pos < size
        invariant pos <= size && (pos == size || pos % PATTERN_CACHE_BYTES == 0)
        invariant Overwritten(mem, old(mem), physAddr, pos)
      {
        var curSize := if size - pos < PATTERN_CACHE_BYTES then size - pos else PATTERN_CACHE_BYTES;
        CopyBlock(mem, old(mem), physAddr, pos, curSize);
        mem := Copied(mem, physAddr + pos, curSize, pattern[..]);
        pos := pos + curSize;
      }
    }

    lemma NothingYet(m: nat -> C.Byte, at: nat)
      requires pattern.Length == PATTERN_CACHE_BYTES
      ensures Overwritten(m, m, at, 0) && !Mismatch(m, at, 0)
    {
    }

    lemma CopyBlock(m: nat -> C.Byte, was: nat -> C.Byte, at: nat, pos: nat, n: nat)
      requires pattern.Length == PATTERN_CACHE_BYTES && pos % PATTERN_CACHE_BYTES == 0 && n <= PATTERN_CACHE_BYTES
      requires Overwritten(m, was, at, pos)
      ensures Overwritten(Copied(m, at + pos, n, pattern[..]), was, at, pos + n)
    {
      forall a: nat
        ensures Copied(m, at + pos, n, pattern[..])(a)
          == (if at <= a < at + pos + n then pattern[(a - at) % PATTERN_CACHE_BYTES] else was(a))
      {
        if at + pos <= a < at + pos + n {
          BlockIndex(pos, a - at - pos);
        }
      }
    }

    lemma BlockIndex(pos: nat, i: nat)
      requires pos % PATTERN_CACHE_BYTES == 0 && i < PATTERN_CACHE_BYTES
      ensures (pos + i) % PATTERN_CACHE_BYTES == i
    {
    }

    /** op_read_and_check, as to passing or failing. */
    method OpReadAndCheck(physAddr: nat, size: nat)
      requires pattern.Length == PATTERN_CACHE_BYTES
      modifies this`failed
      ensures failed <==> old(failed) || Mismatch(mem, physAddr, size)
    {
      hide Mismatch;
      var pos: nat := 0;
      NothingYet(mem, physAddr);
      while pos < size
        invariant pos <= size && (pos == size || pos % PATTERN_CACHE_BYTES == 0)
        invariant failed == old(failed) && !Mismatch(mem, physAddr, pos)
      {
        var curSize := if size - pos < PATTERN_CACHE_BYTES then size - pos else PATTERN_CACHE_BYTES;
        if exists i :: 0 <= i < curSize && read(physAddr + pos + i, mem(physAddr + pos + i)) != pattern[i] {
          failed := true;
          ghost var i :| 0 <= i < curSize && read(physAddr + pos + i, mem(physAddr + pos + i)) != pattern[i];
          BadByte(physAddr, size, pos, i);
          return;
        }
        NextBlock(physAddr, pos, curSize);
        pos := pos + curSize;
      }
    }

    lemma NextBlock(at: nat, pos: nat, n: nat)
      requires pattern.Length == PATTERN_CACHE_BYTES && pos % PATTERN_CACHE_BYTES == 0 && n <= PATTERN_CACHE_BYTES
      requires !Mismatch(mem, at, pos)
      requires forall i :: 0 <= i < n ==> read(at + pos + i, mem(at + pos + i)) == pattern[i]
      ensures !Mismatch(mem, at, pos + n)
    {
      hide Agrees, Mismatch;
      MismatchIff(at, pos);
      forall a: nat | at <= a < at + pos + n ensures Agrees(at, a) {
        if a >= at + pos {
          BlockByte(at, pos, n, a - at - pos);
        }
      }
      MismatchIff(at, pos + n);
    }

    /** The byte at a reads as the pattern laid out from `at` on. */
    ghost predicate Agrees(at: nat, a: nat)
      requires at <= a && pattern.Length == PATTERN_CACHE_BYTES
      reads this`mem, pattern
    {
      read(a, mem(a)) == pattern[(a - at) % PATTERN_CACHE_BYTES]
    }

    lemma MismatchIff(at: nat, n: nat)
      requires pattern.Length == PATTERN_CACHE_BYTES
      ensures Mismatch(mem, at, n) <==> exists a: nat :: at <= a < at + n && !Agrees(at, a)
    {
      forall a: nat | at <= a < at + n
        ensures Agrees(at, a) <==> read(a, mem(a)) == pattern[(a - at) % PATTERN_CACHE_BYTES]
      {
      }
    }

    lemma BlockByte(at: nat, pos: nat, n: nat, i: nat)
      requires pattern.Length == PATTERN_CACHE_BYTES && pos % PATTERN_CACHE_BYTES == 0 && i < n <= PATTERN_CACHE_BYTES
      requires forall i :: 0 <= i < n ==> read(at + pos + i, mem(at + pos + i)) == pattern[i]
      ensures Agrees(at, at + pos + i)
    {
      BlockIndex(pos, i);
    }

    lemma BadByte(at: nat, size: nat, pos: nat, i: nat)
      requires pattern.Length == PATTERN_CACHE_BYTES && pos % PATTERN_CACHE_BYTES == 0 && i < PATTERN_CACHE_BYTES
      requires pos + i < size && read(at + pos + i, mem(at + pos + i)) != pattern[i]
      ensures Mismatch(mem, at, size)
    {
      BlockIndex(pos, i);
    }

    /** Memory m with the chunk overwritten as far as `end`, piece by piece. */
    ghost predicate ChunkWritten(m: nat -> C.Byte, was: nat -> C.Byte, c: Interval, end: nat)
      requires Windows() && patternCur < |patterns| && patterns[patternCur] != [] && end <= c.end
      reads this`patternCur
    {
      forall a: nat :: m(a) == (if c.start <= a < end then Expect(patternCur, c, a) else was(a))
    }

    ghost predicate ChunkMismatch(m: nat -> C.Byte, c: Interval, end: nat)
      requires Windows() && patternCur < |patterns| && patterns[patternCur] != [] && end <= c.end
      reads this`patternCur
    {
      exists a: nat :: c.start <= a < end && read(a, m(a)) != Expect(patternCur, c, a)
    }

    /** The pieces of chunk c from `at` on are those of the `left` bytes there. */
    ghost predicate PiecesFrom(c: Interval, at: nat, left: nat)
      requires Windows() && c.start <= at && at + left == c.end
    {
      forall a: nat :: at <= a < c.end ==> PieceStart(c.start, c.end - c.start, a) == PieceStart(at, left, a)
    }

    lemma NextPiece(c: Interval, at: nat, left: nat)
      requires Windows() && Loaded() && c.start <= at && left > 0 && at + left == c.end
      requires PiecesFrom(c, at, left)
      ensures var cur := window(at, left);
        && 1 <= cur <= left
        && PiecesFrom(c, at + cur, left - cur)
        && forall a: nat :: at <= a < at + cur ==> pattern[(a - at) % PATTERN_CACHE_BYTES] == Expect(patternCur, c, a)
    {
      var cur := window(at, left);
      forall a: nat | at <= a < at + cur
        ensures pattern[(a - at) % PATTERN_CACHE_BYTES] == Expect(patternCur, c, a)
      {
        assert PieceStart(at, left, a) == at;
      }
      var next, rest := at + cur, left - cur;
      forall a: nat | next <= a < c.end
        ensures PieceStart(c.start, c.end - c.start, a) == PieceStart(next, rest, a)
      {
        assert PieceStart(at, left, a) == PieceStart(next, rest, a);
      }
    }

    /** arch_phys_map with the current operation: the chunk is handed over piece by piece. */
    method PhysMap(start: nat, size: nat)
      requires Windows() && Loaded()
      modifies this`mem, this`failed
      ensures op == 0 ==>
        && failed == old(failed)
        && ChunkWritten(mem, old(mem), Interval(start, start + size), start + size)
      ensures op != 0 ==>
        && mem == old(mem)
        && (failed <==> old(failed) || ChunkMismatch(mem, Interval(start, start + size), start + size))
    {
      hide Expect, PieceStart, PiecesFrom;
      var at: nat, left: nat := start, size;
      ghost var c := Interval(start, start + size);
      AllPieces(c);
      while left > 0
        invariant Loaded() && start <= at && at + left == c.end && PiecesFrom(c, at, left)
        invariant op == 0 ==> failed == old(failed) && ChunkWritten(mem, old(mem), c, at)
        invariant op != 0 ==> mem == old(mem) && (failed <==> old(failed) || ChunkMismatch(mem, c, at))
        decreases left
      {
        NextPiece(c, at, left);
        var cur := window(at, left);
        if op == 0 {
          OpWrite(at, cur);
        } else {
          OpReadAndCheck(at, cur);
          MorePieces(c, at, cur);
        }
        at := at + cur;
        left := left - cur;
      }
    }

    lemma AllPieces(c: Interval)
      requires Windows() && c.start <= c.end
      ensures PiecesFrom(c, c.start, c.end - c.start)
    {
    }

    lemma MorePieces(c: Interval, at: nat, cur: nat)
      requires Windows() && Loaded() && c.start <= at && at + cur <= c.end
      requires forall a: nat :: at <= a < at + cur ==>
        pattern[(a - at) % PATTERN_CACHE_BYTES] == Expect(patternCur, c, a)
      ensures ChunkMismatch(mem, c, at + cur) <==> ChunkMismatch(mem, c, at) || Mismatch(mem, at, cur)
    {
      hide Expect;
    }

    /** fill_opdata with `cyclic`: the pattern over and over. */
    method FillOpData()
      requires patternCur < |patterns| && patterns[patternCur] != [] && pattern.Length == PATTERN_CACHE_BYTES
      modifies pattern
      ensures Loaded()
    {
      var src := patterns[patternCur];
      for pos := 0 to PATTERN_CACHE_BYTES
        invariant forall i :: 0 <= i < pos ==> pattern[i] == src[i % |src|]
      {
        pattern[pos] := src[pos % |src|];
      }
    }

    // ----- the cursors -----

    ghost predicate CursorsOk()
      reads this`patternCur, this`op, this`rangeCur, this`chunkSt
    {
      && patternCur < |patterns| && op < 2
      && rangeCur % 2 == 0 && rangeCur + 1 < |edges|
      && edges[rangeCur] <= chunkSt < edges[rangeCur + 1]
    }

    /** The visits still to come. */
    ghost function Todo(): seq<Visit>
      requires isRunning ==> CursorsOk()
      reads this`isRunning, this`patternCur, this`op, this`rangeCur, this`chunkSt
    {
      if isRunning then Remaining(|patterns|, edges, patternCur, op, rangeCur, chunkSt) else []
    }

    method ResetChunk()
      requires rangeCur < |edges|
      modifies this`chunkSt
      ensures chunkSt == edges[rangeCur]
    {
      chunkSt := edges[rangeCur];
    }

    method ResetRange()
      requires edges != []
      modifies this`rangeCur, this`chunkSt
      ensures rangeCur == 0 && chunkSt == edges[0]
    {
      rangeCur := 0;
      ResetChunk();
    }

    method ResetOperation()
      requires edges != []
      modifies this`op, this`rangeCur, this`chunkSt
      ensures op == 0 && rangeCur == 0 && chunkSt == edges[0]
    {
      op := 0;
      ResetRange();
    }

    lemma FirstChunk()
      requires Canonical(edges) && edges != []
      ensures |edges| > 1 && edges[0] < edges[1]
      ensures Chunks(edges) == ChunkTail(edges[0], edges[1]) + RangeTail(edges, 2)
    {
    }

    lemma OpStart(p: nat, chunks: seq<Interval>)
      ensures OpTail(p, 0, chunks) == Visits(p, 0, chunks) + OpTail(p, 1, chunks)
      ensures OpTail(p, 1, chunks) == Visits(p, 1, chunks) + OpTail(p, 2, chunks)
      ensures OpTail(p, 2, chunks) == []
    {
    }

    /** With its range and chunk cursors reset an operation has all its visits ahead. */
    lemma FreshOperation(p: nat, o: nat)
      requires Fixed() && o < 2
      ensures |edges| > 1 && edges[0] < edges[1]
      ensures Remaining(|patterns|, edges, p, o, 0, edges[0])
           == OpTail(p, o, Chunks(edges)) + PatternTail(|patterns|, p + 1, Chunks(edges))
    {
      hide Chunks, OpTail, PatternTail, RangeTail, ChunkTail, Visits, Fixed, Canonical;
      FixedEdges();
      FirstChunk();
      OpStart(p, Chunks(edges));
    }

    lemma NextPattern(p: nat)
      requires p < |patterns|
      ensures PatternTail(|patterns|, p + 1, Chunks(edges)) ==
        if p + 1 == |patterns| then []
        else OpTail(p + 1, 0, Chunks(edges)) + PatternTail(|patterns|, p + 2, Chunks(edges))
    {
    }

    method GoNextPattern()
      requires Fixed() && isRunning && patternCur < |patterns|
      modifies this`isRunning, this`patternCur, this`op, this`rangeCur, this`chunkSt, pattern
      ensures isRunning ==> CursorsOk() && Loaded() && rangeCur == 0 && chunkSt == edges[0]
      ensures Todo() == PatternTail(|patterns|, old(patternCur) + 1, Chunks(edges))
    {
      hide Canonical, Chunks, OpTail, Visits, PatternTail, RangeTail, ChunkTail, Remaining;
      NextPattern(patternCur);
      if patternCur + 1 == |patterns| {
        isRunning := false;
        return;
      }
      patternCur := patternCur + 1;
      FillOpData();
      FreshOperation(patternCur, 0);
      ResetOperation();
    }

    lemma FixedEdges()
      requires Fixed()
      ensures Canonical(edges) && edges != []
    {
    }

    method GoNextOperation()
      requires Fixed() && isRunning && patternCur < |patterns| && Loaded() && op < 2
      modifies this`isRunning, this`patternCur, this`op, this`rangeCur, this`chunkSt, pattern
      ensures isRunning ==> CursorsOk() && Loaded()
      ensures rangeCur < |edges|
      ensures isRunning ==> chunkSt == edges[rangeCur]
      ensures Todo() == OpTail(old(patternCur), old(op) + 1, Chunks(edges))
        + PatternTail(|patterns|, old(patternCur) + 1, Chunks(edges))
    {
      hide Fixed, Chunks, OpTail, Visits, PatternTail, Loaded, Remaining, Canonical;
      FreshOperation(patternCur, 1);
      OpStart(patternCur, Chunks(edges));
      op := op + 1;
      if op == 2 {
        GoNextPattern();
      }
      ResetRange();
    }

    /** With its chunk cursor reset a range has all its visits ahead. */
    lemma FreshRange(p: nat, o: nat, r: nat)
      requires Fixed() && r % 2 == 0 && r + 1 < |edges|
      ensures |edges| == r + 2 || (r + 3 < |edges| && edges[r + 2] < edges[r + 3])
      ensures var later := OpTail(p, o + 1, Chunks(edges)) + PatternTail(|patterns|, p + 1, Chunks(edges));
        (if r + 2 == |edges| then later else Remaining(|patterns|, edges, p, o, r + 2, edges[r + 2]))
        == Visits(p, o, RangeTail(edges, r + 2)) + OpTail(p, o + 1, Chunks(edges))
           + PatternTail(|patterns|, p + 1, Chunks(edges))
    {
      hide Chunks, OpTail, PatternTail, RangeTail, ChunkTail, Visits, Fixed, Canonical;
      NextRange(p, o, r);
    }

    lemma NextRange(p: nat, o: nat, r: nat)
      requires Fixed() && r % 2 == 0 && r + 1 < |edges|
      ensures r + 2 <= |edges| && edges != []
      ensures r + 2 == |edges| ==> Visits(p, o, RangeTail(edges, r + 2)) == []
      ensures r + 2 < |edges| ==>
        && r + 3 < |edges| && edges[r + 2] < edges[r + 3]
        && RangeTail(edges, r + 2) == ChunkTail(edges[r + 2], edges[r + 3]) + RangeTail(edges, r + 4)
    {
    }

    method GoNextRange()
      requires Fixed() && isRunning && patternCur < |patterns| && Loaded() && op < 2
      requires rangeCur % 2 == 0 && rangeCur + 1 < |edges|
      modifies this`isRunning, this`patternCur, this`op, this`rangeCur, this`chunkSt, pattern
      ensures isRunning ==> CursorsOk() && Loaded()
      ensures Todo() == Visits(old(patternCur), old(op), RangeTail(edges, old(rangeCur) + 2))
        + OpTail(old(patternCur), old(op) + 1, Chunks(edges))
        + PatternTail(|patterns|, old(patternCur) + 1, Chunks(edges))
    {
      hide Chunks, OpTail, PatternTail, RangeTail, ChunkTail, Loaded, Visits, Fixed, Canonical, RangeBytes, Remaining;
      FreshRange(patternCur, op, rangeCur);
      rangeCur := rangeCur + 2;
      if rangeCur == |edges| {
        GoNextOperation();
      }
      ResetChunk();
    }

    method GoNextChunk()
      requires Fixed() && isRunning && Loaded() && CursorsOk()
      modifies this`isRunning, this`patternCur, this`op, this`rangeCur, this`chunkSt, pattern
      ensures isRunning ==> CursorsOk() && Loaded()
      ensures old(Todo())
           == [old(Visit(patternCur, op, Interval(chunkSt, ChunkEnd(chunkSt, edges[rangeCur + 1]))))] + Todo()
    {
      hide Chunks, OpTail, PatternTail, RangeTail, Loaded, Visits, Fixed;
      ghost var end := edges[rangeCur + 1];
      ghost var c := Interval(chunkSt, ChunkEnd(chunkSt, end));
      FirstVisit(patternCur, op, c, ChunkTail(c.end, end) + RangeTail(edges, rangeCur + 2));
      assert ChunkTail(chunkSt, end) + RangeTail(edges, rangeCur + 2)
          == [c] + (ChunkTail(c.end, end) + RangeTail(edges, rangeCur + 2));
      chunkSt := ChunkEnd(chunkSt, edges[rangeCur + 1]);
      if chunkSt == edges[rangeCur + 1] {
        assert ChunkTail(c.end, end) + RangeTail(edges, rangeCur + 2) == RangeTail(edges, rangeCur + 2);
        GoNextRange();
      }
    }

    lemma FirstVisit(p: nat, op: nat, c: Interval, cs: seq<Interval>)
      ensures Visits(p, op, [c] + cs) == [Visit(p, op, c)] + Visits(p, op, cs)
    {
    }

    // ----- the state between steps -----

    /** The chunks written with the pattern of the last visit still hold it. */
    ghost predicate MemoryOk(m: nat -> C.Byte, vs: seq<Visit>)
      requires Fixed()
    {
      vs != [] ==>
        var p := vs[|vs| - 1].pattern;
        p < |patterns| && forall c :: Visit(p, 0, c) in vs ==> Holds(m, p, c)
    }

    ghost predicate ChecksPassed(vs: seq<Visit>)
      requires Fixed()
    {
      forall v :: v in vs && v.op == 1 && v.pattern < |patterns| ==> Good(v.pattern, v.chunk)
    }

    ghost predicate Progress()
      reads this`numBytes, this`numBytesProcessed, this`percent, this`visited
    {
      && Total() > 0
      && numBytes == RangeBytes(edges, 0)
      && numBytesProcessed == VisitBytes(visited)
      && (visited != [] ==> percent == 100 * numBytesProcessed / Total())
    }

    /** The last visit is the first check that failed. */
    ghost predicate FirstFailure(vs: seq<Visit>)
      requires Fixed()
    {
      && vs != [] && vs <= AllVisits(|patterns|, edges)
      && ChecksPassed(vs[..|vs| - 1])
      && var v := vs[|vs| - 1]; v.op == 1 && v.pattern < |patterns| && !Good(v.pattern, v.chunk)
    }

    /** Running: the visits made and those to come are the plan, and all checks passed.  Stopped:
        either the plan is done, or the last visit is the first check that failed. */
    ghost predicate Valid()
      reads this, pattern
    {
      && Fixed() && Progress()
      && (isRunning ==> patternCur < |patterns| && CursorsOk() && Loaded() && !failed && MemoryOk(mem, visited))
      && (!failed ==> visited + Todo() == AllVisits(|patterns|, edges) && ChecksPassed(visited))
      && (failed ==> !isRunning && FirstFailure(visited))
    }

    /** What stands between visit v and those before it, vs. */
    lemma PlanSplit(vs: seq<Visit>, v: Visit, rest: seq<Visit>)
      requires Fixed() && vs + ([v] + rest) == AllVisits(|patterns|, edges)
      ensures v.pattern < |patterns| && v.op < 2 && v.chunk in Chunks(edges)
      ensures forall u :: u in vs ==> Before(u, v)
      ensures forall u :: u in vs ==> u == vs[|vs| - 1] || Before(u, vs[|vs| - 1])
      ensures v.op == 1 ==> Visit(v.pattern, 0, v.chunk) in vs
    {
      hide AllVisits, Chunks;
      var all := AllVisits(|patterns|, edges);
      assert all[|vs|] == v;
      PlanComplete(|patterns|, edges, v);
      forall u | u in vs ensures Before(u, v) && (u == vs[|vs| - 1] || Before(u, vs[|vs| - 1])) {
        var i :| 0 <= i < |vs| && vs[i] == u;
        assert all[i] == u && all[|vs| - 1] == vs[|vs| - 1];
      }
      if v.op == 1 {
        var w := Visit(v.pattern, 0, v.chunk);
        PlanComplete(|patterns|, edges, w);
        var j :| 0 <= j < |all| && all[j] == w;
        assert j >= |vs| ==> j == |vs| || Before(v, w);
        assert all[j] == vs[j];
      }
    }

    /** Writing one more chunk leaves the ones written with the same pattern alone. */
    lemma WriteKeeps(vs: seq<Visit>, v: Visit, rest: seq<Visit>, was: nat -> C.Byte, now: nat -> C.Byte)
      requires Fixed() && vs + ([v] + rest) == AllVisits(|patterns|, edges) && v.op == 0
      requires MemoryOk(was, vs) && v.pattern == patternCur < |patterns|
      requires ChunkWritten(now, was, v.chunk, v.chunk.end)
      ensures MemoryOk(now, vs + [v])
    {
      hide AllVisits, Chunks, Expect, Canonical;
      PlanSplit(vs, v, rest);
      forall c | Visit(v.pattern, 0, c) in vs + [v] ensures Holds(now, v.pattern, c) {
        var u := Visit(v.pattern, 0, c);
        if u in vs {
          assert Before(u, v) && (u == vs[|vs| - 1] || Before(u, vs[|vs| - 1])) && Before(vs[|vs| - 1], v);
          assert Holds(was, v.pattern, c);
        }
      }
    }

    /** A check finds the chunk as it was written, so it passes exactly when the memory is good
        there. */
    lemma CheckIsGood(vs: seq<Visit>, v: Visit, rest: seq<Visit>, m: nat -> C.Byte)
      requires Fixed() && vs + ([v] + rest) == AllVisits(|patterns|, edges) && v.op == 1
      requires MemoryOk(m, vs) && v.pattern == patternCur < |patterns|
      ensures ChunkMismatch(m, v.chunk, v.chunk.end) <==> !Good(v.pattern, v.chunk)
      ensures MemoryOk(m, vs + [v])
    {
      hide AllVisits, Chunks, Expect, Canonical;
      PlanSplit(vs, v, rest);
      var u := Visit(v.pattern, 0, v.chunk);
      assert Before(u, v) && (u == vs[|vs| - 1] || Before(u, vs[|vs| - 1])) && Before(vs[|vs| - 1], v);
      assert Holds(m, v.pattern, v.chunk);
    }

    // ----- the entry points -----

    /** memory_test_init, once the patterns and ranges are there; an odd number of edges fails. */
    method Init() returns (ok: bool)
      requires Configured()
      modifies this, pattern
      ensures ok <==> |edges| % 2 == 0
      ensures ok ==> Valid() && isRunning && visited == []
    {
      failed := false;
      numBytes := 0;
      visited := [];
      var cur := 0;
      while cur < |edges|
        invariant cur <= |edges| && cur % 2 == 0 && !failed && visited == []
        invariant numBytes + RangeBytes(edges, cur) == RangeBytes(edges, 0)
        decreases |edges| - cur
      {
        if cur + 1 == |edges| {
          isRunning := false;
          return false;
        }
        numBytes := numBytes + (edges[cur + 1] - edges[cur]);
        cur := cur + 2;
      }
      ResetMemoryTest();
      ok := true;
    }

    method ResetMemoryTest()
      requires Fixed() && !failed && visited == [] && numBytes == RangeBytes(edges, 0)
      modifies this, pattern
      ensures Valid() && isRunning && visited == []
    {
      hide AllVisits, Chunks, OpTail, PatternTail, Visits, RangeTail, ChunkTail, RangeBytes, Expect, Good, Holds,
           Canonical, Windows;
      patternCur := 0;
      FillOpData();
      ResetOperation();
      numBytesProcessed := 0;
      isRunning := true;
      FirstChunk();
      BytesPositive(0);
      TotalPositive(RangeBytes(edges, 0));
      OpStart(0, Chunks(edges));
      PlanStart();
    }

    lemma PlanStart()
      requires Fixed()
      ensures AllVisits(|patterns|, edges)
        == OpTail(0, 0, Chunks(edges)) + PatternTail(|patterns|, 1, Chunks(edges))
    {
    }

    lemma TotalPositive(bytes: int)
      requires patterns != [] && bytes > 0
      ensures |patterns| * (2 * bytes) > 0
    {
    }

    lemma {:induction false} BytesPositive(r: nat)
      requires Increasing(edges)
      ensures RangeBytes(edges, r) >= 0 && (r + 1 < |edges| ==> RangeBytes(edges, r) > 0)
      decreases |edges| - r
    {
      if r + 1 < |edges| {
        BytesPositive(r + 2);
      }
    }

    method UpdateProgress()
      requires Total() > 0 && numBytes == RangeBytes(edges, 0)
      modifies this`percent
      ensures percent == 100 * numBytesProcessed / Total()
    {
      percent := 100 * numBytesProcessed / (|patterns| * (2 * numBytes));
    }

    lemma TodoHead()
      requires isRunning && CursorsOk()
      ensures var v := Visit(patternCur, op, Interval(chunkSt, ChunkEnd(chunkSt, edges[rangeCur + 1])));
        && v.chunk.start < v.chunk.end
        && Todo() != [] && Todo()[0] == v && Todo() == [v] + Todo()[1..]
    {
      hide OpTail, PatternTail, RangeTail, Visits, Chunks;
      var end := edges[rangeCur + 1];
      var c := Interval(chunkSt, ChunkEnd(chunkSt, end));
      var cs := ChunkTail(c.end, end) + RangeTail(edges, rangeCur + 2);
      assert ChunkTail(chunkSt, end) + RangeTail(edges, rangeCur + 2) == [c] + cs;
      FirstVisit(patternCur, op, c, cs);
      HeadFirst(Visit(patternCur, op, c), Visits(patternCur, op, cs), OpTail(patternCur, op + 1, Chunks(edges)),
                PatternTail(|patterns|, patternCur + 1, Chunks(edges)));
    }

    lemma HeadFirst(v: Visit, a: seq<Visit>, b: seq<Visit>, c: seq<Visit>)
      ensures ([v] + a) + b + c == [v] + (a + b + c)
      ensures (([v] + a) + b + c)[1..] == a + b + c
    {
    }

    lemma OneVisit(v: Visit)
      ensures VisitBytes([v]) == v.chunk.end - v.chunk.start
    {
    }

    /** The work of one step: the current operation on the current chunk, and the counters. */
    method VisitChunk(ghost v: Visit)
      requires Valid() && isRunning && Todo() != [] && Todo() == [v] + Todo()[1..]
      requires v == Visit(patternCur, op, Interval(chunkSt, ChunkEnd(chunkSt, edges[rangeCur + 1])))
      requires v.chunk.start < v.chunk.end
      modifies this`mem, this`failed, this`numBytesProcessed, this`percent, this`visited
      ensures visited == old(visited) + [v] && Progress()
      ensures old(visited) != [] ==> old(percent) <= percent
      ensures failed <==> v.op == 1 && !Good(v.pattern, v.chunk)
      ensures !failed ==> MemoryOk(mem, visited)
    {
      hide AllVisits, Chunks, Remaining, Loaded, Good, MemoryOk, ChecksPassed, Expect, Canonical,
           ChunkMismatch, ChunkWritten, VisitBytes, RangeBytes, Windows, Total;
      var start, end := chunkSt, ChunkEnd(chunkSt, edges[rangeCur + 1]);
      ghost var was := mem;
      PhysMap(start, end - start);
      if op == 0 {
        WriteKeeps(visited, v, Todo()[1..], was, mem);
      } else {
        CheckIsGood(visited, v, Todo()[1..], mem);
      }
      ghost var before := numBytesProcessed;
      numBytesProcessed := numBytesProcessed + (end - start);
      DivMonotone(100 * before, 100 * numBytesProcessed, Total());
      VisitBytesAppend(visited, [v]);
      OneVisit(v);
      UpdateProgress();
      visited := visited + [v];
    }

    lemma ChecksMore(vs: seq<Visit>, v: Visit)
      requires Fixed() && ChecksPassed(vs) && v.pattern < |patterns|
      requires v.op == 1 ==> Good(v.pattern, v.chunk)
      ensures ChecksPassed(vs + [v])
    {
      hide Good;
    }

    lemma Regroup(vs: seq<Visit>, v: Visit, rest: seq<Visit>)
      ensures vs + ([v] + rest) == (vs + [v]) + rest
    {
    }

    lemma Prefix(vs: seq<Visit>, v: Visit, rest: seq<Visit>)
      ensures vs + [v] <= vs + ([v] + rest)
      ensures (vs + [v])[..|vs + [v]| - 1] == vs
    {
      assert vs + ([v] + rest) == (vs + [v]) + rest;
    }

    lemma FailureFound(vs: seq<Visit>, v: Visit, rest: seq<Visit>)
      requires Fixed() && ChecksPassed(vs) && vs + ([v] + rest) == AllVisits(|patterns|, edges)
      requires v.op == 1 && v.pattern < |patterns| && !Good(v.pattern, v.chunk)
      ensures FirstFailure(vs + [v])
    {
      hide Good, ChecksPassed, AllVisits;
      Prefix(vs, v, rest);
    }

    /** memory_test_run_step: one visit, the next one of the plan. */
    method Step()
      requires Valid()
      modifies this, pattern
      ensures Valid()
      ensures !old(isRunning) ==>
        !isRunning && visited == old(visited) && failed == old(failed) && percent == old(percent) && mem == old(mem)
      ensures old(isRunning) ==> old(Todo()) != [] && visited == old(visited) + [old(Todo())[0]]
      ensures old(isRunning) && !failed ==> Todo() == old(Todo())[1..]
      ensures old(visited) != [] ==> old(percent) <= percent
    {
      hide AllVisits, Chunks, Remaining, Loaded, Good, MemoryOk, ChecksPassed, Fixed, Progress, FirstFailure, ChunkEnd;
      if !isRunning {
        return;
      }
      TodoHead();
      ghost var v := Visit(patternCur, op, Interval(chunkSt, ChunkEnd(chunkSt, edges[rangeCur + 1])));
      ghost var vs, rest := visited, Todo()[1..];
      VisitChunk(v);
      if failed {
        FailureFound(vs, v, rest);
        isRunning := false;
        return;
      }
      ChecksMore(vs, v);
      GoNextChunk();
      Regroup(vs, v, Todo());
    }

    // ----- whole runs -----

    /** The memory gives back every pattern from every chunk. */
    ghost predicate AllGood()
      requires Fixed()
    {
      forall p, c :: 0 <= p < |patterns| && c in Chunks(edges) ==> Good(p, c)
    }

    /** Steps until the test stops.  It passes exactly when the memory gives back everything that
        is written; then it has made all visits of the plan and shows 100 percent. */
    method Run()
      requires Valid() && isRunning && visited == []
      modifies this, pattern
      ensures Valid() && !isRunning
      ensures !failed <==> AllGood()
      ensures !failed ==>
        visited == AllVisits(|patterns|, edges) && numBytesProcessed == Total() && percent == 100
      ensures (forall a: nat, b :: read(a, b) == b) ==> !failed
    {
      hide AllVisits, Chunks, Remaining, Loaded, Good, MemoryOk;
      while isRunning
        invariant Valid()
        decreases if isRunning then 1 + |Todo()| else 0
      {
        Step();
      }
      if failed {
        FailedRun();
      } else {
        assert visited + [] == visited;
        PassedRun();
        PlanBytes(|patterns|, edges);
        HundredPercent(Total());
      }
      if forall a: nat, b :: read(a, b) == b {
        IdealMemory();
      }
    }

    lemma FailedRun()
      requires Fixed() && FirstFailure(visited)
      ensures !AllGood()
    {
      hide AllVisits, Chunks, Good;
      var v := visited[|visited| - 1];
      assert AllVisits(|patterns|, edges)[|visited| - 1] == v;
      PlanComplete(|patterns|, edges, v);
    }

    lemma PassedRun()
      requires Fixed() && visited == AllVisits(|patterns|, edges) && ChecksPassed(visited)
      ensures AllGood()
    {
      hide AllVisits, Chunks, Good;
      forall p, c | 0 <= p < |patterns| && c in Chunks(edges) ensures Good(p, c) {
        PlanComplete(|patterns|, edges, Visit(p, 1, c));
      }
    }

    lemma IdealMemory()
      requires Fixed() && forall a: nat, b :: read(a, b) == b
      ensures AllGood()
    {
      hide Expect, Chunks;
    }
  }
}

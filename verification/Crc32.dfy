/** CRC-32 by table and by word, on a little-endian host (src/boot/crc32.c; section 8 of
    RFC 1952). */
module Crc32 {
  const POLY: bv32 := 0xedb88320

  function Xor(a: bv32, b: bv32): bv32 { a ^ b }

  function Half(x: bv32): bv32 { x >> 1 }

  function LowBit(x: bv32): bv32 { x & 1 }

  function Widen(b: bv8): bv32 { b as bv32 }

  function Flip(c: bv32): bv32 { c ^ 0xffffffff }

  predicate Odd(x: bv32) { x & 1 == 1 }

  /** x halved, with the polynomial added for the bit that fell out. */
  function Reduced(x: bv32): bv32 { Xor(POLY, Half(x)) }

  // ----- the definition, bit by bit -----

  /** Shifts one message bit into the register. */
  function BitIn(c: bv32, bit: bv32): bv32 {
    if Odd(Xor(c, bit)) then Reduced(c) else Half(c)
  }

  /** Shifts in the k lowest bits of b, lowest first. */
  function BitsIn(c: bv32, b: bv32, k: nat): bv32
    decreases k
  {
    if k == 0 then c else BitsIn(BitIn(c, LowBit(b)), Half(b), k - 1)
  }

  /** The register after all bytes of s. */
  function Register(c: bv32, s: seq<bv8>): bv32 {
    if s == [] then c else BitsIn(Register(c, s[..|s| - 1]), Widen(s[|s| - 1]), 8)
  }

  /** The CRC of s, continued from the CRC crc of what came before. */
  function Crc(crc: bv32, s: seq<bv8>): bv32 {
    Flip(Register(Flip(crc), s))
  }

  lemma {:induction false} RegisterAppend(c: bv32, a: seq<bv8>, b: seq<bv8>)
    ensures Register(c, a + b) == Register(Register(c, a), b)
    decreases b
  {
    hide BitsIn, Widen;
    if b == [] {
      assert a + b == a;
    } else {
      assert (a + b)[..|a + b| - 1] == a + b[..|b| - 1];
      RegisterAppend(c, a, b[..|b| - 1]);
    }
  }

  lemma FlipTwice(x: bv32)
    ensures Flip(Flip(x)) == x
  {
  }

  /** A checksum can be continued: nothing but the checksum of the first part is needed. */
  lemma Composes(crc: bv32, a: seq<bv8>, b: seq<bv8>)
    ensures Crc(Crc(crc, a), b) == Crc(crc, a + b)
  {
    hide Register, Flip;
    RegisterAppend(Flip(crc), a, b);
    FlipTwice(Register(Flip(crc), a));
  }

  // ----- eight steps at once -----

  /** The inner loop of make_crc_table: one step of the register with no message bit. */
  function BitStep(c: bv32): bv32 {
    if Odd(c) then Reduced(c) else Half(c)
  }

  function Steps(c: bv32, k: nat): bv32
    decreases k
  {
    if k == 0 then c else Steps(BitStep(c), k - 1)
  }

  /** x without its k lowest bits, moved down. */
  function Halves(x: bv32, k: nat): bv32
    decreases k
  {
    if k == 0 then x else Halves(Half(x), k - 1)
  }

  predicate Clear(x: bv32, k: nat)
    decreases k
  {
    k == 0 || (LowBit(x) == 0 && Clear(Half(x), k - 1))
  }

  /** A step is linear in the bits above the lowest. */
  lemma StepLinear(a: bv32, h: bv32)
    requires LowBit(h) == 0
    ensures BitStep(Xor(a, h)) == Xor(BitStep(a), Half(h))
  {
    hide Odd, Xor, Reduced, Half;
    OddXor(a, h);
    HalfXor(a, h);
    ReducedXor(a, h);
  }

  lemma OddXor(a: bv32, h: bv32)
    ensures LowBit(h) == 0 ==> (Odd(Xor(a, h)) <==> Odd(a))
    ensures Odd(Xor(a, h)) <==> Odd(Xor(a, LowBit(h)))
  {
  }

  lemma HalfXor(a: bv32, h: bv32)
    ensures Half(Xor(a, h)) == Xor(Half(a), Half(h))
  {
  }

  lemma ReducedXor(a: bv32, h: bv32)
    ensures Reduced(Xor(a, h)) == Xor(Reduced(a), Half(h))
  {
    hide Xor, Half;
    HalfXor(a, h);
    XorAssoc(POLY, Half(a), Half(h));
  }

  lemma {:induction false} StepsLinear(a: bv32, h: bv32, k: nat)
    requires Clear(h, k)
    ensures Steps(Xor(a, h), k) == Xor(Steps(a, k), Halves(h, k))
    decreases k
  {
    hide BitStep, Xor, Half, LowBit;
    if k > 0 {
      StepLinear(a, h);
      StepsLinear(BitStep(a), Half(h), k - 1);
    }
  }

  /** One step of a register that was xored with the rest of a byte. */
  lemma StepBit(c: bv32, x: bv32)
    ensures BitStep(Xor(c, x)) == Xor(BitIn(c, LowBit(x)), Half(x))
  {
    hide Odd, Xor, Reduced, Half, LowBit;
    OddXor(c, x);
    HalfXor(c, x);
    ReducedXor(c, x);
  }

  lemma {:induction false} BitsAsSteps(c: bv32, b: bv32, k: nat)
    requires Halves(b, k) == 0
    ensures BitsIn(c, b, k) == Steps(Xor(c, b), k)
    decreases k
  {
    hide BitIn, BitStep, Xor, Half, LowBit;
    if k == 0 {
      XorZero(c);
    } else {
      StepBit(c, b);
      BitsAsSteps(BitIn(c, LowBit(b)), Half(b), k - 1);
    }
  }

  lemma XorZero(c: bv32)
    ensures Xor(c, 0) == c
  {
  }

  /** A byte is eight steps of the register xored with it. */
  lemma ByteAsSteps(c: bv32, b: bv8)
    ensures BitsIn(c, Widen(b), 8) == Steps(Xor(c, Widen(b)), 8)
  {
    hide BitsIn, Steps, Xor, Halves, Widen, Shift8;
    EightHalves(Widen(b));
    ByteGone(b);
    BitsAsSteps(c, Widen(b), 8);
  }

  lemma EightHalves(x: bv32)
    ensures Halves(x, 8) == Shift8(x)
  {
    hide Half, Shift8;
    var y := Half(Half(Half(Half(x))));
    assert Halves(x, 8) == Halves(y, 4);
    assert Halves(y, 4) == Half(Half(Half(Half(y))));
    HalfEight(x);
  }

  lemma HalfEight(x: bv32)
    ensures Half(Half(Half(Half(Half(Half(Half(Half(x)))))))) == Shift8(x)
  {
  }

  lemma ByteGone(b: bv8)
    ensures Shift8(Widen(b)) == 0
  {
  }

  /** The bits of a register above the lowest byte. */
  function High(c: bv32): bv32 { c & 0xffffff00 }

  function Low(c: bv32): bv32 { c & 255 }

  function Shift8(c: bv32): bv32 { c >> 8 }

  lemma HighParts(c: bv32)
    ensures Xor(Low(c), High(c)) == c && Shift8(High(c)) == Shift8(c)
  {
  }

  lemma HighClear(c: bv32)
    ensures Clear(High(c), 8)
  {
    hide Half, LowBit, High;
    var h := High(c);
    HighBits(c);
    var y := Half(Half(Half(Half(h))));
    assert Clear(h, 8) <==> Clear(y, 4) by {
      assert Clear(Half(Half(h)), 6) <==> Clear(y, 4);
    }
    assert Clear(y, 4);
  }

  lemma HighBits(c: bv32)
    ensures var h := High(c);
      && LowBit(h) == 0 && LowBit(Half(h)) == 0 && LowBit(Half(Half(h))) == 0
      && LowBit(Half(Half(Half(h)))) == 0
      && var y := Half(Half(Half(Half(h))));
      && LowBit(y) == 0 && LowBit(Half(y)) == 0 && LowBit(Half(Half(y))) == 0
      && LowBit(Half(Half(Half(y)))) == 0
  {
  }

  /** DO_CRC: one table entry does eight steps. */
  lemma TableStep(c: bv32)
    ensures Steps(c, 8) == Xor(Steps(Low(c), 8), Shift8(c))
  {
    hide Steps, Low, High, Xor, Halves, Clear, Shift8;
    HighParts(c);
    HighClear(c);
    EightHalves(High(c));
    StepsLinear(Low(c), High(c), 8);
  }

  // ----- four bytes at once -----

  /** The little-endian word of four bytes. */
  function Word(b0: bv8, b1: bv8, b2: bv8, b3: bv8): bv32 {
    Widen(b0) | (Widen(b1) << 8) | (Widen(b2) << 16) | (Widen(b3) << 24)
  }

  lemma WordBytes(b0: bv8, b1: bv8, b2: bv8, b3: bv8)
    ensures var w := Word(b0, b1, b2, b3);
      && Low(w) == Widen(b0)
      && Low(Shift8(w)) == Widen(b1)
      && Low(Shift8(Shift8(w))) == Widen(b2)
      && Low(Shift8(Shift8(Shift8(w)))) == Widen(b3)
      && Shift8(Shift8(Shift8(Shift8(w)))) == 0
  {
  }

  lemma XorAssoc(a: bv32, b: bv32, c: bv32)
    ensures Xor(a, Xor(b, c)) == Xor(Xor(a, b), c)
  {
  }

  /** Eight steps take in the lowest byte of a word and move the rest of it down. */
  lemma ByteOfWord(c: bv32, w: bv32, b: bv8)
    requires Low(w) == Widen(b)
    ensures Steps(Xor(c, w), 8) == Xor(BitsIn(c, Widen(b), 8), Shift8(w))
  {
    hide Steps, BitsIn, Xor, Low, High, Shift8, Widen, Halves, Clear;
    HighParts(w);
    XorAssoc(c, Low(w), High(w));
    HighClear(w);
    StepsLinear(Xor(c, Low(w)), High(w), 8);
    EightHalves(High(w));
    ByteAsSteps(c, b);
  }

  function FourTimes(c: bv32): bv32 { Steps(Steps(Steps(Steps(c, 8), 8), 8), 8) }

  lemma WordAsBytes(c: bv32, b0: bv8, b1: bv8, b2: bv8, b3: bv8)
    ensures FourTimes(Xor(c, Word(b0, b1, b2, b3))) == Register(c, [b0, b1, b2, b3])
  {
    hide Steps, BitsIn, Xor, Low, High, Shift8, Widen, Word, Register;
    var w := Word(b0, b1, b2, b3);
    WordBytes(b0, b1, b2, b3);
    var c1 := BitsIn(c, Widen(b0), 8);
    var c2 := BitsIn(c1, Widen(b1), 8);
    var c3 := BitsIn(c2, Widen(b2), 8);
    var c4 := BitsIn(c3, Widen(b3), 8);
    ByteOfWord(c, w, b0);
    ByteOfWord(c1, Shift8(w), b1);
    ByteOfWord(c2, Shift8(Shift8(w)), b2);
    ByteOfWord(c3, Shift8(Shift8(Shift8(w))), b3);
    XorZero(c4);
    RegisterStart(c);
    assert [] + [b0] == [b0] && [b0] + [b1] == [b0, b1];
    assert [b0, b1] + [b2] == [b0, b1, b2] && [b0, b1, b2] + [b3] == [b0, b1, b2, b3];
    RegisterNext(c, [], b0);
    RegisterNext(c, [b0], b1);
    RegisterNext(c, [b0, b1], b2);
    RegisterNext(c, [b0, b1, b2], b3);
  }

  lemma RegisterStart(c: bv32)
    ensures Register(c, []) == c
  {
  }

  lemma RegisterNext(c: bv32, s: seq<bv8>, b: bv8)
    ensures Register(c, s + [b]) == BitsIn(Register(c, s), Widen(b), 8)
  {
    hide BitsIn, Widen;
    assert (s + [b])[..|s + [b]| - 1] == s;
  }

  // ----- known values -----

  /** The bytes of a word, lowest first. */
  function LittleEndian(w: bv32): seq<bv8> {
    [(w & 255) as bv8, ((w >> 8) & 255) as bv8, ((w >> 16) & 255) as bv8, ((w >> 24) & 255) as bv8]
  }

  lemma LittleEndianWord(w: bv32)
    ensures var b := LittleEndian(w); Word(b[0], b[1], b[2], b[3]) == w
  {
  }

  lemma XorCancels(a: bv32)
    ensures Xor(a, Flip(a)) == 0xffffffff
  {
  }

  /** A message with its own CRC behind it always has the CRC 0x2144df1c. */
  lemma Residue(crc: bv32, s: seq<bv8>)
    ensures Crc(crc, s + LittleEndian(Crc(crc, s))) == 0x2144df1c
  {
    hide Register, Flip, Word, Xor, FourTimes, LittleEndian;
    var r := Register(Flip(crc), s);
    var b := LittleEndian(Flip(r));
    FourBytes(Flip(r));
    RegisterAppend(Flip(crc), s, b);
    WordAsBytes(r, b[0], b[1], b[2], b[3]);
    LittleEndianWord(Flip(r));
    XorCancels(r);
    OnesFourTimes();
    FlipResidue();
  }

  lemma FourBytes(w: bv32)
    ensures var b := LittleEndian(w); |b| == 4 && b == [b[0], b[1], b[2], b[3]]
  {
  }

  lemma FlipResidue()
    ensures Flip(0xdebb20e3) == 0x2144df1c
  {
  }

  function EightSteps(c: bv32): bv32 {
    BitStep(BitStep(BitStep(BitStep(BitStep(BitStep(BitStep(BitStep(c))))))))
  }

  lemma EightIsSteps(c: bv32)
    ensures Steps(c, 8) == EightSteps(c)
  {
    hide BitStep;
    var d := BitStep(BitStep(BitStep(BitStep(c))));
    assert Steps(c, 8) == Steps(d, 4);
    assert Steps(d, 4) == BitStep(BitStep(BitStep(BitStep(d))));
  }

  lemma OnesFourTimes()
    ensures FourTimes(0xffffffff) == 0xdebb20e3
  {
    hide Steps;
    EightIsSteps(0xffffffff);
    assert EightSteps(0xffffffff) == 0x2dfd1072;
    EightIsSteps(0x2dfd1072);
    assert EightSteps(0x2dfd1072) == 0xbe26ed00;
    EightIsSteps(0xbe26ed00);
    assert EightSteps(0xbe26ed00) == 0x00be26ed;
    EightIsSteps(0x00be26ed);
    assert EightSteps(0x00be26ed) == 0xdebb20e3;
  }

  /** The register after one more byte. */
  lemma NextByte(c0: bv32, s: seq<bv8>, b: bv8, c: bv32, d: bv32)
    requires Register(c0, s) == c && EightSteps(c ^ (b as bv32)) == d
    ensures Register(c0, s + [b]) == d
  {
    hide Steps, BitsIn, Register, EightSteps;
    RegisterNext(c0, s, b);
    ByteAsSteps(c, b);
    EightIsSteps(Xor(c, Widen(b)));
  }

  /** The check value of CRC-32: the CRC of the digits 1 to 9. */
  lemma CheckValue()
    ensures Crc(0, [0x31, 0x32, 0x33, 0x34, 0x35, 0x36, 0x37, 0x38, 0x39]) == 0xcbf43926
  {
    hide Register;
    var c: bv32 := 0xffffffff;
    RegisterStart(c);
    NextByte(c, [], 0x31, 0xffffffff, 0x7c231048);
    var s1: seq<bv8> := [] + [0x31];
    NextByte(c, s1, 0x32, 0x7c231048, 0xb0acbb32);
    var s2 := s1 + [0x32];
    NextByte(c, s2, 0x33, 0xb0acbb32, 0x77b79c2d);
    var s3 := s2 + [0x33];
    NextByte(c, s3, 0x34, 0x77b79c2d, 0x641c1f5c);
    var s4 := s3 + [0x34];
    NextByte(c, s4, 0x35, 0x641c1f5c, 0x340ac5e3);
    var s5 := s4 + [0x35];
    NextByte(c, s5, 0x36, 0x340ac5e3, 0xf68d2c9e);
    var s6 := s5 + [0x36];
    NextByte(c, s6, 0x37, 0xf68d2c9e, 0xaffc9660);
    var s7 := s6 + [0x37];
    NextByte(c, s7, 0x38, 0xaffc9660, 0x651f2550);
    var s8 := s7 + [0x38];
    NextByte(c, s8, 0x39, 0x651f2550, 0x340bc6d9);
    var s9 := s8 + [0x39];
    assert s9 == [0x31, 0x32, 0x33, 0x34, 0x35, 0x36, 0x37, 0x38, 0x39];
  }

  // ----- the table -----

  /** The exponents of the polynomial, except 32. */
  const EXPONENTS: seq<nat> := [0, 1, 2, 4, 5, 7, 8, 10, 11, 12, 16, 22, 23, 26]

  function Term(n: nat): bv32
    requires n <= 31
  {
    (1 as bv32) << (31 - n)
  }

  function PolyUpTo(k: nat): bv32
    requires k <= |EXPONENTS|
  {
    if k == 0 then 0 else PolyUpTo(k - 1) | Term(EXPONENTS[k - 1])
  }

  lemma PolyStep(k: nat)
    requires k < |EXPONENTS|
    ensures PolyUpTo(0) == 0 && PolyUpTo(k + 1) == PolyUpTo(k) | Term(EXPONENTS[k])
  {
  }

  lemma PolyFirst()
    ensures PolyUpTo(5) == 0xec000000
  {
    hide PolyUpTo;
    PolyStep(0);
    PolyStep(1);
    PolyStep(2);
    PolyStep(3);
    PolyStep(4);
  }

  lemma PolyMiddle()
    ensures PolyUpTo(10) == 0xedb80000
  {
    hide PolyUpTo;
    PolyFirst();
    PolyStep(5);
    PolyStep(6);
    PolyStep(7);
    PolyStep(8);
    PolyStep(9);
  }

  lemma PolyValue()
    ensures PolyUpTo(14) == POLY
  {
    hide PolyUpTo;
    PolyMiddle();
    PolyStep(10);
    PolyStep(11);
    PolyStep(12);
    PolyStep(13);
  }

  lemma LowIndex(c: bv32)
    ensures Low(c) as int < 256 && (Low(c) as int) as bv32 == Low(c)
  {
  }

  lemma SmallShift(c: bv32, b: bv8)
    ensures Shift8(Xor(c, Widen(b))) == Shift8(c)
  {
  }

  /** How many bytes of a buffer of n bytes at `addr` lie in front of the first word boundary. */
  function Lead(addr: nat, n: nat): (k: nat)
    ensures k <= n
  {
    var gap := (4 - addr % 4) % 4;
    if gap < n then gap else n
  }

  lemma LeadEnds(addr: nat, n: nat, p: nat)
    requires p <= n
    ensures p < n && p <= Lead(addr, n) ==> (p == Lead(addr, n) <==> (addr + p) % 4 == 0)
    ensures n == 0 ==> Lead(addr, n) == 0
  {
  }

  class CrcTable {
    /** crc_table and crc_table_empty. */
    const table: array<bv32>
    var empty: bool

    constructor ()
      ensures table.Length == 256 && fresh(table) && empty
    {
      table := new bv32[256](_ => 0);
      empty := true;
    }

    ghost predicate Filled()
      reads table
    {
      table.Length == 256 && forall n: nat :: n < 256 ==> table[n] == Steps(n as bv32, 8)
    }

    ghost predicate Valid()
      reads this, table
    {
      table.Length == 256 && (!empty ==> Filled())
    }

    method MakeCrcTable()
      requires table.Length == 256
      modifies this`empty, table
      ensures Filled() && !empty
    {
      hide Xor, Half, Odd, Term, BitStep, PolyUpTo, Steps;
      var poly: bv32 := 0;
      PolyStep(0);
      for n := 0 to |EXPONENTS|
        invariant poly == PolyUpTo(n)
      {
        PolyStep(n);
        poly := poly | Term(EXPONENTS[n]);
      }
      PolyValue();
      for n := 0 to 256
        invariant forall i: nat :: i < n ==> table[i] == Steps(i as bv32, 8)
      {
        var c := n as bv32;
        for k := 0 to 8
          invariant Steps(c, 8 - k) == Steps(n as bv32, 8)
          invariant forall i: nat :: i < n ==> table[i] == Steps(i as bv32, 8)
        {
          StepsNext(c, 8 - k);
          StepByHand(c, poly);
          c := if Odd(c) then Xor(poly, Half(c)) else Half(c);
        }
        StepsDone(c);
        table[n] := c;
      }
      empty := false;
    }

    lemma StepsNext(c: bv32, k: nat)
      requires k > 0
      ensures Steps(c, k) == Steps(BitStep(c), k - 1)
    {
    }

    lemma StepsDone(c: bv32)
      ensures Steps(c, 0) == c
    {
    }

    lemma StepByHand(c: bv32, poly: bv32)
      requires poly == POLY
      ensures BitStep(c) == if Odd(c) then Xor(poly, Half(c)) else Half(c)
    {
    }

    /** DO_CRC. */
    method DoCrc(crc: bv32, x: bv8) returns (r: bv32)
      requires Filled()
      ensures r == Steps(Xor(crc, Widen(x)), 8)
    {
      hide Steps, Xor, Low, Shift8, Widen;
      ghost var c := Xor(crc, Widen(x));
      LowIndex(c);
      SmallShift(crc, x);
      TableStep(c);
      r := Xor(table[Low(Xor(crc, Widen(x))) as int], Shift8(crc));
    }

    /** crc32_no_comp on a buffer that starts at address `addr`: single bytes up to a word
        boundary, then whole words, then the last bytes.  `loads` lists the offsets of the words
        that are loaded: all the aligned ones in the buffer, and nothing else. */
    method NoComp(crc0: bv32, buf: seq<bv8>, addr: nat) returns (crc: bv32, ghost loads: seq<nat>)
      requires Valid()
      modifies this`empty, table
      ensures Valid() && crc == Register(crc0, buf)
      ensures |loads| == (|buf| - Lead(addr, |buf|)) / 4
      ensures forall i :: 0 <= i < |loads| ==>
        loads[i] == Lead(addr, |buf|) + 4 * i && (addr + loads[i]) % 4 == 0 && loads[i] + 4 <= |buf|
    {
      hide Steps, Xor, Low, Shift8, Widen, Register, BitsIn, Word, FourTimes, Lead;
      if empty {
        MakeCrcTable();
      }
      var p: nat;
      loads := [];
      crc, p := LeadingBytes(crc0, buf, addr);
      var remLen, words := (|buf| - p) % 4, (|buf| - p) / 4;
      while words > 0
        invariant Filled() && 0 <= remLen < 4 && words >= 0 && |buf| == p + 4 * words + remLen
        invariant words > 0 ==> (addr + p) % 4 == 0
        invariant p == Lead(addr, |buf|) + 4 * |loads| && crc == Register(crc0, buf[..p])
        invariant forall i :: 0 <= i < |loads| ==>
          loads[i] == Lead(addr, |buf|) + 4 * i && (addr + loads[i]) % 4 == 0 && loads[i] + 4 <= |buf|
      {
        loads := loads + [p];
        crc := OneWord(crc0, crc, buf, addr, p);
        p := p + 4;
        words := words - 1;
      }
      while p < |buf|
        invariant Filled() && p <= |buf| && crc == Register(crc0, buf[..p])
      {
        crc := OneByte(crc0, crc, buf, p);
        p := p + 1;
      }
      assert buf[..p] == buf;
    }

    /** Its first loop. */
    method LeadingBytes(crc0: bv32, buf: seq<bv8>, addr: nat) returns (crc: bv32, p: nat)
      requires Filled()
      ensures p == Lead(addr, |buf|) && (p < |buf| ==> (addr + p) % 4 == 0)
      ensures crc == Register(crc0, buf[..p])
    {
      hide Steps, Xor, Low, Shift8, Widen, Register, BitsIn, Word, FourTimes, Lead;
      crc, p := crc0, 0;
      RegisterStart(crc0);
      LeadEnds(addr, |buf|, 0);
      if addr % 4 != 0 && |buf| > 0 {
        crc := OneByte(crc0, crc, buf, p);
        p := p + 1;
        while p < |buf| && (addr + p) % 4 != 0
          invariant p <= Lead(addr, |buf|) && crc == Register(crc0, buf[..p])
        {
          LeadEnds(addr, |buf|, p);
          crc := OneByte(crc0, crc, buf, p);
          p := p + 1;
        }
        LeadEnds(addr, |buf|, p);
      }
    }

    /** crc32: the complement before and after. */
    method Crc32(crc: bv32, buf: seq<bv8>, addr: nat) returns (r: bv32)
      requires Valid()
      modifies this`empty, table
      ensures Valid() && r == Crc(crc, buf)
    {
      hide Register, Flip;
      var c, _ := NoComp(Flip(crc), buf, addr);
      r := Flip(c);
    }

    /** The body of the word loop; it loads a word at `addr + p`. */
    method OneWord(ghost crc0: bv32, crc: bv32, buf: seq<bv8>, ghost addr: nat, p: nat) returns (r: bv32)
      requires Filled() && p + 4 <= |buf| && crc == Register(crc0, buf[..p])
      requires (addr + p) % 4 == 0
      ensures r == Register(crc0, buf[..p + 4])
    {
      hide Steps, Xor, Widen, Register, BitsIn, Word, Filled;
      var w := Word(buf[p], buf[p + 1], buf[p + 2], buf[p + 3]);
      r := Xor(crc, w);
      ZeroByte(r);
      r := DoCrc(r, 0);
      ZeroByte(r);
      r := DoCrc(r, 0);
      ZeroByte(r);
      r := DoCrc(r, 0);
      ZeroByte(r);
      r := DoCrc(r, 0);
      ghost var four := [buf[p], buf[p + 1], buf[p + 2], buf[p + 3]];
      WordAsBytes(crc, buf[p], buf[p + 1], buf[p + 2], buf[p + 3]);
      RegisterAppend(crc0, buf[..p], four);
      assert buf[..p] + four == buf[..p + 4];
    }

    lemma ZeroByte(c: bv32)
      ensures Xor(c, Widen(0)) == c
    {
    }

    method OneByte(ghost crc0: bv32, crc: bv32, buf: seq<bv8>, p: nat) returns (r: bv32)
      requires Filled() && p < |buf| && crc == Register(crc0, buf[..p])
      ensures r == Register(crc0, buf[..p + 1])
    {
      hide Steps, Xor, Widen, Register, BitsIn;
      r := DoCrc(crc, buf[p]);
      ByteAsSteps(crc, buf[p]);
      RegisterNext(crc0, buf[..p], buf[p]);
      assert buf[..p] + [buf[p]] == buf[..p + 1];
    }
  }
}

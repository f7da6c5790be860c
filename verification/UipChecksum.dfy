/** 32-bit sequence number addition and the Internet checksum (src/net/uip.c:202-301;
    section 3.9 of RFC 793, RFC 1071). */
module UipChecksum {
  import opened Common

  // ----- uip_add32 -----

  type Word32 = s: Bytes | |s| == 4 witness [0, 0, 0, 0]

  /** Four bytes in network order. */
  function Value32(w: Word32): nat {
    w[0] as nat * 0x100_0000 + w[1] as nat * 0x1_0000 + w[2] as nat * 0x100 + w[3] as nat
  }

  // Addition of uint8_t values.
  function Add8(a: Byte, b: Byte): Byte {
    ((a as int + b as int) % 0x100) as Byte
  }

  /** Increments the two upper bytes; c is what leaves the word. */
  method CarryUp(a1: Byte, a0: Byte) returns (b1: Byte, b0: Byte, ghost c: nat)
    ensures c <= 1 && 0x100 * b0 as int + b1 as int + 0x1_0000 * c == 0x100 * a0 as int + a1 as int + 1
  {
    b1, b0, c := Add8(a1, 1), a0, 0;
    if b1 == 0 {
      b0 := Add8(b0, 1);
      c := if b0 == 0 then 1 else 0;
    }
  }

  lemma Add8Carry(a: Byte, b: Byte)
    ensures Add8(a, b) as int + (if Add8(a, b) < b then 0x100 else 0) == a as int + b as int
  {
  }

  lemma Mod32Unique(x: nat, q: nat, r: nat)
    requires x == 0x1_0000_0000 * q + r && r < 0x1_0000_0000
    ensures x % 0x1_0000_0000 == r
  {
  }

  // The value of four bytes by halves, to keep the arithmetic of the carries small.
  lemma Halves(w: Word32)
    ensures Value32(w) == 0x1_0000 * (0x100 * w[0] as int + w[1] as int) + (0x100 * w[2] as int + w[3] as int)
    ensures Value32(w) < 0x1_0000_0000
  {
  }

  /** uip_add32, byte by byte with its carries. */
  method UipAdd32(op32: Word32, op16: nat) returns (acc: Word32)
    requires op16 < 0x1_0000
    ensures Value32(acc) == (Value32(op32) + op16) % 0x1_0000_0000
  {
    hide Value32, Add8;
    var lo, hi := (op16 % 0x100) as Byte, (op16 / 0x100) as Byte;
    var a3, a2, a1, a0 := Add8(op32[3], lo), Add8(op32[2], hi), op32[1], op32[0];
    Add8Carry(op32[3], lo);
    Add8Carry(op32[2], hi);
    ghost var c, d := 0, 0;
    if a2 < hi {
      a1, a0, c := CarryUp(a1, a0);
    }
    if a3 < lo {
      Add8Carry(a2, 1);
      a2 := Add8(a2, 1);
      if a2 == 0 {
        a1, a0, d := CarryUp(a1, a0);
      }
    }
    acc := [a0, a1, a2, a3];
    Halves(op32);
    Halves(acc);
    Mod32Unique(Value32(op32) + op16, c + d, Value32(acc));
  }

  // ----- chksum -----

  /** The sum of the 16-bit big-endian words, an odd last byte counting as a high byte. */
  function WordSum(d: Bytes): nat {
    if d == [] then 0
    else if |d| == 1 then d[0] as nat * 0x100
    else d[0] as nat * 0x100 + d[1] as nat + WordSum(d[2..])
  }

  /** The one's-complement residue of n: 0 for 0, otherwise the number from 1 to 0xffff that is
      congruent to n modulo 0xffff. */
  function Residue(n: nat): nat {
    if n == 0 then 0 else (n - 1) % 0xffff + 1
  }

  // One addition with end-around carry, on uint16_t values.
  function AddCarry(sum: nat, t: nat): nat {
    var s := (sum + t) % 0x1_0000;
    if s < t then (s + 1) % 0x1_0000 else s
  }

  lemma ResidueUnique(n: nat, q: nat, r: nat)
    requires n == 0xffff * q + r && 0 < r <= 0xffff
    ensures Residue(n) == r
  {
  }

  lemma ResidueStep(n: nat, t: nat)
    requires t < 0x1_0000
    ensures AddCarry(Residue(n), t) == Residue(n + t)
  {
    var r := Residue(n);
    if n == 0 {
      assert Residue(t) == t;
    } else {
      var q := (n - 1) / 0xffff;
      assert n == 0xffff * q + r;
      if r + t <= 0xffff {
        ResidueUnique(n + t, q, r + t);
      } else {
        ResidueUnique(n + t, q + 1, r + t - 0xffff);
      }
    }
  }

  lemma StartSum(sum: nat)
    requires sum < 0x1_0000
    ensures Residue(sum + WordSum([])) == sum
  {
  }

  /** One more word. */
  lemma WordSumNext(d: Bytes, i: nat)
    requires i % 2 == 0 && i + 1 < |d|
    ensures WordSum(d[..i + 2]) == WordSum(d[..i]) + (d[i] as nat * 0x100 + d[i + 1] as nat)
  {
    var w := d[i..i + 2];
    WordSumSplit(d[..i], w);
    assert d[..i + 2] == d[..i] + w;
    assert w[2..] == [];
    assert WordSum([]) == 0;
    assert WordSum(w) == w[0] as nat * 0x100 + w[1] as nat;
  }

  /** The odd last byte. */
  lemma WordSumLast(d: Bytes)
    requires |d| % 2 == 1
    ensures var n := |d| - 1; WordSum(d) == WordSum(d[..n]) + d[n] as nat * 0x100
  {
    var n := |d| - 1;
    WordSumSplit(d[..n], [d[n]]);
    assert d == d[..n] + [d[n]];
  }

  /** chksum: exactly the residue of the sum so far and the words of the data. */
  method Chksum(sum: nat, data: Bytes) returns (r: nat)
    requires sum < 0x1_0000
    ensures r == Residue(sum + WordSum(data))
  {
    hide Residue, AddCarry, WordSum;
    StartSum(sum);
    r := sum;
    var i := 0;
    while i + 1 < |data|
      invariant 0 <= i <= |data| && i % 2 == 0
      invariant r == Residue(sum + WordSum(data[..i]))
    {
      var t := data[i] as nat * 0x100 + data[i + 1] as nat;
      WordSumNext(data, i);
      ResidueStep(sum + WordSum(data[..i]), t);
      r := AddCarry(r, t);
      i := i + 2;
    }
    if i == |data| - 1 {
      var t := data[i] as nat * 0x100;
      WordSumLast(data);
      ResidueStep(sum + WordSum(data[..i]), t);
      r := AddCarry(r, t);
    } else {
      assert data[..i] == data;
    }
  }

  /** A sum may be continued where an earlier one stopped. */
  lemma ResidueChain(n: nat, m: nat)
    ensures Residue(Residue(n) + m) == Residue(n + m)
  {
    if n > 0 {
      var q := (n - 1) / 0xffff;
      var k := (Residue(n) + m - 1) / 0xffff;
      assert n == 0xffff * q + Residue(n);
      ResidueUnique(n + m, q + k, Residue(Residue(n) + m));
    }
  }

  /** The sum may be cut at any even offset, as upper_layer_chksum does. */
  lemma {:induction false} WordSumSplit(a: Bytes, b: Bytes)
    requires |a| % 2 == 0
    ensures WordSum(a + b) == WordSum(a) + WordSum(b)
    decreases a
  {
    if a == [] {
      assert a + b == b;
    } else {
      assert (a + b)[2..] == a[2..] + b && (a + b)[0] == a[0] && (a + b)[1] == a[1];
      WordSumSplit(a[2..], b);
    }
  }

  /** Zero means that every byte was zero. */
  lemma {:induction false} WordSumZero(d: Bytes)
    ensures WordSum(d) == 0 <==> forall i :: 0 <= i < |d| ==> d[i] == 0
    decreases d
  {
    if |d| >= 2 {
      WordSumZero(d[2..]);
      if WordSum(d) == 0 {
        forall i | 0 <= i < |d| ensures d[i] == 0 {
          if i >= 2 {
            assert d[i] == d[2..][i - 2];
          }
        }
      }
    } else if |d| == 1 {
      assert d[0] == 0 <==> WordSum(d) == 0;
    }
  }

  lemma ResidueMeaning(n: nat)
    ensures Residue(n) <= 0xffff && (Residue(n) - n) % 0xffff == 0
    ensures Residue(n) == 0 <==> n == 0
  {
    if n > 0 {
      var q := (n - 1) / 0xffff;
      assert n == 0xffff * q + Residue(n);
      assert Residue(n) - n == 0xffff * (-q);
    }
  }

  // ----- the checksum functions and the check of the receiver -----

  /** uip_ipchksum and upper_layer_chksum never report 0. */
  function Reported(sum: nat): nat {
    if sum == 0 then 0xffff else sum
  }

  method UipIpChksum(header: Bytes) returns (r: nat)
    ensures r == Reported(Residue(WordSum(header)))
  {
    var sum := Chksum(0, header);
    r := Reported(sum);
  }

  /** The pseudo header contributes protocol and length, then the addresses. */
  method UpperLayerChksum(proto: nat, addresses: Bytes, segment: Bytes) returns (r: nat)
    requires |addresses| == 8 && proto + |segment| < 0x1_0000
    ensures r == Reported(Residue(proto + |segment| + WordSum(addresses + segment)))
  {
    var sum := |segment| + proto;
    sum := Chksum(sum, addresses);
    ResidueMeaning(proto + |segment| + WordSum(addresses));
    sum := Chksum(sum, segment);
    ResidueChain(proto + |segment| + WordSum(addresses), WordSum(segment));
    WordSumSplit(addresses, segment);
    r := Reported(sum);
  }

  /** ~sum in network order, as stored into a checksum field. */
  function Complement(sum: nat): Bytes
    requires sum <= 0xffff
  {
    [((0xffff - sum) / 0x100) as Byte, ((0xffff - sum) % 0x100) as Byte]
  }

  function WithField(d: Bytes, off: nat, field: Bytes): Bytes
    requires off + 2 <= |d| && |field| == 2
  {
    d[..off] + field + d[off + 2..]
  }

  lemma FieldSum(d: Bytes, off: nat, field: Bytes)
    requires off % 2 == 0 && off + 2 <= |d| && |field| == 2
    ensures WordSum(WithField(d, off, field)) + WordSum(d[off..off + 2]) == WordSum(d) + WordSum(field)
  {
    var a, f, b := d[..off], d[off..off + 2], d[off + 2..];
    assert d == a + (f + b) && WithField(d, off, field) == a + (field + b);
    WordSumSplit(a, f + b);
    WordSumSplit(f, b);
    WordSumSplit(a, field + b);
    WordSumSplit(field, b);
  }

  lemma ComplementSum(s: nat)
    requires s <= 0xffff
    ensures WordSum(Complement(s)) == 0xffff - s
  {
    assert Complement(s)[2..] == [];
  }

  /** A packet whose checksum field, zero before, was set to ~sum passes the receiver's test
      for 0xffff: for any contents of any length, whatever the other terms (`extra`, the
      pseudo header) and wherever the field lies at an even offset. */
  lemma EmittedPasses(extra: nat, d: Bytes, off: nat)
    requires off % 2 == 0 && off + 2 <= |d| && d[off] == 0 && d[off + 1] == 0
    ensures var field := Complement(Reported(Residue(extra + WordSum(d))));
      Reported(Residue(extra + WordSum(WithField(d, off, field)))) == 0xffff
  {
    var n := extra + WordSum(d);
    var s := Reported(Residue(n));
    var field := Complement(s);
    FieldSum(d, off, field);
    ComplementSum(s);
    assert d[off..off + 2] == [0, 0];
    assert WordSum(d[off..off + 2]) == 0;
    assert extra + WordSum(WithField(d, off, field)) == n + (0xffff - s);
    if n > 0 {
      var q := (n - 1) / 0xffff;
      assert n == 0xffff * q + s;
      ResidueUnique(n + (0xffff - s), q, 0xffff);
    }
  }

  /** And a received packet passes exactly when its words add up to 0 modulo 0xffff. */
  lemma AcceptedIff(extra: nat, d: Bytes)
    ensures Reported(Residue(extra + WordSum(d))) == 0xffff <==> (extra + WordSum(d)) % 0xffff == 0
  {
    var n := extra + WordSum(d);
    if n > 0 {
      var q := (n - 1) / 0xffff;
      assert n == 0xffff * q + Residue(n);
    }
  }
}

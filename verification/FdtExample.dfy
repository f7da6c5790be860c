/** One small tree, byte by byte (src/base/device_tree.h; chapter 5 of the Devicetree
    Specification). */
module FdtExample {
  import opened Common
  import opened FdtFormat
  import opened FdtRead
  import opened FdtWrite

  /** The root has one property, "a" with the bytes 1 and 2; there are no reserved ranges. */
  function SmallTree(header: Bytes): DeviceTree {
    DeviceTree(header, 0, [], Node([], 0, [Property([97], [1, 2])], []))
  }

  /** The four bytes of a 32-bit number below 256. */
  predicate Small(b: Bytes, off: nat, v: Byte) {
    off + 4 <= |b| && b[off] == 0 && b[off + 1] == 0 && b[off + 2] == 0 && b[off + 3] == v
  }

  lemma WordBytes(b: Bytes, off: nat)
    requires off + 4 <= |b|
    ensures U32(b, off) == ((b[off] as nat * 0x100 + b[off + 1] as nat) * 0x100 + b[off + 2] as nat) * 0x100
                           + b[off + 3] as nat
  {
    var w := b[off..off + 4];
    assert BigEndian(w[..1]) == w[0] as nat by { assert w[..1][..0] == []; }
    assert w[..2][..1] == w[..1] && w[..3][..2] == w[..2] && w[..4] == w;
    assert BigEndian(w[..2]) == BigEndian(w[..1]) * 0x100 + w[1] as nat;
    assert BigEndian(w[..3]) == BigEndian(w[..2]) * 0x100 + w[2] as nat;
    assert BigEndian(w) == BigEndian(w[..3]) * 0x100 + w[3] as nat;
  }

  lemma SmallWord(b: Bytes, off: nat, v: Byte)
    ensures Has32(b, off, v as nat) <==> Small(b, off, v)
  {
    if off + 4 <= |b| {
      WordBytes(b, off);
    }
  }

  /** What stands in the blob, from the first byte that dt_flatten writes to the last; the bytes at
      61 to 63 and 78 to 79 are padding. */
  predicate SmallBlob(b: Bytes) {
    && |b| >= 90
    && Small(b, 4, 90) && Small(b, 8, 56) && Small(b, 12, 88) && Small(b, 32, 2) && Small(b, 36, 28)
    && (forall i :: 40 <= i < 56 ==> b[i] == 0)
    && Small(b, 56, 1) && b[60] == 0
    && Small(b, 64, 3) && Small(b, 68, 2) && Small(b, 72, 0) && b[76] == 1 && b[77] == 2
    && Small(b, 80, 2) && Small(b, 84, 9)
    && b[88] == 97 && b[89] == 0
  }

  lemma SmallSizes(header: Bytes)
    ensures var t := SmallTree(header); var p := t.root.properties[0];
      && PropStruct(p) == 16 && PropStrings(p) == 2 && NodeStruct(t.root) == 28 && NodeStrings(t.root) == 2
      && FlatSize(t) == |header| + 50
  {
    var t := SmallTree(header);
    assert t.root.properties[1..] == [];
    assert PropsStruct(t.root.properties) == 16 && PropsStrings(t.root.properties) == 2;
    assert KidsStruct(t.root.children) == 0 && KidsStrings(t.root.children) == 0;
  }

  /** dt_flatten puts exactly these bytes there. */
  lemma SmallTreeBytes(b: Bytes, header: Bytes)
    requires |header| == 40
    ensures TreeAt(b, SmallTree(header)) ==> SmallBlob(b)
  {
    hide BigEndian, U32, Has32, PropStruct, PropStrings, NodeStruct, NodeStrings, FlatSize;
    var t := SmallTree(header);
    SmallSizes(header);
    if TreeAt(b, t) {
      SmallWord(b, 4, 90);
      SmallWord(b, 8, 56);
      SmallWord(b, 12, 88);
      SmallWord(b, 32, 2);
      SmallWord(b, 36, 28);
      SmallMap(b);
      SmallNode(b, t.root);
      SmallWord(b, 84, 9);
    }
  }

  lemma SmallMap(b: Bytes)
    requires MapAt(b, 40, [])
    ensures forall i :: 40 <= i < 56 ==> b[i] == 0
  {
    hide BigEndian;
    ZeroBytes(b[40..48]);
    ZeroBytes(b[48..56]);
    forall i | 40 <= i < 56 ensures b[i] == 0 {
      if i < 48 {
        assert b[i] == b[40..48][i - 40];
      } else {
        assert b[i] == b[48..56][i - 48];
      }
    }
  }

  lemma {:induction false} ZeroBytes(s: Bytes)
    requires BigEndian(s) == 0
    ensures forall i :: 0 <= i < |s| ==> s[i] == 0
    decreases s
  {
    if s != [] {
      ZeroBytes(s[..|s| - 1]);
    }
  }

  lemma SmallNode(b: Bytes, n: Node)
    requires n == SmallTree([]).root && NodeAt(b, 56, 88, 0, n) && |b| >= 90
    ensures Small(b, 56, 1) && b[60] == 0
    ensures Small(b, 64, 3) && Small(b, 68, 2) && Small(b, 72, 0) && b[76] == 1 && b[77] == 2
    ensures Small(b, 80, 2) && b[88] == 97 && b[89] == 0
  {
    hide BigEndian, U32, Has32;
    SmallSizes([]);
    var p := n.properties[0];
    assert n.properties[1..] == [];
    assert PropsStruct(n.properties) == 16 && KidsStruct(n.children) == 0;
    assert PropertyAt(b, 64, 88, 0, p);
    SmallWord(b, 56, 1);
    SmallWord(b, 64, 3);
    SmallWord(b, 68, 2);
    SmallWord(b, 72, 0);
    SmallWord(b, 80, 2);
    assert b[60..61] == [0] && b[60] == b[60..61][0];
    assert b[76..78] == [1, 2] && b[76] == b[76..78][0] && b[77] == b[76..78][1];
    assert [97] + [0] == [97, 0];
    assert b[88..90] == [97, 0] && b[88] == b[88..90][0] && b[89] == b[88..90][1];
  }

  /** A blob is refused exactly for its first four bytes or the version it is compatible with. */
  lemma MagicBytes(b: Bytes)
    ensures Unflatten(b).Rejected?
       <==> |b| >= 40 && (b[..4] != [0xd0, 0x0d, 0xfe, 0xed] || U32(b, 24) > 17)
  {
    hide BigEndian, U32, UnflattenNode, ReadMap;
    if |b| >= 40 {
      WordBytes(b, 0);
      assert b[..4] == [b[0], b[1], b[2], b[3]];
      MagicWord(b[0] as nat, b[1] as nat, b[2] as nat, b[3] as nat);
    }
  }

  lemma MagicWord(b0: nat, b1: nat, b2: nat, b3: nat)
    requires b0 < 0x100 && b1 < 0x100 && b2 < 0x100 && b3 < 0x100
    ensures ((b0 * 0x100 + b1) * 0x100 + b2) * 0x100 + b3 == 0xd00dfeed
       <==> b0 == 0xd0 && b1 == 0x0d && b2 == 0xfe && b3 == 0xed
  {
  }
}

/** The TFTP client: the packet callback and the polling loop (src/netboot/tftp.c). */
module Tftp {
  import opened Common

  const DATA: Byte := 3
  const ACK: Byte := 4
  const ERROR: Byte := 5
  const MAX_BLOCK := 512

  datatype Status = Pending | Success | Failure

  /** A 16-bit big-endian field. */
  function Word16(hi: Byte, lo: Byte): nat {
    hi as nat * 256 + lo as nat
  }

  // The low 16 bits of an int, in network order.
  function Bytes16(n: int): (r: seq<Byte>)
    ensures |r| == 2 && Word16(r[0], r[1]) == n % 65536
  {
    var w := n % 65536;
    [(w / 256) as Byte, (w % 256) as Byte]
  }

  function DataPacket(block: int, payload: seq<Byte>): seq<Byte> {
    [0, DATA] + Bytes16(block) + payload
  }

  function AckPacket(block: int): seq<Byte> {
    [0, ACK] + Bytes16(block)
  }

  // Subtraction of two uint32_t values.
  function Sub32(a: nat, b: nat): int {
    if b <= a then a - b else a - b + 0x1_0000_0000
  }

  lemma Sub32Exact(a: nat, b: nat)
    requires b <= a < 0x1_0000_0000
    ensures Sub32(a, b) == a - b
  {
  }

  /** The static variables, with `data` for the bytes between dest and tftp_dest, and the
      remote port of the connection (0: not bound yet). */
  datatype State = State(status: Status, data: seq<Byte>, gotResponse: bool, blocknum: int,
                         totalSize: nat, maxSize: nat, rport: nat)

  /** Which packets the UDP layer hands to the callback, and the port it then binds. */
  predicate Accepts(s: State, srcport: nat) {
    s.rport == 0 || s.rport == srcport
  }

  /** tftp_callback: the new state, and the reply if there is one. */
  function OnPacket(s: State, p: seq<Byte>, srcport: nat): (State, seq<seq<Byte>>) {
    if |p| < 2 then (s, [])
    else
      var b := if s.rport == 0 then s.(rport := srcport) else s;
      var opcode := Word16(p[0], p[1]);
      if opcode == ERROR as nat then (b.(status := Failure), [])
      else if opcode != DATA as nat || |p| < 4 then (b, [])
      else if Word16(p[2], p[3]) != b.blocknum % 65536 then (b, [])
      else if |p| - 4 > MAX_BLOCK then (b, [])
      else if |p| - 4 > Sub32(b.maxSize, b.totalSize) then (b.(status := Failure), [])
      else
        TakeBlock(b, p[4..])
  }

  /** A block of at most 512 bytes that fits. */
  function TakeBlock(s: State, block: seq<Byte>): (State, seq<seq<Byte>>) {
    var t := s.(data := s.data + block, totalSize := s.totalSize + |block|);
    if |block| < MAX_BLOCK then (t.(status := Success), [])
    else (t.(blocknum := t.blocknum + 1, gotResponse := true), [AckPacket(t.blocknum)])
  }

  // What one call of net_poll delivers.
  datatype Poll = Nothing | Packet(bytes: seq<Byte>, srcport: nat)

  function OnPoll(s: State, poll: Poll): (State, seq<seq<Byte>>) {
    if poll.Packet? && Accepts(s, poll.srcport) then OnPacket(s, poll.bytes, poll.srcport) else (s, [])
  }

  /** One turn of the loop of tftp_read: poll, and repeat the last packet if nothing came. */
  function Turn(s: State, poll: Poll, readReq: seq<Byte>): (State, seq<seq<Byte>>) {
    var (t, reply) := OnPoll(s.(gotResponse := false), poll);
    if t.gotResponse then (t, reply)
    else if t.blocknum == 1 then (t.(rport := 0), reply + [readReq])
    else (t, reply + [AckPacket(t.blocknum - 1)])
  }

  function Start(maxSize: nat): State {
    State(Pending, [], false, 1, 0, maxSize, 0)
  }

  /** The loop over the polls in order, stopping when the transfer is decided. */
  function Run(s: State, polls: seq<Poll>, readReq: seq<Byte>): (State, seq<seq<Byte>>)
    decreases |polls|
  {
    if s.status != Pending || polls == [] then (s, [])
    else
      var (t, sent) := Turn(s, polls[0], readReq);
      var (u, more) := Run(t, polls[1..], readReq);
      (u, sent + more)
  }

  /** What the client keeps while the transfer is undecided or done: everything written fits,
      all blocks before the current one were full, and the block counter stays far below
      the range of an int. */
  predicate Valid(s: State) {
    && s.maxSize < 0x1_0000_0000 && s.totalSize == |s.data| <= s.maxSize && s.blocknum >= 1
    && (s.status == Pending ==> s.totalSize == MAX_BLOCK * (s.blocknum - 1))
    && MAX_BLOCK * (s.blocknum - 1) <= s.totalSize
    && s.blocknum <= 0x80_0000
  }

  /** Once a port is bound, packets from any other port are not even looked at. */
  lemma StrangersIgnored(s: State, p: seq<Byte>, srcport: nat)
    ensures s.rport != 0 && srcport != s.rport ==> OnPoll(s, Packet(p, srcport)) == (s, [])
    ensures s.rport == 0 || srcport == s.rport ==> OnPoll(s, Packet(p, srcport)) == OnPacket(s, p, srcport)
  {
  }

  /** The packets on the wire (section 5 of RFC 1350), and what each does: 5 is an error, 3 is data
      with its number and at most 512 bytes, everything else does nothing but bind the port. */
  lemma PacketKinds(s: State, p: seq<Byte>, srcport: nat)
    requires Valid(s) && s.status == Pending
    ensures var (t, reply) := OnPacket(s, p, srcport);
      var bound := s.(rport := if s.rport == 0 then srcport else s.rport);
      && (|p| < 2 ==> t == s && reply == [])
      && (|p| >= 2 && p[0] == 0 && p[1] == 5 ==> t == bound.(status := Failure) && reply == [])
      && (|p| >= 2 && !(p[0] == 0 && (p[1] == 3 || p[1] == 5)) ==> t == bound && reply == [])
      && (2 <= |p| < 4 && p[0] == 0 && p[1] == 3 ==> t == bound && reply == [])
      && (|p| > 516 && p[0] == 0 && p[1] == 3 ==> t == bound && reply == [])
      && (4 <= |p| <= 516 && p[0] == 0 && p[1] == 3 ==>
            var awaited := p[2] as nat * 256 + p[3] as nat == s.blocknum % 65536;
            var size := s.totalSize + (|p| - 4);
            && (!awaited ==> t == bound && reply == [])
            && (awaited && size > s.maxSize ==> t == bound.(status := Failure) && reply == [])
            && (awaited && size <= s.maxSize ==>
                  && t.data == s.data + p[4..] && t.totalSize == size && t.rport == bound.rport
                  && (|p| < 516 ==> t.status == Success && t.blocknum == s.blocknum && reply == [])
                  && (|p| == 516 ==> t.status == Pending && t.blocknum == s.blocknum + 1 && t.gotResponse)
                  && (|p| == 516 ==> reply == [[0, 4] + Bytes16(s.blocknum)])))
  {
    Sub32Exact(s.maxSize, s.totalSize);
  }

  lemma TakeBlockValid(s: State, block: seq<Byte>)
    requires Valid(s) && s.status == Pending && |block| <= MAX_BLOCK && |block| <= s.maxSize - s.totalSize
    ensures Valid(TakeBlock(s, block).0)
    ensures s.data <= TakeBlock(s, block).0.data
  {
  }

  lemma OnPacketValid(s: State, p: seq<Byte>, srcport: nat)
    requires Valid(s) && s.status == Pending
    ensures Valid(OnPacket(s, p, srcport).0)
    ensures s.data <= OnPacket(s, p, srcport).0.data
  {
    Sub32Exact(s.maxSize, s.totalSize);
    var b := if s.rport == 0 then s.(rport := srcport) else s;
    if 4 <= |p| && |p| - 4 <= MAX_BLOCK && |p| - 4 <= s.maxSize - s.totalSize {
      TakeBlockValid(b, p[4..]);
    }
  }

  lemma TurnValid(s: State, poll: Poll, readReq: seq<Byte>)
    requires Valid(s) && s.status == Pending
    ensures Valid(Turn(s, poll, readReq).0)
    ensures s.data <= Turn(s, poll, readReq).0.data
  {
    if poll.Packet? {
      OnPacketValid(s.(gotResponse := false), poll.bytes, poll.srcport);
    }
  }

  /** A turn keeps Valid, and clearing gotResponse does not touch it. */
  lemma ValidBounds(s: State, poll: Poll, readReq: seq<Byte>)
    requires Valid(s) && s.status == Pending
    ensures Valid(Turn(s, poll, readReq).0) && Valid(s.(gotResponse := false))
  {
    TurnValid(s, poll, readReq);
  }

  lemma {:induction false} RunValid(s: State, polls: seq<Poll>, readReq: seq<Byte>)
    requires Valid(s)
    ensures Valid(Run(s, polls, readReq).0)
    decreases |polls|
  {
    if s.status == Pending && polls != [] {
      TurnValid(s, polls[0], readReq);
      RunValid(Turn(s, polls[0], readReq).0, polls[1..], readReq);
    }
  }

  /** The client itself, with the caller's buffer. */
  class Client {
    const dest: array<Byte>
    const maxSize: nat
    const readReq: seq<Byte>
    var status: Status
    var destPos: nat
    var gotResponse: bool
    var blocknum: int
    var totalSize: nat
    var rport: nat
    var sent: seq<seq<Byte>>

    ghost predicate Sane()
      reads this, dest
    {
      destPos == totalSize && totalSize <= dest.Length && maxSize <= dest.Length && Valid(Abstract())
    }

    ghost function Abstract(): State
      reads this, dest
      requires destPos <= dest.Length
    {
      State(status, dest[..destPos], gotResponse, blocknum, totalSize, maxSize, rport)
    }

    constructor (dest: array<Byte>, maxSize: nat, readReq: seq<Byte>)
      requires maxSize <= dest.Length && maxSize < 0x1_0000_0000
      ensures Sane() && Abstract() == Start(maxSize)
      ensures this.dest == dest && this.maxSize == maxSize && this.readReq == readReq && sent == [readReq]
    {
      this.dest, this.maxSize, this.readReq := dest, maxSize, readReq;
      status, destPos, gotResponse, blocknum, totalSize, rport := Pending, 0, false, 1, 0, 0;
      sent := [readReq];
    }

    method Callback(p: seq<Byte>, srcport: nat)
      requires Sane() && status == Pending
      modifies this, dest
      ensures Sane() && Abstract() == OnPacket(old(Abstract()), p, srcport).0
      ensures sent == old(sent) + OnPacket(old(Abstract()), p, srcport).1
      ensures dest[destPos..] == old(dest[..])[destPos..]
    {
      hide TakeBlock, Sub32;
      OnPacketValid(Abstract(), p, srcport);
      assert sent + [] == sent;
      if |p| < 2 {
        return;
      }
      if rport == 0 {
        rport := srcport;
      }
      var opcode := Word16(p[0], p[1]);
      if opcode == ERROR as nat {
        status := Failure;
        return;
      }
      if opcode != DATA as nat || |p| < 4 {
        return;
      }
      var block := Word16(p[2], p[3]);
      if block != blocknum % 65536 {
        return;
      }
      if |p| - 4 > MAX_BLOCK {
        return;
      }
      Sub32Exact(maxSize, totalSize);
      if |p| - 4 > Sub32(maxSize, totalSize) {
        status := Failure;
        return;
      }
      StoreBlock(p[4..]);
    }

    method StoreBlock(block: seq<Byte>)
      requires destPos == totalSize && totalSize + |block| <= maxSize <= dest.Length
      modifies this, dest
      ensures destPos == totalSize <= dest.Length
      ensures Abstract() == TakeBlock(old(Abstract()), block).0
      ensures sent == old(sent) + TakeBlock(old(Abstract()), block).1
      ensures dest[destPos..] == old(dest[..])[destPos..]
    {
      ghost var before := dest[..destPos];
      forall i | 0 <= i < |block| {
        dest[destPos + i] := block[i];
      }
      destPos := destPos + |block|;
      assert dest[..destPos] == before + block;
      totalSize := totalSize + |block|;
      if |block| < MAX_BLOCK {
        status := Success;
        assert sent + [] == sent;
        return;
      }
      sent := sent + [AckPacket(blocknum)];
      blocknum := blocknum + 1;
      gotResponse := true;
    }

    /** The body of the loop of tftp_read. */
    method PollOnce(poll: Poll)
      requires Sane() && status == Pending
      modifies this, dest
      ensures Sane() && Abstract() == Turn(old(Abstract()), poll, readReq).0
      ensures sent == old(sent) + Turn(old(Abstract()), poll, readReq).1
    {
      hide OnPacket, Valid;
      ValidBounds(Abstract(), poll, readReq);
      gotResponse := false;
      assert sent + [] == sent;
      if poll.Packet? && (rport == 0 || rport == poll.srcport) {
        Callback(poll.bytes, poll.srcport);
      }
      if !gotResponse {
        if blocknum == 1 {
          sent := sent + [readReq];
          rport := 0;
        } else {
          sent := sent + [AckPacket(blocknum - 1)];
        }
      }
    }

    /** The loop of tftp_read over what the network delivers, poll by poll. */
    method Read(polls: seq<Poll>) returns (decided: bool)
      requires Sane() && status == Pending
      modifies this, dest
      ensures Sane() && Abstract() == Run(old(Abstract()), polls, readReq).0
      ensures sent == old(sent) + Run(old(Abstract()), polls, readReq).1
      ensures decided <==> status != Pending
    {
      ghost var s0 := Abstract();
      var i := 0;
      while status == Pending && i < |polls|
        invariant 0 <= i <= |polls| && Sane()
        invariant Run(s0, polls, readReq).0 == Run(Abstract(), polls[i..], readReq).0
        invariant old(sent) + Run(s0, polls, readReq).1 == sent + Run(Abstract(), polls[i..], readReq).1
        decreases |polls| - i
      {
        assert polls[i..][0] == polls[i] && polls[i..][1..] == polls[i + 1..];
        ghost var turn := Turn(Abstract(), polls[i], readReq);
        ghost var more := Run(turn.0, polls[i + 1..], readReq).1;
        assert sent + (turn.1 + more) == (sent + turn.1) + more;
        PollOnce(polls[i]);
        i := i + 1;
      }
      assert sent + [] == sent;
      decided := status != Pending;
    }
  }
}

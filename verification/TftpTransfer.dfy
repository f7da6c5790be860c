/** A whole transfer: the client of src/netboot/tftp.c, a lock-step server (sections 2, 5 and
    6 of RFC 1350) and a network that drops, duplicates and reorders packets. */
module TftpTransfer {
  import opened Common
  import opened Tftp

  /** The n-th block of a file, counting from 1.  The last block is shorter than 512 bytes. */
  function Block(file: seq<Byte>, n: nat): seq<Byte>
    requires 1 <= n <= Blocks(file)
  {
    file[MAX_BLOCK * (n - 1)..if MAX_BLOCK * n <= |file| then MAX_BLOCK * n else |file|]
  }

  function Blocks(file: seq<Byte>): nat {
    |file| / MAX_BLOCK + 1
  }

  /** served: the last block the server has sent, 0 before the request reaches it.  errorTaken and
      tooLarge: an error packet, or an awaited block without room for it, has been let through to the
      waiting client. */
  datatype System = System(client: State, served: nat, sent: seq<seq<Byte>>, errorTaken: bool, tooLarge: bool)

  // What does not change during a transfer.
  datatype Setting = Setting(file: seq<Byte>, tid: nat, readReq: seq<Byte>)

  datatype Event =
    | RequestArrives            // at the server
    | AckArrives(ack: nat)      // at the server
    | DataArrives(n: nat)       // block n, at the client
    | ErrorArrives(bytes: seq<Byte>, port: nat)
    | JunkArrives(bytes: seq<Byte>, port: nat)
    | NothingArrives            // a poll without a packet

  predicate IsError(p: seq<Byte>) {
    |p| >= 2 && Word16(p[0], p[1]) == ERROR as nat
  }

  predicate IsData(p: seq<Byte>) {
    |p| >= 4 && Word16(p[0], p[1]) == DATA as nat
  }

  /** A packet may arrive, any number of times, once it has been sent, unless 65536 or more
      blocks have been exchanged since.  Nobody but the server sends data packets. */
  predicate Possible(c: Setting, s: System, e: Event) {
    match e
    case RequestArrives => true
    case AckArrives(a) => 1 <= a < s.client.blocknum && s.served - a < 65536
    case DataArrives(n) => s.client.status == Pending && 1 <= n <= s.served && n <= Blocks(c.file)
                           && s.client.blocknum - n < 65536
    case ErrorArrives(p, _) => s.client.status == Pending && IsError(p)
    case JunkArrives(p, _) => s.client.status == Pending && !IsError(p) && !IsData(p)
    case NothingArrives => s.client.status == Pending
  }

  /** Block n is let through, has the awaited number, and does not fit. */
  predicate NoRoom(c: Setting, s: System, n: nat)
    requires 1 <= n <= Blocks(c.file)
  {
    && Accepts(s.client, c.tid) && n % 65536 == s.client.blocknum % 65536
    && s.client.totalSize + |Block(c.file, n)| > s.client.maxSize
  }

  function ClientTurn(c: Setting, s: System, poll: Poll): System {
    var (t, out) := Turn(s.client, poll, c.readReq);
    s.(client := t, sent := s.sent + out)
  }

  /** The server sends block n + 1 when the acknowledgement of its last block n arrives. */
  function Next(c: Setting, s: System, e: Event): System
    requires Possible(c, s, e)
  {
    match e
    case RequestArrives => if s.served == 0 then s.(served := 1) else s
    case AckArrives(a) =>
      // AckPacketNumber: a % 65536 is what the server reads in the packet.
      if a % 65536 == s.served % 65536 && s.served < Blocks(c.file)
      then s.(served := s.served + 1) else s
    case DataArrives(n) =>
      ClientTurn(c, s, Packet(DataPacket(n, Block(c.file, n)), c.tid)).(tooLarge := s.tooLarge || NoRoom(c, s, n))
    case ErrorArrives(p, port) =>
      ClientTurn(c, s, Packet(p, port)).(errorTaken := s.errorTaken || Accepts(s.client, port))
    case JunkArrives(p, port) => ClientTurn(c, s, Packet(p, port))
    case NothingArrives => ClientTurn(c, s, Nothing)
  }

  predicate PossibleRun(c: Setting, s: System, events: seq<Event>)
    decreases |events|
  {
    events != [] ==> Possible(c, s, events[0]) && PossibleRun(c, Next(c, s, events[0]), events[1..])
  }

  function After(c: Setting, s: System, events: seq<Event>): System
    requires PossibleRun(c, s, events)
    decreases |events|
  {
    if events == [] then s else After(c, Next(c, s, events[0]), events[1..])
  }

  function Initial(c: Setting, maxSize: nat): System {
    System(Start(maxSize), 0, [c.readReq], false, false)
  }

  // ----- what every run keeps -----

  /** The client holds exactly the blocks it has acknowledged, and the server is at most one
      block ahead. */
  predicate InStep(c: Setting, s: System) {
    && 0 <= MAX_BLOCK * (s.client.blocknum - 1) <= |c.file|
    && s.client.data == c.file[..MAX_BLOCK * (s.client.blocknum - 1)]
    && s.client.rport == if s.client.blocknum == 1 then 0 else c.tid
  }

  predicate Good(c: Setting, s: System) {
    && Valid(s.client) && c.tid != 0
    && s.served <= Blocks(c.file)
    && s.client.blocknum - 1 <= s.served <= s.client.blocknum
    && (s.client.status == Pending ==> InStep(c, s))
    && (s.client.status == Success ==> s.client.data == c.file)
    && (s.client.status == Failure <==> s.errorTaken || s.tooLarge)
    && (s.tooLarge ==> |c.file| > s.client.maxSize)
  }

  /** With at most one block of lead, the 16-bit number identifies the block. */
  lemma Unambiguous(n: int, m: int)
    requires n <= m && m - n < 65536 && n % 65536 == m % 65536
    ensures n == m
  {
  }

  lemma BlockExtends(file: seq<Byte>, n: nat)
    requires 1 <= n <= Blocks(file)
    ensures MAX_BLOCK * (n - 1) <= |file| && |Block(file, n)| <= MAX_BLOCK
    ensures |Block(file, n)| < MAX_BLOCK <==> n == Blocks(file)
    ensures file[..MAX_BLOCK * (n - 1)] + Block(file, n)
         == file[..if n == Blocks(file) then |file| else MAX_BLOCK * n]
  {
  }

  /** p is a data packet with the low 16 bits of n for its number. */
  predicate IsBlock(p: seq<Byte>, n: nat, block: seq<Byte>) {
    && |p| == 4 + |block| && p[4..] == block
    && Word16(p[0], p[1]) == DATA as nat && Word16(p[2], p[3]) == n % 65536
  }

  lemma DataPacketIsBlock(n: nat, block: seq<Byte>)
    ensures IsBlock(DataPacket(n, block), n, block)
  {
    var p := DataPacket(n, block);
    assert p[4..] == block && p[2] == Bytes16(n)[0] && p[3] == Bytes16(n)[1];
  }

  /** What a data packet does, by the number in it and the room that is left. */
  lemma DataEffect(s: State, p: seq<Byte>, n: nat, block: seq<Byte>, port: nat)
    requires Valid(s) && s.status == Pending && |block| <= MAX_BLOCK && IsBlock(p, n, block)
    ensures var b := if s.rport == 0 then s.(rport := port) else s;
      OnPacket(s, p, port)
      == if n % 65536 != s.blocknum % 65536 then (b, [])
         else if |block| > s.maxSize - s.totalSize then (b.(status := Failure), [])
         else TakeBlock(b, block)
  {
    hide TakeBlock, Word16;
    Sub32Exact(s.maxSize, s.totalSize);
  }

  /** The state after a turn, apart from the remote port. */
  lemma TurnEffect(s: State, p: seq<Byte>, port: nat, readReq: seq<Byte>)
    requires Accepts(s, port)
    ensures var o := OnPacket(s.(gotResponse := false), p, port).0;
      Turn(s, Packet(p, port), readReq).0 == if !o.gotResponse && o.blocknum == 1 then o.(rport := 0) else o
  {
  }

  /** The server's block n changes the client exactly when n is the block it waits for. */
  lemma DataTurn(c: Setting, s: System, n: nat)
    requires Good(c, s) && Possible(c, s, DataArrives(n))
    ensures Good(c, Next(c, s, DataArrives(n)))
    ensures Next(c, s, DataArrives(n)).client.maxSize == s.client.maxSize
    ensures n == s.client.blocknum && |c.file| <= s.client.maxSize ==>
              var t := Next(c, s, DataArrives(n)).client;
              if n == Blocks(c.file) then t.status == Success else t.status == Pending && t.blocknum == n + 1
  {
    var k := s.client.(gotResponse := false);
    var p := DataPacket(n, Block(c.file, n));
    BlockExtends(c.file, n);
    DataPacketIsBlock(n, Block(c.file, n));
    DataEffect(k, p, n, Block(c.file, n), c.tid);
    TurnEffect(s.client, p, c.tid, c.readReq);
    TurnValid(s.client, Packet(p, c.tid), c.readReq);
    if n % 65536 == k.blocknum % 65536 {
      Unambiguous(n, k.blocknum);
      TakeBlockFits(c, s, n);
    }
  }

  /** Anything else that arrives leaves data and counters alone; an error packet that is let through
      ends the transfer, and nothing else does. */
  lemma OtherTurn(c: Setting, s: System, poll: Poll)
    requires Good(c, s) && s.client.status == Pending
    requires poll.Packet? ==> IsError(poll.bytes) || !IsData(poll.bytes)
    ensures var t := Turn(s.client, poll, c.readReq).0;
      && t.data == s.client.data && t.totalSize == s.client.totalSize && t.maxSize == s.client.maxSize
      && t.blocknum == s.client.blocknum && t.rport == s.client.rport
      && t.status == if poll.Packet? && Accepts(s.client, poll.srcport) && IsError(poll.bytes) then Failure else Pending
  {
  }

  lemma TakeBlockFits(c: Setting, s: System, n: nat)
    requires Good(c, s) && s.client.status == Pending && 1 <= n <= Blocks(c.file) && n == s.client.blocknum
    ensures s.client.totalSize + |Block(c.file, n)| <= |c.file|
    ensures |c.file| <= s.client.maxSize ==> |Block(c.file, n)| <= s.client.maxSize - s.client.totalSize
    ensures s.client.data + Block(c.file, n) == c.file[..if n == Blocks(c.file) then |c.file| else MAX_BLOCK * n]
  {
    BlockExtends(c.file, n);
  }

  lemma AckPacketNumber(a: nat)
    ensures var p := AckPacket(a);
      |p| == 4 && Word16(p[0], p[1]) == ACK as nat && Word16(p[2], p[3]) == a % 65536
  {
    assert AckPacket(a)[2..] == Bytes16(a);
  }

  lemma AckStep(c: Setting, s: System, a: nat)
    requires Good(c, s) && Possible(c, s, AckArrives(a))
    ensures Good(c, Next(c, s, AckArrives(a)))
    ensures a == s.served && s.served < Blocks(c.file) ==> Next(c, s, AckArrives(a)).served == s.served + 1
  {
    if a % 65536 == s.served % 65536 {
      Unambiguous(a, s.served);
    }
  }

  lemma StepGood(c: Setting, s: System, e: Event)
    requires Good(c, s) && Possible(c, s, e)
    ensures Good(c, Next(c, s, e)) && Next(c, s, e).client.maxSize == s.client.maxSize
  {
    match e
    case DataArrives(n) => DataTurn(c, s, n);
    case AckArrives(a) => AckStep(c, s, a);
    case RequestArrives =>
    case ErrorArrives(p, port) => OtherTurn(c, s, Packet(p, port));
    case JunkArrives(p, port) => OtherTurn(c, s, Packet(p, port));
    case NothingArrives => OtherTurn(c, s, Nothing);
  }

  lemma {:induction false} RunGood(c: Setting, s: System, events: seq<Event>)
    requires Good(c, s) && PossibleRun(c, s, events)
    ensures Good(c, After(c, s, events))
    ensures After(c, s, events).client.maxSize == s.client.maxSize
    decreases |events|
  {
    if events != [] {
      StepGood(c, s, events[0]);
      RunGood(c, Next(c, s, events[0]), events[1..]);
    }
  }

  /** Every run: while the transfer is pending the client holds the first 512 * (blocknum - 1)
      bytes of the file; success means the whole file and its length; and it has failed exactly
      when an error packet was let through while it was pending, or the awaited block did not fit,
      which happens only to files that are too large. */
  lemma TransferCorrect(c: Setting, maxSize: nat, events: seq<Event>)
    requires c.tid != 0 && maxSize < 0x1_0000_0000
    requires PossibleRun(c, Initial(c, maxSize), events)
    ensures var s := After(c, Initial(c, maxSize), events);
      && s.client.totalSize == |s.client.data| <= maxSize
      && (s.client.status == Pending ==>
            0 <= MAX_BLOCK * (s.client.blocknum - 1) <= |c.file|
            && s.client.data == c.file[..MAX_BLOCK * (s.client.blocknum - 1)])
      && (s.client.status == Success ==> s.client.data == c.file && s.client.totalSize == |c.file|)
      && (s.client.status == Failure <==> s.errorTaken || s.tooLarge)
      && (s.tooLarge ==> |c.file| > maxSize)
  {
    RunGood(c, Initial(c, maxSize), events);
  }

  // ----- what the client sends -----

  /** The acknowledgements of the blocks before the current one. */
  function AcksBefore(blocknum: int): set<seq<Byte>>
    decreases blocknum
  {
    if blocknum <= 1 then {} else AcksBefore(blocknum - 1) + {AckPacket(blocknum - 1)}
  }

  lemma {:induction false} AcksBeforeIff(blocknum: int, p: seq<Byte>)
    ensures p in AcksBefore(blocknum) <==> exists a :: 1 <= a < blocknum && p == AckPacket(a)
    decreases blocknum
  {
    hide AckPacket;
    if blocknum > 1 {
      AcksBeforeIff(blocknum - 1, p);
    }
  }

  function Packets(sent: seq<seq<Byte>>): set<seq<Byte>> {
    set p | p in sent
  }

  /** The packets a possible acknowledgement stands for: the request, and for every block
      before the current one an acknowledgement. */
  predicate SentExactly(readReq: seq<Byte>, blocknum: int, sent: seq<seq<Byte>>) {
    Packets(sent) == {readReq} + AcksBefore(blocknum)
  }

  /** A turn either acknowledges the current block and moves on, or repeats the last packet. */
  lemma TurnOutput(s: State, poll: Poll, readReq: seq<Byte>)
    ensures var (t, out) := Turn(s, poll, readReq);
      || (t.blocknum == s.blocknum + 1 && out == [AckPacket(s.blocknum)])
      || (t.blocknum == s.blocknum && out == [if t.blocknum == 1 then readReq else AckPacket(t.blocknum - 1)])
  {
  }

  lemma SentMore(readReq: seq<Byte>, blocknum: int, sent: seq<seq<Byte>>, p: seq<Byte>, blocknum': int)
    requires SentExactly(readReq, blocknum, sent) && blocknum >= 1
    requires || (blocknum' == blocknum + 1 && p == AckPacket(blocknum))
             || (blocknum' == blocknum && p == if blocknum == 1 then readReq else AckPacket(blocknum - 1))
    ensures SentExactly(readReq, blocknum', sent + [p])
  {
    hide AckPacket;
    assert Packets(sent + [p]) == Packets(sent) + {p};
  }

  lemma TurnSends(c: Setting, s: System, poll: Poll)
    requires s.client.blocknum >= 1 && SentExactly(c.readReq, s.client.blocknum, s.sent)
    ensures var t := ClientTurn(c, s, poll); SentExactly(c.readReq, t.client.blocknum, t.sent)
  {
    var (t, out) := Turn(s.client, poll, c.readReq);
    TurnOutput(s.client, poll, c.readReq);
    SentMore(c.readReq, s.client.blocknum, s.sent, out[0], t.blocknum);
  }

  lemma {:induction false} RunSends(c: Setting, s: System, events: seq<Event>)
    requires Good(c, s) && PossibleRun(c, s, events)
    requires SentExactly(c.readReq, s.client.blocknum, s.sent)
    ensures var t := After(c, s, events); SentExactly(c.readReq, t.client.blocknum, t.sent)
    decreases |events|
  {
    if events != [] {
      var e := events[0];
      StepGood(c, s, e);
      match e {
        case RequestArrives =>
        case AckArrives(_) =>
        case DataArrives(n) => TurnSends(c, s, Packet(DataPacket(n, Block(c.file, n)), c.tid));
        case ErrorArrives(p, port) => TurnSends(c, s, Packet(p, port));
        case JunkArrives(p, port) => TurnSends(c, s, Packet(p, port));
        case NothingArrives => TurnSends(c, s, Nothing);
      }
      RunSends(c, Next(c, s, e), events[1..]);
    }
  }

  // ----- progress -----

  /** From every state a run can reach, a file that fits can still be delivered: the protocol
      never gets stuck, whatever was lost before. */
  lemma {:induction false} CanFinish(c: Setting, s: System) returns (events: seq<Event>)
    requires Good(c, s) && s.client.status == Pending && |c.file| <= s.client.maxSize
    ensures PossibleRun(c, s, events) && After(c, s, events).client.status == Success
    decreases Blocks(c.file) - s.client.blocknum, s.client.blocknum - s.served
  {
    var n := s.client.blocknum;
    assert n <= Blocks(c.file);
    if s.served == n {
      DataTurn(c, s, n);
      var t := Next(c, s, DataArrives(n));
      var rest := [];
      if t.client.status == Pending {
        rest := CanFinish(c, t);
      }
      events := [DataArrives(n)] + rest;
    } else {
      var e := if s.served == 0 then RequestArrives else AckArrives(n - 1);
      if s.served != 0 {
        AckStep(c, s, n - 1);
      }
      StepGood(c, s, e);
      var rest := CanFinish(c, Next(c, s, e));
      events := [e] + rest;
    }
  }

  // ----- why staleness is bounded -----

  /** A block that is a multiple of 65536 blocks old passes for the awaited one, so the bound
      on staleness in Possible cannot be given up. */
  lemma AcceptedIff(s: State, n: nat, payload: seq<Byte>, port: nat)
    requires Valid(s) && s.status == Pending && 0 < |payload| <= MAX_BLOCK && |payload| <= s.maxSize - s.totalSize
    ensures OnPacket(s, DataPacket(n, payload), port).0.data != s.data <==> (s.blocknum - n) % 65536 == 0
  {
    hide OnPacket, DataPacket, Valid;
    DataPacketIsBlock(n, payload);
    DataEffect(s, DataPacket(n, payload), n, payload, port);
    SameResidue(n, s.blocknum);
    assert |s.data + payload| > |s.data|;
  }

  lemma SameResidue(a: int, b: int)
    ensures a % 65536 == b % 65536 <==> (b - a) % 65536 == 0
  {
    var d, r := b / 65536 - a / 65536, b % 65536 - a % 65536;
    assert b - a == 65536 * d + r;
    Remainder(b - a, d, r);
    Remainder(b - a, d - 1, r + 65536);
  }

  lemma Remainder(x: int, q: int, r: int)
    ensures x == 65536 * q + r && 0 <= r < 65536 ==> x % 65536 == r
  {
  }
}

/** The connection table: active and passive opens, demultiplexing, and the search for a free
    local port (src/net/uip.c:335-396, 1013-1021, 1104-1160). */
module UipTable {
  import opened Common
  import opened UipTcp
  import opened UipDelivery

  const FIRST_PORT := 4096
  const PORT_LIMIT := 32000

  predicate SameKey(c: Conn, lport: nat, rport: nat, rip: nat) {
    c.lport == lport && c.rport == rport && c.rip == rip
  }

  /** No two connections in use have the same ports and address. */
  ghost predicate Unique(cs: seq<Conn>) {
    forall i, j {:trigger cs[i], cs[j]} :: 0 <= i < j < |cs| && Active(cs[i]) && Active(cs[j]) ==>
      !SameKey(cs[i], cs[j].lport, cs[j].rport, cs[j].rip)
  }

  lemma AppSendKey(c: Conn, ackData: bool, a: Answer)
    ensures SameKey(AppSend(AppCall(c, a), ackData, a), c.lport, c.rport, c.rip)
  {
  }

  lemma InputKey(c: Conn, s: Segment, a: Answer, ackData: bool)
    ensures SameKey(InputAcked(c, s, a, ackData).0, c.lport, c.rport, c.rip)
  {
    hide SynAck, Add32, AppSend;
    var fresh_ := Enter(c, Established).(len := 0);
    AppSendKey(fresh_.(rcvNxt := Add32(c.rcvNxt, |s.data|)), false, a);
    AppSendKey(fresh_.(rcvNxt := Add32(s.seqno, 1)), false, a);
    var accept := s.data != [] && !c.stopped;
    AppSendKey(UpdateMss(if accept then c.(rcvNxt := Add32(c.rcvNxt, |s.data|)) else c, s), ackData, a);
  }

  /** Steps of a connection never change its ports and address. */
  lemma StepKey(cfg: Config, c: Conn, e: Event)
    ensures var d := Step(cfg, c, e).0; SameKey(d, c.lport, c.rport, c.rip)
    ensures !Active(c) ==> Step(cfg, c, e).0 == c
  {
    hide Acks, OutOfOrder, Backoff, AppSend, InputAcked;
    match e
    case Timer(a) => AppSendKey(c, false, a);
    case Poll(a) => AppSendKey(c, false, a);
    case Arrives(s, a, r) => InputKey(Acked(c, s, r), s, a, Acks(c, s));
  }

  lemma UniqueStep(cs: seq<Conn>, i: nat, d: Conn)
    requires Unique(cs) && i < |cs| && SameKey(d, cs[i].lport, cs[i].rport, cs[i].rip) && (Active(d) ==> Active(cs[i]))
    ensures Unique(cs[i := d])
  {
  }

  lemma UniqueOpen(cs: seq<Conn>, i: nat, d: Conn)
    requires Unique(cs) && i < |cs|
    requires forall j :: 0 <= j < |cs| && Active(cs[j]) ==> !SameKey(cs[j], d.lport, d.rport, d.rip)
    ensures Unique(cs[i := d])
  {
    var r := cs[i := d];
    forall j, k {:trigger r[j], r[k]} | 0 <= j < k < |r| && Active(r[j]) && Active(r[k])
      ensures !SameKey(r[j], r[k].lport, r[k].rport, r[k].rip)
    {
      if j == i {
        assert r[k] == cs[k];
      } else if k == i {
        assert r[j] == cs[j];
      } else {
        assert r[j] == cs[j] && r[k] == cs[k];
      }
    }
  }

  // ----- the port search -----

  /** The local ports of the connections in use. */
  function Used(cs: seq<Conn>): (r: set<nat>)
    ensures forall i :: 0 <= i < |cs| && Active(cs[i]) ==> cs[i].lport in r
  {
    if cs == [] then {}
    else (if Active(cs[0]) then {cs[0].lport} else {}) + Used(cs[1..])
  }

  lemma {:induction false} UsedSmall(cs: seq<Conn>)
    ensures |Used(cs)| <= |cs|
    decreases cs
  {
    hide Active;
    if cs != [] {
      UsedSmall(cs[1..]);
      var u := Used(cs[1..]);
      if Active(cs[0]) && cs[0].lport !in u {
        assert Used(cs) == u + {cs[0].lport};
      } else {
        assert Used(cs) == u;
      }
    }
  }

  lemma SubsetSize(a: set<nat>, b: set<nat>)
    requires a <= b
    ensures |a| <= |b|
  {
    assert b == a + (b - a);
  }

  function NextPort(port: nat): nat {
    if port + 1 >= PORT_LIMIT then FIRST_PORT else port + 1
  }

  /** How many increments ago the counter was at p. */
  function Back(port: nat, p: nat): int {
    if p <= port then port - p else port - FIRST_PORT + PORT_LIMIT - p
  }

  lemma FurtherBack(visited: set<nat>, port: nat)
    requires 1 <= port < PORT_LIMIT && port !in visited && |visited| + 1 < PORT_LIMIT - FIRST_PORT
    requires forall p :: p in visited ==> p < PORT_LIMIT && 0 < Back(port, p) <= |visited|
    ensures var more := visited + {port};
      |more| == |visited| + 1 && forall p :: p in more ==> p < PORT_LIMIT && 0 < Back(NextPort(port), p) <= |more|
  {
    var more := visited + {port};
    forall p | p in more
      ensures p < PORT_LIMIT && 0 < Back(NextPort(port), p) <= |more|
    {
      if p != port {
        assert 0 < Back(port, p) <= |visited|;
      }
    }
  }

  /** The connection uip_connect sets up. */
  function Opening(c: Conn, cfg: Config, iss: nat, mss: nat, lport: nat, rport: nat, rip: nat): Conn {
    c.(state := SynSent, stopped := false, sndNxt := iss, mss := mss, initialMss := mss, len := 1, nrtx := 0,
       timer := 1, rto := cfg.rto, lport := lport, rport := rport, rip := rip)
  }

  /** The connection a SYN opens. */
  function Opened(c: Conn, s: Segment, cfg: Config, iss: nat): Conn {
    c.(state := SynRcvd, stopped := false, rto := cfg.rto, timer := cfg.rto, nrtx := 0, lport := s.destport,
       rport := s.srcport, rip := s.srcip, sndNxt := iss, len := 1, rcvNxt := Add32(s.seqno, 1))
  }

  /** A slot to use: the first closed one, or else the first of those that have been in TIME_WAIT
      longest, or none if there is no such slot either. */
  ghost predicate Best(cs: seq<Conn>, slot: Option<nat>) {
    && (slot.Some? ==> slot.value < |cs|)
    && (slot.Some? && !Active(cs[slot.value]) ==> forall i :: 0 <= i < slot.value ==> Active(cs[i]))
    && (slot.Some? && Active(cs[slot.value]) ==>
          && cs[slot.value].state == TimeWait && !cs[slot.value].stopped
          && (forall i :: 0 <= i < |cs| ==> Active(cs[i]))
          && (forall i :: 0 <= i < |cs| && cs[i].state == TimeWait && !cs[i].stopped ==>
                cs[i].timer < cs[slot.value].timer || (cs[i].timer == cs[slot.value].timer && slot.value <= i)))
    && (slot.None? ==>
          forall i :: 0 <= i < |cs| ==> Active(cs[i]) && (cs[i].state == TimeWait ==> cs[i].stopped))
  }

  /** The choice is determined. */
  lemma BestUnique(cs: seq<Conn>, a: Option<nat>, b: Option<nat>)
    requires Best(cs, a) && Best(cs, b)
    ensures a == b
  {
    if a.Some? && b.Some? && Active(cs[a.value]) {
      assert Active(cs[b.value]);
    }
  }

  // ----- what a call does to the table -----

  /** A call of the stack, with the slot it changes: an active open, a timer call, a poll, a segment
      for a connection in use, a passive open, or no change. */
  datatype StackEvent =
    | Nothing
    | Opens(slot: nat, iss: nat, lport: nat, rport: nat, rip: nat)
    | Ticks(slot: nat, answer: Answer)
    | Polls(slot: nat, answer: Answer)
    | Takes(slot: nat, segment: Segment, answer: Answer, newRto: nat)
    | Accepts(slot: nat, segment: Segment, iss: nat)

  /** What the stack makes sure of: only free or timed-out slots are reused, and never for ports and
      an address that are in use. */
  ghost predicate Allowed(cs: seq<Conn>, e: StackEvent) {
    e.Nothing? ||
    (e.slot < |cs| &&
     match e
     case Opens(i, _, lport, _, _) =>
       && (Active(cs[i]) ==> cs[i].state == TimeWait)
       && (forall j :: 0 <= j < |cs| && Active(cs[j]) ==> cs[j].lport != lport)
     case Accepts(i, s, _) =>
       && (Active(cs[i]) ==> cs[i].state == TimeWait) && SynOnly(s)
       && (forall j :: 0 <= j < |cs| && Active(cs[j]) ==> !SameKey(cs[j], s.destport, s.srcport, s.srcip))
     case Takes(i, s, _, _) => Active(cs[i]) && SameKey(cs[i], s.destport, s.srcport, s.srcip)
     case _ => true)
  }

  /** The changed slot afterwards, and what its application is handed. */
  function SlotAfter(cfg: Config, mss: nat, c: Conn, e: StackEvent): (Conn, Bytes) {
    match e
    case Nothing => (c, [])
    case Opens(_, iss, lport, rport, rip) => (Opening(c, cfg, iss, mss, lport, rport, rip), [])
    case Ticks(_, a) => Step(cfg, c, Timer(a))
    case Polls(_, a) => Step(cfg, c, Poll(a))
    case Takes(_, s, a, r) => Step(cfg, c, Arrives(s, a, r))
    case Accepts(_, s, iss) => (Opened(c, s, cfg, iss), [])
  }

  function ConnsAfter(cfg: Config, mss: nat, cs: seq<Conn>, e: StackEvent): seq<Conn>
    requires e.Nothing? || e.slot < |cs|
  {
    if e.Nothing? then cs else cs[e.slot := SlotAfter(cfg, mss, cs[e.slot], e).0]
  }

  lemma UniqueAfter(cfg: Config, mss: nat, cs: seq<Conn>, e: StackEvent)
    requires Unique(cs) && Allowed(cs, e)
    ensures Unique(ConnsAfter(cfg, mss, cs, e))
  {
    hide Unique, Step;
    match e
    case Nothing =>
    case Opens(i, _, _, _, _) => UniqueOpen(cs, i, SlotAfter(cfg, mss, cs[i], e).0);
    case Accepts(i, _, _) => UniqueOpen(cs, i, SlotAfter(cfg, mss, cs[i], e).0);
    case Ticks(i, a) => UniqueTurn(cfg, cs, i, Timer(a));
    case Polls(i, a) => UniqueTurn(cfg, cs, i, Poll(a));
    case Takes(i, s, a, r) => UniqueTurn(cfg, cs, i, Arrives(s, a, r));
  }

  lemma UniqueTurn(cfg: Config, cs: seq<Conn>, i: nat, e: Event)
    requires Unique(cs) && i < |cs|
    ensures Unique(cs[i := Step(cfg, cs[i], e).0])
  {
    hide Unique, Step;
    StepKey(cfg, cs[i], e);
    UniqueStep(cs, i, Step(cfg, cs[i], e).0);
  }

  class Stack {
    const conns: array<Conn>
    const cfg: Config
    const mss: nat
    var lastport: nat
    var listenports: seq<nat>
    var iss: nat

    /** There are fewer connections than ports to choose from. */
    ghost predicate Valid()
      reads this, conns
    {
      conns.Length <= 255 && lastport < PORT_LIMIT && Unique(conns[..])
    }

    constructor (n: nat, cfg: Config, mss: nat, idle: Conn)
      requires n <= 255 && !Active(idle)
      ensures Valid() && fresh(conns) && conns.Length == n && this.cfg == cfg && this.mss == mss
    {
      conns := new Conn[n](_ => idle);
      this.cfg, this.mss := cfg, mss;
      lastport, listenports, iss := 1024, [], 0;
    }

    method PortInUse(port: nat) returns (used: bool)
      ensures used <==> exists i :: 0 <= i < conns.Length && Active(conns[i]) && conns[i].lport == port
    {
      for c := 0 to conns.Length
        invariant forall i :: 0 <= i < c && Active(conns[i]) ==> conns[i].lport != port
      {
        if Active(conns[c]) && conns[c].lport == port {
          return true;
        }
      }
      return false;
    }

    /** The loop `goto again`: it ends because the ports tried so far are all in use and all
        different, and there are fewer connections than ports. */
    method ChoosePort()
      requires Valid()
      modifies `lastport
      ensures Valid()
      ensures forall i :: 0 <= i < conns.Length && Active(conns[i]) ==> conns[i].lport != lastport
      ensures 1 <= lastport < 32000 && (old(lastport) >= 4095 ==> lastport >= 4096)
    {
      ghost var visited: set<nat> := {};
      UsedSmall(conns[..]);
      lastport := NextPort(lastport);
      var used := PortInUse(lastport);
      while used
        invariant 1 <= lastport < PORT_LIMIT && visited <= Used(conns[..])
        invariant old(lastport) >= 4095 ==> lastport >= 4096
        invariant forall p :: p in visited ==> p < PORT_LIMIT && 0 < Back(lastport, p) <= |visited|
        invariant used <==> exists i :: 0 <= i < conns.Length && Active(conns[i]) && conns[i].lport == lastport
        decreases |conns[..]| - |visited|, used
      {
        SubsetSize(visited, Used(conns[..]));
        assert lastport !in visited;
        ghost var i :| 0 <= i < conns.Length && Active(conns[i]) && conns[i].lport == lastport;
        assert conns[..][i].lport in Used(conns[..]);
        ghost var more := visited + {lastport};
        SubsetSize(more, Used(conns[..]));
        FurtherBack(visited, lastport);
        visited := more;
        lastport := NextPort(lastport);
        used := PortInUse(lastport);
      }
    }

    /** A slot that is free, or else the one that has been in TIME_WAIT longest. */
    method ChooseSlot() returns (slot: Option<nat>)
      ensures Best(conns[..], slot)
    {
      slot := None;
      for c := 0 to conns.Length
        invariant slot.Some? ==> slot.value < c && conns[slot.value].state == TimeWait && !conns[slot.value].stopped
        invariant forall i :: 0 <= i < c ==> Active(conns[i])
        invariant forall i :: 0 <= i < c && conns[i].state == TimeWait && !conns[i].stopped ==>
                    && slot.Some?
                    && (conns[i].timer < conns[slot.value].timer
                        || (conns[i].timer == conns[slot.value].timer && slot.value <= i))
      {
        if !Active(conns[c]) {
          return Some(c);
        }
        if conns[c].state == TimeWait && !conns[c].stopped {
          if slot.None? || conns[c].timer > conns[slot.value].timer {
            slot := Some(c);
          }
        }
      }
    }

    /** uip_connect. */
    method Connect(rip: nat, rport: nat) returns (slot: Option<nat>, ghost e: StackEvent)
      requires Valid()
      modifies this`lastport, conns
      ensures Valid()
      ensures Best(old(conns[..]), slot)
      ensures e == if slot.None? then Nothing else Opens(slot.value, iss, lastport, rport, rip)
      ensures Allowed(old(conns[..]), e) && conns[..] == ConnsAfter(cfg, mss, old(conns[..]), e)
    {
      hide Unique;
      ChoosePort();
      slot := ChooseSlot();
      e := Nothing;
      if slot.Some? {
        e := Opens(slot.value, iss, lastport, rport, rip);
        UniqueAfter(cfg, mss, conns[..], e);
        conns[slot.value] := Opening(conns[slot.value], cfg, iss, mss, lastport, rport, rip);
      }
    }

    /** One call of uip_process with UIP_TIMER. */
    method Periodic(i: nat, a: Answer)
      requires Valid() && i < conns.Length
      modifies this`iss, conns
      ensures Valid() && iss == Add32(old(iss), 1)
      ensures conns[..] == ConnsAfter(cfg, mss, old(conns[..]), Ticks(i, a))
    {
      hide Unique, TimerStep;
      UniqueAfter(cfg, mss, conns[..], Ticks(i, a));
      iss := Add32(iss, 1);
      conns[i] := TimerStep(cfg, conns[i], a);
    }

    /** One call of uip_process with UIP_POLL_REQUEST. */
    method PollConnection(i: nat, a: Answer)
      requires Valid() && i < conns.Length
      modifies conns
      ensures Valid()
      ensures conns[..] == ConnsAfter(cfg, mss, old(conns[..]), Polls(i, a))
    {
      hide Unique, PollStep;
      UniqueAfter(cfg, mss, conns[..], Polls(i, a));
      conns[i] := PollStep(conns[i], a);
    }

    /** The connection a segment belongs to. */
    method Demultiplex(s: Segment) returns (slot: Option<nat>)
      ensures slot.Some? ==> slot.value < conns.Length && Active(conns[slot.value])
                             && SameKey(conns[slot.value], s.destport, s.srcport, s.srcip)
      ensures slot.Some? ==> var c := conns[slot.value];
        c.lport == s.destport && c.rport == s.srcport && c.rip == s.srcip
      ensures slot.None? ==>
                forall i :: 0 <= i < conns.Length && Active(conns[i]) ==>
                  !SameKey(conns[i], s.destport, s.srcport, s.srcip)
    {
      for c := 0 to conns.Length
        invariant forall i :: 0 <= i < c && Active(conns[i]) ==> !SameKey(conns[i], s.destport, s.srcport, s.srcip)
      {
        if Active(conns[c]) && SameKey(conns[c], s.destport, s.srcport, s.srcip) {
          return Some(c);
        }
      }
      return None;
    }

    /** TCP input of a segment with a good checksum and ports other than 0: it goes to the one
        connection it matches, or a SYN to a listening port opens a connection in a free or
        timed-out slot, or it is answered with a reset and nothing changes. */
    method Receive(s: Segment, a: Answer, newRto: nat)
      returns (slot: Option<nat>, delivered: Bytes, ghost e: StackEvent)
      requires Valid()
      modifies conns
      ensures Valid()
      ensures Allowed(old(conns[..]), e) && conns[..] == ConnsAfter(cfg, mss, old(conns[..]), e)
      ensures slot.None? ==> e == Nothing && delivered == []
      ensures slot.None? && s.syn && !s.ack && !s.fin && !s.rst && !s.psh && s.destport in listenports ==>
                Best(conns[..], None)
      ensures slot.None? ==>
                forall i :: 0 <= i < conns.Length && Active(conns[i]) ==>
                  !SameKey(conns[i], s.destport, s.srcport, s.srcip)
      ensures slot.Some? ==> slot.value < conns.Length && var c := old(conns[..])[slot.value];
        if Active(c) && SameKey(c, s.destport, s.srcport, s.srcip) then
          e == Takes(slot.value, s, a, newRto) && delivered == Input(c, s, a, newRto).1
        else
          && e == Accepts(slot.value, s, iss) && s.destport in listenports && delivered == []
          && s.syn && !s.ack && !s.fin && !s.rst && !s.psh
          && Best(old(conns[..]), slot)
    {
      hide Unique, Input;
      delivered := [];
      e := Nothing;
      slot := Demultiplex(s);
      if slot.Some? {
        var i := slot.value;
        e := Takes(i, s, a, newRto);
        UniqueAfter(cfg, mss, conns[..], e);
        var r := Input(conns[i], s, a, newRto);
        conns[i] := r.0;
        delivered := r.1;
        return;
      }
      if !SynOnly(s) || s.destport !in listenports {
        return;
      }
      slot := ChooseSlot();
      if slot.Some? {
        e := Accepts(slot.value, s, iss);
        UniqueAfter(cfg, mss, conns[..], e);
        conns[slot.value] := Opened(conns[slot.value], s, cfg, iss);
      }
    }
  }

  /** Both kinds of new connection start with their SYN outstanding, as GoodKept requires, whatever
      the slot held before. */
  lemma FreshGood(c: Conn, s: Segment, cfg: Config, iss: nat, mss: nat, lport: nat, rport: nat, rip: nat)
    requires ConfigOk(cfg) && mss < 0x1_0000 && c.mss < 0x1_0000 && c.initialMss < 0x1_0000
    ensures Good(cfg, Opening(c, cfg, iss, mss, lport, rport, rip))
    ensures Good(cfg, Opened(c, s, cfg, iss))
  {
  }

  /** A fresh passive connection starts with nothing delivered, in step with its peer. */
  lemma OpenedInOrder(p: Peer, c: Conn, s: Segment, cfg: Config, iss: nat)
    requires PeerOk(p) && FromPeer(p, s) && SynOnly(s)
    ensures InOrder(p, Opened(c, s, cfg, iss), [])
  {
    SynSeq(p, s);
  }
}

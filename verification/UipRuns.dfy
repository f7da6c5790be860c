/** Runs of the whole connection table, with slots that are closed and used again
    (src/net/uip.c:335-396, 605-1606). */
module UipRuns {
  import opened Common
  import opened UipTcp
  import opened UipDelivery
  import opened UipTable

  /** The table, and for each slot the peer of its connection and what that connection has handed to
      its application. */
  datatype Slots = Slots(conns: seq<Conn>, peers: seq<Peer>, got: seq<Bytes>)

  /** A call of the stack; `peer` is the other side if the call opens a connection. */
  datatype Turn = Turn(event: StackEvent, peer: Peer)

  predicate OpensSlot(e: StackEvent) {
    e.Opens? || e.Accepts?
  }

  /** A new connection starts with a new peer and nothing handed over; any other keeps its peer. */
  function After(cfg: Config, mss: nat, t: Slots, u: Turn): Slots
    requires |t.peers| == |t.got| == |t.conns| && (u.event.Nothing? || u.event.slot < |t.conns|)
  {
    if u.event.Nothing? then t
    else
      var i := u.event.slot;
      Slots(ConnsAfter(cfg, mss, t.conns, u.event),
            if OpensSlot(u.event) then t.peers[i := u.peer] else t.peers,
            t.got[i := if OpensSlot(u.event) then [] else t.got[i] + SlotAfter(cfg, mss, t.conns[i], u.event).1])
  }

  /** What the stack takes for granted: a segment for a connection comes from the peer of that
      connection, a SYN from the new one, and applications stop only established connections. */
  ghost predicate Plausible(cfg: Config, mss: nat, t: Slots, u: Turn)
    requires |t.peers| == |t.got| == |t.conns| && (u.event.Nothing? || u.event.slot < |t.conns|)
  {
    !u.event.Nothing? ==>
      && StopsOnlyEstablished(SlotAfter(cfg, mss, t.conns[u.event.slot], u.event).0)
      && (OpensSlot(u.event) ==> PeerOk(u.peer))
      && (u.event.Accepts? ==> FromPeer(u.peer, u.event.segment))
      && (u.event.Takes? ==> FromPeer(t.peers[u.event.slot], u.event.segment) && u.event.segment.wnd < 0x1_0000)
  }

  /** A slot is in order: the connection is well-formed and has handed over a prefix of the stream
      of its own peer, up to where it expects the next byte. */
  ghost predicate SlotSound(cfg: Config, c: Conn, p: Peer, got: Bytes) {
    PeerOk(p) && Good(cfg, c) && InOrder(p, c, got)
  }

  ghost predicate Sound(cfg: Config, t: Slots) {
    && |t.peers| == |t.got| == |t.conns| && Unique(t.conns)
    && forall i :: 0 <= i < |t.conns| ==> SlotSound(cfg, t.conns[i], t.peers[i], t.got[i])
  }

  /** One slot through one call, whichever connection it held before. */
  lemma SlotTurn(cfg: Config, mss: nat, t: Slots, u: Turn)
    requires ConfigOk(cfg) && mss < 0x1_0000 && Sound(cfg, t)
    requires Allowed(t.conns, u.event) && !u.event.Nothing? && Plausible(cfg, mss, t, u)
    ensures var r := After(cfg, mss, t, u); var i := u.event.slot;
      SlotSound(cfg, r.conns[i], r.peers[i], r.got[i])
  {
    hide Good, InOrder, PeerOk, Step, Unique, FromPeer, StopsOnlyEstablished, Opening, Opened, SynOnly, SameKey;
    var i := u.event.slot;
    var c := t.conns[i];
    assert SlotSound(cfg, c, t.peers[i], t.got[i]);
    match u.event
    case Opens(_, iss, lport, rport, rip) =>
      GoodBounds(cfg, c);
      ActiveOpen(cfg, c, u.peer, iss, mss, lport, rport, rip);
    case Accepts(_, s, iss) =>
      GoodBounds(cfg, c);
      FreshGood(c, s, cfg, iss, mss, 0, 0, 0);
      OpenedInOrder(u.peer, c, s, cfg, iss);
    case Ticks(_, a) =>
      GoodKept(cfg, c, Timer(a));
      StepInOrder(cfg, t.peers[i], c, t.got[i], Timer(a));
    case Polls(_, a) =>
      GoodKept(cfg, c, Poll(a));
      StepInOrder(cfg, t.peers[i], c, t.got[i], Poll(a));
    case Takes(_, s, a, r) =>
      GoodKept(cfg, c, Arrives(s, a, r));
      StepInOrder(cfg, t.peers[i], c, t.got[i], Arrives(s, a, r));
  }

  lemma GoodBounds(cfg: Config, c: Conn)
    requires Good(cfg, c)
    ensures c.mss < 0x1_0000 && c.initialMss < 0x1_0000
  {
  }

  lemma ActiveOpen(cfg: Config, c: Conn, p: Peer, iss: nat, mss: nat, lport: nat, rport: nat, rip: nat)
    requires ConfigOk(cfg) && mss < 0x1_0000 && PeerOk(p)
    ensures SlotSound(cfg, Opening(c, cfg, iss, mss, lport, rport, rip), p, [])
  {
  }

  lemma TurnSound(cfg: Config, mss: nat, t: Slots, u: Turn)
    requires ConfigOk(cfg) && mss < 0x1_0000 && Sound(cfg, t)
    requires Allowed(t.conns, u.event) && Plausible(cfg, mss, t, u)
    ensures Sound(cfg, After(cfg, mss, t, u))
  {
    hide SlotSound, Unique, Plausible, SlotAfter;
    if !u.event.Nothing? {
      SlotTurn(cfg, mss, t, u);
      UniqueAfter(cfg, mss, t.conns, u.event);
    }
  }

  // ----- runs -----

  ghost predicate PossibleRun(cfg: Config, mss: nat, t: Slots, turns: seq<Turn>)
    decreases |turns|
  {
    turns != [] ==>
      && |t.peers| == |t.got| == |t.conns|
      && Allowed(t.conns, turns[0].event) && Plausible(cfg, mss, t, turns[0])
      && PossibleRun(cfg, mss, After(cfg, mss, t, turns[0]), turns[1..])
  }

  ghost function AfterAll(cfg: Config, mss: nat, t: Slots, turns: seq<Turn>): Slots
    requires PossibleRun(cfg, mss, t, turns)
    decreases |turns|
  {
    if turns == [] then t else AfterAll(cfg, mss, After(cfg, mss, t, turns[0]), turns[1..])
  }

  /** In every run of opens, timer calls, polls and arriving segments, over any reuse of slots: no
      two connections share ports and address, every connection keeps a byte outstanding where it
      has to, and what each has handed over is a prefix of the stream of its own peer. */
  lemma {:induction false} RunSound(cfg: Config, mss: nat, t: Slots, turns: seq<Turn>)
    requires ConfigOk(cfg) && mss < 0x1_0000 && Sound(cfg, t) && PossibleRun(cfg, mss, t, turns)
    ensures Sound(cfg, AfterAll(cfg, mss, t, turns))
    decreases |turns|
  {
    hide Sound, Plausible, After;
    if turns != [] {
      TurnSound(cfg, mss, t, turns[0]);
      RunSound(cfg, mss, After(cfg, mss, t, turns[0]), turns[1..]);
    }
  }

  /** As long as a slot is not opened anew it has the same peer, and nothing handed over is taken
      back. */
  lemma {:induction false} SameConnection(cfg: Config, mss: nat, t: Slots, turns: seq<Turn>, i: nat)
    requires PossibleRun(cfg, mss, t, turns) && |t.peers| == |t.got| == |t.conns| && i < |t.conns|
    requires forall k :: 0 <= k < |turns| && OpensSlot(turns[k].event) ==> turns[k].event.slot != i
    ensures var r := AfterAll(cfg, mss, t, turns);
      |r.peers| == |r.got| == |t.conns| && r.peers[i] == t.peers[i] && t.got[i] <= r.got[i]
    decreases |turns|
  {
    hide Plausible, SlotAfter;
    if turns != [] {
      var u := turns[0];
      assert forall k :: 0 <= k < |turns[1..]| ==> turns[1..][k] == turns[k + 1];
      SameConnection(cfg, mss, After(cfg, mss, t, u), turns[1..], i);
    }
  }

  /** A table of closed slots is where every run starts. */
  lemma InitiallySound(cfg: Config, idle: Conn, p: Peer, n: nat)
    requires Good(cfg, idle) && !Active(idle) && PeerOk(p)
    ensures Sound(cfg, Slots(seq(n, _ => idle), seq(n, _ => p), seq(n, _ => [])))
  {
  }
}

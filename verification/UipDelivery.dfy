/** In-order delivery: what the application is handed under duplication, loss and reordering
    (src/net/uip.c:595-602, 1231-1242, 1293-1309, 1390-1423; section 3.9 of RFC 793). */
module UipDelivery {
  import opened Common
  import opened UipChecksum
  import opened UipTcp

  /** The peer's side of the connection: initial sequence number and byte stream. */
  datatype Peer = Peer(irs: nat, stream: Bytes)

  predicate PeerOk(p: Peer) {
    p.irs < WORD32 && |p.stream| < WORD32
  }

  /** The sequence number of stream position k. */
  function SeqOf(p: Peer, k: nat): nat {
    (p.irs + 1 + k) % WORD32
  }

  /** s carries the stream from position k on. */
  predicate Carries(p: Peer, s: Segment, k: nat) {
    && k + |s.data| <= |p.stream| && s.data == p.stream[k..k + |s.data|]
    && s.seqno == SeqOf(p, k)
    && (s.fin ==> k + |s.data| == |p.stream|)
  }

  /** Any segment the peer may have sent, now or earlier: its SYN, a piece of the stream at its
      place (the FIN at the end), or a bare acknowledgement with any sequence number. */
  ghost predicate FromPeer(p: Peer, s: Segment) {
    if s.syn then s.data == [] && !s.fin && s.seqno == p.irs
    else s.data != [] || s.fin ==> exists k: nat :: Carries(p, s, k)
  }

  /** Positions of one stream below 2^32 bytes are told apart by their sequence numbers. */
  lemma SameSeqSamePlace(p: Peer, j: nat, k: nat)
    requires PeerOk(p) && j <= |p.stream| && k <= |p.stream| && SeqOf(p, j) == SeqOf(p, k)
    ensures j == k
  {
  }

  lemma SeqAdvance(p: Peer, k: nat, n: nat)
    ensures Add32(SeqOf(p, k), n) == SeqOf(p, k + n)
  {
    var x := p.irs + 1 + k;
    var q, r := x / WORD32, x % WORD32;
    assert x == WORD32 * q + r;
    assert x + n == WORD32 * (q + (r + n) / WORD32) + (r + n) % WORD32;
    Mod32Unique(x + n, q + (r + n) / WORD32, (r + n) % WORD32);
  }

  /** `got` is everything handed over so far. */
  ghost predicate InOrder(p: Peer, c: Conn, got: Bytes) {
    && got <= p.stream
    && (c.state == SynSent ==> got == [])
    && (c.state == SynRcvd || c.state == Established ==> c.rcvNxt == SeqOf(p, |got|))
    && (c.state == LastAck ==> got == p.stream && c.rcvNxt == SeqOf(p, |p.stream| + 1))
  }

  lemma AppSendState(c: Conn, ackData: bool, a: Answer)
    ensures var d := AppSend(AppCall(c, a), ackData, a);
      d.rcvNxt == c.rcvNxt && (d.state == c.state || d.state == Closed || d.state == FinWait1)
  {
  }

  /** Data that passes the sequence check is the next piece of the stream. */
  lemma NextPiece(p: Peer, s: Segment, got: Bytes)
    requires PeerOk(p) && FromPeer(p, s) && got <= p.stream && (s.data != [] || s.fin)
    requires s.seqno == SeqOf(p, |got|) && !s.syn
    ensures got + s.data <= p.stream
    ensures s.fin ==> got + s.data == p.stream
  {
    var k: nat :| Carries(p, s, k);
    SameSeqSamePlace(p, |got|, k);
    assert got == p.stream[..k];
    assert got + s.data == p.stream[..k + |s.data|];
  }

  lemma InputInOrder(p: Peer, c: Conn, got: Bytes, s: Segment, a: Answer, newRto: nat)
    requires PeerOk(p) && InOrder(p, c, got) && FromPeer(p, s)
    ensures var r := Input(c, s, a, newRto); InOrder(p, r.0, got + r.1)
  {
    hide Carries, SeqOf, AppSend, UpdateMss, FromPeer;
    assert got + [] == got;
    if !s.rst && !OutOfOrder(c, s) {
      var d := Acked(c, s, newRto);
      match c.state
      case Established => EstablishedInOrder(p, d, got, s, a, Acks(c, s));
      case SynRcvd =>
        if Acks(c, s) {
          PlaceKnown(p, c, got, s);
          SeqAdvance(p, |got|, |s.data|);
          AppSendState(Enter(d, Established).(len := 0, rcvNxt := Add32(d.rcvNxt, |s.data|)), false, a);
        }
      case SynSent =>
        if Acks(c, s) && SynAck(s) {
          SynSeq(p, s);
          SeqAdvance(p, 0, 0);
          AppSendState(Enter(d, Established).(len := 0, rcvNxt := Add32(s.seqno, 1)), false, a);
        }
      case _ =>
    }
  }

  lemma SynSeq(p: Peer, s: Segment)
    requires FromPeer(p, s) && s.syn
    ensures Add32(s.seqno, 1) == SeqOf(p, 0)
  {
  }

  /** What the sequence check leaves: no data, or the next piece. */
  lemma PlaceKnown(p: Peer, c: Conn, got: Bytes, s: Segment)
    requires PeerOk(p) && FromPeer(p, s) && got <= p.stream && c.rcvNxt == SeqOf(p, |got|)
    requires !OutOfOrder(c, s) && (c.state == Established || (c.state == SynRcvd && s.ack))
    ensures got + s.data <= p.stream
    ensures s.fin ==> got + s.data == p.stream
  {
    if s.syn {
      assert s.data == [] && !s.fin;
      assert got + s.data == got;
    } else if s.data != [] || s.fin {
      NextPiece(p, s, got);
    } else {
      assert got + s.data == got;
    }
  }

  lemma EstablishedInOrder(p: Peer, c: Conn, got: Bytes, s: Segment, a: Answer, ackData: bool)
    requires PeerOk(p) && InOrder(p, c, got) && FromPeer(p, s) && c.state == Established && !OutOfOrder(c, s)
    ensures var r := InputEstablished(c, s, a, ackData); InOrder(p, r.0, got + r.1)
  {
    hide Carries, SeqOf, AppSend, FromPeer, OutOfOrder;
    assert got + [] == got;
    PlaceKnown(p, c, got, s);
    SeqAdvance(p, |got|, |s.data|);
    SeqAdvance(p, |got|, 1 + |s.data|);
    var accept := s.data != [] && !c.stopped;
    var d := UpdateMss(if accept then c.(rcvNxt := Add32(c.rcvNxt, |s.data|)) else c, s);
    AppSendState(d, ackData, a);
  }

  // ----- runs -----

  ghost predicate PeerEvent(p: Peer, e: Event) {
    e.Arrives? ==> FromPeer(p, e.segment)
  }

  /** The connection and everything it handed over, after a series of events. */
  function Run(cfg: Config, c: Conn, got: Bytes, events: seq<Event>): (Conn, Bytes)
    decreases events
  {
    if events == [] then (c, got)
    else
      var (d, new_) := Step(cfg, c, events[0]);
      Run(cfg, d, got + new_, events[1..])
  }

  lemma StepInOrder(cfg: Config, p: Peer, c: Conn, got: Bytes, e: Event)
    requires PeerOk(p) && InOrder(p, c, got) && PeerEvent(p, e)
    ensures var r := Step(cfg, c, e); InOrder(p, r.0, got + r.1)
  {
    hide Input, FromPeer, SeqOf, Backoff, AppSend;
    assert got + [] == got;
    match e
    case Timer(a) => AppSendState(c, false, a);
    case Poll(a) => AppSendState(c, false, a);
    case Arrives(s, a, r) =>
      InputInOrder(p, c, got, s, a, r);
  }

  /** Whatever arrives, in whatever order and however often: the payloads handed over form a
      prefix of the peer's stream, the next expected sequence number is right behind them as
      long as the connection is open, and a FIN is only taken once the stream is complete. */
  lemma {:induction false} InOrderDelivery(cfg: Config, p: Peer, c: Conn, got: Bytes, events: seq<Event>)
    requires PeerOk(p) && InOrder(p, c, got) && forall i :: 0 <= i < |events| ==> PeerEvent(p, events[i])
    ensures var r := Run(cfg, c, got, events); InOrder(p, r.0, r.1) && got <= r.1
    decreases events
  {
    hide Step, PeerEvent, InOrder;
    if events != [] {
      var r := Step(cfg, c, events[0]);
      StepInOrder(cfg, p, c, got, events[0]);
      InOrderDelivery(cfg, p, r.0, got + r.1, events[1..]);
    }
  }
}

/** The transitions of a connection (src/net/uip.c:1173-1606; figure 6 of RFC 793): opening, data and
    closing between two ends, when nothing is lost. */
module UipTransitions {
  import opened Common
  import opened UipTcp
  import opened UipTable

  /** The application has nothing to say. */
  const QUIET: Answer := Answer(Continue, Keep, 0)
  const CLOSING: Answer := Answer(Close, Keep, 0)

  /** A segment of `from` with its next sequence number, acknowledging all it has received. */
  function Reply(from: Conn, syn: bool, fin: bool, data: Bytes, wnd: nat): Segment {
    Segment(from.lport, from.rport, 0, fin, syn, false, false, true, from.sndNxt, from.rcvNxt, wnd, data)
  }

  /** The two ends agree on what each has sent and received. */
  predicate InStep(a: Conn, b: Conn) {
    a.sndNxt == b.rcvNxt && b.sndNxt == a.rcvNxt
  }

  // ----- opening -----

  function Syn(a: Conn): Segment {
    Segment(a.lport, a.rport, 0, false, true, false, false, false, a.sndNxt, 0, 0, [])
  }

  /** The three-way handshake: SYN, SYN and ACK, ACK.  Afterwards both ends are established, with
      nothing outstanding, and each expects the byte behind the other's SYN. */
  lemma Handshake(ca: Conn, cb: Conn, cfg: Config, issA: nat, issB: nat, mss: nat, lport: nat, rport: nat, rip: nat,
                  rtoA: nat, rtoB: nat)
    requires issA < WORD32 && issB < WORD32
    ensures var a := Opening(ca, cfg, issA, mss, lport, rport, rip);
      var b := Opened(cb, Syn(a), cfg, issB);
      var a' := Input(a, Reply(b, true, false, [], 0), QUIET, rtoA).0;
      var b' := Input(b, Reply(a', false, false, [], 0), QUIET, rtoB).0;
      && a.state == SynSent && b.state == SynRcvd
      && a'.state == Established && b'.state == Established && a'.len == 0 && b'.len == 0
      && !a'.stopped && !b'.stopped
      && a'.sndNxt == (issA + 1) % WORD32 && b'.sndNxt == (issB + 1) % WORD32 && InStep(a', b')
  {
  }

  /** An active open succeeds exactly by the SYN and ACK, without any other flag, that acknowledges
      its SYN. */
  lemma EstablishedIff(c: Conn, s: Segment, newRto: nat)
    requires c.state == SynSent
    ensures Input(c, s, QUIET, newRto).0.state == Established <==>
              && s.syn && s.ack && !s.fin && !s.rst && !s.psh
              && c.len != 0 && s.ackno == (c.sndNxt + c.len) % WORD32
  {
  }

  /** A SYN that asks for a connection is acknowledged with its number plus one. */
  lemma SynReceived(c: Conn, s: Segment, cfg: Config, iss: nat)
    ensures var d := Opened(c, s, cfg, iss);
      && d.state == SynRcvd && d.rcvNxt == (s.seqno + 1) % WORD32 && d.sndNxt == iss && d.len == 1
      && d.lport == s.destport && d.rport == s.srcport && d.rip == s.srcip
  {
  }

  /** An active open sends its SYN after two timer calls at the latest and then backs off; a passive
      one waits a whole RTO. */
  lemma FreshDeadlines(c: Conn, s: Segment, cfg: Config, iss: nat, mss: nat, lport: nat, rport: nat, rip: nat)
    ensures var a := Opening(c, cfg, iss, mss, lport, rport, rip);
      && Deadline(cfg, a) == 2 + Retries(cfg, 0, Limit(cfg, SynSent))
      && a.lport == lport && a.rport == rport && a.rip == rip && a.mss == mss && a.initialMss == mss && a.rto == cfg.rto
    ensures var b := Opened(c, s, cfg, iss);
      Deadline(cfg, b) == cfg.rto + 1 + Retries(cfg, 0, Limit(cfg, SynRcvd)) && b.rto == cfg.rto
  {
    hide Retries, Limit;
  }

  // ----- data -----

  /** A segment of an established connection with the expected number is handed over, and the byte
      behind it is expected next. */
  lemma DataTaken(c: Conn, s: Segment, newRto: nat)
    requires c.state == Established && !c.stopped && !s.rst && !s.syn && !s.fin && s.data != [] && s.seqno == c.rcvNxt
    ensures var (d, got) := Input(c, s, QUIET, newRto);
      got == s.data && d.state == Established && !d.stopped && d.rcvNxt == (c.rcvNxt + |s.data|) % WORD32
  {
  }

  /** The segments that carry the pieces of a stream one after the other. */
  ghost predicate Consecutive(rcvNxt: nat, segments: seq<Segment>)
    decreases segments
  {
    segments != [] ==>
      var s := segments[0];
      && !s.rst && !s.syn && !s.fin && s.data != [] && s.seqno == rcvNxt
      && Consecutive((rcvNxt + |s.data|) % WORD32, segments[1..])
  }

  function Joined(segments: seq<Segment>): Bytes {
    if segments == [] then [] else segments[0].data + Joined(segments[1..])
  }

  function InputAll(c: Conn, segments: seq<Segment>, newRto: nat): (Conn, Bytes)
    decreases segments
  {
    if segments == [] then (c, [])
    else
      var (d, got) := Input(c, segments[0], QUIET, newRto);
      var (e, more) := InputAll(d, segments[1..], newRto);
      (e, got + more)
  }

  /** Nothing of a stream that arrives in order is held back. */
  lemma {:induction false} AllTaken(c: Conn, segments: seq<Segment>, newRto: nat)
    requires c.state == Established && !c.stopped && Consecutive(c.rcvNxt, segments)
    ensures var (d, got) := InputAll(c, segments, newRto);
      got == Joined(segments) && d.state == Established && !d.stopped
    decreases segments
  {
    hide Input;
    if segments != [] {
      DataTaken(c, segments[0], newRto);
      AllTaken(Input(c, segments[0], QUIET, newRto).0, segments[1..], newRto);
    }
  }

  /** While the application has stopped the connection nothing is handed over and nothing is
      acknowledged. */
  lemma StoppedTakesNothing(c: Conn, s: Segment, a: Answer, newRto: nat)
    requires c.state == Established && c.stopped && !s.rst
    ensures Input(c, s, a, newRto).1 == [] && Input(c, s, a, newRto).0.rcvNxt == c.rcvNxt
  {
  }

  /** An acknowledgement of everything outstanding moves the sequence number behind it. */
  lemma AckTaken(c: Conn, s: Segment, newRto: nat)
    requires c.state == Established && !s.rst && !s.syn && !s.fin && s.data == [] && s.ack && c.len != 0
    requires s.ackno == (c.sndNxt + c.len) % WORD32
    ensures var d := Input(c, s, QUIET, newRto).0;
      d.state == Established && d.sndNxt == (c.sndNxt + c.len) % WORD32 && d.len == 0 && d.nrtx == 0
  {
  }

  /** The round-trip estimate is used only if nothing had to be sent again, and the timer starts
      anew either way. */
  lemma EstimateTaken(c: Conn, s: Segment, newRto: nat)
    requires Acks(c, s)
    ensures var d := Acked(c, s, newRto);
      d.timer == d.rto && d.rto == if c.nrtx == 0 then newRto % 0x100 else c.rto
  {
  }

  /** The peer's window limits what is sent next, unless it is closed or larger than the first
      segment size. */
  lemma WindowTaken(c: Conn, s: Segment, newRto: nat)
    requires c.state == Established && !s.rst && !s.syn && !s.fin && s.data == []
    ensures var d := Input(c, s, QUIET, newRto).0;
      d.mss == (if s.wnd == 0 || s.wnd > c.initialMss then c.initialMss else s.wnd) && d.initialMss == c.initialMss
  {
  }

  /** What the application sends when asked is outstanding, cut to the segment size. */
  lemma DataSent(cfg: Config, c: Conn, n: nat)
    requires c.state == Established && !c.stopped && c.len == 0 && n > 0
    ensures var d := PollStep(c, Answer(Continue, Keep, n));
      d.state == Established && d.len == (if n > c.mss then c.mss else n) && d.nrtx == 0 && d.sndNxt == c.sndNxt
    ensures TimerStep(cfg, c, Answer(Continue, Keep, n)) == PollStep(c, Answer(Continue, Keep, n))
  {
  }

  // ----- closing -----

  /** One end closes: FIN, FIN and ACK, ACK.  The closing end waits in TIME_WAIT, the other is
      closed. */
  lemma OrderlyClose(a: Conn, b: Conn, rtoA: nat, rtoB: nat)
    requires a.state == Established && b.state == Established && a.len == 0 && b.len == 0 && !a.stopped && !b.stopped
    requires InStep(a, b) && a.sndNxt < WORD32 && b.sndNxt < WORD32
    ensures var a1 := PollStep(a, CLOSING);
      var b1 := Input(b, Reply(a1, false, true, [], 0), QUIET, rtoB).0;
      var a2 := Input(a1, Reply(b1, false, true, [], 0), QUIET, rtoA).0;
      var ack := Reply(a2, false, false, [], 0);
      var b2 := Input(b1, ack, QUIET, rtoB).0;
      && a1.state == FinWait1 && a1.len == 1 && a1.nrtx == 0
      && b1.state == LastAck && b1.len == 1 && b1.nrtx == 0
      && a2.state == TimeWait && a2.timer == 0
      && b2.state == Closed
  {
  }

  /** The ends acknowledge first and close later: FIN_WAIT_2 in between. */
  lemma HalfClose(a: Conn, s: Segment, f: Segment, newRto: nat)
    requires a.state == FinWait1 && !a.stopped && a.len != 0
    requires !s.rst && !s.syn && !s.fin && s.data == [] && s.ack && s.ackno == (a.sndNxt + a.len) % WORD32
    requires !f.rst && !f.syn && f.fin && f.data == [] && !f.ack && f.seqno == a.rcvNxt && a.rcvNxt < WORD32
    ensures var b := Input(a, s, QUIET, newRto).0; var c := Input(b, f, QUIET, newRto).0;
      && b.state == FinWait2 && b.len == 0
      && c.state == TimeWait && c.timer == 0 && c.rcvNxt == (a.rcvNxt + 1) % WORD32
  {
  }

  /** After its own FIN a connection acknowledges what still arrives but hands nothing over. */
  lemma LateData(c: Conn, s: Segment, newRto: nat)
    requires (c.state == FinWait1 || c.state == FinWait2) && !s.rst && !s.syn && !s.fin && !s.ack
    requires s.data != [] && s.seqno == c.rcvNxt
    ensures var (d, got) := Input(c, s, QUIET, newRto);
      got == [] && d == c.(rcvNxt := (c.rcvNxt + |s.data|) % WORD32)
  {
  }

  /** TIME_WAIT takes nothing in, and an acknowledgement of nothing outstanding changes nothing in
      the states that wait for one. */
  lemma WaitingUnmoved(c: Conn, s: Segment, newRto: nat)
    requires !s.rst && !s.syn && !s.fin && s.data == [] && !s.ack
    ensures c.state == TimeWait || c.state == Closing || c.state == LastAck || c.state == SynRcvd ==>
              Input(c, s, QUIET, newRto) == (c, [])
  {
  }

  /** Both ends close at once: CLOSING until the own FIN is acknowledged. */
  lemma SimultaneousClose(a: Conn, f: Segment, s: Segment, newRto: nat)
    requires a.state == FinWait1 && !a.stopped && a.len != 0
    requires !f.rst && !f.syn && f.fin && f.data == [] && !f.ack && f.seqno == a.rcvNxt
    requires !s.rst && !s.syn && !s.fin && s.data == [] && s.ack && s.ackno == (a.sndNxt + a.len) % WORD32
    ensures var b := Input(a, f, QUIET, newRto).0; var c := Input(b, s, QUIET, newRto).0;
      b.state == Closing && c.state == TimeWait && c.timer == 0
  {
  }

  /** A FIN with the last data: both are taken, unless own data is still outstanding. */
  lemma FinTaken(c: Conn, s: Segment, newRto: nat)
    requires c.state == Established && !c.stopped && !s.rst && !s.syn && s.fin && s.seqno == c.rcvNxt && !s.ack
    ensures var (d, got) := Input(c, s, QUIET, newRto);
      if c.len == 0 then
        d.state == LastAck && got == s.data && d.len == 1 && d.rcvNxt == (c.rcvNxt + 1 + |s.data|) % WORD32
      else d == c && got == []
  {
  }

  // ----- what ends or ignores a segment -----

  /** A reset closes in every state, an abort from ESTABLISHED; the slot is free afterwards. */
  lemma ResetCloses(c: Conn, s: Segment, newRto: nat)
    requires s.rst
    ensures Input(c, s, QUIET, newRto).0.state == Closed && Input(c, s, QUIET, newRto).1 == []
    ensures !Active(Input(c, s, QUIET, newRto).0)
    ensures c.state == Established && c.len == 0 ==> !Active(PollStep(c, Answer(Abort, Keep, 0)))
  {
  }

  /** A stopped connection that is closed is stopped no more. */
  lemma CloseRestarts(c: Conn)
    requires c.state == Established && c.len == 0
    ensures var d := PollStep(c, CLOSING); d.state == FinWait1 && !d.stopped
  {
  }

  /** When data is sent again the application is asked, and may stop or restart the connection. */
  lemma AskedAgain(cfg: Config, c: Conn, a: Answer)
    requires c.state == Established && c.len != 0 && c.timer == 0 && !GivesUp(cfg, c)
    ensures var d := TimerStep(cfg, c, a);
      && d.state == Established && d.len == c.len
      && d.stopped == (if a.flow == Stop then true else if a.flow == Restart then false else c.stopped)
  {
  }

  /** Anything with another sequence number than the expected one changes nothing. */
  lemma UnexpectedIgnored(c: Conn, s: Segment, a: Answer, newRto: nat)
    requires c.state != SynSent && c.state != SynRcvd && !s.rst
    requires (s.data != [] || s.syn || s.fin) && s.seqno != c.rcvNxt
    ensures Input(c, s, a, newRto) == (c, [])
  {
  }

  /** In SYN_SENT anything but the SYN and ACK that acknowledges ours closes the connection. */
  lemma RefusedOpen(c: Conn, s: Segment, newRto: nat)
    requires c.state == SynSent && !s.rst && s.data == [] && !s.fin && !s.syn
    ensures Input(c, s, QUIET, newRto).0.state == Closed
  {
  }
}

/** One TCP connection: the timer and input parts of uip_process (src/net/uip.c:604-734,
    1173-1606), a step at a time. */
module UipTcp {
  import opened Common

  const WORD32 := 0x1_0000_0000

  datatype TcpState = Closed | SynRcvd | SynSent | Established | FinWait1 | FinWait2 | Closing | TimeWait | LastAck

  datatype Config = Config(rto: nat, maxRtx: nat, maxSynRtx: nat, timeWaitTimeout: nat)

  /** The backed-off timer values and the timeout fit the 8-bit timer. */
  predicate ConfigOk(cfg: Config) {
    cfg.rto * 16 <= 255 && cfg.maxRtx <= 255 && cfg.maxSynRtx <= 255 && cfg.timeWaitTimeout <= 255
  }

  /** struct uip_conn; `stopped` is the UIP_STOPPED bit of tcpstateflags.  Sequence numbers are
      the values of their four bytes. */
  datatype Conn = Conn(state: TcpState, stopped: bool, lport: nat, rport: nat, rip: nat, timer: nat, nrtx: nat,
                       len: nat, sndNxt: nat, rcvNxt: nat, mss: nat, initialMss: nat, rto: nat)

  datatype Segment = Segment(srcport: nat, destport: nat, srcip: nat, fin: bool, syn: bool, rst: bool, psh: bool,
                             ack: bool, seqno: nat, ackno: nat, wnd: nat, data: Bytes)

  datatype Command = Continue | Close | Abort
  datatype Flow = Keep | Stop | Restart

  /** What the application does when it is called. */
  datatype Answer = Answer(command: Command, flow: Flow, slen: nat)

  predicate SynAck(s: Segment) { s.syn && s.ack && !s.fin && !s.rst && !s.psh }
  predicate SynOnly(s: Segment) { s.syn && !s.ack && !s.fin && !s.rst && !s.psh }

  /** uip_stop and uip_restart change the state flags whatever the state is. */
  function AppCall(c: Conn, a: Answer): Conn {
    match a.flow
    case Keep => c
    case Stop => c.(stopped := true)
    case Restart => c.(stopped := false)
  }

  function Enter(c: Conn, st: TcpState): Conn {
    c.(state := st, stopped := false)
  }

  /** From the label appsend on. */
  function AppSend(c: Conn, ackData: bool, a: Answer): Conn {
    match a.command
    case Abort => Enter(c, Closed)
    case Close => Enter(c, FinWait1).(len := 1, nrtx := 0)
    case Continue =>
      if a.slen == 0 then c.(nrtx := 0)
      else if ackData || c.len == 0 then c.(len := if a.slen > c.mss then c.mss else a.slen, nrtx := 0)
      else c.(nrtx := 0)
  }

  // ----- the periodic timer -----

  function Backoff(cfg: Config, nrtx: nat): nat {
    cfg.rto * (if nrtx == 0 then 1 else if nrtx == 1 then 2 else if nrtx == 2 then 4 else if nrtx == 3 then 8 else 16)
  }

  predicate GivesUp(cfg: Config, c: Conn) {
    c.nrtx == cfg.maxRtx || ((c.state == SynSent || c.state == SynRcvd) && !c.stopped && c.nrtx == cfg.maxSynRtx)
  }

  function TimerStep(cfg: Config, c: Conn, a: Answer): Conn {
    if (c.state == TimeWait || c.state == FinWait2) && !c.stopped then
      var t := (c.timer + 1) % 0x100;
      if t == cfg.timeWaitTimeout then Enter(c, Closed).(timer := t) else c.(timer := t)
    else if c.state == Closed && !c.stopped then c
    else if c.len != 0 then
      if c.timer != 0 then c.(timer := c.timer - 1)
      else if GivesUp(cfg, c) then AppCall(Enter(c, Closed).(timer := 0xff), a)
      else
        var r := c.(timer := Backoff(cfg, c.nrtx) % 0x100, nrtx := (c.nrtx + 1) % 0x100);
        if c.state == Established then AppCall(r, a) else r
    else if c.state == Established then AppSend(AppCall(c, a), false, a)
    else c
  }

  /** UIP_POLL_REQUEST. */
  function PollStep(c: Conn, a: Answer): Conn {
    if c.state == Established && c.len == 0 then AppSend(AppCall(c, a), false, a) else c
  }

  // ----- input -----

  function Add32(x: nat, y: nat): nat { (x + y) % WORD32 }

  /** The segment acknowledges the outstanding data. */
  predicate Acks(c: Conn, s: Segment) {
    s.ack && c.len != 0 && s.ackno == Add32(c.sndNxt, c.len)
  }

  /** The sequence number matters and is not the expected one. */
  predicate OutOfOrder(c: Conn, s: Segment) {
    && !(c.state == SynSent && SynAck(s)) && !(c.state == SynRcvd && SynOnly(s))
    && (s.data != [] || s.syn || s.fin) && s.seqno != c.rcvNxt
  }

  // newRto is the outcome of the round-trip estimator.
  function Acked(c: Conn, s: Segment, newRto: nat): Conn {
    if Acks(c, s) then
      var rto := if c.nrtx == 0 then newRto % 0x100 else c.rto;
      c.(sndNxt := s.ackno, rto := rto, timer := rto, len := 0)
    else c
  }

  function UpdateMss(c: Conn, s: Segment): Conn {
    c.(mss := if s.wnd > c.initialMss || s.wnd == 0 then c.initialMss else s.wnd)
  }

  /** A segment for connection c: the new state, and the payload the application is told of
      with UIP_NEWDATA. */
  function Input(c: Conn, s: Segment, a: Answer, newRto: nat): (Conn, Bytes) {
    if s.rst then (AppCall(Enter(c, Closed), a), [])
    else if OutOfOrder(c, s) then (c, [])
    else InputAcked(Acked(c, s, newRto), s, a, Acks(c, s))
  }

  function InputAcked(c: Conn, s: Segment, a: Answer, ackData: bool): (Conn, Bytes) {
    match c.state
    case SynRcvd =>
      if ackData then
        var d := Enter(c, Established).(len := 0, rcvNxt := Add32(c.rcvNxt, |s.data|));
        (AppSend(AppCall(d, a), false, a), s.data)
      else (c, [])
    case SynSent =>
      if ackData && SynAck(s) then
        var d := Enter(c, Established).(len := 0, rcvNxt := Add32(s.seqno, 1));
        (AppSend(AppCall(d, a), false, a), [])
      else (Enter(c, Closed), [])
    case Established => InputEstablished(c, s, a, ackData)
    case LastAck => (if ackData then AppCall(Enter(c, Closed), a) else c, [])
    case FinWait1 =>
      var d := c.(rcvNxt := Add32(c.rcvNxt, |s.data|));
      if s.fin then
        var e := if ackData then Enter(d, TimeWait).(timer := 0, len := 0) else Enter(d, Closing);
        (AppCall(e.(rcvNxt := Add32(d.rcvNxt, 1)), a), [])
      else if ackData then (Enter(d, FinWait2).(len := 0), [])
      else (d, [])
    case FinWait2 =>
      var d := c.(rcvNxt := Add32(c.rcvNxt, |s.data|));
      if s.fin then (AppCall(Enter(d, TimeWait).(timer := 0, rcvNxt := Add32(d.rcvNxt, 1)), a), [])
      else (d, [])
    case Closing => (if ackData then Enter(c, TimeWait).(timer := 0) else c, [])
    case TimeWait => (c, [])
    case Closed => (c, [])
  }

  function InputEstablished(c: Conn, s: Segment, a: Answer, ackData: bool): (Conn, Bytes) {
    if s.fin && !c.stopped then
      if c.len != 0 then (c, [])
      else (Enter(c, LastAck).(rcvNxt := Add32(c.rcvNxt, 1 + |s.data|), len := 1, nrtx := 0), s.data)
    else
      var accept := s.data != [] && !c.stopped;
      var d := UpdateMss(if accept then c.(rcvNxt := Add32(c.rcvNxt, |s.data|)) else c, s);
      (if accept || ackData then AppSend(AppCall(d, a), ackData, a) else d, if accept then s.data else [])
  }

  // ----- all steps of one connection -----

  /** tcpstateflags differs from UIP_CLOSED. */
  predicate Active(c: Conn) {
    c.state != Closed || c.stopped
  }

  datatype Event =
    | Timer(answer: Answer)
    | Poll(answer: Answer)
    | Arrives(segment: Segment, answer: Answer, newRto: nat)

  function Step(cfg: Config, c: Conn, e: Event): (Conn, Bytes) {
    match e
    case Timer(a) => (TimerStep(cfg, c, a), [])
    case Poll(a) => (PollStep(c, a), [])
    case Arrives(s, a, r) => if Active(c) then Input(c, s, a, r) else (c, [])
  }

  function Unacknowledged(st: TcpState): bool {
    st == SynSent || st == SynRcvd || st == FinWait1 || st == Closing || st == LastAck
  }

  /** How many retransmissions a state allows. */
  function Limit(cfg: Config, st: TcpState): nat {
    if (st == SynSent || st == SynRcvd) && cfg.maxSynRtx < cfg.maxRtx then cfg.maxSynRtx else cfg.maxRtx
  }

  /** A SYN or FIN of our own is outstanding in every state that waits for its acknowledgement,
      and retransmissions stay within their limit. */
  predicate Good(cfg: Config, c: Conn) {
    && (c.stopped ==> c.state == Established)
    && (Unacknowledged(c.state) ==> c.len > 0)
    && (c.state != Closed ==> c.nrtx <= Limit(cfg, c.state))
    && c.timer < 0x100 && c.len < 0x1_0000 && c.mss < 0x1_0000 && c.initialMss < 0x1_0000 && c.rto < 0x100
  }

  /** Holds for every application that calls uip_stop only while the connection is
      ESTABLISHED: no connection is left stopped in another state. */
  predicate StopsOnlyEstablished(c: Conn) {
    c.stopped ==> c.state == Established
  }

  // appsend runs in ESTABLISHED, where nothing has to be outstanding.
  lemma AppSendGood(cfg: Config, c: Conn, ackData: bool, a: Answer)
    requires Good(cfg, c.(stopped := false)) && c.state == Established
    requires StopsOnlyEstablished(AppSend(c, ackData, a))
    ensures Good(cfg, AppSend(c, ackData, a))
  {
  }

  lemma TimerGood(cfg: Config, c: Conn, a: Answer)
    requires ConfigOk(cfg) && Good(cfg, c) && StopsOnlyEstablished(TimerStep(cfg, c, a))
    ensures Good(cfg, TimerStep(cfg, c, a))
  {
    hide Backoff, AppSend;
    if c.state == Established && c.len == 0 {
      AppSendGood(cfg, AppCall(c, a), false, a);
    }
  }

  lemma AckedGood(cfg: Config, c: Conn, s: Segment, newRto: nat)
    requires Good(cfg, c)
    ensures var d := Acked(c, s, newRto);
      && Good(cfg, d.(len := c.len)) && d.state == c.state && d.len == if Acks(c, s) then 0 else c.len
  {
    hide Acks;
  }

  lemma InputGood(cfg: Config, c: Conn, len: nat, s: Segment, a: Answer, ackData: bool)
    requires ConfigOk(cfg) && Good(cfg, c.(len := len)) && c.len == (if ackData then 0 else len)
    requires s.wnd < 0x1_0000 && StopsOnlyEstablished(InputAcked(c, s, a, ackData).0)
    ensures Good(cfg, InputAcked(c, s, a, ackData).0)
  {
    hide SynAck, Add32;
    match c.state
    case Established => EstablishedGood(cfg, c, s, a, ackData);
    case SynRcvd =>
    case SynSent =>
    case FinWait1 =>
    case FinWait2 =>
    case Closing =>
    case TimeWait =>
    case LastAck =>
    case Closed =>
  }

  lemma EstablishedGood(cfg: Config, c: Conn, s: Segment, a: Answer, ackData: bool)
    requires ConfigOk(cfg) && Good(cfg, c) && c.state == Established
    requires s.wnd < 0x1_0000 && StopsOnlyEstablished(InputEstablished(c, s, a, ackData).0)
    ensures Good(cfg, InputEstablished(c, s, a, ackData).0)
  {
    hide Add32, AppSend;
    var accept := s.data != [] && !c.stopped;
    var d := UpdateMss(if accept then c.(rcvNxt := Add32(c.rcvNxt, |s.data|)) else c, s);
    if !(s.fin && !c.stopped) && (accept || ackData) {
      AppSendGood(cfg, AppCall(d, a), ackData, a);
    }
  }

  /** Every step of every such application keeps this. */
  lemma GoodKept(cfg: Config, c: Conn, e: Event)
    requires ConfigOk(cfg) && Good(cfg, c) && StopsOnlyEstablished(Step(cfg, c, e).0)
    requires e.Arrives? ==> e.segment.wnd < 0x1_0000
    ensures Good(cfg, Step(cfg, c, e).0)
  {
    hide Acks, OutOfOrder, SynAck, AppSend, Acked, InputAcked, TimerStep, Limit;
    match e
    case Timer(a) => TimerGood(cfg, c, a);
    case Poll(a) =>
      if c.state == Established && c.len == 0 {
        AppSendGood(cfg, AppCall(c, a), false, a);
      }
    case Arrives(s, a, r) =>
      if c.state != Closed && !s.rst && !OutOfOrder(c, s) {
        AckedGood(cfg, c, s, r);
        InputGood(cfg, Acked(c, s, r), c.len, s, a, Acks(c, s));
      }
  }

  /** The sequence number of what is in flight moves only past it, and only when it is
      acknowledged; until then, while the state stays the same, what is in flight stays too. */
  lemma SendSide(cfg: Config, c: Conn, e: Event)
    requires Good(cfg, c)
    ensures var d := Step(cfg, c, e).0;
      && (d.sndNxt != c.sndNxt ==> e.Arrives? && Acks(c, e.segment) && d.sndNxt == Add32(c.sndNxt, c.len))
      && (d.sndNxt == c.sndNxt && d.sndNxt < WORD32 && d.state == c.state && c.len > 0 ==> d.len == c.len)
  {
    hide OutOfOrder, SynAck, Backoff, GivesUp, UpdateMss, Limit;
    match e
    case Timer(a) =>
    case Poll(a) =>
    case Arrives(s, a, r) =>
      if Active(c) && !s.rst && !OutOfOrder(c, s) {
        var d := Acked(c, s, r);
        AckedMoves(c, s, r);
        InputKeepsFlight(d, s, a, Acks(c, s));
      }
  }

  lemma AckedMoves(c: Conn, s: Segment, newRto: nat)
    requires c.len < 0x1_0000
    ensures var d := Acked(c, s, newRto);
      && d.state == c.state
      && (Acks(c, s) ==> d.len == 0 && d.sndNxt == Add32(c.sndNxt, c.len))
      && (Acks(c, s) ==> (c.sndNxt < WORD32 ==> d.sndNxt != c.sndNxt))
      && (!Acks(c, s) ==> d.len == c.len && d.sndNxt == c.sndNxt)
  {
  }

  lemma InputKeepsFlight(c: Conn, s: Segment, a: Answer, ackData: bool)
    ensures var d := InputAcked(c, s, a, ackData).0;
      d.sndNxt == c.sndNxt && (!ackData && d.state == c.state && c.len > 0 ==> d.len == c.len)
  {
    hide SynAck, UpdateMss, Add32;
    UpdateMssOnly(c, s);
    UpdateMssOnly(c.(rcvNxt := Add32(c.rcvNxt, |s.data|)), s);
  }

  lemma UpdateMssOnly(c: Conn, s: Segment)
    ensures UpdateMss(c, s) == c.(mss := UpdateMss(c, s).mss)
  {
  }

  // ----- a silent peer -----

  /** Timer calls spent on the retransmissions from nrtx up to the limit. */
  function Retries(cfg: Config, nrtx: nat, limit: nat): nat
    decreases limit - nrtx
  {
    if nrtx >= limit then 0 else Backoff(cfg, nrtx) + 1 + Retries(cfg, nrtx + 1, limit)
  }

  /** The number of timer calls after which a connection that hears nothing is closed. */
  function Deadline(cfg: Config, c: Conn): nat {
    if c.state == TimeWait || c.state == FinWait2 then (cfg.timeWaitTimeout - c.timer - 1) % 0x100 + 1
    else c.timer + 1 + Retries(cfg, c.nrtx, Limit(cfg, c.state))
  }

  /** A connection with outstanding data, or one that only waits for its timeout. */
  predicate RunsDown(c: Conn) {
    c.state == TimeWait || c.state == FinWait2 || (c.state != Closed && c.len > 0)
  }

  /** Each timer call brings the end one call nearer, whatever the application answers. */
  lemma TimerCountsDown(cfg: Config, c: Conn, a: Answer)
    requires ConfigOk(cfg) && Good(cfg, c) && RunsDown(c)
    requires StopsOnlyEstablished(TimerStep(cfg, c, a))
    ensures var d := TimerStep(cfg, c, a);
      && Good(cfg, d)
      && (Deadline(cfg, c) == 1 ==> d.state == Closed)
      && (Deadline(cfg, c) > 1 ==> RunsDown(d) && d.state == c.state && Deadline(cfg, d) == Deadline(cfg, c) - 1)
  {
    hide TimerStep, Good, Deadline;
    TimerGood(cfg, c, a);
    if c.state == TimeWait || c.state == FinWait2 {
      WaitingCountsDown(cfg, c, a);
    } else {
      RetryingCountsDown(cfg, c, a);
    }
  }

  lemma WaitingCountsDown(cfg: Config, c: Conn, a: Answer)
    requires ConfigOk(cfg) && Good(cfg, c) && (c.state == TimeWait || c.state == FinWait2)
    ensures var d := TimerStep(cfg, c, a);
      && (Deadline(cfg, c) == 1 ==> d.state == Closed)
      && (Deadline(cfg, c) > 1 ==> RunsDown(d) && d.state == c.state && Deadline(cfg, d) == Deadline(cfg, c) - 1)
  {
    hide AppSend, Retries, Limit, GivesUp, Backoff;
    WaitCountsDown(cfg.timeWaitTimeout, c.timer);
  }

  lemma RetryingCountsDown(cfg: Config, c: Conn, a: Answer)
    requires ConfigOk(cfg) && Good(cfg, c) && RunsDown(c) && c.state != TimeWait && c.state != FinWait2
    requires StopsOnlyEstablished(TimerStep(cfg, c, a))
    ensures var d := TimerStep(cfg, c, a);
      && (Deadline(cfg, c) == 1 ==> d.state == Closed)
      && (Deadline(cfg, c) > 1 ==> RunsDown(d) && d.state == c.state && Deadline(cfg, d) == Deadline(cfg, c) - 1)
  {
    hide AppSend, Retries, Limit, GivesUp, Backoff;
    GivesUpAtLimit(cfg, c);
    RetriesUnfold(cfg, c.nrtx, Limit(cfg, c.state));
    if c.timer == 0 && !GivesUp(cfg, c) {
      BackoffFits(cfg, c.nrtx);
    }
  }

  lemma GivesUpAtLimit(cfg: Config, c: Conn)
    requires ConfigOk(cfg) && Good(cfg, c) && c.state != Closed
    ensures GivesUp(cfg, c) <==> c.nrtx == Limit(cfg, c.state)
    ensures c.nrtx <= Limit(cfg, c.state) <= 255
  {
  }

  lemma RetriesUnfold(cfg: Config, nrtx: nat, limit: nat)
    ensures nrtx >= limit ==> Retries(cfg, nrtx, limit) == 0
    ensures nrtx < limit ==> Retries(cfg, nrtx, limit) == Backoff(cfg, nrtx) + 1 + Retries(cfg, nrtx + 1, limit)
  {
  }

  lemma WaitCountsDown(timeout: nat, timer: nat)
    requires timeout <= 0xff && timer <= 0xff
    ensures var t := (timer + 1) % 0x100;
      && (t == timeout <==> (timeout - timer - 1) % 0x100 == 0)
      && (t != timeout ==> (timeout - t - 1) % 0x100 == (timeout - timer - 1) % 0x100 - 1)
  {
    ByteDistance(timeout, timer);
    ByteDistance(timeout, (timer + 1) % 0x100);
  }

  lemma ByteDistance(a: nat, b: nat)
    requires a <= 0xff && b <= 0xff
    ensures (a - b - 1) % 0x100 == if b < a then a - b - 1 else a - b + 0xff
    ensures (b + 1) % 0x100 == if b == 0xff then 0 else b + 1
  {
  }

  function Power2(k: nat): nat {
    if k == 0 then 1 else 2 * Power2(k - 1)
  }

  /** The C code shifts: RTO << min(nrtx, 4). */
  lemma BackoffShifts(cfg: Config, nrtx: nat)
    ensures Backoff(cfg, nrtx) == cfg.rto * Power2(if nrtx > 4 then 4 else nrtx)
  {
    assert Power2(2) == 4 && Power2(3) == 8 && Power2(4) == 16;
  }

  lemma BackoffFits(cfg: Config, nrtx: nat)
    requires ConfigOk(cfg)
    ensures Backoff(cfg, nrtx) % 0x100 == Backoff(cfg, nrtx)
  {
    assert Backoff(cfg, nrtx) <= cfg.rto * 16;
  }

  /** The connection after a series of timer calls. */
  function Silent(cfg: Config, c: Conn, answers: seq<Answer>): Conn
    decreases answers
  {
    if answers == [] then c else Silent(cfg, TimerStep(cfg, c, answers[0]), answers[1..])
  }

  ghost predicate PoliteSilent(cfg: Config, c: Conn, answers: seq<Answer>)
    decreases answers
  {
    answers != [] ==>
      StopsOnlyEstablished(TimerStep(cfg, c, answers[0])) && PoliteSilent(cfg, TimerStep(cfg, c, answers[0]),
                           answers[1..])
  }

  /** Without input the connection stays as it is for Deadline - 1 timer calls and is CLOSED
      after exactly Deadline of them. */
  lemma {:induction false} SilentPeerBounded(cfg: Config, c: Conn, answers: seq<Answer>)
    requires ConfigOk(cfg) && Good(cfg, c) && RunsDown(c) && PoliteSilent(cfg, c, answers)
    ensures |answers| < Deadline(cfg, c) ==> Silent(cfg, c, answers).state == c.state
    ensures |answers| == Deadline(cfg, c) ==> Silent(cfg, c, answers).state == Closed
    decreases answers
  {
    hide TimerStep, Deadline, Good, RunsDown;
    if answers != [] {
      TimerCountsDown(cfg, c, answers[0]);
      if |answers| <= Deadline(cfg, c) && Deadline(cfg, c) > 1 {
        SilentPeerBounded(cfg, TimerStep(cfg, c, answers[0]), answers[1..]);
      }
    } else {
      DeadlinePositive(cfg, c);
    }
  }

  /** The assumption on uip_stop is needed: a connection stopped in TIME_WAIT or FIN_WAIT_2
      compares unequal to both and is never timed out, while one that is not stopped is. */
  lemma StoppedStays(cfg: Config, c: Conn, a: Answer)
    requires ConfigOk(cfg) && (c.state == TimeWait || c.state == FinWait2) && c.len == 0 && c.timer < 0x100
    ensures c.stopped <==> TimerStep(cfg, c, a) == c
  {
    if !c.stopped {
      assert (c.timer + 1) % 0x100 != c.timer;
    }
  }

  lemma DeadlinePositive(cfg: Config, c: Conn)
    ensures Deadline(cfg, c) > 0
    ensures c.state == TimeWait || c.state == FinWait2 ==> Deadline(cfg, c) <= 0x100
    ensures c.state != TimeWait && c.state != FinWait2 ==>
              Deadline(cfg, c) <= c.timer + 1 + Retries(cfg, c.nrtx, cfg.maxRtx)
  {
    RetriesMonotone(cfg, c.nrtx, Limit(cfg, c.state), cfg.maxRtx);
  }

  lemma {:induction false} RetriesMonotone(cfg: Config, nrtx: nat, a: nat, b: nat)
    requires a <= b
    ensures Retries(cfg, nrtx, a) <= Retries(cfg, nrtx, b)
    decreases b - nrtx
  {
    if nrtx < a {
      RetriesMonotone(cfg, nrtx + 1, a, b);
    }
  }
}

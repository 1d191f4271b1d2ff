/** What an event puts on the wire, read off the operations it performs. */
module FsmWire {
  import opened FsmModel

  predicate IsAnswer(op: Op) { op.SendConfAck? || op.SendConfNak? || op.SendConfRej? }

  predicate IsSend(op: Op) {
    op.SendConfReq? || op.SendTermReq? || op.SendTermAck? || IsAnswer(op)
  }

  /** The negotiation packets among the operations, in order. */
  function Sent(t: Trace): seq<Op> {
    match t
    case Nothing => []
    case Then(before, op) => if IsSend(op) then Sent(before) + [op] else Sent(before)
  }

  /** The states announced, in order. */
  function Shifts(t: Trace): seq<State> {
    match t
    case Nothing => []
    case Then(before, op) => if op.NewState? then Shifts(before) + [op.now] else Shifts(before)
  }

  function AnswerOp(id: Byte, verdict: Verdict): Op {
    match verdict
    case Ack => SendConfAck(id)
    case Nak => SendConfNak(id)
    case Rej => SendConfRej(id)
  }

  predicate Acknowledged(s: State) { s == AckRcvd || s == Opened }

  /** The packets an event sends, given how often it performs each sending action: a request draws
      the next identifier and goes first; a received request is answered under its identifier. */
  function Wire(m: Machine, ev: Event, acts: Tally): seq<Op> {
    var answered := ev.RecvConfReq? && (acts.sca > 0 || acts.scn > 0);
    if acts.scr > 0 then
      if answered then [SendConfReq(m.serial), AnswerOp(ev.id, ev.verdict)]
      else if acts.str > 0 then [SendConfReq(m.serial), SendTermReq(m.serial + 1)]
      else [SendConfReq(m.serial)]
    else if answered then [AnswerOp(ev.id, ev.verdict)]
    else if acts.str > 0 then [SendTermReq(m.serial)]
    else if acts.sta > 0 then [SendTermAck(m.serial)]
    else []
  }

  /** An event sends exactly these packets and announces exactly the change of state it makes. */
  predicate Wired(m: Machine, ev: Event, o: Outcome) {
    && Sent(o.trace) == Wire(m, ev, o.acts)
    && Shifts(o.trace) == if o.m.state == m.state then [] else [o.m.state]
  }

  /** A request draws an identifier.  A state that counts on the peer's Configure-Ack is entered only
      by receiving one for the last identifier, and is kept only while no identifier is drawn but for
      a reset request. */
  predicate Drawn(m: Machine, ev: Event, o: Outcome) {
    && m.serial <= o.m.serial
    && (o.acts.scr > 0 ==> m.serial < o.m.serial)
    && (Acknowledged(o.m.state) ==>
          && (o.m.serial == m.serial || ev.ResetRequest?)
          && o.acts.scr == 0
          && (Acknowledged(m.state) || (ev.RecvConfAck? && Expected(m, ev.id))))
  }

  function Back(t: Trace): Trace { if t.Then? then t.before else t }

  /** Sent and Shifts, spelled out for the longest traces. */
  function SentThen(t: Trace): seq<Op> {
    if t.Nothing? then []
    else if IsSend(t.op) then Sent(t.before) + [t.op] else Sent(t.before)
  }

  function ShiftsThen(t: Trace): seq<State> {
    if t.Nothing? then []
    else if t.op.NewState? then Shifts(t.before) + [t.op.now] else Shifts(t.before)
  }

  predicate Unrolled(t: Trace) { Sent(t) == SentThen(t) && Shifts(t) == ShiftsThen(t) }

  lemma Unroll(t: Trace)
    ensures Unrolled(t) && Unrolled(Back(t)) && Unrolled(Back(Back(t)))
    ensures Unrolled(Back(Back(Back(t)))) && Unrolled(Back(Back(Back(Back(t)))))
    ensures Unrolled(Back(Back(Back(Back(Back(t))))))
    ensures Unrolled(Back(Back(Back(Back(Back(Back(t)))))))
    ensures Unrolled(Back(Back(Back(Back(Back(Back(Back(t))))))))
    ensures Unrolled(Back(Back(Back(Back(Back(Back(Back(Back(t)))))))))
  {}

  /** What a shutdown adds. */
  predicate FailsWith(conf: Conf, o: Outcome, f: Outcome) {
    && Sent(f.trace) ==
       Sent(o.trace) + (if o.m.state == Opened then [SendTermReq(o.m.serial)] else [])
    && Shifts(f.trace) == Shifts(o.trace) + (if f.m.state == o.m.state then [] else [f.m.state])
    && f.acts.str == o.acts.str + (if o.m.state == Opened then 1 else 0)
    && f.acts.scr == o.acts.scr && f.acts.sca == o.acts.sca && f.acts.scn == o.acts.scn
    && f.acts.sta == o.acts.sta
    && f.m.state != Opened
  }

  lemma FailWired(conf: Conf, o: Outcome)
    ensures FailsWith(conf, o, o.Fail(conf))
  {
    if o.m.state == Opened {
      Unroll(o.Fail(conf).trace);
    } else {
      FailElsewhere(conf, o);
    }
  }

  lemma FailElsewhere(conf: Conf, o: Outcome)
    requires o.m.state != Opened
    ensures FailsWith(conf, o, o.Fail(conf))
  { Unroll(o.Fail(conf).trace); }

  lemma OpenWired(conf: Conf, m: Machine)
    ensures Wired(m, Open, OnOpen(conf, m))
  {
    hide Wired, OnOpen;
    if m.state == Closed {
      OpenWiredHere(conf, m);
    } else {
      OpenWiredElsewhere(conf, m);
    }
  }

  lemma OpenWiredHere(conf: Conf, m: Machine)
    requires m.state == Closed
    ensures Wired(m, Open, OnOpen(conf, m))
  { Unroll(OnOpen(conf, m).trace); }

  lemma OpenWiredElsewhere(conf: Conf, m: Machine)
    requires !(m.state == Closed)
    ensures Wired(m, Open, OnOpen(conf, m))
  { Unroll(OnOpen(conf, m).trace); }

  lemma UpWired(conf: Conf, m: Machine)
    ensures Wired(m, Up, OnUp(conf, m))
  { Unroll(OnUp(conf, m).trace); }

  lemma DownWired(conf: Conf, m: Machine)
    ensures Wired(m, Down, OnDown(conf, m))
  { Unroll(OnDown(conf, m).trace); }

  lemma CloseWired(conf: Conf, m: Machine)
    ensures Wired(m, Close, OnClose(conf, m))
  {
    hide Wired, OnClose;
    if m.state == Opened {
      CloseWiredHere(conf, m);
    } else {
      CloseWiredElsewhere(conf, m);
    }
  }

  lemma CloseWiredHere(conf: Conf, m: Machine)
    requires m.state == Opened
    ensures Wired(m, Close, OnClose(conf, m))
  { Unroll(OnClose(conf, m).trace); }

  lemma CloseWiredElsewhere(conf: Conf, m: Machine)
    requires !(m.state == Opened)
    ensures Wired(m, Close, OnClose(conf, m))
  { Unroll(OnClose(conf, m).trace); }

  lemma TimeoutWired(conf: Conf, m: Machine)
    ensures Wired(m, Timeout, OnTimeout(conf, m))
  {
    hide Wired, OnTimeout;
    if m.restart > 0 && (m.state == Closing || m.state == Stopping) {
      TerminateTimeoutWired(conf, m);
    } else {
      RequestTimeoutWired(conf, m);
    }
  }

  lemma TerminateTimeoutWired(conf: Conf, m: Machine)
    requires m.restart > 0 && (m.state == Closing || m.state == Stopping)
    ensures Wired(m, Timeout, OnTimeout(conf, m))
  {
    hide Outcome.Fail;
    FailWired(conf, Start(m).Timer(false));
    Unroll(OnTimeout(conf, m).trace);
  }

  lemma RequestTimeoutWired(conf: Conf, m: Machine)
    requires !(m.restart > 0 && (m.state == Closing || m.state == Stopping))
    ensures Wired(m, Timeout, OnTimeout(conf, m))
  {
    hide Outcome.Fail;
    FailWired(conf, Start(m).Timer(false));
    Unroll(OnTimeout(conf, m).trace);
  }

  lemma ConfReqWired(conf: Conf, m: Machine, id: Byte, verdict: Verdict)
    ensures Wired(m, RecvConfReq(id, verdict), OnConfReq(conf, m, id, verdict))
  {
    hide OnConfReq, Wired;
    if m.state == Stopped {
      ConfReqStoppedWired(conf, m, id, verdict);
    } else if m.state == Opened {
      ConfReqOpenedWired(conf, m, id, verdict);
    } else {
      ConfReqOtherWired(conf, m, id, verdict);
    }
  }

  lemma ConfReqStoppedWired(conf: Conf, m: Machine, id: Byte, verdict: Verdict)
    requires m.state == Stopped
    ensures Wired(m, RecvConfReq(id, verdict), OnConfReq(conf, m, id, verdict))
  { Unroll(OnConfReq(conf, m, id, verdict).trace); }

  lemma ConfReqOpenedWired(conf: Conf, m: Machine, id: Byte, verdict: Verdict)
    requires m.state == Opened
    ensures Wired(m, RecvConfReq(id, verdict), OnConfReq(conf, m, id, verdict))
  {
    hide Wired, OnConfReq;
    if verdict != Ack && m.failure <= 0 {
      ConfReqGivesUpWired(conf, m, id, verdict);
    } else {
      ConfReqAnswersWired(conf, m, id, verdict);
    }
  }

  lemma ConfReqGivesUpWired(conf: Conf, m: Machine, id: Byte, verdict: Verdict)
    requires m.state == Opened && verdict != Ack && m.failure <= 0
    ensures Wired(m, RecvConfReq(id, verdict), OnConfReq(conf, m, id, verdict))
  {
    hide Outcome.Fail;
    var o := Start(m).Down().Request();
    FailWired(conf, o);
    Unroll(o.trace);
    assert OnConfReq(conf, m, id, verdict) == o.Fail(conf);
  }

  lemma ConfReqAnswersWired(conf: Conf, m: Machine, id: Byte, verdict: Verdict)
    requires m.state == Opened && (verdict == Ack || m.failure > 0)
    ensures Wired(m, RecvConfReq(id, verdict), OnConfReq(conf, m, id, verdict))
  { Unroll(OnConfReq(conf, m, id, verdict).trace); }

  lemma ConfReqOtherWired(conf: Conf, m: Machine, id: Byte, verdict: Verdict)
    requires m.state != Opened && m.state != Stopped
    ensures Wired(m, RecvConfReq(id, verdict), OnConfReq(conf, m, id, verdict))
  {
    hide Outcome.Fail;
    FailWired(conf, Start(m));
    FailWired(conf, Start(m).Down().Request());
    Unroll(OnConfReq(conf, m, id, verdict).trace);
  }

  lemma ConfAckWired(conf: Conf, m: Machine, id: Byte)
    ensures Wired(m, RecvConfAck(id), OnConfAck(conf, m, id))
  {
    hide Wired, OnConfAck;
    if m.state == ReqSent || m.state == AckSent {
      ConfAckWiredHere(conf, m, id);
    } else {
      ConfAckWiredElsewhere(conf, m, id);
    }
  }

  lemma ConfAckWiredHere(conf: Conf, m: Machine, id: Byte)
    requires m.state == ReqSent || m.state == AckSent
    ensures Wired(m, RecvConfAck(id), OnConfAck(conf, m, id))
  { Unroll(OnConfAck(conf, m, id).trace); }

  lemma ConfAckWiredElsewhere(conf: Conf, m: Machine, id: Byte)
    requires !(m.state == ReqSent || m.state == AckSent)
    ensures Wired(m, RecvConfAck(id), OnConfAck(conf, m, id))
  { Unroll(OnConfAck(conf, m, id).trace); }

  lemma ConfNakRejWired(conf: Conf, m: Machine, id: Byte, nak: bool)
    ensures var ev := if nak then RecvConfNak(id) else RecvConfRej(id);
            Wired(m, ev, OnConfNakRej(conf, m, id, nak))
  {
    hide Outcome.Fail;
    FailWired(conf, Start(m));
    Unroll(OnConfNakRej(conf, m, id, nak).trace);
  }

  lemma TermReqWired(conf: Conf, m: Machine)
    ensures Wired(m, RecvTermReq, OnTermReq(conf, m))
  {
    hide Wired, OnTermReq;
    if m.state == Opened {
      TermReqWiredHere(conf, m);
    } else {
      TermReqWiredElsewhere(conf, m);
    }
  }

  lemma TermReqWiredHere(conf: Conf, m: Machine)
    requires m.state == Opened
    ensures Wired(m, RecvTermReq, OnTermReq(conf, m))
  { Unroll(OnTermReq(conf, m).trace); }

  lemma TermReqWiredElsewhere(conf: Conf, m: Machine)
    requires !(m.state == Opened)
    ensures Wired(m, RecvTermReq, OnTermReq(conf, m))
  { Unroll(OnTermReq(conf, m).trace); }

  lemma TermAckWired(conf: Conf, m: Machine)
    ensures Wired(m, RecvTermAck, OnTermAck(conf, m))
  { Unroll(OnTermAck(conf, m).trace); }

  lemma RejectWired(conf: Conf, m: Machine, ev: Event, fatal: bool)
    requires ev.RecvCodeRej? || ev.RecvProtoRej?
    ensures Wired(m, ev, OnReject(conf, m, fatal))
  {
    hide Outcome.Fail;
    FailWired(conf, Start(m));
    Unroll(OnReject(conf, m, fatal).trace);
  }

  lemma EchoWired(conf: Conf, m: Machine, id: Byte, badMagic: bool)
    ensures Wired(m, RecvEchoReq(id, badMagic), OnEchoReq(conf, m, id, badMagic))
  {
    hide Outcome.Fail;
    FailWired(conf, Start(m));
    Unroll(OnEchoReq(conf, m, id, badMagic).trace);
  }

  lemma FailureWired(conf: Conf, m: Machine, ev: Event)
    requires ev.RecvUnknownCode? || ev.RecvOther? || ev.Failure? || ev.ResetRequest?
    ensures Wired(m, ev, Step(conf, m, ev))
  {
    hide Outcome.Fail;
    FailWired(conf, Start(m));
    Unroll(Step(conf, m, ev).trace);
  }

  lemma StepWired(conf: Conf, m: Machine, ev: Event)
    ensures Wired(m, ev, Step(conf, m, ev))
  {
    hide Wired, OnOpen, OnUp, OnDown, OnClose, OnTimeout, OnConfReq, OnConfAck, OnConfNakRej,
      OnTermReq, OnTermAck, OnReject, OnEchoReq;
    match ev
    case Open => OpenWired(conf, m);
    case Up => UpWired(conf, m);
    case Down => DownWired(conf, m);
    case Close => CloseWired(conf, m);
    case Timeout => TimeoutWired(conf, m);
    case RecvConfReq(id, verdict) => ConfReqWired(conf, m, id, verdict);
    case RecvConfAck(id) => ConfAckWired(conf, m, id);
    case RecvConfNak(id) => ConfNakRejWired(conf, m, id, true);
    case RecvConfRej(id) => ConfNakRejWired(conf, m, id, false);
    case RecvTermReq => TermReqWired(conf, m);
    case RecvTermAck => TermAckWired(conf, m);
    case RecvCodeRej(fatal) => RejectWired(conf, m, ev, fatal);
    case RecvProtoRej(fatal) => RejectWired(conf, m, ev, fatal && m.state == Opened);
    case RecvUnknownCode => FailureWired(conf, m, ev);
    case RecvEchoReq(id, badMagic) => EchoWired(conf, m, id, badMagic);
    case RecvOther(badMagic) => FailureWired(conf, m, ev);
    case Failure => FailureWired(conf, m, ev);
    case ResetRequest => FailureWired(conf, m, ev);
  }

  lemma StepDrawn(conf: Conf, m: Machine, ev: Event)
    ensures Drawn(m, ev, Step(conf, m, ev))
  {
    hide Step, Drawn;
    if ev.Open? || ev.Up? || ev.Down? || ev.Close? || ev.Timeout? {
      AdminDrawn(conf, m, ev);
    } else if ev.RecvConfReq? {
      ConfReqDrawn(conf, m, ev);
    } else if ev.RecvConfAck? || ev.RecvConfNak? || ev.RecvConfRej? {
      AnswerDrawn(conf, m, ev);
    } else {
      PacketDrawn(conf, m, ev);
    }
  }

  lemma AdminDrawn(conf: Conf, m: Machine, ev: Event)
    requires ev.Open? || ev.Up? || ev.Down? || ev.Close? || ev.Timeout?
    ensures Drawn(m, ev, Step(conf, m, ev))
  {}

  lemma ConfReqDrawn(conf: Conf, m: Machine, ev: Event)
    requires ev.RecvConfReq?
    ensures Drawn(m, ev, Step(conf, m, ev))
  {}

  lemma AnswerDrawn(conf: Conf, m: Machine, ev: Event)
    requires ev.RecvConfAck? || ev.RecvConfNak? || ev.RecvConfRej?
    ensures Drawn(m, ev, Step(conf, m, ev))
  {}

  lemma PacketDrawn(conf: Conf, m: Machine, ev: Event)
    requires !(ev.Open? || ev.Up? || ev.Down? || ev.Close? || ev.Timeout?)
    requires !(ev.RecvConfReq? || ev.RecvConfAck? || ev.RecvConfNak? || ev.RecvConfRej?)
    ensures Drawn(m, ev, Step(conf, m, ev))
  {
    hide Step, Drawn;
    if ev.RecvTermReq? || ev.RecvTermAck? {
      TerminateDrawn(conf, m, ev);
    } else {
      RejectDrawn(conf, m, ev);
    }
  }

  lemma TerminateDrawn(conf: Conf, m: Machine, ev: Event)
    requires ev.RecvTermReq? || ev.RecvTermAck?
    ensures Drawn(m, ev, Step(conf, m, ev))
  {}

  lemma RejectDrawn(conf: Conf, m: Machine, ev: Event)
    requires ev.RecvCodeRej? || ev.RecvProtoRej? || ev.RecvUnknownCode? || ev.RecvEchoReq? || ev.RecvOther?
      || ev.Failure? || ev.ResetRequest?
    ensures Drawn(m, ev, Step(conf, m, ev))
  {
    hide Outcome.Fail;
    FailDrawn(conf, Start(m));
  }

  lemma FailDrawn(conf: Conf, o: Outcome)
    ensures var f := o.Fail(conf);
      f.m.serial >= o.m.serial && f.acts.scr == o.acts.scr
      && (Acknowledged(f.m.state) ==> f.m.state == o.m.state && f.m.serial == o.m.serial)
  {}
}

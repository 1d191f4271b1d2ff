/** The state transition table of section 4.1 of RFC 1661, and the proof that every run of the
    automaton follows it. */
module Rfc1661 {
  import opened FsmModel

  /** The events of section 4.3. */
  datatype RfcEvent =
    | EUp | EDown | EOpen | EClose
    | TOplus | TOminus
    | RCRplus | RCRminus | RCA | RCN
    | RTR | RTA | RUC
    | RXJplus | RXJminus | RXR

  datatype Cell = Cell(next: State, acts: Tally)

  const TLF := NONE.(tlf := 1)
  const STA := NONE.(sta := 1)
  const SCR := NONE.(scr := 1)
  const IRC_SCR := NONE.(irc := 1, scr := 1)
  const IRC_STR := NONE.(irc := 1, str := 1)
  const TLD_SCR := NONE.(tld := 1, scr := 1)
  const TLD_IRC_STR := NONE.(tld := 1, irc := 1, str := 1)

  // The rows of section 4.1.  A cell marked "-" there, or listing only a state, does nothing.
  // The restart option ("r") is off.

  function RowUp(s: State): Cell {
    match s
    case Initial => Cell(Closed, NONE)
    case Starting => Cell(ReqSent, IRC_SCR)
    case _ => Cell(s, NONE)
  }

  function RowDown(s: State): Cell {
    match s
    case Closed | Closing => Cell(Initial, NONE)
    case Stopped => Cell(Starting, NONE.(tls := 1))
    case Stopping | ReqSent | AckRcvd | AckSent => Cell(Starting, NONE)
    case Opened => Cell(Starting, NONE.(tld := 1))
    case _ => Cell(s, NONE)
  }

  function RowOpen(s: State): Cell {
    match s
    case Initial => Cell(Starting, NONE.(tls := 1))
    case Closed => Cell(ReqSent, IRC_SCR)
    case Closing => Cell(Stopping, NONE)
    case _ => Cell(s, NONE)
  }

  function RowClose(s: State): Cell {
    match s
    case Starting => Cell(Initial, TLF)
    case Stopped => Cell(Closed, NONE)
    case Stopping => Cell(Closing, NONE)
    case ReqSent | AckRcvd | AckSent => Cell(Closing, IRC_STR)
    case Opened => Cell(Closing, TLD_IRC_STR)
    case _ => Cell(s, NONE)
  }

  function RowTOplus(s: State): Cell {
    match s
    case Closing | Stopping => Cell(s, NONE.(str := 1))
    case ReqSent | AckSent => Cell(s, SCR)
    case AckRcvd => Cell(ReqSent, SCR)
    case _ => Cell(s, NONE)
  }

  /** With the passive option ("p") this-layer-finished is left out. */
  function RowTOminus(s: State, passive: bool): Cell {
    match s
    case Closing => Cell(Closed, TLF)
    case Stopping => Cell(Stopped, TLF)
    case ReqSent | AckRcvd | AckSent => Cell(Stopped, if passive then NONE else TLF)
    case _ => Cell(s, NONE)
  }

  function RowRCRplus(s: State): Cell {
    match s
    case Closed => Cell(s, STA)
    case Stopped => Cell(AckSent, IRC_SCR.(sca := 1))
    case ReqSent | AckSent => Cell(AckSent, NONE.(sca := 1))
    case AckRcvd => Cell(Opened, NONE.(sca := 1, tlu := 1))
    case Opened => Cell(AckSent, TLD_SCR.(sca := 1))
    case _ => Cell(s, NONE)
  }

  function RowRCRminus(s: State): Cell {
    match s
    case Closed => Cell(s, STA)
    case Stopped => Cell(ReqSent, IRC_SCR.(scn := 1))
    case ReqSent | AckSent => Cell(ReqSent, NONE.(scn := 1))
    case AckRcvd => Cell(s, NONE.(scn := 1))
    case Opened => Cell(ReqSent, TLD_SCR.(scn := 1))
    case _ => Cell(s, NONE)
  }

  function RowRCA(s: State): Cell {
    match s
    case Closed | Stopped => Cell(s, STA)
    case ReqSent => Cell(AckRcvd, NONE.(irc := 1))
    case AckRcvd => Cell(ReqSent, SCR)
    case AckSent => Cell(Opened, NONE.(irc := 1, tlu := 1))
    case Opened => Cell(ReqSent, TLD_SCR)
    case _ => Cell(s, NONE)
  }

  function RowRCN(s: State): Cell {
    match s
    case Closed | Stopped => Cell(s, STA)
    case ReqSent | AckSent => Cell(s, IRC_SCR)
    case AckRcvd => Cell(ReqSent, SCR)
    case Opened => Cell(ReqSent, TLD_SCR)
    case _ => Cell(s, NONE)
  }

  function RowRTR(s: State): Cell {
    match s
    case Initial | Starting => Cell(s, NONE)
    case AckRcvd | AckSent => Cell(ReqSent, STA)
    case Opened => Cell(Stopping, NONE.(tld := 1, zrc := 1, sta := 1))
    case _ => Cell(s, STA)
  }

  function RowRTA(s: State): Cell {
    match s
    case Closing => Cell(Closed, TLF)
    case Stopping => Cell(Stopped, TLF)
    case AckRcvd => Cell(ReqSent, NONE)
    case Opened => Cell(ReqSent, TLD_SCR)
    case _ => Cell(s, NONE)
  }

  function RowRUC(s: State): Cell {
    if s == Initial || s == Starting then Cell(s, NONE) else Cell(s, NONE.(scj := 1))
  }

  function RowRXJplus(s: State): Cell {
    Cell(if s == AckRcvd then ReqSent else s, NONE)
  }

  function RowRXJminus(s: State): Cell {
    match s
    case Closed | Closing => Cell(Closed, TLF)
    case Stopped | Stopping | ReqSent | AckRcvd | AckSent => Cell(Stopped, TLF)
    case Opened => Cell(Stopping, TLD_IRC_STR)
    case _ => Cell(s, NONE)
  }

  function RowRXR(s: State): Cell {
    Cell(s, if s == Opened then NONE.(ser := 1) else NONE)
  }

  function Table(e: RfcEvent, s: State, passive: bool): Cell {
    match e
    case EUp => RowUp(s)
    case EDown => RowDown(s)
    case EOpen => RowOpen(s)
    case EClose => RowClose(s)
    case TOplus => RowTOplus(s)
    case TOminus => RowTOminus(s, passive)
    case RCRplus => RowRCRplus(s)
    case RCRminus => RowRCRminus(s)
    case RCA => RowRCA(s)
    case RCN => RowRCN(s)
    case RTR => RowRTR(s)
    case RTA => RowRTA(s)
    case RUC => RowRUC(s)
    case RXJplus => RowRXJplus(s)
    case RXJminus => RowRXJminus(s)
    case RXR => RowRXR(s)
  }

  datatype Option<T> = None | Some(value: T)

  predicate Negotiating(s: State) { s == ReqSent || s == AckRcvd || s == AckSent || s == Opened }

  function ClassifyNak(m: Machine, id: Byte): Option<RfcEvent> {
    if !Expected(m, id) then None
    else if Negotiating(m.state) && m.config <= 0 then Some(RXJminus)
    else Some(RCN)
  }

  /** Which RFC event the automaton takes an event for.  Answers with the wrong identifier are
      discarded; running out of Max-Failure or Max-Configure counts as a fatal reject. */
  function Classify(m: Machine, ev: Event): Option<RfcEvent> {
    match ev
    case Open => Some(EOpen)
    case Up => Some(EUp)
    case Down => Some(EDown)
    case Close => Some(EClose)
    case Timeout => if !m.timer then None else Some(if m.restart > 0 then TOplus else TOminus)
    case RecvConfReq(_, verdict) =>
      if verdict == Ack then Some(RCRplus)
      else if Negotiating(m.state) && m.failure <= 0 then Some(RXJminus)
      else Some(RCRminus)
    case RecvConfAck(id) => if Expected(m, id) then Some(RCA) else None
    case RecvConfNak(id) => ClassifyNak(m, id)
    case RecvConfRej(id) => ClassifyNak(m, id)
    case RecvTermReq => Some(RTR)
    case RecvTermAck => Some(RTA)
    case RecvCodeRej(fatal) => Some(if fatal then RXJminus else RXJplus)
    case RecvProtoRej(fatal) => Some(if fatal && m.state == Opened then RXJminus else RXJplus)
    case RecvUnknownCode => Some(RUC)
    case RecvEchoReq(_, badMagic) => Some(if badMagic then RXJminus else RXR)
    case RecvOther(badMagic) => if badMagic then Some(RXJminus) else None
    case Failure => Some(RXJminus)
    case ResetRequest => None
  }

  /** Passive mode, for which the table makes an exception of timeouts only, is one for every
      fatal reject here. */
  predicate KeepsQuiet(conf: Conf, m: Machine, ev: Event) {
    && conf.passive && Classify(m, ev) == Some(RXJminus)
    && (m.state == Stopped || m.state == ReqSent || m.state == AckRcvd || m.state == AckSent)
  }

  /** The table's actions with everything the code does differently: extra notifications when
      opened in Closed, asked to configure in Stopped, or brought down in Closing; a second
      this-layer-down and a lost request when the failure budget runs out in Opened; a code reject
      even below Closed; and, in passive mode, no this-layer-finished on a fatal reject. */
  function Amended(conf: Conf, m: Machine, ev: Event, t: Tally): Tally {
    if KeepsQuiet(conf, m, ev) then t.(tlf := t.tlf - 1)
    else match ev
      case Open => if m.state == Closed then t.(tls := t.tls + 1) else t
      case Down => if m.state == Closing then t.(tlf := t.tlf + 1) else t
      case RecvConfReq(_, verdict) =>
        if m.state == Stopped then t.(tls := t.tls + 1)
        else if m.state == Opened && verdict != Ack && m.failure <= 0 then
          t.(tld := t.tld + 1, scr := t.scr + 1)
        else t
      case RecvUnknownCode =>
        if m.state == Initial || m.state == Starting then t.(scj := t.scj + 1) else t
      case _ => t
  }

  /** The table cell that governs an event; a discarded event changes nothing. */
  function Governing(conf: Conf, m: Machine, ev: Event): Cell {
    match Classify(m, ev)
    case None => Cell(m.state, NONE)
    case Some(e) => Table(e, m.state, conf.passive)
  }

  /** In reachable states the restart timer runs exactly from Closing to Ack-Sent. */
  predicate TimerFits(m: Machine) { m.timer <==> !StopsTimer(m.state) }

  /** One step does what the table says, up to the listed extra and missing actions. */
  predicate Follows(conf: Conf, m: Machine, ev: Event) {
    var o := Step(conf, m, ev);
    var cell := Governing(conf, m, ev);
    && o.m.state == cell.next
    && o.acts == Amended(conf, m, ev, cell.acts)
    && TimerFits(o.m)
  }

  /** What shutting down does, as the row for a fatal reject has it. */
  predicate ShutsDown(conf: Conf, m: Machine) {
    var o, cell := Start(m).Fail(conf), RowRXJminus(m.state);
    var quiet := conf.passive && (m.state == Stopped || m.state == ReqSent || m.state == AckRcvd || m.state == AckSent);
    && o.m.state == cell.next
    && o.acts == (if quiet then cell.acts.(tlf := cell.acts.tlf - 1) else cell.acts)
    && TimerFits(o.m)
  }

  lemma FailShutsDown(conf: Conf, m: Machine)
    requires TimerFits(m)
    ensures ShutsDown(conf, m)
  {
    if m.state == Opened {
      OpenedShutsDown(conf, m);
    }
  }

  lemma OpenedShutsDown(conf: Conf, m: Machine)
    requires m.state == Opened
    ensures ShutsDown(conf, m)
  {}

  lemma AdminFollows(conf: Conf, m: Machine)
    requires TimerFits(m)
    ensures Follows(conf, m, Open) && Follows(conf, m, Up)
  {}

  lemma DownFollows(conf: Conf, m: Machine)
    requires TimerFits(m)
    ensures Follows(conf, m, Down)
  {}

  lemma CloseFollows(conf: Conf, m: Machine)
    requires TimerFits(m)
    ensures Follows(conf, m, Close)
  {}

  lemma TimeoutFollows(conf: Conf, m: Machine)
    requires TimerFits(m)
    ensures Follows(conf, m, Timeout)
  {}

  lemma ConfReqFollows(conf: Conf, m: Machine, id: Byte, verdict: Verdict)
    requires TimerFits(m)
    ensures Follows(conf, m, RecvConfReq(id, verdict))
  {
    if m.state == Opened {
      ConfReqInOpened(conf, m, id, verdict);
    } else if m.state == Stopped {
      ConfReqInStopped(conf, m, id, verdict);
    } else {
      ConfReqElsewhere(conf, m, id, verdict);
    }
  }

  lemma ConfReqInOpened(conf: Conf, m: Machine, id: Byte, verdict: Verdict)
    requires TimerFits(m) && m.state == Opened
    ensures Follows(conf, m, RecvConfReq(id, verdict))
  {
    hide Follows;
    if verdict != Ack && m.failure <= 0 {
      OpenedGivesUp(conf, m, id, verdict);
    } else {
      OpenedAnswers(conf, m, id, verdict);
    }
  }

  lemma OpenedGivesUp(conf: Conf, m: Machine, id: Byte, verdict: Verdict)
    requires TimerFits(m) && m.state == Opened && verdict != Ack && m.failure <= 0
    ensures Follows(conf, m, RecvConfReq(id, verdict))
  {
    hide Outcome.Fail;
    OpenedFails(conf, Start(m).Down().Request());
  }

  lemma OpenedFails(conf: Conf, o: Outcome)
    requires o.m.state == Opened
    ensures var f := o.Fail(conf);
      && f.m.state == Stopping && f.m.timer
      && f.acts == o.acts.(irc := o.acts.irc + 1, str := o.acts.str + 1, tld := o.acts.tld + 1)
  {}

  lemma OpenedAnswers(conf: Conf, m: Machine, id: Byte, verdict: Verdict)
    requires TimerFits(m) && m.state == Opened && (verdict == Ack || m.failure > 0)
    ensures Follows(conf, m, RecvConfReq(id, verdict))
  {}

  lemma ConfReqInStopped(conf: Conf, m: Machine, id: Byte, verdict: Verdict)
    requires TimerFits(m) && m.state == Stopped
    ensures Follows(conf, m, RecvConfReq(id, verdict))
  {}

  lemma ConfReqElsewhere(conf: Conf, m: Machine, id: Byte, verdict: Verdict)
    requires TimerFits(m) && m.state != Opened && m.state != Stopped
    ensures Follows(conf, m, RecvConfReq(id, verdict))
  {
    hide Follows;
    if verdict != Ack && m.failure <= 0 && Negotiating(m.state) {
      NegotiatingGivesUp(conf, m, id, verdict);
    } else {
      NegotiatingAnswers(conf, m, id, verdict);
    }
  }

  lemma NegotiatingGivesUp(conf: Conf, m: Machine, id: Byte, verdict: Verdict)
    requires TimerFits(m) && m.state != Opened && verdict != Ack && m.failure <= 0 && Negotiating(m.state)
    ensures Follows(conf, m, RecvConfReq(id, verdict))
  {
    hide Outcome.Fail, RowRXJminus;
    FailShutsDown(conf, m);
  }

  lemma NegotiatingAnswers(conf: Conf, m: Machine, id: Byte, verdict: Verdict)
    requires TimerFits(m) && m.state != Opened && m.state != Stopped
    requires !(verdict != Ack && m.failure <= 0 && Negotiating(m.state))
    ensures Follows(conf, m, RecvConfReq(id, verdict))
  {}

  lemma ConfAckFollows(conf: Conf, m: Machine, id: Byte)
    requires TimerFits(m)
    ensures Follows(conf, m, RecvConfAck(id))
  {}

  lemma ConfNakFollows(conf: Conf, m: Machine, id: Byte)
    requires TimerFits(m)
    ensures Follows(conf, m, RecvConfNak(id))
  {
    hide Follows;
    if Negotiating(m.state) && m.config <= 0 {
      ConfNakGivesUp(conf, m, id);
    } else {
      ConfNakGoesOn(conf, m, id);
    }
  }

  lemma ConfNakGivesUp(conf: Conf, m: Machine, id: Byte)
    requires TimerFits(m) && Negotiating(m.state) && m.config <= 0
    ensures Follows(conf, m, RecvConfNak(id))
  {
    hide Outcome.Fail, RowRXJminus;
    FailShutsDown(conf, m);
  }

  lemma ConfNakGoesOn(conf: Conf, m: Machine, id: Byte)
    requires TimerFits(m) && !(Negotiating(m.state) && m.config <= 0)
    ensures Follows(conf, m, RecvConfNak(id))
  {}

  lemma ConfRejFollows(conf: Conf, m: Machine, id: Byte)
    requires TimerFits(m)
    ensures Follows(conf, m, RecvConfRej(id))
  {
    hide Follows;
    if Negotiating(m.state) && m.config <= 0 {
      ConfRejGivesUp(conf, m, id);
    } else {
      ConfRejGoesOn(conf, m, id);
    }
  }

  lemma ConfRejGivesUp(conf: Conf, m: Machine, id: Byte)
    requires TimerFits(m) && Negotiating(m.state) && m.config <= 0
    ensures Follows(conf, m, RecvConfRej(id))
  {
    hide Outcome.Fail, RowRXJminus;
    FailShutsDown(conf, m);
  }

  lemma ConfRejGoesOn(conf: Conf, m: Machine, id: Byte)
    requires TimerFits(m) && !(Negotiating(m.state) && m.config <= 0)
    ensures Follows(conf, m, RecvConfRej(id))
  {}

  lemma TerminateFollows(conf: Conf, m: Machine)
    requires TimerFits(m)
    ensures Follows(conf, m, RecvTermReq)
  {}

  lemma TermAckFollows(conf: Conf, m: Machine)
    requires TimerFits(m)
    ensures Follows(conf, m, RecvTermAck) && Follows(conf, m, RecvUnknownCode)
  {}

  lemma CodeRejFollows(conf: Conf, m: Machine, fatal: bool)
    requires TimerFits(m)
    ensures Follows(conf, m, RecvCodeRej(fatal))
  {
    hide Outcome.Fail, RowRXJminus;
    FailShutsDown(conf, m);
  }

  lemma ProtoRejFollows(conf: Conf, m: Machine, fatal: bool)
    requires TimerFits(m)
    ensures Follows(conf, m, RecvProtoRej(fatal))
  {
    hide Outcome.Fail, RowRXJminus;
    FailShutsDown(conf, m);
  }

  lemma EchoFollows(conf: Conf, m: Machine, id: Byte, badMagic: bool)
    requires TimerFits(m)
    ensures Follows(conf, m, RecvEchoReq(id, badMagic))
  {
    hide Outcome.Fail;
    FailShutsDown(conf, m);
  }

  lemma FailureFollows(conf: Conf, m: Machine, badMagic: bool)
    requires TimerFits(m)
    ensures Follows(conf, m, Failure) && Follows(conf, m, RecvOther(badMagic))
  {
    hide Follows;
    FatalFollows(conf, m);
    OtherFollows(conf, m, badMagic);
  }

  lemma FatalFollows(conf: Conf, m: Machine)
    requires TimerFits(m)
    ensures Follows(conf, m, Failure)
  {
    hide Outcome.Fail, RowRXJminus;
    FailShutsDown(conf, m);
  }

  lemma OtherFollows(conf: Conf, m: Machine, badMagic: bool)
    requires TimerFits(m)
    ensures Follows(conf, m, RecvOther(badMagic))
  {
    hide Outcome.Fail, RowRXJminus;
    FailShutsDown(conf, m);
  }

  lemma ResetFollows(conf: Conf, m: Machine)
    requires TimerFits(m)
    ensures Follows(conf, m, ResetRequest)
  {}

  lemma StepFollows(conf: Conf, m: Machine, ev: Event)
    requires TimerFits(m)
    ensures Follows(conf, m, ev)
    ensures TimerFits(Step(conf, m, ev).m)
  {
    hide Step, Governing, Amended;
    match ev
    case Open => AdminFollows(conf, m);
    case Up => AdminFollows(conf, m);
    case Down => DownFollows(conf, m);
    case Close => CloseFollows(conf, m);
    case Timeout => TimeoutFollows(conf, m);
    case RecvConfReq(id, verdict) => ConfReqFollows(conf, m, id, verdict);
    case RecvConfAck(id) => ConfAckFollows(conf, m, id);
    case RecvConfNak(id) => ConfNakFollows(conf, m, id);
    case RecvConfRej(id) => ConfRejFollows(conf, m, id);
    case RecvTermReq => TerminateFollows(conf, m);
    case RecvTermAck => TermAckFollows(conf, m);
    case RecvCodeRej(fatal) => CodeRejFollows(conf, m, fatal);
    case RecvProtoRej(fatal) => ProtoRejFollows(conf, m, fatal);
    case RecvUnknownCode => TermAckFollows(conf, m);
    case RecvEchoReq(id, badMagic) => EchoFollows(conf, m, id, badMagic);
    case RecvOther(badMagic) => FailureFollows(conf, m, badMagic);
    case Failure => FailureFollows(conf, m, false);
    case ResetRequest => ResetFollows(conf, m);
  }

  /** Every step of every run from the initial state follows the table. */
  lemma {:induction false} RunFollows(conf: Conf, evs: seq<Event>)
    ensures TimerFits(After(conf, evs))
    ensures forall k | 0 <= k < |evs| :: Follows(conf, After(conf, evs[..k]), evs[k])
  {
    hide Step, Follows;
    if evs != [] {
      var n := |evs| - 1;
      RunFollows(conf, evs[..n]);
      StepFollows(conf, After(conf, evs[..n]), evs[n]);
      forall k | 0 <= k < n
        ensures Follows(conf, After(conf, evs[..k]), evs[k])
      {
        assert evs[..n][..k] == evs[..k] && evs[..n][k] == evs[k];
      }
    }
  }
}

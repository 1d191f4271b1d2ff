/** The option-negotiation automaton: its states, counters, events, and the reaction to every event.

    A reaction is described as the resulting machine together with the operations performed, in
    order.  The class in FsmClass performs these operations on real fields; everything that is
    promised about the automaton is proved about the function `Step` below. */
module FsmModel {

  datatype State =
    | Initial | Starting | Closed | Stopped | Closing | Stopping
    | ReqSent | AckRcvd | AckSent | Opened

  type Byte = x: int | 0 <= x < 256

  /** The limits are compile-time constants or positive settings held in 16-bit fields. */
  datatype Limits = Limits(maxConfig: int, maxTerminate: int, maxFailure: int, passive: bool)

  type Conf = c: Limits |
    1 <= c.maxConfig <= 0x7fff && 1 <= c.maxTerminate <= 0x7fff && 1 <= c.maxFailure <= 0x7fff
    witness Limits(10, 2, 5, false)

  /** What the layers above and below can tell about the automaton from its notifications. */
  datatype Layers = Layers(
    up: bool,          // LayerUp has been called and LayerDown has not
    configured: bool,  // Configure has been called and UnConfigure has not
    requested: bool,   // LayerStart has been called and LayerFinish has not
    clean: bool)       // Configure and LayerUp never ran while already in effect

  /** `serial` counts identifiers without wrapping; the 8-bit request id is `serial % 256`. */
  datatype Machine = Machine(
    state: State, serial: nat, restart: int, failure: int, config: int, timer: bool,
    layers: Layers)

  datatype Verdict = Ack | Nak | Rej

  datatype Event =
    | Open | Up | Down | Close
    | Timeout
    | RecvConfReq(id: Byte, verdict: Verdict)
    | RecvConfAck(id: Byte)
    | RecvConfNak(id: Byte)
    | RecvConfRej(id: Byte)
    | RecvTermReq
    | RecvTermAck
    | RecvCodeRej(fatal: bool)
    | RecvProtoRej(fatal: bool)
    | RecvUnknownCode
    | RecvEchoReq(id: Byte, badMagic: bool)
    | RecvOther(badMagic: bool)   // echo reply, discard, ident, time-remaining, vendor
    | Failure                     // shutdown requested by the layer itself
    | ResetRequest                // the layer asks its peer to reset compression or encryption

  datatype Restart = MaxConfigure | MaxTerminate | Zero

  datatype Op =
    | NewState(was: State, now: State)
    | LayerUp | LayerDown | LayerStart | LayerFinish
    | Configure | UnConfigure
    | InitRestart(kind: Restart) | InitFailure | InitConfig
    | SendConfReq(serial: nat) | SendTermReq(serial: nat) | SendTermAck(serial: nat)
    | SendConfAck(id: Byte) | SendConfNak(id: Byte) | SendConfRej(id: Byte)
    | SendCodeRej | SendEchoRep(id: Byte) | SendResetReq(serial: nat)
    | StartTimer | TimerFired

  const INIT := Machine(Initial, 1, 0, 0, 0, false, Layers(false, false, false, true))

  function RestartValue(conf: Conf, kind: Restart): int {
    match kind
    case MaxConfigure => conf.maxConfig
    case MaxTerminate => conf.maxTerminate
    case Zero => 0
  }

  predicate StopsTimer(s: State) {
    s == Initial || s == Starting || s == Closed || s == Stopped || s == Opened
  }

  /** How often each action named in section 4.4 of RFC 1661 was performed. */
  datatype Tally = Tally(
    tlu: int, tld: int, tls: int, tlf: int, irc: int, zrc: int,
    scr: int, sca: int, scn: int, str: int, sta: int, scj: int, ser: int)

  const NONE := Tally(0, 0, 0, 0, 0, 0, 0, 0, 0, 0, 0, 0, 0)

  /** The operations performed so far, the latest outermost. */
  datatype Trace = Nothing | Then(before: Trace, op: Op)

  /** A machine, the operations that led to it, and how often each RFC action is among them. */
  datatype Outcome = Outcome(m: Machine, trace: Trace, acts: Tally) {

    function Go(s: State): Outcome {
      Outcome(m.(state := s, timer := m.timer && !StopsTimer(s)),
              Then(trace, NewState(m.state, s)), acts)
    }

    function Up(): Outcome {
      var l := m.layers;
      Outcome(m.(layers := l.(up := true, clean := l.clean && !l.up)),
              Then(trace, LayerUp), acts.(tlu := acts.tlu + 1))
    }

    function Down(): Outcome {
      Outcome(m.(layers := m.layers.(up := false)),
              Then(trace, LayerDown), acts.(tld := acts.tld + 1))
    }

    function Started(): Outcome {
      Outcome(m.(layers := m.layers.(requested := true)),
              Then(trace, LayerStart), acts.(tls := acts.tls + 1))
    }

    function Finished(): Outcome {
      Outcome(m.(layers := m.layers.(requested := false)),
              Then(trace, LayerFinish), acts.(tlf := acts.tlf + 1))
    }

    function Configured(): Outcome {
      var l := m.layers;
      Outcome(m.(layers := l.(configured := true, clean := l.clean && !l.configured)),
              Then(trace, Configure), acts)
    }

    function UnConfigured(): Outcome {
      Outcome(m.(layers := m.layers.(configured := false)), Then(trace, UnConfigure), acts)
    }

    /** Setting the restart counter also stops the timer. */
    function Counter(conf: Conf, kind: Restart): Outcome {
      Outcome(m.(restart := RestartValue(conf, kind), timer := false),
              Then(trace, InitRestart(kind)),
              if kind == Zero then acts.(zrc := acts.zrc + 1) else acts.(irc := acts.irc + 1))
    }

    function Counters(conf: Conf): Outcome {
      Outcome(m.(restart := conf.maxConfig, timer := false,
                 failure := conf.maxFailure, config := conf.maxConfig),
              Then(Then(Then(trace, InitRestart(MaxConfigure)), InitFailure), InitConfig),
              acts.(irc := acts.irc + 1))
    }

    function Request(): Outcome {
      Outcome(m.(serial := m.serial + 1, timer := true, restart := m.restart - 1,
                 config := m.config - 1),
              Then(trace, SendConfReq(m.serial)), acts.(scr := acts.scr + 1))
    }

    function Terminate(): Outcome {
      Outcome(m.(serial := m.serial + 1, timer := true, restart := m.restart - 1),
              Then(trace, SendTermReq(m.serial)), acts.(str := acts.str + 1))
    }

    /** Terminate-Acks draw a fresh identifier instead of copying the request's. */
    function TermAck(): Outcome {
      Outcome(m.(serial := m.serial + 1),
              Then(trace, SendTermAck(m.serial)), acts.(sta := acts.sta + 1))
    }

    function Answer(id: Byte, verdict: Verdict): Outcome {
      match verdict
      case Ack => Outcome(m, Then(trace, SendConfAck(id)), acts.(sca := acts.sca + 1))
      case Nak =>
        Outcome(m.(failure := m.failure - 1), Then(trace, SendConfNak(id)), acts.(scn := acts.scn + 1))
      case Rej =>
        Outcome(m.(failure := m.failure - 1), Then(trace, SendConfRej(id)), acts.(scn := acts.scn + 1))
    }

    function CodeReject(): Outcome {
      Outcome(m, Then(trace, SendCodeRej), acts.(scj := acts.scj + 1))
    }

    function Echo(id: Byte): Outcome {
      Outcome(m, Then(trace, SendEchoRep(id)), acts.(ser := acts.ser + 1))
    }

    /** Reset requests draw from the same identifiers. */
    function Reset(): Outcome {
      Outcome(m.(serial := m.serial + 1), Then(trace, SendResetReq(m.serial)), acts)
    }

    function Timer(running: bool): Outcome {
      Outcome(m.(timer := running), Then(trace, if running then StartTimer else TimerFired), acts)
    }

    /** Shut down as for a fatal reject. */
    function Fail(conf: Conf): Outcome {
      match m.state
      case Closing => Go(Closed).Finished()
      case Closed => Finished()
      case Stopping => Go(Stopped).Finished()
      case AckRcvd | AckSent | ReqSent =>
        if conf.passive then Go(Stopped).UnConfigured() else Go(Stopped).Finished().UnConfigured()
      case Opened => Go(Stopping).Counter(conf, MaxTerminate).Terminate().Down().UnConfigured()
      case Stopped => if conf.passive then this else Finished()
      case Initial | Starting => this
    }
  }

  function Start(m: Machine): Outcome { Outcome(m, Nothing, NONE) }

  function OnOpen(conf: Conf, m: Machine): Outcome {
    var o := Start(m);
    match m.state
    case Initial => o.Go(Starting).Started()
    case Closed =>
      o.Configured().Go(ReqSent).Started().Counters(conf).Request()
    case Closing => o.Go(Stopping)
    case _ => o
  }

  function OnUp(conf: Conf, m: Machine): Outcome {
    var o := Start(m);
    match m.state
    case Initial => o.Go(Closed)
    case Starting => o.Configured().Go(ReqSent).Counters(conf).Request()
    case _ => o
  }

  function OnDown(conf: Conf, m: Machine): Outcome {
    var o := Start(m);
    match m.state
    case Closing => o.Finished().Go(Initial)
    case Closed => o.Go(Initial)
    case Stopped => o.Go(Starting).Started()
    case Stopping | ReqSent | AckRcvd | AckSent => o.Go(Starting).UnConfigured()
    case Opened => o.Go(Starting).Down().UnConfigured()
    case _ => o
  }

  function OnClose(conf: Conf, m: Machine): Outcome {
    var o := Start(m);
    match m.state
    case Starting => o.Go(Initial).Finished()
    case Stopped => o.Go(Closed)
    case Stopping => o.Go(Closing)
    case Opened =>
      o.Go(Closing).Counter(conf, MaxTerminate).Terminate()
        .Down().UnConfigured()
    case ReqSent | AckRcvd | AckSent =>
      o.Go(Closing).Counter(conf, MaxTerminate).Terminate().UnConfigured()
    case _ => o
  }

  /** The restart timer fires only while it runs. */
  function OnTimeout(conf: Conf, m: Machine): Outcome {
    if !m.timer then Start(m)
    else
      var o := Start(m).Timer(false);
      if m.restart > 0 then
        match m.state
        case Closing | Stopping => o.Terminate()
        case ReqSent | AckSent => o.Request()
        case AckRcvd => o.Go(ReqSent).Request()
        case _ => o
      else
        match m.state
        case Closing => o.Go(Closed).Finished()
        case Stopping => o.Go(Stopped).Finished()
        case ReqSent | AckSent | AckRcvd => o.Fail(conf)
        case _ => o
  }

  function OnConfReq(conf: Conf, m: Machine, id: Byte, verdict: Verdict): Outcome {
    var o := Start(m);
    match m.state
    case Initial | Starting | Closing | Stopping => o
    case Closed => o.TermAck()
    case _ =>
      var o' :=
        if m.state == Stopped then
          o.Configured().Started().Counters(conf).Request()
        else if m.state == Opened then
          o.Down().Request()
        else o;
      if verdict != Ack && o'.m.failure <= 0 then o'.Fail(conf)
      else
        var a := o'.Answer(id, verdict);
        match m.state
        case Stopped | Opened => a.Go(if verdict == Ack then AckSent else ReqSent)
        case ReqSent => if verdict == Ack then a.Go(AckSent) else a
        case AckRcvd => if verdict == Ack then a.Go(Opened).Up() else a
        case AckSent => if verdict == Ack then a else a.Go(ReqSent)
        case _ => a
  }

  predicate Expected(m: Machine, id: Byte) { id == (m.serial - 1) % 256 }

  function OnConfAck(conf: Conf, m: Machine, id: Byte): Outcome {
    var o := Start(m);
    if !Expected(m, id) then o
    else
      match m.state
      case Closed | Stopped => o.TermAck()
      case ReqSent => o.Go(AckRcvd).Counters(conf).Timer(true)
      case AckRcvd => o.Go(ReqSent).Request()
      case AckSent => o.Go(Opened).Counters(conf).Up()
      case Opened => o.Go(ReqSent).Down().Request()
      case _ => o
  }

  /** Naks and Rejects differ only in the order of two steps in Opened. */
  function OnConfNakRej(conf: Conf, m: Machine, id: Byte, nak: bool): Outcome {
    var o := Start(m);
    if !Expected(m, id) then o
    else
      match m.state
      case Initial | Starting | Closing | Stopping => o
      case Closed | Stopped => o.TermAck()
      case _ =>
        if m.config <= 0 then o.Fail(conf)
        else
          match m.state
          case ReqSent | AckSent => o.Counter(conf, MaxConfigure).Request()
          case AckRcvd => o.Go(ReqSent).Request()
          case _ =>
            if nak then o.Down().Go(ReqSent).Request()
            else o.Go(ReqSent).Down().Request()
  }

  function OnTermReq(conf: Conf, m: Machine): Outcome {
    var o := Start(m);
    match m.state
    case Initial | Starting => o
    case Closed | Stopped | Closing | Stopping | ReqSent => o.TermAck()
    case AckRcvd | AckSent => o.Go(ReqSent).TermAck()
    case Opened =>
      o.Go(Stopping).TermAck().Down().Counter(conf, Zero)
        .Timer(true).UnConfigured()
  }

  function OnTermAck(conf: Conf, m: Machine): Outcome {
    var o := Start(m);
    match m.state
    case Closing => o.Go(Closed).Finished()
    case Stopping => o.Go(Stopped).Finished()
    case AckRcvd => o.Go(ReqSent)
    case Opened => o.Go(ReqSent).Down().Request()
    case _ => o
  }

  function OnReject(conf: Conf, m: Machine, fatal: bool): Outcome {
    var o := Start(m);
    if fatal then o.Fail(conf)
    else if m.state == AckRcvd then o.Go(ReqSent)
    else o
  }

  /** A wrong magic number shuts the automaton down before the packet is looked at. */
  function OnEchoReq(conf: Conf, m: Machine, id: Byte, badMagic: bool): Outcome {
    var o := if badMagic then Start(m).Fail(conf) else Start(m);
    if o.m.state == Opened then o.Echo(id) else o
  }

  function Step(conf: Conf, m: Machine, ev: Event): Outcome {
    match ev
    case Open => OnOpen(conf, m)
    case Up => OnUp(conf, m)
    case Down => OnDown(conf, m)
    case Close => OnClose(conf, m)
    case Timeout => OnTimeout(conf, m)
    case RecvConfReq(id, verdict) => OnConfReq(conf, m, id, verdict)
    case RecvConfAck(id) => OnConfAck(conf, m, id)
    case RecvConfNak(id) => OnConfNakRej(conf, m, id, true)
    case RecvConfRej(id) => OnConfNakRej(conf, m, id, false)
    case RecvTermReq => OnTermReq(conf, m)
    case RecvTermAck => OnTermAck(conf, m)
    case RecvCodeRej(fatal) => OnReject(conf, m, fatal)
    case RecvProtoRej(fatal) => OnReject(conf, m, fatal && m.state == Opened)
    case RecvUnknownCode => Start(m).CodeReject()
    case RecvEchoReq(id, badMagic) => OnEchoReq(conf, m, id, badMagic)
    case RecvOther(badMagic) => if badMagic then Start(m).Fail(conf) else Start(m)
    case Failure => Start(m).Fail(conf)
    case ResetRequest => Start(m).Reset()
  }

  /** The machine after a run from the initial state. */
  function After(conf: Conf, evs: seq<Event>): Machine {
    if evs == [] then INIT
    else Step(conf, After(conf, evs[..|evs| - 1]), evs[|evs| - 1]).m
  }

  lemma AfterSnoc(conf: Conf, evs: seq<Event>, ev: Event)
    ensures After(conf, evs + [ev]) == Step(conf, After(conf, evs), ev).m
  {
    hide Step;
    assert (evs + [ev])[..|evs|] == evs;
  }
}

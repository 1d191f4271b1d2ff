/** The automaton as an object with fields that its event handlers update.  Every handler is proved
    to do exactly what `FsmModel.Step` says, operation by operation. */
module FsmClass {
  import opened FsmModel

  class Fsm {
    const conf: Conf
    var state: State
    var reqid: Byte
    var restart: int
    var failure: int
    var config: int
    var timerRunning: bool

    ghost var serial: nat          // reqid without its wrap-around
    ghost var layers: Layers       // what the callbacks have told the other layers
    ghost var trace: Trace         // operations of the current event
    ghost var acts: Tally
    ghost var history: seq<Event>  // events handled so far

    ghost function Abs(): Machine
      reads this
    {
      Machine(state, serial, restart, failure, config, timerRunning, layers)
    }

    ghost function Now(): Outcome
      reads this
    {
      Outcome(Abs(), trace, acts)
    }

    ghost predicate InStep()
      reads this
    {
      reqid == serial % 256
    }

    /** The fields are where the events handled so far lead from the initial state. */
    ghost predicate Valid()
      reads this
    {
      InStep() && Abs() == After(conf, history)
    }

    constructor (conf: Conf)
      ensures Valid() && history == [] && this.conf == conf
    {
      this.conf := conf;
      state, reqid, restart, failure, config, timerRunning := Initial, 1, 0, 0, 0, false;
      serial, layers, trace, acts, history :=
        1, Layers(false, false, false, true), Nothing, NONE, [];
    }

    // ---- Elementary operations ----

    ghost method Begin()
      modifies `trace, `acts
      ensures Now() == Start(old(Abs()))
    {
      trace, acts := Nothing, NONE;
    }

    ghost method End(ev: Event, m: Machine)
      requires InStep() && m == After(conf, history) && Abs() == Step(conf, m, ev).m
      modifies `history
      ensures Valid() && history == old(history) + [ev]
    {
      hide Step;
      AfterSnoc(conf, history, ev);
      history := history + [ev];
    }

    method NewState(s: State)
      modifies `state, `timerRunning, `trace
      ensures Now() == old(Now()).Go(s)
    {
      trace := Then(trace, Op.NewState(state, s));
      state := s;
      if StopsTimer(s) {
        timerRunning := false;
      }
    }

    method LayerUp()
      modifies `layers, `trace, `acts
      ensures Now() == old(Now()).Up()
    {
      layers, trace, acts := Now().Up().m.layers, Now().Up().trace, Now().Up().acts;
    }

    method LayerDown()
      modifies `layers, `trace, `acts
      ensures Now() == old(Now()).Down()
    {
      layers, trace, acts := Now().Down().m.layers, Now().Down().trace, Now().Down().acts;
    }

    method LayerStart()
      modifies `layers, `trace, `acts
      ensures Now() == old(Now()).Started()
    {
      layers, trace, acts := Now().Started().m.layers, Now().Started().trace, Now().Started().acts;
    }

    method LayerFinish()
      modifies `layers, `trace, `acts
      ensures Now() == old(Now()).Finished()
    {
      layers, trace, acts := Now().Finished().m.layers, Now().Finished().trace, Now().Finished().acts;
    }

    method Configure()
      modifies `layers, `trace
      ensures Now() == old(Now()).Configured()
    {
      layers, trace := Now().Configured().m.layers, Now().Configured().trace;
    }

    method UnConfigure()
      modifies `layers, `trace
      ensures Now() == old(Now()).UnConfigured()
    {
      layers, trace := Now().UnConfigured().m.layers, Now().UnConfigured().trace;
    }

    method InitRestartCounter(value: int, ghost kind: Restart)
      requires value == RestartValue(conf, kind)
      modifies `restart, `timerRunning, `trace, `acts
      ensures Now() == old(Now()).Counter(conf, kind)
    {
      trace, acts := Now().Counter(conf, kind).trace, Now().Counter(conf, kind).acts;
      timerRunning := false;
      restart := value;
    }

    method InitCounters()
      modifies `restart, `timerRunning, `failure, `config, `trace, `acts
      ensures Now() == old(Now()).Counters(conf)
    {
      InitRestartCounter(conf.maxConfig, MaxConfigure);
      failure := conf.maxFailure;
      trace := Then(trace, InitFailure);
      config := conf.maxConfig;
      trace := Then(trace, InitConfig);
    }

    method TimerStart()
      modifies `timerRunning, `trace
      ensures Now() == old(Now()).Timer(true)
    {
      timerRunning := true;
      trace := Then(trace, StartTimer);
    }

    method NextId()
      requires InStep()
      modifies `reqid, `serial
      ensures InStep() && serial == old(serial) + 1
    {
      reqid := (reqid + 1) % 256;
      serial := serial + 1;
    }

    method SendConfigReq()
      requires InStep()
      modifies `reqid, `serial, `timerRunning, `restart, `config, `trace, `acts
      ensures InStep() && Now() == old(Now()).Request()
    {
      trace, acts := Now().Request().trace, Now().Request().acts;
      NextId();
      timerRunning := true;
      restart := restart - 1;
      config := config - 1;
    }

    method SendTerminateReq()
      requires InStep()
      modifies `reqid, `serial, `timerRunning, `restart, `trace, `acts
      ensures InStep() && Now() == old(Now()).Terminate()
    {
      trace, acts := Now().Terminate().trace, Now().Terminate().acts;
      NextId();
      timerRunning := true;
      restart := restart - 1;
    }

    method SendTerminateAck()
      requires InStep()
      modifies `reqid, `serial, `trace, `acts
      ensures InStep() && Now() == old(Now()).TermAck()
    {
      trace, acts := Now().TermAck().trace, Now().TermAck().acts;
      NextId();
    }

    method SendAnswer(id: Byte, verdict: Verdict)
      modifies `failure, `trace, `acts
      ensures Now() == old(Now()).Answer(id, verdict)
    {
      trace, acts := Now().Answer(id, verdict).trace, Now().Answer(id, verdict).acts;
      if verdict != Ack {
        failure := failure - 1;
      }
    }

    /** Shut down as for a fatal reject. */
    method Fail()
      requires InStep()
      modifies this
      ensures InStep() && Now() == old(Now()).Fail(conf) && history == old(history)
    {
      match state
      case Closing =>
        NewState(Closed);
        LayerFinish();
      case Closed =>
        LayerFinish();
      case Stopping =>
        NewState(Stopped);
        LayerFinish();
      case AckRcvd | AckSent | ReqSent =>
        NewState(Stopped);
        if !conf.passive {
          LayerFinish();
        }
        UnConfigure();
      case Opened =>
        NewState(Stopping);
        InitRestartCounter(conf.maxTerminate, MaxTerminate);
        SendTerminateReq();
        LayerDown();
        UnConfigure();
      case Stopped =>
        if !conf.passive {
          LayerFinish();
        }
      case Initial | Starting =>
    }

    // ---- Administrative events ----

    method OpenEvent()
      requires Valid()
      modifies this
      ensures Valid() && history == old(history) + [Open]
      ensures Now() == Step(conf, old(Abs()), Open)
    {
      Begin();
      match state {
        case Initial =>
          NewState(Starting);
          LayerStart();
        case Closed =>
          Configure();
          NewState(ReqSent);
          LayerStart();
          InitCounters();
          SendConfigReq();
        case Closing =>
          NewState(Stopping);
        case _ =>
      }
      End(Open, old(Abs()));
    }

    method UpEvent()
      requires Valid()
      modifies this
      ensures Valid() && history == old(history) + [Up]
      ensures Now() == Step(conf, old(Abs()), Up)
    {
      Begin();
      match state {
        case Initial =>
          NewState(Closed);
        case Starting =>
          Configure();
          NewState(ReqSent);
          InitCounters();
          SendConfigReq();
        case _ =>
      }
      End(Up, old(Abs()));
    }

    method DownEvent()
      requires Valid()
      modifies this
      ensures Valid() && history == old(history) + [Down]
      ensures Now() == Step(conf, old(Abs()), Down)
    {
      Begin();
      match state {
        case Closing =>
          LayerFinish();
          NewState(Initial);
        case Closed =>
          NewState(Initial);
        case Stopped =>
          NewState(Starting);
          LayerStart();
        case Stopping | ReqSent | AckRcvd | AckSent =>
          NewState(Starting);
          UnConfigure();
        case Opened =>
          NewState(Starting);
          LayerDown();
          UnConfigure();
        case _ =>
      }
      End(Down, old(Abs()));
    }

    method CloseEvent()
      requires Valid()
      modifies this
      ensures Valid() && history == old(history) + [Close]
      ensures Now() == Step(conf, old(Abs()), Close)
    {
      Begin();
      match state {
        case Starting =>
          NewState(Initial);
          LayerFinish();
        case Stopped =>
          NewState(Closed);
        case Stopping =>
          NewState(Closing);
        case Opened =>
          NewState(Closing);
          InitRestartCounter(conf.maxTerminate, MaxTerminate);
          SendTerminateReq();
          LayerDown();
          UnConfigure();
        case ReqSent | AckRcvd | AckSent =>
          NewState(Closing);
          InitRestartCounter(conf.maxTerminate, MaxTerminate);
          SendTerminateReq();
          UnConfigure();
        case _ =>
      }
      End(Close, old(Abs()));
    }

    /** The event loop unregisters the timer before it calls this. */
    method TimeoutEvent()
      requires Valid()
      modifies this
      ensures Valid() && history == old(history) + [Timeout]
      ensures Now() == Step(conf, old(Abs()), Timeout)
    {
      hide OnTimeout, After;
      Begin();
      Expire();
      End(Timeout, old(Abs()));
    }

    method Expire()
      requires InStep() && Now() == Start(Abs())
      modifies this
      ensures InStep() && history == old(history)
      ensures Now() == OnTimeout(conf, old(Abs()))
    {
      hide Outcome.Fail, Outcome.Request, Outcome.Terminate, Outcome.Finished, Outcome.Go;
      if timerRunning {
        timerRunning := false;
        trace := Then(trace, TimerFired);
        if restart > 0 {
          match state {
            case Closing | Stopping =>
              SendTerminateReq();
            case ReqSent | AckSent =>
              SendConfigReq();
            case AckRcvd =>
              NewState(ReqSent);
              SendConfigReq();
            case _ =>
          }
        } else {
          match state {
            case Closing =>
              NewState(Closed);
              LayerFinish();
            case Stopping =>
              NewState(Stopped);
              LayerFinish();
            case ReqSent | AckSent | AckRcvd =>
              Fail();
            case _ =>
          }
        }
      }
    }

    // ---- Received packets ----

    /** `verdict` is what decoding the request left in the answer buffers. */
    method RecvConfigReq(id: Byte, verdict: Verdict)
      requires Valid()
      modifies this
      ensures Valid() && history == old(history) + [RecvConfReq(id, verdict)]
      ensures Now() == Step(conf, old(Abs()), RecvConfReq(id, verdict))
    {
      Begin();
      ConfigReq(id, verdict);
      End(RecvConfReq(id, verdict), old(Abs()));
    }

    method ConfigReq(id: Byte, verdict: Verdict)
      requires InStep() && Now() == Start(Abs())
      modifies this
      ensures InStep() && history == old(history)
      ensures Now() == OnConfReq(conf, old(Abs()), id, verdict)
    {
      hide Outcome.Fail, Outcome.Request, Outcome.Answer, Outcome.Go, Outcome.Up, Outcome.Down, Outcome.TermAck;
      hide Outcome.Started, Outcome.Configured, Outcome.Counters;
      match state {
        case Initial | Starting | Closing | Stopping =>
          return;
        case Closed =>
          SendTerminateAck();
          return;
        case Stopped =>
          Configure();
        case _ =>
      }

      match state {
        case Opened =>
          LayerDown();
          SendConfigReq();
        case Stopped =>
          LayerStart();
          InitCounters();
          SendConfigReq();
        case _ =>
      }

      if verdict != Ack && failure <= 0 {
        Fail();
        return;
      }
      SendAnswer(id, verdict);

      match state {
        case Stopped | Opened =>
          if verdict == Ack {
            NewState(AckSent);
          } else {
            NewState(ReqSent);
          }
        case ReqSent =>
          if verdict == Ack {
            NewState(AckSent);
          }
        case AckRcvd =>
          if verdict == Ack {
            NewState(Opened);
            LayerUp();
          }
        case AckSent =>
          if verdict != Ack {
            NewState(ReqSent);
          }
        case _ =>
      }
    }

    /** Answers must carry the identifier of the last request. */
    method IdMatches(id: Byte) returns (r: bool)
      requires InStep()
      ensures r <==> Expected(Abs(), id)
    {
      r := id == (reqid - 1) % 256;
    }

    method RecvConfigAck(id: Byte)
      requires Valid()
      modifies this
      ensures Valid() && history == old(history) + [RecvConfAck(id)]
      ensures Now() == Step(conf, old(Abs()), RecvConfAck(id))
    {
      Begin();
      ConfigAck(id);
      End(RecvConfAck(id), old(Abs()));
    }

    method ConfigAck(id: Byte)
      requires InStep() && Now() == Start(Abs())
      modifies this
      ensures InStep() && history == old(history)
      ensures Now() == OnConfAck(conf, old(Abs()), id)
    {
      var expected := IdMatches(id);
      if expected {
        match state {
          case Closed | Stopped =>
            SendTerminateAck();
          case ReqSent =>
            NewState(AckRcvd);
            InitCounters();
            TimerStart();
          case AckRcvd =>
            NewState(ReqSent);
            SendConfigReq();
          case AckSent =>
            NewState(Opened);
            InitCounters();
            LayerUp();
          case Opened =>
            NewState(ReqSent);
            LayerDown();
            SendConfigReq();
          case _ =>
        }
      }
    }

    method RecvConfigNak(id: Byte)
      requires Valid()
      modifies this
      ensures Valid() && history == old(history) + [RecvConfNak(id)]
      ensures Now() == Step(conf, old(Abs()), RecvConfNak(id))
    {
      Begin();
      ConfigNak(id);
      End(RecvConfNak(id), old(Abs()));
    }

    method ConfigNak(id: Byte)
      requires InStep() && Now() == Start(Abs())
      modifies this
      ensures InStep() && history == old(history)
      ensures Now() == OnConfNakRej(conf, old(Abs()), id, true)
    {
      var expected := IdMatches(id);
      if !expected || state == Initial || state == Starting || state == Closing || state == Stopping {
        return;
      }
      if state == Closed || state == Stopped {
        SendTerminateAck();
        return;
      }
      if config <= 0 {
        Fail();
        return;
      }
      if state == ReqSent || state == AckSent {
        InitRestartCounter(conf.maxConfig, MaxConfigure);
        SendConfigReq();
      } else {
        if state == Opened {
          LayerDown();
        }
        NewState(ReqSent);
        SendConfigReq();
      }
    }

    method RecvConfigRej(id: Byte)
      requires Valid()
      modifies this
      ensures Valid() && history == old(history) + [RecvConfRej(id)]
      ensures Now() == Step(conf, old(Abs()), RecvConfRej(id))
    {
      Begin();
      ConfigRej(id);
      End(RecvConfRej(id), old(Abs()));
    }

    method ConfigRej(id: Byte)
      requires InStep() && Now() == Start(Abs())
      modifies this
      ensures InStep() && history == old(history)
      ensures Now() == OnConfNakRej(conf, old(Abs()), id, false)
    {
      var expected := IdMatches(id);
      if !expected || state == Initial || state == Starting || state == Closing || state == Stopping {
        return;
      }
      if state == Closed || state == Stopped {
        SendTerminateAck();
        return;
      }
      if config <= 0 {
        Fail();
        return;
      }
      var wasUp := state == Opened;
      if state == ReqSent || state == AckSent {
        InitRestartCounter(conf.maxConfig, MaxConfigure);
        SendConfigReq();
      } else {
        NewState(ReqSent);
        if wasUp {
          LayerDown();
        }
        SendConfigReq();
      }
    }

    method RecvTerminateReq()
      requires Valid()
      modifies this
      ensures Valid() && history == old(history) + [RecvTermReq]
      ensures Now() == Step(conf, old(Abs()), RecvTermReq)
    {
      Begin();
      match state {
        case Initial | Starting =>
        case Closed | Stopped | Closing | Stopping | ReqSent =>
          SendTerminateAck();
        case AckRcvd | AckSent =>
          NewState(ReqSent);
          SendTerminateAck();
        case Opened =>
          NewState(Stopping);
          SendTerminateAck();
          LayerDown();
          InitRestartCounter(0, Zero);
          TimerStart();
          UnConfigure();
      }
      End(RecvTermReq, old(Abs()));
    }

    method RecvTerminateAck()
      requires Valid()
      modifies this
      ensures Valid() && history == old(history) + [RecvTermAck]
      ensures Now() == Step(conf, old(Abs()), RecvTermAck)
    {
      Begin();
      match state {
        case Closing =>
          NewState(Closed);
          LayerFinish();
        case Stopping =>
          NewState(Stopped);
          LayerFinish();
        case AckRcvd =>
          NewState(ReqSent);
        case Opened =>
          NewState(ReqSent);
          LayerDown();
          SendConfigReq();
        case _ =>
      }
      End(RecvTermAck, old(Abs()));
    }

    method RxjPlus()
      modifies `state, `timerRunning, `trace
      ensures Now() == if old(state) == AckRcvd then old(Now()).Go(ReqSent) else old(Now())
    {
      match state
      case AckRcvd => NewState(ReqSent);
      case _ =>
    }

    method RecvCodeReject(fatal: bool)
      requires Valid()
      modifies this
      ensures Valid() && history == old(history) + [RecvCodeRej(fatal)]
      ensures Now() == Step(conf, old(Abs()), RecvCodeRej(fatal))
    {
      Begin();
      if fatal {
        Fail();
      } else {
        RxjPlus();
      }
      End(RecvCodeRej(fatal), old(Abs()));
    }

    /** The layer is asked whether a protocol reject is fatal only in Opened. */
    method RecvProtoReject(fatalInOpened: bool)
      requires Valid()
      modifies this
      ensures Valid() && history == old(history) + [RecvProtoRej(fatalInOpened)]
      ensures Now() == Step(conf, old(Abs()), RecvProtoRej(fatalInOpened))
    {
      Begin();
      var fatal := false;
      if state == Opened {
        fatal := fatalInOpened;
      }
      if fatal {
        Fail();
      } else {
        RxjPlus();
      }
      End(RecvProtoRej(fatalInOpened), old(Abs()));
    }

    method RecvEchoRequest(id: Byte, badMagic: bool)
      requires Valid()
      modifies this
      ensures Valid() && history == old(history) + [RecvEchoReq(id, badMagic)]
      ensures Now() == Step(conf, old(Abs()), RecvEchoReq(id, badMagic))
    {
      Begin();
      if badMagic {
        Fail();
      }
      if state == Opened {
        trace, acts := Now().Echo(id).trace, Now().Echo(id).acts;
      }
      End(RecvEchoReq(id, badMagic), old(Abs()));
    }

    /** A packet with a code that is not known. */
    method RecvUnknownCode()
      requires Valid()
      modifies this
      ensures Valid() && history == old(history) + [Event.RecvUnknownCode]
      ensures Now() == Step(conf, old(Abs()), Event.RecvUnknownCode)
    {
      Begin();
      trace, acts := Now().CodeReject().trace, Now().CodeReject().acts;
      End(Event.RecvUnknownCode, old(Abs()));
    }

    /** Echo replies and the other codes that change nothing, but for the magic number check. */
    method RecvOther(badMagic: bool)
      requires Valid()
      modifies this
      ensures Valid() && history == old(history) + [Event.RecvOther(badMagic)]
      ensures Now() == Step(conf, old(Abs()), Event.RecvOther(badMagic))
    {
      Begin();
      if badMagic {
        Fail();
      }
      End(Event.RecvOther(badMagic), old(Abs()));
    }

    /** The layer itself asks for the shutdown. */
    method FailureEvent()
      requires Valid()
      modifies this
      ensures Valid() && history == old(history) + [Failure]
      ensures Now() == Step(conf, old(Abs()), Failure)
    {
      Begin();
      Fail();
      End(Failure, old(Abs()));
    }

    /** The layer asks its peer for a reset: one more identifier is drawn. */
    method ResetRequestEvent()
      requires Valid()
      modifies this
      ensures Valid() && history == old(history) + [ResetRequest]
      ensures Now() == Step(conf, old(Abs()), ResetRequest)
    {
      Begin();
      trace := Now().Reset().trace;
      NextId();
      End(ResetRequest, old(Abs()));
    }
  }
}

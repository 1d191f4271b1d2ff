/** In what order an event does what it does: nothing is told or sent before it is due. */
module FsmOrder {
  import opened FsmModel
  import opened Rfc1661
  import opened FsmLayers
  import opened FsmCounters

  /** How far an event has come: the state announced last, which layers have been told what, and whether
      anything has been done, sent, counted or given up yet. */
  datatype View = View(was: State, state: State, configured: bool, up: bool,
                       began: bool, busy: bool, terminated: bool, finished: bool)

  function At(m: Machine): View {
    View(m.state, m.state, m.layers.configured, m.layers.up, false, false, false, false)
  }

  function Did(v: View, op: Op): View {
    View(v.was,
         if op.NewState? then op.now else v.state,
         (v.configured || op.Configure?) && !op.UnConfigure?,
         (v.up || op.LayerUp?) && !op.LayerDown?,
         true,
         v.busy || op.InitRestart? || op.SendConfReq? || op.SendTermReq? || op.SendTermAck?,
         v.terminated || op.SendTermReq? || op.SendTermAck?,
         v.finished || op.UnConfigure?)
  }

  function Seen(v: View, t: Trace): View {
    match t
    case Nothing => v
    case Then(before, op) => Did(Seen(v, before), op)
  }

  /** What layers above may be told: configuring comes first and unconfiguring last, when they are down.
      They come up in Opened; they go down before the change of state only where the peer starts over or
      refuses our options, and on the way out after the Terminate packet. */
  predicate MayTell(ev: Event, v: View, op: Op) {
    && (op.Configure? ==> !v.began && !v.configured)
    && (op.UnConfigure? ==> (v.configured || ev.Down?) && !v.up)
    && (op.LayerUp? ==> v.state == Opened && v.configured && !v.up)
    && (op.LayerDown? ==>
          && v.configured
          && (if ev.RecvConfReq? || ev.RecvConfNak? then v.state == Opened || Dying(v.state) else v.state != Opened)
          && (Dying(v.state) ==> v.terminated))
  }

  /** The layer below is asked for before anything is sent or counted, and let go when no longer wanted,
      except that Down lets go first. Counters are set after the change of state. */
  predicate MayCount(ev: Event, v: View, op: Op) {
    && (op.NewState? ==> op.was == v.state)
    && (op.LayerStart? ==> !v.busy)
    && (op.LayerFinish? ==> if ev.Down? then v.state == v.was else !WantsLower(v.state))
    && (op.InitRestart? ==> v.state != v.was || ev.RecvConfReq? || ev.RecvConfNak? || ev.RecvConfRej?)
  }

  /** Requests go out in a state that waits for their answer, but before answers to the peer's request,
      which go out before the change of state. */
  predicate MaySend(ev: Event, v: View, op: Op) {
    && (op.SendConfReq? ==>
          v.configured && !v.up
          && if ev.RecvConfReq? then v.state == v.was else v.state == ReqSent || v.state == AckSent)
    && (op.SendConfAck? || op.SendConfNak? || op.SendConfRej? ==> v.state == v.was && !v.up)
    && (op.SendTermReq? ==> Dying(v.state))
    && (op.SendTermAck? ==> (ev.RecvTermReq? ==> v.state == ReqSent || !Negotiating(v.state)))
  }

  /** What may be done when an event has come this far. */
  predicate May(ev: Event, v: View, op: Op) {
    !v.finished && MayTell(ev, v, op) && MayCount(ev, v, op) && MaySend(ev, v, op)
  }

  predicate Orderly(ev: Event, v: View, t: Trace) {
    match t
    case Nothing => true
    case Then(before, op) => Orderly(ev, v, before) && May(ev, Seen(v, before), op)
  }

  predicate InOrder(conf: Conf, m: Machine, ev: Event) {
    Orderly(ev, At(m), Step(conf, m, ev).trace)
  }

  /** An event under way: in order so far, and come as far as told. */
  predicate Far(ev: Event, m: Machine, t: Trace, v: View) {
    Orderly(ev, At(m), t) && Seen(At(m), t) == v
  }

  lemma Begin(ev: Event, m: Machine) returns (t: Trace, v: View)
    ensures t == Nothing && v == At(m) && Far(ev, m, t, v)
    ensures v == View(m.state, m.state, m.layers.configured, m.layers.up, false, false, false, false)
  {
    t, v := Nothing, At(m);
  }

  /** One more operation. */
  lemma Do(ev: Event, m: Machine, t: Trace, v: View, op: Op) returns (u: Trace, w: View)
    requires Far(ev, m, t, v) && May(ev, v, op)
    ensures u == Then(t, op) && w == Did(v, op) && Far(ev, m, u, w)
  {
    hide May, Did;
    u, w := Then(t, op), Did(v, op);
  }

  // ---- Single operations ----

  function Sending(id: Byte, verdict: Verdict): Op {
    match verdict case Ack => SendConfAck(id) case Nak => SendConfNak(id) case Rej => SendConfRej(id)
  }

  lemma Shift(ev: Event, m: Machine, t: Trace, v: View, now: State) returns (u: Trace, w: View)
    requires Far(ev, m, t, v) && !v.finished
    ensures u == Then(t, NewState(v.state, now)) && w == v.(began := true, state := now) && Far(ev, m, u, w)
  {
    hide Far;
    u, w := Do(ev, m, t, v, NewState(v.state, now));
  }

  lemma Configures(ev: Event, m: Machine, t: Trace, v: View) returns (u: Trace, w: View)
    requires Far(ev, m, t, v) && !v.finished
    requires !v.began && !v.configured
    ensures u == Then(t, Configure) && w == v.(began := true, configured := true) && Far(ev, m, u, w)
  {
    hide Far;
    u, w := Do(ev, m, t, v, Configure);
  }

  lemma UnConfigures(ev: Event, m: Machine, t: Trace, v: View) returns (u: Trace, w: View)
    requires Far(ev, m, t, v) && !v.finished
    requires (v.configured || ev.Down?) && !v.up
    ensures u == Then(t, UnConfigure) && w == v.(began := true, configured := false, finished := true)
    ensures Far(ev, m, u, w)
  {
    hide Far;
    u, w := Do(ev, m, t, v, UnConfigure);
  }

  lemma ComesUp(ev: Event, m: Machine, t: Trace, v: View) returns (u: Trace, w: View)
    requires Far(ev, m, t, v) && !v.finished
    requires v.state == Opened && v.configured && !v.up
    ensures u == Then(t, LayerUp) && w == v.(began := true, up := true) && Far(ev, m, u, w)
  {
    hide Far;
    u, w := Do(ev, m, t, v, LayerUp);
  }

  lemma GoesDown(ev: Event, m: Machine, t: Trace, v: View) returns (u: Trace, w: View)
    requires Far(ev, m, t, v) && !v.finished
    requires v.configured && (Dying(v.state) ==> v.terminated)
    requires if ev.RecvConfReq? || ev.RecvConfNak? then v.state == Opened || Dying(v.state) else v.state != Opened
    ensures u == Then(t, LayerDown) && w == v.(began := true, up := false) && Far(ev, m, u, w)
  {
    hide Far;
    u, w := Do(ev, m, t, v, LayerDown);
  }

  lemma Starts(ev: Event, m: Machine, t: Trace, v: View) returns (u: Trace, w: View)
    requires Far(ev, m, t, v) && !v.finished
    requires !v.busy
    ensures u == Then(t, LayerStart) && w == v.(began := true) && Far(ev, m, u, w)
  {
    hide Far;
    u, w := Do(ev, m, t, v, LayerStart);
  }

  lemma Finishes(ev: Event, m: Machine, t: Trace, v: View) returns (u: Trace, w: View)
    requires Far(ev, m, t, v) && !v.finished
    requires if ev.Down? then v.state == v.was else !WantsLower(v.state)
    ensures u == Then(t, LayerFinish) && w == v.(began := true) && Far(ev, m, u, w)
  {
    hide Far;
    u, w := Do(ev, m, t, v, LayerFinish);
  }

  lemma Resets(ev: Event, m: Machine, t: Trace, v: View, kind: Restart) returns (u: Trace, w: View)
    requires Far(ev, m, t, v) && !v.finished
    requires v.state != v.was || ev.RecvConfReq? || ev.RecvConfNak? || ev.RecvConfRej?
    ensures u == Then(t, InitRestart(kind)) && w == v.(began := true, busy := true) && Far(ev, m, u, w)
  {
    hide Far;
    u, w := Do(ev, m, t, v, InitRestart(kind));
  }

  lemma Asks(ev: Event, m: Machine, t: Trace, v: View, n: nat) returns (u: Trace, w: View)
    requires Far(ev, m, t, v) && !v.finished
    requires v.configured && !v.up
    requires if ev.RecvConfReq? then v.state == v.was else v.state == ReqSent || v.state == AckSent
    ensures u == Then(t, SendConfReq(n)) && w == v.(began := true, busy := true) && Far(ev, m, u, w)
  {
    hide Far;
    u, w := Do(ev, m, t, v, SendConfReq(n));
  }

  lemma Answers(ev: Event, m: Machine, t: Trace, v: View, id: Byte, verdict: Verdict) returns (u: Trace, w: View)
    requires Far(ev, m, t, v) && !v.finished
    requires v.state == v.was && !v.up
    ensures u == Then(t, Sending(id, verdict)) && w == v.(began := true) && Far(ev, m, u, w)
  {
    hide Far;
    u, w := Do(ev, m, t, v, Sending(id, verdict));
  }

  lemma Terminates(ev: Event, m: Machine, t: Trace, v: View, n: nat) returns (u: Trace, w: View)
    requires Far(ev, m, t, v) && !v.finished
    requires Dying(v.state)
    ensures u == Then(t, SendTermReq(n)) && w == v.(began := true, busy := true, terminated := true) && Far(ev, m, u, w)
  {
    hide Far;
    u, w := Do(ev, m, t, v, SendTermReq(n));
  }

  lemma Acknowledges(ev: Event, m: Machine, t: Trace, v: View, n: nat) returns (u: Trace, w: View)
    requires Far(ev, m, t, v) && !v.finished
    requires ev.RecvTermReq? ==> v.state == ReqSent || !Negotiating(v.state)
    ensures u == Then(t, SendTermAck(n)) && w == v.(began := true, busy := true, terminated := true) && Far(ev, m, u, w)
  {
    hide Far;
    u, w := Do(ev, m, t, v, SendTermAck(n));
  }

  lemma Just(ev: Event, m: Machine, t: Trace, v: View, op: Op) returns (u: Trace, w: View)
    requires Far(ev, m, t, v) && !v.finished
    requires op.InitFailure? || op.InitConfig? || op.StartTimer? || op.TimerFired?
      || op.SendCodeRej? || op.SendEchoRep? || op.SendResetReq?
    ensures u == Then(t, op) && w == v.(began := true) && Far(ev, m, u, w)
  {
    hide Far;
    u, w := Do(ev, m, t, v, op);
  }

  // ---- Event by event ----

  lemma OpenInOrder(conf: Conf, m: Machine)
    requires Bookkeeping(conf, m)
    ensures InOrder(conf, m, Open)
  {
    hide Far, Seen, Orderly, At, InOrder, May, Did;
    var t, v := Begin(Open, m);
    if m.state == Initial {
      t, v := Shift(Open, m, t, v, Starting);
      t, v := Starts(Open, m, t, v);
    } else if m.state == Closed {
      t, v := Configures(Open, m, t, v);
      t, v := Shift(Open, m, t, v, ReqSent);
      t, v := Starts(Open, m, t, v);
      t, v := DoCounters(Open, m, t, v);
      t, v := Asks(Open, m, t, v, m.serial);
    } else if m.state == Closing {
      t, v := Shift(Open, m, t, v, Stopping);
    }
    Done(conf, Open, m, t, v);
  }

  lemma Done(conf: Conf, ev: Event, m: Machine, t: Trace, v: View)
    requires Far(ev, m, t, v) && t == Step(conf, m, ev).trace
    ensures InOrder(conf, m, ev)
  {
    hide Step;
  }

  lemma DoCounters(ev: Event, m: Machine, t: Trace, v: View) returns (u: Trace, w: View)
    requires Far(ev, m, t, v) && !v.finished
    requires v.state != v.was || ev.RecvConfReq? || ev.RecvConfNak? || ev.RecvConfRej?
    ensures u == Then(Then(Then(t, InitRestart(MaxConfigure)), InitFailure), InitConfig)
    ensures w == v.(began := true, busy := true) && Far(ev, m, u, w)
  {
    hide Far, Seen, Orderly, At, InOrder, May, Did;
    u, w := Resets(ev, m, t, v, MaxConfigure);
    u, w := Just(ev, m, u, w, InitFailure);
    u, w := Just(ev, m, u, w, InitConfig);
  }

  lemma UpInOrder(conf: Conf, m: Machine)
    requires Bookkeeping(conf, m)
    ensures InOrder(conf, m, Up)
  {
    hide Far, Seen, Orderly, At, InOrder, May, Did;
    var t, v := Begin(Up, m);
    if m.state == Initial {
      t, v := Shift(Up, m, t, v, Closed);
    } else if m.state == Starting {
      t, v := Configures(Up, m, t, v);
      t, v := Shift(Up, m, t, v, ReqSent);
      t, v := DoCounters(Up, m, t, v);
      t, v := Asks(Up, m, t, v, m.serial);
    }
    Done(conf, Up, m, t, v);
  }

  lemma DownInOrder(conf: Conf, m: Machine)
    requires Bookkeeping(conf, m)
    ensures InOrder(conf, m, Down)
  {
    hide Far, Seen, Orderly, At, InOrder, May, Did;
    var t, v := Begin(Down, m);
    if m.state == Closing {
      t, v := Finishes(Down, m, t, v);
    }
    if m.state == Closing || m.state == Closed {
      t, v := Shift(Down, m, t, v, Initial);
    } else if m.state == Stopped {
      t, v := Shift(Down, m, t, v, Starting);
      t, v := Starts(Down, m, t, v);
    } else if m.state == Stopping || Negotiating(m.state) {
      t, v := Shift(Down, m, t, v, Starting);
      if m.state == Opened {
        t, v := GoesDown(Down, m, t, v);
      }
      t, v := UnConfigures(Down, m, t, v);
    }
    Done(conf, Down, m, t, v);
  }

  /** The way out of a negotiation: change of state, counter, Terminate-Request, layers. */
  lemma DoTerminate(ev: Event, m: Machine, t: Trace, v: View, was: State, now: State, n: nat, down: bool)
      returns (u: Trace, w: View)
    requires Far(ev, m, t, v) && !v.finished && v.state == was && Dying(now) && v.configured
    requires v.was != now && (!down ==> !v.up)
    ensures var sent := Then(Then(Then(t, NewState(was, now)), InitRestart(MaxTerminate)), SendTermReq(n));
      u == Then(if down then Then(sent, LayerDown) else sent, UnConfigure)
    ensures Far(ev, m, u, w)
  {
    hide Far, Seen, Orderly, At, InOrder, May, Did;
    u, w := DoSend(ev, m, t, v, was, now, n);
    if down {
      u, w := GoesDown(ev, m, u, w);
    }
    u, w := UnConfigures(ev, m, u, w);
  }

  lemma DoSend(ev: Event, m: Machine, t: Trace, v: View, was: State, now: State, n: nat)
      returns (u: Trace, w: View)
    requires Far(ev, m, t, v) && !v.finished && v.state == was && Dying(now) && v.was != now
    ensures u == Then(Then(Then(t, NewState(was, now)), InitRestart(MaxTerminate)), SendTermReq(n))
    ensures w == View(v.was, now, v.configured, v.up, true, true, true, false) && Far(ev, m, u, w)
  {
    hide Far, Seen, Orderly, At, InOrder, May, Did;
    u, w := Shift(ev, m, t, v, now);
    u, w := Resets(ev, m, u, w, MaxTerminate);
    u, w := Terminates(ev, m, u, w, n);
  }

  lemma CloseInOrder(conf: Conf, m: Machine)
    requires Bookkeeping(conf, m)
    ensures InOrder(conf, m, Close)
  {
    hide Far, Seen, Orderly, At, InOrder, May, Did;
    var t, v := Begin(Close, m);
    if m.state == Starting {
      t, v := Shift(Close, m, t, v, Initial);
      t, v := Finishes(Close, m, t, v);
    } else if m.state == Stopped {
      t, v := Shift(Close, m, t, v, Closed);
    } else if m.state == Stopping {
      t, v := Shift(Close, m, t, v, Closing);
    } else if Negotiating(m.state) {
      t, v := DoTerminate(Close, m, t, v, m.state, Closing, m.serial, m.state == Opened);
    }
    Done(conf, Close, m, t, v);
  }

  /** Failing, at whatever point of an event. */
  lemma DoFail(conf: Conf, ev: Event, m: Machine, o: Outcome, v: View) returns (w: View)
    requires Far(ev, m, o.trace, v) && !v.finished && v.state == o.m.state && !ev.Down?
    requires Negotiating(o.m.state) ==> v.configured && (o.m.state != Opened ==> !v.up) && !Dying(v.was)
    ensures Far(ev, m, o.Fail(conf).trace, w)
  {
    hide Far, Seen, Orderly, At, InOrder, May, Did;
    var s, t := o.m.state, o.trace;
    w := v;
    if s == Closing || s == Stopping {
      t, w := Shift(ev, m, t, w, if s == Closing then Closed else Stopped);
      t, w := Finishes(ev, m, t, w);
    } else if s == Closed || (s == Stopped && !conf.passive) {
      t, w := Finishes(ev, m, t, w);
    } else if s == Opened {
      t, w := DoTerminate(ev, m, t, w, Opened, Stopping, o.m.serial, true);
    } else if Negotiating(s) {
      t, w := Shift(ev, m, t, w, Stopped);
      if !conf.passive {
        t, w := Finishes(ev, m, t, w);
      }
      t, w := UnConfigures(ev, m, t, w);
    }
    assert t == o.Fail(conf).trace;
  }

  lemma TimeoutInOrder(conf: Conf, m: Machine)
    requires Bookkeeping(conf, m)
    ensures InOrder(conf, m, Timeout)
  {
    hide Far, Seen, Orderly, At, InOrder, May, Did, Outcome.Fail;
    var t, v := Begin(Timeout, m);
    if m.timer {
      t, v := Just(Timeout, m, t, v, TimerFired);
      if m.restart > 0 {
        if Dying(m.state) {
          t, v := Terminates(Timeout, m, t, v, m.serial);
        } else {
          if m.state == AckRcvd {
            t, v := Shift(Timeout, m, t, v, ReqSent);
          }
          t, v := Asks(Timeout, m, t, v, m.serial);
        }
      } else if Dying(m.state) {
        t, v := Shift(Timeout, m, t, v, if m.state == Closing then Closed else Stopped);
        t, v := Finishes(Timeout, m, t, v);
      } else {
        v := DoFail(conf, Timeout, m, Start(m).Timer(false), v);
        t := Start(m).Timer(false).Fail(conf).trace;
      }
    }
    Done(conf, Timeout, m, t, v);
  }

  lemma ConfReqInOrder(conf: Conf, m: Machine, id: Byte, verdict: Verdict)
    requires Bookkeeping(conf, m)
    ensures InOrder(conf, m, RecvConfReq(id, verdict))
  {
    hide Far, Seen, Orderly, At, InOrder, May, Did, Outcome.Fail;
    var ev := RecvConfReq(id, verdict);
    var t, v := Begin(ev, m);
    if m.state == Closed {
      t, v := Acknowledges(ev, m, t, v, m.serial);
    } else if m.state == Stopped || Negotiating(m.state) {
      var o := Start(m);
      if m.state == Stopped {
        t, v := Configures(ev, m, t, v);
        t, v := Starts(ev, m, t, v);
        t, v := DoCounters(ev, m, t, v);
        t, v := Asks(ev, m, t, v, m.serial);
        o := o.Configured().Started().Counters(conf).Request();
      } else if m.state == Opened {
        t, v := GoesDown(ev, m, t, v);
        t, v := Asks(ev, m, t, v, m.serial);
        o := o.Down().Request();
      }
      assert t == o.trace;
      if verdict != Ack && o.m.failure <= 0 {
        v := DoFail(conf, ev, m, o, v);
        t := o.Fail(conf).trace;
      } else {
        t, v := Answers(ev, m, t, v, id, verdict);
        t, v := DoMoveOn(ev, m, t, v, verdict);
      }
    }
    Done(conf, ev, m, t, v);
  }

  lemma DoMoveOn(ev: Event, m: Machine, t: Trace, v: View, verdict: Verdict) returns (u: Trace, w: View)
    requires Far(ev, m, t, v) && !v.finished && v.state == m.state && v.configured && !v.up
    requires m.state == Stopped || Negotiating(m.state)
    ensures Far(ev, m, u, w)
    ensures var ack := verdict == Ack;
      u == match m.state
        case Stopped => Then(t, NewState(Stopped, if ack then AckSent else ReqSent))
        case Opened => Then(t, NewState(Opened, if ack then AckSent else ReqSent))
        case ReqSent => if ack then Then(t, NewState(ReqSent, AckSent)) else t
        case AckRcvd => if ack then Then(Then(t, NewState(AckRcvd, Opened)), LayerUp) else t
        case _ => if ack then t else Then(t, NewState(AckSent, ReqSent))
  {
    hide Far, Seen, Orderly, At, InOrder, May, Did;
    u, w := t, v;
    if m.state == Stopped || m.state == Opened {
      u, w := Shift(ev, m, u, w, if verdict == Ack then AckSent else ReqSent);
    } else if m.state == ReqSent && verdict == Ack {
      u, w := Shift(ev, m, u, w, AckSent);
    } else if m.state == AckRcvd && verdict == Ack {
      u, w := Shift(ev, m, u, w, Opened);
      u, w := ComesUp(ev, m, u, w);
    } else if m.state == AckSent && verdict != Ack {
      u, w := Shift(ev, m, u, w, ReqSent);
    }
  }

  lemma ConfAckInOrder(conf: Conf, m: Machine, id: Byte)
    requires Bookkeeping(conf, m)
    ensures InOrder(conf, m, RecvConfAck(id))
  {
    hide Far, Seen, Orderly, At, InOrder, May, Did;
    var ev := RecvConfAck(id);
    var t, v := Begin(ev, m);
    if Expected(m, id) {
      if m.state == Closed || m.state == Stopped {
        t, v := Acknowledges(ev, m, t, v, m.serial);
      } else if m.state == ReqSent || m.state == AckSent {
        t, v := Shift(ev, m, t, v, if m.state == ReqSent then AckRcvd else Opened);
        t, v := DoCounters(ev, m, t, v);
        if m.state == ReqSent {
          t, v := Just(ev, m, t, v, StartTimer);
        } else {
          t, v := ComesUp(ev, m, t, v);
        }
      } else if m.state == AckRcvd || m.state == Opened {
        t, v := Shift(ev, m, t, v, ReqSent);
        if m.state == Opened {
          t, v := GoesDown(ev, m, t, v);
        }
        t, v := Asks(ev, m, t, v, m.serial);
      }
    }
    Done(conf, ev, m, t, v);
  }

  lemma RefusalInOrder(conf: Conf, m: Machine, ev: Event)
    requires Bookkeeping(conf, m) && (ev.RecvConfNak? || ev.RecvConfRej?)
    ensures InOrder(conf, m, ev)
  {
    hide Far, Seen, Orderly, At, InOrder, May, Did, Outcome.Fail;
    var t, v := Begin(ev, m);
    if Expected(m, ev.id) {
      if m.state == Closed || m.state == Stopped {
        t, v := Acknowledges(ev, m, t, v, m.serial);
      } else if Negotiating(m.state) {
        if m.config <= 0 {
          v := DoFail(conf, ev, m, Start(m), v);
          t := Start(m).Fail(conf).trace;
        } else {
          t, v := DoAskAgain(ev, m);
        }
      }
    }
    Done(conf, ev, m, t, v);
  }

  lemma DoAskAgain(ev: Event, m: Machine) returns (t: Trace, v: View)
    requires (ev.RecvConfNak? || ev.RecvConfRej?) && Negotiating(m.state)
    requires m.layers.configured && (m.layers.up <==> m.state == Opened)
    ensures Far(ev, m, t, v)
    ensures var before :=
        if m.state == AckRcvd then Then(Nothing, NewState(AckRcvd, ReqSent))
        else if m.state != Opened then Then(Nothing, InitRestart(MaxConfigure))
        else if ev.RecvConfNak? then Then(Then(Nothing, LayerDown), NewState(Opened, ReqSent))
        else Then(Then(Nothing, NewState(Opened, ReqSent)), LayerDown);
      t == Then(before, SendConfReq(m.serial))
  {
    hide Far, Seen, Orderly, At, InOrder, May, Did;
    t, v := Begin(ev, m);
    if m.state == Opened && ev.RecvConfNak? {
      t, v := GoesDown(ev, m, t, v);
    }
    if m.state == AckRcvd || m.state == Opened {
      t, v := Shift(ev, m, t, v, ReqSent);
    } else {
      t, v := Resets(ev, m, t, v, MaxConfigure);
    }
    if m.state == Opened && ev.RecvConfRej? {
      t, v := GoesDown(ev, m, t, v);
    }
    t, v := Asks(ev, m, t, v, m.serial);
  }

  lemma TermReqInOrder(conf: Conf, m: Machine)
    requires Bookkeeping(conf, m)
    ensures InOrder(conf, m, RecvTermReq)
  {
    hide Far, Seen, Orderly, At, InOrder, May, Did;
    var ev := RecvTermReq;
    var t, v := Begin(ev, m);
    if m.state == Opened {
      t, v := DoLeave(ev, m);
    } else {
      if m.state == AckRcvd || m.state == AckSent {
        t, v := Shift(ev, m, t, v, ReqSent);
      }
      if m.state != Initial && m.state != Starting {
        t, v := Acknowledges(ev, m, t, v, m.serial);
      }
    }
    Done(conf, ev, m, t, v);
  }

  lemma DoLeave(ev: Event, m: Machine) returns (t: Trace, v: View)
    requires ev == RecvTermReq && m.state == Opened && m.layers.configured
    ensures t == Then(Then(Then(Then(Then(Then(Nothing, NewState(Opened, Stopping)), SendTermAck(m.serial)),
      LayerDown), InitRestart(Zero)), StartTimer), UnConfigure)
    ensures Far(ev, m, t, v)
  {
    hide Far, Seen, Orderly, At, InOrder, May, Did;
    t, v := Begin(ev, m);
    t, v := Shift(ev, m, t, v, Stopping);
    t, v := Acknowledges(ev, m, t, v, m.serial);
    t, v := GoesDown(ev, m, t, v);
    t, v := DoStopping(ev, m, t, v);
  }

  lemma DoStopping(ev: Event, m: Machine, t: Trace, v: View) returns (u: Trace, w: View)
    requires Far(ev, m, t, v) && !v.finished && v.state != v.was && v.configured && !v.up
    ensures u == Then(Then(Then(t, InitRestart(Zero)), StartTimer), UnConfigure) && Far(ev, m, u, w)
  {
    hide Far, Seen, Orderly, At, InOrder, May, Did;
    u, w := Resets(ev, m, t, v, Zero);
    u, w := Just(ev, m, u, w, StartTimer);
    u, w := UnConfigures(ev, m, u, w);
  }

  lemma TermAckInOrder(conf: Conf, m: Machine)
    requires Bookkeeping(conf, m)
    ensures InOrder(conf, m, RecvTermAck)
  {
    hide Far, Seen, Orderly, At, InOrder, May, Did;
    var ev := RecvTermAck;
    var t, v := Begin(ev, m);
    if Dying(m.state) {
      t, v := Shift(ev, m, t, v, if m.state == Closing then Closed else Stopped);
      t, v := Finishes(ev, m, t, v);
    } else if m.state == AckRcvd || m.state == Opened {
      t, v := Shift(ev, m, t, v, ReqSent);
      if m.state == Opened {
        t, v := GoesDown(ev, m, t, v);
        t, v := Asks(ev, m, t, v, m.serial);
      }
    }
    Done(conf, ev, m, t, v);
  }

  lemma OtherInOrder(conf: Conf, m: Machine, ev: Event)
    requires Bookkeeping(conf, m)
    requires ev.RecvCodeRej? || ev.RecvProtoRej? || ev.RecvUnknownCode? || ev.RecvEchoReq? || ev.RecvOther?
      || ev.Failure? || ev.ResetRequest?
    ensures InOrder(conf, m, ev)
  {
    hide Far, Seen, Orderly, At, InOrder, May, Did, Outcome.Fail;
    var t, v := Begin(ev, m);
    var fails := match ev
      case RecvCodeRej(fatal) => fatal
      case RecvProtoRej(fatal) => fatal && m.state == Opened
      case RecvEchoReq(_, bad) => bad
      case RecvOther(bad) => bad
      case Failure => true
      case _ => false;
    if fails {
      v := DoFail(conf, ev, m, Start(m), v);
      t := Start(m).Fail(conf).trace;
      FailNotOpened(conf, m);
    } else if (ev.RecvCodeRej? || ev.RecvProtoRej?) && m.state == AckRcvd {
      t, v := Shift(ev, m, t, v, ReqSent);
    } else if ev.RecvUnknownCode? {
      t, v := Just(ev, m, t, v, SendCodeRej);
    } else if ev.RecvEchoReq? && m.state == Opened {
      t, v := Just(ev, m, t, v, SendEchoRep(ev.id));
    } else if ev.ResetRequest? {
      t, v := Just(ev, m, t, v, SendResetReq(m.serial));
    }
    Done(conf, ev, m, t, v);
  }

  lemma FailNotOpened(conf: Conf, m: Machine)
    ensures Start(m).Fail(conf).m.state != Opened
  {
  }

  /** Every event in every sound state, and so in every state a run can reach, keeps this order. */
  lemma StepInOrder(conf: Conf, m: Machine, ev: Event)
    requires Sound(conf, m)
    ensures InOrder(conf, m, ev)
  {
    hide InOrder, Bookkeeping, Counted;
    match ev
    case Open => OpenInOrder(conf, m);
    case Up => UpInOrder(conf, m);
    case Down => DownInOrder(conf, m);
    case Close => CloseInOrder(conf, m);
    case Timeout => TimeoutInOrder(conf, m);
    case RecvConfReq(id, verdict) => ConfReqInOrder(conf, m, id, verdict);
    case RecvConfAck(id) => ConfAckInOrder(conf, m, id);
    case RecvConfNak(_) => RefusalInOrder(conf, m, ev);
    case RecvConfRej(_) => RefusalInOrder(conf, m, ev);
    case RecvTermReq => TermReqInOrder(conf, m);
    case RecvTermAck => TermAckInOrder(conf, m);
    case _ => OtherInOrder(conf, m, ev);
  }
}

/** What holds in every state a run can reach: the layer notifications and the timer are functions
    of the state, and the counters stay inside their 16-bit fields. */
module FsmLayers {
  import opened FsmModel
  import opened Rfc1661

  predicate WantsLower(s: State) { s != Initial && s != Closed && s != Stopped }

  /** Which notifications are in effect. */
  predicate Bookkeeping(conf: Conf, m: Machine) {
    && TimerFits(m)
    && m.layers.clean
    && (m.layers.configured <==> Negotiating(m.state))
    && (m.layers.up <==> m.state == Opened)
    && (WantsLower(m.state) ==> m.layers.requested)
    && (!conf.passive && m.layers.requested ==> WantsLower(m.state))
  }

  /** Ranges of the counters. */
  predicate Counted(conf: Conf, m: Machine) {
    && 0 <= m.restart <= 0x7fff
    && 0 <= m.failure <= conf.maxFailure
    && -conf.maxConfig < m.config <= conf.maxConfig
    && (m.state == AckRcvd || m.state == Opened ==>
          m.restart == conf.maxConfig && m.config == conf.maxConfig)
    && (m.state == ReqSent || m.state == AckSent ==>
          m.restart <= conf.maxConfig && m.restart - conf.maxConfig < m.config)
  }

  predicate Sound(conf: Conf, m: Machine) { Bookkeeping(conf, m) && Counted(conf, m) }

  lemma AdminSound(conf: Conf, m: Machine)
    requires Sound(conf, m)
    ensures Sound(conf, OnOpen(conf, m).m) && Sound(conf, OnUp(conf, m).m)
  {}

  lemma DownSound(conf: Conf, m: Machine)
    requires Sound(conf, m)
    ensures Sound(conf, OnDown(conf, m).m)
  {}

  lemma CloseSound(conf: Conf, m: Machine)
    requires Sound(conf, m)
    ensures Sound(conf, OnClose(conf, m).m)
  {}

  lemma TimeoutSound(conf: Conf, m: Machine)
    requires Sound(conf, m)
    ensures Sound(conf, OnTimeout(conf, m).m)
  {}

  lemma ConfReqSound(conf: Conf, m: Machine, id: Byte, verdict: Verdict)
    requires Sound(conf, m)
    ensures Sound(conf, OnConfReq(conf, m, id, verdict).m)
  {
    if m.state == Opened || m.state == Stopped {
      ConfReqStarts(conf, m, id, verdict);
    } else {
      ConfReqContinues(conf, m, id, verdict);
    }
  }

  lemma ConfReqStarts(conf: Conf, m: Machine, id: Byte, verdict: Verdict)
    requires Sound(conf, m) && (m.state == Opened || m.state == Stopped)
    ensures Sound(conf, OnConfReq(conf, m, id, verdict).m)
  {}

  lemma ConfReqContinues(conf: Conf, m: Machine, id: Byte, verdict: Verdict)
    requires Sound(conf, m) && m.state != Opened && m.state != Stopped
    ensures Sound(conf, OnConfReq(conf, m, id, verdict).m)
  {}

  lemma ConfAckSound(conf: Conf, m: Machine, id: Byte)
    requires Sound(conf, m)
    ensures Sound(conf, OnConfAck(conf, m, id).m)
  {}

  lemma ConfNakSound(conf: Conf, m: Machine, id: Byte, nak: bool)
    requires Sound(conf, m)
    ensures Sound(conf, OnConfNakRej(conf, m, id, nak).m)
  {}

  lemma TerminateSound(conf: Conf, m: Machine)
    requires Sound(conf, m)
    ensures Sound(conf, OnTermReq(conf, m).m) && Sound(conf, OnTermAck(conf, m).m)
  {
    hide Sound, OnTermReq, OnTermAck;
    TermReqSound(conf, m);
    TermAckSound(conf, m);
  }

  lemma TermReqSound(conf: Conf, m: Machine)
    requires Sound(conf, m)
    ensures Sound(conf, OnTermReq(conf, m).m)
  {}

  lemma TermAckSound(conf: Conf, m: Machine)
    requires Sound(conf, m)
    ensures Sound(conf, OnTermAck(conf, m).m)
  {}

  lemma RejectSound(conf: Conf, m: Machine, fatal: bool)
    requires Sound(conf, m)
    ensures Sound(conf, OnReject(conf, m, fatal).m)
  {}

  lemma EchoSound(conf: Conf, m: Machine, id: Byte, badMagic: bool)
    requires Sound(conf, m)
    ensures Sound(conf, OnEchoReq(conf, m, id, badMagic).m)
  {
    hide Sound, Outcome.Fail;
    RejectSound(conf, m, true);
  }

  lemma ResetSound(conf: Conf, m: Machine)
    requires Sound(conf, m)
    ensures Sound(conf, Start(m).Reset().m)
  {}

  lemma StepSound(conf: Conf, m: Machine, ev: Event)
    requires Sound(conf, m)
    ensures Sound(conf, Step(conf, m, ev).m)
  {
    match ev
    case Open => { hide Sound, OnOpen, OnUp; AdminSound(conf, m); }
    case Up => { hide Sound, OnOpen, OnUp; AdminSound(conf, m); }
    case Down => { hide Sound, OnDown; DownSound(conf, m); }
    case Close => { hide Sound, OnClose; CloseSound(conf, m); }
    case Timeout => { hide Sound, OnTimeout; TimeoutSound(conf, m); }
    case RecvConfReq(id, verdict) => { hide Sound, OnConfReq; ConfReqSound(conf, m, id, verdict); }
    case RecvConfAck(id) => { hide Sound, OnConfAck; ConfAckSound(conf, m, id); }
    case RecvConfNak(id) => { hide Sound, OnConfNakRej; ConfNakSound(conf, m, id, true); }
    case RecvConfRej(id) => { hide Sound, OnConfNakRej; ConfNakSound(conf, m, id, false); }
    case RecvTermReq => { hide Sound, OnTermReq, OnTermAck; TerminateSound(conf, m); }
    case RecvTermAck => { hide Sound, OnTermReq, OnTermAck; TerminateSound(conf, m); }
    case RecvCodeRej(fatal) => { hide Sound, OnReject; RejectSound(conf, m, fatal); }
    case RecvProtoRej(fatal) =>
      { hide Sound, OnReject; RejectSound(conf, m, fatal && m.state == Opened); }
    case RecvUnknownCode => {}
    case RecvEchoReq(id, badMagic) => { hide Sound, OnEchoReq; EchoSound(conf, m, id, badMagic); }
    case RecvOther(badMagic) => { hide Sound; RejectSound(conf, m, true); }
    case Failure => { hide Sound; RejectSound(conf, m, true); }
    case ResetRequest => { hide Sound; ResetSound(conf, m); }
  }

  /** In every reachable state the notifications in effect and the timer are what the state says,
      and no counter leaves its field. */
  lemma {:induction false} RunSound(conf: Conf, evs: seq<Event>)
    ensures Sound(conf, After(conf, evs))
  {
    if evs != [] {
      hide Sound, Step;
      RunSound(conf, evs[..|evs| - 1]);
      StepSound(conf, After(conf, evs[..|evs| - 1]), evs[|evs| - 1]);
    }
  }

  lemma PassiveSteps(conf: Conf)
    ensures var m := Step(conf, Step(conf, Step(conf, Step(conf, Step(conf, INIT, Open).m, Up).m, Failure).m,
        Close).m, Down).m;
      m.state == Initial && (m.layers.requested <==> conf.passive)
  {
    var m1 := Step(conf, INIT, Open).m;
    assert m1.state == Starting;
    var m2 := Step(conf, m1, Up).m;
    assert m2.state == ReqSent && m2.layers.requested;
    PassiveStops(conf, m2);
  }

  lemma PassiveStops(conf: Conf, m2: Machine)
    requires m2.state == ReqSent && m2.layers.requested
    ensures var m := Step(conf, Step(conf, Step(conf, m2, Failure).m, Close).m, Down).m;
      m.state == Initial && (m.layers.requested <==> conf.passive)
  {
    var m3 := Step(conf, m2, Failure).m;
    assert m3.state == Stopped && (m3.layers.requested <==> conf.passive);
    var m4 := Step(conf, m3, Close).m;
    assert m4.state == Closed && (m4.layers.requested <==> conf.passive);
  }

  /** The converse for `requested` needs passive mode off: a passive automaton can end in Initial
      with its lower layer still requested. */
  lemma PassiveKeepsLowerLayer(conf: Conf)
    ensures var m := After(conf, [Open, Up, Failure, Close, Down]);
            m.state == Initial && (m.layers.requested <==> conf.passive)
  {
    hide Step;
    PassiveSteps(conf);
    AfterSnoc(conf, [], Open);
    AfterSnoc(conf, [Open], Up);
    AfterSnoc(conf, [Open, Up], Failure);
    AfterSnoc(conf, [Open, Up, Failure], Close);
    AfterSnoc(conf, [Open, Up, Failure, Close], Down);
    assert [] + [Open] == [Open] && [Open] + [Up] == [Open, Up] && [Open, Up] + [Failure] == [Open, Up, Failure];
    assert [Open, Up, Failure] + [Close] == [Open, Up, Failure, Close];
    assert [Open, Up, Failure, Close] + [Down] == [Open, Up, Failure, Close, Down];
  }
}

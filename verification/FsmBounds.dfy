/** Negotiation cannot go on for ever: bounds on the packets sent and on the timeouts taken. */
module FsmBounds {
  import opened FsmModel
  import opened Rfc1661
  import opened FsmLayers

  predicate Bargaining(s: State) { s == ReqSent || s == AckSent }

  /** How many more Configure-Requests can leave before the automaton leaves Req-Sent/Ack-Sent. */
  function RequestsLeft(conf: Conf, m: Machine): int {
    if m.config > 0 then m.config + conf.maxConfig - 1 else m.restart
  }

  /** Req-Sent/Ack-Sent throughout. */
  predicate StaysBargaining(conf: Conf, m: Machine, evs: seq<Event>)
    decreases evs
  {
    Bargaining(m.state) && (evs != [] ==> StaysBargaining(conf, Step(conf, m, evs[0]).m, evs[1..]))
  }

  /** Configure-Requests and Configure-Naks or -Rejects sent by a run. */
  function Requests(conf: Conf, m: Machine, evs: seq<Event>): int
    decreases evs
  {
    if evs == [] then 0
    else Step(conf, m, evs[0]).acts.scr + Requests(conf, Step(conf, m, evs[0]).m, evs[1..])
  }

  function Refusals(conf: Conf, m: Machine, evs: seq<Event>): int
    decreases evs
  {
    if evs == [] then 0
    else Step(conf, m, evs[0]).acts.scn + Refusals(conf, Step(conf, m, evs[0]).m, evs[1..])
  }

  lemma StepCosts(conf: Conf, m: Machine, ev: Event)
    requires Sound(conf, m) && Bargaining(m.state) && Bargaining(Step(conf, m, ev).m.state)
    ensures Step(conf, m, ev).acts.scr <= RequestsLeft(conf, m) - RequestsLeft(conf, Step(conf, m, ev).m)
    ensures Step(conf, m, ev).acts.scn == m.failure - Step(conf, m, ev).m.failure
  {
  }

  /** However the peer behaves, a run that stays in Req-Sent/Ack-Sent sends a bounded number of
      requests and refusals. */
  lemma {:induction false} BargainingIsBounded(conf: Conf, m: Machine, evs: seq<Event>)
    requires Sound(conf, m) && StaysBargaining(conf, m, evs)
    ensures Requests(conf, m, evs) <= RequestsLeft(conf, m) <= 2 * conf.maxConfig - 1
    ensures Refusals(conf, m, evs) <= m.failure <= conf.maxFailure
    decreases evs
  {
    if evs == [] {
    } else {
      hide Step, Sound;
      var m' := Step(conf, m, evs[0]).m;
      StepSound(conf, m, evs[0]);
      StepCosts(conf, m, evs[0]);
      BargainingIsBounded(conf, m', evs[1..]);
    }
    RequestsLeftBounded(conf, m);
  }

  // ---- Refusals, in whatever states ----

  predicate Replenishes(t: Trace) {
    match t
    case Nothing => false
    case Then(before, op) => op.InitFailure? || Replenishes(before)
  }

  /** Does the event set the failure counter to its maximum? */
  predicate Resets(conf: Conf, m: Machine, ev: Event) {
    Replenishes(Step(conf, m, ev).trace)
  }

  /** No event of the run sets the failure counter. */
  predicate NeverResets(conf: Conf, m: Machine, evs: seq<Event>)
    decreases evs
  {
    evs != [] ==> !Resets(conf, m, evs[0]) && NeverResets(conf, Step(conf, m, evs[0]).m, evs[1..])
  }

  /** The failure counter goes down by the refusals sent, from its maximum if the event set it. */
  predicate Pays(conf: Conf, m: Machine, ev: Event) {
    var o := Step(conf, m, ev);
    o.m.failure == (if Resets(conf, m, ev) then conf.maxFailure else m.failure) - o.acts.scn
  }

  /** Every refusal is paid for out of the failure counter, in every state, by every event. */
  lemma RefusalsArePaid(conf: Conf, m: Machine, ev: Event)
    ensures Pays(conf, m, ev)
  {
    hide Pays;
    if ev.RecvConfReq? {
      ConfReqPays(conf, m, ev.id, ev.verdict);
    } else if ev.RecvConfAck? || ev.RecvConfNak? || ev.RecvConfRej? {
      AnswersPay(conf, m, ev);
    } else if ev.Open? || ev.Up? || ev.Down? || ev.Close? || ev.Timeout? {
      AdminPays(conf, m, ev);
    } else {
      OthersPay(conf, m, ev);
    }
  }

  /** Between two settings of the failure counter no run, in whatever states, sends more refusals
      than the counter stood at, which is never more than its maximum. */
  lemma {:induction false} RefusalsBetweenResets(conf: Conf, m: Machine, evs: seq<Event>)
    requires Sound(conf, m) && NeverResets(conf, m, evs)
    ensures Refusals(conf, m, evs) <= m.failure <= conf.maxFailure
    decreases evs
  {
    hide Step, Sound, Resets;
    SoundFailure(conf, m);
    if evs != [] {
      StepSound(conf, m, evs[0]);
      RefusalsArePaid(conf, m, evs[0]);
      RefusalsBetweenResets(conf, Step(conf, m, evs[0]).m, evs[1..]);
    }
  }

  /** Refusals since the counter was last set, and whether it ever was. */
  function SinceReset(conf: Conf, evs: seq<Event>): (bool, int) {
    if evs == [] then (false, 0)
    else
      var before, ev := evs[..|evs| - 1], evs[|evs| - 1];
      var m, (ever, n) := After(conf, before), SinceReset(conf, before);
      var scn := Step(conf, m, ev).acts.scn;
      if Resets(conf, m, ev) then (true, scn) else (ever, n + scn)
  }

  /** In every reachable state the failure counter is exactly what is left of the budget last set:
      at most maxFailure refusals go out between resets. */
  lemma {:induction false} FailureIsTheBudgetLeft(conf: Conf, evs: seq<Event>)
    ensures var (ever, n) := SinceReset(conf, evs);
            After(conf, evs).failure == (if ever then conf.maxFailure else 0) - n && n <= conf.maxFailure
    decreases |evs|
  {
    hide Step, Sound, Resets;
    RunSound(conf, evs);
    SoundFailure(conf, After(conf, evs));
    if evs != [] {
      var before, ev := evs[..|evs| - 1], evs[|evs| - 1];
      FailureIsTheBudgetLeft(conf, before);
      RefusalsArePaid(conf, After(conf, before), ev);
    }
  }

  lemma SoundFailure(conf: Conf, m: Machine)
    requires Sound(conf, m)
    ensures 0 <= m.failure <= conf.maxFailure
  {
  }

  /** A failure of the automaton neither refuses nor resets. */
  lemma FailPays(conf: Conf, o: Outcome)
    ensures var f := o.Fail(conf);
            f.m.failure == o.m.failure && f.acts.scn == o.acts.scn && Replenishes(f.trace) == Replenishes(o.trace)
  {
    UnrollReplenishes(o.Fail(conf).trace);
  }

  lemma ConfReqPays(conf: Conf, m: Machine, id: Byte, verdict: Verdict)
    ensures Pays(conf, m, RecvConfReq(id, verdict))
  {
    hide Pays;
    if m.state == Stopped {
      ConfReqPaysInStopped(conf, m, id, verdict);
    } else if m.state == Opened {
      ConfReqPaysInOpened(conf, m, id, verdict);
    } else {
      ConfReqPaysElsewhere(conf, m, id, verdict);
    }
  }

  lemma ConfReqPaysInStopped(conf: Conf, m: Machine, id: Byte, verdict: Verdict)
    requires m.state == Stopped
    ensures Pays(conf, m, RecvConfReq(id, verdict))
  {
    hide Outcome.Fail;
    UnrollReplenishes(Step(conf, m, RecvConfReq(id, verdict)).trace);
  }

  lemma ConfReqPaysInOpened(conf: Conf, m: Machine, id: Byte, verdict: Verdict)
    requires m.state == Opened
    ensures Pays(conf, m, RecvConfReq(id, verdict))
  {
    hide Outcome.Fail;
    FailPays(conf, Start(m).Down().Request());
    UnrollReplenishes(Step(conf, m, RecvConfReq(id, verdict)).trace);
  }

  lemma ConfReqPaysElsewhere(conf: Conf, m: Machine, id: Byte, verdict: Verdict)
    requires m.state != Stopped && m.state != Opened
    ensures Pays(conf, m, RecvConfReq(id, verdict))
  {
    hide Outcome.Fail;
    FailPays(conf, Start(m));
    UnrollReplenishes(Step(conf, m, RecvConfReq(id, verdict)).trace);
  }

  lemma AnswersPay(conf: Conf, m: Machine, ev: Event)
    requires ev.RecvConfAck? || ev.RecvConfNak? || ev.RecvConfRej?
    ensures Pays(conf, m, ev)
  {
    hide Pays;
    if ev.RecvConfAck? {
      AckPays(conf, m, ev.id);
    } else {
      RefusalPays(conf, m, ev);
    }
  }

  lemma AckPays(conf: Conf, m: Machine, id: Byte)
    ensures Pays(conf, m, RecvConfAck(id))
  {
    hide Outcome.Fail;
    UnrollReplenishes(Step(conf, m, RecvConfAck(id)).trace);
  }

  lemma RefusalPays(conf: Conf, m: Machine, ev: Event)
    requires ev.RecvConfNak? || ev.RecvConfRej?
    ensures Pays(conf, m, ev)
  {
    hide Outcome.Fail;
    FailPays(conf, Start(m));
    UnrollReplenishes(Step(conf, m, ev).trace);
  }

  lemma AdminPays(conf: Conf, m: Machine, ev: Event)
    requires ev.Open? || ev.Up? || ev.Down? || ev.Close? || ev.Timeout?
    ensures Pays(conf, m, ev)
  {
    hide Pays;
    if ev.Open? || ev.Up? {
      StartingPays(conf, m, ev);
    } else {
      EndingPays(conf, m, ev);
    }
  }

  lemma StartingPays(conf: Conf, m: Machine, ev: Event)
    requires ev.Open? || ev.Up?
    ensures Pays(conf, m, ev)
  {
    hide Outcome.Fail;
    UnrollReplenishes(Step(conf, m, ev).trace);
  }

  lemma EndingPays(conf: Conf, m: Machine, ev: Event)
    requires ev.Down? || ev.Close? || ev.Timeout?
    ensures Pays(conf, m, ev)
  {
    hide Outcome.Fail;
    FailPays(conf, Start(m).Timer(false));
    UnrollReplenishes(Step(conf, m, ev).trace);
  }

  lemma OthersPay(conf: Conf, m: Machine, ev: Event)
    requires !(ev.Open? || ev.Up? || ev.Down? || ev.Close? || ev.Timeout?)
    requires !(ev.RecvConfReq? || ev.RecvConfAck? || ev.RecvConfNak? || ev.RecvConfRej?)
    ensures Pays(conf, m, ev)
  {
    hide Pays;
    if ev.RecvTermReq? || ev.RecvTermAck? {
      TerminatePays(conf, m, ev);
    } else {
      RejectPays(conf, m, ev);
    }
  }

  lemma TerminatePays(conf: Conf, m: Machine, ev: Event)
    requires ev.RecvTermReq? || ev.RecvTermAck?
    ensures Pays(conf, m, ev)
  {
    hide Outcome.Fail;
    UnrollReplenishes(Step(conf, m, ev).trace);
  }

  lemma RejectPays(conf: Conf, m: Machine, ev: Event)
    requires ev.RecvCodeRej? || ev.RecvProtoRej? || ev.RecvUnknownCode?
      || ev.RecvEchoReq? || ev.RecvOther? || ev.Failure? || ev.ResetRequest?
    ensures Pays(conf, m, ev)
  {
    hide Outcome.Fail;
    FailPays(conf, Start(m));
    UnrollReplenishes(Step(conf, m, ev).trace);
  }

  function Peeled(t: Trace): Trace { if t.Then? then t.before else t }

  predicate Peels(t: Trace) {
    Replenishes(t) == (t.Then? && (t.op.InitFailure? || Replenishes(t.before)))
  }

  /** No event performs more operations than are unrolled here. */
  lemma UnrollReplenishes(t: Trace)
    ensures Peels(t) && Peels(Peeled(t)) && Peels(Peeled(Peeled(t))) && Peels(Peeled(Peeled(Peeled(t))))
    ensures Peels(Peeled(Peeled(Peeled(Peeled(t))))) && Peels(Peeled(Peeled(Peeled(Peeled(Peeled(t))))))
    ensures Peels(Peeled(Peeled(Peeled(Peeled(Peeled(Peeled(t)))))))
    ensures Peels(Peeled(Peeled(Peeled(Peeled(Peeled(Peeled(Peeled(t))))))))
    ensures Peels(Peeled(Peeled(Peeled(Peeled(Peeled(Peeled(Peeled(Peeled(t)))))))))
  {
  }

  lemma RequestsLeftBounded(conf: Conf, m: Machine)
    requires Sound(conf, m) && Bargaining(m.state)
    ensures 0 <= RequestsLeft(conf, m) <= 2 * conf.maxConfig - 1
    ensures 0 <= m.failure <= conf.maxFailure
  {
  }

  /** The costliest behaviour of a peer: refuse every request while that is answered, then fall
      silent. */
  function Stonewall(conf: Conf, m: Machine): seq<Event>
    requires Sound(conf, m) && m.state == ReqSent
    decreases RequestsLeft(conf, m)
  {
    if RequestsLeft(conf, m) <= 0 then []
    else
      StonewallStep(conf, m);
      var ev := if m.config > 0 then RecvConfNak((m.serial - 1) % 256) else Timeout;
      [ev] + Stonewall(conf, Step(conf, m, ev).m)
  }

  lemma StonewallStep(conf: Conf, m: Machine)
    requires Sound(conf, m) && m.state == ReqSent && RequestsLeft(conf, m) > 0
    ensures var ev := if m.config > 0 then RecvConfNak((m.serial - 1) % 256) else Timeout;
            var o := Step(conf, m, ev);
            && Sound(conf, o.m) && o.m.state == ReqSent && o.acts.scr == 1
            && RequestsLeft(conf, o.m) == RequestsLeft(conf, m) - 1
  {
  }

  /** The bound on requests is attained. */
  lemma {:induction false} BoundIsAttained(conf: Conf, m: Machine)
    requires Sound(conf, m) && m.state == ReqSent
    ensures StaysBargaining(conf, m, Stonewall(conf, m))
    ensures Requests(conf, m, Stonewall(conf, m)) == RequestsLeft(conf, m)
    decreases RequestsLeft(conf, m)
  {
    RequestsLeftBounded(conf, m);
    if RequestsLeft(conf, m) > 0 {
      hide Step, Sound;
      StonewallStep(conf, m);
      var ev := if m.config > 0 then RecvConfNak((m.serial - 1) % 256) else Timeout;
      BoundIsAttained(conf, Step(conf, m, ev).m);
      assert Stonewall(conf, m)[0] == ev
          && Stonewall(conf, m)[1..] == Stonewall(conf, Step(conf, m, ev).m);
    }
  }

  function Timeouts(n: nat): seq<Event> { seq(n, _ => Timeout) }

  /** The machine after further events. */
  function From(conf: Conf, m: Machine, evs: seq<Event>): Machine
    decreases evs
  {
    if evs == [] then m else From(conf, Step(conf, m, evs[0]).m, evs[1..])
  }

  lemma TimeoutTicks(conf: Conf, m: Machine)
    requires Sound(conf, m) && m.timer
    ensures m.restart >= 0
    ensures var m' := Step(conf, m, Timeout).m;
            if m.restart > 0 then m'.timer && m'.restart == m.restart - 1
            else m'.state == Closed || m'.state == Stopped
  {
  }

  /** Left alone with a running timer, the automaton gives up after `restart` + 1 timeouts. */
  lemma {:induction false} TimeoutsGiveUp(conf: Conf, m: Machine)
    requires Sound(conf, m) && m.timer
    ensures m.restart >= 0
    ensures var m' := From(conf, m, Timeouts(m.restart + 1));
            m'.state == Closed || m'.state == Stopped
    ensures forall n | 0 <= n <= m.restart :: From(conf, m, Timeouts(n)).timer
    decreases m.restart
  {
    hide Step, Sound;
    TimeoutTicks(conf, m);
    StepSound(conf, m, Timeout);
    var m' := Step(conf, m, Timeout).m;
    forall n: nat ensures From(conf, m, Timeouts(n + 1)) == From(conf, m', Timeouts(n)) {
      assert Timeouts(n + 1)[1..] == Timeouts(n);
    }
    if m.restart > 0 {
      TimeoutsGiveUp(conf, m');
      forall n | 0 <= n <= m.restart ensures From(conf, m, Timeouts(n)).timer {
        if n > 0 { assert From(conf, m, Timeouts(n - 1 + 1)) == From(conf, m', Timeouts(n - 1)); }
      }
      assert From(conf, m, Timeouts(m.restart + 1)) == From(conf, m', Timeouts(m.restart));
    } else {
      assert From(conf, m, Timeouts(0 + 1)) == From(conf, m', Timeouts(0));
    }
  }
}

/** What becomes of the counters: every field of the automaton after an event, told from the actions
    the event performs, and what that means for shutting down. */
module FsmCounters {
  import opened FsmModel
  import opened Rfc1661
  import opened FsmLayers
  import opened FsmBounds

  /** Sent Terminate-Requests count against Max-Terminate from the moment the counter is set, Configure-
      Requests against Max-Configure; a Terminate-Request received in Opened leaves no retries at all. */
  function RestartLeft(conf: Conf, was: int, acts: Tally): int {
    if acts.zrc > 0 then 0
    else if acts.irc > 0 && acts.str > 0 then conf.maxTerminate - 1
    else if acts.irc > 0 then conf.maxConfig - acts.scr
    else was - acts.scr - acts.str
  }

  /** The event starts a negotiation or confirms our half of it; a Nak only renews the retries. */
  predicate Renews(ev: Event, acts: Tally) {
    acts.irc > 0 && acts.str == 0 && !ev.RecvConfNak? && !ev.RecvConfRej?
  }

  function BudgetLeft(renewed: bool, max: int, was: int, spent: int): int {
    (if renewed then max else was) - spent
  }

  /** All counters, from the counters before and the actions performed. */
  predicate Counts(conf: Conf, m: Machine, ev: Event) {
    var o := Step(conf, m, ev);
    && o.m.restart == RestartLeft(conf, m.restart, o.acts)
    && o.m.config == BudgetLeft(Renews(ev, o.acts), conf.maxConfig, m.config, o.acts.scr)
    && o.m.failure == BudgetLeft(Renews(ev, o.acts), conf.maxFailure, m.failure, o.acts.scn)
    && o.m.serial == m.serial + o.acts.scr + o.acts.str + o.acts.sta + (if ev.ResetRequest? then 1 else 0)
  }

  lemma StepCounts(conf: Conf, m: Machine, ev: Event)
    ensures Counts(conf, m, ev)
  {
    hide Counts;
    if ev.RecvConfReq? {
      ConfReqCounts(conf, m, ev);
    } else if ev.RecvConfAck? || ev.RecvConfNak? || ev.RecvConfRej? {
      AnswerCounts(conf, m, ev);
    } else if ev.Open? || ev.Up? || ev.Down? || ev.Close? {
      AdminCounts(conf, m, ev);
    } else if ev.Timeout? {
      TimeoutCounts(conf, m);
    } else if ev.RecvTermReq? || ev.RecvTermAck? {
      TerminateCounts(conf, m, ev);
    } else {
      OtherCounts(conf, m, ev);
    }
  }

  /** Failing spends a Terminate-Request in Opened and nothing elsewhere. */
  lemma FailCounts(conf: Conf, o: Outcome)
    ensures var f := o.Fail(conf);
      && f.m.config == o.m.config && f.m.failure == o.m.failure
      && f.acts.scr == o.acts.scr && f.acts.scn == o.acts.scn && f.acts.sta == o.acts.sta && f.acts.zrc == o.acts.zrc
      && (o.m.state == Opened ==>
            && f.m.restart == conf.maxTerminate - 1 && f.m.serial == o.m.serial + 1
            && f.acts.irc == o.acts.irc + 1 && f.acts.str == o.acts.str + 1)
      && (o.m.state != Opened ==>
            && f.m.restart == o.m.restart && f.m.serial == o.m.serial
            && f.acts.irc == o.acts.irc && f.acts.str == o.acts.str)
  {
  }

  lemma ConfReqCounts(conf: Conf, m: Machine, ev: Event)
    requires ev.RecvConfReq?
    ensures Counts(conf, m, ev)
  {
    hide Outcome.Fail;
    FailCounts(conf, Start(m));
    FailCounts(conf, Start(m).Down().Request());
    FailCounts(conf, Start(m).Configured().Started().Counters(conf).Request());
  }

  lemma AnswerCounts(conf: Conf, m: Machine, ev: Event)
    requires ev.RecvConfAck? || ev.RecvConfNak? || ev.RecvConfRej?
    ensures Counts(conf, m, ev)
  {
    hide Outcome.Fail;
    FailCounts(conf, Start(m));
  }

  lemma AdminCounts(conf: Conf, m: Machine, ev: Event)
    requires ev.Open? || ev.Up? || ev.Down? || ev.Close?
    ensures Counts(conf, m, ev)
  {
    hide Counts;
    if ev.Close? {
      CloseCounts(conf, m);
    } else {
      BeginCounts(conf, m, ev);
    }
  }

  lemma CloseCounts(conf: Conf, m: Machine)
    ensures Counts(conf, m, Close)
  {
  }

  lemma BeginCounts(conf: Conf, m: Machine, ev: Event)
    requires ev.Open? || ev.Up? || ev.Down?
    ensures Counts(conf, m, ev)
  {
  }

  lemma TimeoutCounts(conf: Conf, m: Machine)
    ensures Counts(conf, m, Timeout)
  {
    hide Outcome.Fail;
    FailCounts(conf, Start(m).Timer(false));
  }

  lemma TerminateCounts(conf: Conf, m: Machine, ev: Event)
    requires ev.RecvTermReq? || ev.RecvTermAck?
    ensures Counts(conf, m, ev)
  {
  }

  lemma OtherCounts(conf: Conf, m: Machine, ev: Event)
    requires ev.RecvCodeRej? || ev.RecvProtoRej? || ev.RecvUnknownCode? || ev.RecvEchoReq? || ev.RecvOther?
      || ev.Failure? || ev.ResetRequest?
    ensures Counts(conf, m, ev)
  {
    hide Outcome.Fail;
    FailCounts(conf, Start(m));
  }

  // ---- Shutting down ----

  predicate Dying(s: State) { s == Closing || s == Stopping }

  predicate StaysDying(conf: Conf, m: Machine, evs: seq<Event>)
    decreases evs
  {
    Dying(m.state) && (evs != [] ==> StaysDying(conf, Step(conf, m, evs[0]).m, evs[1..]))
  }

  /** Terminate-Requests sent by a run. */
  function TermRequests(conf: Conf, m: Machine, evs: seq<Event>): int
    decreases evs
  {
    if evs == [] then 0
    else Step(conf, m, evs[0]).acts.str + TermRequests(conf, Step(conf, m, evs[0]).m, evs[1..])
  }

  /** The peer's Terminate-Request leaves Opened without a retry: the next timeout stops the automaton. */
  lemma PeerLeaves(conf: Conf, m: Machine)
    requires Sound(conf, m) && m.state == Opened
    ensures var o := Step(conf, m, RecvTermReq); var t := Step(conf, o.m, Timeout);
      && o.m.state == Stopping && o.m.restart == 0 && o.acts.sta == 1 && o.acts.str == 0
      && t.m.state == Stopped && t.acts == NONE.(tlf := 1)
  {
    hide Step, Sound;
    var o := Step(conf, m, RecvTermReq);
    SoundTimer(conf, m);
    StepFollows(conf, m, RecvTermReq);
    StepCounts(conf, m, RecvTermReq);
    StepFollows(conf, o.m, Timeout);
  }

  lemma SoundTimer(conf: Conf, m: Machine)
    requires Sound(conf, m)
    ensures TimerFits(m) && m.restart >= 0
  {
  }

  /** Whatever makes the automaton send a first Terminate-Request leaves it one retry fewer than
      Max-Terminate. */
  lemma FirstTermRequest(conf: Conf, m: Machine, ev: Event)
    requires Sound(conf, m) && !Dying(m.state) && Step(conf, m, ev).acts.str > 0
    ensures var o := Step(conf, m, ev);
      Dying(o.m.state) && o.acts.str == 1 && o.m.restart == conf.maxTerminate - 1
  {
    hide Step, Sound, Governing, Amended;
    SoundTimer(conf, m);
    StepFollows(conf, m, ev);
    StepCounts(conf, m, ev);
    TableTerminates(conf, m, ev);
  }

  /** The cells of the table that terminate. */
  lemma TableTerminates(conf: Conf, m: Machine, ev: Event)
    requires !Dying(m.state)
    ensures var cell := Governing(conf, m, ev); var acts := Amended(conf, m, ev, cell.acts);
      acts.str > 0 ==> Dying(cell.next) && acts.str == 1 && acts.irc == 1 && acts.zrc == 0
  {
  }

  /** On the way down every retry is paid for and none is granted. */
  lemma DyingStep(conf: Conf, m: Machine, ev: Event)
    requires Sound(conf, m) && Dying(m.state) && Dying(Step(conf, m, ev).m.state)
    ensures var o := Step(conf, m, ev); o.acts.str >= 0 && o.m.restart == m.restart - o.acts.str
  {
    hide Step, Sound;
    SoundTimer(conf, m);
    StepFollows(conf, m, ev);
    StepCounts(conf, m, ev);
  }

  lemma {:induction false} RetriesBounded(conf: Conf, m: Machine, evs: seq<Event>)
    requires Sound(conf, m) && StaysDying(conf, m, evs)
    ensures TermRequests(conf, m, evs) <= m.restart
    decreases evs
  {
    hide Step, Sound;
    SoundTimer(conf, m);
    if evs != [] {
      var m' := Step(conf, m, evs[0]).m;
      assert Dying(m'.state);
      DyingStep(conf, m, evs[0]);
      StepSound(conf, m, evs[0]);
      RetriesBounded(conf, m', evs[1..]);
    }
  }

  lemma {:induction false} RetriesAttained(conf: Conf, m: Machine, n: nat)
    requires Sound(conf, m) && Dying(m.state) && n == m.restart
    ensures StaysDying(conf, m, Timeouts(n)) && TermRequests(conf, m, Timeouts(n)) == n
    ensures var last := Step(conf, From(conf, m, Timeouts(n)), Timeout);
      (last.m.state == Closed || last.m.state == Stopped) && last.acts == NONE.(tlf := 1)
    decreases n
  {
    hide Step, Sound;
    SoundTimer(conf, m);
    StepFollows(conf, m, Timeout);
    StepCounts(conf, m, Timeout);
    if n > 0 {
      StepSound(conf, m, Timeout);
      assert Timeouts(n)[0] == Timeout && Timeouts(n)[1..] == Timeouts(n - 1);
      RetriesAttained(conf, Step(conf, m, Timeout).m, n - 1);
    }
  }

  /** A Close, a failure or a spent budget that sends a first Terminate-Request is followed by at most
      Max-Terminate - 1 more, whatever happens in Closing and Stopping; a silent peer gets exactly
      that many before the automaton gives up. */
  lemma TerminationIsBounded(conf: Conf, m: Machine, ev: Event, evs: seq<Event>)
    requires Sound(conf, m) && !Dying(m.state) && Step(conf, m, ev).acts.str > 0
    ensures var m' := Step(conf, m, ev).m;
      && (StaysDying(conf, m', evs) ==> TermRequests(conf, m', evs) <= conf.maxTerminate - 1)
      && StaysDying(conf, m', Timeouts(conf.maxTerminate - 1))
      && TermRequests(conf, m', Timeouts(conf.maxTerminate - 1)) == conf.maxTerminate - 1
      && !Dying(Step(conf, From(conf, m', Timeouts(conf.maxTerminate - 1)), Timeout).m.state)
  {
    hide Step, Sound, StaysDying, TermRequests, Timeouts;
    var m' := Step(conf, m, ev).m;
    FirstTermRequest(conf, m, ev);
    StepSound(conf, m, ev);
    RetriesAttained(conf, m', conf.maxTerminate - 1);
    if StaysDying(conf, m', evs) {
      RetriesBounded(conf, m', evs);
    }
  }

  /** What a run has sent, from the start: every first Terminate-Request is such a one. */
  lemma FromTheStart(conf: Conf, before: seq<Event>, ev: Event, evs: seq<Event>)
    requires var m := After(conf, before); !Dying(m.state) && Step(conf, m, ev).acts.str > 0
    ensures var m' := After(conf, before + [ev]);
      StaysDying(conf, m', evs) ==> TermRequests(conf, m', evs) <= conf.maxTerminate - 1
  {
    hide Step, Sound, StaysDying, TermRequests, Timeouts;
    RunSound(conf, before);
    AfterSnoc(conf, before, ev);
    TerminationIsBounded(conf, After(conf, before), ev, evs);
  }

  // ---- Replies ----

  /** An echo request with the right magic number is replied to in Opened, under its own identifier. */
  lemma EchoReplies(conf: Conf, m: Machine, id: Byte)
    ensures Step(conf, m, RecvEchoReq(id, false)).trace ==
      if m.state == Opened then Then(Nothing, SendEchoRep(id)) else Nothing
  {
  }

  /** Nothing else is. */
  lemma NoOtherReplies(conf: Conf, m: Machine, ev: Event)
    requires TimerFits(m)
    ensures Step(conf, m, ev).acts.ser == if ev.RecvEchoReq? && !ev.badMagic && m.state == Opened then 1 else 0
  {
    hide Step;
    StepFollows(conf, m, ev);
  }
}

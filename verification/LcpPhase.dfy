/** The phase machine that LCP keeps on top of its automaton. */
module LcpPhase {
  import opened FsmModel
  import opened FsmWire
  import opened FsmLayers

  datatype Phase = Dead | Establish | Authenticate | Network | Terminate

  /** The phase, whether authentication is running, whether the link has joined its bundle, and
      whether every assertion passed so far. */
  datatype Link = Link(phase: Phase, auth: bool, joined: bool, sane: bool)

  const DOWN := Link(Dead, false, false, true)

  /** The assertion guarding a change of phase. */
  predicate MayShift(was: Phase, now: Phase) {
    match was
    case Dead => now == Establish
    case Establish => now == Dead || now == Terminate || now == Authenticate
    case Authenticate => now == Terminate || now == Establish || now == Network || now == Dead
    case Network => now == Terminate || now == Establish || now == Dead
    case Terminate => now == Establish || now == Dead
  }

  /** Entering Authenticate starts authentication; leaving it other than for Network, and leaving
      Network, ends it; leaving Network leaves the bundle.  `joins` says whether the bundle takes
      the link on entering Network. */
  function Shifted(l: Link, now: Phase, joins: bool): Link {
    var sane := l.sane && MayShift(l.phase, now);
    var ends := (l.phase == Authenticate && now != Network) || l.phase == Network;
    Link(now,
         (l.auth && !ends) || now == Authenticate,
         if now == Network then joins else l.joined && l.phase != Network,
         sane)
  }

  datatype Change = Keep | To(phase: Phase) | Abort

  /** Which phase a change of the automaton's state calls for; Abort is a failing assertion. */
  function PhaseFor(was: State, now: State): Change {
    match was
    case Initial | Starting =>
      if now == Initial || now == Starting then Keep else To(Establish)
    case Closed | Stopped =>
      if now == Initial || now == Starting then To(Dead) else Keep
    case Closing | Stopping =>
      if now == Initial || now == Starting then To(Dead)
      else if now == Closed || now == Stopped then To(Establish)
      else Keep
    case ReqSent | AckRcvd | AckSent =>
      if now == Initial || now == Starting then To(Dead)
      else if now == Closing || now == Stopping then To(Terminate)
      else if now == Opened then To(Authenticate)
      else Keep
    case Opened =>
      if now == Starting then To(Dead)
      else if now == ReqSent || now == AckSent then To(Establish)
      else if now == Closing || now == Stopping then To(Terminate)
      else Abort
  }

  function ChangeState(l: Link, was: State, now: State): Link {
    match PhaseFor(was, now)
    case Keep => l
    case To(phase) => Shifted(l, phase, false)
    case Abort => l.(sane := false)
  }

  function NewStates(l: Link, was: State, shifts: seq<State>): Link
    decreases shifts
  {
    if shifts == [] then l else NewStates(ChangeState(l, was, shifts[0]), shifts[0], shifts[1..])
  }

  /** What LCP can be faced with: an event of its automaton, or the outcome of authentication. */
  datatype Input = Fsm(ev: Event) | AuthResult(success: bool, joins: bool)

  datatype Lcp = Lcp(m: Machine, link: Link)

  const INITIAL := Lcp(INIT, DOWN)

  function OnEvent(conf: Conf, s: Lcp, ev: Event): Lcp {
    var o := Step(conf, s.m, ev);
    Lcp(o.m, NewStates(s.link, s.m.state, Shifts(o.trace)))
  }

  /** A failed authentication, or a bundle that refuses the link, shuts the automaton down. */
  function OnAuth(conf: Conf, s: Lcp, success: bool, joins: bool): Lcp {
    if !success then OnEvent(conf, s, Failure)
    else if s.link.phase == Network then s
    else
      var s' := s.(link := Shifted(s.link, Network, joins));
      if joins then s' else OnEvent(conf, s', Failure)
  }

  function React(conf: Conf, s: Lcp, i: Input): Lcp {
    match i
    case Fsm(ev) => OnEvent(conf, s, ev)
    case AuthResult(success, joins) => OnAuth(conf, s, success, joins)
  }

  /** Authentication reports only while it runs. */
  function After(conf: Conf, inputs: seq<Input>): Lcp {
    if inputs == [] then INITIAL
    else
      var s := After(conf, inputs[..|inputs| - 1]);
      var i := inputs[|inputs| - 1];
      if i.AuthResult? && !s.link.auth then s else React(conf, s, i)
  }

  /** The phase is a function of the automaton's state, up to the choice inside Opened. */
  predicate Tracks(state: State, phase: Phase) {
    && (phase == Dead <==> state == Initial || state == Starting)
    && (phase == Terminate <==> state == Closing || state == Stopping)
    && (phase == Authenticate || phase == Network <==> state == Opened)
  }

  predicate InPhase(state: State, l: Link) {
    AtLeast(state, l) && (l.joined <==> l.phase == Network)
  }

  /** The same while a link the bundle has refused is being shut down. */
  predicate AtLeast(state: State, l: Link) {
    && l.sane
    && Tracks(state, l.phase)
    && (l.auth <==> l.phase == Authenticate || l.phase == Network)
    && (l.joined ==> l.phase == Network)
  }

  /** The changes of state an event can make. */
  predicate Legal(was: State, now: State) {
    && (was == Opened ==> now != Initial && now != Closed && now != Stopped && now != AckRcvd)
    && (was == Initial || was == Starting || was == Closed || was == Stopped ==>
          now != Closing && now != Stopping && now != Opened)
    && (was == Closing || was == Stopping ==>
          !WantsLower(now) || now == Starting || now == Closing || now == Stopping)
  }

  lemma StepLegal(conf: Conf, m: Machine, ev: Event)
    ensures Legal(m.state, Step(conf, m, ev).m.state)
  {
    hide Step, Legal;
    if ev.RecvConfReq? {
      ConfReqLegal(conf, m, ev);
    } else if ev.RecvConfAck? || ev.RecvConfNak? || ev.RecvConfRej? {
      AnswerLegal(conf, m, ev);
    } else if ev.Open? || ev.Up? || ev.Down? || ev.Close? || ev.Timeout? {
      AdminLegal(conf, m, ev);
    } else {
      OtherLegal(conf, m, ev);
    }
  }

  lemma ConfReqLegal(conf: Conf, m: Machine, ev: Event)
    requires ev.RecvConfReq?
    ensures Legal(m.state, Step(conf, m, ev).m.state)
  {}

  lemma AnswerLegal(conf: Conf, m: Machine, ev: Event)
    requires ev.RecvConfAck? || ev.RecvConfNak? || ev.RecvConfRej?
    ensures Legal(m.state, Step(conf, m, ev).m.state)
  {}

  lemma AdminLegal(conf: Conf, m: Machine, ev: Event)
    requires ev.Open? || ev.Up? || ev.Down? || ev.Close? || ev.Timeout?
    ensures Legal(m.state, Step(conf, m, ev).m.state)
  {}

  lemma OtherLegal(conf: Conf, m: Machine, ev: Event)
    requires !(ev.RecvConfReq? || ev.RecvConfAck? || ev.RecvConfNak? || ev.RecvConfRej?)
    requires !(ev.Open? || ev.Up? || ev.Down? || ev.Close? || ev.Timeout?)
    ensures Legal(m.state, Step(conf, m, ev).m.state)
  {}

  lemma ChangeKeepsPhase(l: Link, was: State, now: State)
    requires AtLeast(was, l) && Legal(was, now) && was != now
    ensures AtLeast(now, ChangeState(l, was, now))
    ensures InPhase(was, l) || was == Opened ==> InPhase(now, ChangeState(l, was, now))
  {
  }

  lemma EventKeepsPhase(conf: Conf, s: Lcp, ev: Event)
    requires AtLeast(s.m.state, s.link)
    ensures var s' := OnEvent(conf, s, ev);
      && (InPhase(s.m.state, s.link) ==> InPhase(s'.m.state, s'.link))
      && (s.m.state == Opened && s'.m.state != Opened ==> InPhase(s'.m.state, s'.link))
  {
    hide Step, Legal, InPhase, AtLeast, ChangeState;
    var o := Step(conf, s.m, ev);
    StepWired(conf, s.m, ev);
    StepLegal(conf, s.m, ev);
    if o.m.state != s.m.state {
      ChangeKeepsPhase(s.link, s.m.state, o.m.state);
      var l := ChangeState(s.link, s.m.state, o.m.state);
      assert Shifts(o.trace) == [o.m.state];
      assert NewStates(l, o.m.state, Shifts(o.trace)[1..]) == l;
    } else {
      assert Shifts(o.trace) == [];
    }
  }

  lemma AuthKeepsPhase(conf: Conf, s: Lcp, success: bool, joins: bool)
    requires InPhase(s.m.state, s.link) && s.link.auth
    ensures var s' := OnAuth(conf, s, success, joins); InPhase(s'.m.state, s'.link)
  {
    hide OnEvent, Step;
    if !success {
      EventKeepsPhase(conf, s, Failure);
    } else if s.link.phase != Network && !joins {
      EventKeepsPhase(conf, s.(link := Shifted(s.link, Network, joins)), Failure);
      FailureLeaves(conf, s.(link := Shifted(s.link, Network, joins)));
    }
  }

  /** Network begins when a running authentication succeeds and the bundle takes the link, and lasts just
      until the automaton leaves Opened. */
  lemma NetworkExactly(conf: Conf, s: Lcp, ev: Event, success: bool, joins: bool)
    requires InPhase(s.m.state, s.link)
    ensures OnEvent(conf, s, ev).link.phase == Network
      <==> s.link.phase == Network && OnEvent(conf, s, ev).m.state == Opened
    ensures s.link.auth ==>
      (OnAuth(conf, s, success, joins).link.phase == Network <==> success && (joins || s.link.phase == Network))
  {
    hide Step;
    EventLeavesNetwork(conf, s, ev);
    if s.link.auth {
      AuthKeepsPhase(conf, s, success, joins);
      FailureLeaves(conf, s);
      EventKeepsPhase(conf, s, Failure);
      if success && !joins && s.link.phase != Network {
        var s' := s.(link := Shifted(s.link, Network, joins));
        FailureLeaves(conf, s');
        EventKeepsPhase(conf, s', Failure);
      }
    }
  }

  lemma EventLeavesNetwork(conf: Conf, s: Lcp, ev: Event)
    requires InPhase(s.m.state, s.link)
    ensures OnEvent(conf, s, ev).link.phase == Network
      <==> s.link.phase == Network && OnEvent(conf, s, ev).m.state == Opened
  {
    hide Step, Legal;
    var o := Step(conf, s.m, ev);
    StepWired(conf, s.m, ev);
    StepLegal(conf, s.m, ev);
    EventKeepsPhase(conf, s, ev);
    if o.m.state != s.m.state {
      var l := ChangeState(s.link, s.m.state, o.m.state);
      assert NewStates(l, o.m.state, Shifts(o.trace)[1..]) == l;
      NoShiftToNetwork(s.link, s.m.state, o.m.state);
    }
  }

  lemma NoShiftToNetwork(l: Link, was: State, now: State)
    requires InPhase(was, l) && was != now && Legal(was, now)
    ensures ChangeState(l, was, now).phase != Network
  {
  }

  lemma FailureLeaves(conf: Conf, s: Lcp)
    requires s.m.state == Opened
    ensures OnEvent(conf, s, Failure).m.state == Stopping
  {
  }

  /** In every reachable state no assertion of the phase machine has failed, the phase is the one
      the automaton's state calls for, authentication runs exactly in Authenticate and Network, and
      the link is in its bundle exactly in Network. */
  lemma {:induction false} PhaseTracksState(conf: Conf, inputs: seq<Input>)
    ensures InPhase(After(conf, inputs).m.state, After(conf, inputs).link)
  {
    if inputs != [] {
      hide InPhase, OnEvent, OnAuth;
      var prefix, i := inputs[..|inputs| - 1], inputs[|inputs| - 1];
      PhaseTracksState(conf, prefix);
      var s := After(conf, prefix);
      match i
      case Fsm(ev) => EventKeepsPhase(conf, s, ev);
      case AuthResult(success, joins) =>
        if s.link.auth { AuthKeepsPhase(conf, s, success, joins); }
    } else {
      assert InPhase(Initial, DOWN);
    }
  }

  /** Reporting success outside Authenticate and Network trips an assertion, so it is exactly the
      report's being bound to a running authentication that keeps the machine sane. */
  lemma LateSuccessAborts(conf: Conf, s: Lcp, joins: bool)
    requires InPhase(s.m.state, s.link) && joins
    ensures OnAuth(conf, s, true, joins).link.sane <==> s.link.auth
  {
  }

  /** The fields, and the callbacks that assign them. */
  class LcpState {
    var phase: Phase
    var auth: bool
    var joined: bool

    ghost function Abs(): Link
      reads this
    {
      Link(phase, auth, joined, true)
    }

    constructor ()
      ensures Abs() == DOWN
    {
      phase, auth, joined := Dead, false, false;
    }

    method NewPhase(now: Phase, joins: bool)
      requires MayShift(phase, now)
      modifies this
      ensures Abs() == Shifted(old(Abs()), now, joins)
    {
      var was := phase;
      phase := now;
      match was {
        case Authenticate =>
          if now != Network {
            auth := false;
          }
        case Network =>
          if joined {
            joined := false;
          }
          auth := false;
        case _ =>
      }
      match now {
        case Authenticate =>
          auth := true;
        case Network =>
          joined := joins;
        case _ =>
      }
    }

    method NewStateCallback(was: State, now: State)
      requires InPhase(was, Abs()) && Legal(was, now) && was != now
      modifies this
      ensures Abs() == ChangeState(old(Abs()), was, now)
      ensures InPhase(now, Abs())
    {
      ChangeKeepsPhase(Abs(), was, now);
      match was {
        case Initial | Starting =>
          if now != Initial && now != Starting {
            NewPhase(Establish, false);
          }
        case Closed | Stopped =>
          if now == Initial || now == Starting {
            NewPhase(Dead, false);
          }
        case Closing | Stopping =>
          if now == Initial || now == Starting {
            NewPhase(Dead, false);
          } else if now == Closed || now == Stopped {
            NewPhase(Establish, false);
          }
        case ReqSent | AckRcvd | AckSent =>
          if now == Initial || now == Starting {
            NewPhase(Dead, false);
          } else if now == Closing || now == Stopping {
            NewPhase(Terminate, false);
          } else if now == Opened {
            NewPhase(Authenticate, false);
          }
        case Opened =>
          if now == Starting {
            NewPhase(Dead, false);
          } else if now == ReqSent || now == AckSent {
            NewPhase(Establish, false);
          } else {
            NewPhase(Terminate, false);
          }
      }
    }
  }
}

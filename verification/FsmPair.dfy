/** Two automata negotiating over a pair of first-in first-out channels that may lose packets. */
module FsmPair {
  import opened FsmModel
  import opened FsmWire

  datatype Option<+T> = None | Some(value: T)

  type Options = seq<Byte>

  /** A packet in flight.  `serial` is the identifier without its wrap-around: the number the
      request was sent under, or the number of the request that is answered. */
  datatype Packet =
    | Request(serial: nat, options: Options)
    | Reply(serial: nat, verdict: Verdict)
    | Terminate
    | TerminateAck

  /** An automaton and what it remembers of the exchange. */
  datatype Side = Side(
    m: Machine,
    asked: nat,                   // number of its last Configure-Request, 0 if none
    askedOptions: Options,        // what that request contained
    heard: nat,                   // number of the last Configure-Request it received, 0 if none
    heardOptions: Options,        // what that request contained
    said: Option<Verdict>)        // how it answered that request

  datatype Sys = Sys(a: Side, b: Side, ab: seq<Packet>, ba: seq<Packet>)

  const FRESH := Side(INIT, 0, [], 0, [], None)
  const START := Sys(FRESH, FRESH, [], [])

  function Swap(s: Sys): Sys { Sys(s.b, s.a, s.ba, s.ab) }

  /** The packets for one operation; replies go to the request numbered `n`. */
  function OnWire(op: Op, options: Options, n: nat): seq<Packet> {
    match op
    case SendConfReq(serial) => [Request(serial, options)]
    case SendConfAck(_) => [Reply(n, Ack)]
    case SendConfNak(_) => [Reply(n, Nak)]
    case SendConfRej(_) => [Reply(n, Rej)]
    case SendTermReq(_) => [Terminate]
    case SendTermAck(_) => [TerminateAck]
    case _ => []
  }

  function Packets(ops: seq<Op>, options: Options, n: nat): seq<Packet> {
    if ops == [] then [] else OnWire(ops[0], options, n) + Packets(ops[1..], options, n)
  }

  function Replied(acts: Tally, verdict: Verdict): Option<Verdict> {
    if acts.sca > 0 || acts.scn > 0 then Some(verdict) else None
  }

  /** One side handles an event; `options` is what it would request now. */
  function Handle(conf: Conf, x: Side, ev: Event, options: Options): Side {
    var o := Step(conf, x.m, ev);
    if o.acts.scr > 0 then x.(m := o.m, asked := x.m.serial, askedOptions := options)
    else x.(m := o.m)
  }

  /** One side receives a Configure-Request. */
  function Hear(conf: Conf, x: Side, p: Packet, verdict: Verdict, options: Options): Side
    requires p.Request?
  {
    var ev := RecvConfReq(p.serial % 256, verdict);
    Handle(conf, x, ev, options)
      .(heard := p.serial, heardOptions := p.options,
        said := Replied(Step(conf, x.m, ev).acts, verdict))
  }

  /** The event a delivered packet causes, other than a Configure-Request. */
  function EventOf(p: Packet): Event
    requires !p.Request?
  {
    match p
    case Reply(n, Ack) => RecvConfAck(n % 256)
    case Reply(n, Nak) => RecvConfNak(n % 256)
    case Reply(n, Rej) => RecvConfRej(n % 256)
    case Terminate => RecvTermReq
    case TerminateAck => RecvTermAck
  }

  function Output(conf: Conf, x: Side, ev: Event, options: Options, n: nat): seq<Packet> {
    Packets(Sent(Step(conf, x.m, ev).trace), options, n)
  }

  /** Events that do not come from the peer's negotiation packets. */
  predicate Spontaneous(ev: Event) {
    !(ev.RecvConfReq? || ev.RecvConfAck? || ev.RecvConfNak? || ev.RecvConfRej?)
  }

  datatype Move =
    | Act(ev: Event, options: Options)              // an event at a
    | Deliver(verdict: Verdict, options: Options)   // a takes the packet at the head of ba
    | Lose(k: nat)                                  // a packet of ba is lost

  /** A move of side a or of the channel towards it. */
  predicate Enabled(s: Sys, mv: Move) {
    match mv
    case Act(ev, _) => Spontaneous(ev)
    case Deliver(_, _) => s.ba != []
    case Lose(k) => k < |s.ba|
  }

  function Moved(conf: Conf, s: Sys, mv: Move): Sys
    requires Enabled(s, mv)
  {
    match mv
    case Act(ev, options) =>
      s.(a := Handle(conf, s.a, ev, options), ab := s.ab + Output(conf, s.a, ev, options, 0))
    case Deliver(verdict, options) =>
      var p := s.ba[0];
      if p.Request? then
        s.(a := Hear(conf, s.a, p, verdict, options),
           ab := s.ab + Output(conf, s.a, RecvConfReq(p.serial % 256, verdict), options, p.serial),
           ba := s.ba[1..])
      else
        s.(a := Handle(conf, s.a, EventOf(p), options),
           ab := s.ab + Output(conf, s.a, EventOf(p), options, 0),
           ba := s.ba[1..])
    case Lose(k) => s.(ba := s.ba[..k] + s.ba[k + 1..])
  }

  /** A step of the pair: either side, or the channel towards it, moves. */
  datatype Turn = Turn(atA: bool, move: Move)

  predicate CanTake(s: Sys, t: Turn) { Enabled(if t.atA then s else Swap(s), t.move) }

  function Take(confA: Conf, confB: Conf, s: Sys, t: Turn): Sys
    requires CanTake(s, t)
  {
    if t.atA then Moved(confA, s, t.move) else Swap(Moved(confB, Swap(s), t.move))
  }

  /** A Configure-Ack that is about to be accepted, its 8-bit identifier being that of the last
      request, is an answer to that request. */
  predicate Timely(s: Sys, mv: Move) {
    mv.Deliver? && s.ba != [] && s.ba[0].Reply? && s.ba[0].verdict == Ack
    && (s.a.m.state == ReqSent || s.a.m.state == AckSent) && Expected(s.a.m, s.ba[0].serial % 256)
    ==> s.ba[0].serial == s.a.m.serial - 1
  }

  predicate TimelyTurn(s: Sys, t: Turn) { Timely(if t.atA then s else Swap(s), t.move) }

  // ---- The invariant, for x asking and y answering ----

  predicate Asking(x: Side, y: Side, xy: seq<Packet>) {
    && x.asked < x.m.serial
    && y.heard <= x.asked
    && (0 < y.heard == x.asked ==> y.heardOptions == x.askedOptions)
    && (forall i | 0 <= i < |xy| && xy[i].Request? :: y.heard < xy[i].serial <= x.asked)
    && (forall i | 0 <= i < |xy| && xy[i].Request? ::
          xy[i].serial == x.asked ==> xy[i].options == x.askedOptions)
    && (forall i, j | 0 <= i < j < |xy| && xy[i].Request? && xy[j].Request? ::
          xy[i].serial < xy[j].serial)
  }

  predicate Answering(y: Side, yx: seq<Packet>) {
    && (forall i | 0 <= i < |yx| && yx[i].Reply? :: 0 < yx[i].serial <= y.heard)
    && (forall i | 0 <= i < |yx| && yx[i].Reply? ::
          yx[i].serial == y.heard ==> y.said == Some(yx[i].verdict))
    && (forall i, j | 0 <= i < j < |yx| && yx[i].Reply? && yx[j].Reply? ::
          yx[i].serial < yx[j].serial)
  }

  predicate Quiet(ch: seq<Packet>) {
    forall i | 0 <= i < |ch| :: !ch[i].Reply?
  }

  /** A side that counts on an acknowledgement has it for its last request, which is also the last
      one its peer received; and no answer is on its way. */
  predicate Settled(x: Side, y: Side, yx: seq<Packet>) {
    Acknowledged(x.m.state) ==>
      && 0 < x.asked
      && y.heard == x.asked
      && y.said == Some(Ack)
      && Quiet(yx)
  }

  predicate Dialogue(x: Side, y: Side, xy: seq<Packet>, yx: seq<Packet>) {
    Asking(x, y, xy) && Answering(y, yx) && Settled(x, y, yx)
  }

  predicate Consistent(s: Sys) {
    Dialogue(s.a, s.b, s.ab, s.ba) && Dialogue(s.b, s.a, s.ba, s.ab)
  }

  // ---- Every move keeps the invariant ----

  /** What an event puts into the outgoing channel. */
  function Shape(x: Side, ev: Event, acts: Tally, options: Options, n: nat): seq<Packet> {
    var answered := ev.RecvConfReq? && (acts.sca > 0 || acts.scn > 0);
    if acts.scr > 0 then
      if answered then [Request(x.m.serial, options), Reply(n, ev.verdict)]
      else if acts.str > 0 then [Request(x.m.serial, options), Terminate]
      else [Request(x.m.serial, options)]
    else if answered then [Reply(n, ev.verdict)]
    else if acts.str > 0 then [Terminate]
    else if acts.sta > 0 then [TerminateAck]
    else []
  }

  lemma OutputShape(conf: Conf, x: Side, ev: Event, options: Options, n: nat)
    ensures Output(conf, x, ev, options, n) == Shape(x, ev, Step(conf, x.m, ev).acts, options, n)
  {
    hide Step;
    StepWired(conf, x.m, ev);
    PacketsOfWire(x, ev, Step(conf, x.m, ev).acts, options, n);
  }

  lemma PacketsOfWire(x: Side, ev: Event, acts: Tally, options: Options, n: nat)
    ensures Packets(Wire(x.m, ev, acts), options, n) == Shape(x, ev, acts, options, n)
  {
    var w := Wire(x.m, ev, acts);
    if |w| == 2 {
      assert Packets(w[1..], options, n) == OnWire(w[1], options, n);
    } else if |w| == 1 {
      assert w[1..] == [];
    }
  }

  /** x handles an event, possibly caused by the head of its incoming channel. */
  lemma AskerMoves(conf: Conf, x: Side, y: Side, xy: seq<Packet>, yx: seq<Packet>,
                   ev: Event, options: Options, n: nat, x': Side, yx': seq<Packet>)
    requires Dialogue(x, y, xy, yx)
    requires x' == Handle(conf, x, ev, options)
                   .(heard := x'.heard, heardOptions := x'.heardOptions, said := x'.said)
    requires yx' == yx || (yx != [] && yx' == yx[1..])
    requires ev.RecvConfAck? ==>
               && yx != [] && yx' == yx[1..]
               && yx[0].Reply? && yx[0].verdict == Ack && ev.id == yx[0].serial % 256
               && ((x.m.state == ReqSent || x.m.state == AckSent) && Expected(x.m, ev.id) ==>
                     yx[0].serial == x.m.serial - 1)
    ensures Dialogue(x', y, xy + Output(conf, x, ev, options, n), yx')
  {
    hide Step;
    var o := Step(conf, x.m, ev);
    var out := Output(conf, x, ev, options, n);
    OutputShape(conf, x, ev, options, n);
    StepDrawn(conf, x.m, ev);
    assert Asking(x', y, xy + out);
    assert Answering(y, yx');
    if Acknowledged(x'.m.state) && !Acknowledged(x.m.state) {
      var k := yx[0].serial;
      AckEnters(conf, x.m, ev);
      assert k <= y.heard <= x.asked <= x.m.serial - 1;
      assert forall i | 0 <= i < |yx'| :: yx'[i] == yx[i + 1];
    }
    assert Settled(x', y, yx');
  }

  lemma AckEnters(conf: Conf, m: Machine, ev: Event)
    requires ev.RecvConfAck? && Expected(m, ev.id) && !Acknowledged(m.state)
    ensures Acknowledged(Step(conf, m, ev).m.state) ==> m.state == ReqSent || m.state == AckSent
  {
  }

  /** An answer fewer than 257 identifiers old is timely. */
  lemma YoungAnswersAreTimely(s: Sys, mv: Move)
    requires Consistent(s)
    requires s.ba != [] && s.ba[0].Reply? ==> s.a.m.serial <= s.ba[0].serial + 256
    ensures Timely(s, mv)
  {
    if !Timely(s, mv) {
      var k := s.ba[0].serial;
      assert k <= s.b.heard <= s.a.asked <= s.a.m.serial - 1;
      SameNumber(k, s.a.m.serial - 1);
    }
  }

  lemma SameNumber(k: nat, n: nat)
    requires k <= n < k + 256 && k % 256 == n % 256
    ensures k == n
  {
  }

  /** y handles anything but a Configure-Request. */
  lemma AnswererMoves(conf: Conf, x: Side, y: Side, xy: seq<Packet>, yx: seq<Packet>,
                      ev: Event, options: Options, n: nat, xy': seq<Packet>)
    requires Dialogue(x, y, xy, yx) && !ev.RecvConfReq?
    requires xy' == xy || (xy != [] && xy' == xy[1..])
    ensures Dialogue(x, Handle(conf, y, ev, options), xy', yx + Output(conf, y, ev, options, n))
  {
    hide Step;
    OutputShape(conf, y, ev, options, n);
    var y' := Handle(conf, y, ev, options);
    assert Asking(x, y', xy');
    assert Answering(y', yx + Output(conf, y, ev, options, n));
  }

  /** y receives the Configure-Request at the head of its incoming channel. */
  lemma AnswererHears(conf: Conf, x: Side, y: Side, xy: seq<Packet>, yx: seq<Packet>,
                      verdict: Verdict, options: Options)
    requires Dialogue(x, y, xy, yx) && xy != [] && xy[0].Request?
    ensures var ev := RecvConfReq(xy[0].serial % 256, verdict);
            Dialogue(x, Hear(conf, y, xy[0], verdict, options), xy[1..],
                     yx + Output(conf, y, ev, options, xy[0].serial))
  {
    hide Step;
    var p := xy[0];
    var ev := RecvConfReq(p.serial % 256, verdict);
    OutputShape(conf, y, ev, options, p.serial);
    var y' := Hear(conf, y, p, verdict, options);
    var out := Output(conf, y, ev, options, p.serial);
    assert Asking(x, y', xy[1..]);
    assert Answering(y', yx + out);
    assert !Acknowledged(x.m.state);
  }

  function Without(ch: seq<Packet>, k: nat): seq<Packet>
    requires k < |ch|
  {
    ch[..k] + ch[k + 1..]
  }

  lemma LossKeepsDialogue(x: Side, y: Side, xy: seq<Packet>, yx: seq<Packet>, k: nat)
    requires Dialogue(x, y, xy, yx)
    ensures k < |yx| ==> Dialogue(x, y, xy, Without(yx, k))
    ensures k < |xy| ==> Dialogue(x, y, Without(xy, k), yx)
  {
  }

  lemma MoveKeepsConsistent(conf: Conf, s: Sys, mv: Move)
    requires Consistent(s) && Timely(s, mv) && Enabled(s, mv)
    ensures Consistent(Moved(conf, s, mv))
  {
    hide Step, Dialogue, Output;
    match mv
    case Act(ev, options) =>
      AskerMoves(conf, s.a, s.b, s.ab, s.ba, ev, options, 0, Handle(conf, s.a, ev, options), s.ba);
      AnswererMoves(conf, s.b, s.a, s.ba, s.ab, ev, options, 0, s.ba);
    case Deliver(verdict, options) =>
      var p := s.ba[0];
      if p.Request? {
        var ev := RecvConfReq(p.serial % 256, verdict);
        AskerMoves(conf, s.a, s.b, s.ab, s.ba, ev, options, p.serial,
                   Hear(conf, s.a, p, verdict, options), s.ba[1..]);
        AnswererHears(conf, s.b, s.a, s.ba, s.ab, verdict, options);
      } else {
        AskerMoves(conf, s.a, s.b, s.ab, s.ba, EventOf(p), options, 0,
                   Handle(conf, s.a, EventOf(p), options), s.ba[1..]);
        AnswererMoves(conf, s.b, s.a, s.ba, s.ab, EventOf(p), options, 0, s.ba[1..]);
      }
    case Lose(k) =>
      LossKeepsDialogue(s.a, s.b, s.ab, s.ba, k);
      LossKeepsDialogue(s.b, s.a, s.ba, s.ab, k);
  }

  // ---- Runs ----

  /** A run of the pair from the start in which no stale Ack passes for an answer to a later request. */
  ghost predicate Run(confA: Conf, confB: Conf, states: seq<Sys>, turns: seq<Turn>) {
    && |states| == |turns| + 1
    && states[0] == START
    && (forall i | 0 <= i < |turns| ::
          && CanTake(states[i], turns[i])
          && TimelyTurn(states[i], turns[i])
          && states[i + 1] == Take(confA, confB, states[i], turns[i]))
  }

  lemma {:induction false} RunConsistent(confA: Conf, confB: Conf, states: seq<Sys>, turns: seq<Turn>, k: nat)
    requires Run(confA, confB, states, turns) && k < |states|
    ensures Consistent(states[k])
  {
    if k > 0 {
      hide Consistent, Moved, Timely, Enabled;
      RunConsistent(confA, confB, states, turns, k - 1);
      var s, t := states[k - 1], turns[k - 1];
      assert states[k] == Take(confA, confB, s, t);
      if t.atA {
        MoveKeepsConsistent(confA, s, t.move);
      } else {
        SwapKeeps(s);
        MoveKeepsConsistent(confB, Swap(s), t.move);
        SwapKeeps(Moved(confB, Swap(s), t.move));
      }
    }
  }

  lemma SwapKeeps(s: Sys)
    ensures Consistent(s) == Consistent(Swap(s))
  {
    hide Dialogue;
  }

  /** Whenever both sides are Opened, each one's last Configure-Request is the last one the other
      received, the other acknowledged it, both have the same options for it, and no request or
      answer is in flight: nothing but a new event or a Terminate packet can undo the agreement. */
  lemma Agreement(confA: Conf, confB: Conf, states: seq<Sys>, turns: seq<Turn>, k: nat)
    requires Run(confA, confB, states, turns) && k < |states|
    requires states[k].a.m.state == Opened && states[k].b.m.state == Opened
    ensures var s := states[k];
            && s.b.heard == s.a.asked > 0 && s.b.said == Some(Ack)
            && s.b.heardOptions == s.a.askedOptions
            && s.a.heard == s.b.asked > 0 && s.a.said == Some(Ack)
            && s.a.heardOptions == s.b.askedOptions
            && (forall p | p in s.ab + s.ba :: p.Terminate? || p.TerminateAck?)
  {
    RunConsistent(confA, confB, states, turns, k);
    var s := states[k];
    forall p | p in s.ab ensures p.Terminate? || p.TerminateAck? {
      var i :| 0 <= i < |s.ab| && s.ab[i] == p;
    }
    forall p | p in s.ba ensures p.Terminate? || p.TerminateAck? {
      var i :| 0 <= i < |s.ba| && s.ba[i] == p;
    }
  }

  /** One side alone: once it counts on its peer's acknowledgement, the peer gave it for this very
      request and has received no other since, whatever state the peer is in. */
  lemma OneSidedAgreement(confA: Conf, confB: Conf, states: seq<Sys>, turns: seq<Turn>, k: nat)
    requires Run(confA, confB, states, turns) && k < |states|
    requires Acknowledged(states[k].a.m.state)
    ensures var s := states[k];
            s.b.heard == s.a.asked > 0 && s.b.said == Some(Ack) && s.b.heardOptions == s.a.askedOptions
  {
    RunConsistent(confA, confB, states, turns, k);
  }
}

/** Why an Ack must not pass for the answer to a later request: agreement fails otherwise. */
module FsmAlias {
  import opened FsmModel
  import opened FsmWire
  import opened FsmPair

  /** Steps of the pair, however old the answers in flight. */
  ghost predicate Reaches(conf: Conf, s: Sys, turns: seq<Turn>, t: Sys)
    decreases |turns|
  {
    if turns == [] then t == s
    else CanTake(s, turns[0]) && Reaches(conf, Take(conf, conf, s, turns[0]), turns[1..], t)
  }

  lemma {:induction false} ReachesMore(conf: Conf, s: Sys, turns: seq<Turn>, t: Sys, more: seq<Turn>, u: Sys)
    requires Reaches(conf, s, turns, t) && Reaches(conf, t, more, u)
    ensures Reaches(conf, s, turns + more, u)
    decreases |turns|
  {
    hide Take, CanTake;
    if turns == [] {
      assert turns + more == more;
    } else {
      ReachesMore(conf, Take(conf, conf, s, turns[0]), turns[1..], t, more, u);
      assert (turns + more)[1..] == turns[1..] + more;
    }
  }

  lemma ReachesOne(conf: Conf, s: Sys, t: Turn)
    requires CanTake(s, t)
    ensures Reaches(conf, s, [t], Take(conf, conf, s, t))
  {
    hide Take, CanTake;
    assert [t][1..] == [];
  }

  const ASKED: Packet := Request(1, [])
  const OLD: Packet := Reply(1, Ack)

  /** Side a has sent `n` more requests since the one whose Ack is still in flight, behind b's own
      request; all of them are lost. */
  predicate Waiting(s: Sys, n: nat) {
    && s.a.m.state == ReqSent && s.a.m.serial == 2 + n && s.a.asked == 1 + n && s.ab == []
    && s.b.m.state == AckSent && s.b.m.serial == 2 && s.b.asked == 1 && s.b.heard == 1
    && s.ba == [ASKED, OLD]
  }

  /** The layer below goes down and comes up, and the new request is lost. */
  lemma Cycle(conf: Conf, s: Sys, n: nat) returns (turns: seq<Turn>, t: Sys)
    requires Waiting(s, n)
    ensures Reaches(conf, s, turns, t) && Waiting(t, n + 1)
  {
    hide Reaches;
    var down, up, lose := Turn(true, Act(Down, [])), Turn(true, Act(Up, [])), Turn(false, Lose(0));
    var s1 := Take(conf, conf, s, down);
    AfterDown(conf, s, n);
    var s2 := Take(conf, conf, s1, up);
    AfterUp(conf, s1, n);
    var s3 := Take(conf, conf, s2, lose);
    assert s3.ab == [];
    ReachesOne(conf, s, down);
    ReachesOne(conf, s1, up);
    ReachesOne(conf, s2, lose);
    ReachesMore(conf, s, [down], s1, [up], s2);
    ReachesMore(conf, s, [down] + [up], s2, [lose], s3);
    turns, t := [down] + [up] + [lose], s3;
  }

  lemma AfterDown(conf: Conf, s: Sys, n: nat)
    requires Waiting(s, n)
    ensures var t := Moved(conf, s, Act(Down, []));
      t.a.m.state == Starting && t.a.m.serial == 2 + n && t.b == s.b && t.ab == [] && t.ba == s.ba
  {
    OutputShape(conf, s.a, Down, [], 0);
    assert s.ab + [] == [];
  }

  lemma AfterUp(conf: Conf, s: Sys, n: int)
    requires n >= -1 && s.a.m.state == Starting && s.a.m.serial == 2 + n && s.ab == []
    ensures var t := Moved(conf, s, Act(Up, []));
      && t.a.m.state == ReqSent && t.a.m.serial == 3 + n && t.a.asked == 2 + n && t.b == s.b
      && t.ab == [Request(2 + n, [])] && t.ba == s.ba
  {
    OutputShape(conf, s.a, Up, [], 0);
    assert [] + [Request(2 + n, [])] == [Request(2 + n, [])];
  }

  lemma {:induction false} Cycles(conf: Conf, s: Sys, n: nat) returns (turns: seq<Turn>, t: Sys)
    requires Waiting(s, 0)
    ensures Reaches(conf, s, turns, t) && Waiting(t, n)
    decreases n
  {
    hide Reaches, Waiting;
    if n == 0 {
      turns, t := [], s;
      ReachesItself(conf, s);
    } else {
      var before, u := Cycles(conf, s, n - 1);
      var more, v := Cycle(conf, u, n - 1);
      ReachesMore(conf, s, before, u, more, v);
      turns, t := before + more, v;
    }
  }

  lemma ReachesItself(conf: Conf, s: Sys)
    ensures Reaches(conf, s, [], s)
  {
  }

  // ---- Reaching such a state ----

  /** Both sides open, and b acknowledges a's first request. */
  lemma WaitingIsReached(conf: Conf) returns (turns: seq<Turn>, t: Sys)
    ensures Reaches(conf, START, turns, t) && Waiting(t, 0)
  {
    hide Reaches, Moved;
    var s2 := Opening(conf, START);
    var s4 := Opening(conf, Swap(s2));
    s4 := Swap(s4);
    var hears := Turn(false, Deliver(Ack, []));
    t := Take(conf, conf, s4, hears);
    AfterHearing(conf, Swap(s4), 1);
    OpeningReaches(conf, START, true);
    OpeningReaches(conf, s2, false);
    ReachesOne(conf, s4, hears);
    ReachesMore(conf, START, Opens(true), s2, Opens(false), s4);
    ReachesMore(conf, START, Opens(true) + Opens(false), s4, [hears], t);
    turns := Opens(true) + Opens(false) + [hears];
  }

  function Opens(atA: bool): seq<Turn> {
    [Turn(atA, Act(Open, []))] + [Turn(atA, Act(Up, []))]
  }

  function OpenedUp(conf: Conf, s: Sys): Sys {
    Moved(conf, Moved(conf, s, Act(Open, [])), Act(Up, []))
  }

  lemma Opening(conf: Conf, s: Sys) returns (t: Sys)
    requires s.a == FRESH && s.ab == []
    ensures t == OpenedUp(conf, s)
    ensures t.a.m.state == ReqSent && t.a.m.serial == 2 && t.a.asked == 1 && t.a.heard == 0
    ensures t.b == s.b && t.ab == [ASKED] && t.ba == s.ba
  {
    t := OpenedUp(conf, s);
    OutputShape(conf, s.a, Open, [], 0);
    var s1 := Moved(conf, s, Act(Open, []));
    assert s.ab + [] == [];
    AfterUp(conf, s1, -1);
  }

  lemma OpeningReaches(conf: Conf, s: Sys, atA: bool)
    ensures Reaches(conf, s, Opens(atA), if atA then OpenedUp(conf, s) else Swap(OpenedUp(conf, Swap(s))))
  {
    hide Reaches, Moved;
    var open, up := Turn(atA, Act(Open, [])), Turn(atA, Act(Up, []));
    ReachesOne(conf, s, open);
    var s1 := Take(conf, conf, s, open);
    ReachesOne(conf, s1, up);
    ReachesMore(conf, s, [open], s1, [up], Take(conf, conf, s1, up));
  }

  /** A side in Req-Sent acknowledges request 1. */
  lemma AfterHearing(conf: Conf, s: Sys, n: nat)
    requires s.a.m.state == ReqSent && s.a.m.serial == 1 + n && s.a.asked == n && s.ba != [] && s.ba[0] == ASKED
    ensures var t := Moved(conf, s, Deliver(Ack, []));
      && t.a.m.state == AckSent && t.a.m.serial == 1 + n && t.a.asked == n && t.a.heard == 1
      && t.b == s.b && t.ba == s.ba[1..] && t.ab == s.ab + [OLD]
  {
    hide Step, Sent, Shape, Packets;
    GoodRequest(conf, s.a.m);
    OutputShape(conf, s.a, RecvConfReq(1, Ack), [], 1);
    GoodShape(s.a, Step(conf, s.a.m, RecvConfReq(1, Ack)).acts);
  }

  lemma GoodRequest(conf: Conf, m: Machine)
    requires m.state == ReqSent
    ensures var o := Step(conf, m, RecvConfReq(1, Ack));
      o.acts.scr == 0 && o.acts.sca > 0 && o.m.state == AckSent && o.m.serial == m.serial
  {
  }

  lemma GoodShape(x: Side, acts: Tally)
    requires acts.scr == 0 && acts.sca > 0
    ensures Shape(x, RecvConfReq(1, Ack), acts, [], 1) == [OLD]
  {
  }

  // ---- The stale Ack ----

  /** The stale Ack carries the identifier of the last request if the numbers are congruent modulo
      256: side a, in Ack-Sent, takes it for an answer and opens. */
  lemma StaleAckOpens(conf: Conf, s: Sys, n: nat)
    requires s.a.m.state == AckSent && s.a.m.serial == 1 + n && s.a.asked == n && n % 256 == 1
    requires s.ba != [] && s.ba[0] == OLD
    ensures var t := Moved(conf, s, Deliver(Ack, []));
      && t.a.m.state == Opened && t.a.asked == n && t.a.heard == s.a.heard
      && t.b == s.b && t.ba == s.ba[1..] && t.ab == s.ab
  {
    OutputShape(conf, s.a, RecvConfAck(1), [], 0);
    AckOpens(conf, s.a.m);
    assert s.ab + [] == s.ab;
  }

  lemma AckOpens(conf: Conf, m: Machine)
    requires m.state == AckSent && Expected(m, 1)
    ensures var o := Step(conf, m, RecvConfAck(1));
      o.m.state == Opened && o.acts.scr == 0 && o.acts.str == 0 && o.acts.sta == 0
  {
  }

  /** The pair reaches a state in which both sides are Opened, although the last request of one has
      never been received by the other. */
  lemma AliasingBreaksAgreement(conf: Conf) returns (turns: seq<Turn>, t: Sys)
    ensures Reaches(conf, START, turns, t)
    ensures t.a.m.state == Opened && t.b.m.state == Opened && t.a.asked == 257 && t.b.heard == 1
  {
    hide Reaches, Moved;
    var start, s := WaitingIsReached(conf);
    var more, u := Cycles(conf, s, 256);
    ReachesMore(conf, START, start, s, more, u);
    var mine, theirs := Turn(true, Deliver(Ack, [])), Turn(false, Deliver(Ack, []));
    var u1 := Take(conf, conf, u, mine);       // b's request
    AfterHearing(conf, u, 257);
    var u2 := Take(conf, conf, u1, mine);      // the stale Ack
    StaleAckOpens(conf, u1, 257);
    t := Take(conf, conf, u2, theirs);         // a's Ack
    StaleAckOpens(conf, Swap(u2), 1);
    ReachesOne(conf, u, mine);
    ReachesOne(conf, u1, mine);
    ReachesOne(conf, u2, theirs);
    ReachesMore(conf, START, start + more, u, [mine], u1);
    ReachesMore(conf, START, start + more + [mine], u1, [mine], u2);
    ReachesMore(conf, START, start + more + [mine] + [mine], u2, [theirs], t);
    turns := start + more + [mine] + [mine] + [theirs];
  }
}

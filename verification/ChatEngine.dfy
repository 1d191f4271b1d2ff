/** The chat interpreter as the program keeps it: events count the frames called since they were
    defined, and calls, returns and firings adjust the counts. */
module ChatEngine {
  import opened ChatExpand
  import opened ChatFrames

  datatype Event = Event(set_: string, target: string, frameDepth: int)

  // ---- What the counts mean ----

  predicate Counted(events: seq<Event>, depth: nat) {
    forall i | 0 <= i < |events| :: 0 <= events[i].frameDepth <= depth
  }

  function Meaning(e: Event, stack: seq<Frame>): Scope
    requires 0 <= e.frameDepth <= |stack|
  {
    Scope(e.set_, e.target, stack[..|stack| - e.frameDepth])
  }

  function Meanings(events: seq<Event>, stack: seq<Frame>): seq<Scope>
    requires Counted(events, |stack|)
  {
    if events == [] then [] else [Meaning(events[0], stack)] + Meanings(events[1..], stack)
  }

  function Raised(events: seq<Event>): (r: seq<Event>)
    ensures |r| == |events|
    ensures forall i | 0 <= i < |r| :: r[i] == events[i].(frameDepth := events[i].frameDepth + 1)
  {
    if events == [] then []
    else [events[0].(frameDepth := events[0].frameDepth + 1)] + Raised(events[1..])
  }

  function Lowered(events: seq<Event>): seq<Event> {
    if events == [] then []
    else if events[0].frameDepth - 1 < 0 then Lowered(events[1..])
    else [events[0].(frameDepth := events[0].frameDepth - 1)] + Lowered(events[1..])
  }

  function Remaining(events: seq<Event>, name: string): seq<Event> {
    if events == [] then []
    else if Cancels(name, events[0].set_) then Remaining(events[1..], name)
    else [events[0]] + Remaining(events[1..], name)
  }

  lemma CountedCons(e: Event, events: seq<Event>, depth: nat)
    ensures Counted([e] + events, depth) <==> 0 <= e.frameDepth <= depth && Counted(events, depth)
  {
    var all := [e] + events;
    assert all[0] == e && all[1..] == events;
    if Counted(all, depth) {
      forall i | 0 <= i < |events| ensures 0 <= events[i].frameDepth <= depth {
        assert all[i + 1] == events[i];
      }
    }
  }

  lemma MeaningsCons(e: Event, events: seq<Event>, stack: seq<Frame>)
    requires 0 <= e.frameDepth <= |stack| && Counted(events, |stack|)
    ensures Counted([e] + events, |stack|)
    ensures Meanings([e] + events, stack) == [Meaning(e, stack)] + Meanings(events, stack)
  {
    CountedCons(e, events, |stack|);
    assert ([e] + events)[1..] == events;
  }

  lemma Split(events: seq<Event>, depth: nat)
    requires events != [] && Counted(events, depth)
    ensures events == [events[0]] + events[1..] && 0 <= events[0].frameDepth <= depth
    ensures Counted(events[1..], depth)
  {
    assert events == [events[0]] + events[1..];
    CountedCons(events[0], events[1..], depth);
  }

  lemma {:induction false} MeaningsSnoc(events: seq<Event>, e: Event, stack: seq<Frame>)
    requires 0 <= e.frameDepth <= |stack| && Counted(events, |stack|)
    ensures Counted(events + [e], |stack|)
    ensures Meanings(events + [e], stack) == Meanings(events, stack) + [Meaning(e, stack)]
  {
    hide Counted, Meaning;
    if events == [] {
      CountedCons(e, [], |stack|);
      MeaningsCons(e, [], stack);
      assert events + [e] == [e] + [];
    } else {
      Split(events, |stack|);
      MeaningsSnoc(events[1..], e, stack);
      MeaningsCons(events[0], events[1..] + [e], stack);
      assert events + [e] == [events[0]] + (events[1..] + [e]);
    }
  }

  /** A call changes no event's meaning. */
  lemma {:induction false} RaisedMeanings(events: seq<Event>, stack: seq<Frame>, f: Frame)
    requires Counted(events, |stack|)
    ensures Counted(Raised(events), |stack| + 1)
    ensures Meanings(Raised(events), stack + [f]) == Meanings(events, stack)
  {
    hide Counted;
    if events == [] {
      NoneCounted(|stack| + 1);
    } else {
      Split(events, |stack|);
      RaisedMeanings(events[1..], stack, f);
      var e := events[0].(frameDepth := events[0].frameDepth + 1);
      MeaningsCons(e, Raised(events[1..]), stack + [f]);
      assert Meaning(e, stack + [f]) == Meaning(events[0], stack) by {
        assert (stack + [f])[..|stack| - events[0].frameDepth] == stack[..|stack| - events[0].frameDepth];
      }
    }
  }

  lemma NoneCounted(depth: nat)
    ensures Counted([], depth)
  {
  }

  /** A return leaves the events that were not defined in the frame it pops. */
  lemma {:induction false} LoweredMeanings(events: seq<Event>, stack: seq<Frame>)
    requires Counted(events, |stack|) && stack != []
    ensures Counted(Lowered(events), |stack| - 1)
    ensures Meanings(Lowered(events), stack[..|stack| - 1]) == Within(Meanings(events, stack), stack[..|stack| - 1])
  {
    hide Counted;
    var up := stack[..|stack| - 1];
    if events == [] {
      NoneCounted(|stack| - 1);
    } else {
      Split(events, |stack|);
      LoweredMeanings(events[1..], stack);
      var m := Meaning(events[0], stack);
      assert (m.frames <= up) == (events[0].frameDepth > 0);
      assert Meanings(events, stack)[1..] == Meanings(events[1..], stack);
      if events[0].frameDepth > 0 {
        var e := events[0].(frameDepth := events[0].frameDepth - 1);
        MeaningsCons(e, Lowered(events[1..]), up);
        assert Meaning(e, up) == m by {
          assert up[..|up| - e.frameDepth] == stack[..|stack| - events[0].frameDepth];
        }
      }
    }
  }

  lemma {:induction false} RemainingMeanings(events: seq<Event>, stack: seq<Frame>, name: string)
    requires Counted(events, |stack|)
    ensures Counted(Remaining(events, name), |stack|)
    ensures Meanings(Remaining(events, name), stack) == Uncancelled(Meanings(events, stack), name)
  {
    hide Counted, Cancels;
    if events == [] {
      NoneCounted(|stack|);
    } else {
      Split(events, |stack|);
      RemainingMeanings(events[1..], stack, name);
      assert Meanings(events, stack)[1..] == Meanings(events[1..], stack);
      if !Cancels(name, events[0].set_) {
        MeaningsCons(events[0], Remaining(events[1..], name), stack);
      }
    }
  }

  lemma {:induction false} MeaningAt(events: seq<Event>, stack: seq<Frame>, i: nat)
    requires Counted(events, |stack|) && i < |events|
    ensures |Meanings(events, stack)| == |events|
    ensures Meanings(events, stack)[i] == Meaning(events[i], stack)
    decreases i, |events|
  {
    hide Counted, Meaning;
    Split(events, |stack|);
    if i > 0 {
      assert events[1..][i - 1] == events[i];
      MeaningAt(events[1..], stack, i - 1);
    } else if |events| > 1 {
      MeaningsLength(events[1..], stack);
    }
  }

  lemma {:induction false} MeaningsLength(events: seq<Event>, stack: seq<Frame>)
    requires Counted(events, |stack|)
    ensures |Meanings(events, stack)| == |events|
  {
    hide Counted, Meaning;
    if events != [] {
      Split(events, |stack|);
      MeaningsLength(events[1..], stack);
    }
  }

  lemma PrefixOfPrefix(a: seq<Frame>, b: seq<Frame>, c: seq<Frame>)
    requires b <= c
    ensures a <= b ==> a <= c
  {
  }

  /** Cutting to a stack and then to a shorter one is cutting to the shorter. */
  lemma {:induction false} WithinWithin(scopes: seq<Scope>, stack: seq<Frame>, less: seq<Frame>)
    requires less <= stack
    ensures Within(Within(scopes, stack), less) == Within(scopes, less)
  {
    if scopes != [] {
      WithinWithin(scopes[1..], stack, less);
      var rest := Within(scopes[1..], stack);
      if scopes[0].frames <= stack {
        assert ([scopes[0]] + rest)[1..] == rest;
      } else {
        PrefixOfPrefix(scopes[0].frames, less, stack);
      }
    }
  }

  /** Nothing is cut when everything is in scope. */
  lemma {:induction false} WithinAll(events: seq<Event>, stack: seq<Frame>)
    requires Counted(events, |stack|)
    ensures Within(Meanings(events, stack), stack) == Meanings(events, stack)
  {
    hide Counted;
    if events != [] {
      Split(events, |stack|);
      WithinAll(events[1..], stack);
      assert Meanings(events, stack)[1..] == Meanings(events[1..], stack);
      assert Meaning(events[0], stack).frames <= stack;
    }
  }

  lemma {:induction false} AllRemoved(events: seq<Event>, name: string)
    requires IsAll(name)
    ensures Remaining(events, name) == []
  {
    if events != [] {
      AllRemoved(events[1..], name);
    }
  }

  // ---- The lists, edited in place ----

  /** A list of pending events. */
  class EventList {
    var events: seq<Event>

    constructor ()
      ensures events == []
    {
      events := [];
    }

    method Raise()
      modifies this
      ensures events == Raised(old(events))
    {
      ghost var was := events;
      var i := 0;
      while i < |events|
        invariant 0 <= i <= |events| == |was|
        invariant forall k | 0 <= k < i :: events[k] == was[k].(frameDepth := was[k].frameDepth + 1)
        invariant forall k | i <= k < |events| :: events[k] == was[k]
      {
        events := events[i := events[i].(frameDepth := events[i].frameDepth + 1)];
        i := i + 1;
      }
    }

    method Lower()
      modifies this
      ensures events == Lowered(old(events))
    {
      var i := 0;
      ghost var was := events;
      assert events[..0] + Lowered(was) == Lowered(was);
      while i < |events|
        invariant 0 <= i <= |events|
        invariant events[..i] + Lowered(events[i..]) == Lowered(was)
        decreases |events| - i
      {
        var e := events[i].(frameDepth := events[i].frameDepth - 1);
        Advance(events, i, e);
        if e.frameDepth < 0 {
          events := events[..i] + events[i + 1..];
        } else {
          assert events[..i] + ([e] + Lowered(events[i..][1..])) == (events[..i] + [e]) + Lowered(events[i..][1..]);
          events := events[i := e];
          i := i + 1;
        }
      }
      assert events[i..] == [] && events[..i] == events;
    }

    method Remove(name: string)
      modifies this
      ensures events == Remaining(old(events), name)
    {
      hide Cancels;
      var i := 0;
      ghost var was := events;
      assert events[..0] + Remaining(was, name) == Remaining(was, name);
      while i < |events|
        invariant 0 <= i <= |events|
        invariant events[..i] + Remaining(events[i..], name) == Remaining(was, name)
        decreases |events| - i
      {
        var e := events[i];
        Advance(events, i, e);
        if Cancels(name, e.set_) {
          events := events[..i] + events[i + 1..];
        } else {
          assert events[..i] + ([e] + Remaining(events[i..][1..], name))
              == (events[..i] + [e]) + Remaining(events[i..][1..], name);
          i := i + 1;
        }
      }
      assert events[i..] == [] && events[..i] == events;
    }
  }

  /** Slices of a list around a position that is edited or removed. */
  lemma Advance(events: seq<Event>, i: nat, e: Event)
    requires i < |events|
    ensures events[i..][0] == events[i] && events[i..][1..] == events[i + 1..]
    ensures events[i := e][..i + 1] == events[..i] + [e] && events[i := e][i + 1..] == events[i + 1..]
    ensures events[i] == e ==> events[..i + 1] == events[..i] + [e]
    ensures (events[..i] + events[i + 1..])[..i] == events[..i]
    ensures (events[..i] + events[i + 1..])[i..] == events[i + 1..]
  {
  }

  // ---- The interpreter ----

  class Script {
    const labels: Labels
    const variables: Variables
    const matches: EventList
    const timers: EventList
    var activity: Activity
    var line: nat
    var stack: seq<Frame>

    ghost predicate Valid()
      reads this, matches, timers, variables, variables.globals, variables.temps
    {
      && matches != timers && variables.Valid()
      && Counted(matches.events, |stack|) && Counted(timers.events, |stack|)
    }

    ghost function Abs(): Engine
      requires Valid()
      reads this, matches, timers, variables, variables.globals, variables.temps
    {
      Engine(activity, line, stack, Meanings(matches.events, stack), Meanings(timers.events, stack),
             variables.Meaning())
    }

    constructor (labels: Labels)
      ensures Valid() && Abs() == Engine(Running, 0, [], [], [], Env.Env(map[], map[]))
      ensures fresh(matches) && fresh(timers) && fresh(variables.globals) && fresh(variables.temps)
    {
      this.labels := labels;
      var v := new Variables();
      var m := new EventList();
      var t := new EventList();
      variables, matches, timers := v, m, t;
      activity, line, stack := Running, 0, [];
    }

    method AddMatch(set0: string, label0: string)
      requires Valid()
      modifies matches, variables.globals, variables.temps
      ensures Valid()
      ensures Abs() == old(Abs()).(matches := old(Abs()).matches + [old(Abs()).Pending(set0, label0)])
    {
      hide Counted, Meanings, Expand, Bindings, Distinct, Proper;
      var name := variables.ExpandString(set0);
      var target := variables.ExpandString(label0);
      var e := Event(name, target, 0);
      MeaningsSnoc(matches.events, e, stack);
      assert Meaning(e, stack) == Scope(name, target, stack);
      matches.events := matches.events + [e];
    }

    method AddTimer(set0: string, label0: string)
      requires Valid()
      modifies timers, variables.globals, variables.temps
      ensures Valid()
      ensures Abs() == old(Abs()).(timers := [old(Abs()).Pending(set0, label0)] + old(Abs()).timers)
    {
      hide Counted, Meanings, Expand, Bindings, Distinct, Proper;
      var name := variables.ExpandString(set0);
      var target := variables.ExpandString(label0);
      var e := Event(name, target, 0);
      MeaningsCons(e, timers.events, stack);
      assert Meaning(e, stack) == Scope(name, target, stack);
      timers.events := [e] + timers.events;
    }

    method Cancel(set0: string)
      requires Valid()
      modifies matches, timers, variables.globals, variables.temps
      ensures Valid() && Abs() == old(Abs()).Cancel(set0)
    {
      hide Counted, Meanings, Expand, Bindings, Distinct, Proper, Uncancelled, Remaining;
      var name := variables.ExpandString(set0);
      RemainingMeanings(matches.events, stack, name);
      RemainingMeanings(timers.events, stack, name);
      matches.Remove(name);
      timers.Remove(name);
    }

    /** Pops the top frame, going back to the call's position if `seek`. */
    method Pop(seek: bool)
      requires Valid() && stack != []
      modifies this`line, this`stack, matches, timers
      ensures Valid()
      ensures Abs() == old(Abs()).CutTo(old(stack)[..|old(stack)| - 1])
          .(line := if seek then old(stack)[|old(stack)| - 1] else old(line))
    {
      hide Counted, Meanings, Bindings, Distinct, Proper, Within, Lowered;
      if seek {
        line := stack[|stack| - 1];
      }
      LoweredMeanings(matches.events, stack);
      LoweredMeanings(timers.events, stack);
      stack := stack[..|stack| - 1];
      matches.Lower();
      timers.Lower();
    }

    /** Forgets the script's own variables and all events, and pops every frame. */
    method Stop()
      requires Valid()
      modifies this`activity, this`stack, this`line, matches, timers, variables.temps
      ensures Valid() && Abs() == old(Abs()).Stop()
    {
      hide Counted, Within, Lowered, Remaining;
      variables.temps.Clear();
      AllRemoved(matches.events, "all");
      AllRemoved(timers.events, "all");
      matches.Remove("all");
      timers.Remove("all");
      NoneCounted(|stack|);
      while stack != []
        invariant Valid() && Abs() == old(Abs()).Stop().(activity := old(activity), stack := stack)
        decreases |stack|
      {
        Pop(false);
        assert Within([], stack) == [] by { WithinNothing(stack); }
      }
      activity := Idle;
    }

    method Call(label0: string)
      requires Valid()
      modifies this, matches, timers, variables.globals, variables.temps
      ensures Valid() && Abs() == old(Abs()).Call(labels, label0)
    {
      hide Counted, Meanings, Expand, Bindings, Distinct, Proper, Raised;
      var target := variables.ExpandString(label0);
      if target !in labels {
        Stop();
        MeaningsLength(matches.events, stack);
        MeaningsLength(timers.events, stack);
        matches.Raise();
        timers.Raise();
        RaisedNothing();
        return;
      }
      RaisedMeanings(matches.events, stack, line);
      RaisedMeanings(timers.events, stack, line);
      stack := stack + [line];
      line := labels[target];
      matches.Raise();
      timers.Raise();
    }

    method Return()
      requires Valid()
      modifies this, matches, timers, variables.globals, variables.temps
      ensures Valid() && Abs() == old(Abs()).Return()
    {
      hide Counted, Meanings, Bindings, Distinct, Proper, Within;
      if stack == [] {
        Stop();
      } else {
        Pop(true);
      }
    }

    method Goto(label0: string) returns (ok: bool)
      requires Valid()
      modifies this, matches, timers, variables.globals, variables.temps
      ensures Valid() && Abs() == old(Abs()).Goto(labels, label0)
      ensures ok <==> Expand(old(Abs()).env, label0) == DEFAULT_LABEL || Expand(old(Abs()).env, label0) in labels
    {
      hide Counted, Meanings, Expand, Bindings, Distinct, Proper;
      var target := variables.ExpandString(label0);
      if target == DEFAULT_LABEL {
        return true;
      }
      if target in labels {
        line := labels[target];
        return true;
      }
      Stop();
      return false;
    }

    /** An event with these attributes, pending while the script waits, fires. */
    method Fire(e: Event)
      requires Valid() && activity.Waiting? && 0 <= e.frameDepth <= |stack|
      modifies this, matches, timers, variables.globals, variables.temps
      ensures Valid() && Abs() == old(Abs()).Fire(labels, Meaning(e, old(stack)))
    {
      hide Counted, Meanings, Expand, Bindings, Distinct, Proper, Within, Uncancelled, Truncated;
      ghost var s := Meaning(e, stack);
      var target, numPop := Truncated(e.target), e.frameDepth;
      Cancel(e.set_);
      ghost var was := Abs();
      WithinAll(matches.events, stack);
      WithinAll(timers.events, stack);
      while numPop > 0
        invariant 0 <= numPop <= |stack|
        invariant Valid() && Abs() == was.CutTo(stack)
        invariant s.frames == stack[..|stack| - numPop]
      {
        WithinWithin(was.matches, stack, stack[..|stack| - 1]);
        WithinWithin(was.timers, stack, stack[..|stack| - 1]);
        Pop(false);
        numPop := numPop - 1;
      }
      assert stack[..|stack|] == stack;
      var ok := Goto(target);
      if ok {
        Cancel(DEFAULT_SET);
        activity := Running;
      }
    }

    /** A match fires: it sets the match variables, then goes on like any event. */
    method MatchFires(i: nat, m: Match)
      requires Valid() && activity.Waiting? && i < |matches.events| && (m.Regex? ==> m.texts != [])
      modifies this, matches, timers, variables.globals, variables.temps
      ensures Valid() && old(Abs()).Enabled(Op.MatchFires(i, m))
      ensures Abs() == old(Abs()).Step(labels, Op.MatchFires(i, m))
    {
      hide Meanings, Engine.Fire, Captured, Bindings, Distinct, Proper;
      MeaningAt(matches.events, stack, i);
      variables.SetMatchVars(m);
      assert Abs() == old(Abs()).(env := Captured(old(Abs()).env, m));
      Fire(matches.events[i]);
    }

    method TimerFires(i: nat)
      requires Valid() && activity.Waiting? && i < |timers.events|
      modifies this, matches, timers, variables.globals, variables.temps
      ensures Valid() && old(Abs()).Enabled(Op.TimerFires(i))
      ensures Abs() == old(Abs()).Step(labels, Op.TimerFires(i))
    {
      hide Meanings, Engine.Fire;
      MeaningAt(timers.events, stack, i);
      Fire(timers.events[i]);
    }

    /** Assigns a variable, or fails. */
    method Assign(reference: string, value: string, device: string -> bool)
      requires Valid()
      modifies this, matches, timers, variables.globals, variables.temps
      ensures Valid() && Abs() == old(Abs()).Assigned(reference, value, device)
    {
      hide Counted, Meanings, Expand, Bindings, Distinct, Proper, Outcome, SetTo, Engine.Stop;
      var r := variables.Set(reference, value, true, false, device);
      if !r.Done? {
        assert Abs() == old(Abs());
        Stop();
      }
    }

    /** Waiting with no event pending is a failure of the script. */
    method Wait()
      requires Valid()
      modifies this, matches, timers, variables.globals, variables.temps
      ensures Valid() && Abs() == old(Abs()).Wait()
    {
      hide Counted, Meanings, Bindings, Distinct, Proper, Within;
      MeaningsLength(matches.events, stack);
      MeaningsLength(timers.events, stack);
      if matches.events == [] && timers.events == [] {
        Stop();
      } else {
        activity := Waiting;
      }
    }
  }

  lemma RaisedNothing()
    ensures Raised([]) == []
  {
  }

  lemma WithinNothing(stack: seq<Frame>)
    ensures Within([], stack) == []
  {
  }
}

/** Chat script calls and pending events. An event remembers how many frames to pop when it fires;
    the specification remembers the call stack it was defined under. */
module ChatFrames {
  import opened ChatExpand

  datatype Activity = Idle | Running | Waiting

  /** Where a call returns to: a position in the script. */
  type Frame = nat

  const DEFAULT_SET := ""
  const DEFAULT_LABEL := ""
  const MAX_LABEL: nat := 32

  /** Label positions of a script. */
  type Labels = map<string, nat>

  // ---- Specification ----

  /** A pending event and the call stack in force when it was defined. */
  datatype Scope = Scope(set_: string, target: string, frames: seq<Frame>)

  function Lower(c: char): char {
    if Upper(c) then c - 'A' + 'a' else c
  }

  /** The keyword "all", in any case. */
  predicate IsAll(s: string) {
    |s| == 3 && Lower(s[0]) == 'a' && Lower(s[1]) == 'l' && Lower(s[2]) == 'l'
  }

  predicate Cancels(name: string, set_: string) {
    IsAll(name) || name == set_
  }

  function Uncancelled(scopes: seq<Scope>, name: string): seq<Scope> {
    if scopes == [] then []
    else if Cancels(name, scopes[0].set_) then Uncancelled(scopes[1..], name)
    else [scopes[0]] + Uncancelled(scopes[1..], name)
  }

  /** The events that were defined no deeper than this stack. */
  function Within(scopes: seq<Scope>, stack: seq<Frame>): seq<Scope> {
    if scopes == [] then []
    else if scopes[0].frames <= stack then [scopes[0]] + Within(scopes[1..], stack)
    else Within(scopes[1..], stack)
  }

  /** What becomes of a script: labels stand expanded, variables as their meaning. */
  datatype Engine = Engine(activity: Activity, line: nat, stack: seq<Frame>,
                           matches: seq<Scope>, timers: seq<Scope>, env: Env) {

    /** Every pending event was defined at the present call or at one that leads to it; a script
        that waits has something to wait for; an idle one has nothing left. */
    ghost predicate Valid() {
      && (forall s | s in matches :: s.frames <= stack)
      && (forall s | s in timers :: s.frames <= stack)
      && (activity.Waiting? ==> matches != [] || timers != [])
      && (activity.Idle? ==> stack == [] && matches == [] && timers == [] && env.temps == map[])
    }

    function Stop(): Engine {
      Engine(Idle, line, [], [], [], env.(temps := map[]))
    }

    function Cancel(set0: string): Engine {
      var name := Expand(env, set0);
      this.(matches := Uncancelled(matches, name), timers := Uncancelled(timers, name))
    }

    function Pending(set0: string, label0: string): Scope {
      Scope(Expand(env, set0), Expand(env, label0), stack)
    }

    function Call(labels: Labels, label0: string): Engine {
      var target := Expand(env, label0);
      if target in labels then this.(stack := stack + [line], line := labels[target]) else Stop()
    }

    function CutTo(frames: seq<Frame>): Engine {
      this.(stack := frames, matches := Within(matches, frames), timers := Within(timers, frames))
    }

    function Return(): Engine {
      if stack == [] then Stop()
      else CutTo(stack[..|stack| - 1]).(line := stack[|stack| - 1])
    }

    function Goto(labels: Labels, label0: string): Engine {
      var target := Expand(env, label0);
      if target == DEFAULT_LABEL then this
      else if target in labels then this.(line := labels[target])
      else Stop()
    }

    function Resume(): Engine {
      if activity.Idle? then this else Cancel(DEFAULT_SET).(activity := Running)
    }

    /** An event fires: its set is cancelled, calls made since its definition are abandoned, and the
        script goes on at its target, of which 31 characters count. */
    function Fire(labels: Labels, s: Scope): Engine {
      Cancel(s.set_).CutTo(s.frames).Goto(labels, Truncated(s.target)).Resume()
    }

    /** A match fires after setting the match variables, so its set is named with these in force. */
    function FireMatch(labels: Labels, s: Scope, m: Match): Engine {
      this.(env := Captured(env, m)).Fire(labels, s)
    }

    /** Assigning to what names no variable, or a speed the device refuses, ends the script. */
    function Assigned(reference: string, value: string, device: string -> bool): Engine {
      var text := Expand(env, value);
      if Outcome(reference, text, false, device).Done? then this.(env := SetTo(env, reference, text)) else Stop()
    }

    function Wait(): Engine {
      if matches == [] && timers == [] then Stop() else this.(activity := Waiting)
    }

    function Step(labels: Labels, op: Op): Engine
      requires Enabled(op)
    {
      match op
      case NextLine => this.(line := line + 1)
      case AddMatch(set0, label0) => this.(matches := matches + [Pending(set0, label0)])
      case AddTimer(set0, label0) => this.(timers := [Pending(set0, label0)] + timers)
      case CancelSet(set0) => Cancel(set0)
      case Assign(reference, value, device) => Assigned(reference, value, device)
      case CallLabel(label0) => Call(labels, label0)
      case GotoLabel(label0) => Goto(labels, label0)
      case ReturnUp => Return()
      case WaitForEvent => Wait()
      case MatchFires(i, m) => FireMatch(labels, matches[i], m)
      case TimerFires(i) => Fire(labels, timers[i])
      case Ends => Stop()
    }

    predicate Enabled(op: Op) {
      match op
      case MatchFires(i, m) => activity.Waiting? && i < |matches| && (m.Regex? ==> m.texts != [])
      case TimerFires(i) => activity.Waiting? && i < |timers|
      case Ends => true
      case _ => activity.Running?
    }
  }

  function Truncated(target: string): string {
    if |target| < MAX_LABEL then target else target[..MAX_LABEL - 1]
  }

  /** Script commands, events firing, and the end of the script by whatever means. */
  datatype Op =
    | NextLine
    | AddMatch(set0: string, label0: string)
    | AddTimer(set0: string, label0: string)
    | CancelSet(set0: string)
    | Assign(reference: string, value: string, device: string -> bool)
    | CallLabel(label0: string)
    | GotoLabel(label0: string)
    | ReturnUp
    | WaitForEvent
    | MatchFires(i: nat, m: Match)
    | TimerFires(i: nat)
    | Ends

  // ---- What filtering does ----

  lemma {:induction false} InUncancelled(scopes: seq<Scope>, name: string, s: Scope)
    ensures s in Uncancelled(scopes, name) <==> s in scopes && !Cancels(name, s.set_)
  {
    if scopes != [] {
      assert scopes == [scopes[0]] + scopes[1..];
      InUncancelled(scopes[1..], name, s);
    }
  }

  lemma {:induction false} InWithin(scopes: seq<Scope>, stack: seq<Frame>, s: Scope)
    ensures s in Within(scopes, stack) <==> s in scopes && s.frames <= stack
  {
    if scopes != [] {
      assert scopes == [scopes[0]] + scopes[1..];
      InWithin(scopes[1..], stack, s);
    }
  }

  lemma InCut(e: Engine, frames: seq<Frame>, s: Scope)
    ensures s in e.CutTo(frames).matches <==> s in e.matches && s.frames <= frames
    ensures s in e.CutTo(frames).timers <==> s in e.timers && s.frames <= frames
  {
    InWithin(e.matches, frames, s);
    InWithin(e.timers, frames, s);
  }

  lemma InCancel(e: Engine, set0: string, s: Scope)
    ensures s in e.Cancel(set0).matches <==> s in e.matches && !Cancels(Expand(e.env, set0), s.set_)
    ensures s in e.Cancel(set0).timers <==> s in e.timers && !Cancels(Expand(e.env, set0), s.set_)
  {
    InUncancelled(e.matches, Expand(e.env, set0), s);
    InUncancelled(e.timers, Expand(e.env, set0), s);
  }

  // ---- One step ----

  /** Cancelling, cutting and jumping, as firing does, leave no event that was not there, and none
      out of scope. */
  lemma FireKeeps(e: Engine, labels: Labels, s: Scope, t: Scope)
    ensures t in e.Fire(labels, s).matches ==> t in e.matches && t.frames <= s.frames == e.Fire(labels, s).stack
    ensures t in e.Fire(labels, s).timers ==> t in e.timers && t.frames <= s.frames == e.Fire(labels, s).stack
  {
    hide Uncancelled, Within, Expand, Cancels;
    var e1 := e.Cancel(s.set_);
    InCancel(e, s.set_, t);
    var e2 := e1.CutTo(s.frames);
    InCut(e1, s.frames, t);
    var e3 := e2.Goto(labels, Truncated(s.target));
    InCancel(e3, DEFAULT_SET, t);
  }

  /** An event pending after a step was pending before, or was defined by the step at its stack. */
  lemma StepOrigin(e: Engine, labels: Labels, op: Op, s: Scope)
    requires e.Enabled(op) && e.Valid()
    requires s in e.Step(labels, op).matches || s in e.Step(labels, op).timers
    ensures s in e.matches || s in e.timers || (s.frames == e.stack && (op.AddMatch? || op.AddTimer?))
    ensures s.frames <= e.Step(labels, op).stack
  {
    hide Uncancelled, Within, Expand, Cancels, Captured, Outcome, SetTo;
    match op {
      case MatchFires(i, m) => FireKeeps(e.(env := Captured(e.env, m)), labels, e.matches[i], s);
      case TimerFires(i) => FireKeeps(e, labels, e.timers[i], s);
      case CancelSet(set0) => InCancel(e, set0, s);
      case ReturnUp => if e.stack != [] { InCut(e, e.stack[..|e.stack| - 1], s); }
      case _ =>
    }
  }

  lemma StepValid(e: Engine, labels: Labels, op: Op)
    requires e.Enabled(op) && e.Valid()
    ensures e.Step(labels, op).Valid()
  {
    hide Uncancelled, Within, Expand;
    var e' := e.Step(labels, op);
    forall s | s in e'.matches || s in e'.timers ensures s.frames <= e'.stack {
      StepOrigin(e, labels, op, s);
    }
  }

  /** Returning discards exactly the events defined in the frame that is popped. */
  lemma ReturnDiscards(e: Engine, s: Scope)
    requires e.Valid() && e.stack != []
    ensures s in e.Return().matches <==> s in e.matches && s.frames != e.stack
    ensures s in e.Return().timers <==> s in e.timers && s.frames != e.stack
  {
    hide Uncancelled, Within;
    var up := e.stack[..|e.stack| - 1];
    InCut(e, up, s);
    if s in e.matches || s in e.timers {
      assert s.frames <= e.stack;
      if s.frames != e.stack {
        assert s.frames <= up;
      }
    }
  }

  /** The script goes on after jumping: the label is the default or exists. */
  predicate Lands(labels: Labels, env: Env, label0: string) {
    var target := Expand(env, Truncated(label0));
    target == DEFAULT_LABEL || target in labels
  }

  /** An event that fires stays pending exactly when its label is found and its set, expanded again, no
      longer names it. */
  lemma FiredScopeStays(e: Engine, labels: Labels, s: Scope)
    requires e.Valid() && e.activity.Waiting? && (s in e.matches || s in e.timers)
    ensures s in e.Fire(labels, s).matches
      <==> s in e.matches && !Cancels(Expand(e.env, s.set_), s.set_) && Lands(labels, e.env, s.target)
    ensures s in e.Fire(labels, s).timers
      <==> s in e.timers && !Cancels(Expand(e.env, s.set_), s.set_) && Lands(labels, e.env, s.target)
  {
    hide Uncancelled, Within, Expand, Truncated;
    var e1 := e.Cancel(s.set_);
    InCancel(e, s.set_, s);
    var e2 := e1.CutTo(s.frames);
    InCut(e1, s.frames, s);
    var e3 := e2.Goto(labels, Truncated(s.target));
    ExpandPlain(e.env, DEFAULT_SET);
    InCancel(e3, DEFAULT_SET, s);
    if s.set_ == DEFAULT_SET {
      ExpandPlain(e.env, s.set_);
    }
  }

  /** For a match, with the variables it has just set. */
  lemma FiredEventStays(e: Engine, labels: Labels, i: nat, m: Match)
    requires e.Valid() && e.Enabled(MatchFires(i, m))
    ensures var s, env := e.matches[i], Captured(e.env, m);
      s in e.Step(labels, MatchFires(i, m)).matches
      <==> !Cancels(Expand(env, s.set_), s.set_) && Lands(labels, env, s.target)
  {
    hide Engine.Fire, Expand, Captured, Lands;
    FiredScopeStays(e.(env := Captured(e.env, m)), labels, e.matches[i]);
  }

  /** For a timer, with the variables as they are. */
  lemma FiredTimerStays(e: Engine, labels: Labels, i: nat)
    requires e.Valid() && e.Enabled(TimerFires(i))
    ensures var s := e.timers[i];
      s in e.Step(labels, TimerFires(i)).timers
      <==> !Cancels(Expand(e.env, s.set_), s.set_) && Lands(labels, e.env, s.target)
  {
    hide Engine.Fire, Expand, Lands;
    FiredScopeStays(e, labels, e.timers[i]);
  }

  /** Sets whose names hold no '$' are cancelled by their events. */
  lemma PlainSetsAreCancelled(e: Engine, labels: Labels, i: nat, m: Match)
    requires e.Valid() && e.Enabled(MatchFires(i, m)) && PREFIX !in e.matches[i].set_
    ensures e.matches[i] !in e.Step(labels, MatchFires(i, m)).matches
  {
    hide Expand, Captured, Engine.Step, Lands;
    ExpandPlain(Captured(e.env, m), e.matches[i].set_);
    FiredEventStays(e, labels, i, m);
  }

  /** A set named "$$" never is: it is named "$" the second time. */
  lemma DollarSetStays(e: Engine, labels: Labels, i: nat, m: Match)
    requires e.Valid() && e.Enabled(MatchFires(i, m)) && e.matches[i].set_ == "$$"
    ensures e.matches[i] in e.Step(labels, MatchFires(i, m)).matches
      <==> Lands(labels, Captured(e.env, m), e.matches[i].target)
  {
    hide Captured, Engine.Step, Lands;
    var env := Captured(e.env, m);
    assert "$$"[2..] == "";
    assert Head(env, "$$") == Piece("$", 2);
    assert Expand(env, "$$") == "$" + Expand(env, "$$"[2..]);
    ExpandPlain(env, "");
    FiredEventStays(e, labels, i, m);
  }

  /** A set named "$matchedString" is named by the match itself. */
  lemma MatchedSetStays(e: Engine, labels: Labels, i: nat, m: Match)
    requires e.Valid() && e.Enabled(MatchFires(i, m)) && e.matches[i].set_ == MATCHED
    requires m.Regex? ==> |m.texts| <= MAX_GROUPS
    ensures var whole := if m.Exact? then m.text else m.texts[0];
      e.matches[i] in e.Step(labels, MatchFires(i, m)).matches
      <==> !IsAll(whole) && whole != MATCHED && Lands(labels, Captured(e.env, m), e.matches[i].target)
  {
    hide Captured, Engine.Step, Lands, Expand, IsAll;
    WholeExpands(e.env, m);
    FiredEventStays(e, labels, i, m);
  }

  // ---- Whole runs ----

  /** `trace` are the engines passed through by the operations, one after the other. */
  ghost predicate Run(labels: Labels, trace: seq<Engine>, ops: seq<Op>) {
    && |trace| == |ops| + 1
    && trace[0].Valid()
    && forall k | 0 <= k < |ops| :: trace[k].Enabled(ops[k]) && trace[k + 1] == trace[k].Step(labels, ops[k])
  }

  lemma {:induction false} RunValid(labels: Labels, trace: seq<Engine>, ops: seq<Op>, n: nat)
    requires Run(labels, trace, ops) && n < |trace|
    ensures trace[n].Valid()
  {
    if n > 0 {
      RunValid(labels, trace, ops, n - 1);
      StepValid(trace[n - 1], labels, ops[n - 1]);
    }
  }

  predicate IsPending(e: Engine, s: Scope) {
    s in e.matches || s in e.timers
  }

  /** The event has been pending since moment `k`, and no call in force then has returned. */
  ghost predicate PendingSince(trace: seq<Engine>, k: nat, n: nat, s: Scope)
    requires k <= n < |trace|
  {
    forall j | k <= j <= n :: IsPending(trace[j], s) && s.frames <= trace[j].stack
  }

  /** An event defined during a run and pending at its end was defined under the very stack that it
      would restore, and that stack has stood ever since. */
  lemma {:induction false} EventHistory(labels: Labels, trace: seq<Engine>, ops: seq<Op>, n: nat, s: Scope)
      returns (k: nat)
    requires Run(labels, trace, ops) && n < |trace|
    requires IsPending(trace[n], s) && !IsPending(trace[0], s)
    ensures 0 < k <= n && (ops[k - 1].AddMatch? || ops[k - 1].AddTimer?)
    ensures trace[k - 1].stack == trace[k].stack == s.frames
    ensures PendingSince(trace, k, n, s) && !IsPending(trace[k - 1], s)
    decreases n
  {
    hide Engine.Step, Engine.Enabled;
    RunValid(labels, trace, ops, n - 1);
    StepOrigin(trace[n - 1], labels, ops[n - 1], s);
    if IsPending(trace[n - 1], s) {
      k := EventHistory(labels, trace, ops, n - 1, s);
    } else {
      k := n;
      Added(trace[n - 1], labels, ops[n - 1]);
    }
  }

  lemma Added(e: Engine, labels: Labels, op: Op)
    requires e.Enabled(op) && (op.AddMatch? || op.AddTimer?)
    ensures e.Step(labels, op).stack == e.stack
  {
  }

  /** Firing takes the script back to the call stack of the moment its event was defined in the run,
      whatever the variables then, if its label is found. */
  lemma FiringRestoresStack(labels: Labels, trace: seq<Engine>, ops: seq<Op>, n: nat, s: Scope) returns (k: nat)
    requires Run(labels, trace, ops) && n < |trace|
    requires IsPending(trace[n], s) && !IsPending(trace[0], s)
    ensures 0 < k <= n && (ops[k - 1].AddMatch? || ops[k - 1].AddTimer?) && PendingSince(trace, k, n, s)
    ensures !IsPending(trace[k - 1], s) && IsPending(trace[k], s)
    ensures forall env | Lands(labels, env, s.target) ::
      trace[n].(env := env).Fire(labels, s).stack == trace[k].stack == trace[k - 1].stack == s.frames
    ensures s.frames <= trace[n].stack
  {
    hide Engine.Step, Engine.Enabled, Engine.Valid, Engine.Fire, Expand, Uncancelled, Within, Lands;
    k := EventHistory(labels, trace, ops, n, s);
    forall env | Lands(labels, env, s.target) ensures trace[n].(env := env).Fire(labels, s).stack == s.frames {
      FireLands(trace[n].(env := env), labels, s);
    }
  }

  lemma FireLands(e: Engine, labels: Labels, s: Scope)
    requires Lands(labels, e.env, s.target)
    ensures e.Fire(labels, s).stack == s.frames
  {
    hide Expand, Uncancelled, Within, Truncated;
  }
}

/** Where a chat script goes on after calls, returns, jumps and events. */
module ChatFlow {
  import opened ChatExpand
  import opened ChatFrames

  /** One operation leaves the stack of calls an extension of the old one, or cuts it to a prefix. */
  lemma StackMoves(e: Engine, labels: Labels, op: Op)
    requires e.Enabled(op) && e.Valid()
    ensures e.stack <= e.Step(labels, op).stack || e.Step(labels, op).stack <= e.stack
  {
    hide Uncancelled, Within, Expand, Captured, Outcome, SetTo, Truncated;
  }

  /** As long as the stack stays above a frame, the frame stays. */
  lemma {:induction false} FrameStays(labels: Labels, trace: seq<Engine>, ops: seq<Op>, k: nat, n: nat,
                                      frames: seq<Frame>)
    requires Run(labels, trace, ops) && k <= n < |trace| && frames <= trace[k].stack
    requires forall j | k <= j <= n :: |trace[j].stack| >= |frames|
    ensures frames <= trace[n].stack
    decreases n
  {
    hide Engine.Step, Engine.Enabled, Engine.Valid;
    if n > k {
      FrameStays(labels, trace, ops, k, n - 1, frames);
      RunValid(labels, trace, ops, n - 1);
      StackMoves(trace[n - 1], labels, ops[n - 1]);
    }
  }

  predicate Calls(e: Engine, labels: Labels, op: Op) {
    op.CallLabel? && Expand(e.env, op.label0) in labels
  }

  /** A call that finds its label goes on there, and remembers where it was. */
  lemma CallGoesOn(e: Engine, labels: Labels, op: Op)
    requires e.Enabled(op) && Calls(e, labels, op)
    ensures var e' := e.Step(labels, op);
      && e'.line == labels[Expand(e.env, op.label0)] && e'.stack == e.stack + [e.line]
      && e'.activity == Running && e'.env == e.env && e'.matches == e.matches && e'.timers == e.timers
  {
    hide Expand;
  }

  /** A return that pops the frame a call has pushed takes the script back to the line and the calls of
      the moment of the call, whatever has happened in between. */
  lemma ReturnRestores(labels: Labels, trace: seq<Engine>, ops: seq<Op>, k: nat, n: nat)
    requires Run(labels, trace, ops) && k < n < |ops|
    requires Calls(trace[k], labels, ops[k]) && ops[n] == ReturnUp
    requires forall j | k < j <= n :: |trace[j].stack| > |trace[k].stack|
    requires |trace[n].stack| == |trace[k].stack| + 1
    ensures trace[n + 1].line == trace[k].line && trace[n + 1].stack == trace[k].stack
    ensures trace[n + 1].activity == Running
  {
    hide Engine.Step, Engine.Enabled, Engine.Valid, Calls;
    CallGoesOn(trace[k], labels, ops[k]);
    var frames := trace[k].stack + [trace[k].line];
    FrameStays(labels, trace, ops, k + 1, n, frames);
    assert trace[n].stack == frames;
    ReturnPops(trace[n], labels);
  }

  lemma ReturnPops(e: Engine, labels: Labels)
    requires e.Enabled(ReturnUp) && e.stack != []
    ensures var e' := e.Step(labels, ReturnUp);
      && e'.line == e.stack[|e.stack| - 1] && e'.stack == e.stack[..|e.stack| - 1] && e'.activity == Running
  {
    hide Within;
  }

  /** A jump goes on at its label, or at the next line for the default label. */
  lemma JumpGoesOn(e: Engine, labels: Labels, label0: string)
    requires e.Enabled(GotoLabel(label0))
    ensures var e', target := e.Step(labels, GotoLabel(label0)), Expand(e.env, label0);
      if target == DEFAULT_LABEL || target in labels
      then e' == e.(line := if target == DEFAULT_LABEL then e.line else labels[target])
      else e'.activity == Idle
  {
    hide Expand;
  }

  /** An event that fires goes on at its target, of which 31 characters count, expanded with the variables
      then in force. */
  lemma FireGoesOn(e: Engine, labels: Labels, s: Scope)
    ensures var target := Expand(e.env, if |s.target| <= 31 then s.target else s.target[..31]);
      var e' := e.Fire(labels, s);
      && (Lands(labels, e.env, s.target) <==> target == "" || target in labels)
      && (Lands(labels, e.env, s.target) && e.activity != Idle ==>
            && e'.activity == Running && e'.stack == s.frames && e'.env == e.env
            && e'.line == if target == "" then e.line else labels[target])
      && (!Lands(labels, e.env, s.target) ==> e'.activity == Idle)
  {
    hide Expand, Uncancelled, Within;
  }

  lemma MatchGoesOn(e: Engine, labels: Labels, i: nat, m: Match)
    requires e.Enabled(MatchFires(i, m)) && Lands(labels, Captured(e.env, m), e.matches[i].target)
    ensures var e', s, env := e.Step(labels, MatchFires(i, m)), e.matches[i], Captured(e.env, m);
      var target := Expand(env, if |s.target| <= 31 then s.target else s.target[..31]);
      && e'.activity == Running && e'.stack == s.frames && e'.env == env
      && e'.line == if target == "" then e.line else labels[target]
  {
    hide Expand, Captured, Engine.Fire, Lands;
    FireGoesOn(e.(env := Captured(e.env, m)), labels, e.matches[i]);
  }

  lemma TimerGoesOn(e: Engine, labels: Labels, i: nat)
    requires e.Enabled(TimerFires(i)) && Lands(labels, e.env, e.timers[i].target)
    ensures var e', s := e.Step(labels, TimerFires(i)), e.timers[i];
      var target := Expand(e.env, if |s.target| <= 31 then s.target else s.target[..31]);
      && e'.activity == Running && e'.stack == s.frames && e'.env == e.env
      && e'.line == if target == "" then e.line else labels[target]
  {
    hide Expand, Engine.Fire, Lands;
    FireGoesOn(e, labels, e.timers[i]);
  }

  /** Nothing else moves the script but reading a line. */
  lemma OthersStay(e: Engine, labels: Labels, op: Op)
    requires e.Enabled(op) && e.Step(labels, op).activity != Idle
    requires !(op.NextLine? || op.CallLabel? || op.GotoLabel? || op.ReturnUp? || op.MatchFires? || op.TimerFires?)
    ensures e.Step(labels, op).line == e.line && e.Step(labels, op).stack == e.stack
  {
    hide Expand, Uncancelled, Outcome, SetTo;
  }

  // ---- The end of a script ----

  /** Which operations end the script: what cannot find its label, has nothing to return to or nothing to
      wait for, and an assignment that fails. */
  lemma EndsExactly(e: Engine, labels: Labels, op: Op)
    requires e.Enabled(op) && e.Valid() && e.activity != Idle
    ensures e.Step(labels, op).activity == Idle <==>
      || op.Ends?
      || (op.CallLabel? && Expand(e.env, op.label0) !in labels)
      || (op.GotoLabel? && Expand(e.env, op.label0) != "" && Expand(e.env, op.label0) !in labels)
      || (op.ReturnUp? && e.stack == [])
      || (op.WaitForEvent? && e.matches == [] && e.timers == [])
      || (op.Assign? && !Outcome(op.reference, Expand(e.env, op.value), false, op.device).Done?)
      || (op.MatchFires? && !Lands(labels, Captured(e.env, op.m), e.matches[op.i].target))
      || (op.TimerFires? && !Lands(labels, e.env, e.timers[op.i].target))
  {
    hide Expand, Uncancelled, Within, Outcome, SetTo, Captured, Truncated;
  }

  // ---- What is pending ----

  lemma AllSpellings(s: string)
    ensures IsAll(s) <==> s in {"all", "All", "aLl", "ALl", "alL", "AlL", "aLL", "ALL"}
  {
    if IsAll(s) {
      assert s == [s[0], s[1], s[2]];
    }
  }

  /** A new match is tried after those before it; a new timer comes first. */
  lemma NewEvents(e: Engine, labels: Labels, set0: string, label0: string)
    requires e.Enabled(AddMatch(set0, label0)) && e.Enabled(AddTimer(set0, label0))
    ensures var s := Scope(Expand(e.env, set0), Expand(e.env, label0), e.stack);
      && e.Step(labels, AddMatch(set0, label0)) == e.(matches := e.matches + [s])
      && e.Step(labels, AddTimer(set0, label0)) == e.(timers := [s] + e.timers)
  {
    hide Expand;
  }

  /** Commands leave every event pending that they do not cancel, and add at most one. */
  lemma PendingAfterCommand(e: Engine, labels: Labels, op: Op, s: Scope)
    requires e.Enabled(op) && e.Valid() && !op.MatchFires? && !op.TimerFires?
    requires e.activity != Idle && e.Step(labels, op).activity != Idle
    ensures var e' := e.Step(labels, op);
      var kept := match op {
        case CancelSet(set0) => !IsAll(Expand(e.env, set0)) && s.set_ != Expand(e.env, set0)
        case ReturnUp => s.frames != e.stack
        case _ => true
      };
      && (s in e'.matches <==>
            (s in e.matches && kept)
            || (op.AddMatch? && s == Scope(Expand(e.env, op.set0), Expand(e.env, op.label0), e.stack)))
      && (s in e'.timers <==>
            (s in e.timers && kept)
            || (op.AddTimer? && s == Scope(Expand(e.env, op.set0), Expand(e.env, op.label0), e.stack)))
  {
    hide Uncancelled, Within, Expand, Outcome, SetTo, IsAll;
    match op {
      case CancelSet(set0) => InCancel(e, set0, s);
      case ReturnUp => ReturnDiscards(e, s);
      case _ =>
    }
  }

  /** An event that fires leaves those pending that are of another set and not of the default one, and were
      defined no deeper than it. */
  lemma PendingAfterFiring(e: Engine, labels: Labels, f: Scope, s: Scope)
    requires e.Valid() && e.activity != Idle && Lands(labels, e.env, f.target)
    ensures var kept := !IsAll(Expand(e.env, f.set_)) && s.set_ != Expand(e.env, f.set_) && s.set_ != ""
                          && s.frames <= f.frames;
      && (s in e.Fire(labels, f).matches <==> s in e.matches && kept)
      && (s in e.Fire(labels, f).timers <==> s in e.timers && kept)
  {
    hide Uncancelled, Within, Expand, Truncated, IsAll;
    var e1 := e.Cancel(f.set_);
    InCancel(e, f.set_, s);
    var e2 := e1.CutTo(f.frames);
    InCut(e1, f.frames, s);
    var e3 := e2.Goto(labels, Truncated(f.target));
    ExpandPlain(e.env, DEFAULT_SET);
    assert !IsAll("") by { AllSpellings(""); }
    InCancel(e3, DEFAULT_SET, s);
  }
}

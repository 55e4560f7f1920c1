/** When a running loop can come to its end. */
module LoopEnd {
  import opened LoopModel

  /** An action of the loop thread, as opposed to a call from outside. */
  ghost predicate ByThread(step: Step) {
    step.Fire? || step.Invoke? || step.Clear? || step.Return? || step.Exit?
  }

  /** The loop thread takes the steps from s to t. */
  ghost predicate Leads(s: State, steps: seq<Step>, t: State)
    decreases |steps|
  {
    if steps == [] then t == s
    else
      && ByThread(steps[0]) && Enabled(s, steps[0]) && Safe(s, steps[0])
      && Leads(Next(s, steps[0]), steps[1..], t)
  }

  /** The loop thread can end the loop without any further call. */
  ghost predicate CanEnd(s: State) {
    exists steps, t :: Leads(s, steps, t) && !t.running
  }

  /** A stop event was accepted and its callback has not run its arm. */
  ghost predicate StopWaits(s: State) {
    exists h :: h in Waiting(s) && h < |s.slots| && s.slots[h].event == LoopStop
  }

  lemma EndsNow(s: State)
    requires !s.running
    ensures CanEnd(s)
  {
    assert Leads(s, [], s);
  }

  lemma StepFirst(s: State, step: Step)
    requires ByThread(step) && Enabled(s, step) && Safe(s, step) && CanEnd(Next(s, step))
    ensures CanEnd(s)
  {
    var steps, t :| Leads(Next(s, step), steps, t) && !t.running;
    assert ([step] + steps)[1..] == steps;
    assert Leads(s, [step] + steps, t);
  }

  // ---- the callback in progress comes to its end ----

  ghost function Remaining(p: Phase): nat {
    match p
    case Idle => 0
    case Cleared(_) => 1
    case Ran(_) => 2
    case Fired(_) => 3
  }

  ghost function Onward(p: Phase): Step {
    match p
    case Fired(_) => Invoke
    case Ran(_) => Clear
    case _ => Return
  }

  lemma OnwardStep(s: State)
    requires Inv(s) && !s.phase.Idle?
    ensures Enabled(s, Onward(s.phase)) && Safe(s, Onward(s.phase)) && ByThread(Onward(s.phase))
    ensures var t := Next(s, Onward(s.phase));
      && Inv(t) && Remaining(t.phase) + 1 == Remaining(s.phase) && t.running == s.running
      && (s.stopping ==> t.stopping)
  {
    hide Inv;
    NextInv(s, Onward(s.phase));
  }

  lemma {:induction false} StoppingEnds(s: State)
    requires Inv(s) && s.running && s.stopping
    ensures CanEnd(s)
    decreases Remaining(s.phase)
  {
    hide Inv, CanEnd;
    if s.phase.Idle? {
      EndsNow(Next(s, Exit));
      StepFirst(s, Exit);
    } else {
      OnwardStep(s);
      StoppingEnds(Next(s, Onward(s.phase)));
      StepFirst(s, Onward(s.phase));
    }
  }

  // ---- a stop event that waits ----

  ghost function BeforeArm(p: Phase, h: nat): nat {
    match p
    case Fired(h') => if h' == h then 0 else 4
    case Idle => 1
    case _ => 1 + Remaining(p)
  }

  /** The next step towards the arm of handle h. */
  ghost function Towards(p: Phase, h: nat): Step {
    if p.Idle? then Fire(h) else Onward(p)
  }

  lemma {:induction false} WaitingEnds(s: State, h: nat)
    requires Inv(s) && s.running && h in Waiting(s) && h < |s.slots| && s.slots[h].event == LoopStop
    ensures CanEnd(s)
    decreases BeforeArm(s.phase, h)
  {
    hide Inv, CanEnd, Waiting;
    TowardsStep(s, h);
    var step := Towards(s.phase, h);
    if s.phase == Fired(h) {
      StoppingEnds(Next(s, step));
    } else {
      WaitingEnds(Next(s, step), h);
    }
    StepFirst(s, step);
  }

  lemma TowardsStep(s: State, h: nat)
    requires Inv(s) && s.running && h in Waiting(s) && h < |s.slots| && s.slots[h].event == LoopStop
    ensures var step := Towards(s.phase, h); Enabled(s, step) && Safe(s, step) && ByThread(step)
    ensures var t := Next(s, Towards(s.phase, h));
      && Inv(t) && t.running
      && if s.phase == Fired(h) then t.stopping
         else && h in Waiting(t) && h < |t.slots| && t.slots[h].event == LoopStop
              && BeforeArm(t.phase, h) < BeforeArm(s.phase, h)
  {
    var step := Towards(s.phase, h);
    HandleAt(s, h);
    StepWaiting(s, step);
    hide Inv, Waiting;
  }

  lemma HandleAt(s: State, h: nat)
    requires Inv(s) && h in Waiting(s)
    ensures s.phase.Idle? ==> h in s.pending
    ensures !s.phase.Idle? && s.phase.h == h ==> s.phase.Fired?
  {}

  // ---- nothing else ends it ----

  lemma {:induction false} NotStopped(s: State, steps: seq<Step>, t: State)
    requires Inv(s) && s.running && !s.stopping && !StopWaits(s) && Leads(s, steps, t)
    ensures t.running
    decreases |steps|
  {
    if steps != [] {
      NoStopAppears(s, steps[0]);
      hide Inv, StopWaits;
      NotStopped(Next(s, steps[0]), steps[1..], t);
    }
  }

  lemma NoStopAppears(s: State, step: Step)
    requires Inv(s) && s.running && !s.stopping && !StopWaits(s) && ByThread(step) && Enabled(s, step) && Safe(s, step)
    ensures var t := Next(s, step); Inv(t) && t.running && !t.stopping && !StopWaits(t)
  {
    hide Inv;
    StepWaiting(s, step);
    var t := Next(s, step);
    if step.Invoke? {
      assert s.phase.h in Waiting(s);
    }
    forall h | h in Waiting(t) && h < |t.slots| ensures t.slots[h].event != LoopStop {
      assert h in Waiting(s);
    }
  }

  lemma EndsIff(s: State)
    requires Inv(s) && s.running
    ensures CanEnd(s) <==> s.stopping || StopWaits(s)
  {
    hide Inv, Waiting;
    if s.stopping {
      StoppingEnds(s);
    } else if StopWaits(s) {
      var h :| h in Waiting(s) && h < |s.slots| && s.slots[h].event == LoopStop;
      WaitingEnds(s, h);
    } else {
      forall steps, t | Leads(s, steps, t) ensures t.running {
        NotStopped(s, steps, t);
      }
    }
  }

  /** In every state of every run, the loop thread can end a running loop without
      any further call, if and only if uv_stop was called or a stop event waits. */
  lemma CanEndIff(states: seq<State>, steps: seq<Step>, n: nat)
    requires IsRun(states, steps) && n < |states| && states[n].running
    ensures CanEnd(states[n]) <==> states[n].stopping || StopWaits(states[n])
  {
    hide Inv, CanEnd, StopWaits;
    RunInv(states, steps, n);
    EndsIff(states[n]);
  }

  // ---- a call of stop that is lost ----

  /** After a call of stop a running loop can end, if and only if a handle was
      free, or it could end already. */
  lemma StopHeededIff(states: seq<State>, steps: seq<Step>, n: nat)
    requires IsRun(states, steps) && n < |steps| && steps[n] == DoStop && states[n].running
    ensures CanEnd(states[n + 1]) <==> states[n].free != [] || CanEnd(states[n])
  {
    RunInv(states, steps, n);
    RunInv(states, steps, n + 1);
    StopTaken(states[n]);
    hide Inv, CanEnd, StopWaits;
    EndsIff(states[n + 1]);
  }

  lemma StopTaken(s: State)
    requires Inv(s) && Safe(s, DoStop)
    ensures var t := Next(s, DoStop);
      && t.running == s.running
      && (s.free != [] ==> StopWaits(t)) && (s.free == [] ==> t == s)
  {
    if s.free != [] {
      TakeFront(s, Next(s, DoStop));
    }
  }

  ghost predicate Reachable(s: State) {
    exists states, steps :: IsRun(states, steps) && states[|steps|] == s
  }

  lemma ReachInit()
    ensures Reachable(Init())
  {
    assert IsRun([Init()], []);
  }

  lemma ReachNext(s: State, step: Step)
    requires Reachable(s) && Enabled(s, step)
    ensures Safe(s, step) && Reachable(Next(s, step))
  {
    hide Enabled, Safe, Next, Inv;
    var states, steps :| IsRun(states, steps) && states[|steps|] == s;
    RunInv(states, steps, |steps|);
    NextInv(s, step);
    RunMore(states, steps, step, Next(s, step));
    assert (states + [Next(s, step)])[|steps + [step]|] == Next(s, step);
  }

  /** Five requests in flight: the call of stop goes unheard, and the loop cannot
      end without another one. */
  lemma StopUnheard() returns (s: State)
    ensures Reachable(s) && s.running && |s.inFlight| == 5
    ensures Enabled(s, DoStop) && Safe(s, DoStop) && Next(s, DoStop) == s && !CanEnd(s)
  {
    ReachInit();
    ReachNext(Init(), Start);
    s := Next(Init(), Start);
    var i := 0;
    while i < 5
      invariant i <= 5 && Reachable(s) && s.running && !s.stopping && |s.free| == 5 - i && s.phase.Idle?
      invariant |s.slots| == UV_ASYNC_HANDLE && forall h <- s.pending :: h < |s.slots| && s.slots[h].event == TimerStart
      invariant forall a :: a in s.accepted ==> a.ticket < i
    {
      ReachNext(s, DoPost(TimerStart, Req(i, Other)));
      s := Next(s, DoPost(TimerStart, Req(i, Other)));
      i := i + 1;
    }
    StuckAt(s);
  }

  lemma StuckAt(s: State)
    requires Reachable(s) && s.running && !s.stopping && s.free == [] && s.phase.Idle?
    requires forall h <- s.pending :: h < |s.slots| ==> s.slots[h].event != LoopStop
    ensures |s.inFlight| == 5 && !CanEnd(s)
  {
    var states, steps :| IsRun(states, steps) && states[|steps|] == s;
    RunInv(states, steps, |steps|);
    AllHandles(s);
    EndsIff(s);
  }
}

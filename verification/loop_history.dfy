/** What the state of the request pool says about the steps that led to it. Each
    field is given by the history alone. */
module LoopHistory {
  import opened LoopModel

  // ---- the flag ----

  /** Step i is the last one before moment n that switches m_bRunning. */
  ghost predicate LastSwitch(steps: seq<Step>, n: nat, i: nat) {
    && i < n <= |steps| && (steps[i].Start? || steps[i].Exit?)
    && forall j: nat :: i < j < n ==> !steps[j].Start? && !steps[j].Exit?
  }

  /** The loop runs if and only if it was started and has not ended since. Neither
      a request nor a stop event ends it by itself. */
  lemma {:induction false} RunsIff(states: seq<State>, steps: seq<Step>, n: nat)
    requires IsRun(states, steps) && n < |states|
    ensures states[n].running <==> exists i: nat :: LastSwitch(steps, n, i) && steps[i].Start?
  {
    hide Inv, Enabled, Safe, Next;
    if n > 0 {
      RunsIff(states, steps, n - 1);
      RunInv(states, steps, n - 1);
      SwitchStep(states[n - 1], steps[n - 1]);
      if steps[n - 1].Start? || steps[n - 1].Exit? {
        assert LastSwitch(steps, n, n - 1);
      } else {
        forall i: nat ensures LastSwitch(steps, n, i) <==> LastSwitch(steps, n - 1, i) {}
      }
    }
  }

  lemma SwitchStep(s: State, step: Step)
    requires Safe(s, step)
    ensures Next(s, step).running == if step.Start? then true else if step.Exit? then false else s.running
  {}

  // ---- uv_stop ----

  /** Step i begins a switch arm whose slot holds a stop event. */
  ghost predicate StopsAt(states: seq<State>, steps: seq<Step>, i: nat) {
    && i < |steps| < |states| && steps[i].Invoke? && states[i].phase.Fired?
    && states[i].phase.h < |states[i].slots| && states[i].slots[states[i].phase.h].event == LoopStop
  }

  /** uv_stop was called if and only if the loop thread has run the arm of a stop
      event. */
  lemma {:induction false} StoppingIff(states: seq<State>, steps: seq<Step>, n: nat)
    requires IsRun(states, steps) && n < |states|
    ensures states[n].stopping <==> exists i: nat :: i < n && StopsAt(states, steps, i)
  {
    if n > 0 {
      StoppingIff(states, steps, n - 1);
      RunInv(states, steps, n - 1);
      hide Inv;
      if states[n].stopping && !states[n - 1].stopping {
        assert StopsAt(states, steps, n - 1);
      }
    }
  }

  // ---- the deque ----

  /** Step i takes a handle from the deque. */
  ghost predicate Takes(states: seq<State>, steps: seq<Step>, i: nat) {
    i < |steps| < |states| && (steps[i].DoPost? || steps[i].DoStop?) && states[i].free != []
  }

  ghost function TakenBy(states: seq<State>, steps: seq<Step>, n: nat): nat {
    if n == 0 then 0 else TakenBy(states, steps, n - 1) + if Takes(states, steps, n - 1) then 1 else 0
  }

  /** The handles that callbacks have given back, in that order. */
  ghost function ReturnedBy(states: seq<State>, steps: seq<Step>, n: nat): seq<nat>
    requires n <= |steps| < |states|
  {
    if n == 0 then []
    else
      var before := ReturnedBy(states, steps, n - 1);
      if steps[n - 1].Return? && !states[n - 1].phase.Idle? then before + [states[n - 1].phase.h] else before
  }

  /** The deque is first in, first out: it began with the five handles in order,
      callbacks add theirs at the back, and requests take from the front. */
  lemma {:induction false} DequeInOrder(states: seq<State>, steps: seq<Step>, n: nat)
    requires IsRun(states, steps) && n < |states|
    ensures var q, k := [0, 1, 2, 3, 4] + ReturnedBy(states, steps, n), TakenBy(states, steps, n);
      k <= |q| && states[n].free == q[k..]
  {
    if n == 0 {
      assert Init().free == [0, 1, 2, 3, 4];
    } else {
      DequeInOrder(states, steps, n - 1);
      RunInv(states, steps, n - 1);
      DequeStep(states[n - 1], steps[n - 1]);
      var q, k := [0, 1, 2, 3, 4] + ReturnedBy(states, steps, n - 1), TakenBy(states, steps, n - 1);
      hide Inv, Next, Safe, Enabled, IsRun;
      if Takes(states, steps, n - 1) {
        DropFirst(q, k);
      } else if steps[n - 1].Return? {
        var h := states[n - 1].phase.h;
        AddLast([0, 1, 2, 3, 4], ReturnedBy(states, steps, n - 1), h, k);
      }
    }
  }

  lemma DequeStep(s: State, step: Step)
    requires Inv(s) && Enabled(s, step) && Safe(s, step)
    ensures var t := Next(s, step);
      && (step.Return? ==> s.phase.Cleared? && t.free == s.free + [s.phase.h])
      && ((step.DoPost? || step.DoStop?) && s.free != [] ==> t.free == s.free[1..])
      && (!step.Return? && !((step.DoPost? || step.DoStop?) && s.free != []) ==> t.free == s.free)
  {}

  lemma DropFirst(q: seq<nat>, k: nat)
    requires k < |q|
    ensures q[k..][1..] == q[k + 1..]
  {}

  lemma AddLast(a: seq<nat>, b: seq<nat>, h: nat, k: nat)
    requires k <= |a + b|
    ensures (a + b)[k..] + [h] == (a + (b + [h]))[k..]
  {}

  // ---- requests ----

  /** The requests that went through AddReq, stop events aside, in that order. */
  ghost function AcceptedBy(states: seq<State>, steps: seq<Step>, n: nat): seq<Req>
    requires n <= |steps| < |states|
  {
    if n == 0 then []
    else
      var before := AcceptedBy(states, steps, n - 1);
      if steps[n - 1].DoPost? && steps[n - 1].e != LoopStop && states[n - 1].free != [] then before + [steps[n - 1].r]
      else before
  }

  lemma {:induction false} AcceptedInOrder(states: seq<State>, steps: seq<Step>, n: nat)
    requires IsRun(states, steps) && n < |states|
    ensures states[n].accepted == AcceptedBy(states, steps, n)
  {
    if n > 0 {
      AcceptedInOrder(states, steps, n - 1);
      RunInv(states, steps, n - 1);
      hide Inv;
    }
  }

  /** The last thing that happened to the closure of handle h before moment n:
      a post or a stop took the handle, or the loop thread cleared the closure. */
  ghost predicate LastOnSlot(states: seq<State>, steps: seq<Step>, n: nat, h: nat, i: nat) {
    && i < n <= |steps| < |states| && OnSlot(states, steps, h, i)
    && forall j: nat :: i < j < n ==> !OnSlot(states, steps, h, j)
  }

  ghost predicate OnSlot(states: seq<State>, steps: seq<Step>, h: nat, i: nat)
    requires i < |steps| < |states|
  {
    || ((steps[i].DoPost? || steps[i].DoStop?) && states[i].free != [] && states[i].free[0] == h)
    || (steps[i].Clear? && states[i].phase.Ran? && states[i].phase.h == h)
  }

  /** What such a step leaves in the slot. */
  ghost predicate Left(step: Step, slot: Slot) {
    match step
    case DoPost(e, r) => slot == Slot(e, Some(r))
    case DoStop => slot == Slot(LoopStop, None)
    case _ => slot.cb == None
  }

  /** The event of a slot is that of the request that last took its handle, and
      the closure that of the last post, unless it was cleared since. */
  lemma {:induction false} SlotIsLast(states: seq<State>, steps: seq<Step>, n: nat, h: nat)
    requires IsRun(states, steps) && n < |states| && h < UV_ASYNC_HANDLE
    ensures h < |states[n].slots|
    ensures forall i: nat :: LastOnSlot(states, steps, n, h, i) ==> Left(steps[i], states[n].slots[h])
    ensures (forall i: nat :: i < n ==> !OnSlot(states, steps, h, i)) ==> states[n].slots[h].cb == None
  {
    hide Inv, Next, Safe, Enabled, Left, OnSlot;
    if n > 0 {
      SlotIsLast(states, steps, n - 1, h);
      RunInv(states, steps, n - 1);
      SlotStep(states, steps, n - 1, h);
      if OnSlot(states, steps, h, n - 1) {
        forall i: nat | LastOnSlot(states, steps, n, h, i) ensures i == n - 1 {}
      } else {
        forall i: nat | LastOnSlot(states, steps, n, h, i) ensures LastOnSlot(states, steps, n - 1, h, i) {}
      }
    }
  }

  lemma SlotStep(states: seq<State>, steps: seq<Step>, n: nat, h: nat)
    requires n < |steps| < |states| && h < UV_ASYNC_HANDLE
    requires var s, step := states[n], steps[n];
      Inv(s) && Enabled(s, step) && Safe(s, step) && states[n + 1] == Next(s, step)
    ensures h < |states[n].slots| == |states[n + 1].slots|
    ensures if OnSlot(states, steps, h, n) then Left(steps[n], states[n + 1].slots[h])
            else states[n + 1].slots[h] == states[n].slots[h]
  {}

  /** Step i takes handle h. */
  ghost predicate TakesHandle(states: seq<State>, steps: seq<Step>, h: nat, i: nat) {
    Takes(states, steps, i) && states[i].free[0] == h
  }

  ghost predicate LastTake(states: seq<State>, steps: seq<Step>, n: nat, h: nat, i: nat) {
    && i < n <= |steps| && TakesHandle(states, steps, h, i)
    && forall j: nat :: i < j < n ==> !TakesHandle(states, steps, h, j)
  }

  /** Clearing the closure does not touch the event. */
  lemma {:induction false} EventIsLast(states: seq<State>, steps: seq<Step>, n: nat, h: nat)
    requires IsRun(states, steps) && n < |states| && h < UV_ASYNC_HANDLE
    ensures h < |states[n].slots|
    ensures forall i: nat :: LastTake(states, steps, n, h, i) ==>
              states[n].slots[h].event == if steps[i].DoPost? then steps[i].e else LoopStop
  {
    hide Inv, Next, Safe, Enabled, TakesHandle;
    if n > 0 {
      EventIsLast(states, steps, n - 1, h);
      RunInv(states, steps, n - 1);
      EventStep(states, steps, n - 1, h);
      if TakesHandle(states, steps, h, n - 1) {
        forall i: nat | LastTake(states, steps, n, h, i) ensures i == n - 1 {}
      } else {
        forall i: nat | LastTake(states, steps, n, h, i) ensures LastTake(states, steps, n - 1, h, i) {}
      }
    }
  }

  lemma EventStep(states: seq<State>, steps: seq<Step>, n: nat, h: nat)
    requires n < |steps| < |states| && h < UV_ASYNC_HANDLE
    requires var s, step := states[n], steps[n];
      Inv(s) && Enabled(s, step) && Safe(s, step) && states[n + 1] == Next(s, step)
    ensures h < |states[n].slots| == |states[n + 1].slots|
    ensures states[n + 1].slots[h].event ==
            if !TakesHandle(states, steps, h, n) then states[n].slots[h].event
            else if steps[n].DoPost? then steps[n].e else LoopStop
  {}

  // ---- callbacks ----

  /** Where the loop thread is follows from its own steps: a callback begins, runs
      its arm, clears the closure and gives the handle back, in this order. */
  ghost function ThreadAt(steps: seq<Step>, n: nat): Phase
    requires n <= |steps|
  {
    if n == 0 then Idle
    else
      var before := ThreadAt(steps, n - 1);
      match steps[n - 1]
      case Fire(h) => Fired(h)
      case Invoke => if before.Idle? then Idle else Ran(before.h)
      case Clear => if before.Idle? then Idle else Cleared(before.h)
      case Return => Idle
      case _ => before
  }

  lemma {:induction false} PhaseIsLast(states: seq<State>, steps: seq<Step>, n: nat)
    requires IsRun(states, steps) && n < |states|
    ensures states[n].phase == ThreadAt(steps, n)
  {
    if n > 0 {
      PhaseIsLast(states, steps, n - 1);
      RunInv(states, steps, n - 1);
      hide Inv;
    }
  }

  /** The last uv_async_send or callback of handle h before moment n. */
  ghost predicate LastSignal(states: seq<State>, steps: seq<Step>, n: nat, h: nat, i: nat) {
    && i < n <= |steps| < |states| && Signal(states, steps, h, i)
    && forall j: nat :: i < j < n ==> !Signal(states, steps, h, j)
  }

  ghost predicate Signal(states: seq<State>, steps: seq<Step>, h: nat, i: nat)
    requires i < |steps| < |states|
  {
    || steps[i] == Fire(h)
    || ((steps[i].DoPost? || steps[i].DoStop?) && states[i].free != [] && states[i].free[0] == h)
  }

  /** A handle is pending if and only if uv_async_send was called for it and its
      callback has not begun since. */
  lemma {:induction false} PendingIff(states: seq<State>, steps: seq<Step>, n: nat, h: nat)
    requires IsRun(states, steps) && n < |states|
    ensures h in states[n].pending <==> exists i: nat :: LastSignal(states, steps, n, h, i) && !steps[i].Fire?
  {
    hide Inv, Next, Safe, Enabled;
    if n > 0 {
      PendingIff(states, steps, n - 1, h);
      RunInv(states, steps, n - 1);
      PendingStep(states[n - 1], steps[n - 1], h);
      if Signal(states, steps, h, n - 1) {
        assert LastSignal(states, steps, n, h, n - 1);
      } else {
        forall i: nat ensures LastSignal(states, steps, n, h, i) <==> LastSignal(states, steps, n - 1, h, i) {}
      }
    }
  }

  lemma PendingStep(s: State, step: Step, h: nat)
    requires Inv(s) && Enabled(s, step) && Safe(s, step)
    ensures var t, sent := Next(s, step), (step.DoPost? || step.DoStop?) && s.free != [] && s.free[0] == h;
      h in t.pending <==> sent || (h in s.pending && step != Fire(h))
  {}

  /** The closures run, in that order: those the slots held when their arm began. */
  ghost function StartedBy(states: seq<State>, steps: seq<Step>, n: nat): seq<Req>
    requires n <= |steps| < |states|
  {
    if n == 0 then []
    else
      var before := StartedBy(states, steps, n - 1);
      if steps[n - 1].Invoke? && !StopsAt(states, steps, n - 1) then before + Run(states[n - 1]) else before
  }

  /** The closure at the slot being fired. */
  ghost function Run(s: State): seq<Req> {
    if s.phase.Fired? && s.phase.h < |s.slots| && s.slots[s.phase.h].cb.Some? then [s.slots[s.phase.h].cb.value] else []
  }

  lemma {:induction false} StartedInOrder(states: seq<State>, steps: seq<Step>, n: nat)
    requires IsRun(states, steps) && n < |states|
    ensures states[n].started == StartedBy(states, steps, n)
  {
    if n > 0 {
      StartedInOrder(states, steps, n - 1);
      RunInv(states, steps, n - 1);
      hide Inv;
    }
  }
}

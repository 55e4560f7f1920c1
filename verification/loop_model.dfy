/** The request pool of libuvcpp/loop.cpp as a state machine. Every step is one
    atomic action: a section under m_lockAsync, or one action of the loop thread.
    Steps of different threads may interleave in any way, and a closure that is
    being run may itself post. */
module LoopModel {

  const UV_ASYNC_HANDLE := 5

  datatype Option<T> = None | Some(value: T)

  datatype Event =
    | LoopStop | TcpConnect | TcpClose | TcpWrite | TcpListen
    | TimerStart | TimerStop | TcpReadStart | TcpReadStop

  /** What a posted closure does: a tcpWrite of some send record, or another call. */
  datatype Action = Write(rec: nat) | Other

  /** A closure handed to AddReq; the ticket tells one call from another. */
  datatype Req = Req(ticket: nat, action: Action)

  datatype Err = NoErr | Busy | Stopped

  /** eEvent and tcb of one stAsync. */
  datatype Slot = Slot(event: Event, cb: Option<Req>)

  /** Where the loop thread is: between callbacks, at the switch, after the
      switch arm has run the closure or called uv_stop, after tcb = nullptr. */
  datatype Phase = Idle | Fired(h: nat) | Ran(h: nat) | Cleared(h: nat)

  datatype State = State(
    running: bool,              // m_bRunning
    stopping: bool,             // uv_stop was called
    slots: seq<Slot>,
    free: seq<nat>,             // m_dAsync
    inFlight: map<nat, nat>,    // m_mapAsync
    pending: set<nat>,          // handles with an uv_async_send not yet seen
    phase: Phase,
    accepted: seq<Req>,         // every non-stop request accepted so far
    started: seq<Req>)          // every closure run so far

  function Init(): State {
    State(false, false, seq(UV_ASYNC_HANDLE, i => Slot(LoopStop, None)),
          seq(UV_ASYNC_HANDLE, i requires 0 <= i => i), map[], {}, Idle, [], [])
  }

  // ---- the invariant ----

  ghost predicate Distinct(q: seq<nat>) {
    forall i, j :: 0 <= i < j < |q| ==> q[i] != q[j]
  }

  /** The handle whose callback has begun, if any. */
  ghost function BeingFired(s: State): set<nat> {
    if s.phase.Idle? then {} else {s.phase.h}
  }

  /** Handles with a request that is accepted and not yet started. */
  ghost function Waiting(s: State): set<nat> {
    s.pending + if s.phase.Fired? then {s.phase.h} else {}
  }

  ghost predicate Partition(s: State) {
    && |s.slots| == UV_ASYNC_HANDLE
    && Distinct(s.free)
    && (forall i :: 0 <= i < |s.free| ==> s.free[i] < UV_ASYNC_HANDLE)
    && (forall h <- s.inFlight :: s.inFlight[h] == h)
    && (forall h :: h in s.free ==> h !in s.inFlight)
    && (forall h :: 0 <= h < UV_ASYNC_HANDLE <==> h in s.free || h in s.inFlight)
    && s.inFlight.Keys == s.pending + BeingFired(s)
    && s.pending !! BeingFired(s)
  }

  ghost predicate Closures(s: State)
    requires Partition(s)
  {
    && (forall h :: h in s.free ==> s.slots[h].cb == None)
    && (s.phase.Cleared? ==> s.slots[s.phase.h].cb == None)
    && (forall h <- Waiting(s) :: s.slots[h].event != LoopStop ==> s.slots[h].cb.Some?)
  }

  /** How many of the first n handles wait with closure r, stop events aside. */
  ghost function Waits(slots: seq<Slot>, waiting: set<nat>, n: nat, r: Req): nat
    requires n <= |slots|
  {
    if n == 0 then 0
    else Waits(slots, waiting, n - 1, r) + One(slots[n - 1], (n - 1) in waiting, r)
  }

  ghost function One(slot: Slot, waits: bool, r: Req): nat {
    if waits && slot.event != LoopStop && slot.cb == Some(r) then 1 else 0
  }

  ghost function Times(q: seq<Req>, r: Req): nat {
    multiset(q)[r]
  }

  /** No request is lost and none runs twice: every accepted request has either
      been started or waits at one handle, and was accepted once. */
  ghost predicate Conserved(s: State) {
    forall r :: Times(s.accepted, r) <= 1 &&
                Times(s.accepted, r) == Times(s.started, r) + Waits(s.slots, Waiting(s), |s.slots|, r)
  }

  ghost predicate Inv(s: State) {
    Partition(s) && Closures(s) && Conserved(s)
  }

  // ---- the steps ----

  /** The section under the lock in AddReq. */
  ghost function Post(s: State, e: Event, r: Req): State
    requires s.free != [] ==> s.free[0] < |s.slots|
  {
    if s.free == [] then s
    else
      var h := s.free[0];
      s.(free := s.free[1..], slots := s.slots[h := Slot(e, Some(r))],
         inFlight := s.inFlight[h := h], pending := s.pending + {h},
         accepted := if e == LoopStop then s.accepted else s.accepted + [r])
  }

  /** What AddReq returns, given the value it read of m_bRunning. */
  ghost function PostResult(s: State, sawRunning: bool): Err {
    if !sawRunning then Stopped else if s.free == [] then Busy else NoErr
  }

  /** The section under the lock in stop: the closure of the slot is not set. */
  ghost function PostStop(s: State): State
    requires s.free != [] ==> s.free[0] < |s.slots|
  {
    if s.free == [] then s
    else
      var h := s.free[0];
      s.(free := s.free[1..], slots := s.slots[h := s.slots[h].(event := LoopStop)],
         inFlight := s.inFlight[h := h], pending := s.pending + {h})
  }

  datatype Step =
    | Start
    | DoPost(e: Event, r: Req)
    | DoStop
    | Fire(h: nat)
    | Invoke
    | Clear
    | Return
    | Exit

  ghost predicate Enabled(s: State, step: Step) {
    match step
    case Start => !s.running
    case DoPost(e, r) => r !in s.accepted
    case DoStop => true
    case Fire(h) => s.phase == Idle && h in s.pending && s.running
    case Invoke => s.phase.Fired?
    case Clear => s.phase.Ran?
    case Return => s.phase.Cleared?
    case Exit => s.phase == Idle && s.stopping && s.running
  }

  /** What the program takes for granted in a step: the deque holds slots, the
      callback has a closure to run, and it finds its handle in m_mapAsync. */
  ghost predicate Safe(s: State, step: Step) {
    match step
    case DoPost(_, _) => s.free != [] ==> s.free[0] < |s.slots|
    case DoStop => s.free != [] ==> s.free[0] < |s.slots|
    case Invoke =>
      && s.phase.Fired? && s.phase.h < |s.slots|
      && (s.slots[s.phase.h].event != LoopStop ==> s.slots[s.phase.h].cb.Some?)
    case Clear => s.phase.Ran? && s.phase.h < |s.slots|
    case Return => s.phase.Cleared? && s.phase.h in s.inFlight
    case _ => true
  }

  ghost function Next(s: State, step: Step): State
    requires Safe(s, step)
  {
    match step
    case Start => s.(running := true)
    case DoPost(e, r) => Post(s, e, r)
    case DoStop => PostStop(s)
    case Fire(h) => s.(pending := s.pending - {h}, phase := Fired(h))
    case Invoke =>
      var slot := s.slots[s.phase.h];
      if slot.event == LoopStop then s.(stopping := true, phase := Ran(s.phase.h))
      else s.(started := s.started + [slot.cb.value], phase := Ran(s.phase.h))
    case Clear =>
      s.(slots := s.slots[s.phase.h := s.slots[s.phase.h].(cb := None)], phase := Cleared(s.phase.h))
    case Return =>
      s.(free := s.free + [s.inFlight[s.phase.h]], inFlight := s.inFlight - {s.phase.h}, phase := Idle)
    case Exit => s.(running := false)
  }

  lemma {:induction false} WaitsChanged(slots: seq<Slot>, w: set<nat>, slots': seq<Slot>, w': set<nat>, h: nat,
                                        n: nat, r: Req)
    requires n <= |slots| == |slots'| && h < |slots|
    requires forall i :: 0 <= i < |slots| && i != h ==> slots'[i] == slots[i] && (i in w' <==> i in w)
    ensures Waits(slots', w', n, r) ==
            Waits(slots, w, n, r) + if h < n then One(slots'[h], h in w', r) - One(slots[h], h in w, r) else 0
  {
    if n > 0 {
      WaitsChanged(slots, w, slots', w', h, n - 1, r);
    }
  }

  lemma {:induction false} NoneWaits(slots: seq<Slot>, n: nat, r: Req)
    requires n <= |slots|
    ensures Waits(slots, {}, n, r) == 0
  {
    if n > 0 {
      NoneWaits(slots, n - 1, r);
    }
  }

  lemma Appended(q: seq<Req>, x: Req, r: Req)
    ensures Times(q + [x], r) == Times(q, r) + if x == r then 1 else 0
    ensures x !in q ==> Times(q, x) == 0
  {}

  /** Only the slot and the state of handle h change: the bookkeeping balances. */
  lemma Balanced(s: State, s': State, h: nat)
    requires Conserved(s) && |s'.slots| == |s.slots| && h < |s.slots|
    requires forall i :: 0 <= i < |s.slots| && i != h ==>
             s'.slots[i] == s.slots[i] && (i in Waiting(s') <==> i in Waiting(s))
    requires forall r :: Times(s'.accepted, r) <= 1
    requires forall r ::
      Times(s'.accepted, r) - Times(s.accepted, r) ==
      Times(s'.started, r) - Times(s.started, r)
      + One(s'.slots[h], h in Waiting(s'), r) - One(s.slots[h], h in Waiting(s), r)
    ensures Conserved(s')
  {
    forall r ensures Times(s'.accepted, r) == Times(s'.started, r) + Waits(s'.slots, Waiting(s'), |s'.slots|, r) {
      WaitsChanged(s.slots, Waiting(s), s'.slots, Waiting(s'), h, |s.slots|, r);
    }
  }

  lemma InitInv()
    ensures Inv(Init())
  {
    forall r ensures Waits(Init().slots, {}, UV_ASYNC_HANDLE, r) == 0 {
      NoneWaits(Init().slots, UV_ASYNC_HANDLE, r);
    }
    assert Init().free == [0, 1, 2, 3, 4] && Waiting(Init()) == {};
  }

  /** The front handle leaves the deque for the map. */
  lemma TakeFront(s: State, s': State)
    requires Partition(s) && s.free != []
    requires |s'.slots| == |s.slots| && s'.free == s.free[1..] && s'.inFlight == s.inFlight[s.free[0] := s.free[0]]
    requires s'.pending == s.pending + {s.free[0]} && s'.phase == s.phase
    ensures Partition(s')
    ensures s.free[0] !in Waiting(s) && Waiting(s') == Waiting(s) + {s.free[0]}
    ensures forall h :: h in s'.free ==> h in s.free && h != s.free[0]
  {}

  lemma PostInv(s: State, e: Event, r: Req)
    requires Inv(s) && r !in s.accepted
    ensures Inv(Post(s, e, r))
  {
    if s.free != [] {
      var s' := Post(s, e, r);
      TakeFront(s, s');
      PostConserved(s, e, r);
    }
  }

  lemma PostConserved(s: State, e: Event, r: Req)
    requires Inv(s) && r !in s.accepted && s.free != [] && Waiting(Post(s, e, r)) == Waiting(s) + {s.free[0]}
    requires s.free[0] !in Waiting(s)
    ensures Conserved(Post(s, e, r))
  {
    var s' := Post(s, e, r);
    forall x ensures Times(s'.accepted, x) == Times(s.accepted, x) + One(s'.slots[s.free[0]], true, x)
             ensures Times(s'.accepted, x) <= 1 {
      Appended(s.accepted, r, x);
    }
    Balanced(s, s', s.free[0]);
  }

  lemma PostStopInv(s: State)
    requires Inv(s)
    ensures Inv(PostStop(s))
  {
    if s.free != [] {
      var s' := PostStop(s);
      TakeFront(s, s');
      Balanced(s, s', s.free[0]);
    }
  }

  lemma FireInv(s: State, h: nat)
    requires Inv(s) && Enabled(s, Fire(h))
    ensures Safe(s, Fire(h)) && Inv(Next(s, Fire(h)))
  {
    assert Waiting(Next(s, Fire(h))) == Waiting(s);
  }

  lemma InvokeInv(s: State)
    requires Inv(s) && Enabled(s, Invoke)
    ensures Safe(s, Invoke) && Inv(Next(s, Invoke))
  {
    hide Conserved;
    InvokeConserved(s);
  }

  /** The closure that starts no longer waits. */
  lemma InvokeConserved(s: State)
    requires Inv(s) && Enabled(s, Invoke) && Safe(s, Invoke)
    ensures Conserved(Next(s, Invoke))
  {
    var s', slot := Next(s, Invoke), s.slots[s.phase.h];
    assert Waiting(s') == Waiting(s) - {s.phase.h};
    if slot.event != LoopStop {
      forall x ensures Times(s'.started, x) == Times(s.started, x) + One(slot, true, x) {
        Appended(s.started, slot.cb.value, x);
      }
    }
    Balanced(s, s', s.phase.h);
  }

  lemma ClearInv(s: State)
    requires Inv(s) && Enabled(s, Clear)
    ensures Safe(s, Clear) && Inv(Next(s, Clear))
  {
    Balanced(s, Next(s, Clear), s.phase.h);
  }

  lemma ReturnInv(s: State)
    requires Inv(s) && Enabled(s, Return)
    ensures Safe(s, Return) && Inv(Next(s, Return))
  {
    var s', h := Next(s, Return), s.phase.h;
    assert forall x :: x in s'.free <==> x == h || x in s.free;
    assert s'.inFlight.Keys == s.inFlight.Keys - {h};
    assert Waiting(s') == Waiting(s);
  }

  lemma NextInv(s: State, step: Step)
    requires Inv(s) && Enabled(s, step)
    ensures Safe(s, step) && Inv(Next(s, step))
  {
    match step
    case DoPost(e, r) => PostInv(s, e, r);
    case DoStop => PostStopInv(s);
    case Fire(h) => FireInv(s, h);
    case Invoke => InvokeInv(s);
    case Clear => ClearInv(s);
    case Return => ReturnInv(s);
    case Start =>
    case Exit =>
  }

  // ---- whole runs ----

  /** Any interleaving: at each point some enabled step is taken. Nothing is
      said about a state reached by an unsafe step. */
  ghost predicate IsRun(states: seq<State>, steps: seq<Step>) {
    && |states| == |steps| + 1 && states[0] == Init()
    && forall i :: 0 <= i < |steps| ==>
         Enabled(states[i], steps[i]) && (Safe(states[i], steps[i]) ==> states[i + 1] == Next(states[i], steps[i]))
  }

  lemma {:induction false} RunInv(states: seq<State>, steps: seq<Step>, n: nat)
    requires IsRun(states, steps) && n < |states|
    ensures Inv(states[n])
    ensures n < |steps| ==> Safe(states[n], steps[n])
  {
    if n == 0 {
      InitInv();
    } else {
      RunInv(states, steps, n - 1);
      NextInv(states[n - 1], steps[n - 1]);
    }
    if n < |steps| {
      NextInv(states[n], steps[n]);
    }
  }

  lemma RunMore(states: seq<State>, steps: seq<Step>, step: Step, s: State)
    requires IsRun(states, steps) && Enabled(states[|steps|], step) && Safe(states[|steps|], step)
    requires s == Next(states[|steps|], step)
    ensures IsRun(states + [s], steps + [step])
  {
    hide Enabled, Safe, Next;
    var states', steps' := states + [s], steps + [step];
    forall i | 0 <= i < |steps'|
      ensures Enabled(states'[i], steps'[i])
      ensures Safe(states'[i], steps'[i]) ==> states'[i + 1] == Next(states'[i], steps'[i])
    {
      if i < |steps| {
        assert states'[i] == states[i] && states'[i + 1] == states[i + 1] && steps'[i] == steps[i];
      } else {
        assert states'[i] == states[|steps|] && states'[i + 1] == s && steps'[i] == step;
      }
    }
  }

  /** Outside the lock, in any run: the deque and the map share out the five
      handles; those in the map are the pending ones and the one being fired. */
  lemma HandlesPartitioned(states: seq<State>, steps: seq<Step>, n: nat)
    requires IsRun(states, steps) && n < |states|
    ensures var s := states[n];
      && Distinct(s.free) && (forall h :: h in s.free ==> h !in s.inFlight)
      && (forall h :: h in s.free || h in s.inFlight <==> 0 <= h < UV_ASYNC_HANDLE)
      && s.inFlight.Keys == s.pending + BeingFired(s) && s.pending !! BeingFired(s)
      && |s.free| + |s.inFlight| == UV_ASYNC_HANDLE
  {
    RunInv(states, steps, n);
    FreeCount(states[n]);
  }

  ghost function Elements(q: seq<nat>): (e: set<nat>)
    ensures forall x :: x in e <==> x in q
  {
    if q == [] then {} else Elements(q[..|q| - 1]) + {q[|q| - 1]}
  }

  lemma {:induction false} DistinctSize(q: seq<nat>)
    requires Distinct(q)
    ensures |Elements(q)| == |q|
  {
    if q != [] {
      DistinctSize(q[..|q| - 1]);
    }
  }

  ghost function Below(n: nat): (b: set<nat>)
    ensures forall x: nat :: x in b <==> x < n
    ensures |b| == n
  {
    if n == 0 then {} else Below(n - 1) + {n - 1}
  }

  lemma FreeCount(s: State)
    requires Partition(s)
    ensures |s.free| + |s.inFlight| == UV_ASYNC_HANDLE
  {
    DistinctSize(s.free);
    UnionSize(Elements(s.free), s.inFlight.Keys, UV_ASYNC_HANDLE);
  }

  /** The deque is empty exactly when all five handles are in flight. */
  lemma AllHandles(s: State)
    requires Inv(s)
    ensures s.free == [] <==> |s.inFlight| == 5
  {
    FreeCount(s);
  }

  lemma UnionSize(a: set<nat>, b: set<nat>, n: nat)
    requires a !! b && forall x: nat :: x in a || x in b <==> x < n
    ensures |a| + |b| == n
  {
    assert a + b == Below(n);
  }

  /** A running loop is busy exactly when five requests are in flight. */
  lemma BusyIffFive(states: seq<State>, steps: seq<Step>, n: nat)
    requires IsRun(states, steps) && n < |states|
    ensures PostResult(states[n], true) == Busy <==> |states[n].inFlight| == 5
    ensures PostResult(states[n], true) == NoErr <==> |states[n].inFlight| < 5
  {
    HandlesPartitioned(states, steps, n);
  }

  /** Every handle in the deque has an empty closure, also while a closure that
      posts is being run. */
  lemma FreeIsEmpty(states: seq<State>, steps: seq<Step>, n: nat, h: nat)
    requires IsRun(states, steps) && n < |states| && h in states[n].free
    ensures h < |states[n].slots| && states[n].slots[h].cb == None
  {
    RunInv(states, steps, n);
  }

  /** uv_async_send is never merged with an earlier one: the handle taken from
      the deque has none outstanding and is not being fired. */
  lemma NeverCoalesced(states: seq<State>, steps: seq<Step>, n: nat)
    requires IsRun(states, steps) && n < |steps| && (steps[n].DoPost? || steps[n].DoStop?) && states[n].free != []
    ensures states[n].free[0] !in states[n].pending && states[n].free[0] !in BeingFired(states[n])
    ensures states[n + 1].pending == states[n].pending + {states[n].free[0]}
  {
    RunInv(states, steps, n);
  }

  /** At most once, and nothing lost: an accepted request has been started once
      and waits nowhere, or has not been started and waits at one handle. */
  lemma AtMostOnce(states: seq<State>, steps: seq<Step>, n: nat, r: Req)
    requires IsRun(states, steps) && n < |states|
    ensures var s := states[n];
      if r in s.accepted then
        || (Times(s.started, r) == 1 && Waits(s.slots, Waiting(s), |s.slots|, r) == 0)
        || (Times(s.started, r) == 0 && Waits(s.slots, Waiting(s), |s.slots|, r) == 1)
      else r !in s.started && Waits(s.slots, Waiting(s), |s.slots|, r) == 0
  {
    RunInv(states, steps, n);
    var s := states[n];
    assert r in s.accepted <==> Times(s.accepted, r) > 0;
    assert r in s.started <==> Times(s.started, r) > 0;
  }

  /** Waiting handles keep waiting with the same slot, but for the one whose
      closure starts; and a handle starts to wait only when it is taken from the
      deque by a post or a stop. */
  ghost predicate WaitingChange(s: State, step: Step, t: State) {
    && |t.slots| == |s.slots|
    && (forall h <- Waiting(s) :: h < |s.slots|)
    && (forall h <- Waiting(s) ::
          if step.Invoke? && !s.phase.Idle? && h == s.phase.h then h !in Waiting(t)
          else h in Waiting(t) && h < |s.slots| && t.slots[h] == s.slots[h])
    && (forall h <- Waiting(t) :: h !in Waiting(s) ==>
          && s.free != [] && h == s.free[0] && h < |s.slots|
          && (step.DoPost? || step.DoStop?)
          && (step.DoPost? ==> t.slots[h] == Slot(step.e, Some(step.r)))
          && (step.DoStop? ==> t.slots[h].event == LoopStop))
    && (step.DoPost? && s.free != [] ==> s.free[0] !in Waiting(s) && s.free[0] in Waiting(t))
  }

  lemma PostWaiting(s: State, step: Step)
    requires Partition(s) && Safe(s, step) && (step.DoPost? || step.DoStop?)
    ensures WaitingChange(s, step, Next(s, step))
  {
    if s.free != [] {
      TakeFront(s, Next(s, step));
    }
  }

  lemma OtherWaiting(s: State, step: Step)
    requires Partition(s) && Enabled(s, step) && Safe(s, step) && !step.DoPost? && !step.DoStop?
    ensures WaitingChange(s, step, Next(s, step))
  {}

  lemma StepWaiting(s: State, step: Step)
    requires Inv(s) && Enabled(s, step)
    ensures Safe(s, step) && Inv(Next(s, step)) && WaitingChange(s, step, Next(s, step))
  {
    NextInv(s, step);
    if step.DoPost? || step.DoStop? {
      PostWaiting(s, step);
    } else {
      OtherWaiting(s, step);
    }
    hide *;
  }
}

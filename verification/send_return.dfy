/** Which send records can come back to m_dSend. */
module SendReturn {
  import opened SafeBuffers
  import opened SendModel

  /** The steps lead from s to t. */
  ghost predicate Leads(s: State, steps: seq<Step>, t: State)
    decreases |steps|
  {
    if steps == [] then t == s
    else Enabled(s, steps[0]) && Safe(s, steps[0]) && Leads(Next(s, steps[0]), steps[1..], t)
  }

  /** Record r is idle in some continuation. */
  ghost predicate CanReturn(s: State, r: nat) {
    exists steps, t :: Leads(s, steps, t) && r in t.dSend
  }

  lemma ReturnNow(s: State, r: nat)
    requires r in s.dSend
    ensures CanReturn(s, r)
  {
    assert Leads(s, [], s);
  }

  lemma StepFirst(s: State, step: Step, r: nat)
    requires Enabled(s, step) && Safe(s, step) && CanReturn(Next(s, step), r)
    ensures CanReturn(s, r)
  {
    var steps, t :| Leads(Next(s, step), steps, t) && r in t.dSend;
    assert ([step] + steps)[1..] == steps;
    assert Leads(s, [step] + steps, t);
  }

  // ---- the callback in progress comes to its end ----

  ghost function Remaining(p: L.Phase): nat {
    match p
    case Idle => 0
    case Cleared(_) => 1
    case Ran(_) => 2
    case Fired(_) => 3
  }

  /** What the loop thread does next in a callback. */
  ghost function Onward(s: State): Step {
    match s.loop.phase
    case Fired(_) => if AtWrite(s.loop) then TcpWrite else OfLoop(L.Invoke)
    case Ran(_) => OfLoop(L.Clear)
    case _ => OfLoop(L.Return)
  }

  lemma OnwardStep(s: State)
    requires Inv(s) && !s.loop.phase.Idle?
    ensures Enabled(s, Onward(s)) && Safe(s, Onward(s)) && Inv(Next(s, Onward(s)))
    ensures var t := Next(s, Onward(s));
      && Remaining(t.loop.phase) + 1 == Remaining(s.loop.phase)
      && t.connected == s.connected && t.loop.running == s.loop.running
      && (Onward(s) == OfLoop(L.Return) ==> t.loop.free != [])
  {
    hide Inv, L.Waiting, L.Partition;
    NextInv(s, Onward(s));
  }

  /** A step that is not about record r leaves it in its stage. */
  ghost predicate Elsewhere(s: State, step: Step, r: nat) {
    || step.SetConnected? || step.OfLoop?
    || (step.TcpWrite? && AtWrite(s.loop) && RecordAt(s.loop) != r)
  }

  lemma StageKept(s: State, step: Step, r: nat)
    requires Inv(s) && Enabled(s, step) && Elsewhere(s, step, r) && r < |s.stages|
    ensures Safe(s, step) && Inv(Next(s, step))
    ensures r < |Next(s, step).stages| && Next(s, step).stages[r] == s.stages[r]
  {
    NextInv(s, step);
    hide Inv, L.Next, L.Waiting;
  }

  // ---- stage by stage ----

  lemma {:induction false} IssuedReturns(s: State, r: nat)
    requires Inv(s) && Held(s, r) && s.stages[r].Issued?
    ensures CanReturn(s, r)
    decreases Remaining(s.loop.phase)
  {
    hide Inv, CanReturn, Next, L.Waiting, AtWrite;
    if s.loop.phase.Idle? {
      Completed(s, r);
      ReturnNow(Next(s, Complete(r)), r);
      StepFirst(s, Complete(r), r);
    } else {
      OnwardStep(s);
      StepOnRecord(s, Onward(s), r);
      IssuedReturns(Next(s, Onward(s)), r);
      StepFirst(s, Onward(s), r);
    }
  }

  lemma Completed(s: State, r: nat)
    requires Inv(s) && Held(s, r) && s.stages[r].Issued? && s.loop.phase.Idle?
    ensures Enabled(s, Complete(r)) && Safe(s, Complete(r)) && r in Next(s, Complete(r)).dSend
  {
    CompleteInv(s, r);
    hide Inv;
  }

  /** What is still to happen before the closure at handle h starts, with a
      connection. */
  ghost function BeforeStart(s: State, h: nat): nat {
    (if s.connected then 0 else 10) + (if s.loop.running then 0 else 5)
    + match s.loop.phase
      case Fired(h') => if h' == h then 0 else 4
      case Idle => 1
      case _ => 1 + Remaining(s.loop.phase)
  }

  lemma {:induction false} PostedReturns(s: State, r: nat)
    requires Inv(s) && Held(s, r) && s.stages[r].Posted?
    ensures CanReturn(s, r)
    decreases BeforeStart(s, s.stages[r].h)
  {
    var h, p := s.stages[r].h, s.loop.phase;
    PostedWaits(s, r);
    hide Inv, CanReturn, Next, L.Waiting, AtWrite, WaitsFor;
    if p.Fired? && p.h == h && s.connected {
      WriteStarts(s, r);
      IssuedReturns(Next(s, TcpWrite), r);
      StepFirst(s, TcpWrite, r);
    } else {
      var step := Towards(s, h);
      TowardsStart(s, r);
      PostedReturns(Next(s, step), r);
      StepFirst(s, step, r);
    }
  }

  /** The next step towards running the closure at handle h. */
  ghost function Towards(s: State, h: nat): Step {
    if !s.connected then SetConnected(true)
    else if !s.loop.running then OfLoop(L.Start)
    else if s.loop.phase.Idle? then OfLoop(L.Fire(h))
    else Onward(s)
  }

  /** A posted record waits at its handle, and no other record does. */
  lemma PostedWaits(s: State, r: nat)
    requires Inv(s) && Held(s, r) && s.stages[r].Posted?
    ensures var h, p := s.stages[r].h, s.loop.phase;
      && (p.Idle? ==> h in s.loop.pending)
      && (p.Fired? && p.h == h ==> AtWrite(s.loop) && RecordAt(s.loop) == r)
      && (!p.Idle? && p.h == h ==> p.Fired?)
      && (AtWrite(s.loop) && p.h != h ==> RecordAt(s.loop) != r)
  {
    FiredWaits(s.loop);
  }

  lemma WriteStarts(s: State, r: nat)
    requires Inv(s) && Held(s, r) && s.stages[r].Posted? && s.connected
    requires AtWrite(s.loop) && RecordAt(s.loop) == r
    ensures Enabled(s, TcpWrite) && Safe(s, TcpWrite) && Inv(Next(s, TcpWrite))
    ensures Held(Next(s, TcpWrite), r) && Next(s, TcpWrite).stages[r].Issued?
  {
    hide Inv, L.Next, L.Waiting;
    NextInv(s, TcpWrite);
  }

  lemma TowardsStart(s: State, r: nat)
    requires Inv(s) && Held(s, r) && s.stages[r].Posted?
    requires var p := s.loop.phase; !(p.Fired? && p.h == s.stages[r].h && s.connected)
    ensures var step := Towards(s, s.stages[r].h); Enabled(s, step) && Safe(s, step)
    ensures var h := s.stages[r].h; var t := Next(s, Towards(s, h));
      && Inv(t) && Held(t, r) && t.stages[r] == s.stages[r] && BeforeStart(t, h) < BeforeStart(s, h)
  {
    var h := s.stages[r].h;
    PostedWaits(s, r);
    hide Inv, L.Waiting, L.Partition, WaitsFor, AtWrite;
    if s.connected && s.loop.running && !s.loop.phase.Idle? {
      OnwardStep(s);
    }
    StageKept(s, Towards(s, h), r);
  }

  /** A ticket that no accepted request has. */
  ghost function FreshTicket(q: seq<L.Req>): (t: nat)
    ensures forall a: L.Req :: a in q ==> a.ticket < t
  {
    if q == [] then 0
    else
      var t := FreshTicket(q[1..]);
      if q[0].ticket < t then t else q[0].ticket + 1
  }

  ghost function BeforePost(s: State): nat {
    if s.loop.running && s.loop.free != [] then 0
    else (if s.loop.running then 0 else 5) + if s.loop.phase.Idle? then 4 else Remaining(s.loop.phase)
  }

  /** The next step towards a free handle. */
  ghost function Draining(s: State): Step {
    if !s.loop.running then OfLoop(L.Start)
    else if s.loop.phase.Idle? then OfLoop(L.Fire(0))
    else Onward(s)
  }

  lemma {:induction false} FilledReturns(s: State, r: nat)
    requires Inv(s) && Held(s, r) && s.stages[r].Filled?
    ensures CanReturn(s, r)
    decreases BeforePost(s)
  {
    hide Inv, CanReturn, Next, L.Waiting, AtWrite;
    if s.loop.running && s.loop.free != [] {
      var step := Submit(r, FreshTicket(s.loop.accepted), true);
      Posts(s, r);
      PostedReturns(Next(s, step), r);
      StepFirst(s, step, r);
    } else {
      Drains(s, r);
      FilledReturns(Next(s, Draining(s)), r);
      StepFirst(s, Draining(s), r);
    }
  }

  lemma Posts(s: State, r: nat)
    requires Inv(s) && Held(s, r) && s.stages[r].Filled? && s.loop.free != []
    ensures var step := Submit(r, FreshTicket(s.loop.accepted), true);
      && Enabled(s, step) && Safe(s, step) && Inv(Next(s, step))
      && Held(Next(s, step), r) && Next(s, step).stages[r].Posted?
  {
    hide Inv, L.Post;
    var t := FreshTicket(s.loop.accepted);
    assert WriteReq(r, t) !in s.loop.accepted;
    NextInv(s, Submit(r, t, true));
  }

  lemma Drains(s: State, r: nat)
    requires Inv(s) && Held(s, r) && s.stages[r].Filled? && BeforePost(s) > 0
    ensures Enabled(s, Draining(s)) && Safe(s, Draining(s))
    ensures var t := Next(s, Draining(s));
      && Inv(t) && Held(t, r) && t.stages[r] == s.stages[r] && BeforePost(t) < BeforePost(s)
  {
    WriteIsPosted(s);
    if s.loop.running && s.loop.phase.Idle? {
      HandlePending(s.loop);
    }
    hide Inv, L.Waiting, L.Partition, AtWrite;
    if s.loop.running && !s.loop.phase.Idle? {
      OnwardStep(s);
    }
    StageKept(s, Draining(s), r);
  }

  lemma WriteIsPosted(s: State)
    requires Inv(s)
    ensures AtWrite(s.loop) ==> RecordAt(s.loop) < |s.stages| && s.stages[RecordAt(s.loop)].Posted?
  {
    FiredWaits(s.loop);
  }

  /** With no handle free and no callback in progress, handle 0 is pending. */
  lemma HandlePending(l: L.State)
    requires L.Inv(l) && l.free == [] && l.phase.Idle?
    ensures 0 in l.pending
  {
    assert 0 in l.free || 0 in l.inFlight;
  }

  lemma ReservedReturns(s: State, r: nat)
    requires Inv(s) && Held(s, r) && s.stages[r].Reserved?
    ensures CanReturn(s, r)
  {
    hide Inv, CanReturn;
    FillInv(s, r, true);
    FilledReturns(Next(s, Fill(r, true)), r);
    StepFirst(s, Fill(r, true), r);
  }

  lemma {:induction false} LostStays(s: State, steps: seq<Step>, t: State, r: nat)
    requires Inv(s) && Held(s, r) && s.stages[r].Lost? && Leads(s, steps, t)
    ensures Inv(t) && Held(t, r) && t.stages[r].Lost? && r !in t.dSend
    decreases |steps|
  {
    if steps != [] {
      hide Inv, Next;
      NextInv(s, steps[0]);
      StepOnRecord(s, steps[0], r);
      LostStays(Next(s, steps[0]), steps[1..], t, r);
    }
  }

  // ---- what never comes back ----

  lemma ReturnsUnlessLost(s: State, r: nat)
    requires Inv(s) && Held(s, r)
    ensures CanReturn(s, r) <==> !s.stages[r].Lost?
  {
    hide Inv, Next;
    match s.stages[r]
    case Reserved(_) => ReservedReturns(s, r);
    case Filled(_, _) => FilledReturns(s, r);
    case Posted(_, _, _) => PostedReturns(s, r);
    case Issued(_, _, _) => IssuedReturns(s, r);
    case Lost(_) =>
      forall steps, t | Leads(s, steps, t) ensures r !in t.dSend {
        LostStays(s, steps, t, r);
      }
  }

  /** In every state of every run, a record in use can come back to m_dSend
      exactly when it has not been lost. */
  lemma CanReturnIff(states: seq<State>, steps: seq<Step>, n: nat, r: nat)
    requires IsRun(states, steps) && n < |states| && Held(states[n], r)
    ensures CanReturn(states[n], r) <==> !states[n].stages[r].Lost?
  {
    hide Inv, Next;
    RunInv(states, steps, n);
    ReturnsUnlessLost(states[n], r);
  }

  /** The steps after which a record that could come back no longer can: AddReq
      refuses its closure, or the closure runs without a connection. */
  ghost predicate Leaks(s: State, step: Step, r: nat) {
    || (step.Submit? && step.r == r && (!step.sawRunning || s.loop.free == []))
    || (step.TcpWrite? && !s.connected && AtWrite(s.loop) && RecordAt(s.loop) == r)
  }

  lemma LeakIff(states: seq<State>, steps: seq<Step>, n: nat, r: nat)
    requires IsRun(states, steps) && n < |steps| && Held(states[n], r) && CanReturn(states[n], r)
    ensures !CanReturn(states[n + 1], r) <==> Leaks(states[n], steps[n], r)
  {
    hide Inv, Next, CanReturn, L.Waiting;
    RunInv(states, steps, n);
    RunInv(states, steps, n + 1);
    ReturnsUnlessLost(states[n], r);
    LostIff(states[n], steps[n], r);
    if Held(states[n + 1], r) {
      ReturnsUnlessLost(states[n + 1], r);
    } else {
      IdleAfter(states[n], steps[n], r);
      ReturnNow(states[n + 1], r);
    }
  }

  lemma IdleAfter(s: State, step: Step, r: nat)
    requires Inv(s) && Enabled(s, step) && Safe(s, step) && Held(s, r) && !Held(Next(s, step), r)
    ensures r in Next(s, step).dSend
  {
    StepOnRecord(s, step, r);
    hide Inv;
  }

  // ---- runs that lose a record ----

  ghost predicate Reachable(s: State) {
    exists states, steps :: IsRun(states, steps) && states[|steps|] == s
  }

  lemma ReachInit()
    ensures Reachable(Init())
  {
    assert IsRun([Init()], []);
  }

  lemma ReachNext(s: State, step: Step)
    requires Reachable(s) && Enabled(s, step)
    ensures Safe(s, step) && Reachable(Next(s, step))
  {
    hide Enabled, Safe, Next, Inv;
    var states, steps :| IsRun(states, steps) && states[|steps|] == s;
    RunInv(states, steps, |steps|);
    NextInv(s, step);
    RunMore(states, steps, step, Next(s, step));
    assert (states + [Next(s, step)])[|steps + [step]|] == Next(s, step);
  }

  /** No record was ever allocated, and a connection is there. */
  ghost predicate Untried(s: State) {
    s.connected && s.entered == 0 && s.bufs == [] && s.stages == [] && s.dSend == [] && s.mapSend == {}
  }

  /** A connected call up to its AddReq, when no record was allocated before. */
  lemma FirstCall(s: State, b: byte) returns (t: State)
    requires Reachable(s) && Untried(s)
    ensures Reachable(t) && t == s.(bufs := [[b]], mapSend := {0}, stages := [Filled([b], true)])
  {
    ReachNext(s, Enter);
    var s1 := Next(s, Enter);
    ReachNext(s1, Reserve([b]));
    var s2 := Next(s1, Reserve([b]));
    assert s2 == s.(bufs := [[]], mapSend := {0}, stages := [Reserved([b])]);
    ReachNext(s2, Fill(0, true));
    t := Next(s2, Fill(0, true));
    assert [] + [b] == [b];
  }

  lemma NoReturn(s: State, r: nat)
    requires Reachable(s) && Held(s, r) && s.stages[r].Lost?
    ensures !CanReturn(s, r)
  {
    hide Inv, CanReturn, Held;
    var states, steps :| IsRun(states, steps) && states[|steps|] == s;
    CanReturnIff(states, steps, |steps|, r);
  }

  /** AddReq refuses the closure of the first call on a connection. */
  lemma FirstCallRefused(s0: State, b: byte) returns (s: State, t: State)
    requires Reachable(s0) && Untried(s0) && forall a :: a in s0.loop.accepted ==> a.ticket < 5
    requires !s0.loop.running || s0.loop.free == []
    ensures Reachable(s) && s.loop == s0.loop && s.stages == [Filled([b], true)]
    ensures var refused := Submit(0, 5, s.loop.running);
      Enabled(s, refused) && Safe(s, refused) && t == Next(s, refused)
    ensures Reachable(t) && t.stages == [Lost([b])] && t.mapSend == {0} && t.dSend == [] && !CanReturn(t, 0)
  {
    s := FirstCall(s0, b);
    assert WriteReq(0, 5) !in s.loop.accepted;
    ReachNext(s, Submit(0, 5, s.loop.running));
    t := Next(s, Submit(0, 5, s.loop.running));
    NoReturn(t, 0);
  }

  /** A record is lost when the loop does not run. */
  lemma LostWhenStopped(b: byte) returns (s: State, t: State)
    ensures Reachable(s) && !s.loop.running && s.stages == [Filled([b], true)]
    ensures var refused := Submit(0, 5, false); Enabled(s, refused) && Safe(s, refused) && t == Next(s, refused)
    ensures Reachable(t) && t.stages == [Lost([b])] && t.mapSend == {0} && t.dSend == [] && !CanReturn(t, 0)
  {
    ReachInit();
    ReachNext(Init(), SetConnected(true));
    s, t := FirstCallRefused(Next(Init(), SetConnected(true)), b);
  }

  /** A record is lost when five other requests are in flight. */
  lemma LostWhenBusy(b: byte) returns (s: State, t: State)
    ensures Reachable(s) && s.loop.running && |s.loop.inFlight| == L.UV_ASYNC_HANDLE && s.stages == [Filled([b], true)]
    ensures var refused := Submit(0, 5, true); Enabled(s, refused) && Safe(s, refused) && t == Next(s, refused)
    ensures Reachable(t) && t.stages == [Lost([b])] && t.mapSend == {0} && t.dSend == [] && !CanReturn(t, 0)
  {
    var s0 := Running();
    var i := 0;
    while i < 5
      invariant i <= 5 && Reachable(s0) && Untried(s0) && s0.loop.running && |s0.loop.free| == 5 - i
      invariant forall a :: a in s0.loop.accepted ==> a.ticket < i
    {
      s0 := OtherPosted(s0, i);
      i := i + 1;
    }
    s, t := FirstCallRefused(s0, b);
    AllInFlight(s);
  }

  lemma Running() returns (s: State)
    ensures Reachable(s) && Untried(s) && s.loop.running && |s.loop.free| == 5 && s.loop.accepted == []
    ensures s.loop == L.Init().(running := true)
  {
    ReachInit();
    ReachNext(Init(), SetConnected(true));
    var s1 := Next(Init(), SetConnected(true));
    ReachNext(s1, OfLoop(L.Start));
    s := Next(s1, OfLoop(L.Start));
  }

  lemma OtherPosted(s: State, i: nat) returns (t: State)
    requires Reachable(s) && s.loop.free != [] && forall a :: a in s.loop.accepted ==> a.ticket < i
    ensures Reachable(t) && t == s.(loop := t.loop) && t.loop.running == s.loop.running
    ensures |t.loop.free| == |s.loop.free| - 1
    ensures forall a :: a in t.loop.accepted ==> a.ticket < i + 1
  {
    var post := OfLoop(L.DoPost(L.TimerStart, L.Req(i, L.Other)));
    ReachNext(s, post);
    t := Next(s, post);
  }

  lemma AllInFlight(s: State)
    requires Reachable(s) && s.loop.free == []
    ensures |s.loop.inFlight| == L.UV_ASYNC_HANDLE
  {
    var states, steps :| IsRun(states, steps) && states[|steps|] == s;
    RunInv(states, steps, |steps|);
    L.FreeCount(s.loop);
  }

  /** A record is lost when the connection goes away between AddReq and the
      closure. */
  lemma LostWhenDisconnected(b: byte) returns (s: State, t: State)
    ensures Reachable(s) && s.stages == [Posted([b], true, 0)] && !s.connected
    ensures AtWrite(s.loop) && RecordAt(s.loop) == 0
    ensures Enabled(s, TcpWrite) && Safe(s, TcpWrite) && t == Next(s, TcpWrite)
    ensures Reachable(t) && t.stages == [Lost([b])] && t.mapSend == {0} && t.dSend == [] && !CanReturn(t, 0)
  {
    hide Inv, CanReturn, Reachable;
    var s0 := Running();
    var s1 := FirstCall(s0, b);
    ReachNext(s1, Submit(0, 0, true));
    var s2 := Next(s1, Submit(0, 0, true));
    assert s2.loop.slots[0] == L.Slot(L.TcpWrite, L.Some(WriteReq(0, 0))) && s2.loop.pending == {0};
    ReachNext(s2, SetConnected(false));
    var s3 := Next(s2, SetConnected(false));
    ReachNext(s3, OfLoop(L.Fire(0)));
    s := Next(s3, OfLoop(L.Fire(0)));
    ReachNext(s, TcpWrite);
    t := Next(s, TcpWrite);
    NoReturn(t, 0);
  }
}

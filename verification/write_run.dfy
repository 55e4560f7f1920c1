/** Any schedule of the sections of connect.cpp and loop.cpp, on one connection
    and one loop in memory. */
module WriteRun {
  import opened SafeBuffers
  import opened SendModel
  import opened UvConnect

  /** What may happen next. The record numbers say which wirteData call, or which
      uv_write, goes on; an action that is not possible is skipped. */
  datatype Action =
    | Connection(b: bool)                 // libuv sets m_bConnectSuccess
    | EnterWrite                          // a wirteData call finds a connection
    | TakeRecord(block: seq<byte>)        // and goes on
    | ReadBlock(r: nat, reallocOk: bool)
    | PostWrite(r: nat)
    | WriteDone(r: nat)                   // the completion callback of uv_write
    | StartLoop
    | Request(e: L.Event)                 // AddReq for anything but a write
    | StopLoop
    | Begin(h: nat)                       // the loop thread, action by action
    | Arm
    | ClearClosure
    | ReturnHandle
    | ExitLoop

  /** A connection and a loop that fit together. */
  ghost predicate Fit(c: Connect, loop: UvLoop.Loop)
    reads c, c.sends, c.sends.repr, loop, loop.slots
  {
    c.Valid(loop.Snapshot()) && c.Apart(loop)
  }

  ghost function Now(c: Connect, loop: UvLoop.Loop): State
    reads c, c.sends, loop, loop.slots
  {
    c.Snapshot(loop.Snapshot())
  }

  /** The records being written stay where they are, but for one that completes. */
  ghost predicate Stays(bases: map<nat, array?<byte>>, step: Step, bases': map<nat, array?<byte>>) {
    forall q <- bases :: step != Complete(q) ==> q in bases' && bases'[q] == bases[q]
  }

  /** Either one step of the state machine was taken, or nothing happened. */
  ghost predicate Took(s: State, bases: map<nat, array?<byte>>, done: L.Option<Step>,
                       s': State, bases': map<nat, array?<byte>>)
  {
    match done
    case None => s' == s && bases' == bases
    case Some(step) => Enabled(s, step) && Safe(s, step) && s' == Next(s, step) && Stays(bases, step, bases')
  }

  /** An action takes its step whenever that is possible. */
  ghost predicate Does(s: State, a: Action, ticket: nat, done: L.Option<Step>) {
    match a
    case Connection(b) => done == L.Some(SetConnected(b))
    case EnterWrite => done == When(s.connected, Enter)
    case TakeRecord(block) => done == When(s.entered > 0, Reserve(block))
    case ReadBlock(r, reallocOk) =>
      if r < |s.stages| && s.stages[r].Reserved?
      then done.Some? && done.value.Fill? && done.value.r == r && (reallocOk ==> done.value.got)
      else done == L.None
    case PostWrite(r) =>
      done == When(r < |s.stages| && s.stages[r].Filled?, Submit(r, ticket, s.loop.running))
    case WriteDone(r) => done == When(s.loop.phase.Idle? && r < |s.stages| && s.stages[r].Issued?, Complete(r))
    case StartLoop => done == When(!s.loop.running, OfLoop(L.Start))
    case Request(e) =>
      done == When(s.loop.running && s.loop.free != [], OfLoop(L.DoPost(e, L.Req(ticket, L.Other))))
    case StopLoop => done == When(s.loop.running, OfLoop(L.DoStop))
    case Begin(h) =>
      done == When(s.loop.phase.Idle? && h in s.loop.pending && s.loop.running, OfLoop(L.Fire(h)))
    case Arm => done == When(s.loop.phase.Fired?, if AtWrite(s.loop) then TcpWrite else OfLoop(L.Invoke))
    case ClearClosure => done == When(s.loop.phase.Ran?, OfLoop(L.Clear))
    case ReturnHandle => done == When(s.loop.phase.Cleared?, OfLoop(L.Return))
    case ExitLoop =>
      done == When(s.loop.phase.Idle? && s.loop.stopping && s.loop.running, OfLoop(L.Exit))
  }

  ghost function When(possible: bool, step: Step): L.Option<Step> {
    if possible then L.Some(step) else L.None
  }

  /** All accepted requests have tickets below n. */
  ghost predicate Below(accepted: seq<L.Req>, n: nat) {
    forall a :: a in accepted ==> a.ticket < n
  }

  // ---- the sections of the connection ----

  method ActOnCalls(c: Connect, loop: UvLoop.Loop, a: Action, ticket: nat) returns (ghost done: L.Option<Step>)
    requires Fit(c, loop) && Below(loop.accepted, ticket)
    requires a.Connection? || a.EnterWrite? || a.TakeRecord? || a.ReadBlock? || a.WriteDone?
    modifies c, c.sends, c.sends.repr
    ensures Fit(c, loop) && fresh(c.sends.repr - old(c.sends.repr)) && c.sends.repr >= old(c.sends.repr)
    ensures Took(old(Now(c, loop)), old(c.issued), done, Now(c, loop), c.issued)
    ensures Does(old(Now(c, loop)), a, ticket, done)
  {
    hide Inv, Next, Safe, c.sends.Valid, c.StillWriting;
    ghost var l := loop.Snapshot();
    done := L.None;
    match a
    case Connection(b) =>
      c.SetConnected(b, l);
      done := L.Some(SetConnected(b));
    case EnterWrite =>
      if c.m_bConnectSuccess {
        c.EnterCall([], l);
        done := L.Some(Enter);
      }
    case TakeRecord(block) =>
      if c.entered > 0 {
        var r := c.ReserveRecord(block, l);
        done := L.Some(Reserve(block));
      }
    case ReadBlock(r, reallocOk) =>
      if r < |c.stages| && c.stages[r].Reserved? {
        var got := c.FillRecord(r, c.stages[r].block, reallocOk, l);
        done := L.Some(Fill(r, got));
      }
    case WriteDone(r) =>
      if loop.phase == L.Idle && r < |c.stages| && c.stages[r].Issued? {
        c.WriteDone(r, l);
        done := L.Some(Complete(r));
      }
    case _ =>
  }

  // ---- the sections of the loop ----

  /** Between a request that is not a write and the loop thread only the request
      pool changes. */
  method ActOnPool(c: Connect, loop: UvLoop.Loop, a: Action, ticket: nat) returns (ghost done: L.Option<Step>)
    requires Fit(c, loop) && Below(loop.accepted, ticket)
    requires a.StartLoop? || a.Request? || a.StopLoop?
    modifies loop, loop.slots
    ensures Does(old(Now(c, loop)), a, ticket, done)
    ensures Fit(c, loop) && Took(old(Now(c, loop)), c.issued, done, Now(c, loop), c.issued)
    ensures Below(loop.accepted, ticket + 1)
  {
    hide Inv, Next, Safe, Enabled, c.Valid, L.Inv, L.Next, L.Safe, Took;
    ghost var l := loop.Snapshot();
    PoolValid(c, loop);
    NothingDone(c, loop, ticket);
    done := L.None;
    match a
    case StartLoop =>
      if !loop.m_bRunning {
        PoolSteps(c, loop, L.Start, ticket);
        loop.Run();
        done := L.Some(OfLoop(L.Start));
      }
    case Request(e) =>
      var req := L.Req(ticket, L.Other);
      assert req !in loop.accepted;
      PoolSteps(c, loop, L.DoPost(e, req), ticket);
      var err := loop.AddReq(e, req);
      if err == L.NoErr {
        done := L.Some(OfLoop(L.DoPost(e, req)));
      }
    case StopLoop =>
      if loop.m_bRunning {
        PoolSteps(c, loop, L.DoStop, ticket);
        loop.Stop();
        done := L.Some(OfLoop(L.DoStop));
      }
  }

  lemma NothingDone(c: Connect, loop: UvLoop.Loop, ticket: nat)
    requires Below(loop.accepted, ticket)
    ensures Took(Now(c, loop), c.issued, L.None, Now(c, loop), c.issued) && Below(loop.accepted, ticket + 1)
  {}

  lemma PoolValid(c: Connect, loop: UvLoop.Loop)
    requires Fit(c, loop)
    ensures loop.Valid() && L.Inv(loop.Snapshot()) && Inv(Now(c, loop))
  {}

  /** What a step of the pool alone does to the whole. */
  lemma PoolSteps(c: Connect, loop: UvLoop.Loop, step: L.Step, ticket: nat)
    requires Below(loop.accepted, ticket) && (step.DoPost? ==> step.r.ticket == ticket)
    requires Fit(c, loop) && L.Enabled(loop.Snapshot(), step) && (step.DoPost? ==> step.r.action.Other?)
    requires step.Invoke? ==> !AtWrite(loop.Snapshot())
    ensures var l, s := loop.Snapshot(), Now(c, loop);
      && L.Safe(l, step) && c.Valid(L.Next(l, step))
      && Enabled(s, OfLoop(step)) && Safe(s, OfLoop(step))
      && c.Snapshot(L.Next(l, step)) == Next(s, OfLoop(step))
      && Took(s, c.issued, L.Some(OfLoop(step)), c.Snapshot(L.Next(l, step)), c.issued)
      && Below(L.Next(l, step).accepted, ticket + 1)
  {
    hide c.Valid, Inv, L.Inv;
    c.PoolMoves(loop.Snapshot(), step);
  }

  /** The actions of the loop thread. */
  method ActOnLoop(c: Connect, loop: UvLoop.Loop, a: Action, ticket: nat) returns (ghost done: L.Option<Step>)
    requires Fit(c, loop) && Below(loop.accepted, ticket)
    requires a.Begin? || a.ClearClosure? || a.ReturnHandle? || a.ExitLoop?
    modifies loop, loop.slots
    ensures Does(old(Now(c, loop)), a, ticket, done)
    ensures Fit(c, loop) && Took(old(Now(c, loop)), c.issued, done, Now(c, loop), c.issued)
    ensures Below(loop.accepted, ticket + 1)
  {
    hide Inv, Next, Safe, Enabled, c.Valid, L.Inv, L.Next, L.Safe, Took;
    PoolValid(c, loop);
    NothingDone(c, loop, ticket);
    done := L.None;
    match a
    case Begin(h) =>
      if loop.phase == L.Idle && h in loop.pending && loop.m_bRunning {
        PoolSteps(c, loop, L.Fire(h), ticket);
        loop.BeginCallback(h);
        done := L.Some(OfLoop(L.Fire(h)));
      }
    case ClearClosure =>
      if loop.phase.Ran? {
        PoolSteps(c, loop, L.Clear, ticket);
        loop.ClearClosure();
        done := L.Some(OfLoop(L.Clear));
      }
    case ReturnHandle =>
      if loop.phase.Cleared? {
        PoolSteps(c, loop, L.Return, ticket);
        loop.ReturnHandle();
        done := L.Some(OfLoop(L.Return));
      }
    case ExitLoop =>
      if loop.phase == L.Idle && loop.stopping && loop.m_bRunning {
        PoolSteps(c, loop, L.Exit, ticket);
        loop.Exit();
        done := L.Some(OfLoop(L.Exit));
      }
  }

  /** The switch of the callback: a tcpWrite, or something else. */
  method ActOnArm(c: Connect, loop: UvLoop.Loop, ticket: nat) returns (ghost done: L.Option<Step>)
    requires Fit(c, loop) && Below(loop.accepted, ticket)
    modifies c`stages, c`issued, loop
    ensures Does(old(Now(c, loop)), Arm, ticket, done)
    ensures Fit(c, loop) && Took(old(Now(c, loop)), old(c.issued), done, Now(c, loop), c.issued)
    ensures Below(loop.accepted, ticket + 1)
  {
    hide Inv, Next, Safe, c.Valid, L.Inv, L.Next, L.Safe, c.StillWriting, Begins;
    PoolValid(c, loop);
    NothingDone(c, loop, ticket);
    done := L.None;
    if loop.phase.Fired? {
      FiredSlot(loop);
      if IsWrite(loop.slots[loop.phase.h]) {
        ghost var s := Now(c, loop);
        WriteAccepts(s, ticket);
        var r, issued, base, len := c.RunWrite(loop, s);
        done := L.Some(TcpWrite);
      } else {
        PoolSteps(c, loop, L.Invoke, ticket);
        var ran := loop.RunArm();
        done := L.Some(OfLoop(L.Invoke));
      }
    }
  }

  lemma FiredSlot(loop: UvLoop.Loop)
    requires loop.Valid() && loop.phase.Fired?
    ensures loop.phase.h < loop.slots.Length
  {}

  lemma WriteAccepts(s: State, ticket: nat)
    requires Inv(s) && Enabled(s, TcpWrite) && Below(s.loop.accepted, ticket)
    ensures Safe(s, TcpWrite) && Below(Next(s, TcpWrite).loop.accepted, ticket + 1)
  {
    hide Inv;
    TcpWriteInv(s);
  }

  /** The AddReq of a wirteData call. */
  method ActOnPost(c: Connect, loop: UvLoop.Loop, r: nat, ticket: nat) returns (ghost done: L.Option<Step>)
    requires Fit(c, loop) && Below(loop.accepted, ticket)
    modifies c`stages, loop, loop.slots
    ensures Does(old(Now(c, loop)), PostWrite(r), ticket, done)
    ensures Fit(c, loop) && Took(old(Now(c, loop)), c.issued, done, Now(c, loop), c.issued)
    ensures Below(loop.accepted, ticket + 1)
  {
    hide Inv, Next, Safe, c.Valid, L.Inv, L.Next, L.Safe, c.StillWriting;
    NothingDone(c, loop, ticket);
    done := L.None;
    if r < |c.stages| && c.stages[r].Filled? {
      ghost var s, saw := Now(c, loop), loop.m_bRunning;
      assert WriteReq(r, ticket) !in loop.accepted;
      PostAccepts(c, loop, r, ticket);
      var ok := c.SubmitRecord(r, ticket, loop);
      done := L.Some(Submit(r, ticket, saw));
    }
  }

  lemma PostAccepts(c: Connect, loop: UvLoop.Loop, r: nat, ticket: nat)
    requires Fit(c, loop) && Below(loop.accepted, ticket)
    requires Enabled(Now(c, loop), Submit(r, ticket, loop.m_bRunning))
    ensures var s, step := Now(c, loop), Submit(r, ticket, loop.m_bRunning);
      Safe(s, step) && Below(Next(s, step).loop.accepted, ticket + 1)
  {
    SubmitInv(Now(c, loop), r, ticket, loop.m_bRunning);
    hide Inv;
  }

  // ---- whole schedules ----

  method Act(c: Connect, loop: UvLoop.Loop, a: Action, ticket: nat) returns (ghost done: L.Option<Step>)
    requires Fit(c, loop) && Below(loop.accepted, ticket)
    modifies c, c.sends, c.sends.repr, loop, loop.slots
    ensures Fit(c, loop) && fresh(c.sends.repr - old(c.sends.repr)) && c.sends.repr >= old(c.sends.repr)
    ensures Took(old(Now(c, loop)), old(c.issued), done, Now(c, loop), c.issued)
    ensures Does(old(Now(c, loop)), a, ticket, done) && Below(loop.accepted, ticket + 1)
  {
    hide Took, c.Valid, Below, Does;
    match a
    case PostWrite(r) => done := ActOnPost(c, loop, r, ticket);
    case Arm => done := ActOnArm(c, loop, ticket);
    case StartLoop => done := ActOnPool(c, loop, a, ticket);
    case Request(_) => done := ActOnPool(c, loop, a, ticket);
    case StopLoop => done := ActOnPool(c, loop, a, ticket);
    case Begin(_) => done := ActOnLoop(c, loop, a, ticket);
    case ClearClosure => done := ActOnLoop(c, loop, a, ticket);
    case ReturnHandle => done := ActOnLoop(c, loop, a, ticket);
    case ExitLoop => done := ActOnLoop(c, loop, a, ticket);
    case _ =>
      NothingDone(c, loop, ticket);
      done := ActOnCalls(c, loop, a, ticket);
  }

  /** What can be seen between two steps: the state, where uv_write was told to
      look for each record being written, and what is in memory there. */
  datatype Moment = Moment(state: State, bases: map<nat, array?<byte>>, sent: map<nat, seq<byte>>)

  ghost function Seen(c: Connect, loop: UvLoop.Loop): Moment
    reads c, c.sends, loop, loop.slots, set q <- c.issued :: c.issued[q]
  {
    Moment(Now(c, loop), c.issued, c.Sent())
  }

  /** The records being written are those with a base, and the memory there begins
      with what readmem took from the wirteData call. */
  ghost predicate Right(m: Moment) {
    && m.sent.Keys == m.bases.Keys
    && (forall q: nat :: q in m.bases <==> q < |m.state.stages| && m.state.stages[q].Issued?)
    && forall q <- m.bases :: m.sent[q] == Got(m.state.stages[q].block, m.state.stages[q].got)
  }

  lemma SeenRight(c: Connect, loop: UvLoop.Loop)
    requires Fit(c, loop)
    ensures Right(Seen(c, loop))
  {
    c.BytesStay(c.issued, c.stages, loop.Snapshot());
  }

  /** A schedule as it was seen: a run of the state machine in which memory is
      right at every moment and no base moves before its completion. */
  ghost predicate Watched(seen: seq<Moment>, steps: seq<Step>) {
    && |seen| == |steps| + 1 && IsRun(States(seen), steps)
    && (forall n :: 0 <= n < |seen| ==> Right(seen[n]))
    && AllStay(seen, steps)
  }

  ghost predicate AllStay(seen: seq<Moment>, steps: seq<Step>)
    requires |seen| == |steps| + 1
  {
    forall n :: 0 <= n < |steps| ==> Stays(seen[n].bases, steps[n], seen[n + 1].bases)
  }

  ghost function States(seen: seq<Moment>): seq<State> {
    seq(|seen|, i requires 0 <= i < |seen| => seen[i].state)
  }

  lemma WatchedMore(seen: seq<Moment>, steps: seq<Step>, step: Step, m: Moment)
    requires Watched(seen, steps) && Right(m)
    requires var last := seen[|steps|];
      && Enabled(last.state, step) && Safe(last.state, step) && m.state == Next(last.state, step)
      && Stays(last.bases, step, m.bases)
    ensures Watched(seen + [m], steps + [step])
  {
    hide Enabled, Safe, Next, Right, Stays, IsRun, AllStay;
    assert States(seen + [m]) == States(seen) + [m.state];
    RunMore(States(seen), steps, step, m.state);
    StayMore(seen, steps, step, m);
  }

  lemma StayMore(seen: seq<Moment>, steps: seq<Step>, step: Step, m: Moment)
    requires |seen| == |steps| + 1 && AllStay(seen, steps) && Stays(seen[|steps|].bases, step, m.bases)
    ensures AllStay(seen + [m], steps + [step])
  {
    hide Stays;
    var seen', steps' := seen + [m], steps + [step];
    forall n | 0 <= n < |steps'| ensures Stays(seen'[n].bases, steps'[n], seen'[n + 1].bases) {
      if n < |steps| {
        assert seen'[n] == seen[n] && seen'[n + 1] == seen[n + 1] && steps'[n] == steps[n];
      } else {
        assert seen'[n] == seen[|steps|] && seen'[n + 1] == m && steps'[n] == step;
      }
    }
  }

  /** Before action i there were at[i] steps; each action took its step whenever
      that was possible. */
  ghost predicate Performed(acts: seq<Action>, n: nat, seen: seq<Moment>, steps: seq<Step>, at: seq<nat>) {
    && n <= |acts| && |at| == n + 1 && |seen| == |steps| + 1 && at[0] == 0 && at[n] == |steps|
    && (forall i :: 0 <= i <= n ==> at[i] <= |steps|)
    && forall i :: 0 <= i < n ==> OneAction(acts[i], i, seen, steps, at[i], at[i + 1])
  }

  ghost predicate OneAction(a: Action, i: nat, seen: seq<Moment>, steps: seq<Step>, before: nat, after: nat) {
    && before <= after <= before + 1 && after <= |steps| && before < |seen|
    && Does(seen[before].state, a, i, if before == after then L.None else L.Some(steps[before]))
  }

  /** Any schedule, from a new connection and a new loop. */
  method Run(acts: seq<Action>)
    returns (c: Connect, loop: UvLoop.Loop, ghost seen: seq<Moment>, ghost steps: seq<Step>, ghost at: seq<nat>)
    ensures Fit(c, loop) && Watched(seen, steps) && Performed(acts, |acts|, seen, steps, at)
    ensures seen[|steps|] == Seen(c, loop)
  {
    hide Fit, Below, Watched, Took, Does, Performed, Now, Inv, Init, L.Init, L.Inv;
    c := new Connect();
    loop := new UvLoop.Loop();
    steps, at := [], [0];
    StartsRight(c, loop, acts);
    seen := [Seen(c, loop)];
    for i := 0 to |acts|
      invariant fresh(c) && fresh(c.sends) && fresh(c.sends.repr) && fresh(loop) && fresh(loop.slots)
      invariant Fit(c, loop) && Below(loop.accepted, i) && Performed(acts, i, seen, steps, at)
      invariant Watched(seen, steps) && |seen| == |steps| + 1 && seen[|steps|] == Seen(c, loop)
    {
      ghost var done := Act(c, loop, acts[i], i);
      seen, steps, at := See(c, loop, acts, i, seen, steps, at, done);
    }
  }

  lemma StartsRight(c: Connect, loop: UvLoop.Loop, acts: seq<Action>)
    requires c.Valid(L.Init()) && c.Snapshot(L.Init()) == Init() && c.issued == map[] && c.sends.repr == {}
    requires loop.Snapshot() == L.Init()
    ensures Fit(c, loop) && Below(loop.accepted, 0)
    ensures Watched([Seen(c, loop)], []) && Performed(acts, 0, [Seen(c, loop)], [], [0])
  {
    SeenRight(c, loop);
  }

  lemma See(c: Connect, loop: UvLoop.Loop, acts: seq<Action>, i: nat, seen: seq<Moment>, steps: seq<Step>,
            at: seq<nat>, done: L.Option<Step>)
    returns (seen': seq<Moment>, steps': seq<Step>, at': seq<nat>)
    requires Fit(c, loop) && Watched(seen, steps) && Performed(acts, i, seen, steps, at) && i < |acts|
    requires var last := seen[|steps|];
      && Took(last.state, last.bases, done, Now(c, loop), c.issued) && Does(last.state, acts[i], i, done)
    ensures Watched(seen', steps') && |seen'| == |steps'| + 1 && seen'[|steps'|] == Seen(c, loop)
    ensures Performed(acts, i + 1, seen', steps', at')
  {
    hide Fit, Enabled, Safe, Next, Right, Stays, IsRun, Performed, Does;
    SeenRight(c, loop);
    if done.Some? {
      WatchedMore(seen, steps, done.value, Seen(c, loop));
      seen', steps' := seen + [Seen(c, loop)], steps + [done.value];
    } else {
      SameMoment(seen[|steps|], Seen(c, loop));
      seen', steps' := seen, steps;
    }
    at' := at + [|steps'|];
    PerformedMore(acts, i, seen, steps, at, done, Seen(c, loop));
  }

  lemma PerformedMore(acts: seq<Action>, n: nat, seen: seq<Moment>, steps: seq<Step>, at: seq<nat>,
                      done: L.Option<Step>, m: Moment)
    requires Performed(acts, n, seen, steps, at) && n < |acts| && Does(seen[|steps|].state, acts[n], n, done)
    ensures done.None? ==> Performed(acts, n + 1, seen, steps, at + [|steps|])
    ensures done.Some? ==> Performed(acts, n + 1, seen + [m], steps + [done.value], at + [|steps| + 1])
  {
    hide Does;
    var seen', steps' := if done.None? then seen else seen + [m], if done.None? then steps else steps + [done.value];
    var at' := at + [|steps'|];
    forall i | 0 <= i < n + 1 ensures OneAction(acts[i], i, seen', steps', at'[i], at'[i + 1]) {
      if i < n {
        assert at'[i] == at[i] && at'[i + 1] == at[i + 1];
        assert OneAction(acts[i], i, seen, steps, at[i], at[i + 1]);
      }
    }
  }

  lemma SameMoment(m: Moment, m': Moment)
    requires Right(m) && Right(m') && m.state == m'.state && m.bases == m'.bases
    ensures m == m'
  {}

  /** From the moment uv_write is issued for a record until its completion, the
      memory it was given neither moves nor changes, over any schedule. */
  lemma {:induction false} MemoryStays(seen: seq<Moment>, steps: seq<Step>, i: nat, j: nat, q: nat)
    requires Watched(seen, steps) && i <= j < |seen| && q in seen[i].bases
    requires forall n :: i <= n < j ==> steps[n] != Complete(q)
    ensures q in seen[j].bases && seen[j].bases[q] == seen[i].bases[q]
    ensures q in seen[i].sent && q in seen[j].sent && seen[j].sent[q] == seen[i].sent[q]
  {
    if i < j {
      MemoryStays(seen, steps, i, j - 1, q);
      assert Stays(seen[j - 1].bases, steps[j - 1], seen[j].bases);
      WriteUndisturbed(States(seen), steps, i, j, q);
    }
  }
}

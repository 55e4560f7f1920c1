/** The send records of libuvcpp/connect.cpp on top of the request pool, as one
    state machine. wirteData is four atomic actions of its thread (find a connection,
    reserve a record under m_writelock, fill its buffer, post the closure); tcpWrite and
    the completion callback are actions of the loop thread. */
module SendModel {
  import L = LoopModel
  import opened SafeBuffers

  /** Where a record is in the life of one wirteData call with the given block.
      Lost: the call was refused by AddReq, or tcpWrite found no connection. */
  datatype Stage =
    | Free
    | Reserved(block: seq<byte>)
    | Filled(block: seq<byte>, got: bool)
    | Posted(block: seq<byte>, got: bool, h: nat)
    | Issued(block: seq<byte>, got: bool, len: nat)
    | Lost(block: seq<byte>)

  datatype State = State(
    connected: bool,            // m_bConnectSuccess
    entered: nat,               // wirteData calls that found a connection and have no record yet
    bufs: seq<seq<byte>>,       // data of every stSend ever allocated
    mapSend: set<nat>,          // m_mapSend
    dSend: seq<nat>,            // m_dSend
    loop: L.State,
    stages: seq<Stage>)         // bookkeeping of the proof

  ghost function Init(): State {
    State(false, 0, [], {}, [], L.Init(), [])
  }

  datatype Step =
    | SetConnected(b: bool)
    | Enter
    | Reserve(block: seq<byte>)
    | Fill(r: nat, got: bool)   // whether readmem took the block; wirteData ignores it
    | Submit(r: nat, ticket: nat, sawRunning: bool)
    | OfLoop(step: L.Step)      // other requests, and the loop thread
    | TcpWrite
    | Complete(r: nat)

  /** The slot holds a tcpWrite closure. */
  predicate IsWrite(slot: L.Slot) {
    slot.event != L.LoopStop && slot.cb.Some? && slot.cb.value.action.Write?
  }

  /** The closure the loop thread is about to run is a tcpWrite. */
  ghost predicate AtWrite(l: L.State) {
    && l.phase.Fired? && l.phase.h < |l.slots|
    && IsWrite(l.slots[l.phase.h])
  }

  ghost function WriteReq(r: nat, ticket: nat): L.Req { L.Req(ticket, L.Write(r)) }

  ghost predicate Enabled(s: State, step: Step) {
    match step
    case SetConnected(_) => true
    case Enter => s.connected
    case Reserve(_) => s.entered > 0
    case Fill(r, _) => r < |s.stages| && s.stages[r].Reserved?
    case Submit(r, t, _) =>
      && r < |s.stages| && s.stages[r].Filled?
      && L.Enabled(s.loop, L.DoPost(L.TcpWrite, WriteReq(r, t)))
    case OfLoop(step) =>
      && L.Enabled(s.loop, step) && (step.DoPost? ==> step.r.action.Other?)
      && (step.Invoke? ==> !AtWrite(s.loop))
    case TcpWrite => AtWrite(s.loop)
    case Complete(r) => s.loop.phase.Idle? && r < |s.stages| && s.stages[r].Issued?
  }

  ghost predicate Safe(s: State, step: Step) {
    match step
    case Reserve(_) => s.dSend != [] ==> s.dSend[0] < |s.bufs| == |s.stages|
    case Fill(r, _) => r < |s.bufs| && r < |s.stages|
    case Submit(r, t, _) => L.Safe(s.loop, L.DoPost(L.TcpWrite, WriteReq(r, t))) && r < |s.stages|
    case OfLoop(step) => L.Safe(s.loop, step)
    case TcpWrite =>
      L.Safe(s.loop, L.Invoke) && AtWrite(s.loop) &&
      var r := s.loop.slots[s.loop.phase.h].cb.value.action.rec; r < |s.bufs| && r < |s.stages|
    case Complete(r) => r in s.mapSend && r < |s.stages|
    case _ => true
  }

  ghost function Next(s: State, step: Step): State
    requires Safe(s, step) && Enabled(s, step)
  {
    match step
    case SetConnected(b) => s.(connected := b)
    case Enter => s.(entered := s.entered + 1)
    case Reserve(block) =>
      if s.dSend == [] then
        s.(entered := s.entered - 1, bufs := s.bufs + [[]], mapSend := s.mapSend + {|s.bufs|},
           stages := s.stages + [Reserved(block)])
      else
        var r := s.dSend[0];
        s.(entered := s.entered - 1, dSend := s.dSend[1..], bufs := s.bufs[r := []], mapSend := s.mapSend + {r},
           stages := s.stages[r := Reserved(block)])
    case Fill(r, got) =>
      var block := s.stages[r].block;
      s.(bufs := s.bufs[r := if got then s.bufs[r] + block else []], stages := s.stages[r := Filled(block, got)])
    case Submit(r, t, sawRunning) =>
      var block := s.stages[r].block;
      if L.PostResult(s.loop, sawRunning) == L.NoErr then
        s.(loop := L.Post(s.loop, L.TcpWrite, WriteReq(r, t)),
           stages := s.stages[r := Posted(block, s.stages[r].got, s.loop.free[0])])
      else
        s.(stages := s.stages[r := Lost(block)])
    case OfLoop(step) => s.(loop := L.Next(s.loop, step))
    case TcpWrite =>
      var r := s.loop.slots[s.loop.phase.h].cb.value.action.rec;
      var block := if s.stages[r].Free? then [] else s.stages[r].block;
      s.(loop := L.Next(s.loop, L.Invoke),
         stages := s.stages[r := if !s.connected then Lost(block)
                                 else Issued(block, s.stages[r].Posted? && s.stages[r].got, |s.bufs[r]|)])
    case Complete(r) =>
      s.(dSend := s.dSend + [r], mapSend := s.mapSend - {r}, stages := s.stages[r := Free])
  }

  // ---- the invariant ----

  /** Every record allocated is in exactly one of the map and the deque. */
  ghost predicate Records(s: State) {
    && |s.stages| == |s.bufs|
    && L.Distinct(s.dSend)
    && (forall i :: 0 <= i < |s.dSend| ==> s.dSend[i] < |s.stages|)
    && (forall r :: 0 <= r < |s.stages| ==> (s.stages[r].Free? <==> r in s.dSend))
    && (forall r :: r in s.mapSend <==> 0 <= r < |s.stages| && !s.stages[r].Free?)
  }

  /** What a buffer holds after a readmem that took the block, or one that failed. */
  ghost function Got(block: seq<byte>, got: bool): seq<byte> {
    if got then block else []
  }

  /** The bytes in each buffer are those of the call that reserved the record. */
  ghost predicate Bytes(s: State) {
    |s.stages| == |s.bufs| && forall r :: 0 <= r < |s.stages| ==>
      match s.stages[r]
      case Free => true
      case Reserved(_) => s.bufs[r] == []
      case Filled(b, got) => s.bufs[r] == Got(b, got)
      case Posted(b, got, _) => s.bufs[r] == Got(b, got)
      case Issued(b, got, len) => s.bufs[r] == Got(b, got) && len == |s.bufs[r]|
      case Lost(b) => s.bufs[r] == b || s.bufs[r] == []
  }

  /** The handle h waits with a tcpWrite closure of record r. */
  ghost predicate WaitsFor(l: L.State, h: nat, r: nat) {
    && h in L.Waiting(l) && h < |l.slots|
    && l.slots[h].event == L.TcpWrite && l.slots[h].cb.Some? && l.slots[h].cb.value.action == L.Write(r)
  }

  /** Posted records and waiting tcpWrite closures match one to one. */
  ghost predicate Linked(s: State) {
    && (forall r :: 0 <= r < |s.stages| && s.stages[r].Posted? ==> WaitsFor(s.loop, s.stages[r].h, r))
    && (forall h <- L.Waiting(s.loop) ::
          h < |s.loop.slots| && IsWrite(s.loop.slots[h]) ==>
          var r := s.loop.slots[h].cb.value.action.rec;
          WaitsFor(s.loop, h, r) && r < |s.stages| && s.stages[r].Posted? && s.stages[r].h == h)
  }

  ghost predicate Inv(s: State) {
    L.Inv(s.loop) && Records(s) && Bytes(s) && Linked(s)
  }

  lemma InitInv()
    ensures Inv(Init())
  {
    L.InitInv();
  }

  lemma ReserveInv(s: State, block: seq<byte>)
    requires Inv(s) && Enabled(s, Reserve(block))
    ensures Safe(s, Reserve(block)) && Inv(Next(s, Reserve(block)))
  {
    hide L.Inv;
    if s.dSend != [] {
      assert s.dSend == [s.dSend[0]] + s.dSend[1..];
    }
  }

  lemma FillInv(s: State, r: nat, got: bool)
    requires Inv(s) && Enabled(s, Fill(r, got))
    ensures Safe(s, Fill(r, got)) && Inv(Next(s, Fill(r, got)))
  {
    hide L.Inv;
  }

  lemma SubmitInv(s: State, r: nat, t: nat, saw: bool)
    requires Inv(s) && Enabled(s, Submit(r, t, saw))
    ensures Safe(s, Submit(r, t, saw)) && Inv(Next(s, Submit(r, t, saw)))
  {
    hide L.Inv, L.Waiting, Linked, L.Post;
    L.StepWaiting(s.loop, L.DoPost(L.TcpWrite, WriteReq(r, t)));
    SubmitLinked(s, r, t, saw);
  }

  lemma SubmitLinked(s: State, r: nat, t: nat, saw: bool)
    requires Inv(s) && Enabled(s, Submit(r, t, saw)) && Safe(s, Submit(r, t, saw))
    ensures Linked(Next(s, Submit(r, t, saw)))
  {
    hide L.Inv, L.Waiting, Records, Bytes, L.Enabled, L.Post, WaitsFor;
    var post := L.DoPost(L.TcpWrite, WriteReq(r, t));
    L.StepWaiting(s.loop, post);
    if L.PostResult(s.loop, saw) == L.NoErr {
      LinkAdded(s, r, post, L.Post(s.loop, L.TcpWrite, WriteReq(r, t)));
    }
  }

  /** A posted record is linked to the handle its closure was given. */
  lemma LinkAdded(s: State, r: nat, post: L.Step, l': L.State)
    requires Linked(s) && r < |s.stages| && s.stages[r].Filled? && s.loop.free != []
    requires post.DoPost? && post.e == L.TcpWrite && post.r.action == L.Write(r) && L.WaitingChange(s.loop, post, l')
    ensures Linked(s.(loop := l', stages := s.stages[r := Posted(s.stages[r].block, s.stages[r].got, s.loop.free[0])]))
  {
    hide L.Waiting;
  }

  /** Steps that neither start nor post a tcpWrite leave the links alone. */
  lemma LinksKept(s: State, step: L.Step, l': L.State)
    requires Linked(s) && L.WaitingChange(s.loop, step, l')
    requires step.DoPost? ==> step.r.action.Other?
    requires step.Invoke? ==> s.loop.phase.Fired? && !AtWrite(s.loop)
    ensures Linked(s.(loop := l'))
  {
    hide L.Waiting;
  }

  lemma FiredAtInvoke(l: L.State, step: L.Step)
    requires L.Enabled(l, step)
    ensures step.Invoke? ==> l.phase.Fired?
  {}

  lemma OfLoopInv(s: State, step: L.Step)
    requires Inv(s) && Enabled(s, OfLoop(step))
    ensures Safe(s, OfLoop(step)) && Inv(Next(s, OfLoop(step)))
  {
    hide L.Inv, L.Next, L.Waiting, L.Safe, L.WaitingChange, Linked, AtWrite, L.Enabled;
    L.StepWaiting(s.loop, step);
    FiredAtInvoke(s.loop, step);
    LinksKept(s, step, L.Next(s.loop, step));
  }

  lemma FiredWaits(l: L.State)
    ensures l.phase.Fired? ==> l.phase.h in L.Waiting(l)
  {}

  lemma TcpWriteInv(s: State)
    requires Inv(s) && Enabled(s, TcpWrite)
    ensures Safe(s, TcpWrite) && Inv(Next(s, TcpWrite))
  {
    hide L.Inv, L.Waiting, L.Next;
    L.StepWaiting(s.loop, L.Invoke);
    FiredWaits(s.loop);
  }

  /** The record whose tcpWrite closure is about to run. */
  ghost function RecordAt(l: L.State): nat
    requires AtWrite(l)
  {
    l.slots[l.phase.h].cb.value.action.rec
  }

  /** At the switch, the closure to run is that of a posted record. */
  lemma PostedAtWrite(s: State)
    requires Inv(s) && AtWrite(s.loop)
    ensures
      var r := RecordAt(s.loop);
      && r < |s.stages| == |s.bufs| && s.stages[r].Posted? && s.bufs[r] == Got(s.stages[r].block, s.stages[r].got)
      && L.Safe(s.loop, L.Invoke) && L.Enabled(s.loop, L.Invoke) && Safe(s, TcpWrite)
      && Next(s, TcpWrite) ==
           s.(loop := L.Next(s.loop, L.Invoke),
              stages := s.stages[r := if s.connected then Issued(s.stages[r].block, s.stages[r].got, |s.bufs[r]|)
                                      else Lost(s.stages[r].block)])
  {}

  lemma CompleteInv(s: State, r: nat)
    requires Inv(s) && Enabled(s, Complete(r))
    ensures Safe(s, Complete(r)) && Inv(Next(s, Complete(r)))
  {
    hide L.Inv;
  }

  lemma NextInv(s: State, step: Step)
    requires Inv(s) && Enabled(s, step)
    ensures Safe(s, step) && Inv(Next(s, step))
  {
    match step
    case SetConnected(b) =>
    case Enter =>
    case Reserve(block) => ReserveInv(s, block);
    case Fill(r, got) => FillInv(s, r, got);
    case Submit(r, t, saw) => SubmitInv(s, r, t, saw);
    case OfLoop(step) => OfLoopInv(s, step);
    case TcpWrite => TcpWriteInv(s);
    case Complete(r) => CompleteInv(s, r);
  }

  // ---- whole runs ----

  ghost predicate IsRun(states: seq<State>, steps: seq<Step>) {
    && |states| == |steps| + 1 && states[0] == Init()
    && forall i :: 0 <= i < |steps| ==>
         Enabled(states[i], steps[i]) && (Safe(states[i], steps[i]) ==> states[i + 1] == Next(states[i], steps[i]))
  }

  /** In every interleaving each step is safe: in particular the completion
      callback finds its request in m_mapSend. */
  lemma {:induction false} RunInv(states: seq<State>, steps: seq<Step>, n: nat)
    requires IsRun(states, steps) && n < |states|
    ensures Inv(states[n])
    ensures n < |steps| ==>
      && Enabled(states[n], steps[n]) && Safe(states[n], steps[n])
      && states[n + 1] == Next(states[n], steps[n])
  {
    if n == 0 {
      InitInv();
    } else {
      RunInv(states, steps, n - 1);
      NextInv(states[n - 1], steps[n - 1]);
    }
    if n < |steps| {
      NextInv(states[n], steps[n]);
    }
  }

  lemma RunMore(states: seq<State>, steps: seq<Step>, step: Step, s: State)
    requires IsRun(states, steps) && Enabled(states[|steps|], step) && Safe(states[|steps|], step)
    requires s == Next(states[|steps|], step)
    ensures IsRun(states + [s], steps + [step])
  {
    hide Enabled, Safe, Next;
    var states', steps' := states + [s], steps + [step];
    forall i | 0 <= i < |steps'|
      ensures Enabled(states'[i], steps'[i])
      ensures Safe(states'[i], steps'[i]) ==> states'[i + 1] == Next(states'[i], steps'[i])
    {
      if i < |steps| {
        assert states'[i] == states[i] && states'[i + 1] == states[i + 1] && steps'[i] == steps[i];
      } else {
        assert states'[i] == states[|steps|] && states'[i + 1] == s && steps'[i] == step;
      }
    }
  }

  ghost predicate Held(s: State, r: nat) {
    r < |s.stages| && !s.stages[r].Free?
  }

  /** Step i is the reservation of record r by a wirteData call with this block. */
  ghost predicate ReservedBy(states: seq<State>, steps: seq<Step>, i: nat, r: nat, block: seq<byte>)
    requires |states| == |steps| + 1
  {
    i < |steps| && steps[i] == Reserve(block) && !Held(states[i], r) && Held(states[i + 1], r)
  }

  /** One step, seen from one record that is held before or after it. */
  lemma StepOnRecord(s: State, step: Step, r: nat)
    requires Inv(s) && Enabled(s, step)
    ensures Safe(s, step)
    ensures Held(s, r) && step != Complete(r) ==>
      && Held(Next(s, step), r) && Next(s, step).stages[r].block == s.stages[r].block
      && (!s.stages[r].Reserved? ==> Next(s, step).bufs[r] == s.bufs[r])
    ensures Held(s, r) && !Held(Next(s, step), r) ==> step == Complete(r) && s.stages[r].Issued?
    ensures !Held(s, r) && Held(Next(s, step), r) ==> step.Reserve? && Next(s, step).stages[r] == Reserved(step.block)
    ensures Held(s, r) && (s.stages[r].Issued? || s.stages[r].Lost?) && step != Complete(r) ==>
            Next(s, step).stages[r] == s.stages[r]
  {
    hide L.Inv, L.Waiting, L.Next, L.Post;
    NextInv(s, step);
    if step.TcpWrite? {
      FiredWaits(s.loop);
    }
  }

  /** The block of a held record is the one given to the call that reserved it,
      and the record has been held ever since. */
  lemma {:induction false} BlockFromCall(states: seq<State>, steps: seq<Step>, n: nat, r: nat) returns (i: nat)
    requires IsRun(states, steps) && n < |states| && Held(states[n], r)
    ensures i < n && ReservedBy(states, steps, i, r, states[n].stages[r].block)
    ensures forall j :: i < j <= n ==> Held(states[j], r)
  {
    RunInv(states, steps, n - 1);
    StepOnRecord(states[n - 1], steps[n - 1], r);
    if Held(states[n - 1], r) {
      i := BlockFromCall(states, steps, n - 1, r);
    } else {
      i := n - 1;
    }
  }

  /** The record has been through the readmem of its call. */
  ghost predicate Read(stage: Stage) {
    stage.Filled? || stage.Posted? || stage.Issued?
  }

  /** Whether readmem took the block is decided once, by the fill step. */
  lemma ReadOnRecord(s: State, step: Step, r: nat)
    requires Inv(s) && Enabled(s, step) && Safe(s, step)
    requires Held(Next(s, step), r) && Read(Next(s, step).stages[r])
    ensures Held(s, r)
    ensures var got := Next(s, step).stages[r].got;
      step == Fill(r, got) || (Read(s.stages[r]) && s.stages[r].got == got)
  {
    hide L.Inv, L.Waiting, L.Next, L.Post;
    if step.TcpWrite? {
      FiredWaits(s.loop);
    }
  }

  /** The readmem behind a record that has been through it. */
  lemma {:induction false} FillOfCall(states: seq<State>, steps: seq<Step>, n: nat, r: nat) returns (k: nat)
    requires IsRun(states, steps) && n < |states| && Held(states[n], r) && Read(states[n].stages[r])
    ensures k < n && steps[k] == Fill(r, states[n].stages[r].got)
    ensures forall j :: k <= j <= n ==> Held(states[j], r)
  {
    hide Inv, Next, Safe, Enabled;
    RunInv(states, steps, n - 1);
    ReadOnRecord(states[n - 1], steps[n - 1], r);
    k := n - 1;
    if steps[n - 1] != Fill(r, states[n].stages[r].got) {
      k := FillOfCall(states, steps, n - 1, r);
    }
  }

  /** Send integrity: when uv_write is issued for a record, step i reserved it for
      a wirteData call and step k was the readmem of that call. The buffer holds,
      and its length covers, exactly the bytes of the call, or nothing exactly
      when that readmem failed. */
  lemma WriteIntegrity(states: seq<State>, steps: seq<Step>, n: nat) returns (r: nat, i: nat, k: nat)
    requires IsRun(states, steps) && n < |steps| && steps[n] == TcpWrite && states[n].connected
    ensures Held(states[n + 1], r) && states[n + 1].stages[r].Issued? && r < |states[n + 1].bufs|
    ensures i < k < n && ReservedBy(states, steps, i, r, states[n + 1].stages[r].block)
    ensures forall j :: i < j <= n + 1 ==> Held(states[j], r)
    ensures steps[k] == Fill(r, states[n + 1].stages[r].got)
    ensures var data := states[n + 1].bufs[r];
      && states[n + 1].stages[r].len == |data|
      && data == if steps[k] == Fill(r, true) then states[n + 1].stages[r].block else []
  {
    hide Inv, Next, Safe, Enabled;
    r := JustIssued(states, steps, n);
    i := BlockFromCall(states, steps, n + 1, r);
    k := FillOfCall(states, steps, n + 1, r);
    RunInv(states, steps, n + 1);
    BytesIssued(states[n + 1], r);
  }

  lemma JustIssued(states: seq<State>, steps: seq<Step>, n: nat) returns (r: nat)
    requires IsRun(states, steps) && n < |steps| && steps[n] == TcpWrite && states[n].connected
    ensures Held(states[n + 1], r) && states[n + 1].stages[r].Issued?
  {
    RunInv(states, steps, n);
    r := states[n].loop.slots[states[n].loop.phase.h].cb.value.action.rec;
  }

  lemma BytesIssued(s: State, r: nat)
    requires Inv(s) && Held(s, r) && s.stages[r].Issued?
    ensures r < |s.bufs| && s.bufs[r] == Got(s.stages[r].block, s.stages[r].got) && s.stages[r].len == |s.bufs[r]|
  {}

  /** From the moment uv_write is issued until the completion callback, nothing
      touches the bytes of the record. */
  lemma {:induction false} WriteUndisturbed(states: seq<State>, steps: seq<Step>, i: nat, j: nat, r: nat)
    requires IsRun(states, steps) && i <= j < |states| && Held(states[i], r) && states[i].stages[r].Issued?
    requires forall n :: i <= n < j ==> steps[n] != Complete(r)
    ensures Held(states[j], r) && states[j].stages[r] == states[i].stages[r]
    ensures r < |states[i].bufs| && r < |states[j].bufs| && states[j].bufs[r] == states[i].bufs[r]
  {
    RunInv(states, steps, j);
    if i < j {
      WriteUndisturbed(states, steps, i, j - 1, r);
      RunInv(states, steps, j - 1);
      StepOnRecord(states[j - 1], steps[j - 1], r);
    }
  }

  // ---- conservation ----

  /** In any run, every record allocated is in exactly one of m_mapSend and
      m_dSend, and in the latter once. */
  lemma RecordsConserved(states: seq<State>, steps: seq<Step>, n: nat)
    requires IsRun(states, steps) && n < |states|
    ensures var s := states[n];
      && L.Distinct(s.dSend) && (forall r :: r in s.dSend ==> r !in s.mapSend)
      && (forall r: nat :: r in s.dSend || r in s.mapSend <==> r < |s.bufs|)
      && |s.dSend| + |s.mapSend| == |s.bufs|
  {
    RunInv(states, steps, n);
    var s := states[n];
    L.DistinctSize(s.dSend);
    L.UnionSize(L.Elements(s.dSend), s.mapSend, |s.bufs|);
  }

  /** The number of records allocated is the largest size m_mapSend has had. */
  lemma {:induction false} HighWaterMark(states: seq<State>, steps: seq<Step>, n: nat) returns (i: nat)
    requires IsRun(states, steps) && n < |states|
    ensures forall j :: 0 <= j <= n ==> |states[j].mapSend| <= |states[n].bufs|
    ensures i <= n && |states[i].mapSend| == |states[n].bufs|
  {
    hide Inv, Safe, Enabled, Next;
    PoolSize(states, steps, n);
    i := n;
    if n > 0 {
      var i' := HighWaterMark(states, steps, n - 1);
      RunInv(states, steps, n - 1);
      Grows(states[n - 1], steps[n - 1]);
      if |states[n].bufs| == |states[n - 1].bufs| {
        i := i';
      }
    } else {
      assert states[0].dSend == [];
    }
  }

  lemma PoolSize(states: seq<State>, steps: seq<Step>, n: nat)
    requires IsRun(states, steps) && n < |states|
    ensures |states[n].dSend| + |states[n].mapSend| == |states[n].bufs|
  {
    RecordsConserved(states, steps, n);
  }

  /** Records are never freed, and one is allocated only when none is idle. */
  lemma Grows(s: State, step: Step)
    requires Inv(s) && Enabled(s, step) && Safe(s, step)
    ensures |Next(s, step).bufs| >= |s.bufs|
    ensures |Next(s, step).bufs| > |s.bufs| ==> Next(s, step).dSend == []
  {}

  // ---- what never comes back ----

  /** A record is lost exactly when AddReq refuses its closure, or the closure
      finds no connection. */
  lemma LostIff(s: State, step: Step, r: nat)
    requires Inv(s) && Enabled(s, step) && Held(s, r) && !s.stages[r].Lost?
    ensures Safe(s, step)
    ensures Held(Next(s, step), r) && Next(s, step).stages[r].Lost? <==>
      || (step.Submit? && step.r == r && (!step.sawRunning || s.loop.free == []))
      || (step.TcpWrite? && !s.connected && s.loop.slots[s.loop.phase.h].cb.value.action == L.Write(r))
  {
    NextInv(s, step);
    if step.TcpWrite? {
      FiredWaits(s.loop);
    }
    hide L.Inv, L.Waiting, L.Next, L.Post;
  }

  /** A lost record stays in m_mapSend for good. */
  lemma {:induction false} LostForever(states: seq<State>, steps: seq<Step>, i: nat, j: nat, r: nat)
    requires IsRun(states, steps) && i <= j < |states| && Held(states[i], r) && states[i].stages[r].Lost?
    ensures Held(states[j], r) && states[j].stages[r].Lost? && r in states[j].mapSend
  {
    hide Inv, Safe, Enabled, Next;
    RunInv(states, steps, j);
    if i < j {
      LostForever(states, steps, i, j - 1, r);
      RunInv(states, steps, j - 1);
      StepOnRecord(states[j - 1], steps[j - 1], r);
    }
    LostHeld(states[j], r);
  }

  lemma LostHeld(s: State, r: nat)
    requires Inv(s) && Held(s, r) && s.stages[r].Lost?
    ensures r in s.mapSend
  {
    hide L.Inv, Bytes, Linked;
  }
}

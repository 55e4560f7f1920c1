/** What the state of the write pool says about the steps that led to it. */
module SendHistory {
  import opened SendModel

  // ---- the connection flag ----

  /** Step i is the last one before moment n that sets m_bConnectSuccess. */
  ghost predicate LastFlag(steps: seq<Step>, n: nat, i: nat) {
    && i < n <= |steps| && steps[i].SetConnected?
    && forall j: nat :: i < j < n ==> !steps[j].SetConnected?
  }

  /** Only the callbacks that report a connection change the flag: no write, no
      completion and no request does. */
  lemma {:induction false} ConnectedIff(states: seq<State>, steps: seq<Step>, n: nat)
    requires IsRun(states, steps) && n < |states|
    ensures states[n].connected <==> exists i: nat :: LastFlag(steps, n, i) && steps[i].b
  {
    hide Inv, Safe, Enabled, Next;
    if n > 0 {
      ConnectedIff(states, steps, n - 1);
      RunInv(states, steps, n - 1);
      FlagStep(states[n - 1], steps[n - 1]);
      if steps[n - 1].SetConnected? {
        assert LastFlag(steps, n, n - 1);
      } else {
        forall i: nat ensures LastFlag(steps, n, i) <==> LastFlag(steps, n - 1, i) {}
      }
    }
  }

  lemma FlagStep(s: State, step: Step)
    requires Safe(s, step) && Enabled(s, step)
    ensures Next(s, step).connected == if step.SetConnected? then step.b else s.connected
  {
    hide L.Next;
  }

  // ---- calls between the test and the reservation ----

  ghost function Entries(steps: seq<Step>, n: nat): int
    requires n <= |steps|
  {
    if n == 0 then 0
    else Entries(steps, n - 1) + (if steps[n - 1].Enter? then 1 else if steps[n - 1].Reserve? then -1 else 0)
  }

  /** Every reservation belongs to a call that found a connection before. */
  lemma {:induction false} EnteredCount(states: seq<State>, steps: seq<Step>, n: nat)
    requires IsRun(states, steps) && n < |states|
    ensures states[n].entered == Entries(steps, n) >= 0
  {
    hide Inv, L.Next, L.Safe, L.Enabled;
    if n > 0 {
      EnteredCount(states, steps, n - 1);
      RunInv(states, steps, n - 1);
    }
  }

  // ---- the idle records ----

  /** The records of the completion callbacks, in that order. */
  ghost function CompletedBy(steps: seq<Step>, n: nat): seq<nat>
    requires n <= |steps|
  {
    if n == 0 then []
    else
      var before := CompletedBy(steps, n - 1);
      if steps[n - 1].Complete? then before + [steps[n - 1].r] else before
  }

  /** How many reservations found an idle record. */
  ghost function ReusedBy(states: seq<State>, steps: seq<Step>, n: nat): nat
    requires n <= |steps| < |states|
  {
    if n == 0 then 0
    else ReusedBy(states, steps, n - 1) + if steps[n - 1].Reserve? && states[n - 1].dSend != [] then 1 else 0
  }

  /** m_dSend is first in, first out: completions add at the back, and
      reservations take from the front. */
  lemma {:induction false} IdleInOrder(states: seq<State>, steps: seq<Step>, n: nat)
    requires IsRun(states, steps) && n < |states|
    ensures var q, k := CompletedBy(steps, n), ReusedBy(states, steps, n);
      k <= |q| && states[n].dSend == q[k..]
  {
    hide Inv, Next, Safe, Enabled;
    if n > 0 {
      IdleInOrder(states, steps, n - 1);
      RunInv(states, steps, n - 1);
      IdleStep(states[n - 1], steps[n - 1]);
    }
  }

  lemma IdleStep(s: State, step: Step)
    requires Safe(s, step) && Enabled(s, step)
    ensures Next(s, step).dSend ==
            if step.Complete? then s.dSend + [step.r]
            else if step.Reserve? && s.dSend != [] then s.dSend[1..]
            else s.dSend
  {
    hide L.Next, L.Post;
  }

  // ---- the request pool below ----

  /** What a step of the write pool does to the request pool: a tcpWrite closure is
      posted unless AddReq refuses it, and a write begins by running it. */
  ghost function Below(s: State, step: Step): seq<L.Step> {
    match step
    case OfLoop(below) => [below]
    case Submit(r, ticket, sawRunning) =>
      if sawRunning && s.loop.free != [] then [L.DoPost(L.TcpWrite, WriteReq(r, ticket))] else []
    case TcpWrite => [L.Invoke]
    case _ => []
  }

  ghost function BelowBy(states: seq<State>, steps: seq<Step>, n: nat): seq<L.Step>
    requires n <= |steps| < |states|
  {
    if n == 0 then [] else BelowBy(states, steps, n - 1) + Below(states[n - 1], steps[n - 1])
  }

  /** In every run of the write pool the request pool makes a run of its own. */
  lemma {:induction false} PoolRuns(states: seq<State>, steps: seq<Step>, n: nat) returns (pools: seq<L.State>)
    requires IsRun(states, steps) && n < |states|
    ensures L.IsRun(pools, BelowBy(states, steps, n))
    ensures pools[|BelowBy(states, steps, n)|] == states[n].loop
  {
    hide Inv, Next, Safe, Enabled, L.Next, L.Safe, L.Enabled;
    if n == 0 {
      pools := [L.Init()];
    } else {
      pools := PoolRuns(states, steps, n - 1);
      RunInv(states, steps, n - 1);
      BelowStep(states[n - 1], steps[n - 1]);
      var before, below := BelowBy(states, steps, n - 1), Below(states[n - 1], steps[n - 1]);
      if below == [] {
        assert before + below == before;
      } else {
        L.RunMore(pools, before, below[0], states[n].loop);
        assert before + below == before + [below[0]];
        pools := pools + [states[n].loop];
      }
    }
  }

  lemma BelowStep(s: State, step: Step)
    requires Inv(s) && Enabled(s, step) && Safe(s, step)
    ensures var below, t := Below(s, step), Next(s, step).loop;
      if below == [] then t == s.loop
      else && |below| == 1 && L.Enabled(s.loop, below[0]) && L.Safe(s.loop, below[0])
           && t == L.Next(s.loop, below[0])
  {
    hide L.Inv, Records, Bytes, Linked, L.Waiting;
  }
}

/** The fields of uvloop and the atomic sections of its methods, each tied to a
    step of the state machine in LoopModel. */
module UvLoop {
  import opened LoopModel

  class Loop {
    var m_bRunning: bool
    var m_dAsync: seq<nat>
    var m_mapAsync: map<nat, nat>
    const slots: array<Slot>

    // The part of libuv the class relies on.
    var pending: set<nat>
    var stopping: bool
    var phase: Phase

    ghost var accepted: seq<Req>
    ghost var started: seq<Req>

    ghost function Snapshot(): State
      reads this, slots
    {
      State(m_bRunning, stopping, slots[..], m_dAsync, m_mapAsync, pending, phase, accepted, started)
    }

    ghost predicate Valid()
      reads this, slots
    {
      Inv(Snapshot())
    }

    constructor ()
      ensures Snapshot() == Init() && Valid() && fresh(slots)
    {
      m_bRunning, stopping, phase := false, false, Idle;
      m_mapAsync, pending := map[], {};
      accepted, started := [], [];
      slots := new Slot[UV_ASYNC_HANDLE](_ => Slot(LoopStop, None));
      m_dAsync := [];
      new;
      for i := 0 to UV_ASYNC_HANDLE
        invariant |m_dAsync| == i && forall j :: 0 <= j < i ==> m_dAsync[j] == j
        invariant Snapshot() == Init().(free := m_dAsync)
      {
        m_dAsync := m_dAsync + [i];
      }
      assert m_dAsync == Init().free;
      InitInv();
    }

    /** run, as far as the flag goes. */
    method Run()
      requires Valid()
      modifies this`m_bRunning
      ensures Valid() && m_bRunning
      ensures Snapshot() == if old(m_bRunning) then old(Snapshot()) else Next(old(Snapshot()), Start)
    {
      if !m_bRunning {
        NextInv(Snapshot(), Start);
        m_bRunning := true;
      }
    }

    /** AddReq. */
    method AddReq(e: Event, cb: Req) returns (err: Err)
      requires Valid() && cb !in accepted
      modifies this`m_dAsync, this`m_mapAsync, this`pending, this`accepted, slots
      ensures Valid() && err == PostResult(old(Snapshot()), old(m_bRunning))
      ensures err == Stopped <==> !old(m_bRunning)
      ensures err == Busy <==> old(m_bRunning && |m_mapAsync| == 5)
      ensures err == NoErr <==> old(m_bRunning && m_dAsync != [])
      ensures err != NoErr ==> unchanged(this, slots)
      ensures err == NoErr ==>
              var h := old(m_dAsync)[0];
              && h < slots.Length && slots[..] == old(slots[..])[h := Slot(e, Some(cb))]
              && m_dAsync == old(m_dAsync)[1..] && m_mapAsync == old(m_mapAsync)[h := h]
              && pending == old(pending) + {h}
              && accepted == if e == LoopStop then old(accepted) else old(accepted) + [cb]
      ensures old(Enabled(Snapshot(), DoPost(e, cb)) && Safe(Snapshot(), DoPost(e, cb)))
      ensures Snapshot() == if err == NoErr then Next(old(Snapshot()), DoPost(e, cb)) else old(Snapshot())
    {
      hide Inv;
      NextInv(Snapshot(), DoPost(e, cb));
      AllHandles(Snapshot());
      if !m_bRunning {
        return Stopped;
      }
      if m_dAsync == [] {
        return Busy;
      }
      var h := m_dAsync[0];
      m_dAsync := m_dAsync[1..];
      slots[h] := slots[h].(event := e);
      slots[h] := slots[h].(cb := Some(cb));
      m_mapAsync := m_mapAsync[h := h];
      pending := pending + {h};
      accepted := if e == LoopStop then accepted else accepted + [cb];
      assert slots[..] == old(slots[..])[h := Slot(e, Some(cb))];
      return NoErr;
    }

    /** stop. */
    method Stop()
      requires Valid()
      modifies this`m_dAsync, this`m_mapAsync, this`pending, slots
      ensures Valid() && old(Safe(Snapshot(), DoStop))
      ensures if old(m_bRunning && m_dAsync != [])
              then var h := old(m_dAsync)[0];
                && h < slots.Length && slots[..] == old(slots[..])[h := Slot(LoopStop, None)]
                && m_dAsync == old(m_dAsync)[1..] && m_mapAsync == old(m_mapAsync)[h := h]
                && pending == old(pending) + {h}
              else unchanged(this, slots)
      ensures Snapshot() == if old(m_bRunning) then Next(old(Snapshot()), DoStop) else old(Snapshot())
    {
      NextInv(Snapshot(), DoStop);
      if !m_bRunning || m_dAsync == [] {
        return;
      }
      var h := m_dAsync[0];
      m_dAsync := m_dAsync[1..];
      slots[h] := slots[h].(event := LoopStop);
      m_mapAsync := m_mapAsync[h := h];
      pending := pending + {h};
    }

    /** libuv clears the flag of a pending handle and calls back. */
    method BeginCallback(h: nat)
      requires Valid() && Enabled(Snapshot(), Fire(h))
      modifies this`pending, this`phase
      ensures Valid() && Snapshot() == Next(old(Snapshot()), Fire(h))
      ensures pending == old(pending) - {h} && phase == Fired(h)
    {
      NextInv(Snapshot(), Fire(h));
      pending := pending - {h};
      phase := Fired(h);
    }

    /** The switch of the callback: run the closure, or stop the loop. */
    method RunArm() returns (ran: Option<Req>)
      requires Valid() && Enabled(Snapshot(), Invoke)
      modifies this`stopping, this`started, this`phase
      ensures Valid() && old(Safe(Snapshot(), Invoke)) && Snapshot() == Next(old(Snapshot()), Invoke)
      ensures ran == if old(slots[phase.h]).event == LoopStop then None else old(slots[phase.h]).cb
      ensures ran == None <==> old(slots[phase.h]).event == LoopStop
      ensures stopping <==> old(stopping) || ran == None
      ensures started == if ran == None then old(started) else old(started) + [ran.value]
      ensures phase == Ran(old(phase.h))
    {
      NextInv(Snapshot(), Invoke);
      var h := phase.h;
      ran := None;
      match slots[h].event {
        case LoopStop =>
          stopping := true;
        case _ =>
          ran := slots[h].cb;
          started := started + [slots[h].cb.value];
      }
      phase := Ran(h);
    }

    /** tcb = nullptr. */
    method ClearClosure()
      requires Valid() && Enabled(Snapshot(), Clear)
      modifies this`phase, slots
      ensures Valid() && old(Safe(Snapshot(), Clear)) && Snapshot() == Next(old(Snapshot()), Clear)
      ensures phase == Cleared(old(phase.h)) && phase.h < slots.Length
      ensures slots[..] == old(slots[..])[phase.h := old(slots[phase.h]).(cb := None)]
    {
      NextInv(Snapshot(), Clear);
      slots[phase.h] := slots[phase.h].(cb := None);
      phase := Cleared(phase.h);
    }

    /** The section under the lock at the end of the callback. The handle is
        always found. */
    method ReturnHandle()
      requires Valid() && Enabled(Snapshot(), Return)
      modifies this`m_dAsync, this`m_mapAsync, this`phase
      ensures Valid() && old(Safe(Snapshot(), Return)) && Snapshot() == Next(old(Snapshot()), Return)
      ensures m_dAsync == old(m_dAsync) + [old(phase.h)] && m_mapAsync == old(m_mapAsync) - {old(phase.h)}
      ensures phase == Idle
    {
      NextInv(Snapshot(), Return);
      var h := phase.h;
      if h !in m_mapAsync {
        assert false;
      } else {
        m_dAsync := m_dAsync + [m_mapAsync[h]];
        m_mapAsync := m_mapAsync - {h};
      }
      phase := Idle;
    }

    /** The end of theadRun, once uv_run has returned. */
    method Exit()
      requires Valid() && Enabled(Snapshot(), LoopModel.Exit)
      modifies this`m_bRunning
      ensures Valid() && Snapshot() == Next(old(Snapshot()), LoopModel.Exit) && !m_bRunning
    {
      NextInv(Snapshot(), LoopModel.Exit);
      m_bRunning := false;
    }
  }
}

/** The write side of uvconnect: real buffers and the real request pool, with
    each atomic section tied to a step of SendModel. */
module UvConnect {
  import opened SafeBuffers
  import opened SendModel
  import UvLoop

  /** Buffer b holds the data, followed by zeros, in the memory at base. */
  ghost predicate Keeps(b: SafeBuffer, data: seq<byte>, base: array?<byte>)
    reads b, base
  {
    b.Valid() && b.mem == base && b.Data() == data && AllZero(b.Tail())
  }

  /** The memory at base, if there is any, begins with the data. */
  ghost predicate Begins(base: array?<byte>, data: seq<byte>)
    reads base
  {
    if base == null then data == [] else |data| <= base.Length && base[..|data|] == data
  }

  /** The first bytes at base, as far as there are any. */
  ghost function Reading(base: array?<byte>, len: nat): seq<byte>
    reads base
  {
    if base == null then [] else if len <= base.Length then base[..len] else base[..]
  }

  /** tsafebuf of every stSend allocated; a record is known by its index. */
  class Buffers {
    var records: seq<SafeBuffer>
    ghost var bufs: seq<seq<byte>>
    ghost var bases: seq<array?<byte>>

    /** The buffer objects and their memory. */
    ghost var repr: set<object>

    /** The buffers are separate objects; buffer i keeps the bytes bufs[i] in the
        memory bases[i], if it has any, followed by zeros. */
    ghost predicate Valid()
      reads this, repr
    {
      && |records| == |bufs| == |bases|
      && (forall i :: 0 <= i < |records| ==> records[i] in repr && (bases[i] != null ==> bases[i] in repr))
      && (forall i :: 0 <= i < |records| ==> Keeps(records[i], bufs[i], bases[i]))
      && (forall i, j :: 0 <= i < j < |records| ==>
            records[i] != records[j] && (bases[i] == null || bases[i] != bases[j]))
    }

    constructor ()
      ensures Valid() && bufs == [] && repr == {}
    {
      records, bufs, bases, repr := [], [], [], {};
    }

    method Allocate() returns (r: nat)
      requires Valid()
      modifies this
      ensures Valid() && r == |old(bufs)| && bufs == old(bufs) + [[]]
      ensures bases == old(bases) + [bases[r]] && bases[r] != null && fresh(bases[r]) && bases[r].Length == 1024
      ensures fresh(repr - old(repr)) && repr >= old(repr)
    {
      var b := new SafeBuffer(DEFAULT_BUFFER_LEN);
      r := |records|;
      records, bufs, bases, repr := records + [b], bufs + [[]], bases + [b.mem], repr + {b, b.mem};
    }

    /** Empties one buffer where it is. */
    method ClearMem(r: nat)
      requires Valid() && r < |bufs|
      modifies this`bufs, repr
      ensures Valid() && bufs == old(bufs)[r := []]
    {
      hide Keeps;
      Empty(records[r], bufs[r], bases[r]);
      bufs := bufs[r := []];
    }

    /** Appends to one buffer, which may move, or lose its memory when that cannot
        be had; all others stay where they are. */
    method ReadMem(r: nat, block: seq<byte>, reallocOk: bool) returns (got: bool)
      requires Valid() && r < |bufs|
      modifies this`bufs, this`bases, this`repr, repr
      ensures Valid() && bufs == old(bufs)[r := if got then old(bufs)[r] + block else []]
      ensures bases == old(bases)[r := bases[r]] && (!got ==> bases[r] == null)
      ensures r < |records| && records[r].Valid() && (got <==> reallocOk || !old(records[r].MustGrow(|block|)))
      ensures fresh(repr - old(repr)) && repr >= old(repr)
    {
      hide Keeps, records[r].MustGrow, records[r].Valid;
      ghost var base;
      got, base := Append(records[r], block, bufs[r], bases[r], reallocOk);
      repr := repr + if base == null then {} else {base};
      bases := bases[r := base];
      bufs := bufs[r := if got then bufs[r] + block else []];
    }

    /** GetMemory and getDataLength, as tcpWrite passes them to uv_buf_init. */
    method Describe(r: nat) returns (base: array?<byte>, len: nat)
      requires Valid() && r < |bufs|
      ensures base == bases[r] && len == |bufs[r]| && Begins(base, bufs[r])
    {
      base := records[r].mem;
      len := records[r].dataLen;
    }

    /** The memory of a buffer begins with its bytes. */
    lemma BytesAtBase(r: nat)
      requires Valid() && r < |bufs|
      ensures bases[r] != null ==> bases[r] in repr
      ensures Begins(bases[r], bufs[r])
    {
      assert records[r].Data() == bufs[r];
    }
  }

  /** The buffers of the records being written, and of no others, are where
      uv_write was told they are. */
  ghost predicate Located(issued: map<nat, array?<byte>>, stages: seq<Stage>, bases: seq<array?<byte>>)
    requires |stages| == |bases|
  {
    && (forall r <- issued :: r < |stages| && bases[r] == issued[r])
    && (forall r :: 0 <= r < |stages| ==> (stages[r].Issued? <==> r in issued))
  }

  /** A record that is not being written may change and move. */
  lemma LocatedKept(issued: map<nat, array?<byte>>, stages: seq<Stage>, bases: seq<array?<byte>>, r: nat, stage: Stage,
                    bases': seq<array?<byte>>)
    requires |stages| == |bases| == |bases'| && Located(issued, stages, bases)
    requires r < |stages| && !stages[r].Issued? && !stage.Issued?
    requires bases' == bases || bases' == bases[r := bases'[r]]
    ensures Located(issued, stages[r := stage], bases')
    ensures SameStages(issued, stages, stages[r := stage])
  {}

  function Taken(stages: seq<Stage>, r: nat, stage: Stage): seq<Stage>
    requires r <= |stages|
  {
    if r == |stages| then stages + [stage] else stages[r := stage]
  }

  /** Which record a reservation takes, and what changes. */
  lemma ReserveTakes(s: State, block: seq<byte>)
    requires Inv(s) && Enabled(s, Reserve(block)) && Safe(s, Reserve(block))
    ensures var r := if s.dSend == [] then |s.bufs| else s.dSend[0];
      && |s.bufs| == |s.stages| && r <= |s.stages| && r !in s.mapSend && (r < |s.stages| ==> s.stages[r].Free?)
      && (r == |s.stages| <==> s.dSend == [])
      && Next(s, Reserve(block)) ==
           s.(entered := s.entered - 1, dSend := if s.dSend == [] then [] else s.dSend[1..],
              bufs := if s.dSend == [] then s.bufs + [[]] else s.bufs[r := []],
              mapSend := s.mapSend + {r}, stages := Taken(s.stages, r, Reserved(block)))
      && Taken(s.stages, r, Reserved(block))[r] == Reserved(block)
  {
    hide L.Inv, Bytes, Linked;
  }

  /** So may a record that is taken for a new write, old or new. */
  lemma LocatedTaken(issued: map<nat, array?<byte>>, stages: seq<Stage>, bases: seq<array?<byte>>, r: nat, stage: Stage,
                     bases': seq<array?<byte>>)
    requires |stages| == |bases| && Located(issued, stages, bases) && !stage.Issued? && r <= |stages|
    requires r < |stages| ==> !stages[r].Issued? && bases' == bases
    requires r == |stages| ==> |bases'| == r + 1 && bases' == bases + [bases'[r]]
    ensures |Taken(stages, r, stage)| == |bases'| && Located(issued, Taken(stages, r, stage), bases')
    ensures SameStages(issued, stages, Taken(stages, r, stage))
  {}

  lemma NotIssued(issued: map<nat, array?<byte>>, stages: seq<Stage>, bases: seq<array?<byte>>, r: nat)
    requires |stages| == |bases| && Located(issued, stages, bases) && r < |stages| && !stages[r].Issued?
    ensures r !in issued
  {}

  lemma LocatedIssued(issued: map<nat, array?<byte>>, stages: seq<Stage>, bases: seq<array?<byte>>, r: nat,
                      stage: Stage)
    requires |stages| == |bases| && Located(issued, stages, bases) && r < |stages| && stage.Issued?
    ensures Located(issued[r := bases[r]], stages[r := stage], bases)
    ensures var now := stages[r := stage]; SameStages(issued[r := bases[r]], now, now)
  {}

  lemma LocatedFreed(issued: map<nat, array?<byte>>, stages: seq<Stage>, bases: seq<array?<byte>>, r: nat)
    requires |stages| == |bases| && Located(issued, stages, bases) && r < |stages|
    ensures Located(issued - {r}, stages[r := Free], bases)
    ensures SameStages(issued - {r}, stages, stages[r := Free])
  {}

  ghost predicate SameStages(issued: map<nat, array?<byte>>, was: seq<Stage>, now: seq<Stage>) {
    forall q <- issued :: q < |was| && q < |now| && was[q] == now[q]
  }

  /** readmem on a machine whose sizes are wide enough. */
  method Append(b: SafeBuffer, block: seq<byte>, ghost data: seq<byte>, ghost base0: array?<byte>, reallocOk: bool)
    returns (got: bool, ghost base: array?<byte>)
    requires Keeps(b, data, base0)
    modifies b, base0
    ensures Keeps(b, if got then data + block else [], base) && (base == base0 || base == null || fresh(base))
    ensures b.Valid() && (!got ==> base == null) && (got <==> reallocOk || !old(b.MustGrow(|block|)))
  {
    var wide := b.bufferLen + Rounded(|block|) + DEFAULT_BUFFER_LEN + 1;
    GrowsEnoughIffNoWrap(b.dataLen, |block|, wide);
    var res := b.ReadMem(block, reallocOk, wide);
    got := res == Done;
    base := b.mem;
  }

  method Empty(b: SafeBuffer, ghost data: seq<byte>, ghost base: array?<byte>)
    requires Keeps(b, data, base)
    modifies b, base
    ensures Keeps(b, [], base)
  {
    b.ClearMem();
  }

  /** The fields of one connection. The state of the request pool it posts to
      is a parameter l: these sections leave it alone. */
  class Connect {
    var m_bConnectSuccess: bool
    var m_mapSend: set<nat>
    var m_dSend: seq<nat>
    const sends: Buffers

    // Where each wirteData call in progress is.
    var entered: nat
    var stages: seq<Stage>

    /** The records being written, and the memory whose address uv_write has. */
    ghost var issued: map<nat, array?<byte>>

    ghost function Snapshot(l: L.State): State
      reads this, sends
    {
      State(m_bConnectSuccess, entered, sends.bufs, m_mapSend, m_dSend, l, stages)
    }

    ghost predicate Valid(l: L.State)
      reads this, sends, sends.repr
    {
      && sends.Valid() && Separate() && Inv(Snapshot(l))
      && |stages| == |sends.bases| && Located(issued, stages, sends.bases)
    }

    ghost predicate Separate()
      reads this, sends
    {
      (this as object) !in sends.repr && (sends as object) !in sends.repr
    }

    /** For each of the given records, with the given stages, the memory whose
        address uv_write has still begins with what readmem took from its
        wirteData call. */
    ghost predicate StillWriting(bases: map<nat, array?<byte>>, was: seq<Stage>)
      reads this, set q <- bases :: bases[q]
    {
      forall q <- bases ::
        && q in issued && issued[q] == bases[q] && q < |was| && q < |stages| && stages[q] == was[q] && was[q].Issued?
        && was[q].len == |Got(was[q].block, was[q].got)| && Begins(bases[q], Got(was[q].block, was[q].got))
    }

    lemma BytesStay(bases: map<nat, array?<byte>>, was: seq<Stage>, l: L.State)
      requires Valid(l)
      requires bases.Keys <= issued.Keys && (forall q <- bases :: issued[q] == bases[q])
      requires SameStages(bases, was, stages)
      ensures StillWriting(bases, was)
    {
      forall q <- bases
        ensures was[q].Issued? && q < |sends.bufs| && sends.bufs[q] == Got(was[q].block, was[q].got)
        ensures was[q].len == |sends.bufs[q]| && bases[q] == sends.bases[q] && Begins(bases[q], sends.bufs[q])
      {
        sends.BytesAtBase(q);
      }
    }

    /** What is still being written since some time before was all that time. */
    lemma SameWritten(was: seq<Stage>, then_: seq<Stage>)
      requires StillWriting(issued, then_) && SameStages(issued, was, then_)
      ensures StillWriting(issued, was) && SameStages(issued, was, stages)
    {}

    constructor ()
      ensures Valid(L.Init()) && Snapshot(L.Init()) == Init() && issued == map[]
      ensures fresh(sends) && sends.repr == {}
    {
      m_bConnectSuccess, m_mapSend, m_dSend := false, {}, [];
      sends := new Buffers();
      entered, stages, issued := 0, [], map[];
      new;
      InitInv();
    }

    /** The callbacks of libuv set the flag when a connection comes or goes. */
    method SetConnected(b: bool, ghost l: L.State)
      requires Valid(l)
      modifies this`m_bConnectSuccess
      ensures Valid(l) && Snapshot(l) == Next(old(Snapshot(l)), SendModel.SetConnected(b)) && m_bConnectSuccess == b
      ensures old(Enabled(Snapshot(l), SendModel.SetConnected(b)) && Safe(Snapshot(l), SendModel.SetConnected(b)))
    {
      hide sends.Valid, L.Inv, Records, Bytes, Linked, Located;
      NextInv(Snapshot(l), SendModel.SetConnected(b));
      m_bConnectSuccess := b;
    }

    /** A step of the request pool that is not about a write leaves the connection
        as it is. */
    lemma PoolMoves(l: L.State, step: L.Step)
      requires Valid(l) && Enabled(Snapshot(l), OfLoop(step))
      ensures Safe(Snapshot(l), OfLoop(step)) && Valid(L.Next(l, step))
      ensures Snapshot(L.Next(l, step)) == Next(Snapshot(l), OfLoop(step))
    {
      hide sends.Valid, L.Inv, Records, Bytes, Linked, Located, L.Next, L.Safe, L.Enabled;
      OfLoopInv(Snapshot(l), step);
    }

    /** What is in memory where uv_write was told to look, for each record being
        written. */
    ghost function Sent(): map<nat, seq<byte>>
      reads this, set q <- issued :: issued[q]
    {
      map q | q in issued && q < |stages| && stages[q].Issued? :: Reading(issued[q], stages[q].len)
    }

    /** A record for a new write: an idle one with its buffer cleared, or a new
        one. All other buffers stay where they are. */
    method TakeRecord() returns (r: nat)
      requires sends.Valid() && Separate() && (m_dSend != [] ==> m_dSend[0] < |sends.bufs|)
      modifies this`m_dSend, sends, sends.repr
      ensures sends.Valid() && Separate() && fresh(sends.repr - old(sends.repr)) && sends.repr >= old(sends.repr)
      ensures if old(m_dSend) == []
              then r == |old(sends.bufs)| && m_dSend == [] && sends.bufs == old(sends.bufs) + [[]]
              else r == old(m_dSend)[0] && m_dSend == old(m_dSend)[1..] && sends.bufs == old(sends.bufs)[r := []]
      ensures if old(m_dSend) == [] then sends.bases == old(sends.bases) + [sends.bases[r]]
              else sends.bases == old(sends.bases)
    {
      if m_dSend == [] {
        r := sends.Allocate();
      } else {
        r := m_dSend[0];
        m_dSend := m_dSend[1..];
        sends.ClearMem(r);
      }
    }

    /** The section under m_writelock in wirteData. */
    method ReserveRecord(block: seq<byte>, ghost l: L.State) returns (r: nat)
      requires Valid(l) && Enabled(Snapshot(l), Reserve(block))
      modifies this`m_mapSend, this`m_dSend, this`entered, this`stages, sends, sends.repr
      ensures Valid(l) && fresh(sends.repr - old(sends.repr)) && sends.repr >= old(sends.repr)
      ensures m_bConnectSuccess == old(m_bConnectSuccess) && entered == old(entered) - 1
      ensures r !in old(m_mapSend) && m_mapSend == old(m_mapSend) + {r}
      ensures if old(m_dSend) == [] then r == |old(stages)| && m_dSend == []
              else r == old(m_dSend)[0] && m_dSend == old(m_dSend)[1..]
      ensures r < |stages| && stages[r] == Reserved(block) && (forall got :: Enabled(Snapshot(l), Fill(r, got)))
      ensures old(Safe(Snapshot(l), Reserve(block))) && Snapshot(l) == Next(old(Snapshot(l)), Reserve(block))
      ensures issued == old(issued) && StillWriting(old(issued), old(stages))
    {
      hide sends.Valid, Inv, Next, Safe, StillWriting, SameStages, Snapshot;
      r := MarkReserved(block, l);
      BytesStay(issued, old(stages), l);
    }

    method MarkReserved(block: seq<byte>, ghost l: L.State) returns (r: nat)
      requires Valid(l) && Enabled(Snapshot(l), Reserve(block))
      modifies this`m_mapSend, this`m_dSend, this`entered, this`stages, sends, sends.repr
      ensures Valid(l) && fresh(sends.repr - old(sends.repr)) && sends.repr >= old(sends.repr)
      ensures m_bConnectSuccess == old(m_bConnectSuccess) && entered == old(entered) - 1
      ensures r !in old(m_mapSend) && m_mapSend == old(m_mapSend) + {r}
      ensures if old(m_dSend) == [] then r == |old(stages)| && m_dSend == []
              else r == old(m_dSend)[0] && m_dSend == old(m_dSend)[1..]
      ensures r < |stages| && stages[r] == Reserved(block) && (forall got :: Enabled(Snapshot(l), Fill(r, got)))
      ensures old(Safe(Snapshot(l), Reserve(block))) && Snapshot(l) == Next(old(Snapshot(l)), Reserve(block))
      ensures issued == old(issued) && SameStages(issued, old(stages), stages)
    {
      hide sends.Valid, Inv, Next, Safe, Located, Taken, SameStages;
      ReserveInv(Snapshot(l), block);
      ReserveTakes(Snapshot(l), block);
      r := TakeRecord();
      m_mapSend := m_mapSend + {r};
      entered := entered - 1;
      LocatedTaken(issued, stages, old(sends.bases), r, Reserved(block), sends.bases);
      stages := Taken(stages, r, Reserved(block));
    }

    /** readmem in wirteData, outside any lock; its answer is ignored. */
    method FillRecord(r: nat, block: seq<byte>, reallocOk: bool, ghost l: L.State) returns (got: bool)
      requires Valid(l) && r < |stages| && stages[r] == Reserved(block)
      modifies this`stages, sends, sends.repr
      ensures Valid(l) && old(Safe(Snapshot(l), Fill(r, got))) && Snapshot(l) == Next(old(Snapshot(l)), Fill(r, got))
      ensures fresh(sends.repr - old(sends.repr)) && sends.repr >= old(sends.repr)
      ensures stages == old(stages)[r := Filled(block, got)] && r < |sends.bufs| && sends.bufs[r] == Got(block, got)
      ensures m_mapSend == old(m_mapSend) && issued == old(issued) && StillWriting(issued, old(stages))
      ensures entered == old(entered) && m_bConnectSuccess == old(m_bConnectSuccess) && m_dSend == old(m_dSend)
      ensures reallocOk ==> got
    {
      hide sends.Valid, L.Inv, Records, Linked, StillWriting, Located;
      FillInv(Snapshot(l), r, true);
      FillInv(Snapshot(l), r, false);
      got := sends.ReadMem(r, block, reallocOk);
      LocatedKept(issued, stages, old(sends.bases), r, Filled(block, got), sends.bases);
      stages := stages[r := Filled(block, got)];
      BytesStay(issued, old(stages), l);
    }

    /** The AddReq call that ends wirteData. */
    method SubmitRecord(r: nat, ticket: nat, loop: UvLoop.Loop) returns (ok: bool)
      requires Valid(loop.Snapshot()) && Enabled(Snapshot(loop.Snapshot()), Submit(r, ticket, loop.m_bRunning))
      requires Apart(loop)
      modifies this`stages, loop`m_dAsync, loop`m_mapAsync, loop`pending, loop`accepted, loop.slots
      ensures Valid(loop.Snapshot())
      ensures old(Safe(Snapshot(loop.Snapshot()), Submit(r, ticket, loop.m_bRunning)))
      ensures Snapshot(loop.Snapshot()) ==
              Next(old(Snapshot(loop.Snapshot())), Submit(r, ticket, old(loop.m_bRunning)))
      ensures ok <==> old(loop.m_bRunning && loop.m_dAsync != [])
      ensures r < |stages| && if ok then stages[r].Posted? && stages[r].block == old(stages)[r].block
                                         && stages[r].got == old(stages)[r].got
                              else stages[r] == Lost(old(stages)[r].block)
      ensures StillWriting(issued, old(stages))
    {
      hide L.Inv, Records, Bytes, Linked, sends.Valid, StillWriting, Located;
      SubmitInv(Snapshot(loop.Snapshot()), r, ticket, loop.m_bRunning);
      var front := if loop.m_dAsync == [] then 0 else loop.m_dAsync[0];
      var err := loop.AddReq(L.TcpWrite, L.Req(ticket, L.Write(r)));
      ok := err == L.NoErr;
      var stage := if ok then Posted(stages[r].block, stages[r].got, front) else Lost(stages[r].block);
      LocatedKept(issued, stages, sends.bases, r, stage, sends.bases);
      stages := stages[r := stage];
      BytesStay(issued, old(stages), loop.Snapshot());
    }

    ghost predicate Apart(loop: UvLoop.Loop)
      reads sends
    {
      (loop as object) !in sends.repr && (loop.slots as object) !in sends.repr
    }

    /** tcpWrite: with a connection it issues uv_write for the first len bytes
        at base; without one it returns. */
    method TcpWrite(r: nat) returns (done: bool, base: array?<byte>, len: nat)
      requires sends.Valid() && Separate() && r < |stages| == |sends.bufs| && stages[r].Posted?
      modifies this`stages, this`issued
      ensures sends.Valid() && Separate()
      ensures done == m_bConnectSuccess && len == (if done then |sends.bufs[r]| else 0)
      ensures done ==> base == sends.bases[r] && Begins(base, sends.bufs[r])
      ensures done ==> stages == old(stages)[r := Issued(old(stages)[r].block, old(stages)[r].got, len)]
      ensures !done ==> stages == old(stages)[r := Lost(old(stages)[r].block)]
      ensures issued == if done then old(issued)[r := base] else old(issued)
    {
      if !m_bConnectSuccess {
        stages := stages[r := Lost(stages[r].block)];
        return false, null, 0;
      }
      base, len := sends.Describe(r);
      stages := stages[r := Issued(stages[r].block, stages[r].got, len)];
      issued := issued[r := base];
      return true, base, len;
    }

    /** The loop thread runs a tcpWrite closure: what goes to uv_write are the
        bytes of the wirteData call, and that memory is watched from then on. */
    method RunWrite(loop: UvLoop.Loop, ghost s: State) returns (r: nat, done: bool, base: array?<byte>, len: nat)
      requires Valid(loop.Snapshot()) && Apart(loop)
      requires s == Snapshot(loop.Snapshot()) && Enabled(s, SendModel.TcpWrite)
      modifies this`stages, this`issued, loop`stopping, loop`started, loop`phase
      ensures Valid(loop.Snapshot())
      ensures Safe(s, SendModel.TcpWrite) && Snapshot(loop.Snapshot()) == Next(s, SendModel.TcpWrite)
      ensures r < |s.stages| && s.stages[r].Posted? && done == s.connected
      ensures done ==>
              var sent := Got(s.stages[r].block, s.stages[r].got);
              len == |sent| && Begins(base, sent)
      ensures loop.stopping == old(loop.stopping) && |loop.started| == |old(loop.started)| + 1
      ensures issued == if done then old(issued)[r := base] else old(issued)
      ensures r !in old(issued) && StillWriting(issued, stages)
    {
      hide Records, Bytes, Linked, Next, Safe, L.Inv, L.Next, L.Safe, sends.Valid, L.Enabled, StillWriting, Located;
      TcpWriteInv(s);
      PostedAtWrite(s);
      var ran := loop.RunArm();
      r := ran.value.action.rec;
      assert r == RecordAt(s.loop);
      LocatedKept(issued, stages, sends.bases, r, Lost(stages[r].block), sends.bases);
      NotIssued(issued, stages, sends.bases, r);
      LocatedIssued(issued, stages, sends.bases, r, Issued(stages[r].block, stages[r].got, |sends.bufs[r]|));
      done, base, len := TcpWrite(r);
      assert Snapshot(loop.Snapshot()) == Next(s, SendModel.TcpWrite);
      BytesStay(issued, stages, loop.Snapshot());
    }

    /** The completion callback of uv_write: its request is always in the map. */
    method WriteDone(r: nat, ghost l: L.State)
      requires Valid(l) && Enabled(Snapshot(l), Complete(r))
      modifies this`m_mapSend, this`m_dSend, this`stages, this`issued
      ensures Valid(l) && old(Safe(Snapshot(l), Complete(r))) && Snapshot(l) == Next(old(Snapshot(l)), Complete(r))
      ensures m_dSend == old(m_dSend) + [r] && m_mapSend == old(m_mapSend) - {r}
      ensures m_bConnectSuccess == old(m_bConnectSuccess) && entered == old(entered)
      ensures issued == old(issued) - {r} && StillWriting(issued, old(stages))
    {
      hide sends.Valid, L.Inv, Bytes, Linked, StillWriting, Located;
      CompleteInv(Snapshot(l), r);
      LocatedFreed(issued, stages, sends.bases, r);
      if r !in m_mapSend {
        assert false;
      } else {
        m_dSend := m_dSend + [r];
        m_mapSend := m_mapSend - {r};
      }
      stages := stages[r := Free];
      issued := issued - {r};
      BytesStay(issued, old(stages), l);
    }

    /** wirteData as one thread runs it when no other step falls in between: with
        a request pool and a connection, a record is taken and filled, and what
        AddReq says of the closure decides whether it is posted or lost. */
    method WirteData(block: seq<byte>, reallocOk: bool, ticket: nat, loop: UvLoop.Loop?)
      returns (ok: bool, r: nat, got: bool)
      requires loop != null ==> Valid(loop.Snapshot()) && Apart(loop)
      requires loop != null ==> forall a: L.Action :: L.Req(ticket, a) !in loop.accepted
      modifies this`m_mapSend, this`m_dSend, this`entered, this`stages, sends, sends.repr
      modifies loop, if loop == null then {} else {loop.slots}
      ensures m_bConnectSuccess == old(m_bConnectSuccess)
      ensures fresh(sends.repr - old(sends.repr)) && sends.repr >= old(sends.repr)
      ensures !old(m_bConnectSuccess) || loop == null ==>
              !ok && unchanged(this, sends) && (loop != null ==> unchanged(loop, loop.slots))
      ensures old(m_bConnectSuccess) && loop != null ==>
              && Valid(loop.Snapshot()) && (ok <==> old(loop.m_bRunning && loop.m_dAsync != []))
              && Wrote(old(Snapshot(loop.Snapshot())), Snapshot(loop.Snapshot()), block, r, got, ticket,
                       old(loop.m_bRunning))
              && r !in old(m_mapSend) && m_mapSend == old(m_mapSend) + {r} && r < |stages| && (reallocOk ==> got)
              && (if ok then stages[r].Posted? && stages[r].block == block && stages[r].got == got
                  else stages[r] == Lost(block))
              && issued == old(issued) && StillWriting(issued, old(stages))
    {
      r, got := 0, false;
      if !m_bConnectSuccess {
        return false, r, got;
      }
      if loop == null {
        return false, r, got;
      }
      ok, r, got := WriteConnected(block, reallocOk, ticket, loop);
    }

    /** The test of m_bConnectSuccess in wirteData. */
    method EnterCall(ghost block: seq<byte>, ghost l: L.State)
      requires Valid(l) && m_bConnectSuccess
      modifies this`entered
      ensures Valid(l) && Snapshot(l) == Next(old(Snapshot(l)), Enter)
      ensures old(Enabled(Snapshot(l), Enter) && Safe(Snapshot(l), Enter))
      ensures Enabled(Snapshot(l), Reserve(block)) && SameStages(issued, stages, stages)
      ensures StillWriting(issued, stages)
    {
      hide L.Inv, Records, Bytes, Linked, sends.Valid, StillWriting;
      NextInv(Snapshot(l), Enter);
      entered := entered + 1;
      BytesStay(issued, stages, l);
    }

    /** wirteData from where a connection and a pool have been found. */
    method WriteConnected(block: seq<byte>, reallocOk: bool, ticket: nat, loop: UvLoop.Loop)
      returns (ok: bool, r: nat, got: bool)
      requires Valid(loop.Snapshot()) && Apart(loop) && m_bConnectSuccess
      requires forall a: L.Action :: L.Req(ticket, a) !in loop.accepted
      modifies this`m_mapSend, this`m_dSend, this`entered, this`stages, sends, sends.repr, loop, loop.slots
      ensures m_bConnectSuccess == old(m_bConnectSuccess) && m_mapSend == old(m_mapSend) + {r}
      ensures fresh(sends.repr - old(sends.repr)) && sends.repr >= old(sends.repr)
      ensures Valid(loop.Snapshot()) && (ok <==> old(loop.m_bRunning && loop.m_dAsync != []))
      ensures Wrote(old(Snapshot(loop.Snapshot())), Snapshot(loop.Snapshot()), block, r, got, ticket,
                    old(loop.m_bRunning))
      ensures r !in old(m_mapSend) && r < |stages| && (reallocOk ==> got)
      ensures if ok then stages[r].Posted? && stages[r].block == block && stages[r].got == got
              else stages[r] == Lost(block)
      ensures issued == old(issued) && StillWriting(issued, old(stages))
    {
      hide Valid, Snapshot, StillWriting, SameStages, Wrote, Enabled, Safe, Next;
      ghost var l, was := loop.Snapshot(), stages;
      ghost var s := Snapshot(l);
      EnterCall(block, l);
      ghost var s0 := Snapshot(l);
      r := ReserveRecord(block, l);
      ghost var s1, was1 := Snapshot(l), stages;
      SameWritten(was, was);
      got := FillRecord(r, block, reallocOk, l);
      ghost var s2, was2 := Snapshot(l), stages;
      SameWritten(was, was1);
      ok := SubmitNew(r, block, got, ticket, loop, l);
      SameWritten(was, was2);
      WroteInSteps(s, s0, s1, s2, Snapshot(loop.Snapshot()), block, r, got, ticket, old(loop.m_bRunning));
    }

    method SubmitNew(r: nat, ghost block: seq<byte>, ghost got: bool, ticket: nat, loop: UvLoop.Loop, ghost l: L.State)
      returns (ok: bool)
      requires l == loop.Snapshot() && Valid(l) && Apart(loop)
      requires r < |stages| && stages[r] == Filled(block, got) && L.Req(ticket, L.Write(r)) !in l.accepted
      modifies this`stages, loop, loop.slots
      ensures Valid(loop.Snapshot())
      ensures old(Enabled(Snapshot(l), Submit(r, ticket, loop.m_bRunning)))
      ensures old(Safe(Snapshot(l), Submit(r, ticket, loop.m_bRunning)))
      ensures Snapshot(loop.Snapshot()) == Next(old(Snapshot(l)), Submit(r, ticket, old(loop.m_bRunning)))
      ensures ok <==> old(loop.m_bRunning && loop.m_dAsync != [])
      ensures r < |stages|
      ensures if ok then stages[r].Posted? && stages[r].block == block && stages[r].got == got
              else stages[r] == Lost(block)
      ensures StillWriting(issued, old(stages))
    {
      ok := SubmitRecord(r, ticket, loop);
    }
  }

  /** The four steps of one wirteData call, one after the other. */
  ghost predicate Wrote(s: State, s': State, block: seq<byte>, r: nat, got: bool, ticket: nat, sawRunning: bool) {
    Enabled(s, Enter) &&
    var s0 := Next(s, Enter);
    Enabled(s0, Reserve(block)) && Safe(s0, Reserve(block)) &&
    var s1 := Next(s0, Reserve(block));
    Enabled(s1, Fill(r, got)) && Safe(s1, Fill(r, got)) &&
    var s2 := Next(s1, Fill(r, got));
    var submit := Submit(r, ticket, sawRunning);
    Enabled(s2, submit) && Safe(s2, submit) && s' == Next(s2, submit)
  }

  lemma WroteInSteps(s: State, s0: State, s1: State, s2: State, s': State,
                     block: seq<byte>, r: nat, got: bool, ticket: nat, sawRunning: bool)
    requires Enabled(s, Enter) && s0 == Next(s, Enter)
    requires Enabled(s0, Reserve(block)) && Safe(s0, Reserve(block)) && s1 == Next(s0, Reserve(block))
    requires Enabled(s1, Fill(r, got)) && Safe(s1, Fill(r, got)) && s2 == Next(s1, Fill(r, got))
    requires var submit := Submit(r, ticket, sawRunning);
      Enabled(s2, submit) && Safe(s2, submit) && s' == Next(s2, submit)
    ensures Wrote(s, s', block, r, got, ticket, sawRunning)
  {}
}

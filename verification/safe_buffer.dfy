/** The growable buffer of util/safebuffer.cpp. Heap allocation is modelled by
    its outcome: whether realloc succeeds, and what fresh memory happens to hold. */
module SafeBuffers {

  newtype byte = x: int | 0 <= x < 256

  const DEFAULT_BUFFER_LEN: nat := 1024

  /** The bytes fresh memory happens to hold. */
  type Garbage = nat -> byte

  ghost predicate AllZero(s: seq<byte>) {
    forall i :: 0 <= i < |s| ==> s[i] == 0
  }

  /** The least multiple of 1024 above the length. */
  function Rounded(len: nat): (r: nat)
    ensures len < r <= len + 1024 && r % 1024 == 0
  {
    (len / DEFAULT_BUFFER_LEN + 1) * DEFAULT_BUFFER_LEN
  }

  /** The size readmem asks for, in an unsigned long of the given modulus. */
  function GrowTo(dataLen: nat, len: nat, modulus: nat): nat
    requires modulus > 0
  {
    (dataLen + Rounded(len)) % modulus
  }

  /** The growth leaves room for the block and one byte more exactly when the
      size does not wrap around. */
  lemma GrowsEnoughIffNoWrap(dataLen: nat, len: nat, modulus: nat)
    requires modulus > DEFAULT_BUFFER_LEN
    ensures GrowTo(dataLen, len, modulus) > dataLen + len <==> dataLen + Rounded(len) < modulus
    ensures GrowTo(dataLen, len, modulus) >= dataLen + len <==> dataLen + Rounded(len) < modulus
    ensures dataLen + Rounded(len) < modulus ==> GrowTo(dataLen, len, modulus) == dataLen + Rounded(len)
  {
    hide Rounded;
    Wrapped(dataLen + Rounded(len), modulus);
  }

  lemma Wrapped(x: nat, m: nat)
    requires m > 0
    ensures x < m ==> x % m == x
    ensures x >= m ==> x % m <= x - m
  {}

  /** The size asked for is the sum that is needed, as far as it fits. */
  lemma GrowsModulo(dataLen: nat, len: nat, modulus: nat)
    requires modulus > 0
    ensures var n := GrowTo(dataLen, len, modulus);
      n < modulus && exists k: nat :: dataLen + Rounded(len) == k * modulus + n
  {
    var x := dataLen + Rounded(len);
    assert x == x / modulus * modulus + x % modulus;
  }

  /** The least multiple of 1024 above len. */
  ghost predicate LeastAbove(n: int, len: nat) {
    len < n <= len + 1024 && n % 1024 == 0
  }

  lemma RoundedIsLeast(len: nat, n: int)
    ensures LeastAbove(n, len) <==> n == Rounded(len)
  {}

  /** Where an unsigned long of 32 bits is too small, the growth asks for nothing. */
  lemma GrowsToNothing()
    ensures GrowTo(0, 0xFFFF_FFFF, 0x1_0000_0000) == 0
  {}

  /** What comes of a readmem: the block is in the buffer, or realloc failed, or
      the memcpy would leave the buffer. Nothing is said of a buffer after the
      last. */
  datatype Outcome = Done | NoMemory | Overrun

  ghost function Zeros(n: nat): seq<byte> {
    seq(n, i => 0)
  }

  /** The bytes behind the data after operator= into a buffer without memory,
      for a source with d bytes of data in a capacity of n. */
  ghost function TailLeft(d: nat, n: nat, garbage: Garbage, modulus: nat): seq<byte>
    requires d <= n
  {
    if d < n then seq(n - d, (i: nat) => garbage(d + i))
    else if Rounded(d) < modulus then Zeros(Rounded(d) - d)
    else []
  }

  lemma LeftBehind(before: seq<byte>, after: seq<byte>, d: nat, n: nat, garbage: Garbage, modulus: nat)
    requires d <= n == |before| && forall i: nat :: i < n ==> before[i] == garbage(i)
    requires d < n ==> after == before[d..]
    requires d == n ==> AllZero(after) && |after| == if Rounded(d) < modulus then Rounded(d) - d else 0
    ensures after == TailLeft(d, n, garbage, modulus)
  {}

  /** Whatever fresh memory holds, zeros follow the data, if and only if the data
      fill the capacity of the source and growing does not wrap around. */
  lemma ZeroTailIff(d: nat, n: nat, modulus: nat)
    requires d <= n
    ensures (forall garbage: Garbage ::
               TailLeft(d, n, garbage, modulus) != [] && AllZero(TailLeft(d, n, garbage, modulus)))
            <==> d == n && Rounded(d) < modulus
  {
    var ones: Garbage := (i: nat) => 1;
    var tail := TailLeft(d, n, ones, modulus);
    if d < n {
      assert tail[0] == 1;
    } else if Rounded(d) >= modulus {
      assert tail == [];
    }
  }

  /** All zero from position k on. */
  ghost predicate ZeroFrom(s: seq<byte>, k: int) {
    forall i :: 0 <= i < |s| && k <= i ==> s[i] == 0
  }

  /** Clearing n bytes of data and writing d new ones over what follows leaves
      zeros exactly where there were zeros before. */
  lemma ClearedTail(n: nat, tail: seq<byte>, d: nat)
    ensures d <= n + |tail| ==> (AllZero((Zeros(n) + tail)[d..]) <==> ZeroFrom(tail, d - n))
  {
    if d <= n + |tail| {
      var rest := (Zeros(n) + tail)[d..];
      assert forall i :: 0 <= i < |rest| ==> rest[i] == if d + i < n then 0 else tail[d + i - n];
      if AllZero(rest) {
        forall i | 0 <= i < |tail| && d - n <= i ensures tail[i] == 0 {
          assert rest[n + i - d] == tail[i];
        }
      }
    }
  }

  method Malloc(n: nat, garbage: Garbage) returns (m: array<byte>)
    ensures fresh(m) && m.Length == n && forall i: nat :: i < n ==> m[i] == garbage(i)
  {
    m := new byte[n]((i: nat) => garbage(i));
  }

  class SafeBuffer {
    var mem: array?<byte>
    var bufferLen: nat
    var dataLen: nat

    ghost predicate Valid()
      reads this
    {
      if mem == null then bufferLen == 0 && dataLen == 0
      else mem.Length == bufferLen && dataLen <= bufferLen
    }

    ghost function Data(): seq<byte>
      requires Valid()
      reads this, mem
    {
      if mem == null then [] else mem[..dataLen]
    }

    ghost function Tail(): seq<byte>
      requires Valid()
      reads this, mem
    {
      if mem == null then [] else mem[dataLen..]
    }

    /** The data is followed by zero bytes, and by at least one. */
    ghost predicate Terminated()
      requires Valid()
      reads this, mem
    {
      Tail() != [] && AllZero(Tail())
    }

    constructor (bufflen: nat)
      ensures Valid() && mem != null && fresh(mem) && bufferLen == bufflen
      ensures Data() == [] && AllZero(Tail()) && (Terminated() <==> bufflen > 0)
    {
      mem := new byte[bufflen](_ => 0);
      bufferLen := bufflen;
      dataLen := 0;
    }

    /** A buffer of n bytes that begins with the block. */
    constructor Holding(block: seq<byte>, n: nat)
      requires |block| <= n
      ensures Valid() && mem != null && fresh(mem) && Data() == block && AllZero(Tail()) && bufferLen == n
    {
      var m := new byte[n](i => if 0 <= i < |block| then block[i] else 0);
      mem := m;
      bufferLen := n;
      dataLen := |block|;
      new;
      assert Data() == block;
    }

    /** The constructor from a block of memory, on a machine whose unsigned long
        wraps at modulus: its memcpy stays inside the buffer exactly when the
        rounded size does not wrap around. */
    static method FromBlock(block: seq<byte>, modulus: nat) returns (b: SafeBuffer?, res: Outcome)
      requires modulus > DEFAULT_BUFFER_LEN && |block| < modulus
      ensures res == if Rounded(|block|) < modulus then Done else Overrun
      ensures res.Done? ==>
              && b != null && fresh(b) && b.Valid() && b.mem != null && fresh(b.mem)
              && b.Data() == block && b.Terminated()
              && LeastAbove(b.bufferLen, |block|)
    {
      var n := Rounded(|block|) % modulus;
      GrowsEnoughIffNoWrap(0, |block|, modulus);
      if |block| > n {
        return null, Overrun;
      }
      b := new SafeBuffer.Holding(block, n);
      res := Done;
    }

    constructor Copy(other: SafeBuffer)
      requires other.Valid()
      ensures Valid() && mem != null && fresh(mem) && Data() == other.Data() && bufferLen == other.bufferLen
      ensures AllZero(Tail()) && (Terminated() <==> other.dataLen < other.bufferLen)
    {
      var n := other.bufferLen;
      var d := other.dataLen;
      var o := if other.mem == null then [] else other.mem[..d];
      var m := new byte[n](i => if 0 <= i < |o| then o[i] else 0);
      mem := m;
      bufferLen := n;
      dataLen := d;
      new;
      assert Data() == o;
    }

    /** ClearMem: forget the data and zero the bytes it occupied. */
    method ClearMem()
      requires Valid()
      modifies this, mem
      ensures Valid() && mem == old(mem) && bufferLen == old(bufferLen)
      ensures Data() == []
      ensures AllZero(old(Tail())) ==> AllZero(Tail())
      ensures mem != null ==> Tail() == Zeros(old(dataLen)) + old(Tail())
    {
      if mem != null {
        ghost var tail := Tail();
        forall i | 0 <= i < dataLen {
          mem[i] := 0;
        }
        assert mem[dataLen..] == tail;
        assert AllZero(tail) ==> forall i :: dataLen <= i < mem.Length ==> mem[i] == tail[i - dataLen];
      }
      dataLen := 0;
    }

    /** resize. A failed realloc loses the data; realloc of no memory allocates. */
    method Resize(len: nat, reallocOk: bool) returns (ok: bool)
      requires Valid()
      modifies this
      ensures Valid() && (ok <==> len <= old(bufferLen) || reallocOk)
      ensures ok ==> Data() == old(Data()) && bufferLen == if len <= old(bufferLen) then old(bufferLen) else len
      ensures ok ==> if len <= old(bufferLen) then mem == old(mem)
                     else mem != null && fresh(mem) && AllZero(Tail())
      ensures !ok ==> mem == null
    {
      if len <= bufferLen {
        return true;
      }
      if !reallocOk {
        mem, bufferLen, dataLen := null, 0, 0;
        return false;
      }
      var old_ := mem;
      ghost var d := Data();
      mem := new byte[len];
      if old_ != null {
        forall i | 0 <= i < old_.Length {
          mem[i] := old_[i];
        }
      }
      bufferLen := len;
      forall i | dataLen <= i < bufferLen {
        mem[i] := 0;
      }
      assert Data() == d;
      return true;
    }

    /** readmem must grow when the block would not leave a byte to spare. */
    ghost predicate MustGrow(len: nat)
      requires Valid()
      reads this
    {
      mem != null && len >= bufferLen - dataLen
    }

    /** A block of this length leaves a byte to spare, perhaps after growing. */
    ghost predicate Spare(len: nat, modulus: nat)
      requires Valid()
      reads this
    {
      (mem != null && !MustGrow(len)) || dataLen + Rounded(len) < modulus
    }

    /** A block of this length fits: it leaves a byte to spare, or fills the
        buffer to the last byte. */
    ghost predicate Fits(len: nat, modulus: nat)
      requires Valid()
      reads this
    {
      Spare(len, modulus) || (mem != null && dataLen + len == bufferLen)
    }

    /** readmem calls realloc. */
    ghost predicate Reallocates(len: nat, modulus: nat)
      requires Valid() && modulus > 0
      reads this
    {
      MustGrow(len) && bufferLen < GrowTo(dataLen, len, modulus)
    }

    /** The test of readmem and its call of resize. */
    method MakeRoom(len: nat, reallocOk: bool, modulus: nat) returns (ok: bool)
      requires Valid() && mem != null && modulus > DEFAULT_BUFFER_LEN && bufferLen < modulus
      modifies this
      ensures Valid() && bufferLen < modulus && (ok <==> old(Reallocates(len, modulus)) ==> reallocOk)
      ensures ok && old(Reallocates(len, modulus)) ==> bufferLen == GrowTo(dataLen, len, modulus)
      ensures ok ==> mem != null && Data() == old(Data()) && old(bufferLen) <= bufferLen
      ensures ok ==> if old(Reallocates(len, modulus)) then fresh(mem) && AllZero(Tail())
                     else mem == old(mem) && Tail() == old(Tail())
      ensures ok ==> (len < bufferLen - dataLen <==> old(Spare(len, modulus)))
      ensures ok ==> (len <= bufferLen - dataLen <==> old(Fits(len, modulus)))
      ensures !ok ==> mem == null
    {
      GrowsEnoughIffNoWrap(dataLen, len, modulus);
      if len >= bufferLen - dataLen {
        ok := Resize(GrowTo(dataLen, len, modulus), reallocOk);
      } else {
        ok := true;
      }
    }

    /** readmem, on a machine whose unsigned long wraps at modulus: append a block.
        The copy stays inside the buffer exactly when the block fits. */
    method ReadMem(block: seq<byte>, reallocOk: bool, modulus: nat) returns (res: Outcome)
      requires Valid() && modulus > DEFAULT_BUFFER_LEN && bufferLen < modulus && |block| < modulus
      modifies this, mem
      ensures Valid() && bufferLen < modulus
      ensures res.NoMemory? <==> old(Reallocates(|block|, modulus)) && !reallocOk
      ensures res.Overrun? <==> !res.NoMemory? && !old(Fits(|block|, modulus))
      ensures res.Done? ==> mem != null && Data() == old(Data()) + block
      ensures res.Done? ==> (Tail() != [] <==> old(Spare(|block|, modulus)))
      ensures res.Done? && (AllZero(old(Tail())) || old(Reallocates(|block|, modulus))) ==> AllZero(Tail())
      ensures res.Done? && old(Reallocates(|block|, modulus)) ==> bufferLen == old(GrowTo(dataLen, |block|, modulus))
      ensures res.Done? && old(mem == null) ==> LeastAbove(bufferLen, |block|)
      ensures res.Done? && old(mem != null && |block| < bufferLen - dataLen) ==>
              mem == old(mem) && bufferLen == old(bufferLen)
      ensures res.Done? && old(mem != null && bufferLen - dataLen <= |block| && Spare(|block|, modulus)) ==>
              fresh(mem) && LeastAbove(bufferLen - old(dataLen), |block|)
      ensures res.NoMemory? ==> mem == null
      ensures mem == old(mem) || mem == null || fresh(mem)
      ensures res.Done? && old(mem != null && !Reallocates(|block|, modulus)) ==>
              mem == old(mem) && Tail() == old(Tail())[|block|..]
    {
      hide Rounded, LeastAbove, GrowTo, AllZero;
      RoundedIsLeast(|block|, Rounded(|block|));
      GrowsEnoughIffNoWrap(dataLen, |block|, modulus);
      if mem == null {
        AllocateFor(|block|, modulus);
      }
      res := ReadInto(block, reallocOk, modulus);
    }

    /** The malloc of readmem. */
    method AllocateFor(len: nat, modulus: nat)
      requires Valid() && mem == null && modulus > DEFAULT_BUFFER_LEN && len < modulus
      modifies this
      ensures Valid() && mem != null && fresh(mem) && bufferLen < modulus
      ensures Data() == [] && AllZero(Tail()) && bufferLen == GrowTo(0, len, modulus)
    {
      bufferLen := Rounded(len) % modulus;
      mem := new byte[bufferLen](_ => 0);
      dataLen := 0;
    }

    /** readmem into a buffer with memory. */
    method ReadInto(block: seq<byte>, reallocOk: bool, modulus: nat) returns (res: Outcome)
      requires Valid() && mem != null
      requires modulus > DEFAULT_BUFFER_LEN && bufferLen < modulus && |block| < modulus
      modifies this, mem
      ensures Valid() && bufferLen < modulus
      ensures res.NoMemory? <==> old(Reallocates(|block|, modulus)) && !reallocOk
      ensures res.Overrun? <==> !res.NoMemory? && !old(Fits(|block|, modulus))
      ensures res.Done? ==> mem != null && Data() == old(Data()) + block
      ensures res.Done? ==> (Tail() != [] <==> old(Spare(|block|, modulus)))
      ensures res.Done? && (AllZero(old(Tail())) || old(Reallocates(|block|, modulus))) ==> AllZero(Tail())
      ensures res.Done? && old(Reallocates(|block|, modulus)) ==>
              fresh(mem) && bufferLen == old(GrowTo(dataLen, |block|, modulus))
      ensures res.NoMemory? ==> mem == null
      ensures mem == old(mem) || mem == null || fresh(mem)
      ensures res.Done? && old(!Reallocates(|block|, modulus)) ==>
              mem == old(mem) && bufferLen == old(bufferLen) && Tail() == old(Tail())[|block|..]
    {
      hide Rounded, GrowTo;
      var ok := MakeRoom(|block|, reallocOk, modulus);
      if !ok {
        return NoMemory;
      }
      if |block| > bufferLen - dataLen {
        return Overrun;
      }
      CopyIn(block);
      return Done;
    }

    /** The memcpy at the end of readmem, when it stays inside the buffer. */
    method CopyIn(block: seq<byte>)
      requires Valid() && mem != null && |block| <= bufferLen - dataLen
      modifies this`dataLen, mem
      ensures Valid() && Data() == old(Data()) + block && Tail() == old(Tail())[|block|..]
      ensures |Tail()| == old(bufferLen - dataLen) - |block|
    {
      forall i | 0 <= i < |block| {
        mem[dataLen + i] := block[i];
      }
      dataLen := dataLen + |block|;
      assert Data() == old(Data()) + block;
    }

    /** operator= for a target that has no buffer: malloc does not clear what it
        returns, so whatever the fresh memory held follows the data, unless the
        data fill the capacity and readmem has to grow it. */
    method AssignToNull(other: SafeBuffer, garbage: Garbage, reallocOk: bool, modulus: nat) returns (res: Outcome)
      requires Valid() && mem == null && other.Valid() && other.mem != null && other != this
      requires modulus > DEFAULT_BUFFER_LEN && other.bufferLen < modulus
      modifies this
      ensures Valid() && !res.Overrun? && bufferLen < modulus
      ensures res.NoMemory? ==> mem == null && !reallocOk && other.dataLen == other.bufferLen
      ensures res.Done? ==> mem != null && fresh(mem) && Data() == other.Data()
      ensures res.Done? ==> Tail() == TailLeft(other.dataLen, other.bufferLen, garbage, modulus)
      ensures other.dataLen < other.bufferLen ==>
              && res.Done? && bufferLen == other.bufferLen
              && forall i: nat :: other.dataLen <= i < bufferLen ==> mem[i] == garbage(i)
    {
      hide Rounded, GrowTo, AllZero, TailLeft;
      mem := Malloc(other.bufferLen, garbage);
      dataLen := 0;
      bufferLen := other.bufferLen;
      var d := other.dataLen;
      ghost var t := Tail();
      GrowsEnoughIffNoWrap(0, d, modulus);
      res := ReadMem(other.mem[..d], reallocOk, modulus);
      if res.Done? {
        LeftBehind(t, Tail(), d, other.bufferLen, garbage, modulus);
      }
    }

    /** operator=, for a buffer and itself or for two that do not share memory.
        A failed realloc leaves the target empty. */
    method Assign(other: SafeBuffer, garbage: Garbage, reallocOk: bool, modulus: nat) returns (res: Outcome)
      requires Valid() && other.Valid() && (other != this && mem != null ==> other.mem != mem)
      requires modulus > DEFAULT_BUFFER_LEN && bufferLen < modulus && other.bufferLen < modulus
      modifies this, mem
      ensures Valid() && other.Valid() && other.Data() == old(other.Data())
      ensures mem == old(mem) || mem == null || fresh(mem)
      ensures res.Done? ==> Data() == other.Data()
      ensures res.NoMemory? ==> mem == null && !reallocOk
      ensures res.Overrun? <==>
              && !res.NoMemory? && old(mem != null && mem != other.mem && bufferLen < other.dataLen)
              && modulus <= Rounded(other.dataLen)
      ensures other == this ==> res.Done? && mem == old(mem) && Tail() == old(Tail())
      ensures other != this && res.Done? && old(mem) != null && AllZero(old(Tail())) ==>
              (Terminated() <==> other.dataLen < old(bufferLen) || Rounded(other.dataLen) < modulus)
      ensures res.Done? && old(mem != null && mem != other.mem && bufferLen <= other.dataLen) ==>
              Rounded(other.dataLen) < modulus ==> Terminated()
      ensures old(mem != null && mem != other.mem && other.dataLen < bufferLen) ==>
              res.Done? && Tail() == (Zeros(old(dataLen)) + old(Tail()))[other.dataLen..]
      ensures old(mem != null && mem != other.mem && other.dataLen < bufferLen) ==>
              (Terminated() <==> ZeroFrom(old(Tail()), other.dataLen - old(dataLen)))
      ensures old(mem) == null && other.mem != null && res.Done? ==>
              Tail() == TailLeft(other.dataLen, other.bufferLen, garbage, modulus)
    {
      hide ZeroFrom, Zeros, TailLeft, GrowTo, Rounded;
      if other.mem == mem {
        return Done;
      }
      if mem == null {
        res := AssignToNull(other, garbage, reallocOk, modulus);
        return;
      }
      res := AssignOver(other, reallocOk, modulus);
    }

    /** The test of operator= for data to clear. */
    method ClearIfFilled()
      requires Valid() && mem != null
      modifies this, mem
      ensures Valid() && mem == old(mem) && bufferLen == old(bufferLen) && Data() == []
      ensures Tail() == Zeros(old(dataLen)) + old(Tail())
      ensures AllZero(old(Tail())) ==> AllZero(Tail())
    {
      if dataLen != 0 {
        ClearMem();
      }
    }

    /** operator= for a target that has memory. */
    method AssignOver(other: SafeBuffer, reallocOk: bool, modulus: nat) returns (res: Outcome)
      requires Valid() && other.Valid() && other != this && mem != null && other.mem != mem
      requires modulus > DEFAULT_BUFFER_LEN && bufferLen < modulus && other.bufferLen < modulus
      modifies this, mem
      ensures Valid() && other.Valid() && other.Data() == old(other.Data())
      ensures mem == old(mem) || mem == null || fresh(mem)
      ensures res.Done? ==> mem != null && Data() == other.Data()
      ensures res.NoMemory? ==> mem == null && !reallocOk
      ensures res.Overrun? <==>
              !res.NoMemory? && old(bufferLen) < other.dataLen && modulus <= Rounded(other.dataLen)
      ensures other.dataLen < old(bufferLen) ==>
              res.Done? && Tail() == (Zeros(old(dataLen)) + old(Tail()))[other.dataLen..]
      ensures other.dataLen < old(bufferLen) ==>
              (Terminated() <==> ZeroFrom(old(Tail()), other.dataLen - old(dataLen)))
      ensures res.Done? && AllZero(old(Tail())) ==>
              (Terminated() <==> other.dataLen < old(bufferLen) || Rounded(other.dataLen) < modulus)
      ensures res.Done? && old(bufferLen) <= other.dataLen && Rounded(other.dataLen) < modulus ==> Terminated()
    {
      hide ZeroFrom, Rounded, GrowTo, Zeros, AllZero;
      ClearedTail(dataLen, Tail(), other.dataLen);
      ClearIfFilled();
      var block := if other.mem == null then [] else other.mem[..other.dataLen];
      GrowsEnoughIffNoWrap(0, |block|, modulus);
      res := ReadMem(block, reallocOk, modulus);
    }
  }

  // ---- two buffers that go wrong ----

  /** On a machine with 32 bits in an unsigned long, a block of the largest size
      overruns the buffer, although all memory can be had. */
  method OverrunByWrapping(block: seq<byte>) returns (res: Outcome)
    requires |block| == 0xFFFF_FFFF
    ensures res == Overrun
  {
    GrowsToNothing();
    var b := new SafeBuffer(DEFAULT_BUFFER_LEN);
    res := b.ReadMem(block, true, 0x1_0000_0000);
  }

  /** A buffer that lost its memory to a failed realloc takes a short block by
      assignment, and what follows the data is not zero. */
  method UnclearedByAssigning() returns (b: SafeBuffer)
    ensures b.Valid() && b.Data() == [7] && !b.Terminated()
    ensures fresh(b) && b.mem != null && fresh(b.mem) && b.bufferLen == DEFAULT_BUFFER_LEN && b.Tail()[0] == 1
  {
    b := new SafeBuffer(DEFAULT_BUFFER_LEN);
    var ok := b.Resize(2 * DEFAULT_BUFFER_LEN, false);
    var other := new SafeBuffer.Holding([7], DEFAULT_BUFFER_LEN);
    var res := b.Assign(other, i => 1, true, 0x1_0000_0000);
    assert b.Tail()[0] == 1;
  }

  /** Another assignment to that buffer, which now has memory and need not grow,
      still leaves bytes that are not zero behind the data. */
  method UnclearedAgain() returns (b: SafeBuffer)
    ensures b.Valid() && b.Data() == [8] && !b.Terminated()
  {
    b := UnclearedByAssigning();
    var other := new SafeBuffer.Holding([8], DEFAULT_BUFFER_LEN);
    assert !ZeroFrom(b.Tail(), other.dataLen - b.dataLen);
    var res := b.Assign(other, i => 0, true, 0x1_0000_0000);
  }

  // ---- runs ----

  datatype Op = Clear | Read(block: seq<byte>) | Grow(len: nat)

  ghost function Changed(data: seq<byte>, op: Op): seq<byte> {
    match op
    case Clear => []
    case Read(block) => data + block
    case Grow(_) => data
  }

  /** The blocks read since the last clear, joined. */
  ghost function DataAfter(ops: seq<Op>): seq<byte> {
    if ops == [] then [] else Changed(DataAfter(ops[..|ops| - 1]), ops[|ops| - 1])
  }

  lemma DataStart(ops: seq<Op>)
    ensures DataAfter(ops[..0]) == []
  {}

  lemma DataNext(ops: seq<Op>, i: nat)
    requires i < |ops|
    ensures DataAfter(ops[..i + 1]) == Changed(DataAfter(ops[..i]), ops[i])
  {
    assert ops[..i + 1][..i] == ops[..i];
  }

  /** The operands of an operation are numbers of the machine. */
  predicate Sized(op: Op, modulus: nat) {
    (op.Read? ==> |op.block| < modulus) && (op.Grow? ==> op.len < modulus)
  }

  /** The size an operation may ask for does not wrap around. */
  ghost predicate NotWrapping(dataLen: nat, op: Op, modulus: nat) {
    op.Read? ==> dataLen + Rounded(|op.block|) < modulus
  }

  ghost predicate NoneWraps(ops: seq<Op>, modulus: nat) {
    forall i :: 0 <= i < |ops| ==> NotWrapping(|DataAfter(ops[..i])|, ops[i], modulus)
  }

  /** One operation on a terminated buffer, when memory can be had. */
  method Perform(b: SafeBuffer, op: Op, modulus: nat) returns (ok: bool)
    requires b.Valid() && b.bufferLen < modulus && modulus > DEFAULT_BUFFER_LEN && Sized(op, modulus)
    modifies b, b.mem
    ensures b.Valid() && b.bufferLen < modulus && (b.mem == old(b.mem) || b.mem == null || fresh(b.mem))
    ensures old(b.Terminated() && NotWrapping(|b.Data()|, op, modulus)) ==>
            ok && b.mem != null && b.Terminated() && b.Data() == Changed(old(b.Data()), op)
  {
    match op
    case Clear =>
      b.ClearMem();
      ok := true;
    case Read(block) =>
      var res := b.ReadMem(block, true, modulus);
      ok := res == Done;
    case Grow(len) =>
      ok := b.Resize(len, true);
  }

  /** Any run of operations on a buffer built with a positive length, as long as
      memory can be had and no size wraps: the data is what was read since the
      last clear, and zero bytes follow it to the end of the capacity, at least
      one. */
  method Run(bufflen: nat, ops: seq<Op>, modulus: nat) returns (b: SafeBuffer, ok: bool)
    requires 0 < bufflen < modulus && modulus > DEFAULT_BUFFER_LEN && forall op :: op in ops ==> Sized(op, modulus)
    ensures b.Valid()
    ensures NoneWraps(ops, modulus) ==> ok && b.mem != null && b.Data() == DataAfter(ops) && b.Terminated()
  {
    hide DataAfter, Changed, Sized, NotWrapping, AllZero;
    DataStart(ops);
    b := new SafeBuffer(bufflen);
    ok := true;
    var i := 0;
    while i < |ops| && ok
      invariant i <= |ops| && fresh(b) && b.Valid() && (b.mem != null ==> fresh(b.mem)) && b.bufferLen < modulus
      invariant NoneWraps(ops, modulus) ==> ok && b.mem != null && b.Data() == DataAfter(ops[..i]) && b.Terminated()
    {
      DataNext(ops, i);
      assert ops[i] in ops;
      ok := Perform(b, ops[i], modulus);
      i := i + 1;
    }
    assert ops[..|ops|] == ops;
  }
}

/** The growable byte buffer of a connection: storage with a read and a write index. */
module Buffer {
  import opened Common
  import Crc

  type byte = Crc.byte

  const EXTRA_SIZE := 65536

  // ---------------------------------------------------------------- where the bytes lie

  /** The indices of a buffer, without its bytes. */
  datatype Layout = Layout(size: nat, read: nat, write: nat) {
    predicate Ordered() {
      read <= write <= size
    }

    function Readable(): int {
      write - read
    }

    function Writable(): int {
      size - write
    }
  }

  /** How room for `len` more bytes is made: free room behind, else the room in front of the
      unread bytes is reclaimed, else the storage grows. */
  function Ensured(l: Layout, len: nat): (r: Layout)
    requires l.Ordered()
    ensures r.Ordered() && r.Writable() >= len && r.Readable() == l.Readable()
  {
    if l.Writable() >= len then l
    else if l.read + l.Writable() >= len then Layout(l.size, 0, l.write - l.read)
    else Layout(l.write + len, l.read, l.write)
  }

  function Appended(l: Layout, len: nat): (r: Layout)
    requires l.Ordered()
    ensures r.Ordered() && r.Readable() == l.Readable() + len
  {
    var e := Ensured(l, len);
    e.(write := e.write + len)
  }

  /** Bytes that do not fit behind the write index arrive in the extra area. */
  function Received(l: Layout, n: nat): (r: Layout)
    requires l.Ordered()
    ensures r.Ordered() && r.Readable() == l.Readable() + n
  {
    if n <= l.Writable() then l.(write := l.write + n)
    else Appended(l.(write := l.size), n - l.Writable())
  }

  function ReadLimit(l: Layout): int {
    if l.Writable() < EXTRA_SIZE then l.Writable() + EXTRA_SIZE else l.Writable()
  }

  /** However full the buffer is, one read takes at least as much as the extra area holds. */
  lemma OneReadFits(l: Layout, n: nat)
    requires l.Ordered() && n <= EXTRA_SIZE
    ensures n <= ReadLimit(l)
  {}

  class Buffer {
    var mem: array<byte>
    var readIdx: nat
    var writeIdx: nat

    ghost predicate Valid()
      reads this
    {
      readIdx <= writeIdx <= mem.Length
    }

    ghost function Contents(): seq<byte>
      requires Valid()
      reads this, mem
    {
      mem[readIdx..writeIdx]
    }

    ghost function AsQueue(): (q: Queue)
      requires Valid()
      reads this, mem
      ensures q.Valid()
    {
      Queue(Contents(), Indices())
    }

    function Indices(): (l: Layout)
      reads this
      ensures Valid() ==> l.Ordered()
    {
      Layout(mem.Length, readIdx, writeIdx)
    }

    constructor (initialSize: nat)
      ensures Valid() && fresh(mem)
      ensures Contents() == [] && Indices() == Layout(initialSize, 0, 0)
    {
      mem := new byte[initialSize](_ => 0);
      readIdx, writeIdx := 0, 0;
    }

    function ReadableBytes(): (n: nat)
      requires Valid()
      reads this, mem
      ensures n == |Contents()|
    {
      writeIdx - readIdx
    }

    method Retrieve(len: nat)
      requires Valid() && len <= |Contents()|
      modifies this`readIdx
      ensures Valid() && Contents() == old(Contents())[len..]
      ensures AsQueue() == Apply(old(AsQueue()), RetrieveOp(len))
    {
      readIdx := readIdx + len;
    }

    method RetrieveAll()
      requires Valid()
      modifies this`readIdx, this`writeIdx
      ensures Valid() && Contents() == [] && readIdx == writeIdx == 0
      ensures AsQueue() == Apply(old(AsQueue()), RetrieveAllOp)
    {
      readIdx := 0;
      writeIdx := 0;
    }

    method RetrieveAsString(len: nat) returns (s: seq<byte>)
      requires Valid() && len <= |Contents()|
      modifies this`readIdx
      ensures Valid() && s + Contents() == old(Contents()) && |s| == len
      ensures AsQueue() == Apply(old(AsQueue()), RetrieveOp(len))
    {
      s := mem[readIdx..readIdx + len];
      Retrieve(len);
    }

    method EnsureWritableBytes(len: nat)
      requires Valid()
      modifies this, mem
      ensures Valid() && (mem == old(mem) || fresh(mem))
      ensures Contents() == old(Contents())
      ensures AsQueue() == Apply(old(AsQueue()), EnsureOp(len))
    {
      if mem.Length - writeIdx >= len {
        return;
      }
      MakeSpace(len);
    }

    /** Only called when the room behind the write index is too small. */
    method MakeSpace(len: nat)
      requires Valid() && mem.Length - writeIdx < len
      modifies this, mem
      ensures Valid() && (mem == old(mem) || fresh(mem))
      ensures Contents() == old(Contents())
      ensures Indices() == Ensured(old(Indices()), len)
      ensures if old(readIdx + mem.Length - writeIdx) >= len
              then mem == old(mem) && readIdx == 0 && writeIdx == old(writeIdx - readIdx)
              else mem.Length == old(writeIdx) + len && readIdx == old(readIdx) && writeIdx == old(writeIdx)
    {
      if readIdx + (mem.Length - writeIdx) >= len {
        MoveToFront();
      } else {
        Resize(writeIdx + len);
      }
    }

    /** The in-place copy of the unread bytes: it runs only with a positive read index, so it
        always moves bytes towards the front and never over bytes still to be moved. */
    method MoveToFront()
      requires Valid() && readIdx > 0
      modifies this`readIdx, this`writeIdx, mem
      ensures Valid() && Contents() == old(Contents())
      ensures readIdx == 0 && writeIdx == old(writeIdx - readIdx)
    {
      ghost var unread := Contents();
      var readable := writeIdx - readIdx;
      for i := 0 to readable
        modifies mem
        invariant forall k :: 0 <= k < i ==> mem[k] == unread[k]
        invariant forall k {:trigger unread[k]} :: i <= k < readable ==> mem[readIdx + k] == unread[k]
      {
        assert mem[readIdx + i] == unread[i];
        mem[i] := mem[readIdx + i];
      }
      readIdx := 0;
      writeIdx := readable;
    }

    method Resize(size: nat)
      requires Valid() && mem.Length <= size
      modifies this`mem
      ensures Valid() && fresh(mem) && mem.Length == size
      ensures Contents() == old(Contents())
    {
      var bigger := new byte[size](_ => 0);
      forall i | 0 <= i < mem.Length {
        bigger[i] := mem[i];
      }
      assert bigger[readIdx..writeIdx] == mem[readIdx..writeIdx];
      mem := bigger;
    }

    method CopyIn(data: seq<byte>, at: nat)
      requires at + |data| <= mem.Length
      modifies mem
      ensures forall k :: 0 <= k < mem.Length ==>
        mem[k] == if at <= k < at + |data| then data[k - at] else old(mem[k])
    {
      forall i | 0 <= i < |data| {
        mem[at + i] := data[i];
      }
    }

    /** The readable bytes, once `data` has been copied behind those of `before`. */
    lemma CopiedBehind(before: seq<byte>, write: nat, data: seq<byte>)
      requires readIdx <= write <= |before| == mem.Length && write + |data| <= mem.Length
      requires forall k :: 0 <= k < mem.Length ==>
        mem[k] == if write <= k < write + |data| then data[k - write] else before[k]
      ensures mem[readIdx..write + |data|] == before[readIdx..write] + data
    {
      var now := mem[readIdx..write + |data|];
      assert forall i :: 0 <= i < |now| ==> now[i] == (before[readIdx..write] + data)[i];
    }

    method Append(data: seq<byte>)
      requires Valid()
      modifies this, mem
      ensures Valid() && (mem == old(mem) || fresh(mem))
      ensures Contents() == old(Contents()) + data
      ensures AsQueue() == Apply(old(AsQueue()), AppendOp(data))
    {
      hide Apply;
      ghost var q := AsQueue();
      EnsureWritableBytes(|data|);
      EnsureThenWrite(q, data);
      ghost var before, write := mem[..], writeIdx;
      CopyIn(data, writeIdx);
      writeIdx := writeIdx + |data|;
      CopiedBehind(before, write, data);
    }

    method Prepend(data: seq<byte>)
      requires Valid() && |data| <= readIdx
      modifies this`readIdx, mem
      ensures Valid()
      ensures Contents() == data + old(Contents())
      ensures AsQueue() == Apply(old(AsQueue()), PrependOp(data))
    {
      readIdx := readIdx - |data|;
      CopyIn(data, readIdx);
    }

    /** A successful scatter read: `arrived` is what the kernel hands over, at most as much as
        the two areas hold. */
    method ReadFromFd(arrived: seq<byte>) returns (n: nat)
      requires Valid() && |arrived| <= ReadLimit(Indices())
      modifies this, mem
      ensures Valid() && (mem == old(mem) || fresh(mem))
      ensures n == |arrived| && Contents() == old(Contents()) + arrived
      ensures AsQueue() == Apply(old(AsQueue()), ReadOp(arrived))
    {
      hide Apply, Appended;
      ghost var q := AsQueue();
      var extra := new byte[EXTRA_SIZE](_ => 0);
      var writable := mem.Length - writeIdx;
      n := |arrived|;
      ReadIsFillThenAppend(q, arrived);
      if n <= writable {
        FillBehind(arrived);
      } else {
        FillBehind(arrived[..writable]);
        forall i | 0 <= i < n - writable {
          extra[i] := arrived[writable + i];
        }
        assert extra[..n - writable] == arrived[writable..];
        Append(extra[..n - writable]);
        Rejoined(q.bytes, arrived, writable);
      }
    }

    static lemma Rejoined(bytes: seq<byte>, arrived: seq<byte>, k: nat)
      requires k <= |arrived|
      ensures bytes + arrived[..k] + arrived[k..] == bytes + arrived
    {
      assert arrived == arrived[..k] + arrived[k..];
    }

    /** What the kernel does to the room behind the write index, and the index with it. */
    method FillBehind(data: seq<byte>)
      requires Valid() && |data| <= mem.Length - writeIdx
      modifies this`writeIdx, mem
      ensures Valid()
      ensures Contents() == old(Contents()) + data
      ensures Indices() == old(Indices()).(write := old(writeIdx) + |data|)
    {
      ghost var before, write := mem[..], writeIdx;
      CopyIn(data, writeIdx);
      writeIdx := writeIdx + |data|;
      CopiedBehind(before, write, data);
    }

    /** One write of the readable bytes; `taken` is what the kernel answers, negative for an
        error.  `handed` are the bytes that left. */
    method WriteToFd(taken: int) returns (n: int, handed: seq<byte>)
      requires Valid() && taken <= |Contents()|
      modifies this`readIdx
      ensures Valid()
      ensures handed + Contents() == old(Contents())
      ensures n == (if old(Contents()) == [] then 0 else taken)
      ensures |handed| == Max(0, n)
      ensures AsQueue() == Apply(old(AsQueue()), WriteOp(Max(0, n)))
    {
      if ReadableBytes() == 0 {
        return 0, [];
      }
      n, handed := taken, [];
      if n > 0 {
        handed := mem[readIdx..readIdx + n];
        Retrieve(n);
      }
    }

    /** The first position at or after `start`, counted from the read index, of CR LF. */
    method FindCRLF(start: nat) returns (found: Option<nat>)
      requires Valid() && start <= |Contents()|
      ensures found.None? ==> forall i: nat :: start <= i ==> !CRLFAt(Contents(), i)
      ensures found.Some? ==> start <= found.value && CRLFAt(Contents(), found.value)
      ensures found.Some? ==> forall i: nat :: start <= i < found.value ==> !CRLFAt(Contents(), i)
    {
      var p := readIdx + start;
      while true
        invariant readIdx + start <= p <= writeIdx
        invariant forall i: nat :: start <= i < p - readIdx ==> !CRLFAt(Contents(), i)
        decreases writeIdx - p
      {
        while p < writeIdx && mem[p] != CR
          invariant readIdx + start <= p <= writeIdx
          invariant forall i: nat :: start <= i < p - readIdx ==> !CRLFAt(Contents(), i)
        {
          p := p + 1;
        }
        if p == writeIdx {
          return None;
        }
        if p + 1 < writeIdx && mem[p + 1] == LF {
          return Some(p - readIdx);
        }
        p := p + 1;
      }
    }
  }

  const CR: byte := 13
  const LF: byte := 10

  predicate CRLFAt(s: seq<byte>, i: nat) {
    i + 1 < |s| && s[i] == 13 && s[i + 1] == 10
  }

  // ---------------------------------------------------------------- whole runs

  datatype Op =
    | AppendOp(data: seq<byte>)
    | EnsureOp(len: nat)
    | RetrieveOp(count: nat)
    | RetrieveAllOp
    | PrependOp(front: seq<byte>)
    | ReadOp(arrived: seq<byte>)
    | WriteOp(taken: nat)

  /** A byte queue together with the layout of the buffer that implements it. */
  datatype Queue = Queue(bytes: seq<byte>, layout: Layout) {
    predicate Valid() {
      layout.Ordered() && |bytes| == layout.Readable()
    }
  }

  predicate Allowed(q: Queue, op: Op) {
    match op
    case RetrieveOp(n) => n <= |q.bytes|
    case PrependOp(front) => |front| <= q.layout.read
    case ReadOp(arrived) => |arrived| <= ReadLimit(q.layout)
    case WriteOp(taken) => taken <= |q.bytes|
    case _ => true
  }

  /** The effect each method promises, operation by operation. */
  function Apply(q: Queue, op: Op): (r: Queue)
    requires q.Valid() && Allowed(q, op)
    ensures r.Valid()
  {
    match op
    case AppendOp(data) => Queue(q.bytes + data, Appended(q.layout, |data|))
    case EnsureOp(len) => Queue(q.bytes, Ensured(q.layout, len))
    case RetrieveOp(n) => Queue(q.bytes[n..], q.layout.(read := q.layout.read + n))
    case RetrieveAllOp => Queue([], Layout(q.layout.size, 0, 0))
    case PrependOp(front) => Queue(front + q.bytes, q.layout.(read := q.layout.read - |front|))
    case ReadOp(arrived) => Queue(q.bytes + arrived, Received(q.layout, |arrived|))
    case WriteOp(taken) => Queue(q.bytes[taken..], q.layout.(read := q.layout.read + taken))
  }

  lemma EnsureThenWrite(q: Queue, data: seq<byte>)
    requires q.Valid()
    ensures var e := Apply(q, EnsureOp(|data|));
      && e.bytes == q.bytes && e.layout.Ordered() && e.layout.Writable() >= |data|
      && Apply(q, AppendOp(data)) == Queue(q.bytes + data, e.layout.(write := e.layout.write + |data|))
  {}

  lemma ReadIsFillThenAppend(q: Queue, arrived: seq<byte>)
    requires q.Valid() && Allowed(q, ReadOp(arrived))
    ensures var w := q.layout.Writable();
      if |arrived| <= w then
        Apply(q, ReadOp(arrived)) == Queue(q.bytes + arrived, q.layout.(write := q.layout.write + |arrived|))
      else
        var full := Queue(q.bytes + arrived[..w], q.layout.(write := q.layout.size));
        full.Valid() && Apply(q, ReadOp(arrived)) == Apply(full, AppendOp(arrived[w..]))
  {
    var w := q.layout.Writable();
    assert |arrived| > w ==> (q.bytes + arrived[..w]) + arrived[w..] == q.bytes + arrived;
  }

  predicate AllAllowed(q: Queue, ops: seq<Op>)
    requires q.Valid()
    decreases |ops|
  {
    ops == [] || (Allowed(q, ops[0]) && AllAllowed(Apply(q, ops[0]), ops[1..]))
  }

  function Run(q: Queue, ops: seq<Op>): (r: Queue)
    requires q.Valid() && AllAllowed(q, ops)
    ensures r.Valid()
    decreases |ops|
  {
    if ops == [] then q else Run(Apply(q, ops[0]), ops[1..])
  }

  /** Unread bytes plus the room an operation asks for beyond them. */
  function Demand(q: Queue, op: Op): int
    requires q.Valid()
  {
    match op
    case AppendOp(data) => |q.bytes| + |data|
    case EnsureOp(len) => |q.bytes| + len
    case ReadOp(arrived) => |q.bytes| + |arrived|
    case _ => 0
  }

  function PeakDemand(q: Queue, ops: seq<Op>): int
    requires q.Valid() && AllAllowed(q, ops)
    decreases |ops|
  {
    if ops == [] then 0 else Max(Demand(q, ops[0]), PeakDemand(Apply(q, ops[0]), ops[1..]))
  }

  lemma StepCapacity(q: Queue, op: Op)
    requires q.Valid() && Allowed(q, op)
    ensures q.layout.size <= Apply(q, op).layout.size <= Max(q.layout.size, 2 * Demand(q, op))
  {}

  /** Over every run the storage stays within the larger of its initial size and twice the peak
      demand, and never shrinks. */
  lemma {:induction false} CapacityBound(q: Queue, ops: seq<Op>)
    requires q.Valid() && AllAllowed(q, ops)
    ensures q.layout.size <= Run(q, ops).layout.size <= Max(q.layout.size, 2 * PeakDemand(q, ops))
    decreases |ops|
  {
    if ops != [] {
      StepCapacity(q, ops[0]);
      CapacityBound(Apply(q, ops[0]), ops[1..]);
    }
  }

  function Came(op: Op): seq<byte> {
    match op
    case AppendOp(data) => data
    case ReadOp(arrived) => arrived
    case _ => []
  }

  function Gone(q: Queue, op: Op): seq<byte>
    requires q.Valid() && Allowed(q, op)
  {
    match op
    case RetrieveOp(n) => q.bytes[..n]
    case WriteOp(taken) => q.bytes[..taken]
    case RetrieveAllOp => q.bytes
    case _ => []
  }

  /** The stream that entered at the back over a run. */
  function Entered(ops: seq<Op>): seq<byte> {
    if ops == [] then [] else Came(ops[0]) + Entered(ops[1..])
  }

  /** The stream that left at the front over a run. */
  function Left(q: Queue, ops: seq<Op>): seq<byte>
    requires q.Valid() && AllAllowed(q, ops)
    decreases |ops|
  {
    if ops == [] then [] else Gone(q, ops[0]) + Left(Apply(q, ops[0]), ops[1..])
  }

  lemma StepConservation(q: Queue, op: Op)
    requires q.Valid() && Allowed(q, op) && !op.PrependOp?
    ensures Gone(q, op) + Apply(q, op).bytes == q.bytes + Came(op)
  {}

  /** Without prepends the buffer is a FIFO over every run: what left, then what is still
      unread, is what was there followed by what entered. */
  lemma {:induction false} FifoConservation(q: Queue, ops: seq<Op>)
    requires q.Valid() && AllAllowed(q, ops)
    requires forall op :: op in ops ==> !op.PrependOp?
    ensures Left(q, ops) + Run(q, ops).bytes == q.bytes + Entered(ops)
    decreases |ops|
  {
    hide Gone, Came, Apply, Allowed;
    if ops != [] {
      assert ops[0] in ops;
      var next, rest := Apply(q, ops[0]), ops[1..];
      StepConservation(q, ops[0]);
      FifoConservation(next, rest);
      assert Left(q, ops) + Run(q, ops).bytes == Gone(q, ops[0]) + (Left(next, rest) + Run(next, rest).bytes);
      assert Gone(q, ops[0]) + (next.bytes + Entered(rest)) == (Gone(q, ops[0]) + next.bytes) + Entered(rest);
      assert (q.bytes + Came(ops[0])) + Entered(rest) == q.bytes + Entered(ops);
    }
  }

  /** Driven through any allowed sequence of operations, the buffer is where `Run` says. */
  method Drive(initialSize: nat, ops: seq<Op>) returns (b: Buffer)
    requires AllAllowed(Queue([], Layout(initialSize, 0, 0)), ops)
    ensures fresh(b) && b.Valid()
    ensures b.AsQueue() == Run(Queue([], Layout(initialSize, 0, 0)), ops)
  {
    hide Apply, Allowed;
    b := new Buffer(initialSize);
    ghost var start := b.AsQueue();
    for i := 0 to |ops|
      invariant fresh(b) && fresh(b.mem) && b.Valid()
      invariant AllAllowed(b.AsQueue(), ops[i..])
      invariant Run(b.AsQueue(), ops[i..]) == Run(start, ops)
    {
      assert ops[i..][0] == ops[i] && ops[i..][1..] == ops[i + 1..];
      Perform(b, ops[i]);
    }
  }

  method Perform(b: Buffer, op: Op)
    requires b.Valid() && Allowed(b.AsQueue(), op)
    modifies b, b.mem
    ensures b.Valid() && (b.mem == old(b.mem) || fresh(b.mem))
    ensures b.AsQueue() == Apply(old(b.AsQueue()), op)
  {
    hide Apply;
    match op
    case AppendOp(data) => b.Append(data);
    case EnsureOp(len) => b.EnsureWritableBytes(len);
    case RetrieveOp(count) => b.Retrieve(count);
    case RetrieveAllOp => b.RetrieveAll();
    case PrependOp(front) => b.Prepend(front);
    case ReadOp(arrived) => var _ := b.ReadFromFd(arrived);
    case WriteOp(taken) =>
      var n, _ := b.WriteToFd(taken);
      assert Max(0, n) == taken;
  }
}

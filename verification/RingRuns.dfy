/** Whole runs of the two ring buffers against one bounded FIFO byte queue. */
module RingRuns {
  import opened Basics
  import opened ByteRing
  import ServerRing
  import PaintRing

  datatype Queue = Queue(bytes: seq<Byte>, capacity: int) {
    ghost predicate Valid() {
      |bytes| <= capacity
    }

    function Free(): int {
      capacity - |bytes|
    }
  }

  datatype Op =
    | Enqueue(data: seq<Byte>)
    | Receive(data: seq<Byte>) // written behind the rear from outside, then MoveRear
    | Dequeue(size: int)
    | Peek(size: int)
    | MoveFront(size: int)
    | Resize(size: int)
    | ClearBuffer

  datatype Answer = Count(n: int) | Bytes(s: seq<Byte>) | Flag(ok: bool) | Nothing

  /** The bytes that an operation takes into the queue. */
  function TakenIn(q: Queue, op: Op): seq<Byte>
    requires q.Valid()
  {
    match op
    case Enqueue(data) => data[..Granted(|data|, q.Free())]
    case Receive(data) => if |data| <= q.Free() then data else []
    case _ => []
  }

  /** How many bytes an operation takes off the front. */
  function TakenOff(q: Queue, op: Op): (n: nat)
    requires q.Valid()
    ensures n <= |q.bytes|
  {
    match op
    case Dequeue(size) => Granted(size, |q.bytes|)
    case MoveFront(size) => if 0 < size <= |q.bytes| then size else 0
    case ClearBuffer => |q.bytes|
    case _ => 0
  }

  function After(q: Queue, op: Op): (q': Queue)
    requires q.Valid()
    ensures q'.Valid()
  {
    Queue((q.bytes + TakenIn(q, op))[TakenOff(q, op)..],
          if op.Resize? && op.size > q.capacity then op.size else q.capacity)
  }

  function Reply(q: Queue, op: Op): Answer
    requires q.Valid()
  {
    match op
    case Enqueue(_) => Count(|TakenIn(q, op)|)
    case Receive(data) => Flag(0 < |data| <= q.Free())
    case Dequeue(size) => Bytes(q.bytes[..Granted(size, |q.bytes|)])
    case Peek(size) => Bytes(q.bytes[..Granted(size, |q.bytes|)])
    case MoveFront(size) => Flag(0 < size <= |q.bytes|)
    case _ => Nothing
  }

  function Run(q: Queue, ops: seq<Op>): (q': Queue)
    requires q.Valid()
    ensures q'.Valid()
  {
    if ops == [] then q else After(Run(q, ops[..|ops| - 1]), ops[|ops| - 1])
  }

  function Replies(q: Queue, ops: seq<Op>): seq<Answer>
    requires q.Valid()
  {
    if ops == [] then []
    else Replies(q, ops[..|ops| - 1]) + [Reply(Run(q, ops[..|ops| - 1]), ops[|ops| - 1])]
  }

  function AllIn(q: Queue, ops: seq<Op>): seq<Byte>
    requires q.Valid()
  {
    if ops == [] then []
    else AllIn(q, ops[..|ops| - 1]) + TakenIn(Run(q, ops[..|ops| - 1]), ops[|ops| - 1])
  }

  function AllOff(q: Queue, ops: seq<Op>): seq<Byte>
    requires q.Valid()
  {
    if ops == [] then []
    else
      var q' := Run(q, ops[..|ops| - 1]);
      AllOff(q, ops[..|ops| - 1]) + q'.bytes[..TakenOff(q', ops[|ops| - 1])]
  }

  lemma PartMoves<T>(off: seq<T>, b: seq<T>, n: nat, more: seq<T>, start: seq<T>, taken: seq<T>)
    requires n <= |b| && off + b == start + taken
    ensures (off + b[..n]) + (b + more)[n..] == start + (taken + more)
  {
    calc {
      (off + b[..n]) + (b + more)[n..];
      off + b + more;
      start + taken + more;
      start + (taken + more);
    }
  }

  /** Over any run: what was taken off, followed by what is queued, is what was put in; so
      the bytes come out in order, each once, whatever the wraps and resizes between. */
  lemma {:induction false} Conservation(q: Queue, ops: seq<Op>)
    requires q.Valid()
    ensures AllOff(q, ops) + Run(q, ops).bytes == q.bytes + AllIn(q, ops)
    ensures q.capacity <= Run(q, ops).capacity
  {
    if ops != [] {
      var before := ops[..|ops| - 1];
      Conservation(q, before);
      var q' := Run(q, before);
      var op := ops[|ops| - 1];
      var n, b, more := TakenOff(q', op), q'.bytes, TakenIn(q', op);
      assert AllOff(q, ops) == AllOff(q, before) + b[..n];
      assert AllIn(q, ops) == AllIn(q, before) + more;
      assert Run(q, ops).bytes == (b + more)[n..];
      assert (AllOff(q, before) + b[..n]) + (b + more)[n..] == q.bytes + (AllIn(q, before) + more) by {
        PartMoves(AllOff(q, before), b, n, more, q.bytes, AllIn(q, before));
      }
    }
  }

  lemma RunNext(q: Queue, ops: seq<Op>, i: nat)
    requires q.Valid() && i < |ops|
    ensures Run(q, ops[..i + 1]) == After(Run(q, ops[..i]), ops[i])
    ensures Replies(q, ops[..i + 1]) == Replies(q, ops[..i]) + [Reply(Run(q, ops[..i]), ops[i])]
  {
    assert ops[..i + 1][..i] == ops[..i];
  }

  ghost function ServerQueue(ring: ServerRing.RingBuffer): (q: Queue)
    requires ring.Valid()
    reads ring, ring.mBuffer
    ensures q.Valid()
  {
    Queue(ring.Contents(), ring.mCapacity)
  }

  ghost function PaintQueue(ring: PaintRing.RingBuffer): (q: Queue)
    requires ring.Valid()
    reads ring, ring.mBuffer
    ensures q.Valid()
  {
    Queue(ring.Contents(), ring.mCapacity)
  }

  /** Data put into the free slots from outside, then taken over by MoveRear. */
  method ServerReceive(ring: ServerRing.RingBuffer, data: seq<Byte>) returns (ok: bool)
    requires ring.Valid()
    modifies ring, ring.mBuffer
    ensures ring.Valid() && ring.mBuffer == old(ring.mBuffer) && ring.mCapacity == old(ring.mCapacity)
    ensures ok == (0 < |data| <= old(ring.FreeSize()))
    ensures ring.Contents() == old(ring.Contents()) + if ok then data else []
  {
    hide ServerRing.RingBuffer.Contents, ServerRing.RingBuffer.Ahead, Round, Used;
    var free := ring.GetFreeSize();
    if |data| <= free {
      ring.CopyIn(data, |data|, Min(|data|, ring.mCapacity + 1 - ring.mRear));
      assert data[..|data|] == data;
    }
    ok := ring.MoveRear(|data|);
  }

  method ServerDequeue(ring: ServerRing.RingBuffer, size: int) returns (s: seq<Byte>)
    requires ring.Valid()
    modifies ring`mFront
    ensures ring.Valid() && s == old(ring.Contents())[..Granted(size, old(|ring.Contents()|))]
    ensures ring.Contents() == old(ring.Contents())[|s|..]
  {
    hide ServerRing.RingBuffer.Contents, Round, Used;
    var use := ring.GetUseSize();
    var dest := new Byte[Granted(size, use)](_ => 0);
    var n := ring.Dequeue(dest, size);
    s := dest[..n];
  }

  method ServerPeek(ring: ServerRing.RingBuffer, size: int) returns (s: seq<Byte>)
    requires ring.Valid()
    ensures s == ring.Contents()[..Granted(size, |ring.Contents()|)]
  {
    hide ServerRing.RingBuffer.Contents, Round, Used;
    var use := ring.GetUseSize();
    var dest := new Byte[Granted(size, use)](_ => 0);
    var n := ring.Peek(dest, size);
    s := dest[..n];
  }

  method ServerStep(ring: ServerRing.RingBuffer, op: Op) returns (a: Answer)
    requires ring.Valid()
    modifies ring, ring.mBuffer
    ensures ring.Valid() && (ring.mBuffer == old(ring.mBuffer) || fresh(ring.mBuffer))
    ensures ServerQueue(ring) == After(old(ServerQueue(ring)), op)
    ensures a == Reply(old(ServerQueue(ring)), op)
  {
    hide ServerRing.RingBuffer.Contents, ServerRing.RingBuffer.Ahead, ServerRing.RingBuffer.Valid, Round, Used, Granted;
    ghost var q := ServerQueue(ring);
    match op
    case Enqueue(data) =>
      var n := ring.Enqueue(data, |data|);
      assert ServerQueue(ring).bytes == q.bytes + TakenIn(q, op);
      return Count(n);
    case Receive(data) =>
      var ok := ServerReceive(ring, data);
      assert ServerQueue(ring).bytes == q.bytes + TakenIn(q, op);
      return Flag(ok);
    case Dequeue(size) =>
      var s := ServerDequeue(ring, size);
      assert q.bytes + TakenIn(q, op) == q.bytes;
      return Bytes(s);
    case Peek(size) =>
      var s := ServerPeek(ring, size);
      assert q.bytes + TakenIn(q, op) == q.bytes;
      return Bytes(s);
    case MoveFront(size) =>
      var ok := ring.MoveFront(size);
      assert q.bytes + TakenIn(q, op) == q.bytes;
      return Flag(ok);
    case Resize(size) =>
      ring.Resize(size);
      assert q.bytes + TakenIn(q, op) == q.bytes;
      return Nothing;
    case ClearBuffer =>
      ring.ClearBuffer();
      assert q.bytes + TakenIn(q, op) == q.bytes;
      return Nothing;
  }

  /** Data put into the free slots from outside, then taken over by MoveRear. */
  method PaintReceive(ring: PaintRing.RingBuffer, data: seq<Byte>) returns (ok: bool)
    requires ring.Valid()
    modifies ring, ring.mBuffer
    ensures ring.Valid() && ring.mBuffer == old(ring.mBuffer) && ring.mCapacity == old(ring.mCapacity)
    ensures ok == (0 < |data| <= old(ring.FreeSize()))
    ensures ring.Contents() == old(ring.Contents()) + if ok then data else []
  {
    hide PaintRing.RingBuffer.Contents, PaintRing.RingBuffer.Ahead, Round, Used;
    var free := ring.GetFreeSize();
    if |data| <= free {
      ring.CopyIn(data, |data|, Min(|data|, ring.mCapacity + 1 - ring.mRear));
      assert data[..|data|] == data;
    }
    ok := ring.MoveRear(|data|);
  }

  method PaintDequeue(ring: PaintRing.RingBuffer, size: int) returns (s: seq<Byte>)
    requires ring.Valid()
    modifies ring`mFront
    ensures ring.Valid() && s == old(ring.Contents())[..Granted(size, old(|ring.Contents()|))]
    ensures ring.Contents() == old(ring.Contents())[|s|..]
  {
    hide PaintRing.RingBuffer.Contents, Round, Used;
    var use := ring.GetUseSize();
    var dest := new Byte[Granted(size, use)](_ => 0);
    var n := ring.Dequeue(dest, size);
    s := dest[..n];
  }

  method PaintPeek(ring: PaintRing.RingBuffer, size: int) returns (s: seq<Byte>)
    requires ring.Valid()
    ensures s == ring.Contents()[..Granted(size, |ring.Contents()|)]
  {
    hide PaintRing.RingBuffer.Contents, Round, Used;
    var use := ring.GetUseSize();
    var dest := new Byte[Granted(size, use)](_ => 0);
    var n := ring.Peek(dest, size);
    s := dest[..n];
  }

  method PaintStep(ring: PaintRing.RingBuffer, op: Op) returns (a: Answer)
    requires ring.Valid()
    modifies ring, ring.mBuffer
    ensures ring.Valid() && (ring.mBuffer == old(ring.mBuffer) || fresh(ring.mBuffer))
    ensures PaintQueue(ring) == After(old(PaintQueue(ring)), op)
    ensures a == Reply(old(PaintQueue(ring)), op)
  {
    hide PaintRing.RingBuffer.Contents, PaintRing.RingBuffer.Ahead, PaintRing.RingBuffer.Valid, Round, Used, Granted;
    ghost var q := PaintQueue(ring);
    match op
    case Enqueue(data) =>
      var n := ring.Enqueue(data, |data|);
      assert PaintQueue(ring).bytes == q.bytes + TakenIn(q, op);
      return Count(n);
    case Receive(data) =>
      var ok := PaintReceive(ring, data);
      assert PaintQueue(ring).bytes == q.bytes + TakenIn(q, op);
      return Flag(ok);
    case Dequeue(size) =>
      var s := PaintDequeue(ring, size);
      assert q.bytes + TakenIn(q, op) == q.bytes;
      return Bytes(s);
    case Peek(size) =>
      var s := PaintPeek(ring, size);
      assert q.bytes + TakenIn(q, op) == q.bytes;
      return Bytes(s);
    case MoveFront(size) =>
      var ok := ring.MoveFront(size);
      assert q.bytes + TakenIn(q, op) == q.bytes;
      return Flag(ok);
    case Resize(size) =>
      ring.Resize(size);
      assert q.bytes + TakenIn(q, op) == q.bytes;
      return Nothing;
    case ClearBuffer =>
      ring.ClearBuffer();
      assert q.bytes + TakenIn(q, op) == q.bytes;
      return Nothing;
  }

  /** Started empty, the server's ring answers any operations as the queue does. */
  method ServerRun(capacity: int, ops: seq<Op>) returns (replies: seq<Answer>)
    requires capacity >= 0
    ensures replies == Replies(Queue([], capacity), ops)
  {
    var ring := new ServerRing.RingBuffer(capacity);
    ghost var start := Queue([], capacity);
    replies := [];
    assert Run(start, ops[..0]) == start && Replies(start, ops[..0]) == [];
    assert ServerQueue(ring) == start;
    hide ServerQueue, Run, Replies, After, Reply, ServerRing.RingBuffer.Valid;
    for i := 0 to |ops|
      invariant ring.Valid() && fresh(ring) && fresh(ring.mBuffer)
      invariant ServerQueue(ring) == Run(start, ops[..i]) && replies == Replies(start, ops[..i])
    {
      RunNext(start, ops, i);
      var a := ServerStep(ring, ops[i]);
      replies := replies + [a];
    }
    assert ops[..|ops|] == ops;
  }

  /** The painting program's ring gives the very same answers. */
  method PaintRun(capacity: int, ops: seq<Op>) returns (replies: seq<Answer>)
    requires capacity >= 0
    ensures replies == Replies(Queue([], capacity), ops)
  {
    var ring := new PaintRing.RingBuffer(capacity);
    ghost var start := Queue([], capacity);
    replies := [];
    assert Run(start, ops[..0]) == start && Replies(start, ops[..0]) == [];
    assert PaintQueue(ring) == start;
    hide PaintQueue, Run, Replies, After, Reply, PaintRing.RingBuffer.Valid;
    for i := 0 to |ops|
      invariant ring.Valid() && fresh(ring) && fresh(ring.mBuffer)
      invariant PaintQueue(ring) == Run(start, ops[..i]) && replies == Replies(start, ops[..i])
    {
      RunNext(start, ops, i);
      var a := PaintStep(ring, ops[i]);
      replies := replies + [a];
    }
    assert ops[..|ops|] == ops;
  }
}

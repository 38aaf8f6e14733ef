/** The server's ring buffer used by one producer and one consumer thread without a lock.
    Taking a snapshot of the other side's index, copying each byte, and publishing the own
    index are separate steps, interleaved in any way; the bytes of one block copy may be
    copied in any order. */
module SpscRing {
  import opened Basics
  import opened ByteRing

  datatype Producer =
    | Resting
    | Writing(data: seq<Byte>, size: nat, copied: set<nat>)

  datatype Consumer =
    | Waiting
    | Reading(size: nat, dest: map<nat, Byte>)

  /** `accepted` and `returned` are history: all bytes that finished calls of Enqueue took
      and of Dequeue delivered. */
  datatype Ring = Ring(
    mCapacity: nat,
    mBuffer: seq<Byte>,
    mFront: int,
    mRear: int,
    producer: Producer,
    consumer: Consumer,
    accepted: seq<Byte>,
    returned: seq<Byte>)

  datatype Step =
    | CallEnqueue(data: seq<Byte>) // reads mFront
    | CopyIn(k: nat)
    | PublishRear
    | CallDequeue(iSize: nat) // reads mRear
    | CopyOut(k: nat)
    | PublishFront

  // The slot that byte k of a block of `size` bytes is copied to, by the two branches of Enqueue.
  function SlotIn(r: Ring, size: nat, k: nat): int {
    if r.mRear + size > r.mCapacity + 1 then
      var possibleToEnd := r.mCapacity - r.mRear + 1;
      if k < possibleToEnd then r.mRear + k else k - possibleToEnd
    else r.mRear + k
  }

  // The slot that byte k is copied from, by the two branches of Dequeue.
  function SlotOut(r: Ring, size: nat, k: nat): int {
    if r.mFront + size >= r.mCapacity + 1 then
      var possibleToEnd := r.mCapacity + 1 - r.mFront;
      if k < possibleToEnd then r.mFront + k else k - possibleToEnd
    else r.mFront + k
  }

  ghost predicate Init(r: Ring) {
    && |r.mBuffer| == r.mCapacity + 1 && r.mFront == r.mRear == 0
    && r.producer == Resting && r.consumer == Waiting && r.accepted == r.returned == []
  }

  /** Whose turn it can be: a thread is either between calls, or copying, or done copying. */
  ghost predicate Enabled(r: Ring, step: Step) {
    match step
    case CallEnqueue(data) => r.producer.Resting?
    case CopyIn(k) => r.producer.Writing? && k < r.producer.size
    case PublishRear => r.producer.Writing? && forall k: nat :: k < r.producer.size ==> k in r.producer.copied
    case CallDequeue(_) => r.consumer.Waiting?
    case CopyOut(k) => r.consumer.Reading? && k < r.consumer.size
    case PublishFront => r.consumer.Reading? && forall k: nat :: k < r.consumer.size ==> k in r.consumer.dest
  }

  /** Every access of the threads stays inside the arrays. */
  ghost predicate InBounds(r: Ring, step: Step)
    requires Enabled(r, step)
  {
    && r.mCapacity + 1 == |r.mBuffer|
    && match step
       case CopyIn(k) => r.producer.size <= |r.producer.data| && 0 <= SlotIn(r, r.producer.size, k) < |r.mBuffer|
       case CopyOut(k) => 0 <= SlotOut(r, r.consumer.size, k) < |r.mBuffer|
       case PublishRear => r.producer.size <= |r.producer.data|
       case CallEnqueue(_) => 0 <= Used(r.mFront, r.mRear, r.mCapacity) <= r.mCapacity
       case CallDequeue(_) => 0 <= Used(r.mFront, r.mRear, r.mCapacity) <= r.mCapacity
       case PublishFront => true
  }

  function CopiedIn(r: Ring, k: nat): Ring
    requires r.producer.Writing? && k < |r.producer.data| && 0 <= SlotIn(r, r.producer.size, k) < |r.mBuffer|
  {
    var p := r.producer;
    r.(mBuffer := r.mBuffer[SlotIn(r, p.size, k) := p.data[k]], producer := Writing(p.data, p.size, p.copied + {k}))
  }

  function RearPublished(r: Ring): Ring
    requires r.producer.Writing? && r.producer.size <= |r.producer.data|
  {
    r.(mRear := (r.mRear + r.producer.size) % (r.mCapacity + 1), producer := Resting,
       accepted := r.accepted + r.producer.data[..r.producer.size])
  }

  function CopiedOut(r: Ring, k: nat): Ring
    requires r.consumer.Reading? && 0 <= SlotOut(r, r.consumer.size, k) < |r.mBuffer|
  {
    var c := r.consumer;
    r.(consumer := Reading(c.size, c.dest[k := r.mBuffer[SlotOut(r, c.size, k)]]))
  }

  ghost function FrontPublished(r: Ring): Ring
    requires Enabled(r, PublishFront)
  {
    r.(mFront := (r.mFront + r.consumer.size) % (r.mCapacity + 1), consumer := Waiting,
       returned := r.returned + Delivered(r))
  }

  ghost function Next(r: Ring, step: Step): Ring
    requires Enabled(r, step) && InBounds(r, step)
  {
    match step
    case CallEnqueue(data) =>
      r.(producer := Writing(data, Granted(|data|, r.mCapacity - Used(r.mFront, r.mRear, r.mCapacity)), {}))
    case CopyIn(k) => CopiedIn(r, k)
    case PublishRear => RearPublished(r)
    case CallDequeue(iSize) =>
      r.(consumer := Reading(Granted(iSize, Used(r.mFront, r.mRear, r.mCapacity)), map[]))
    case CopyOut(k) => CopiedOut(r, k)
    case PublishFront => FrontPublished(r)
  }

  ghost function Delivered(r: Ring): (s: seq<Byte>)
    requires r.consumer.Reading? && forall k: nat :: k < r.consumer.size ==> k in r.consumer.dest
    ensures |s| == r.consumer.size
    ensures forall k: nat :: k < r.consumer.size ==> s[k] == r.consumer.dest[k]
  {
    seq(r.consumer.size, k requires 0 <= k < r.consumer.size => r.consumer.dest[k])
  }

  /** The array slot of the i-th byte of the whole stream. */
  function Slot(i: nat, n: nat): (x: nat)
    requires n > 0
    ensures x < n
  {
    if i < n then i else Slot(i - n, n)
  }

  // What the array holds for the i-th byte of the stream.
  function At(buffer: seq<Byte>, i: nat): Byte
    requires |buffer| > 0
  {
    buffer[Slot(i, |buffer|)]
  }

  ghost predicate Inv(r: Ring) {
    var front, rear := |r.returned|, |r.accepted|;
    && |r.mBuffer| == r.mCapacity + 1 && front <= rear <= front + r.mCapacity
    && r.mFront == Slot(front, |r.mBuffer|) && r.mRear == Slot(rear, |r.mBuffer|)
    && r.returned <= r.accepted
    && Stored(r.mBuffer, r.accepted, front)
    && (r.producer.Writing? ==> ProducerOk(r.producer, r.mBuffer, rear, front + r.mCapacity))
    && (r.consumer.Reading? ==> ConsumerOk(r.consumer, r.accepted, front))
  }

  ghost predicate Stored(buffer: seq<Byte>, accepted: seq<Byte>, front: nat)
    requires |buffer| > 0
  {
    forall i: nat :: front <= i < |accepted| ==> At(buffer, i) == accepted[i]
  }

  ghost predicate ProducerOk(p: Producer, buffer: seq<Byte>, rear: nat, limit: nat)
    requires p.Writing? && |buffer| > 0
  {
    && p.size <= |p.data| && rear + p.size <= limit
    && forall k: nat :: k in p.copied && k < p.size ==> At(buffer, rear + k) == p.data[k]
  }

  ghost predicate ConsumerOk(c: Consumer, accepted: seq<Byte>, front: nat)
    requires c.Reading?
  {
    && front + c.size <= |accepted|
    && forall k: nat :: k in c.dest && k < c.size ==> c.dest[k] == accepted[front + k]
  }

  /** Going on k slots from the slot of byte i wraps round at the end of the array. */
  lemma {:induction false} SlotAhead(i: nat, k: nat, n: nat)
    requires k <= n && n > 0
    ensures Slot(i + k, n) == Wrap(Slot(i, n) + k, n)
  {
    if i >= n {
      SlotAhead(i - n, k, n);
    }
  }

  /** Bytes less than n apart in the stream have different slots. */
  lemma SlotsDiffer(i: nat, j: nat, n: nat)
    requires i < j < i + n
    ensures Slot(i, n) != Slot(j, n)
  {
    SlotAhead(i, j - i, n);
  }

  /** The indices tell how many bytes are queued. */
  lemma UsedIsExact(front: nat, rear: nat, capacity: nat)
    requires front <= rear <= front + capacity
    ensures Used(Slot(front, capacity + 1), Slot(rear, capacity + 1), capacity) == rear - front
  {
    SlotAhead(front, rear - front, capacity + 1);
  }

  /** Storing byte j of the stream changes no other byte less than a full round away. */
  lemma StoreAt(buffer: seq<Byte>, j: nat, v: Byte, i: nat)
    requires i < j + |buffer| && j < i + |buffer|
    ensures At(buffer[Slot(j, |buffer|) := v], i) == if i == j then v else At(buffer, i)
  {
    if i < j {
      SlotsDiffer(i, j, |buffer|);
    } else if j < i {
      SlotsDiffer(j, i, |buffer|);
    }
  }

  /** So a byte copied in overwrites neither an unread byte nor another byte of its block. */
  lemma StoreKeeps(buffer: seq<Byte>, accepted: seq<Byte>, front: nat, p: Producer, k: nat)
    requires |buffer| > 0 && front <= |accepted| && p.Writing? && k < p.size
    requires Stored(buffer, accepted, front) && ProducerOk(p, buffer, |accepted|, front + |buffer| - 1)
    ensures var b' := buffer[Slot(|accepted| + k, |buffer|) := p.data[k]];
            && Stored(b', accepted, front)
            && ProducerOk(Writing(p.data, p.size, p.copied + {k}), b', |accepted|, front + |buffer| - 1)
  {
    hide Slot, At;
    var rear := |accepted|;
    var b' := buffer[Slot(rear + k, |buffer|) := p.data[k]];
    forall i: nat | front <= i < rear + p.size
      ensures At(b', i) == if i == rear + k then p.data[k] else At(buffer, i)
    {
      StoreAt(buffer, rear + k, p.data[k], i);
    }
  }

  lemma CopyInKeepsInv(r: Ring, k: nat)
    requires Inv(r) && r.producer.Writing? && k < r.producer.size
    ensures 0 <= SlotIn(r, r.producer.size, k) < |r.mBuffer| && Inv(CopiedIn(r, k))
  {
    SlotAhead(|r.accepted|, k, |r.mBuffer|);
    StoreKeeps(r.mBuffer, r.accepted, |r.returned|, r.producer, k);
    assert SlotIn(r, r.producer.size, k) == Slot(|r.accepted| + k, |r.mBuffer|);
    hide Slot, SlotIn, At, ConsumerOk, Stored;
  }

  lemma PublishRearKeepsInv(r: Ring)
    requires Inv(r) && Enabled(r, PublishRear)
    ensures Inv(RearPublished(r))
  {
    SlotAhead(|r.accepted|, r.producer.size, |r.mBuffer|);
    WrapIsMod(r.mRear + r.producer.size, |r.mBuffer|);
    hide Slot, At;
    var r', rear := RearPublished(r), |r.accepted|;
    forall i: nat | |r.returned| <= i < |r'.accepted| ensures At(r.mBuffer, i) == r'.accepted[i] {
      if i >= rear {
        assert i - rear in r.producer.copied && i == rear + (i - rear);
      }
    }
  }

  lemma CopyOutKeepsInv(r: Ring, k: nat)
    requires Inv(r) && r.consumer.Reading? && k < r.consumer.size
    ensures 0 <= SlotOut(r, r.consumer.size, k) < |r.mBuffer| && Inv(CopiedOut(r, k))
  {
    SlotAhead(|r.returned|, k, |r.mBuffer|);
    assert r.mBuffer[SlotOut(r, r.consumer.size, k)] == At(r.mBuffer, |r.returned| + k);
    hide Slot, SlotOut, At, ProducerOk;
  }

  lemma DeliveredIsNext(r: Ring)
    requires Inv(r) && Enabled(r, PublishFront)
    ensures r.returned + Delivered(r) <= r.accepted
  {
    hide Slot, At, Stored, ProducerOk;
    var front := |r.returned|;
    forall i: nat | i < front + r.consumer.size ensures (r.returned + Delivered(r))[i] == r.accepted[i] {
      if i >= front {
        assert i == front + (i - front);
      }
    }
  }

  lemma PublishFrontKeepsInv(r: Ring)
    requires Inv(r) && Enabled(r, PublishFront)
    ensures Inv(FrontPublished(r))
  {
    SlotAhead(|r.returned|, r.consumer.size, |r.mBuffer|);
    WrapIsMod(r.mFront + r.consumer.size, |r.mBuffer|);
    DeliveredIsNext(r);
    hide Slot, At, Delivered;
  }

  lemma NextKeepsInv(r: Ring, step: Step)
    requires Inv(r) && Enabled(r, step)
    ensures InBounds(r, step) && Inv(Next(r, step))
  {
    hide Slot, At, Stored;
    match step
    case CallEnqueue(data) => UsedIsExact(|r.returned|, |r.accepted|, r.mCapacity);
    case CopyIn(k) => CopyInKeepsInv(r, k);
    case PublishRear => PublishRearKeepsInv(r);
    case CallDequeue(iSize) => UsedIsExact(|r.returned|, |r.accepted|, r.mCapacity);
    case CopyOut(k) => CopyOutKeepsInv(r, k);
    case PublishFront => PublishFrontKeepsInv(r);
  }

  /** The unread bytes, as they lie in the array between the two published indices. */
  ghost function Unread(r: Ring): seq<Byte>
    requires r.mCapacity + 1 == |r.mBuffer| && 0 <= r.mFront <= r.mCapacity
    requires 0 <= Used(r.mFront, r.mRear, r.mCapacity) <= r.mCapacity
  {
    Round(r.mBuffer, r.mFront, Used(r.mFront, r.mRear, r.mCapacity))
  }

  lemma UnreadIsStream(r: Ring)
    requires Inv(r)
    ensures Used(r.mFront, r.mRear, r.mCapacity) == |r.accepted| - |r.returned|
    ensures Unread(r) == r.accepted[|r.returned|..]
  {
    var front := |r.returned|;
    UsedIsExact(front, |r.accepted|, r.mCapacity);
    forall k: nat | k < |r.accepted| - front ensures Unread(r)[k] == r.accepted[front + k] {
      SlotAhead(front, k, r.mCapacity + 1);
      assert At(r.mBuffer, front + k) == r.accepted[front + k];
    }
    hide Slot, At, Unread, Stored, ProducerOk, ConsumerOk;
  }

  ghost predicate Follows(r: Ring, step: Step, r': Ring) {
    Enabled(r, step) && InBounds(r, step) && r' == Next(r, step)
  }

  ghost predicate Reaches(first: Ring, steps: seq<Step>, r: Ring) {
    if steps == [] then r == first
    else
      var n := |steps| - 1;
      exists before :: Reaches(first, steps[..n], before) && Follows(before, steps[n], r)
  }

  lemma {:induction false} RunKeepsInv(first: Ring, steps: seq<Step>, r: Ring)
    requires Init(first) && Reaches(first, steps, r)
    ensures Inv(r)
    decreases |steps|
  {
    if steps == [] {
    } else {
      var n := |steps| - 1;
      var before :| Reaches(first, steps[..n], before) && Follows(before, steps[n], r);
      RunKeepsInv(first, steps[..n], before);
      NextKeepsInv(before, steps[n]);
    }
  }

  /** Over any run: what Dequeue delivered is a prefix of what Enqueue accepted, and the bytes
      still unread in the array are exactly the rest; never more than the capacity. */
  lemma FifoPrefix(first: Ring, steps: seq<Step>, r: Ring)
    requires Init(first) && Reaches(first, steps, r)
    ensures r.mCapacity + 1 == |r.mBuffer| && 0 <= r.mFront <= r.mCapacity && 0 <= r.mRear <= r.mCapacity
    ensures 0 <= Used(r.mFront, r.mRear, r.mCapacity) <= r.mCapacity
    ensures r.returned + Unread(r) == r.accepted
  {
    RunKeepsInv(first, steps, r);
    UnreadIsStream(r);
    assert r.returned == r.accepted[..|r.returned|];
  }

  lemma PublishRearAppends(r: Ring)
    requires Inv(r) && Enabled(r, PublishRear)
    ensures Inv(RearPublished(r)) && Unread(RearPublished(r)) == Unread(r) + r.producer.data[..r.producer.size]
  {
    var r' := RearPublished(r);
    PublishRearKeepsInv(r);
    UnreadIsStream(r);
    UnreadIsStream(r');
    hide Unread, Slot;
    assert r'.accepted[|r.returned|..] == r.accepted[|r.returned|..] + r.producer.data[..r.producer.size];
  }

  lemma PublishFrontDrops(r: Ring)
    requires Inv(r) && Enabled(r, PublishFront)
    ensures Inv(FrontPublished(r)) && Unread(r) == Delivered(r) + Unread(FrontPublished(r))
  {
    PublishFrontKeepsInv(r);
    UnreadIsStream(r);
    UnreadIsStream(FrontPublished(r));
    DeliveredIsNext(r);
    hide Unread, Inv, Delivered;
    Remainder(r.accepted, r.returned, Delivered(r));
  }

  lemma Remainder<T>(all: seq<T>, done: seq<T>, next: seq<T>)
    requires done + next <= all
    ensures all[|done|..] == next + all[|done + next|..]
  {
    assert all == (done + next) + all[|done + next|..];
  }

  /** At any point of any run each step stays inside the arrays and acts on the unread bytes
      like a step of one byte queue: an Enqueue takes effect where it publishes the rear, a
      Dequeue where it publishes the front, and no other step, whichever bytes it copies,
      changes a byte that is still unread. What a call is granted is exact when it starts. */
  lemma StepRefines(first: Ring, steps: seq<Step>, r: Ring, step: Step)
    requires Init(first) && Reaches(first, steps, r) && Enabled(r, step)
    ensures InBounds(r, step) && Inv(r) && Inv(Next(r, step))
    ensures match step
            case PublishRear => Unread(Next(r, step)) == Unread(r) + r.producer.data[..r.producer.size]
            case PublishFront => Unread(r) == Delivered(r) + Unread(Next(r, step))
            case CallEnqueue(data) =>
              && Unread(Next(r, step)) == Unread(r)
              && Next(r, step).producer.size == Granted(|data|, r.mCapacity - |Unread(r)|)
            case CallDequeue(iSize) =>
              && Unread(Next(r, step)) == Unread(r)
              && Next(r, step).consumer.size == Granted(iSize, |Unread(r)|)
            case _ => Unread(Next(r, step)) == Unread(r)
  {
    RunKeepsInv(first, steps, r);
    NextKeepsInv(r, step);
    hide Reaches, Init;
    match step
    case PublishRear => PublishRearAppends(r);
    case PublishFront => PublishFrontDrops(r);
    case _ =>
      UnreadIsStream(r);
      UnreadIsStream(Next(r, step));
      hide Unread, Inv, SlotIn, SlotOut;
  }

  // ----- a call running alone comes to its end -----

  lemma OneMoreStep(first: Ring, steps: seq<Step>, r: Ring, step: Step) returns (longer: seq<Step>, u: Ring)
    requires Reaches(first, steps, r) && Inv(r) && Enabled(r, step)
    ensures InBounds(r, step) && u == Next(r, step) && Reaches(first, longer, u) && Inv(u)
  {
    NextKeepsInv(r, step);
    u := Next(r, step);
    longer := steps + [step];
    var n := |steps|;
    hide Inv, Enabled, InBounds, Next;
    assert longer[..n] == steps && Follows(r, longer[n], u);
    assert Reaches(first, longer[..n], r);
  }

  // All bytes of the producer's block copied in, from byte k on.
  lemma {:induction false} CopyAllIn(first: Ring, steps: seq<Step>, r: Ring, k: nat)
      returns (longer: seq<Step>, u: Ring)
    requires Reaches(first, steps, r) && Inv(r) && r.producer.Writing? && k <= r.producer.size
    requires forall j: nat :: j < k ==> j in r.producer.copied
    ensures Reaches(first, longer, u) && Inv(u) && Enabled(u, PublishRear)
    ensures u.producer.data == r.producer.data && u.producer.size == r.producer.size
    ensures u.accepted == r.accepted && u.returned == r.returned && u.consumer == r.consumer
    decreases r.producer.size - k
  {
    hide Reaches, Inv, InBounds;
    if k == r.producer.size {
      longer, u := steps, r;
    } else {
      longer, u := OneMoreStep(first, steps, r, CopyIn(k));
      longer, u := CopyAllIn(first, longer, u, k + 1);
    }
  }

  lemma {:induction false} CopyAllOut(first: Ring, steps: seq<Step>, r: Ring, k: nat)
      returns (longer: seq<Step>, u: Ring)
    requires Reaches(first, steps, r) && Inv(r) && r.consumer.Reading? && k <= r.consumer.size
    requires forall j: nat :: j < k ==> j in r.consumer.dest
    ensures Reaches(first, longer, u) && Inv(u) && Enabled(u, PublishFront) && u.consumer.size == r.consumer.size
    ensures u.accepted == r.accepted && u.returned == r.returned && u.producer == r.producer
    decreases r.consumer.size - k
  {
    hide Reaches, Inv, InBounds;
    if k == r.consumer.size {
      longer, u := steps, r;
    } else {
      longer, u := OneMoreStep(first, steps, r, CopyOut(k));
      longer, u := CopyAllOut(first, longer, u, k + 1);
    }
  }

  /** An Enqueue whose thread is not interrupted by its own side takes all the data, or all that
      fits, whatever the consumer is in the middle of. */
  lemma EnqueueAlone(first: Ring, steps: seq<Step>, r: Ring, data: seq<Byte>) returns (longer: seq<Step>, u: Ring)
    requires Init(first) && Reaches(first, steps, r) && r.producer.Resting?
    ensures Reaches(first, longer, u) && u.producer.Resting? && u.returned == r.returned && u.consumer == r.consumer
    ensures var free := r.mCapacity - (|r.accepted| - |r.returned|);
            free >= 0 && u.accepted == r.accepted + data[..Min(|data|, free)]
  {
    RunKeepsInv(first, steps, r);
    UnreadIsStream(r);
    hide Reaches, Inv, InBounds, Init, Unread;
    var n := Granted(|data|, r.mCapacity - (|r.accepted| - |r.returned|));
    longer, u := OneMoreStep(first, steps, r, CallEnqueue(data));
    assert u.producer == Writing(data, n, {});
    longer, u := CopyAllIn(first, longer, u, 0);
    longer, u := OneMoreStep(first, longer, u, PublishRear);
  }

  /** A Dequeue likewise delivers as much as asked for, or all that is queued. */
  lemma DequeueAlone(first: Ring, steps: seq<Step>, r: Ring, iSize: nat) returns (longer: seq<Step>, u: Ring)
    requires Init(first) && Reaches(first, steps, r) && r.consumer.Waiting?
    ensures Reaches(first, longer, u) && u.consumer.Waiting? && u.accepted == r.accepted && u.producer == r.producer
    ensures |u.returned| == |r.returned| + Min(iSize, |r.accepted| - |r.returned|) && u.returned <= u.accepted
  {
    RunKeepsInv(first, steps, r);
    UnreadIsStream(r);
    hide Reaches, Inv, InBounds, Init, Unread;
    var n := Granted(iSize, |r.accepted| - |r.returned|);
    longer, u := OneMoreStep(first, steps, r, CallDequeue(iSize));
    assert u.consumer == Reading(n, map[]);
    longer, u := CopyAllOut(first, longer, u, 0);
    longer, u := OneMoreStep(first, longer, u, PublishFront);
    DeliveredInOrder(u);
  }

  lemma DeliveredInOrder(r: Ring)
    requires Inv(r)
    ensures r.returned <= r.accepted
  {
  }
}

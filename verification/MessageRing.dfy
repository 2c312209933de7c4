/** The ring of `message_q.c` as a bounded queue: `start` is -1 when the ring is empty. */
module MessageRing {
  import opened Bytes

  type Message = seq<byte>

  const MAX_MESSAGE_LENGTH: nat := 512
  const MQ_EMPTY_SENTINEL: int := -1
  const MQERR_FULL: int := -40
  const MQERR_MESSAGE_TOO_LONG: int := -41

  /** The state of the ring; a slot that holds no message is NULL. */
  datatype Ring = Ring(slots: seq<Option<Message>>, start: int, end: int)

  predicate Shape(r: Ring) {
    |r.slots| > 0 && -1 <= r.start < |r.slots| && 0 <= r.end < |r.slots|
  }

  function Fresh(capacity: nat): (r: Ring)
    requires capacity > 0
    ensures Tidy(r)
  {
    Ring(seq(capacity, _ => None), MQ_EMPTY_SENTINEL, 0)
  }

  /** The slots in use, oldest first. */
  function Live(r: Ring): seq<Option<Message>>
    requires Shape(r)
  {
    if r.start == MQ_EMPTY_SENTINEL then []
    else if r.start < r.end then r.slots[r.start..r.end]
    else r.slots[r.start..] + r.slots[..r.end]
  }

  predicate IsFull(r: Ring) {
    r.end == r.start
  }

  function Enqueued(r: Ring, m: Message): (r': Ring)
    requires Shape(r)
    ensures Shape(r')
  {
    Ring(r.slots[r.end := Some(m)],
         if r.start == MQ_EMPTY_SENTINEL then 0 else r.start,
         (r.end + 1) % |r.slots|)
  }

  function Dequeued(r: Ring): (r': Ring)
    requires Shape(r) && r.start != MQ_EMPTY_SENTINEL
    ensures Shape(r')
  {
    var next := (r.start + 1) % |r.slots|;
    Ring(r.slots[r.start := None], if next == r.end then MQ_EMPTY_SENTINEL else next, r.end)
  }

  lemma NextIndex(i: nat, n: nat)
    requires i < n
    ensures (i + 1) % n == if i + 1 == n then 0 else i + 1
  {
  }

  lemma FullIsCapacity(r: Ring)
    requires Shape(r)
    ensures IsFull(r) <==> |Live(r)| == |r.slots|
    ensures Live(r) == [] <==> r.start == MQ_EMPTY_SENTINEL
  {
  }

  /** The first message of an emptied ring goes to slot `end`, but `start` is reset to 0. */
  predicate GuardHolds(r: Ring) {
    r.start == MQ_EMPTY_SENTINEL ==> r.end == 0
  }

  /** Enqueueing appends exactly when the ring holds messages or its end is at slot 0. */
  lemma EnqueueAppendsIff(r: Ring, m: Message)
    requires Shape(r) && !IsFull(r)
    ensures Live(Enqueued(r, m)) == Live(r) + [Some(m)] <==> GuardHolds(r)
  {
    var r' := Enqueued(r, m);
    NextIndex(r.end, |r.slots|);
    if !GuardHolds(r) {
      assert |Live(r')| == r.end + 1;
    } else if r.start == MQ_EMPTY_SENTINEL {
      assert Live(r') == [Some(m)];
    } else if r.start < r.end {
      if r.end + 1 == |r.slots| {
        assert Live(r') == r'.slots[r.start..] + r'.slots[..0] == r.slots[r.start..r.end] + [Some(m)];
      }
    } else {
      assert r'.slots[..r.end + 1] == r.slots[..r.end] + [Some(m)];
      assert r'.slots[r.start..] == r.slots[r.start..];
      Assoc(r.slots[r.start..], r.slots[..r.end], [Some(m)]);
    }
  }

  /** Clearing slot i changes neither what follows it nor what precedes it. */
  lemma SlotCleared(ss: seq<Option<Message>>, i: nat, n: nat)
    requires i < |ss| && n <= |ss|
    ensures i < n ==> ss[i := None][i + 1..n] == ss[i + 1..n]
    ensures n <= i ==> ss[i := None][..n] == ss[..n]
  {
  }

  lemma DequeueStraight(r: Ring)
    requires Shape(r) && 0 <= r.start < r.end
    ensures Live(r)[0] == r.slots[r.start] && Live(Dequeued(r)) == Live(r)[1..]
  {
    NextIndex(r.start, |r.slots|);
    SlotCleared(r.slots, r.start, r.end);
    HeadOfSlice(r.slots, r.start, r.end);
    Tail([r.slots[r.start]], r.slots[r.start + 1..r.end]);
  }

  lemma DequeueWrapped(r: Ring)
    requires Shape(r) && r.end <= r.start
    ensures Live(r)[0] == r.slots[r.start] && Live(Dequeued(r)) == Live(r)[1..]
  {
    var n, first, head := |r.slots|, [r.slots[r.start]], r.slots[..r.end];
    var more := r.slots[r.start + 1..n];
    NextIndex(r.start, n);
    SlotCleared(r.slots, r.start, n);
    SlotCleared(r.slots, r.start, r.end);
    HeadOfSlice(r.slots, r.start, n);
    Assoc(first, more, head);
    Tail(first, more + head);
    WrappedIs(r, first + more, head);
    if r.start + 1 < n {
      WrappedIs(Dequeued(r), more, head);
    } else {
      assert more + head == head;
    }
  }

  lemma WrappedIs(r: Ring, tail: seq<Option<Message>>, head: seq<Option<Message>>)
    requires Shape(r) && r.end <= r.start
    requires tail == r.slots[r.start..|r.slots|] && head == r.slots[..r.end]
    ensures Live(r) == tail + head
  {
  }

  lemma DequeueDropsFirst(r: Ring)
    requires Shape(r) && r.start != MQ_EMPTY_SENTINEL
    ensures Live(r) != [] && Live(r)[0] == r.slots[r.start]
    ensures Live(Dequeued(r)) == Live(r)[1..]
  {
    if r.start < r.end {
      DequeueStraight(r);
    } else {
      DequeueWrapped(r);
    }
  }

  // ---- Runs against a bounded FIFO ----

  datatype Op = Put(m: Message) | Take

  /** `message_queue__q` on a message of legal length, and `message_queue__dq`. */
  function RingStep(r: Ring, op: Op): (r': Ring)
    requires Shape(r)
    ensures Shape(r')
  {
    match op
    case Put(m) => if IsFull(r) then r else Enqueued(r, m)
    case Take => if r.start == MQ_EMPTY_SENTINEL then r else Dequeued(r)
  }

  function FifoStep(q: seq<Option<Message>>, capacity: nat, op: Op): seq<Option<Message>> {
    match op
    case Put(m) => if |q| == capacity then q else q + [Some(m)]
    case Take => if q == [] then q else q[1..]
  }

  /** After each operation of the run the ring holds what the queue holds. */
  ghost predicate Follows(r: Ring, q: seq<Option<Message>>, ops: seq<Op>)
    requires Shape(r)
    decreases |ops|
  {
    && Live(r) == q
    && (ops != [] ==> Follows(RingStep(r, ops[0]), FifoStep(q, |r.slots|, ops[0]), ops[1..]))
  }

  /** Every enqueue of the run meets the guard. */
  predicate GuardedRun(r: Ring, ops: seq<Op>)
    requires Shape(r)
    decreases |ops|
  {
    ops != [] ==> (ops[0].Put? ==> GuardHolds(r)) && GuardedRun(RingStep(r, ops[0]), ops[1..])
  }

  /** One guarded operation does to the ring what it does to the queue. */
  lemma StepIsFifo(r: Ring, op: Op)
    requires Shape(r) && (op.Put? ==> GuardHolds(r))
    ensures Live(RingStep(r, op)) == FifoStep(Live(r), |r.slots|, op)
  {
    FullIsCapacity(r);
    if op.Put? && !IsFull(r) {
      EnqueueAppendsIff(r, op.m);
    } else if op.Take? && Live(r) != [] {
      DequeueDropsFirst(r);
    }
  }

  /** A run behaves as a bounded FIFO, through any wraparound, exactly when its enqueues are guarded. */
  lemma {:induction false} RunIsFifoIff(r: Ring, q: seq<Option<Message>>, ops: seq<Op>)
    requires Shape(r) && Live(r) == q
    ensures Follows(r, q, ops) <==> GuardedRun(r, ops)
    decreases |ops|
  {
    if ops != [] {
      FullIsCapacity(r);
      var r', q' := RingStep(r, ops[0]), FifoStep(q, |r.slots|, ops[0]);
      if ops[0].Put? ==> GuardHolds(r) {
        StepIsFifo(r, ops[0]);
      } else {
        EnqueueAppendsIff(r, ops[0].m);
      }
      if Live(r') == q' {
        RunIsFifoIff(r', q', ops[1..]);
      }
    }
  }

  function RunFrom(r: Ring, ops: seq<Op>): (r': Ring)
    requires Shape(r)
    ensures Shape(r')
    decreases |ops|
  {
    if ops == [] then r else RunFrom(RingStep(r, ops[0]), ops[1..])
  }

  /** No live slot is NULL. */
  predicate HoldsMessages(r: Ring)
    requires Shape(r)
  {
    forall i :: 0 <= i < |Live(r)| ==> Live(r)[i].Some?
  }

  lemma StepHoldsMessages(r: Ring, op: Op)
    requires Shape(r) && HoldsMessages(r) && (op.Put? ==> GuardHolds(r))
    ensures HoldsMessages(RingStep(r, op))
  {
    StepIsFifo(r, op);
  }

  predicate IsLiveIndex(r: Ring, i: int) {
    && r.start != MQ_EMPTY_SENTINEL
    && if r.start < r.end then r.start <= i < r.end else r.start <= i || i < r.end
  }

  /** The slots that hold messages are the live ones, as on a fresh ring. */
  ghost predicate Tidy(r: Ring) {
    Shape(r) && forall i :: 0 <= i < |r.slots| ==> (r.slots[i].Some? <==> IsLiveIndex(r, i))
  }

  lemma TidyHoldsMessages(r: Ring)
    requires Tidy(r)
    ensures HoldsMessages(r)
  {
    forall i | 0 <= i < |Live(r)| ensures Live(r)[i].Some? {
      var j := if r.start + i < |r.slots| then r.start + i else r.start + i - |r.slots|;
      assert Live(r)[i] == r.slots[j] && IsLiveIndex(r, j);
    }
  }

  lemma StepIsTidy(r: Ring, op: Op)
    requires Tidy(r) && (op.Put? ==> GuardHolds(r))
    ensures Tidy(RingStep(r, op))
  {
    NextIndex(r.end, |r.slots|);
    if r.start != MQ_EMPTY_SENTINEL {
      NextIndex(r.start, |r.slots|);
    }
  }

  /** An unguarded enqueue leaves slot 0 in front, which is NULL. */
  lemma UnguardedLeavesNull(r: Ring, m: Message)
    requires Tidy(r) && !GuardHolds(r)
    ensures !HoldsMessages(Enqueued(r, m))
  {
    var r' := Enqueued(r, m);
    NextIndex(r.end, |r.slots|);
    assert !IsLiveIndex(r, 0);
    assert Live(r')[0] == r.slots[0];
  }

  /** At every point of the run no live slot is NULL. */
  predicate AlwaysHoldsMessages(r: Ring, ops: seq<Op>)
    requires Shape(r)
    decreases |ops|
  {
    HoldsMessages(r) && (ops != [] ==> AlwaysHoldsMessages(RingStep(r, ops[0]), ops[1..]))
  }

  /** `dq` and `get` can never meet a NULL slot exactly when the enqueues of the run are guarded. */
  lemma {:induction false} NeverNullIff(r: Ring, ops: seq<Op>)
    requires Tidy(r)
    ensures AlwaysHoldsMessages(r, ops) <==> GuardedRun(r, ops)
    decreases |ops|
  {
    TidyHoldsMessages(r);
    if ops != [] {
      if ops[0].Put? ==> GuardHolds(r) {
        StepIsTidy(r, ops[0]);
        NeverNullIff(RingStep(r, ops[0]), ops[1..]);
      } else {
        UnguardedLeavesNull(r, ops[0].m);
      }
    }
  }

  /** In a guarded run from any ring without NULL live slots there never is one. */
  lemma {:induction false} GuardedRunHoldsMessages(r: Ring, ops: seq<Op>)
    requires Shape(r) && HoldsMessages(r) && GuardedRun(r, ops)
    ensures AlwaysHoldsMessages(r, ops) && HoldsMessages(RunFrom(r, ops))
    decreases |ops|
  {
    if ops != [] {
      StepHoldsMessages(r, ops[0]);
      GuardedRunHoldsMessages(RingStep(r, ops[0]), ops[1..]);
    }
  }

  /** What the takes of a run return from the queue; a take from an empty one returns nothing. */
  function FifoTaken(q: seq<Option<Message>>, capacity: nat, ops: seq<Op>): seq<Option<Message>>
    decreases |ops|
  {
    if ops == [] then []
    else
      (if ops[0].Put? then [] else [if q == [] then None else q[0]])
      + FifoTaken(FifoStep(q, capacity, ops[0]), capacity, ops[1..])
  }

  /** How many enqueues of the run the ring accepts. */
  function Accepted(r: Ring, ops: seq<Op>): nat
    requires Shape(r)
    decreases |ops|
  {
    if ops == [] then 0
    else (if ops[0].Put? && !IsFull(r) then 1 else 0) + Accepted(RingStep(r, ops[0]), ops[1..])
  }

  /** `end` counts the accepted messages, so the guard asks that a drained ring has gone round completely. */
  lemma {:induction false} EndCountsAccepted(r: Ring, before: nat, ops: seq<Op>)
    requires Shape(r) && r.end == before % |r.slots|
    ensures RunFrom(r, ops).end == (before + Accepted(r, ops)) % |r.slots|
    decreases |ops|
  {
    if ops != [] {
      var more := if ops[0].Put? && !IsFull(r) then 1 else 0;
      if more == 1 {
        ModNext(before, |r.slots|);
      }
      EndCountsAccepted(RingStep(r, ops[0]), before + more, ops[1..]);
    }
  }

  lemma ModNext(k: nat, n: nat)
    requires n > 0
    ensures (k + 1) % n == (k % n + 1) % n
  {
    var q := k / n;
    NextIndex(k % n, n);
    if k % n + 1 == n {
      assert k + 1 == (q + 1) * n;
      ModUnique(k + 1, n, q + 1, 0);
    } else {
      assert k + 1 == q * n + (k % n + 1);
      ModUnique(k + 1, n, q, k % n + 1);
    }
  }

  /** Drained at slot 1, a ring of two puts the next message where `start` does not look. */
  lemma ReuseAfterDrainBreaks(a: Message, b: Message)
    ensures Live(RunFrom(Fresh(2), [Put(a), Take, Put(b)])) == [None, Some(b)]
    ensures !GuardedRun(Fresh(2), [Put(a), Take, Put(b)])
  {
    var r0 := Fresh(2);
    var r1 := RingStep(r0, Put(a));
    var r2 := RingStep(r1, Take);
    var r3 := RingStep(r2, Put(b));
    assert [Put(a), Take, Put(b)][1..] == [Take, Put(b)];
    assert [Take, Put(b)][1..] == [Put(b)];
    assert [Put(b)][1..] == [];
    assert RunFrom(r2, [Put(b)]) == r3;
    assert RunFrom(r1, [Take, Put(b)]) == r3;
    assert !GuardedRun(r2, [Put(b)]);
    assert !GuardedRun(r1, [Take, Put(b)]);
  }
}

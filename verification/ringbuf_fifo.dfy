/**
 * FIFO use of the ring buffer (Push and Pop only) refines a bounded queue.
 *
 * `Holds(rb, q)` says the ring holds exactly the queue `q`: its records sit
 * in order from the read cursor on, every other slot is empty, the write
 * cursor sits just past the last record, and `fill == |q| <= n`. A bounded
 * queue of capacity `n` is the independent reference: pushing appends unless
 * it holds `n` records, popping takes the front unless it is empty.
 */
module RingBufferFifo {
  import opened Wrappers
  import opened RingBuffer

  ghost predicate Holds<T>(rb: Ringbuf<T>, q: seq<T>)
  {
    && Wf(rb)
    && rb.fill == |q| <= rb.n
    && rb.write == Offset(rb.read, |q|, rb.n)
    && (forall k :: 0 <= k < |q| ==> rb.slots[Offset(rb.read, k, rb.n)] == Some(q[k]))
    && (forall k :: |q| <= k < rb.n ==> rb.slots[Offset(rb.read, k, rb.n)] == None)
  }

  /** The slot `k` places after `read`, wrapping once round a ring of `n`. */
  function Offset(read: int, k: int, n: int): (i: int)
    requires 0 <= read < n && 0 <= k <= n
    ensures 0 <= i < n
    ensures i == (read + k) % n
  {
    if read + k < n then read + k else read + k - n
  }

  /** One FIFO request: push a record, or pop into an untouched destination. */
  datatype Op<T> = PushOp(key: T) | PopOp

  /** What a request hands back: the C status code and, for a pop, the record. */
  datatype Reply<T> = Reply(ret: int, value: Option<T>)

  /** The reference bounded queue: the state after a request and the reply to it. */
  datatype QStep<T> = QStep(q: seq<T>, reply: Reply<T>)

  function QueueStep<T>(q: seq<T>, cap: nat, op: Op<T>): (r: QStep<T>)
  {
    match op
    case PushOp(key) =>
      if |q| < cap then QStep(q + [key], Reply(1, None)) else QStep(q, Reply(0, None))
    case PopOp =>
      if |q| > 0 then QStep(q[1..], Reply(1, Some(q[0]))) else QStep(q, Reply(0, None))
  }

  /** One request against the ring itself. */
  function RingStep<T>(rb: Ringbuf<T>, op: Op<T>): (r: (Ringbuf<T>, Reply<T>))
    requires Wf(rb)
    ensures Wf(r.0) && r.0.n == rb.n
  {
    match op
    case PushOp(key) =>
      var p := Push(rb, key);
      (p.rb, Reply(p.ret, None))
    case PopOp =>
      var p := Pop(rb, None);
      (p.rb, Reply(p.ret, p.dest))
  }

  /** A sequence of requests against the ring, with the replies in order. */
  function RingRun<T>(rb: Ringbuf<T>, ops: seq<Op<T>>): (r: (Ringbuf<T>, seq<Reply<T>>))
    requires Wf(rb)
    ensures Wf(r.0) && r.0.n == rb.n && |r.1| == |ops|
    decreases |ops|
  {
    if ops == [] then (rb, [])
    else
      var (rb', reply) := RingStep(rb, ops[0]);
      var (rb'', replies) := RingRun(rb', ops[1..]);
      (rb'', [reply] + replies)
  }

  /** The same sequence of requests against the reference queue. */
  function QueueRun<T>(q: seq<T>, cap: nat, ops: seq<Op<T>>): (r: (seq<T>, seq<Reply<T>>))
    ensures |r.1| == |ops|
    decreases |ops|
  {
    if ops == [] then (q, [])
    else
      var s := QueueStep(q, cap, ops[0]);
      var (q'', replies) := QueueRun(s.q, cap, ops[1..]);
      (q'', [s.reply] + replies)
  }

  /** The initial buffer holds the empty queue. */
  lemma InitHoldsEmpty<T>(numKeys: int)
    requires numKeys > 0
    ensures Holds(Init<T>(numKeys), [])
  {
  }

  /** On a ring holding `q`, the full and empty tests mean what the queue says. */
  lemma HoldsFullEmpty<T>(rb: Ringbuf<T>, q: seq<T>)
    requires Holds(rb, q)
    ensures IsFull(rb) <==> |q| == rb.n
    ensures IsEmpty(rb) <==> |q| == 0
  {
  }

  /** A push with room left appends to the held queue. */
  lemma PushHolds<T>(rb: Ringbuf<T>, q: seq<T>, key: T)
    requires Holds(rb, q) && |q| < rb.n
    ensures Push(rb, key).ret == 1
    ensures Holds(Push(rb, key).rb, q + [key])
  {
    var r := Push(rb, key).rb;
    var q' := q + [key];
    assert forall k :: 0 <= k < |q'| ==> r.slots[Offset(r.read, k, r.n)] == Some(q'[k]);
  }

  /** A pop from a non-empty ring yields the front of the held queue and holds the rest. */
  lemma PopHolds<T>(rb: Ringbuf<T>, q: seq<T>, dest: Option<T>)
    requires Holds(rb, q) && |q| > 0
    ensures Pop(rb, dest).ret == 1
    ensures Pop(rb, dest).dest == Some(q[0])
    ensures Holds(Pop(rb, dest).rb, q[1..])
  {
    var r := Pop(rb, dest).rb;
    var q' := q[1..];
    assert rb.slots[Offset(rb.read, 0, rb.n)] == Some(q[0]);
    forall k | 0 <= k < |q'|
      ensures r.slots[Offset(r.read, k, r.n)] == Some(q'[k])
    {
      assert Offset(r.read, k, r.n) == Offset(rb.read, k + 1, rb.n);
      assert rb.slots[Offset(rb.read, k + 1, rb.n)] == Some(q[k + 1]);
    }
    forall k | |q'| <= k < r.n
      ensures r.slots[Offset(r.read, k, r.n)] == None
    {
      if k + 1 < rb.n {
        assert Offset(r.read, k, r.n) == Offset(rb.read, k + 1, rb.n);
        assert rb.slots[Offset(rb.read, k + 1, rb.n)] == None;
      }
    }
  }

  /** Each request on the ring answers and moves like the reference queue. */
  lemma StepRefines<T>(rb: Ringbuf<T>, q: seq<T>, op: Op<T>)
    requires Holds(rb, q)
    ensures var s := QueueStep(q, rb.n, op);
      Holds(RingStep(rb, op).0, s.q) && RingStep(rb, op).1 == s.reply
  {
    HoldsFullEmpty(rb, q);
    match op
    case PushOp(key) =>
      if |q| < rb.n {
        PushHolds(rb, q, key);
      }
    case PopOp =>
      if |q| > 0 {
        PopHolds(rb, q, None);
      }
  }

  /** Any sequence of push and pop requests on the ring agrees with the reference queue. */
  lemma {:induction false} RunRefines<T>(rb: Ringbuf<T>, q: seq<T>, ops: seq<Op<T>>)
    requires Holds(rb, q)
    ensures Holds(RingRun(rb, ops).0, QueueRun(q, rb.n, ops).0)
    ensures RingRun(rb, ops).1 == QueueRun(q, rb.n, ops).1
    decreases |ops|
  {
    if ops != [] {
      StepRefines(rb, q, ops[0]);
      var (rb', _) := RingStep(rb, ops[0]);
      RunRefines(rb', QueueStep(q, rb.n, ops[0]).q, ops[1..]);
    }
  }

  /**
   * Fill accounting under FIFO use: starting from Init, after any requests the
   * fill count lies in 0..n and equals the records successfully pushed minus
   * those successfully popped.
   */
  lemma FillBounded<T>(numKeys: int, ops: seq<Op<T>>)
    requires numKeys > 0
    ensures var rb := RingRun(Init<T>(numKeys), ops).0;
      && 0 <= rb.fill <= numKeys
      && rb.fill == Pushed(ops, RingRun(Init<T>(numKeys), ops).1) - Popped(ops, RingRun(Init<T>(numKeys), ops).1)
  {
    InitHoldsEmpty<T>(numKeys);
    RunRefines(Init<T>(numKeys), [], ops);
    QueueCounts([], numKeys, ops);
  }

  /** Successful pushes among the requests, read off the replies. */
  function Pushed<T>(ops: seq<Op<T>>, replies: seq<Reply<T>>): nat
    requires |replies| == |ops|
    decreases |ops|
  {
    if ops == [] then 0
    else (if ops[0].PushOp? && replies[0].ret == 1 then 1 else 0) + Pushed(ops[1..], replies[1..])
  }

  /** Successful pops among the requests, read off the replies. */
  function Popped<T>(ops: seq<Op<T>>, replies: seq<Reply<T>>): nat
    requires |replies| == |ops|
    decreases |ops|
  {
    if ops == [] then 0
    else (if ops[0].PopOp? && replies[0].ret == 1 then 1 else 0) + Popped(ops[1..], replies[1..])
  }

  lemma {:induction false} QueueCounts<T>(q: seq<T>, cap: nat, ops: seq<Op<T>>)
    requires |q| <= cap
    ensures var r := QueueRun(q, cap, ops);
      |r.0| <= cap && |r.0| + Popped(ops, r.1) == |q| + Pushed(ops, r.1)
    decreases |ops|
  {
    if ops != [] {
      var s := QueueStep(q, cap, ops[0]);
      QueueCounts(s.q, cap, ops[1..]);
      var r := QueueRun(q, cap, ops);
      assert r.1[1..] == QueueRun(s.q, cap, ops[1..]).1;
    }
  }

  /** Push every record in order, discarding the push status codes. */
  function PushAll<T>(rb: Ringbuf<T>, keys: seq<T>): (r: Ringbuf<T>)
    requires Wf(rb)
    ensures Wf(r) && r.n == rb.n
    decreases |keys|
  {
    if keys == [] then rb else PushAll(Push(rb, keys[0]).rb, keys[1..])
  }

  /** Pop `k` times, collecting what each pop handed out. */
  function PopMany<T>(rb: Ringbuf<T>, k: nat): (r: (Ringbuf<T>, seq<Option<T>>))
    requires Wf(rb)
    ensures Wf(r.0) && r.0.n == rb.n && |r.1| == k
    decreases k
  {
    if k == 0 then (rb, [])
    else
      var p := Pop(rb, None);
      var (rb', outs) := PopMany(p.rb, k - 1);
      (rb', [p.dest] + outs)
  }

  lemma {:induction false} PushAllHolds<T>(rb: Ringbuf<T>, q: seq<T>, keys: seq<T>)
    requires Holds(rb, q) && |q| + |keys| <= rb.n
    ensures Holds(PushAll(rb, keys), q + keys)
    decreases |keys|
  {
    if keys != [] {
      PushHolds(rb, q, keys[0]);
      PushAllHolds(Push(rb, keys[0]).rb, q + [keys[0]], keys[1..]);
      assert q + [keys[0]] + keys[1..] == q + keys;
    }
  }

  lemma {:induction false} PopManyHolds<T>(rb: Ringbuf<T>, q: seq<T>, k: nat)
    requires Holds(rb, q) && k <= |q|
    ensures Holds(PopMany(rb, k).0, q[k..])
    ensures forall i :: 0 <= i < k ==> PopMany(rb, k).1[i] == Some(q[i])
    decreases k
  {
    if k > 0 {
      PopHolds(rb, q, None);
      var p := Pop(rb, None);
      PopManyHolds(p.rb, q[1..], k - 1);
      assert q[1..][k - 1..] == q[k..];
    }
  }

  /**
   * Round trip: from a fresh buffer, pushing up to `n` records and then popping
   * as many times hands them back in the order pushed, leaving fill at 0.
   */
  lemma FifoRoundTrip<T>(numKeys: int, keys: seq<T>)
    requires numKeys > 0 && |keys| <= numKeys
    ensures var (rb, outs) := PopMany(PushAll(Init<T>(numKeys), keys), |keys|);
      && (forall i :: 0 <= i < |keys| ==> outs[i] == Some(keys[i]))
      && rb.fill == 0
      && IsEmpty(rb)
  {
    InitHoldsEmpty<T>(numKeys);
    PushAllHolds(Init<T>(numKeys), [], keys);
    assert [] + keys == keys;
    PopManyHolds(PushAll(Init<T>(numKeys), keys), keys, |keys|);
    var rb := PopMany(PushAll(Init<T>(numKeys), keys), |keys|).0;
    HoldsFullEmpty(rb, keys[|keys|..]);
  }

  /**
   * The capacity-3 scenario: push A, B, C (now full); push D is refused with
   * fill 3; pop gives A; push D succeeds; three pops give B, C, D; a further
   * pop is refused.
   */
  lemma CapacityThreeScenario<T>(a: T, b: T, c: T, d: T)
    ensures var ops := [PushOp(a), PushOp(b), PushOp(c), PushOp(d), PopOp, PushOp(d), PopOp, PopOp, PopOp, PopOp];
      RingRun(Init<T>(3), ops).1 ==
        [Reply(1, None), Reply(1, None), Reply(1, None), Reply(0, None), Reply(1, Some(a)),
         Reply(1, None), Reply(1, Some(b)), Reply(1, Some(c)), Reply(1, Some(d)), Reply(0, None)]
  {
    var ops := [PushOp(a), PushOp(b), PushOp(c), PushOp(d), PopOp, PushOp(d), PopOp, PopOp, PopOp, PopOp];
    InitHoldsEmpty<T>(3);
    RunRefines(Init<T>(3), [], ops);
    var e: seq<T> := [];
    var r9 := QueueRun(e, 3, ops[9..]);
    assert r9.1 == [Reply(0, None)];
    assert [d][1..] == e;
    var r8 := QueueRun([d], 3, ops[8..]);
    assert r8.1 == [Reply(1, Some(d))] + r9.1;
    var r7 := QueueRun([c, d], 3, ops[7..]);
    assert r7.1 == [Reply(1, Some(c))] + r8.1;
    var r6 := QueueRun([b, c, d], 3, ops[6..]);
    assert r6.1 == [Reply(1, Some(b))] + r7.1;
    assert [b, c] + [d] == [b, c, d];
    var r5 := QueueRun([b, c], 3, ops[5..]);
    assert r5.1 == [Reply(1, None)] + r6.1;
    var r4 := QueueRun([a, b, c], 3, ops[4..]);
    assert r4.1 == [Reply(1, Some(a))] + r5.1;
    var r3 := QueueRun([a, b, c], 3, ops[3..]);
    assert r3.1 == [Reply(0, None)] + r4.1;
    assert [a, b] + [c] == [a, b, c];
    var r2 := QueueRun([a, b], 3, ops[2..]);
    assert r2.1 == [Reply(1, None)] + r3.1;
    assert [a] + [b] == [a, b];
    var r1 := QueueRun([a], 3, ops[1..]);
    assert r1.1 == [Reply(1, None)] + r2.1;
    assert e + [a] == [a];
    var r0 := QueueRun(e, 3, ops);
    assert r0.1 == [Reply(1, None)] + r1.1;
  }
}

/**
 * The fixed-capacity ring buffer of ringbuf.c.
 *
 * A buffer has `n` slots (the C field `num_keys`), a `write` cursor, a
 * `read` cursor and a `fill` count. Records are FIFO-queued through Push and
 * Pop, and addressed directly through Insert and Get, which bypass the
 * cursors but share the fill count. Slots hold whole records; an empty slot
 * is the C NULL pointer.
 *
 * The C return codes are kept as they are: Push and Pop return 1 on success
 * and 0 on failure, Insert returns 0 on success and 1 on failure, and Get
 * always returns 0.
 */
module RingBuffer {
  import opened Wrappers

  datatype Ringbuf<T> = Ringbuf(slots: seq<Option<T>>, write: int, read: int, fill: int, n: int)

  /** A buffer result together with the C status code. */
  datatype Updated<T> = Updated(rb: Ringbuf<T>, ret: int)

  /** The result of a pop: the buffer, the value left in `*dest`, the status code. */
  datatype Popped<T> = Popped(rb: Ringbuf<T>, dest: Option<T>, ret: int)

  /** The result of a get: the value left in `*dest` and the status code. */
  datatype Got<T> = Got(dest: Option<T>, ret: int)

  /**
   * Shape every buffer built by Init keeps: `n` positive, one slot per key,
   * both cursors inside the slot array. The fill count is not constrained:
   * mixing Insert with Pop can take it past the number of occupied slots.
   */
  ghost predicate Wf<T>(rb: Ringbuf<T>)
  {
    && rb.n > 0
    && |rb.slots| == rb.n
    && 0 <= rb.write < rb.n
    && 0 <= rb.read < rb.n
  }

  /** Number of occupied slots. */
  function Count<T>(s: seq<Option<T>>): (c: nat)
    ensures c <= |s|
  {
    if s == [] then 0
    else (if s[0].Some? then 1 else 0) + Count(s[1..])
  }

  /** The fill count agrees with the slots actually occupied. */
  ghost predicate Accounted<T>(rb: Ringbuf<T>)
  {
    rb.fill == Count(rb.slots)
  }

  function EmptySlots<T>(k: nat): (s: seq<Option<T>>)
    ensures |s| == k
    ensures forall i :: 0 <= i < k ==> s[i] == None
  {
    seq(k, _ => None)
  }

  /** ringbuf_init: a buffer of `numKeys` empty slots with both cursors and fill at zero. */
  function Init<T>(numKeys: int): (rb: Ringbuf<T>)
    requires numKeys > 0
    ensures Wf(rb) && rb.n == numKeys
    ensures rb.write == 0 && rb.read == 0 && rb.fill == 0
    ensures forall i :: 0 <= i < numKeys ==> rb.slots[i] == None
    ensures IsEmpty(rb) && !IsFull(rb)
  {
    Ringbuf(EmptySlots(numKeys), 0, 0, 0, numKeys)
  }

  /** ringbuf_isfull: the cursors meet and the fill count is non-zero. */
  predicate IsFull<T>(rb: Ringbuf<T>)
  {
    rb.write == rb.read && rb.fill != 0
  }

  /** ringbuf_isempty: the cursors meet and the fill count is zero. */
  predicate IsEmpty<T>(rb: Ringbuf<T>)
  {
    rb.write == rb.read && rb.fill == 0
  }

  /** The slot that `elem` addresses; `elem` is a non-negative C int. */
  function Loc<T>(rb: Ringbuf<T>, elem: int): (loc: int)
    requires Wf(rb) && elem >= 0
    ensures 0 <= loc < rb.n
    ensures elem < rb.n ==> loc == elem
  {
    elem % rb.n
  }

  /** ringbuf_push: store `key` at the write cursor unless the buffer reports full. */
  function Push<T>(rb: Ringbuf<T>, key: T): (r: Updated<T>)
    requires Wf(rb)
    ensures Wf(r.rb) && r.rb.n == rb.n && r.rb.read == rb.read
    ensures r.ret == (if IsFull(rb) then 0 else 1)
    ensures r.ret == 0 ==> r.rb == rb
    ensures r.ret == 1 ==>
      && r.rb.slots[rb.write] == Some(key)
      && (forall i :: 0 <= i < rb.n && i != rb.write ==> r.rb.slots[i] == rb.slots[i])
      && r.rb.write == (if rb.write == rb.n - 1 then 0 else rb.write + 1)
      && r.rb.fill == rb.fill + 1
  {
    if IsFull(rb) then Updated(rb, 0)
    else
      var slots := rb.slots[rb.write := Some(key)];
      Updated(rb.(slots := slots, write := (rb.write + 1) % rb.n, fill := rb.fill + 1), 1)
  }

  /**
   * ringbuf_pop: hand out the slot under the read cursor unless the buffer
   * reports empty. The slot may itself be empty; `dest` is left alone on failure.
   */
  function Pop<T>(rb: Ringbuf<T>, dest: Option<T>): (r: Popped<T>)
    requires Wf(rb)
    ensures Wf(r.rb) && r.rb.n == rb.n && r.rb.write == rb.write
    ensures r.ret == (if IsEmpty(rb) then 0 else 1)
    ensures r.ret == 0 ==> r.rb == rb && r.dest == dest
    ensures r.ret == 1 ==>
      && r.dest == rb.slots[rb.read]
      && r.rb.slots[rb.read] == None
      && (forall i :: 0 <= i < rb.n && i != rb.read ==> r.rb.slots[i] == rb.slots[i])
      && r.rb.read == (if rb.read == rb.n - 1 then 0 else rb.read + 1)
      && r.rb.fill == rb.fill - 1
  {
    if IsEmpty(rb) then Popped(rb, dest, 0)
    else
      var out := rb.slots[rb.read];
      var slots := rb.slots[rb.read := None];
      Popped(rb.(slots := slots, read := (rb.read + 1) % rb.n, fill := rb.fill - 1), out, 1)
  }

  /** ringbuf_get: read the slot `elem` addresses without changing the buffer. */
  function Get<T>(rb: Ringbuf<T>, elem: int): (r: Got<T>)
    requires Wf(rb) && elem >= 0
    ensures r.ret == 0
    ensures r.dest == rb.slots[Loc(rb, elem)]
  {
    Got(rb.slots[Loc(rb, elem)], 0)
  }

  /**
   * ringbuf_insert: write `key` straight into the slot `elem` addresses,
   * unless the buffer reports full and `overwrite` is off. The cursors never move.
   */
  function Insert<T>(rb: Ringbuf<T>, elem: int, key: T, overwrite: bool): (r: Updated<T>)
    requires Wf(rb) && elem >= 0
    ensures Wf(r.rb) && r.rb.n == rb.n && r.rb.write == rb.write && r.rb.read == rb.read
    ensures r.ret == (if IsFull(rb) && !overwrite then 1 else 0)
    ensures r.ret == 1 ==> r.rb == rb
    ensures r.ret == 0 ==>
      && Get(r.rb, elem).dest == Some(key)
      && (forall i :: 0 <= i < rb.n && i != Loc(rb, elem) ==> r.rb.slots[i] == rb.slots[i])
      && r.rb.fill == rb.fill + (if Get(rb, elem).dest.None? then 1 else 0)
  {
    var loc := Loc(rb, elem);
    if !IsFull(rb) || overwrite then
      var fill := if rb.slots[loc].Some? then rb.fill - 1 else rb.fill;
      Updated(rb.(slots := rb.slots[loc := Some(key)], fill := fill + 1), 0)
    else
      Updated(rb, 1)
  }

  /** ringbuf_clear: empty every slot, one at a time, and reset both cursors and fill. */
  method Clear<T>(rb: Ringbuf<T>) returns (r: Ringbuf<T>)
    requires Wf(rb)
    ensures Wf(r) && r.n == rb.n
    ensures forall i :: 0 <= i < r.n ==> r.slots[i] == None
    ensures r.write == 0 && r.read == 0 && r.fill == 0
    ensures IsEmpty(r) && Accounted(r)
  {
    var slots := rb.slots;
    var i := 0;
    while i < rb.n
      invariant 0 <= i <= rb.n
      invariant |slots| == rb.n
      invariant forall j :: 0 <= j < i ==> slots[j] == None
    {
      slots := slots[i := None];
      i := i + 1;
    }
    r := Ringbuf(slots, 0, 0, 0, rb.n);
    CountNone(slots);
  }

  lemma {:induction false} CountNone<T>(s: seq<Option<T>>)
    requires forall i :: 0 <= i < |s| ==> s[i] == None
    ensures Count(s) == 0
  {
    if s != [] {
      CountNone(s[1..]);
    }
  }

  /** Writing slot `i` changes the occupied count by whether it was empty or is now empty. */
  lemma {:induction false} CountUpdate<T>(s: seq<Option<T>>, i: int, v: Option<T>)
    requires 0 <= i < |s|
    ensures Count(s[i := v]) == Count(s) - (if s[i].Some? then 1 else 0) + (if v.Some? then 1 else 0)
  {
    if i == 0 {
      assert s[i := v][1..] == s[1..];
    } else {
      assert s[i := v][1..] == s[1..][i - 1 := v];
      CountUpdate(s[1..], i - 1, v);
    }
  }

  /** The two predicates never hold together. */
  lemma FullAndEmptyExclusive<T>(rb: Ringbuf<T>)
    ensures !(IsFull(rb) && IsEmpty(rb))
    ensures IsFull(rb) <==> rb.write == rb.read && rb.fill != 0
    ensures IsEmpty(rb) <==> rb.write == rb.read && rb.fill == 0
  {
  }

  /**
   * The full test is not `fill == n`: one direct insert into a fresh buffer of
   * any capacity makes it report full, so the next push is refused.
   */
  lemma OneInsertReportsFull<T>(numKeys: int, elem: int, key: T, other: T)
    requires numKeys > 0 && elem >= 0
    ensures var rb := Insert(Init<T>(numKeys), elem, key, false).rb;
      && rb.fill == 1
      && IsFull(rb)
      && Push(rb, other).ret == 0
  {
  }

  /**
   * The overwrite flag is consulted only when the buffer reports full: an
   * occupied slot of a buffer that is not full is replaced without it.
   */
  lemma InsertReplacesWithoutOverwrite<T>(rb: Ringbuf<T>, elem: int, key: T)
    requires Wf(rb) && elem >= 0
    requires !IsFull(rb) && Get(rb, elem).dest.Some?
    ensures var r := Insert(rb, elem, key, false);
      r.ret == 0 && Get(r.rb, elem).dest == Some(key) && r.rb.fill == rb.fill
  {
  }

  /** Insert keeps the fill count equal to the number of occupied slots. */
  lemma InsertKeepsAccounted<T>(rb: Ringbuf<T>, elem: int, key: T, overwrite: bool)
    requires Wf(rb) && elem >= 0 && Accounted(rb)
    ensures Accounted(Insert(rb, elem, key, overwrite).rb)
  {
    var loc := Loc(rb, elem);
    CountUpdate(rb.slots, loc, Some(key));
  }

  /** A successful push keeps the accounting exactly when it lands on an empty slot. */
  lemma PushAccounted<T>(rb: Ringbuf<T>, key: T)
    requires Wf(rb) && Accounted(rb) && !IsFull(rb)
    ensures Accounted(Push(rb, key).rb) <==> rb.slots[rb.write].None?
  {
    CountUpdate(rb.slots, rb.write, Some(key));
  }

  /** A successful pop keeps the accounting exactly when it takes an occupied slot. */
  lemma PopAccounted<T>(rb: Ringbuf<T>, dest: Option<T>)
    requires Wf(rb) && Accounted(rb) && !IsEmpty(rb)
    ensures Accounted(Pop(rb, dest).rb) <==> rb.slots[rb.read].Some?
  {
    CountUpdate(rb.slots, rb.read, None);
  }
}

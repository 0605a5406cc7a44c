/*
 * The bounded linked-list FIFO of hw2/channel.c: one channel holds up to `max`
 * tuples; writes enter at the head, reads leave at the tail, and each tuple points
 * through `prev` to the one written after it.
 */
module Channel {
  import opened Text
  import TupleReader

  /* ---------------------------------------------------------------------------
   * The queue as a value: the tuples from the oldest (tail) to the newest (head).
   * ------------------------------------------------------------------------- */

  /* channelWriteTuple on the value: append when below max (result 0), else -1. */
  function Enqueue<T>(q: seq<T>, max: int, x: T): (seq<T>, int) {
    if |q| < max then (q + [x], 0) else (q, -1)
  }

  /* channelReadTuple on the value: the oldest element leaves, None when empty. */
  function Dequeue<T>(q: seq<T>): (seq<T>, Option<T>) {
    if q == [] then (q, None) else (q[1..], Some(q[0]))
  }

  /* The bound the channel keeps: its count never passes max, unless max is below
     zero, when the channel stays empty. */
  predicate Bounded<T>(q: seq<T>, max: int) {
    |q| <= max || q == []
  }

  /* Both operations keep the bound. */
  lemma EnqueueDequeueBounded<T>(q: seq<T>, max: int, x: T)
    requires Bounded(q, max)
    ensures Bounded(Enqueue(q, max, x).0, max)
    ensures Bounded(Dequeue(q).0, max)
    ensures Enqueue(q, max, x).1 == 0 <==> |q| < max
  {
  }

  /* Write every element of xs in turn. */
  function EnqueueAll<T>(q: seq<T>, max: int, xs: seq<T>): seq<T>
    decreases |xs|
  {
    if xs == [] then q else EnqueueAll(Enqueue(q, max, xs[0]).0, max, xs[1..])
  }

  /* Read n times, collecting what comes out. */
  function DequeueN<T>(q: seq<T>, n: nat): (seq<T>, seq<T>)
    decreases n
  {
    if n == 0 then (q, [])
    else
      var (q', x) := Dequeue(q);
      var (q'', out) := DequeueN(q', n - 1);
      (q'', (if x.Some? then [x.value] else []) + out)
  }

  /* Writes that fit are queued behind what is already there. */
  lemma {:induction false} EnqueueAllAppends<T>(q: seq<T>, max: int, xs: seq<T>)
    requires |q| + |xs| <= max
    ensures EnqueueAll(q, max, xs) == q + xs
    decreases |xs|
  {
    if xs != [] {
      EnqueueAllAppends(q + [xs[0]], max, xs[1..]);
      assert q + [xs[0]] + xs[1..] == q + xs;
    }
  }

  /* Reading n times takes the n oldest elements, in order. */
  lemma {:induction false} DequeueNTakesOldest<T>(q: seq<T>, n: nat)
    requires n <= |q|
    ensures DequeueN(q, n) == (q[n..], q[..n])
    decreases n
  {
    if n > 0 {
      DequeueNTakesOldest(q[1..], n - 1);
      assert q[1..][n - 1..] == q[n..];
      assert [q[0]] + q[1..][..n - 1] == q[..n];
    }
  }

  /* Tuples come out in the order they were written: on an empty channel with room
     for all of them, writing xs and then reading |xs| times yields xs and leaves the
     channel empty. */
  lemma WriteOrderIsReadOrder<T>(max: int, xs: seq<T>)
    requires |xs| <= max
    ensures DequeueN(EnqueueAll([], max, xs), |xs|) == ([], xs)
  {
    EnqueueAllAppends([], max, xs);
    assert [] + xs == xs;
    DequeueNTakesOldest(xs, |xs|);
    assert xs[|xs|..] == [] && xs[..|xs|] == xs;
  }

  /* ---------------------------------------------------------------------------
   * The channel itself.
   * ------------------------------------------------------------------------- */

  /* A queued tuple: the mapper's output tuple with the `next` and `prev` links that
     rTupleIn_t of hw2/reducer.h gives it. */
  class TupleOut {
    var tuple: TupleReader.Tuple
    var next: TupleOut?
    var prev: TupleOut?

    constructor (tuple: TupleReader.Tuple)
      ensures this.tuple == tuple && next == null && prev == null
    {
      this.tuple, next, prev := tuple, null, null;
    }
  }

  /* channel_t without its function pointers (calls go to the methods directly). */
  class ChannelT {
    var userid: seq<char>
    var max: int
    var count: int
    var head: TupleOut?
    var tail: TupleOut?
    /* The queued tuples from the tail (oldest) to the head (newest). */
    ghost var items: seq<TupleOut>

    ghost predicate Valid()
      reads this, items
    {
      && count == |items|
      && Bounded(items, max)
      && (items == [] ==> tail == null)
      && (items != [] ==> tail == items[0] && head == items[|items| - 1] && items[|items| - 1].prev == null)
      && (forall i :: 0 <= i < |items| - 1 ==> items[i].prev == items[i + 1])
      && (forall i, j :: 0 <= i < j < |items| ==> items[i] != items[j])
    }

    /* channel(ch, size): NUL userid, max = size, empty list; returns 0. */
    constructor (size: int)
      ensures Valid() && items == []
      ensures userid == Repeat(NUL, LEN_USER_ID) && max == size && count == 0
      ensures head == null && tail == null
    {
      userid := Repeat(NUL, LEN_USER_ID);
      max := size;
      count := 0;
      head := null;
      tail := null;
      items := [];
    }

    /* channelWriteTuple.  A tuple written behind others must not already point to
       a newer tuple, since only the first write clears `prev`; it must not be queued
       already. */
    method Write(tuple: TupleOut) returns (r: int)
      requires Valid() && tuple !in items
      requires 0 < count < max ==> tuple.prev == null
      modifies this, items, tuple
      ensures Valid()
      ensures (items, r) == Enqueue(old(items), old(max), tuple)
      ensures max == old(max) && userid == old(userid)
      ensures tuple.tuple == old(tuple.tuple)
      ensures forall o :: o in old(items) ==> o.tuple == old(o.tuple)
      ensures r == 0 ==> head == tuple && count == old(count) + 1
      ensures r == -1 ==> unchanged(this) && unchanged(old(items)) && unchanged(tuple)
    {
      if count < max {
        if head == null || tail == null {
          tuple.next := null;
          tuple.prev := null;
          head := tuple;
          tail := tuple;
        } else {
          head.prev := tuple;
          head := tuple;
        }
        items := items + [tuple];
        count := count + 1;
        return 0;
      } else {
        return -1;
      }
    }

    /* channelReadTuple: the tail is detached and returned; null when empty. */
    method Read() returns (t: TupleOut?)
      requires Valid()
      modifies this, items
      ensures Valid()
      ensures items == Dequeue(old(items)).0
      ensures t == null <==> Dequeue(old(items)).1 == None
      ensures t != null ==> Dequeue(old(items)).1.Some? && Dequeue(old(items)).1.value == t
      ensures max == old(max) && userid == old(userid)
      ensures forall o :: o in old(items) ==> o.tuple == old(o.tuple)
      ensures t != null ==> t.prev == null && count == old(count) - 1
      ensures t == null ==> unchanged(this) && unchanged(old(items))
    {
      if count > 0 {
        var oldTail := tail;
        var newTail := tail.prev;
        oldTail.prev := null;
        tail := newTail;
        count := count - 1;
        items := items[1..];
        return oldTail;
      } else {
        return null;
      }
    }

    /* channelSetUserId: strncpy of LEN_USER_ID characters; returns 0. */
    method SetUserId(src: seq<char>) returns (r: int)
      requires LEN_USER_ID <= |src|
      modifies this`userid
      ensures r == 0 && userid == StrNCpy(src, LEN_USER_ID)
    {
      userid := StrNCpy(src, LEN_USER_ID);
      return 0;
    }
  }
}

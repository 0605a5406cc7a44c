/*
 * The multi-channel tuple FIFO of hw4/fifo.c: `num_channels` ring buffers of equal
 * depth laid out row by row in one flat tuple matrix, with per-channel write index,
 * read index, size and depth arrays.  This is the corrected form, whose indices wrap
 * when they reach the depth; the module FifoAsWritten models the wrap rule as the
 * source writes it.
 */
module Fifo {
  import opened Text

  /* reducer_tuple_in_t of hw4/reducer.h. */
  datatype ReducerTupleIn = ReducerTupleIn(userid: seq<char>, topic: seq<char>, weight: int)

  predicate WellSized(t: ReducerTupleIn) {
    |t.userid| == LEN_USER_ID && |t.topic| == LEN_TOPIC
  }

  /* What a fresh anonymous mapping holds: all bytes zero. */
  const ZERO_TUPLE: ReducerTupleIn := ReducerTupleIn(Repeat(NUL, LEN_USER_ID), Repeat(NUL, LEN_TOPIC), 0)

  /* copy_reducer_tuple: strncpy of topic and userid, then the weight. */
  function Copy(orig: ReducerTupleIn): (r: ReducerTupleIn)
    requires WellSized(orig)
    ensures WellSized(r) && r.weight == orig.weight
  {
    ReducerTupleIn(StrNCpy(orig.userid, LEN_USER_ID), StrNCpy(orig.topic, LEN_TOPIC), orig.weight)
  }

  /* Copying a copy gives the same tuple, so a tuple read back equals the copy that
     was written. */
  lemma CopyIdempotent(t: ReducerTupleIn)
    requires WellSized(t)
    ensures Copy(Copy(t)) == Copy(t)
  {
    StrNCpyIdempotent(t.userid, LEN_USER_ID);
    StrNCpyIdempotent(t.topic, LEN_TOPIC);
  }

  /* Fields without NUL characters come through a copy unchanged. */
  lemma CopyNulFree(t: ReducerTupleIn)
    requires WellSized(t)
    requires forall i :: 0 <= i < LEN_USER_ID ==> t.userid[i] != NUL
    requires forall i :: 0 <= i < LEN_TOPIC ==> t.topic[i] != NUL
    ensures Copy(t) == t
  {
    StrNCpyNulFree(t.userid, LEN_USER_ID);
    StrNCpyNulFree(t.topic, LEN_TOPIC);
    assert t.userid[..LEN_USER_ID] == t.userid && t.topic[..LEN_TOPIC] == t.topic;
  }

  /* ---------------------------------------------------------------------------
   * One channel as a value: its row of the flat matrix starts at `base` and holds
   * `d` slots; `sz` tuples are queued from the read index `rd` on, going round.
   * ------------------------------------------------------------------------- */

  /* The index after i: one further, back to 0 on reaching the depth. */
  function Next(i: int, d: int): int {
    if i + 1 == d then 0 else i + 1
  }

  /* The slot j places after the read index, going round once. */
  function Pos(rd: int, j: int, d: int): int {
    if rd + j < d then rd + j else rd + j - d
  }

  /* The queued tuples, oldest first. */
  function Queue<T>(t: seq<T>, base: int, rd: int, sz: int, d: int): (q: seq<T>)
    requires 0 <= base && base + d <= |t| && 0 <= rd < d && 0 <= sz <= d
    ensures |q| == sz
  {
    seq(sz, j requires 0 <= j < sz => t[base + Pos(rd, j, d)])
  }

  /* A write into a channel that is not full stores at the write index, `sz` places
     after the read index, and so queues the tuple behind the others. */
  lemma QueueWrite<T>(t: seq<T>, base: int, rd: int, sz: int, d: int, v: T)
    requires 0 <= base && base + d <= |t| && 0 <= rd < d && 0 <= sz < d
    ensures 0 <= Pos(rd, sz, d) < d
    ensures Queue(t[base + Pos(rd, sz, d) := v], base, rd, sz + 1, d) == Queue(t, base, rd, sz, d) + [v]
  {
    var k := base + Pos(rd, sz, d);
    var q, q' := Queue(t, base, rd, sz, d), Queue(t[k := v], base, rd, sz + 1, d);
    forall j | 0 <= j < sz + 1
      ensures q'[j] == (q + [v])[j]
    {
      if j < sz {
        assert Pos(rd, j, d) != Pos(rd, sz, d);
      }
    }
  }

  /* A read from a channel that is not empty finds the oldest tuple at the read index,
     and advancing the read index drops it from the queue. */
  lemma QueueRead<T>(t: seq<T>, base: int, rd: int, sz: int, d: int)
    requires 0 <= base && base + d <= |t| && 0 <= rd < d && 0 < sz <= d
    ensures Queue(t, base, rd, sz, d)[0] == t[base + rd]
    ensures Queue(t, base, Next(rd, d), sz - 1, d) == Queue(t, base, rd, sz, d)[1..]
  {
    var q, q' := Queue(t, base, rd, sz, d), Queue(t, base, Next(rd, d), sz - 1, d);
    assert q[0] == t[base + Pos(rd, 0, d)];
    forall j | 0 <= j < sz - 1
      ensures q'[j] == q[1..][j]
    {
      assert q[1..][j] == q[j + 1];
    }
  }

  /* Writing a slot outside a channel's row leaves its queue as it was. */
  lemma QueueOther<T>(t: seq<T>, base: int, rd: int, sz: int, d: int, k: int, v: T)
    requires 0 <= base && base + d <= |t| && 0 <= rd < d && 0 <= sz <= d
    requires 0 <= k < |t| && !(base <= k < base + d)
    ensures Queue(t[k := v], base, rd, sz, d) == Queue(t, base, rd, sz, d)
  {
    var q, q' := Queue(t, base, rd, sz, d), Queue(t[k := v], base, rd, sz, d);
    forall j | 0 <= j < sz
      ensures q'[j] == q[j]
    {
    }
  }

  /* ---------------------------------------------------------------------------
   * Rows of the flat matrix.
   * ------------------------------------------------------------------------- */

  /* ch * d, the first slot of row ch, written out as a sum so that reasoning about
     rows goes by induction. */
  function RowStart(ch: nat, d: nat): nat {
    if ch == 0 then 0 else RowStart(ch - 1, d) + d
  }

  lemma {:induction false} RowStartIsProduct(ch: nat, d: nat)
    ensures RowStart(ch, d) == ch * d
  {
    if ch > 0 {
      RowStartIsProduct(ch - 1, d);
      assert (ch - 1) * d + d == ch * d;
    }
  }

  /* Rows start in order: a later row starts after the whole of an earlier one. */
  lemma {:induction false} RowsApart(ch: nat, other: nat, d: nat)
    requires ch < other
    ensures RowStart(ch, d) + d <= RowStart(other, d)
    decreases other
  {
    if ch + 1 < other {
      RowsApart(ch, other - 1, d);
    }
  }

  /* ---------------------------------------------------------------------------
   * All channels as values: n channels of depth d over the flat matrix t, with
   * write index, read index, size and depth sequences.
   * ------------------------------------------------------------------------- */

  /* Every channel has depth d, its row inside t, its indices inside its row, a size
     between 0 and d, and its write index `size` places after its read index; every
     slot of t is well sized. */
  ghost predicate Indices(n: nat, d: nat, wr: seq<int>, rd: seq<int>, sz: seq<int>, dp: seq<int>,
                          t: seq<ReducerTupleIn>)
  {
    && 0 < d
    && |wr| == n && |rd| == n && |sz| == n && |dp| == n
    && |t| == RowStart(n, d)
    && (forall i :: 0 <= i < |t| ==> WellSized(t[i]))
    && forall ch: nat :: ch < n ==>
         && RowStart(ch, d) + d <= |t|
         && dp[ch] == d && 0 <= rd[ch] < d && 0 <= sz[ch] <= d
         && wr[ch] == Pos(rd[ch], sz[ch], d)
  }

  /* What channel ch holds, oldest first. */
  ghost function ChannelQueue(n: nat, d: nat, wr: seq<int>, rd: seq<int>, sz: seq<int>, dp: seq<int>,
                              t: seq<ReducerTupleIn>, ch: nat): (q: seq<ReducerTupleIn>)
    requires Indices(n, d, wr, rd, sz, dp, t) && ch < n
    ensures |q| == sz[ch] && forall j :: 0 <= j < |q| ==> WellSized(q[j])
  {
    Queue(t, RowStart(ch, d), rd[ch], sz[ch], d)
  }

  /* Every channel of a fresh FIFO is empty, with both indices at 0. */
  lemma IndicesEmpty(n: nat, d: nat, t: seq<ReducerTupleIn>)
    requires 0 < d && |t| == RowStart(n, d) && forall i :: 0 <= i < |t| ==> WellSized(t[i])
    ensures var z := seq(n, _ => 0);
            Indices(n, d, z, z, z, seq(n, _ => d as int), t)
  {
    forall ch: nat | ch < n
      ensures RowStart(ch, d) + d <= |t|
    {
      RowsApart(ch, n, d);
    }
  }

  /* A write to channel ch that is not full puts v at slot RowStart(ch, d) + wr[ch],
     queues it behind that channel's tuples and advances its write index; every other
     channel keeps its queue. */
  lemma IndicesWrite(n: nat, d: nat, wr: seq<int>, rd: seq<int>, sz: seq<int>, dp: seq<int>,
                     t: seq<ReducerTupleIn>, ch: nat, v: ReducerTupleIn)
    requires Indices(n, d, wr, rd, sz, dp, t) && ch < n && sz[ch] < d && WellSized(v)
    ensures 0 <= wr[ch] < d && RowStart(ch, d) + d <= |t|
    ensures var wr', sz', t' := wr[ch := Next(wr[ch], d)], sz[ch := sz[ch] + 1], t[RowStart(ch, d) + wr[ch] := v];
            && Indices(n, d, wr', rd, sz', dp, t')
            && ChannelQueue(n, d, wr', rd, sz', dp, t', ch) == ChannelQueue(n, d, wr, rd, sz, dp, t, ch) + [v]
            && forall other: nat :: other < n && other != ch ==>
                 ChannelQueue(n, d, wr', rd, sz', dp, t', other) == ChannelQueue(n, d, wr, rd, sz, dp, t, other)
  {
    var k := RowStart(ch, d) + wr[ch];
    var wr', sz', t' := wr[ch := Next(wr[ch], d)], sz[ch := sz[ch] + 1], t[k := v];
    QueueWrite(t, RowStart(ch, d), rd[ch], sz[ch], d, v);
    assert Indices(n, d, wr', rd, sz', dp, t');
    forall other: nat | other < n && other != ch
      ensures ChannelQueue(n, d, wr', rd, sz', dp, t', other) == ChannelQueue(n, d, wr, rd, sz, dp, t, other)
    {
      if other < ch {
        RowsApart(other, ch, d);
      } else {
        RowsApart(ch, other, d);
      }
      QueueOther(t, RowStart(other, d), rd[other], sz[other], d, k, v);
    }
  }

  /* A read from channel ch that is not empty finds its oldest tuple at slot
     RowStart(ch, d) + rd[ch], drops it from the queue and advances the read index;
     every other channel keeps its queue. */
  lemma IndicesRead(n: nat, d: nat, wr: seq<int>, rd: seq<int>, sz: seq<int>, dp: seq<int>,
                    t: seq<ReducerTupleIn>, ch: nat)
    requires Indices(n, d, wr, rd, sz, dp, t) && ch < n && 0 < sz[ch]
    ensures 0 <= rd[ch] < d && RowStart(ch, d) + d <= |t|
    ensures t[RowStart(ch, d) + rd[ch]] == ChannelQueue(n, d, wr, rd, sz, dp, t, ch)[0]
    ensures var rd', sz' := rd[ch := Next(rd[ch], d)], sz[ch := sz[ch] - 1];
            && Indices(n, d, wr, rd', sz', dp, t)
            && ChannelQueue(n, d, wr, rd', sz', dp, t, ch) == ChannelQueue(n, d, wr, rd, sz, dp, t, ch)[1..]
            && forall other: nat :: other < n && other != ch ==>
                 ChannelQueue(n, d, wr, rd', sz', dp, t, other) == ChannelQueue(n, d, wr, rd, sz, dp, t, other)
  {
    QueueRead(t, RowStart(ch, d), rd[ch], sz[ch], d);
  }

  /* ---------------------------------------------------------------------------
   * The FIFO.
   * ------------------------------------------------------------------------- */

  /* reducer_tuple_fifo_t with the corrected wrap.  The arrays stand for the mapped
     areas. */
  class FifoT {
    const channels: nat
    const d: nat
    const wrindex: array<int>
    const rdindex: array<int>
    const size: array<int>
    const depth: array<int>
    const tuple: array<ReducerTupleIn>

    ghost predicate Valid()
      reads this, wrindex, rdindex, size, depth, tuple
    {
      && wrindex != rdindex && wrindex != size && wrindex != depth
      && rdindex != size && rdindex != depth && size != depth
      && Indices(channels, d, wrindex[..], rdindex[..], size[..], depth[..], tuple[..])
    }

    /* What channel ch holds, oldest first. */
    ghost function Contents(ch: nat): (q: seq<ReducerTupleIn>)
      requires Valid() && ch < channels
      reads this, wrindex, rdindex, size, depth, tuple
      ensures |q| == size[ch]
    {
      ChannelQueue(channels, d, wrindex[..], rdindex[..], size[..], depth[..], tuple[..], ch)
    }

    /* Fifo(num_channels, buf_depth): every channel starts empty with both indices at
       0 and depth buf_depth; the matrix is the zero-filled mapping. */
    constructor (numChannels: nat, bufDepth: nat)
      requires 0 < bufDepth
      ensures Valid() && channels == numChannels && d == bufDepth
      ensures forall ch :: 0 <= ch < numChannels ==>
                wrindex[ch] == 0 && rdindex[ch] == 0 && size[ch] == 0 && depth[ch] == bufDepth
      ensures forall ch :: 0 <= ch < numChannels ==> Contents(ch) == []
    {
      channels := numChannels;
      d := bufDepth;
      RowStartIsProduct(numChannels, bufDepth);
      var tp := new ReducerTupleIn[numChannels * bufDepth](_ => ZERO_TUPLE);
      var wr := new int[numChannels];
      var rd := new int[numChannels];
      var sz := new int[numChannels];
      var dp := new int[numChannels];
      var i := 0;
      while i < numChannels
        modifies wr, rd, sz, dp
        invariant 0 <= i <= numChannels
        invariant forall ch :: 0 <= ch < i ==> wr[ch] == 0 && rd[ch] == 0 && dp[ch] == bufDepth && sz[ch] == 0
      {
        wr[i] := 0;
        rd[i] := 0;
        dp[i] := bufDepth;
        sz[i] := 0;
        i := i + 1;
      }
      tuple, wrindex, rdindex, size, depth := tp, wr, rd, sz, dp;
      new;
      assert WellSized(ZERO_TUPLE);
      IndicesEmpty(channels, d, tuple[..]);
      assert wrindex[..] == rdindex[..] == size[..] == seq(channels, _ => 0);
      assert depth[..] == seq(channels, _ => d as int);
    }

    /* fifo_write: -1 when the channel is full; otherwise the copy goes into slot
       ch*depth + wrindex (RowStart(ch, d) + wrindex) and joins the back of the
       channel's queue, the write index advances, and every other channel keeps
       what it holds. */
    method Write(ch: nat, val: ReducerTupleIn) returns (r: int)
      requires Valid() && ch < channels && WellSized(val)
      modifies tuple, size, wrindex
      ensures Valid()
      ensures old(size[ch]) == d ==> r == -1 && unchanged(tuple, size, wrindex)
      ensures old(size[ch]) < d ==> r == 0 && Contents(ch) == old(Contents(ch)) + [Copy(val)]
      ensures forall other :: 0 <= other < channels && other != ch ==> Contents(other) == old(Contents(other))
      ensures old(size[ch]) < d ==> tuple[..] == old(tuple[..])[RowStart(ch, d) + old(wrindex[ch]) := Copy(val)]
      ensures old(size[ch]) < d ==> wrindex[..] == old(wrindex[..])[ch := Next(old(wrindex[ch]), d)]
    {
      if size[ch] < depth[ch] {
        var copy := Copy(val);
        ghost var wr, rd, sz, dp, tp := wrindex[..], rdindex[..], size[..], depth[..], tuple[..];
        IndicesWrite(channels, d, wr, rd, sz, dp, tp, ch, copy);
        RowStartIsProduct(ch, d);
        var base := ch * depth[ch];
        PutSlot(ch, base + wrindex[ch], copy);
        assert rdindex[..] == rd && depth[..] == dp;
        return 0;
      } else {
        return -1;
      }
    }

    /* The stores of fifo_write: the tuple into slot k, the size one larger, and the
       write index one further, back to 0 when it reaches the depth. */
    method PutSlot(ch: nat, k: nat, v: ReducerTupleIn)
      requires ch < size.Length && ch < wrindex.Length && ch < depth.Length && k < tuple.Length
      requires size != wrindex && size != depth && wrindex != depth
      modifies tuple, size, wrindex
      ensures tuple[..] == old(tuple[..])[k := v]
      ensures size[..] == old(size[..])[ch := old(size[ch]) + 1]
      ensures wrindex[..] == old(wrindex[..])[ch := Next(old(wrindex[ch]), depth[ch])]
    {
      tuple[k] := v;
      size[ch] := size[ch] + 1;
      wrindex[ch] := wrindex[ch] + 1;
      if wrindex[ch] == depth[ch] {
        wrindex[ch] := 0;
      }
    }

    /* The stores of fifo_read: the size one smaller, and the read index one further,
       back to 0 when it reaches the depth. */
    method TakeSlot(ch: nat)
      requires ch < size.Length && ch < rdindex.Length && ch < depth.Length
      requires size != rdindex && size != depth && rdindex != depth
      modifies size, rdindex
      ensures size[..] == old(size[..])[ch := old(size[ch]) - 1]
      ensures rdindex[..] == old(rdindex[..])[ch := Next(old(rdindex[ch]), depth[ch])]
    {
      size[ch] := size[ch] - 1;
      rdindex[ch] := rdindex[ch] + 1;
      if rdindex[ch] == depth[ch] {
        rdindex[ch] := 0;
      }
    }

    /* fifo_read: None when the channel is empty; otherwise a copy of slot
       ch*depth + rdindex (RowStart(ch, d) + rdindex), which is the oldest tuple
       queued; it leaves the queue, the read index advances, and every other channel
       keeps what it holds. */
    method Read(ch: nat) returns (r: Option<ReducerTupleIn>)
      requires Valid() && ch < channels
      modifies size, rdindex
      ensures Valid()
      ensures old(size[ch]) == 0 ==> r == None && unchanged(size, rdindex)
      ensures old(size[ch]) > 0 ==> r == Some(Copy(old(Contents(ch))[0])) && Contents(ch) == old(Contents(ch))[1..]
      ensures forall other :: 0 <= other < channels && other != ch ==> Contents(other) == old(Contents(other))
      ensures old(size[ch]) > 0 ==> r == Some(Copy(tuple[RowStart(ch, d) + old(rdindex[ch])]))
      ensures old(size[ch]) > 0 ==> size[..] == old(size[..])[ch := old(size[ch]) - 1]
      ensures old(size[ch]) > 0 ==> rdindex[..] == old(rdindex[..])[ch := Next(old(rdindex[ch]), d)]
    {
      if size[ch] > 0 {
        ghost var wr, rd, sz, dp, tp := wrindex[..], rdindex[..], size[..], depth[..], tuple[..];
        IndicesRead(channels, d, wr, rd, sz, dp, tp, ch);
        RowStartIsProduct(ch, d);
        var base := ch * depth[ch];
        var copy := Copy(tuple[base + rdindex[ch]]);
        TakeSlot(ch);
        assert wrindex[..] == wr && depth[..] == dp && tuple[..] == tp;
        return Some(copy);
      } else {
        return None;
      }
    }
  }
}

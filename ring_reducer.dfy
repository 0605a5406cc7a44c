/*
 * The reducer of hw4/reducer.c: the globals root, numTuples and process_was_used,
 * and a circular doubly linked list of reducer_tuple_out_t records, one per topic,
 * each holding the last user id seen with it and the running total of its weights.
 * New topics are spliced in before root, so root->prev is always the newest node.
 */
module RingReducer {
  import opened Text
  import opened Dictionary
  import Fifo
  import ReducerIo

  type TupleIn = Fifo.ReducerTupleIn

  /* reducer_tuple_out_t: user id, topic and running total. */
  datatype Rec = Rec(userid: seq<char>, topic: seq<char>, total: int)

  /* ---------------------------------------------------------------------------
   * The ring as a value: the records from root on, following next.
   * ------------------------------------------------------------------------- */

  /* What reduce leaves in a node for tuple t: strncpy of the id and of the topic,
     and the running total. */
  function Stored(t: TupleIn, total: int): (r: Rec)
    requires Fifo.WellSized(t)
    ensures |r.userid| == LEN_USER_ID && |r.topic| == LEN_TOPIC
  {
    Rec(StrNCpy(t.userid, LEN_USER_ID), StrNCpy(t.topic, LEN_TOPIC), total)
  }

  /* Every record has full-width fields. */
  predicate Canonical(rs: seq<Rec>) {
    forall i :: 0 <= i < |rs| ==> |rs[i].userid| == LEN_USER_ID && |rs[i].topic| == LEN_TOPIC
  }

  /* The key a topic stands for under strncmp: its strncpy copy. */
  function Key(topic: seq<char>): seq<char>
    requires |topic| == LEN_TOPIC
  {
    StrNCpy(topic, LEN_TOPIC)
  }

  /* The key -> total view of the records, as the hw0 dictionary holds it. */
  function Totals(rs: seq<Rec>): (es: seq<Entry>)
    requires Canonical(rs)
  {
    seq(|rs|, i requires 0 <= i < |rs| && Canonical(rs) => Entry(Key(rs[i].topic), rs[i].total))
  }

  /* The topic of record i, named so that the quantifiers of Settled fire only where
     a proof asks for a record's topic by this name. */
  function TopicOf(rs: seq<Rec>, i: nat): seq<char>
    requires i < |rs|
  {
    rs[i].topic
  }

  /* The ring's own invariant on its records: every topic is a strncpy copy, so it
     is its own key, and no topic occurs twice. */
  predicate Settled(rs: seq<Rec>) {
    && (forall i :: 0 <= i < |rs| ==> Padded(TopicOf(rs, i)))
    && (forall i, j :: 0 <= i < j < |rs| ==> TopicOf(rs, i) != TopicOf(rs, j))
  }

  /* For padded topics, distinct topics are distinct keys. */
  lemma SettledIsKeysDistinct(rs: seq<Rec>)
    requires Canonical(rs) && forall i :: 0 <= i < |rs| ==> Padded(TopicOf(rs, i))
    ensures Settled(rs) <==> KeysDistinct(Totals(rs))
  {
    forall i | 0 <= i < |rs|
      ensures Totals(rs)[i].key == TopicOf(rs, i)
    {
      PaddedIsCopy(TopicOf(rs, i));
    }
  }

  /* The search loop of reduce: the first record whose topic strncmp-matches, or
     |rs| when none does. */
  function TopicIndex(rs: seq<Rec>, topic: seq<char>): (i: nat)
    requires Canonical(rs) && |topic| == LEN_TOPIC
    ensures i <= |rs|
    ensures i < |rs| ==> StrNCmpEqual(rs[i].topic, topic, LEN_TOPIC)
    ensures forall j :: 0 <= j < i ==> !StrNCmpEqual(rs[j].topic, topic, LEN_TOPIC)
  {
    if rs == [] then 0
    else if StrNCmpEqual(rs[0].topic, topic, LEN_TOPIC) then 0
    else 1 + TopicIndex(rs[1..], topic)
  }

  /* reduce on the records: the matching record takes the tuple's id and topic and
     adds its weight; without a match a record with total 0 + weight goes at the
     end, just before root. */
  function Reduced(rs: seq<Rec>, t: TupleIn): seq<Rec>
    requires Canonical(rs) && Fifo.WellSized(t)
  {
    var i := TopicIndex(rs, t.topic);
    if i < |rs| then rs[i := Stored(t, rs[i].total + t.weight)] else rs + [Stored(t, 0 + t.weight)]
  }

  /* reduce when the search stops at position i. */
  lemma ReducedFound(rs: seq<Rec>, t: TupleIn, i: nat)
    requires Canonical(rs) && Fifo.WellSized(t) && i < |rs| && i == TopicIndex(rs, t.topic)
    ensures Reduced(rs, t) == rs[i := Stored(t, rs[i].total + t.weight)]
  {
    var a, b := Reduced(rs, t), rs[i := Stored(t, rs[i].total + t.weight)];
    assert |a| == |b|;
    forall k | 0 <= k < |a|
      ensures a[k] == b[k]
    {
    }
  }

  /* reduce keeps the records full-width and settled. */
  lemma ReducedSettled(rs: seq<Rec>, t: TupleIn)
    requires Canonical(rs) && Settled(rs) && Fifo.WellSized(t)
    ensures Canonical(Reduced(rs, t)) && Settled(Reduced(rs, t))
  {
    var r := Reduced(rs, t);
    ReducedIsAdd(rs, t);
    SettledIsKeysDistinct(rs);
    AddKeys(Totals(rs), Key(t.topic), t.weight);
    CopyIsPadded(t.topic, LEN_TOPIC);
    forall j | 0 <= j < |r|
      ensures Padded(TopicOf(r, j))
    {
      assert r[j] == Stored(t, r[j].total) || (j < |rs| && r[j] == rs[j] && TopicOf(r, j) == TopicOf(rs, j));
    }
    SettledIsKeysDistinct(r);
  }

  /* reduce at a found position i changes record i only. */
  lemma ReducedAt(rs: seq<Rec>, t: TupleIn, i: nat)
    requires Canonical(rs) && Settled(rs) && Fifo.WellSized(t)
    requires i < |rs| && i == TopicIndex(rs, t.topic)
    ensures var r := Reduced(rs, t);
            && |r| == |rs| && r[i] == Stored(t, rs[i].total + t.weight)
            && (forall j :: 0 <= j < |rs| && j != i ==> r[j] == rs[j])
            && Canonical(r) && Settled(r)
  {
    ReducedSettled(rs, t);
  }

  /* reduce without a match appends one record. */
  lemma ReducedAppends(rs: seq<Rec>, t: TupleIn)
    requires Canonical(rs) && Settled(rs) && Fifo.WellSized(t)
    requires TopicIndex(rs, t.topic) == |rs|
    ensures var r := Reduced(rs, t);
            && r == rs + [Stored(t, 0 + t.weight)] && Canonical(r) && Settled(r)
  {
    ReducedSettled(rs, t);
  }

  /* Two topics strncmp-match exactly when they have the same key. */
  lemma MatchIsSameKey(a: seq<char>, b: seq<char>)
    requires |a| == LEN_TOPIC && |b| == LEN_TOPIC
    ensures StrNCmpEqual(a, b, LEN_TOPIC) <==> Key(a) == Key(b)
  {
    StrNCmpEqualIffSameCopy(a, b, LEN_TOPIC);
  }

  /* The search finds the position the dictionary's KeyIndex gives for the copied
     topic. */
  lemma {:induction false} TopicIndexIsKeyIndex(rs: seq<Rec>, topic: seq<char>)
    requires Canonical(rs) && |topic| == LEN_TOPIC
    ensures TopicIndex(rs, topic) == KeyIndex(Totals(rs), Key(topic))
    decreases |rs|
  {
    if rs != [] {
      MatchIsSameKey(rs[0].topic, topic);
      assert Totals(rs)[0].key == Key(rs[0].topic);
      if !StrNCmpEqual(rs[0].topic, topic, LEN_TOPIC) {
        TopicIndexIsKeyIndex(rs[1..], topic);
        assert Totals(rs)[1..] == Totals(rs[1..]);
      }
    }
  }

  /* reduce aggregates as the hw0 dictionary does: on the key -> total view it is
     dictAddToValue under the tuple's key. */
  lemma ReducedIsAdd(rs: seq<Rec>, t: TupleIn)
    requires Canonical(rs) && Fifo.WellSized(t)
    ensures Canonical(Reduced(rs, t))
    ensures Totals(Reduced(rs, t)) == Add(Totals(rs), Key(t.topic), t.weight)
  {
    TopicIndexIsKeyIndex(rs, t.topic);
    StrNCpyIdempotent(t.topic, LEN_TOPIC);
    var i := TopicIndex(rs, t.topic);
    var r := Reduced(rs, t);
    var es, a := Totals(rs), Add(Totals(rs), Key(t.topic), t.weight);
    assert Key(Stored(t, 0).topic) == Key(t.topic);
    var b := Totals(r);
    assert |b| == |a|;
    forall k | 0 <= k < |a|
      ensures b[k] == a[k]
    {
      if k != i {
        assert k < |rs| && r[k] == rs[k] && a[k] == es[k];
      }
    }
  }

  /* What one reduce does to the ring: the copied topic's total grows by the
     weight and no other total moves; topics stay distinct and in first-seen
     order, a new topic going last; the record holding the topic carries the
     tuple's id, and every other record is unchanged. */
  lemma ReducedAggregates(rs: seq<Rec>, t: TupleIn, q: seq<char>)
    requires Canonical(rs) && KeysDistinct(Totals(rs)) && Fifo.WellSized(t)
    ensures var r, k := Reduced(rs, t), Key(t.topic);
            && KeysDistinct(Totals(r))
            && Total(Totals(r), q) == Total(Totals(rs), q) + (if q == k then t.weight else 0)
            && Keys(Totals(r)) == (if k in Keys(Totals(rs)) then Keys(Totals(rs)) else Keys(Totals(rs)) + [k])
            && var i := KeyIndex(Totals(r), k);
               && i < |r| && r[i] == Stored(t, r[i].total)
               && forall j :: 0 <= j < |rs| && j != i ==> r[j] == rs[j]
  {
    var k := Key(t.topic);
    ReducedIsAdd(rs, t);
    AddTotals(Totals(rs), k, t.weight, q);
    AddKeys(Totals(rs), k, t.weight);
    TopicIndexIsKeyIndex(rs, t.topic);
    var r := Reduced(rs, t);
    var i := TopicIndex(rs, t.topic);
    assert KeyIndex(Totals(r), k) == i by {
      AddPresentOrAbsent(Totals(rs), k, t.weight);
    }
  }

  /* The position of k after an add is where KeyIndex found it before, or the new
     last position. */
  lemma AddPresentOrAbsent(es: seq<Entry>, k: seq<char>, v: int)
    requires KeysDistinct(es)
    ensures KeyIndex(Add(es, k, v), k) == KeyIndex(es, k)
  {
    var i := KeyIndex(es, k);
    if i < |es| {
      AddPresent(es, i, v);
      assert Add(es, k, v)[i].key == k;
    } else {
      AddAbsent(es, k, v);
      assert Add(es, k, v)[i].key == k;
    }
  }

  /* printf's "%.ns": at most n characters, stopping at the first NUL. */
  function Precision(s: seq<char>, n: nat): (r: seq<char>)
    requires n <= |s|
    ensures |r| <= n
    decreases n
  {
    if n == 0 || s[0] == NUL then [] else [s[0]] + Precision(s[1..], n - 1)
  }

  /* A field without NUL characters prints in full. */
  lemma {:induction false} PrecisionNulFree(s: seq<char>, n: nat)
    requires n <= |s| && forall i :: 0 <= i < n ==> s[i] != NUL
    ensures Precision(s, n) == s[..n]
    decreases n
  {
    if n > 0 {
      PrecisionNulFree(s[1..], n - 1);
      assert s[..n] == [s[0]] + s[1..][..n - 1];
    }
  }

  /* One line of reducer_write_tuple: printf("(%.4s,%.15s,%d)\n", ...). */
  function Line(r: Rec): seq<char>
    requires |r.userid| == LEN_USER_ID && |r.topic| == LEN_TOPIC
  {
    [LB] + Precision(r.userid, LEN_USER_ID) + [DELIMITER] + Precision(r.topic, LEN_TOPIC) + [DELIMITER]
    + Itoa(r.total) + [RB, ENTER]
  }

  /* A record whose id and topic hold no NUL prints as the line of hw2's
     r_console_tuple_write, which reads back field by field. */
  lemma LineNulFree(r: Rec)
    requires |r.userid| == LEN_USER_ID && |r.topic| == LEN_TOPIC
    requires forall i :: 0 <= i < LEN_USER_ID ==> r.userid[i] != NUL
    requires forall i :: 0 <= i < LEN_TOPIC ==> r.topic[i] != NUL
    ensures Line(r) == ReducerIo.RecordLine(r.userid, Entry(r.topic, r.total))
  {
    PrecisionNulFree(r.userid, LEN_USER_ID);
    PrecisionNulFree(r.topic, LEN_TOPIC);
    assert r.userid[..LEN_USER_ID] == r.userid && r.topic[..LEN_TOPIC] == r.topic;
  }

  /* The lines printed for the records, one per record, in ring order. */
  function Emitted(rs: seq<Rec>): (ls: seq<seq<char>>)
    requires Canonical(rs)
  {
    seq(|rs|, i requires 0 <= i < |rs| => Line(rs[i]))
  }

  /* ---------------------------------------------------------------------------
   * The ring itself.
   * ------------------------------------------------------------------------- */

  /* node_t: the record and the two ring links. */
  class RingNode {
    var tuple: Rec
    var next: RingNode?
    var prev: RingNode?

    constructor (tuple: Rec)
      ensures this.tuple == tuple && next == null && prev == null
    {
      this.tuple, next, prev := tuple, null, null;
    }
  }

  /* The globals of hw4/reducer.c, with the ring behind root described by the
     ghost fields. */
  class Reducer {
    var root: RingNode?
    var numTuples: int
    var processWasUsed: int
    /* The nodes from root on, following next. */
    ghost var nodes: seq<RingNode>
    /* What the nodes hold. */
    ghost var recs: seq<Rec>

    ghost predicate Valid()
      reads this, nodes
    {
      && numTuples == |nodes| && |recs| == |nodes|
      && processWasUsed == (if nodes == [] then 0 else 1)
      && Canonical(recs) && Settled(recs)
      && (forall i :: 0 <= i < |nodes| ==> nodes[i].tuple == recs[i])
      && (nodes != [] ==> root == nodes[0] && nodes[0].prev == nodes[|nodes| - 1] && nodes[|nodes| - 1].next == nodes[0])
      && (forall i {:trigger nodes[i].next} :: 0 <= i < |nodes| - 1 ==> nodes[i].next == nodes[i + 1])
      && (forall i {:trigger nodes[i].prev} :: 0 < i < |nodes| ==> nodes[i].prev == nodes[i - 1])
    }

    /* The globals at program start: all zero, root NULL. */
    constructor ()
      ensures Valid() && recs == [] && root == null && numTuples == 0 && processWasUsed == 0
    {
      root := null;
      numTuples := 0;
      processWasUsed := 0;
      nodes := [];
      recs := [];
    }

    /* Distinct positions hold distinct nodes, since their keys differ. */
    lemma NodesDistinct(i: nat, j: nat)
      requires Valid() && i < j < |nodes|
      ensures nodes[i] != nodes[j]
    {
      assert TopicOf(recs, i) != TopicOf(recs, j);
    }

    /* What Valid says about the node at position i. */
    lemma NodeAt(i: nat)
      requires Valid() && i < |nodes|
      ensures nodes[i].next == if i + 1 < |nodes| then nodes[i + 1] else nodes[0]
      ensures nodes[i].tuple == recs[i] && |recs[i].topic| == LEN_TOPIC && |recs[i].userid| == LEN_USER_ID
    {
    }

    /* Following next from root: the k-th step is at node k, and step count is back
       at root. */
    ghost function Walk(k: nat): (n: RingNode)
      requires Valid() && nodes != [] && k <= |nodes|
      reads this, nodes
      ensures k < |nodes| ==> n == nodes[k]
      ensures k == |nodes| ==> n == root
      decreases k
    {
      if k == 0 then root
      else
        NodeAt(k - 1);
        Walk(k - 1).next
    }

    /* The walk visits count different nodes before it returns to root. */
    lemma WalkVisitsEachOnce(i: nat, j: nat)
      requires Valid() && i < j < |nodes|
      ensures Walk(i) != Walk(j) && Walk(|nodes|) == Walk(0)
    {
      NodesDistinct(i, j);
    }

    /* reducer_tuple_init: count and used flag back to 0; root is left as it is. */
    method TupleInit()
      modifies this`numTuples, this`processWasUsed, this`nodes, this`recs
      ensures Valid() && recs == [] && numTuples == 0 && processWasUsed == 0 && root == old(root)
    {
      numTuples := 0;
      processWasUsed := 0;
      nodes := [];
      recs := [];
    }

    /* reduce. */
    method Reduce(tuple: TupleIn)
      requires Valid() && Fifo.WellSized(tuple)
      modifies this, nodes
      ensures Valid() && recs == Reduced(old(recs), tuple) && processWasUsed == 1
      ensures |nodes| == |old(nodes)| || (|nodes| == |old(nodes)| + 1 && fresh(nodes[|nodes| - 1]))
    {
      processWasUsed := 1;
      if numTuples == 0 {
        First(tuple);
        return;
      }
      var found, node, i := Find(tuple.topic);
      if found {
        AddToFound(node, i, tuple);
      } else {
        AddNew(tuple);
      }
    }

    /* The search stopped at node i: its record takes the tuple's id and topic and
       adds the weight to the total. */
    method AddToFound(node: RingNode, ghost i: nat, tuple: TupleIn)
      requires Valid() && i < |nodes| && node == nodes[i] && Fifo.WellSized(tuple)
      requires i == TopicIndex(recs, tuple.topic)
      modifies node, this`recs
      ensures Valid() && nodes == old(nodes) && recs == Reduced(old(recs), tuple)
    {
      ReducedAt(recs, tuple, i);
      NodeAt(i);
      Update(node, i, Stored(tuple, node.tuple.total + tuple.weight), Reduced(recs, tuple));
    }

    /* The search went once round the ring without a match: a record with total
       0 + weight goes in as the new tail. */
    method AddNew(tuple: TupleIn)
      requires Valid() && nodes != [] && Fifo.WellSized(tuple)
      requires TopicIndex(recs, tuple.topic) == |recs|
      modifies this`numTuples, this`nodes, this`recs, root, nodes[|nodes| - 1]
      ensures Valid() && recs == Reduced(old(recs), tuple)
      ensures |nodes| == |old(nodes)| + 1 && fresh(nodes[|nodes| - 1])
    {
      ReducedAppends(recs, tuple);
      Splice(Stored(tuple, 0 + tuple.weight), Reduced(recs, tuple));
    }

    /* The first reduce after init: one node linked to itself becomes root. */
    method First(tuple: TupleIn)
      requires numTuples == 0 && processWasUsed == 1 && recs == [] && Fifo.WellSized(tuple)
      modifies this`root, this`numTuples, this`nodes, this`recs
      ensures Valid() && recs == Reduced(old(recs), tuple) && fresh(root) && nodes == [root]
    {
      CopyIsPadded(tuple.topic, LEN_TOPIC);
      var node := new RingNode(Stored(tuple, tuple.weight));
      node.next := node;
      node.prev := node;
      root := node;
      numTuples := numTuples + 1;
      nodes := [node];
      recs := [node.tuple];
    }

    /* The counted search loop of reduce, comparing topics with strncmp. */
    method Find(topic: seq<char>) returns (found: bool, node: RingNode, ghost i: nat)
      requires Valid() && nodes != [] && |topic| == LEN_TOPIC
      ensures found ==> i < |nodes| && node == nodes[i] && i == TopicIndex(recs, topic)
      ensures !found ==> TopicIndex(recs, topic) == |recs|
    {
      node := root;
      found, i := false, 0;
      var k := 0;
      while k < numTuples
        invariant 0 <= k <= |nodes| && node == (if k < |nodes| then nodes[k] else nodes[0])
        invariant forall j :: 0 <= j < k ==> !StrNCmpEqual(recs[j].topic, topic, LEN_TOPIC)
      {
        NodeAt(k);
        if StrNCmpEqual(node.tuple.topic, topic, LEN_TOPIC) {
          found, i := true, k;
          return;
        }
        node := node.next;
        k := k + 1;
      }
    }

    /* The topic was found at position i: the node's record is overwritten with v,
       which turns the records into r. */
    method Update(node: RingNode, ghost i: nat, v: Rec, ghost r: seq<Rec>)
      requires Valid() && i < |nodes| && node == nodes[i]
      requires |r| == |recs| && r[i] == v && forall j :: 0 <= j < |r| && j != i ==> r[j] == recs[j]
      requires Canonical(r) && Settled(r)
      modifies node, this`recs
      ensures Valid() && nodes == old(nodes) && recs == r
    {
      forall j | 0 <= j < |nodes| && j != i
        ensures nodes[j] != node
      {
        if j < i { NodesDistinct(j, i); } else { NodesDistinct(i, j); }
      }
      node.tuple := v;
      recs := r;
      forall j | 0 <= j < |nodes|
        ensures nodes[j].tuple == recs[j]
      {
      }
      ghost var last := |nodes| - 1;
      assert nodes[0].prev == old(nodes[0].prev) && nodes[last].next == old(nodes[last].next);
    }

    /* The topic is new: a node holding v is spliced in between the old tail and
       root, which turns the records into r. */
    method Splice(v: Rec, ghost r: seq<Rec>)
      requires Valid() && nodes != [] && r == recs + [v] && Canonical(r) && Settled(r)
      modifies this`numTuples, this`nodes, this`recs, root, nodes[|nodes| - 1]
      ensures Valid() && recs == r
      ensures |nodes| == |old(nodes)| + 1 && fresh(nodes[|nodes| - 1]) && nodes[..|nodes| - 1] == old(nodes)
    {
      ghost var ns := nodes;
      var last := root.prev;
      forall j | 0 <= j < |nodes| - 1
        ensures nodes[j] != last
      {
        NodesDistinct(j, |nodes| - 1);
      }
      forall j | 0 < j < |nodes|
        ensures nodes[j] != root
      {
        NodesDistinct(0, j);
      }
      var node := new RingNode(v);
      node.next := root;
      node.prev := last;
      last.next := node;
      root.prev := node;
      numTuples := numTuples + 1;
      nodes := nodes + [node];
      recs := r;
      forall k | 0 <= k < |nodes| - 1
        ensures nodes[k].next == nodes[k + 1]
      {
        if k < |ns| - 1 {
          assert nodes[k] == ns[k] != last && nodes[k].next == old(ns[k].next);
        }
      }
      forall k | 0 < k < |nodes|
        ensures nodes[k].prev == nodes[k - 1]
      {
        if k < |ns| {
          assert nodes[k] == ns[k] != root && nodes[k].prev == old(ns[k].prev);
        }
      }
      forall k | 0 <= k < |nodes|
        ensures nodes[k].tuple == recs[k]
      {
        if k < |ns| {
          assert nodes[k] == ns[k] && nodes[k].tuple == old(ns[k].tuple);
        }
      }
      assert nodes[..|nodes| - 1] == ns;
      assert nodes[0] == root && root.prev == node && node.next == root && nodes[|nodes| - 1] == node;
    }

    /* reducer_write_tuple: nothing unless reduce ran since init, else numTuples
       records from root on, following next; each is printed as its Line. */
    method WriteTuple() returns (lines: seq<seq<char>>)
      requires Valid()
      ensures lines == Emitted(recs)
    {
      var shown: seq<Rec> := [];
      var node := root;
      if processWasUsed != 0 {
        for i := 0 to numTuples
          invariant node == (if i < |nodes| then nodes[i] else nodes[0])
          invariant shown == recs[..i]
        {
          NodeAt(i);
          shown := shown + [node.tuple];
          node := node.next;
        }
      }
      assert shown == recs;
      lines := Emitted(shown);
    }
  }
}

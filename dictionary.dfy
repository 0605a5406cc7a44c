/*
 * The topic -> running total dictionary of hw0/dictionary.c (node_t of
 * hw2/dictionary.h), used by the reducers of hw1 and hw2: a singly linked list of
 * nodes whose head starts out "not valid" and is filled by the first add.
 */
module Dictionary {
  import opened Text

  /* One key with its running total, as the list holds them in order. */
  datatype Entry = Entry(key: seq<char>, total: int)

  /* ---------------------------------------------------------------------------
   * The dictionary as a value: the entries in list order.
   * ------------------------------------------------------------------------- */

  function Keys(entries: seq<Entry>): (ks: seq<seq<char>>)
    ensures |ks| == |entries|
    ensures forall i :: 0 <= i < |entries| ==> ks[i] == entries[i].key
  {
    if entries == [] then [] else [entries[0].key] + Keys(entries[1..])
  }

  /* No key occurs twice: each entry is the first one with its key. */
  predicate KeysDistinct(entries: seq<Entry>) {
    forall i, j :: 0 <= i < j < |entries| ==> entries[i].key != entries[j].key
  }

  /* Position of the first entry with key k, |entries| when there is none. */
  function KeyIndex(entries: seq<Entry>, k: seq<char>): (i: nat)
    ensures i <= |entries|
    ensures i < |entries| ==> entries[i].key == k
    ensures forall j :: 0 <= j < i ==> entries[j].key != k
  {
    if entries == [] then 0
    else if entries[0].key == k then 0
    else 1 + KeyIndex(entries[1..], k)
  }

  /* The total recorded for key k, 0 when k was never added. */
  function Total(entries: seq<Entry>, k: seq<char>): int {
    var i := KeyIndex(entries, k);
    if i < |entries| then entries[i].total else 0
  }

  /* dictAddToValue on the value: add to the entry holding k, or append a new entry. */
  function Add(entries: seq<Entry>, k: seq<char>, v: int): seq<Entry> {
    var i := KeyIndex(entries, k);
    if i < |entries| then entries[i := Entry(k, entries[i].total + v)] else entries + [Entry(k, v)]
  }

  /* Adding v under k raises k's total by v and leaves every other total alone. */
  lemma AddTotals(entries: seq<Entry>, k: seq<char>, v: int, q: seq<char>)
    requires KeysDistinct(entries)
    ensures Total(Add(entries, k, v), q) == Total(entries, q) + (if q == k then v else 0)
  {
    var i := KeyIndex(entries, k);
    var r := Add(entries, k, v);
    var iq := KeyIndex(entries, q);
    if i < |entries| {
      if q == k {
        assert KeyIndex(r, q) == i by { assert r[i].key == q; }
      } else if iq < |entries| {
        assert KeyIndex(r, q) == iq by { assert r[iq].key == q; }
      } else {
        assert KeyIndex(r, q) == |r| by {
          forall j | 0 <= j < |r| ensures r[j].key != q { assert j != i ==> r[j] == entries[j]; }
        }
      }
    } else {
      if q == k {
        assert KeyIndex(r, q) == |entries| by { assert r[|entries|].key == q; }
      } else if iq < |entries| {
        assert KeyIndex(r, q) == iq by { assert r[iq] == entries[iq]; }
      } else {
        assert KeyIndex(r, q) == |r| by {
          forall j | 0 <= j < |r| ensures r[j].key != q { assert j < |entries| ==> r[j] == entries[j]; }
        }
      }
    }
  }

  /* With distinct keys, the total of the key at position i is that entry's total. */
  lemma TotalAt(entries: seq<Entry>, i: nat)
    requires KeysDistinct(entries) && i < |entries|
    ensures Total(entries, entries[i].key) == entries[i].total
  {
  }

  /* Adding under the key of entry i updates that entry in place. */
  lemma AddPresent(entries: seq<Entry>, i: nat, v: int)
    requires KeysDistinct(entries) && i < |entries|
    ensures var r := Add(entries, entries[i].key, v);
            && r == entries[i := Entry(entries[i].key, entries[i].total + v)]
            && KeysDistinct(r) && Total(r, entries[i].key) == entries[i].total + v
  {
    var r := Add(entries, entries[i].key, v);
    assert KeyIndex(entries, entries[i].key) == i;
    TotalAt(r, i);
  }

  /* Adding under an absent key appends an entry for it. */
  lemma AddAbsent(entries: seq<Entry>, k: seq<char>, v: int)
    requires KeysDistinct(entries)
    requires forall j :: 0 <= j < |entries| ==> entries[j].key != k
    ensures var r := Add(entries, k, v);
            && r == entries + [Entry(k, v)]
            && KeysDistinct(r) && Total(r, k) == v
  {
    var r := Add(entries, k, v);
    TotalAt(r, |entries|);
  }

  /* Keys stay pairwise distinct and in first-insertion order: a key already present
     keeps its place, a new key goes at the end. */
  lemma AddKeys(entries: seq<Entry>, k: seq<char>, v: int)
    requires KeysDistinct(entries)
    ensures KeysDistinct(Add(entries, k, v))
    ensures Keys(Add(entries, k, v)) == if k in Keys(entries) then Keys(entries) else Keys(entries) + [k]
  {
    var i := KeyIndex(entries, k);
    var r := Add(entries, k, v);
    if i < |entries| {
      assert k in Keys(entries) by { assert Keys(entries)[i] == k; }
      assert Keys(r) == Keys(entries);
    } else {
      assert k !in Keys(entries);
      assert Keys(r) == Keys(entries) + [k];
    }
  }

  /* ---------------------------------------------------------------------------
   * The linked list itself.
   * ------------------------------------------------------------------------- */

  /* node_t: valid flag, key of LEN_TOPIC characters, value, next pointer. */
  class Node {
    var valid: bool
    var key: seq<char>
    var value: int
    var next: Node?

    constructor (valid: bool, key: seq<char>, value: int)
      ensures this.valid == valid && this.key == key && this.value == value && next == null
    {
      this.valid, this.key, this.value, next := valid, key, value, null;
    }
  }

  /* dictCompareStrings: 1 when the first LEN_TOPIC characters agree, else 0. */
  method CompareStrings(a: seq<char>, b: seq<char>) returns (result: int)
    requires LEN_TOPIC <= |a| && LEN_TOPIC <= |b|
    ensures result == 0 || result == 1
    ensures result == 1 <==> a[..LEN_TOPIC] == b[..LEN_TOPIC]
  {
    result := 1;
    var i := 0;
    while i < LEN_TOPIC
      invariant 0 <= i <= LEN_TOPIC
      invariant a[..i] == b[..i]
    {
      if a[i] != b[i] {
        result := 0;
        assert a[..LEN_TOPIC][i] != b[..LEN_TOPIC][i];
        break;
      }
      assert a[..i + 1] == a[..i] + [a[i]] && b[..i + 1] == b[..i] + [b[i]];
      i := i + 1;
    }
  }

  /* The pointer a caller holds (the head node returned by dict()), with the list
     behind it described by the ghost fields. */
  class Dict {
    var head: Node
    /* The nodes in list order, starting with head. */
    ghost var nodes: seq<Node>
    /* What the nodes hold; empty while the head is not valid. */
    ghost var entries: seq<Entry>

    ghost predicate Valid()
      reads this, nodes
    {
      && |nodes| > 0 && nodes[0] == head
      && (forall i :: 0 <= i < |nodes| - 1 ==> nodes[i].next == nodes[i + 1])
      && nodes[|nodes| - 1].next == null
      && (forall i :: 0 <= i < |nodes| ==> |nodes[i].key| == LEN_TOPIC)
      && KeysDistinct(entries)
      && if head.valid then
           && |entries| == |nodes|
           && forall i :: 0 <= i < |nodes| ==> nodes[i].valid && entries[i] == Entry(nodes[i].key, nodes[i].value)
         else entries == [] && |nodes| == 1
    }

    /* dict(): one node, not valid, value 0, no successor, key all 'X'. */
    constructor ()
      ensures Valid() && fresh(head) && nodes == [head] && entries == []
      ensures !head.valid && head.value == 0 && head.next == null && head.key == Repeat('X', LEN_TOPIC)
    {
      head := new Node(false, Repeat('X', LEN_TOPIC), 0);
      nodes := [head];
      entries := [];
    }

    /* dictAddToValue (its allocation failure is not modelled): the node changed is
       returned. */
    method AddToValue(key: seq<char>, value: int) returns (changed: Node)
      requires Valid() && LEN_TOPIC <= |key|
      modifies this, nodes
      ensures Valid() && head == old(head)
      ensures entries == Add(old(entries), key[..LEN_TOPIC], value)
      ensures nodes == old(nodes) || (fresh(changed) && nodes == old(nodes) + [changed])
      ensures changed in nodes && changed.key == key[..LEN_TOPIC]
      ensures changed.value == Total(entries, key[..LEN_TOPIC])
    {
      var k := key[..LEN_TOPIC];
      if !head.valid {
        FillHead(k, value);
        return head;
      }
      var found, iter, i := Find(key);
      if found {
        AddAt(iter, i, k, value);
        changed := iter;
      } else {
        changed := Append(iter, k, value);
      }
    }

    /* The first add to a dictionary whose head is not valid fills the head. */
    method FillHead(k: seq<char>, value: int)
      requires Valid() && !head.valid && |k| == LEN_TOPIC
      modifies head, `entries
      ensures Valid() && head.valid && nodes == old(nodes)
      ensures entries == Add(old(entries), k, value)
      ensures head.key == k && head.value == Total(entries, k)
    {
      head.valid := true;
      head.value := value;
      head.key := k;
      entries := [Entry(k, value)];
    }

    /* The search loop of dictAddToValue over a list whose head is valid: the node
       whose key agrees with key's first LEN_TOPIC characters, or else the last node. */
    method Find(key: seq<char>) returns (found: bool, iter: Node, ghost i: nat)
      requires Valid() && head.valid && LEN_TOPIC <= |key|
      ensures i < |nodes| && iter == nodes[i]
      ensures forall j :: 0 <= j < i ==> entries[j].key != key[..LEN_TOPIC]
      ensures found ==> entries[i].key == key[..LEN_TOPIC]
      ensures !found ==> i == |nodes| - 1 && entries[i].key != key[..LEN_TOPIC]
    {
      iter := head;
      i := 0;
      while true
        invariant 0 <= i < |nodes| && iter == nodes[i]
        invariant forall j :: 0 <= j < i ==> entries[j].key != key[..LEN_TOPIC]
        decreases |nodes| - i
      {
        var equal := CompareStrings(key, iter.key);
        NodeAt(i);
        if equal == 1 {
          return true, iter, i;
        }
        if iter.next == null {
          return false, iter, i;
        }
        iter := iter.next;
        i := i + 1;
      }
    }

    /* What Valid says about the node at position i of a list whose head is valid. */
    lemma NodeAt(i: nat)
      requires Valid() && head.valid && i < |nodes|
      ensures nodes[i].next == if i + 1 < |nodes| then nodes[i + 1] else null
      ensures nodes[i].key == entries[i].key && |nodes[i].key| == LEN_TOPIC
      ensures nodes[i].key[..LEN_TOPIC] == nodes[i].key
    {
    }

    /* The key is found at position i: its node's value grows by value. */
    method AddAt(node: Node, ghost i: nat, k: seq<char>, value: int)
      requires Valid() && head.valid && i < |nodes| && node == nodes[i] && entries[i].key == k
      requires forall j :: 0 <= j < i ==> entries[j].key != k
      modifies node, `entries
      ensures Valid() && nodes == old(nodes)
      ensures entries == Add(old(entries), k, value)
      ensures node.key == k && node.value == Total(entries, k)
    {
      AddPresent(entries, i, value);
      node.value := node.value + value;
      entries := entries[i := Entry(k, node.value)];
      forall j | 0 <= j < |nodes|
        ensures nodes[j].valid && entries[j] == Entry(nodes[j].key, nodes[j].value)
      {
        if j != i {
          assert old(nodes[j].key) != old(node.key);
        }
      }
    }

    /* The key is absent and last is the final node: a new valid node follows it. */
    method Append(last: Node, k: seq<char>, value: int) returns (node: Node)
      requires Valid() && head.valid && last == nodes[|nodes| - 1] && |k| == LEN_TOPIC
      requires forall j :: 0 <= j < |entries| - 1 ==> entries[j].key != k
      requires entries[|entries| - 1].key != k
      modifies last, `nodes, `entries
      ensures Valid() && fresh(node) && nodes == old(nodes) + [node]
      ensures entries == Add(old(entries), k, value)
      ensures node.key == k && node.value == Total(entries, k)
    {
      AddAbsent(entries, k, value);
      node := new Node(true, k, value);
      last.next := node;
      nodes := nodes + [node];
      entries := entries + [Entry(k, value)];
    }
  }

  /* The value of the node each call returns, for a run of calls from `entries` on. */
  function Replay(entries: seq<Entry>, calls: seq<(seq<char>, int)>): seq<int>
    decreases |calls|
  {
    if calls == [] then []
    else
      var next := Add(entries, calls[0].0, calls[0].1);
      [Total(next, calls[0].0)] + Replay(next, calls[1..])
  }

  /* The calls of the test drive of hw0/reducer.c. */
  function DriveCalls(): seq<(seq<char>, int)> {
    var h, m, r := "Hello world!!!" + [NUL], "Mello Zorld???" + [NUL], "This isn't real";
    [(h, 10), (m, 456), (h, 5), (m, 1000), (h, 5), (m, 20000), (r, 12321), (r, 12321)]
  }

  /* The sum of the values given with key k in the first n calls. */
  function SumFor(calls: seq<(seq<char>, int)>, n: nat, k: seq<char>): int
    requires n <= |calls|
  {
    if n == 0 then 0 else SumFor(calls, n - 1, k) + (if calls[n - 1].0 == k then calls[n - 1].1 else 0)
  }

  /* The same sum, taking the first call apart. */
  lemma {:induction false} SumForFirst(calls: seq<(seq<char>, int)>, n: nat, k: seq<char>)
    requires 0 < n <= |calls|
    ensures SumFor(calls, n, k) == (if calls[0].0 == k then calls[0].1 else 0) + SumFor(calls[1..], n - 1, k)
  {
    if n > 1 {
      SumForFirst(calls, n - 1, k);
      assert calls[1..][n - 2] == calls[n - 1];
    }
  }

  /* Each call returns its key's total so far: what the dictionary held for the key
     plus every value given with that key up to and including this call. */
  lemma {:induction false} ReplayRunningTotals(entries: seq<Entry>, calls: seq<(seq<char>, int)>)
    requires KeysDistinct(entries)
    decreases |calls|
    ensures |Replay(entries, calls)| == |calls|
    ensures forall i :: 0 <= i < |calls| ==>
              Replay(entries, calls)[i] == Total(entries, calls[i].0) + SumFor(calls, i + 1, calls[i].0)
  {
    if calls != [] {
      var k, v := calls[0].0, calls[0].1;
      var next := Add(entries, k, v);
      AddKeys(entries, k, v);
      ReplayRunningTotals(next, calls[1..]);
      var out := Replay(entries, calls);
      assert out == [Total(next, k)] + Replay(next, calls[1..]);
      forall i | 0 <= i < |calls|
        ensures out[i] == Total(entries, calls[i].0) + SumFor(calls, i + 1, calls[i].0)
      {
        var q := calls[i].0;
        AddTotals(entries, k, v, q);
        SumForFirst(calls, i + 1, q);
        if i > 0 {
          assert out[i] == Replay(next, calls[1..])[i - 1];
          assert calls[1..][i - 1] == calls[i];
        }
      }
    }
  }

  /* The test drive of hw0/reducer.c on any three distinct keys: the totals it prints
     after each call. */
  lemma Drive(h: seq<char>, m: seq<char>, r: seq<char>)
    requires h != m && h != r && m != r
    ensures Replay([], [(h, 10), (m, 456), (h, 5), (m, 1000), (h, 5), (m, 20000), (r, 12321), (r, 12321)])
         == [10, 456, 15, 1456, 20, 21456, 12321, 24642]
  {
    var calls := [(h, 10), (m, 456), (h, 5), (m, 1000), (h, 5), (m, 20000), (r, 12321), (r, 12321)];
    ReplayRunningTotals([], calls);
    var out := Replay([], calls);
    assert Total([], h) == 0 && Total([], m) == 0 && Total([], r) == 0;
    assert out[0] == SumFor(calls, 1, h) == 10;
    assert SumFor(calls, 1, m) == 0;
    assert out[1] == SumFor(calls, 2, m) == 456;
    assert out[2] == SumFor(calls, 3, h) == 15;
    assert out[3] == SumFor(calls, 4, m) == 1456;
    assert out[4] == SumFor(calls, 5, h) == 20;
    assert out[5] == SumFor(calls, 6, m) == 21456;
    assert SumFor(calls, 1, r) == 0 && SumFor(calls, 2, r) == 0 && SumFor(calls, 3, r) == 0;
    assert SumFor(calls, 4, r) == 0 && SumFor(calls, 5, r) == 0 && SumFor(calls, 6, r) == 0;
    assert out[6] == SumFor(calls, 7, r) == 12321;
    assert out[7] == SumFor(calls, 8, r) == 24642;
  }

  /* The same with the keys of hw0/reducer.c: the first LEN_TOPIC bytes of
     "Hello world!!!", "Mello Zorld???" and "This isn't real". */
  lemma TestDrive()
    ensures Replay([], DriveCalls()) == [10, 456, 15, 1456, 20, 21456, 12321, 24642]
  {
    var h, m, r := "Hello world!!!" + [NUL], "Mello Zorld???" + [NUL], "This isn't real";
    assert h[0] != m[0] && h[0] != r[0] && m[0] != r[0];
    Drive(h, m, r);
  }
}

/*
 * The rest of the reducers of hw1/reducer.c and hw2/reducer.c around the tuple
 * reader: user id compare and copy, printing a dictionary as tuple lines, and the
 * main loop of hw1 that groups consecutive tuples of one user id into a dictionary
 * and prints it when the id changes.  Standard output is the character sequence a
 * method returns.
 */
module ReducerIo {
  import opened Text
  import opened Dictionary
  import TupleReader

  /* ---------------------------------------------------------------------------
   * User ids.
   * ------------------------------------------------------------------------- */

  /* compareUserId: 0 when the first LEN_USER_ID characters agree, else -1. */
  method CompareUserId(a: seq<char>, b: seq<char>) returns (error: int)
    requires LEN_USER_ID <= |a| && LEN_USER_ID <= |b|
    ensures error == 0 || error == -1
    ensures error == 0 <==> a[..LEN_USER_ID] == b[..LEN_USER_ID]
  {
    error := 0;
    var i := 0;
    while i < LEN_USER_ID
      invariant 0 <= i <= LEN_USER_ID
      invariant a[..i] == b[..i]
    {
      if a[i] != b[i] {
        error := -1;
        assert a[..LEN_USER_ID][i] != b[..LEN_USER_ID][i];
        break;
      }
      assert a[..i + 1] == a[..i] + [a[i]] && b[..i + 1] == b[..i] + [b[i]];
      i := i + 1;
    }
  }

  /* copyUserId: the first LEN_USER_ID characters of orig into the id buffer. */
  method CopyUserId(copy: array<char>, orig: seq<char>)
    requires copy.Length == LEN_USER_ID && LEN_USER_ID <= |orig|
    modifies copy
    ensures copy[..] == orig[..LEN_USER_ID]
  {
    for i := 0 to LEN_USER_ID
      invariant copy[..i] == orig[..i]
    {
      copy[i] := orig[i];
      assert copy[..i + 1] == copy[..i] + [copy[i]];
    }
  }

  /* ---------------------------------------------------------------------------
   * Output lines.
   * ------------------------------------------------------------------------- */

  predicate KeysSized(es: seq<Entry>) {
    forall i :: 0 <= i < |es| ==> |es[i].key| == LEN_TOPIC
  }

  /* One printed tuple: '(', the user id, ',', the topic, ',', the total in decimal,
     ')' and a newline. */
  function RecordLine(userid: seq<char>, e: Entry): seq<char>
    requires LEN_USER_ID <= |userid| && |e.key| == LEN_TOPIC
  {
    [LB] + userid[..LEN_USER_ID] + [DELIMITER] + e.key + [DELIMITER] + Itoa(e.total) + [RB, ENTER]
  }

  /* The fields sit at fixed places in the line and the total reads back with atoi:
     a line is the tuple it prints. */
  lemma RecordLineFields(userid: seq<char>, e: Entry)
    requires LEN_USER_ID <= |userid| && |e.key| == LEN_TOPIC
    ensures var line := RecordLine(userid, e);
            && |line| == 24 + |Itoa(e.total)|
            && line[0] == LB && line[5] == DELIMITER && line[21] == DELIMITER
            && line[1..5] == userid[..LEN_USER_ID] && line[6..21] == e.key
            && line[|line| - 2] == RB && line[|line| - 1] == ENTER
            && Atoi(line[22..]) == e.total
  {
    var line := RecordLine(userid, e);
    assert line[22..] == Itoa(e.total) + [RB, ENTER];
    AtoiItoa(e.total, [RB, ENTER]);
  }

  /* One line per entry, in list order. */
  function Lines(userid: seq<char>, es: seq<Entry>): seq<char>
    requires LEN_USER_ID <= |userid| && KeysSized(es)
    decreases |es|
  {
    if es == [] then [] else RecordLine(userid, es[0]) + Lines(userid, es[1..])
  }

  /* Printing a list is printing its first part, then the rest. */
  lemma {:induction false} LinesAppend(userid: seq<char>, a: seq<Entry>, b: seq<Entry>)
    requires LEN_USER_ID <= |userid| && KeysSized(a) && KeysSized(b)
    ensures KeysSized(a + b)
    ensures Lines(userid, a + b) == Lines(userid, a) + Lines(userid, b)
    decreases |a|
  {
    if a == [] {
      assert a + b == b;
    } else {
      assert (a + b)[0] == a[0] && (a + b)[1..] == a[1..] + b;
      LinesAppend(userid, a[1..], b);
      Assoc(RecordLine(userid, a[0]), Lines(userid, a[1..]), Lines(userid, b));
    }
  }

  /* console_tuple_write of hw1 as written: sprintf into `char weightString[3]`, then
     exactly three characters of the buffer are written.  A short number is followed
     by its NUL and then by `junk`, whatever the third byte held; digits past the
     third are cut off. */
  function WeightFieldAsWritten(v: int, junk: char): (f: seq<char>)
    ensures |f| == 3
  {
    (Itoa(v) + [NUL, junk])[..3]
  }

  function RecordLineAsWritten(userid: seq<char>, e: Entry, junk: char): seq<char>
    requires LEN_USER_ID <= |userid| && |e.key| == LEN_TOPIC
  {
    [LB] + userid[..LEN_USER_ID] + [DELIMITER] + e.key + [DELIMITER] + WeightFieldAsWritten(e.total, junk) + [RB, ENTER]
  }

  /* The total 21456 of the hw0 test drive prints as "214", which reads back as 214;
     the total 5 prints as '5', NUL and the junk byte. */
  lemma WeightFieldLosesDigits(junk: char)
    ensures WeightFieldAsWritten(21456, junk) == "214"
    ensures Atoi(WeightFieldAsWritten(21456, junk) + [RB]) == 214
    ensures WeightFieldAsWritten(5, junk) == ['5', NUL, junk]
  {
    assert NatDigits(21456) == "21456" by {
      assert NatDigits(2) == "2";
      assert NatDigits(21) == "21";
      assert NatDigits(214) == "214";
      assert NatDigits(2145) == "2145";
    }
    assert NatDigits(5) == "5";
    var f := WeightFieldAsWritten(21456, junk);
    assert f + [RB] == "214" + [RB];
    AtoiItoa(214, [RB]);
    assert NatDigits(214) == "214" by {
      assert NatDigits(2) == "2";
      assert NatDigits(21) == "21";
    }
  }

  /* Printing from entry i on is printing entry i, then the entries after it. */
  lemma LinesFrom(userid: seq<char>, es: seq<Entry>, i: nat)
    requires LEN_USER_ID <= |userid| && KeysSized(es) && i < |es|
    ensures KeysSized(es[i..]) && KeysSized(es[i + 1..])
    ensures Lines(userid, es[i..]) == RecordLine(userid, es[i]) + Lines(userid, es[i + 1..])
  {
    assert es[i..][0] == es[i] && es[i..][1..] == es[i + 1..];
  }

  lemma Assoc<T>(a: seq<T>, b: seq<T>, c: seq<T>)
    ensures a + (b + c) == a + b + c
  {
  }

  /* What the loop of the writer visits from the head on: the entries, or the head
     alone while it is not valid. */
  ghost function Shown(d: Dict): seq<Entry>
    requires d.Valid()
    reads d, d.nodes
  {
    if d.head.valid then d.entries else [Entry(d.head.key, d.head.value)]
  }

  /* r_console_tuple_write of hw2, the corrected form of hw1's console_tuple_write:
     one line per node from the head on, the weight printed in full. */
  method ConsoleTupleWrite(userId: seq<char>, dictionary: Dict?) returns (out: seq<char>)
    requires LEN_USER_ID <= |userId|
    requires dictionary != null ==> dictionary.Valid()
    ensures dictionary == null ==> out == []
    ensures dictionary != null ==> KeysSized(Shown(dictionary)) && out == Lines(userId, Shown(dictionary))
  {
    out := [];
    if dictionary == null {
      return;
    }
    ghost var shown := Shown(dictionary);
    ghost var nodes := dictionary.nodes;
    assert forall j :: 0 <= j < |nodes| ==> shown[j] == Entry(nodes[j].key, nodes[j].value);
    var node: Node? := dictionary.head;
    ghost var i := 0;
    while node != null
      invariant 0 <= i <= |nodes| && |shown| == |nodes|
      invariant node == (if i < |nodes| then nodes[i] else null)
      invariant KeysSized(shown)
      invariant out + Lines(userId, shown[i..]) == Lines(userId, shown)
      decreases |nodes| - i
    {
      LinesFrom(userId, shown, i);
      Assoc(out, RecordLine(userId, shown[i]), Lines(userId, shown[i + 1..]));
      out := out + RecordLine(userId, Entry(node.key, node.value));
      node := node.next;
      i := i + 1;
    }
  }

  /* ---------------------------------------------------------------------------
   * The main loop of hw1/reducer.c.
   * ------------------------------------------------------------------------- */

  const EOF_MESSAGE: seq<char> := "Reducer end of file found\n"
  const EXIT_MESSAGE: seq<char> := "Reducer exitting..\n"

  /* The tuples main hands to its loop body: every read that returns 0, until the
     first that does not.  The struct is one local reused by every call. */
  function Reads(s: seq<char>, lenW: nat, after: seq<char>, pos: nat, t: TupleReader.Tuple): (ts: seq<TupleReader.Tuple>)
    requires pos <= |s| && TupleReader.WellSized(t) && lenW <= 3
    ensures forall i :: 0 <= i < |ts| ==> TupleReader.WellSized(ts[i])
    decreases |s| - pos
  {
    var r := TupleReader.ReadTuple(s, lenW, after, pos, t);
    if r.ret != 0 then [] else [r.tuple] + Reads(s, lenW, after, r.next, r.tuple)
  }

  /* One call of the reader decides how the run of tuples goes on. */
  lemma ReadsStep(s: seq<char>, lenW: nat, after: seq<char>, pos: nat, t: TupleReader.Tuple, r: TupleReader.ReadResult)
    requires pos <= |s| && TupleReader.WellSized(t) && lenW <= 3
    requires r == TupleReader.ReadTuple(s, lenW, after, pos, t)
    ensures r.ret != 0 ==> Reads(s, lenW, after, pos, t) == []
    ensures r.ret == 0 ==> Reads(s, lenW, after, pos, t) == [r.tuple] + Reads(s, lenW, after, r.next, r.tuple)
  {
  }

  /* Text printed for a dictionary pointer: nothing for NULL. */
  function LinesOf(userid: seq<char>, ents: Option<seq<Entry>>): seq<char>
    requires LEN_USER_ID <= |userid| && (ents.Some? ==> KeysSized(ents.value))
  {
    if ents.None? then [] else Lines(userid, ents.value)
  }

  /* Prefix a run's output with what was printed before it; None stays None. */
  function Then(printed: seq<char>, rest: Option<seq<char>>): Option<seq<char>> {
    if rest.None? then None else Some(printed + rest.value)
  }

  lemma AddSized(es: seq<Entry>, k: seq<char>, v: int)
    requires KeysSized(es) && |k| == LEN_TOPIC
    ensures KeysSized(Add(es, k, v))
  {
  }

  /* The loop body of main for one tuple t read with prevId holding prev: when the
     id differs from prev the old dictionary is printed under prev and a new one
     made; then reduce adds the weight under the topic.  The second component is
     None when reduce would be handed NULL. */
  function Step(t: TupleReader.Tuple, prev: seq<char>, ents: Option<seq<Entry>>): (r: (seq<char>, Option<seq<Entry>>))
    requires TupleReader.WellSized(t) && |prev| == LEN_USER_ID
    requires ents.Some? ==> KeysSized(ents.value)
    ensures r.1.Some? ==> KeysSized(r.1.value)
  {
    var printed := if t.userid != prev then LinesOf(prev, ents) else [];
    var ents' := if t.userid != prev then Some([]) else ents;
    if ents'.None? then (printed, None)
    else
      AddSized(ents'.value, t.topic, t.weight);
      (printed, Some(Add(ents'.value, t.topic, t.weight)))
  }

  /* What main prints for the tuples ts, with currId and prevId holding curr and prev
     and the dictionary pointer standing for ents (None for NULL).  None when reduce
     is handed the NULL dictionary, which the loop does when the very first tuple
     carries the id prevId starts with. */
  function Group(ts: seq<TupleReader.Tuple>, curr: seq<char>, prev: seq<char>, ents: Option<seq<Entry>>): Option<seq<char>>
    requires |curr| == LEN_USER_ID && |prev| == LEN_USER_ID
    requires forall i :: 0 <= i < |ts| ==> TupleReader.WellSized(ts[i])
    requires ents.Some? ==> KeysSized(ents.value)
    decreases |ts|
  {
    if ts == [] then Some(EOF_MESSAGE + EXIT_MESSAGE + LinesOf(curr, ents))
    else
      assert TupleReader.WellSized(ts[0]);
      var (printed, ents') := Step(ts[0], prev, ents);
      if ents'.None? then None
      else Then(printed, Group(ts[1..], ts[0].userid, ts[0].userid, ents'))
  }

  /* One step of the loop on the goal: reading t and handling it moves the printed
     text from the run into the prefix. */
  lemma GroupCons(t: TupleReader.Tuple, rest: seq<TupleReader.Tuple>, curr: seq<char>, prev: seq<char>,
                  ents: Option<seq<Entry>>, out: seq<char>)
    requires TupleReader.WellSized(t) && |curr| == LEN_USER_ID && |prev| == LEN_USER_ID
    requires forall i :: 0 <= i < |rest| ==> TupleReader.WellSized(rest[i])
    requires ents.Some? ==> KeysSized(ents.value)
    ensures Step(t, prev, ents).1.None? ==> Then(out, Group([t] + rest, curr, prev, ents)) == None
    ensures Step(t, prev, ents).1.Some? ==>
              Then(out, Group([t] + rest, curr, prev, ents))
              == Then(out + Step(t, prev, ents).0, Group(rest, t.userid, t.userid, Step(t, prev, ents).1))
  {
    var ts := [t] + rest;
    assert ts[0] == t && ts[1..] == rest;
    var g := Group(ts, curr, prev, ents);
    var step := Step(t, prev, ents);
    if step.1.Some? {
      var r := Group(rest, t.userid, t.userid, step.1);
      assert g == Then(step.0, r);
      if r.Some? {
        assert out + (step.0 + r.value) == out + step.0 + r.value;
      }
    }
  }

  /* GroupCons as the loop of main uses it: the goal the loop works toward stays
     the same across one tuple, or the run ends with the NULL dictionary handed to
     reduce. */
  lemma GroupAdvance(t: TupleReader.Tuple, rest: seq<TupleReader.Tuple>, curr: seq<char>, prev: seq<char>,
                     ents: Option<seq<Entry>>, out: seq<char>, goal: Option<seq<char>>)
    requires TupleReader.WellSized(t) && |curr| == LEN_USER_ID && |prev| == LEN_USER_ID
    requires forall i :: 0 <= i < |rest| ==> TupleReader.WellSized(rest[i])
    requires ents.Some? ==> KeysSized(ents.value)
    requires Then(out, Group([t] + rest, curr, prev, ents)) == goal
    ensures Step(t, prev, ents).1.None? ==> goal == None
    ensures Step(t, prev, ents).1.Some? ==>
              Then(out + Step(t, prev, ents).0, Group(rest, t.userid, t.userid, Step(t, prev, ents).1)) == goal
  {
    GroupCons(t, rest, curr, prev, ents, out);
  }

  /* Past the last tuple main prints the end-of-file and exit messages and the
     dictionary under the current id. */
  lemma GroupEnd(out: seq<char>, curr: seq<char>, prev: seq<char>, ents: Option<seq<Entry>>, printed: seq<char>)
    requires |curr| == LEN_USER_ID && |prev| == LEN_USER_ID
    requires ents.Some? ==> KeysSized(ents.value)
    requires printed == LinesOf(curr, ents)
    ensures Then(out, Group([], curr, prev, ents)) == Some(out + EOF_MESSAGE + EXIT_MESSAGE + printed)
  {
    Regroup(out, EOF_MESSAGE, EXIT_MESSAGE, printed);
  }

  lemma Regroup(a: seq<char>, b: seq<char>, c: seq<char>, d: seq<char>)
    ensures a + (b + c + d) == a + b + c + d
  {
  }

  /* Step by cases: a new id prints the old dictionary and starts a new one; the
     same id adds to the dictionary there is, if any. */
  lemma StepCases(t: TupleReader.Tuple, prev: seq<char>, ents: Option<seq<Entry>>)
    requires TupleReader.WellSized(t) && |prev| == LEN_USER_ID
    requires ents.Some? ==> KeysSized(ents.value)
    ensures t.userid != prev ==> Step(t, prev, ents) == (LinesOf(prev, ents), Some(Add([], t.topic, t.weight)))
    ensures t.userid == prev && ents.None? ==> Step(t, prev, ents) == ([], None)
    ensures t.userid == prev && ents.Some? ==> Step(t, prev, ents) == ([], Some(Add(ents.value, t.topic, t.weight)))
  {
  }

  /* reduce: dictAddToValue under the tuple's topic with its weight. */
  method Reduce(dictionary: Dict, tuple: TupleReader.Tuple)
    requires dictionary.Valid() && TupleReader.WellSized(tuple) && KeysSized(dictionary.entries)
    modifies dictionary, dictionary.nodes
    ensures dictionary.Valid() && dictionary.head.valid && KeysSized(dictionary.entries)
    ensures dictionary.entries == Add(old(dictionary.entries), tuple.topic, tuple.weight)
  {
    assert tuple.topic[..LEN_TOPIC] == tuple.topic;
    var _ := dictionary.AddToValue(tuple.topic, tuple.weight);
    AddSized(old(dictionary.entries), tuple.topic, tuple.weight);
  }

  /* One call of console_tuple_read from main's loop, described by the run of
     tuples it starts or ends. */
  method ReadNext(s: seq<char>, pos: nat, lenW: nat, after: seq<char>, t: TupleReader.Tuple)
    returns (error: int, tuple: TupleReader.Tuple, next: nat)
    requires pos <= |s| && TupleReader.WellSized(t) && lenW <= 3
    ensures TupleReader.WellSized(tuple) && pos <= next <= |s|
    ensures error != 0 ==> Reads(s, lenW, after, pos, t) == []
    ensures error == 0 ==> pos < next && Reads(s, lenW, after, pos, t) == [tuple] + Reads(s, lenW, after, next, tuple)
  {
    error, tuple, next := TupleReader.ConsoleTupleRead(s, pos, lenW, after, t);
    ReadsStep(s, lenW, after, pos, t, TupleReader.ReadResult(error, tuple, next));
  }

  /* The start of main: currId all 'X', prevId all 'Y'. */
  method InitIds() returns (currId: array<char>, prevId: array<char>)
    ensures fresh(currId) && fresh(prevId) && currId != prevId
    ensures currId[..] == Repeat('X', LEN_USER_ID) && prevId[..] == Repeat('Y', LEN_USER_ID)
  {
    currId := new char[LEN_USER_ID];
    prevId := new char[LEN_USER_ID];
    for i := 0 to LEN_USER_ID
      invariant forall j :: 0 <= j < i ==> currId[j] == 'X' && prevId[j] == 'Y'
    {
      currId[i] := 'X';
      prevId[i] := 'Y';
    }
  }

  /* The body of main's loop after a read that returned 0, up to the copy into
     prevId: copy the id, print the dictionary and start a new one when the id
     changed, then reduce (None: the dictionary pointer was still NULL). */
  method HandleTuple(currId: array<char>, prevId: array<char>, tuple: TupleReader.Tuple,
                     dictionary: Option<seq<Entry>>)
    returns (printed: seq<char>, next: Option<seq<Entry>>)
    requires currId.Length == LEN_USER_ID && prevId.Length == LEN_USER_ID && currId != prevId
    requires TupleReader.WellSized(tuple) && (dictionary.Some? ==> KeysSized(dictionary.value))
    modifies currId
    ensures (printed, next) == Step(tuple, prevId[..], dictionary)
    ensures currId[..] == tuple.userid
  {
    StepCases(tuple, prevId[..], dictionary);
    CopyUserId(currId, tuple.userid);
    assert tuple.userid[..LEN_USER_ID] == tuple.userid;
    var cmp := CompareUserId(currId[..], prevId[..]);
    printed, next := [], dictionary;
    if cmp == -1 {
      printed := LinesOf(prevId[..], dictionary);
      next := Some([]);
    }
    if next.Some? {
      next := Some(Add(next.value, tuple.topic, tuple.weight));
    }
  }

  /* main: the ids start as "XXXX" and "YYYY" and the dictionary as NULL; the struct
     the reader fills starts out holding t0.  The dictionary pointer is held as the
     entries it stands for (None for NULL), with console_tuple_write as Lines and
     reduce as Add, which ConsoleTupleWrite and Reduce implement on the list. */
  method RunGrouping(s: seq<char>, lenW: nat, after: seq<char>, t0: TupleReader.Tuple) returns (out: seq<char>, crashed: bool)
    requires lenW <= 3 && TupleReader.WellSized(t0)
    ensures crashed <==> Group(Reads(s, lenW, after, 0, t0), Repeat('X', LEN_USER_ID), Repeat('Y', LEN_USER_ID), None) == None
    ensures !crashed ==> Group(Reads(s, lenW, after, 0, t0), Repeat('X', LEN_USER_ID), Repeat('Y', LEN_USER_ID), None) == Some(out)
  {
    ghost var goal := Group(Reads(s, lenW, after, 0, t0), Repeat('X', LEN_USER_ID), Repeat('Y', LEN_USER_ID), None);
    var dictionary: Option<seq<Entry>> := None;
    var currId, prevId := InitIds();
    var inputTuple := t0;
    var pos := 0;
    ghost var rest := Reads(s, lenW, after, pos, inputTuple);
    out := [];
    assert goal.Some? ==> [] + goal.value == goal.value;
    while true
      invariant pos <= |s| && TupleReader.WellSized(inputTuple)
      invariant dictionary.Some? ==> KeysSized(dictionary.value)
      invariant rest == Reads(s, lenW, after, pos, inputTuple)
      invariant Then(out, Group(rest, currId[..], prevId[..], dictionary)) == goal
      decreases |s| - pos
    {
      var error, tuple, next := ReadNext(s, pos, lenW, after, inputTuple);
      if error != 0 {
        break;
      }
      ghost var step := Step(tuple, prevId[..], dictionary);
      GroupAdvance(tuple, Reads(s, lenW, after, next, tuple), currId[..], prevId[..], dictionary, out, goal);
      var printed;
      printed, dictionary := HandleTuple(currId, prevId, tuple, dictionary);
      assert (printed, dictionary) == step;
      out := out + printed;
      if dictionary.None? {
        return out, true;
      }
      CopyUserId(prevId, currId[..]);
      assert prevId[..] == tuple.userid && currId[..] == tuple.userid;
      inputTuple, pos, rest := tuple, next, Reads(s, lenW, after, next, tuple);
    }
    ghost var before := out;
    out := out + EOF_MESSAGE;
    out := out + EXIT_MESSAGE;
    var printed := LinesOf(currId[..], dictionary);
    GroupEnd(before, currId[..], prevId[..], dictionary, printed);
    out := out + printed;
    crashed := false;
  }
}

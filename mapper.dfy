/*
 * The mapper of hw2/mapper.c: `m_console_tuple_read` parses "(userid,action,topic)"
 * into a freshly allocated tuple, and `map` turns the action letter into a weight by
 * the rule table of hw2/common.c.  The allocated tuple starts with whatever the
 * allocator left in it; that content is the parameter `junk0`.  A NULL result is None.
 */
module Mapper {
  import opened Text
  import opened Common
  import TupleReader

  /* mTupleIn_t of hw2/mapper.h. */
  datatype MTupleIn = MTupleIn(error: int, userid: seq<char>, action: char, topic: seq<char>)

  /* mTupleOut_t has the reducer's tuple layout (error, userid, topic, weight). */
  type MTupleOut = TupleReader.Tuple

  predicate WellSized(t: MTupleIn) {
    |t.userid| == LEN_USER_ID && |t.topic| == LEN_TOPIC
  }

  datatype State = LeftBracket | UserId | Action | Topic

  datatype Machine = Machine(state: State, count: nat, tuple: MTupleIn)

  datatype Outcome = Continue | Complete | Failed

  predicate Consistent(m: Machine) {
    && WellSized(m.tuple)
    && match m.state
       case LeftBracket => m.count == 0
       case UserId => m.count <= LEN_USER_ID
       case Action => m.count <= LEN_ACTION
       case Topic => m.count <= LEN_TOPIC
  }

  /* One pass of the switch on the character c.  The ')' that ends the topic pads the
     rest of the topic with spaces in place. */
  function Process(m: Machine, c: char): (r: (Machine, Outcome))
    requires Consistent(m)
    ensures Consistent(r.0)
  {
    match m.state
    case LeftBracket =>
      if c == LB then (m.(state := UserId), Continue) else (m, Continue)
    case UserId =>
      if c == DELIMITER then (m.(state := Action, count := 0), Continue)
      else if m.count == LEN_USER_ID then (m, Failed)
      else (m.(tuple := m.tuple.(userid := m.tuple.userid[m.count := c]), count := m.count + 1), Continue)
    case Action =>
      if c == DELIMITER then (m.(state := Topic, count := 0), Continue)
      else if m.count == LEN_ACTION then (m, Failed)
      else (m.(tuple := m.tuple.(action := c), count := m.count + 1), Continue)
    case Topic =>
      if c == RB then
        (m.(tuple := m.tuple.(topic := PadFrom(m.tuple.topic, m.count)), count := LEN_TOPIC), Complete)
      else if m.count == LEN_TOPIC then (m, Failed)
      else (m.(tuple := m.tuple.(topic := m.tuple.topic[m.count := c]), count := m.count + 1), Continue)
  }

  /* The tuple pointer returned and the input cursor afterwards. */
  datatype ReadResult = ReadResult(tuple: Option<MTupleIn>, next: nat)

  /* The rest of the loop once `c` has been read and the cursor stands at `cur`.  An EOF
     read frees the tuple (None); a parse error or ')' still hands the tuple back. */
  function Run(s: seq<char>, c: char, cur: nat, m: Machine): (r: ReadResult)
    requires cur <= |s| && Consistent(m)
    ensures cur <= r.next <= |s|
    ensures r.tuple.Some? ==> WellSized(r.tuple.value) && cur < r.next
    ensures r.tuple.None? ==> r.next == |s|
    decreases |s| - cur
  {
    var (m', o) := Process(m, c);
    if cur == |s| then ReadResult(None, cur)
    else if o != Continue || s[cur] == ENTER then ReadResult(Some(m'.tuple), cur + 1)
    else Run(s, s[cur], cur + 1, m')
  }

  /* A whole call on input `s` with the cursor at `pos`. */
  function ReadTuple(s: seq<char>, pos: nat, junk0: MTupleIn): (r: ReadResult)
    requires pos <= |s| && WellSized(junk0)
    ensures pos <= r.next <= |s|
    ensures r.tuple.Some? ==> WellSized(r.tuple.value)
    ensures r.tuple.None? ==> r.next == |s|
  {
    var (c, cur) := GetChar(s, pos);
    if c == ENTER then ReadResult(Some(junk0), cur)
    else Run(s, c, cur, Machine(LeftBracket, 0, junk0))
  }

  /* The body of the C switch: one character handled in the current state. */
  method HandleChar(state: State, charCount: nat, tuple: MTupleIn, nextChar: char)
    returns (state': State, charCount': nat, tuple': MTupleIn, outcome: Outcome)
    requires Consistent(Machine(state, charCount, tuple))
    ensures (Machine(state', charCount', tuple'), outcome) == Process(Machine(state, charCount, tuple), nextChar)
  {
    state', charCount', tuple', outcome := state, charCount, tuple, Continue;
    match state {
      case LeftBracket =>
        if nextChar == LB {
          state' := UserId;
        }
      case UserId =>
        if nextChar == DELIMITER {
          state' := Action;
          charCount' := 0;
        } else if charCount == LEN_USER_ID {
          outcome := Failed;
        } else {
          tuple' := tuple.(userid := tuple.userid[charCount := nextChar]);
          charCount' := charCount + 1;
        }
      case Action =>
        if nextChar == DELIMITER {
          state' := Topic;
          charCount' := 0;
        } else if charCount == LEN_ACTION {
          outcome := Failed;
        } else {
          tuple' := tuple.(action := nextChar);
          charCount' := charCount + 1;
        }
      case Topic =>
        if nextChar == RB {
          outcome := Complete;
          while charCount' < LEN_TOPIC
            invariant charCount <= charCount' <= LEN_TOPIC && |tuple'.topic| == LEN_TOPIC
            invariant tuple' == tuple.(topic := tuple'.topic)
            invariant PadFrom(tuple'.topic, charCount') == PadFrom(tuple.topic, charCount)
          {
            tuple' := tuple'.(topic := tuple'.topic[charCount' := SPACE]);
            charCount' := charCount' + 1;
          }
        } else if charCount == LEN_TOPIC {
          outcome := Failed;
        } else {
          tuple' := tuple.(topic := tuple.topic[charCount := nextChar]);
          charCount' := charCount + 1;
        }
    }
  }

  /* The C loop: the switch, then the next getchar and the EOF test that frees the tuple. */
  method ConsoleTupleRead(s: seq<char>, pos: nat, junk0: MTupleIn) returns (tuple: Option<MTupleIn>, next: nat)
    requires pos <= |s| && WellSized(junk0)
    ensures ReadResult(tuple, next) == ReadTuple(s, pos, junk0)
  {
    ghost var goal := ReadTuple(s, pos, junk0);
    var exitLoop := false;
    var error := 0;
    var charCount: nat := 0;
    var state := LeftBracket;
    var nextChar, cur := GetChar(s, pos).0, GetChar(s, pos).1;
    var t := junk0;
    tuple := Some(t);
    while !exitLoop && error != -1 && nextChar != ENTER
      invariant cur <= |s|
      invariant Consistent(Machine(state, charCount, t))
      invariant tuple == Some(t) || (tuple == None && error == -1)
      invariant !exitLoop && error != -1 && nextChar != ENTER ==>
        Run(s, nextChar, cur, Machine(state, charCount, t)) == goal
      invariant exitLoop || error == -1 || nextChar == ENTER ==> ReadResult(tuple, cur) == goal
      decreases |s| - cur, if exitLoop || error == -1 then 0 else 1
    {
      ghost var m0 := Machine(state, charCount, t);
      ghost var c0, cur0 := nextChar, cur;
      var outcome;
      state, charCount, t, outcome := HandleChar(state, charCount, t, nextChar);
      if outcome == Failed {
        error := -1;
      } else if outcome == Complete {
        exitLoop := true;
      }
      assert Run(s, c0, cur0, m0) == goal;
      tuple := Some(t);
      var atEof := cur == |s|;
      nextChar, cur := GetChar(s, cur).0, GetChar(s, cur).1;
      if atEof {
        error := -1;
        tuple := None;
      }
    }
    next := cur;
  }

  /* ---------------------------------------------------------------------------
   * map: look the action up in the rule table; on a hit copy topic and userid.
   * ------------------------------------------------------------------------- */

  /* What map leaves in `out` and returns, by the table lookup. */
  function MapSpec(inp: MTupleIn, out0: MTupleOut): (MTupleOut, int) {
    match RuleWeight(inp.action)
    case Some(w) => (out0.(error := 0, weight := w, topic := inp.topic, userid := inp.userid), 0)
    case None => (out0.(error := -1), -1)
  }

  method Map(inp: MTupleIn, out0: MTupleOut) returns (out: MTupleOut, ret: int)
    requires WellSized(inp) && TupleReader.WellSized(out0)
    ensures (out, ret) == MapSpec(inp, out0)
  {
    out := out0;
    var index := 0;
    while index < MAPPING_COUNT
      invariant 0 <= index <= MAPPING_COUNT && index <= RuleIndex(inp.action)
      invariant out == if index == 0 then out0 else out0.(error := -1)
    {
      if inp.action == RULE_ACTION[index] {
        out := out.(error := 0, weight := RULE_WEIGHT[index]);
        assert index == RuleIndex(inp.action);
        break;
      } else {
        out := out.(error := -1);
      }
      index := index + 1;
    }
    if out.error == 0 {
      var i := 0;
      while i < LEN_TOPIC
        invariant 0 <= i <= LEN_TOPIC && |out.topic| == LEN_TOPIC
        invariant out.topic == inp.topic[..i] + out0.topic[i..]
        invariant out.error == 0 && out.userid == out0.userid
        invariant out.weight == RULE_WEIGHT[RuleIndex(inp.action)] && RuleIndex(inp.action) < MAPPING_COUNT
      {
        out := out.(topic := out.topic[i := inp.topic[i]]);
        i := i + 1;
      }
      assert out.topic == inp.topic;
      i := 0;
      while i < LEN_USER_ID
        invariant 0 <= i <= LEN_USER_ID && |out.userid| == LEN_USER_ID
        invariant out.userid == inp.userid[..i] + out0.userid[i..]
        invariant out.error == 0 && out.topic == inp.topic
        invariant out.weight == RULE_WEIGHT[RuleIndex(inp.action)] && RuleIndex(inp.action) < MAPPING_COUNT
      {
        out := out.(userid := out.userid[i := inp.userid[i]]);
        i := i + 1;
      }
      assert out.userid == inp.userid;
      ret := 0;
    } else {
      ret := -1;
    }
  }

  /* map succeeds exactly for the five table letters and then carries the table's
     weight for that letter; otherwise only the error field changes. */
  lemma MapByTable(inp: MTupleIn, out0: MTupleOut)
    ensures var (out, ret) := MapSpec(inp, out0);
            && (ret == 0 || ret == -1)
            && (ret == 0 <==> inp.action in RULE_ACTION)
            && (ret == 0 ==> exists i :: 0 <= i < MAPPING_COUNT && RULE_ACTION[i] == inp.action
                                        && out == out0.(error := 0, weight := RULE_WEIGHT[i], topic := inp.topic, userid := inp.userid))
            && (ret == -1 ==> out == out0.(error := -1))
  {
    var w := RuleWeight(inp.action);
    if w.Some? {
      var i :| 0 <= i < MAPPING_COUNT && RULE_ACTION[i] == inp.action && RULE_WEIGHT[i] == w.value;
    }
  }

  /* ---------------------------------------------------------------------------
   * Lemmas about the reader.
   * ------------------------------------------------------------------------- */

  /* The character that ends the field being read in each state. */
  function Terminator(st: State): char {
    match st
    case LeftBracket => LB
    case UserId => DELIMITER
    case Action => DELIMITER
    case Topic => RB
  }

  function Capacity(st: State): nat {
    match st
    case LeftBracket => 0
    case UserId => LEN_USER_ID
    case Action => LEN_ACTION
    case Topic => LEN_TOPIC
  }

  /* One character stored into the current field; the action keeps only the latest. */
  function Put(m: Machine, c: char): (r: Machine)
    requires Consistent(m) && m.state != LeftBracket && m.count < Capacity(m.state)
    ensures Consistent(r) && r.state == m.state && r.count == m.count + 1
  {
    match m.state
    case UserId => m.(tuple := m.tuple.(userid := m.tuple.userid[m.count := c]), count := m.count + 1)
    case Action => m.(tuple := m.tuple.(action := c), count := m.count + 1)
    case Topic => m.(tuple := m.tuple.(topic := m.tuple.topic[m.count := c]), count := m.count + 1)
  }

  /* The machine after the characters `chars` were stored one by one into the current field. */
  function Store(m: Machine, chars: seq<char>): (r: Machine)
    requires Consistent(m) && m.state != LeftBracket
    requires m.count + |chars| <= Capacity(m.state)
    ensures Consistent(r) && r.state == m.state && r.count == m.count + |chars|
    decreases |chars|
  {
    if |chars| == 0 then m else Store(Put(m, chars[0]), chars[1..])
  }

  /* The same machine described all at once. */
  function Written(m: Machine, chars: seq<char>): Machine
    requires Consistent(m) && m.state != LeftBracket
    requires m.count + |chars| <= Capacity(m.state)
  {
    var n := m.count + |chars|;
    match m.state
    case UserId => m.(tuple := m.tuple.(userid := Overwrite(m.tuple.userid, m.count, chars)), count := n)
    case Action => m.(tuple := m.tuple.(action := LastOr(chars, m.tuple.action)), count := n)
    case Topic => m.(tuple := m.tuple.(topic := Overwrite(m.tuple.topic, m.count, chars)), count := n)
  }

  lemma {:induction false} StoreOverwrites(m: Machine, chars: seq<char>)
    requires Consistent(m) && m.state != LeftBracket
    requires m.count + |chars| <= Capacity(m.state)
    ensures Store(m, chars) == Written(m, chars)
    decreases |chars|
  {
    if |chars| == 0 {
      match m.state
      case UserId => OverwriteNothing(m.tuple.userid, m.count);
      case Action =>
      case Topic => OverwriteNothing(m.tuple.topic, m.count);
    } else {
      var m' := Put(m, chars[0]);
      StoreOverwrites(m', chars[1..]);
      var n := m.count;
      match m.state
      case UserId => OverwriteStep(m.tuple.userid, n, chars);
      case Action =>
        if |chars| > 1 {
          assert chars[1..][|chars[1..]| - 1] == chars[|chars| - 1];
        }
      case Topic => OverwriteStep(m.tuple.topic, n, chars);
    }
  }

  /* Characters before the first '(' are skipped: the machine is unchanged until x. */
  lemma {:induction false} SkipsToBracket(s: seq<char>, i: nat, junk: seq<char>, x: char, m: Machine)
    requires Consistent(m) && m.state == LeftBracket
    requires FieldAt(s, i, junk, x) && x != ENTER && NoneOf(junk, LB, ENTER)
    ensures Run(s, s[i], i + 1, m) == Run(s, x, i + |junk| + 1, m)
    decreases |junk|
  {
    FieldStart(s, i, junk, x);
    if |junk| > 0 {
      FieldRest(s, i, junk, x);
      FieldStart(s, i + 1, junk[1..], x);
      SkipsToBracket(s, i + 1, junk[1..], x, m);
      assert i + 1 + |junk[1..]| + 1 == i + |junk| + 1;
    }
  }

  /* A character that is neither the field's terminator is stored while there is room. */
  lemma Stores(m: Machine, c: char)
    requires Consistent(m) && m.state != LeftBracket && m.count < Capacity(m.state)
    requires c != Terminator(m.state)
    ensures Process(m, c) == (Put(m, c), Continue)
  {
  }

  /* A character other than the terminator when the field is full fails the parse. */
  lemma Overflows(m: Machine, c: char)
    requires Consistent(m) && m.state != LeftBracket && m.count == Capacity(m.state)
    requires c != Terminator(m.state)
    ensures Process(m, c) == (m, Failed)
  {
  }

  /* A character that does not stop the loop: process it and carry on with s[i]. */
  lemma StepOn(s: seq<char>, c: char, i: nat, m: Machine)
    requires Consistent(m) && i < |s| && s[i] != ENTER
    requires Process(m, c).1 == Continue
    ensures Run(s, c, i, m) == Run(s, s[i], i + 1, Process(m, c).0)
  {
  }

  /* Inside a field, characters that are neither its terminator nor ENTER are stored
     one after the other while there is room. */
  lemma {:induction false} FillsField(s: seq<char>, i: nat, f: seq<char>, x: char, m: Machine)
    requires Consistent(m) && m.state != LeftBracket
    requires FieldAt(s, i, f, x) && x != ENTER
    requires m.count + |f| <= Capacity(m.state)
    requires NoneOf(f, Terminator(m.state), ENTER)
    ensures Run(s, s[i], i + 1, m) == Run(s, x, i + |f| + 1, Store(m, f))
    decreases |f|
  {
    FieldStart(s, i, f, x);
    if |f| > 0 {
      var m' := Put(m, f[0]);
      Stores(m, f[0]);
      FieldRest(s, i, f, x);
      FieldStart(s, i + 1, f[1..], x);
      StepOn(s, f[0], i + 1, m);
      FillsField(s, i + 1, f[1..], x, m');
      assert i + 1 + |f[1..]| + 1 == i + |f| + 1;
      assert Store(m, f) == Store(m', f[1..]);
    }
  }

  /* A whole user id or action field and its ',', with a character other than ENTER after it. */
  lemma ReadsField(s: seq<char>, i: nat, f: seq<char>, m: Machine)
    requires Consistent(m) && (m.state == UserId || m.state == Action)
    requires FieldAt(s, i, f, DELIMITER) && NoneOf(f, DELIMITER, ENTER)
    requires m.count + |f| <= Capacity(m.state)
    requires i + |f| + 1 < |s| && s[i + |f| + 1] != ENTER
    ensures Run(s, s[i], i + 1, m)
         == Run(s, s[i + |f| + 1], i + |f| + 1 + 1, Process(Store(m, f), DELIMITER).0)
  {
    FillsField(s, i, f, DELIMITER, m);
    StepOn(s, DELIMITER, i + |f| + 1, Store(m, f));
  }

  /* The machine at the start of a call, over the freshly allocated tuple. */
  function Initial(junk0: MTupleIn): Machine {
    Machine(LeftBracket, 0, junk0)
  }

  /* What the action field holds after the characters f: the last of them, or the old
     value d when there were none. */
  function LastOr(f: seq<char>, d: char): char {
    if |f| == 0 then d else f[|f| - 1]
  }

  /* Skipping to '(' and entering the user id field. */
  lemma ReadsToUserId(s: seq<char>, pos: nat, junk0: MTupleIn, junk: seq<char>)
    requires WellSized(junk0) && NoneOf(junk, LB, ENTER)
    requires FieldAt(s, pos, junk, LB)
    requires pos + |junk| + 1 < |s| && s[pos + |junk| + 1] != ENTER
    ensures var a := pos + |junk|;
            ReadTuple(s, pos, junk0) == Run(s, s[a + 1], a + 1 + 1, Initial(junk0).(state := UserId))
  {
    var a := pos + |junk|;
    FieldStart(s, pos, junk, LB);
    SkipsToBracket(s, pos, junk, LB, Initial(junk0));
    StepOn(s, LB, a + 1, Initial(junk0));
  }

  /* The ',' after the user id: the characters read replace the front of the old user id. */
  lemma UserIdClosed(m: Machine, u: seq<char>)
    requires Consistent(m) && m.state == UserId && m.count == 0 && |u| <= LEN_USER_ID
    ensures var r := Process(Store(m, u), DELIMITER).0;
            r.state == Action && r.count == 0 && r.tuple == m.tuple.(userid := u + m.tuple.userid[|u|..])
  {
    StoreOverwrites(m, u);
    OverwriteFront(m.tuple.userid, u);
  }

  /* The ',' after the action: the action holds the last character read, if any. */
  lemma ActionClosed(m: Machine, act: seq<char>)
    requires Consistent(m) && m.state == Action && m.count == 0 && |act| <= LEN_ACTION
    ensures var r := Process(Store(m, act), DELIMITER).0;
            r.state == Topic && r.count == 0 && r.tuple == m.tuple.(action := LastOr(act, m.tuple.action))
  {
    StoreOverwrites(m, act);
  }

  /* The ')' after the topic: the topic read, space-padded, and the loop is left. */
  lemma TopicClosed(m: Machine, tp: seq<char>)
    requires Consistent(m) && m.state == Topic && m.count == 0 && |tp| <= LEN_TOPIC
    ensures Process(Store(m, tp), RB) ==
            (Machine(Topic, LEN_TOPIC, m.tuple.(topic := tp + Spaces(LEN_TOPIC - |tp|))), Complete)
  {
    StoreOverwrites(m, tp);
    PadOverwrite(m.tuple.topic, tp);
    ClosesTopic(Store(m, tp));
  }

  lemma ClosesTopic(m: Machine)
    requires Consistent(m) && m.state == Topic
    ensures Process(m, RB) == (m.(tuple := m.tuple.(topic := PadFrom(m.tuple.topic, m.count)), count := LEN_TOPIC), Complete)
  {
  }

  /* The tuple the three fields u, act and tp leave behind over the tuple t. */
  function Filled(t: MTupleIn, u: seq<char>, act: seq<char>, tp: seq<char>): MTupleIn
    requires WellSized(t) && |u| <= LEN_USER_ID && |tp| <= LEN_TOPIC
  {
    t.(userid := u + t.userid[|u|..], action := LastOr(act, t.action), topic := tp + Spaces(LEN_TOPIC - |tp|))
  }

  /* The user id field and its ',', with a character other than ENTER after it: the
     machine moves on to the action. */
  lemma ReadsUserId(s: seq<char>, i: nat, m: Machine, u: seq<char>)
    requires Consistent(m) && m.state == UserId && m.count == 0
    requires |u| <= LEN_USER_ID && NoneOf(u, DELIMITER, ENTER)
    requires FieldAt(s, i, u, DELIMITER) && i + |u| + 1 < |s| && s[i + |u| + 1] != ENTER
    ensures Run(s, s[i], i + 1, m)
         == Run(s, s[i + |u| + 1], i + |u| + 1 + 1, Machine(Action, 0, m.tuple.(userid := u + m.tuple.userid[|u|..])))
  {
    ReadsField(s, i, u, m);
    UserIdClosed(m, u);
  }

  /* The action field and its ',', with a character other than ENTER after it: the
     machine moves on to the topic. */
  lemma ReadsAction(s: seq<char>, j: nat, m: Machine, act: seq<char>)
    requires Consistent(m) && m.state == Action && m.count == 0
    requires |act| <= LEN_ACTION && NoneOf(act, DELIMITER, ENTER)
    requires FieldAt(s, j, act, DELIMITER) && j + |act| + 1 < |s| && s[j + |act| + 1] != ENTER
    ensures Run(s, s[j], j + 1, m)
         == Run(s, s[j + |act| + 1], j + |act| + 1 + 1, Machine(Topic, 0, m.tuple.(action := LastOr(act, m.tuple.action))))
  {
    ReadsField(s, j, act, m);
    ActionClosed(m, act);
  }

  /* The topic field and its ')': the loop ends with the padded topic, and the tuple is
     handed back unless the input ends right there. */
  lemma ReadsTopic(s: seq<char>, k: nat, m: Machine, tp: seq<char>)
    requires Consistent(m) && m.state == Topic && m.count == 0
    requires |tp| <= LEN_TOPIC && NoneOf(tp, RB, ENTER)
    requires FieldAt(s, k, tp, RB)
    ensures var e := k + |tp| + 1;
            Run(s, s[k], k + 1, m) ==
            if e == |s| then ReadResult(None, e)
            else ReadResult(Some(m.tuple.(topic := tp + Spaces(LEN_TOPIC - |tp|))), e + 1)
  {
    FillsField(s, k, tp, RB, m);
    TopicClosed(m, tp);
  }

  /* The action and topic fields: the loop ends after the ')' with the action and the
     padded topic stored. */
  lemma ReadsActionTopic(s: seq<char>, j: nat, m: Machine, act: seq<char>, tp: seq<char>)
    requires Consistent(m) && m.state == Action && m.count == 0
    requires |act| <= LEN_ACTION && NoneOf(act, DELIMITER, ENTER)
    requires |tp| <= LEN_TOPIC && NoneOf(tp, RB, ENTER)
    requires FieldAt(s, j, act, DELIMITER) && FieldAt(s, j + |act| + 1, tp, RB)
    ensures var e := j + |act| + 1 + |tp| + 1;
            Run(s, s[j], j + 1, m) ==
            if e == |s| then ReadResult(None, e)
            else ReadResult(Some(m.tuple.(action := LastOr(act, m.tuple.action), topic := tp + Spaces(LEN_TOPIC - |tp|))), e + 1)
  {
    var k := j + |act| + 1;
    FieldStart(s, k, tp, RB);
    ReadsAction(s, j, m, act);
    ReadsTopic(s, k, Machine(Topic, 0, m.tuple.(action := LastOr(act, m.tuple.action))), tp);
  }

  /* From the user id's first character through the ')' and the read after it. */
  lemma ReadsFields(s: seq<char>, i: nat, m: Machine, u: seq<char>, act: seq<char>, tp: seq<char>)
    requires Consistent(m) && m.state == UserId && m.count == 0
    requires |u| <= LEN_USER_ID && NoneOf(u, DELIMITER, ENTER)
    requires |act| <= LEN_ACTION && NoneOf(act, DELIMITER, ENTER)
    requires |tp| <= LEN_TOPIC && NoneOf(tp, RB, ENTER)
    requires FieldAt(s, i, u, DELIMITER) && FieldAt(s, i + |u| + 1, act, DELIMITER)
    requires FieldAt(s, i + |u| + 1 + |act| + 1, tp, RB)
    ensures var e := i + |u| + 1 + |act| + 1 + |tp| + 1;
            Run(s, s[i], i + 1, m) ==
            if e == |s| then ReadResult(None, e) else ReadResult(Some(Filled(m.tuple, u, act, tp)), e + 1)
  {
    var j := i + |u| + 1;
    FieldStart(s, j, act, DELIMITER);
    ReadsUserId(s, i, m, u);
    ReadsActionTopic(s, j, Machine(Action, 0, m.tuple.(userid := u + m.tuple.userid[|u|..])), act, tp);
  }

  /* A full field followed by one more character that is neither its terminator nor
     ENTER: that character makes the loop stop with the tuple as it stands. */
  lemma FieldOverflows(s: seq<char>, i: nat, f: seq<char>, c: char, m: Machine)
    requires Consistent(m) && m.state != LeftBracket && m.count == 0
    requires |f| == Capacity(m.state) && NoneOf(f, Terminator(m.state), ENTER)
    requires c != Terminator(m.state) && c != ENTER
    requires FieldAt(s, i, f, c) && i + |f| + 1 < |s|
    ensures Run(s, s[i], i + 1, m) == ReadResult(Some(Store(m, f).tuple), i + |f| + 1 + 1)
  {
    FillsField(s, i, f, c, m);
    Overflows(Store(m, f), c);
  }

  predicate WellFormed(junk: seq<char>, u: seq<char>, act: seq<char>, tp: seq<char>) {
    && NoneOf(junk, LB, ENTER)
    && |u| <= LEN_USER_ID && NoneOf(u, DELIMITER, ENTER)
    && |act| <= LEN_ACTION && NoneOf(act, DELIMITER, ENTER)
    && |tp| <= LEN_TOPIC && NoneOf(tp, RB, ENTER)
  }

  /* Reading a well-formed line: the parsed tuple comes back unless the input ends
     right after ')', in which case the tuple is freed and NULL is returned. */
  lemma ReadsLine(s: seq<char>, pos: nat, junk0: MTupleIn, junk: seq<char>, u: seq<char>, act: seq<char>, tp: seq<char>)
    requires WellSized(junk0) && WellFormed(junk, u, act, tp)
    requires TextAt(s, pos, TupleLine(junk, u, act, tp))
    ensures var e := pos + |TupleLine(junk, u, act, tp)|;
            ReadTuple(s, pos, junk0) ==
            if e == |s| then ReadResult(None, e) else ReadResult(Some(Filled(junk0, u, act, tp)), e + 1)
  {
    var a := pos + |junk|;
    TupleLineLayout(s, pos, junk, u, act, tp);
    FieldStart(s, a + 1, u, DELIMITER);
    ReadsToUserId(s, pos, junk0, junk);
    ReadsFields(s, a + 1, Initial(junk0).(state := UserId), u, act, tp);
  }

  /* A user id longer than LEN_USER_ID stops the parse at its extra character c, yet
     the tuple is still returned when input follows, so the caller cannot tell. */
  lemma UserIdTooLongStillReturnsTuple(s: seq<char>, pos: nat, junk0: MTupleIn, junk: seq<char>, u: seq<char>, c: char)
    requires WellSized(junk0) && NoneOf(junk, LB, ENTER)
    requires |u| == LEN_USER_ID && NoneOf(u, DELIMITER, ENTER) && c != DELIMITER && c != ENTER
    requires FieldAt(s, pos, junk, LB) && FieldAt(s, pos + |junk| + 1, u, c)
    requires pos + |junk| + 1 + |u| + 1 < |s|
    ensures ReadTuple(s, pos, junk0) == ReadResult(Some(junk0.(userid := u)), pos + |junk| + 1 + |u| + 1 + 1)
  {
    var a := pos + |junk|;
    var m := Initial(junk0).(state := UserId);
    FieldStart(s, a + 1, u, c);
    ReadsToUserId(s, pos, junk0, junk);
    FieldOverflows(s, a + 1, u, c, m);
    StoreOverwrites(m, u);
    OverwriteFront(junk0.userid, u);
    assert u + junk0.userid[|u|..] == u;
  }

  /* The same for an action field longer than LEN_ACTION: the tuple comes back with the
     last action character that fitted. */
  lemma ActionTooLongStillReturnsTuple(s: seq<char>, pos: nat, junk0: MTupleIn, junk: seq<char>,
                                       u: seq<char>, act: seq<char>, c: char)
    requires WellSized(junk0) && NoneOf(junk, LB, ENTER)
    requires |u| <= LEN_USER_ID && NoneOf(u, DELIMITER, ENTER)
    requires |act| == LEN_ACTION && NoneOf(act, DELIMITER, ENTER) && c != DELIMITER && c != ENTER
    requires FieldAt(s, pos, junk, LB) && FieldAt(s, pos + |junk| + 1, u, DELIMITER)
    requires FieldAt(s, pos + |junk| + 1 + |u| + 1, act, c)
    requires pos + |junk| + 1 + |u| + 1 + |act| + 1 < |s|
    ensures var e := pos + |junk| + 1 + |u| + 1 + |act| + 1;
            ReadTuple(s, pos, junk0) ==
            ReadResult(Some(junk0.(userid := u + junk0.userid[|u|..], action := act[LEN_ACTION - 1])), e + 1)
  {
    var a := pos + |junk|;
    var b := a + 1 + |u|;
    var m := Initial(junk0).(state := UserId);
    var m1 := Machine(Action, 0, m.tuple.(userid := u + m.tuple.userid[|u|..]));
    FieldStart(s, a + 1, u, DELIMITER);
    FieldStart(s, b + 1, act, c);
    ReadsToUserId(s, pos, junk0, junk);
    ReadsUserId(s, a + 1, m, u);
    FieldOverflows(s, b + 1, act, c, m1);
    StoreOverwrites(m1, act);
  }

  /* An action, then a full topic followed by one more character that is neither ')'
     nor ENTER: the loop stops with the action and the unpadded topic stored. */
  lemma TopicOverflows(s: seq<char>, j: nat, m: Machine, act: seq<char>, tp: seq<char>, c: char)
    requires Consistent(m) && m.state == Action && m.count == 0
    requires |act| <= LEN_ACTION && NoneOf(act, DELIMITER, ENTER)
    requires |tp| == LEN_TOPIC && NoneOf(tp, RB, ENTER) && c != RB && c != ENTER
    requires FieldAt(s, j, act, DELIMITER) && FieldAt(s, j + |act| + 1, tp, c)
    requires j + |act| + 1 + |tp| + 1 < |s|
    ensures Run(s, s[j], j + 1, m) ==
            ReadResult(Some(m.tuple.(action := LastOr(act, m.tuple.action), topic := tp)), j + |act| + 1 + |tp| + 1 + 1)
  {
    var k := j + |act| + 1;
    var m2 := Machine(Topic, 0, m.tuple.(action := LastOr(act, m.tuple.action)));
    FieldStart(s, k, tp, c);
    ReadsAction(s, j, m, act);
    FieldOverflows(s, k, tp, c, m2);
    StoreOverwrites(m2, tp);
    OverwriteFront(m2.tuple.topic, tp);
    assert tp + m2.tuple.topic[|tp|..] == tp;
  }

  /* From the user id's first character: the user id and action fields, then a topic of
     LEN_TOPIC characters followed by a character c other than ')'. */
  lemma FieldsThenTopicOverflows(s: seq<char>, i: nat, m: Machine, u: seq<char>, act: seq<char>, tp: seq<char>, c: char)
    requires Consistent(m) && m.state == UserId && m.count == 0
    requires |u| <= LEN_USER_ID && NoneOf(u, DELIMITER, ENTER)
    requires |act| <= LEN_ACTION && NoneOf(act, DELIMITER, ENTER)
    requires |tp| == LEN_TOPIC && NoneOf(tp, RB, ENTER) && c != RB && c != ENTER
    requires FieldAt(s, i, u, DELIMITER) && FieldAt(s, i + |u| + 1, act, DELIMITER)
    requires FieldAt(s, i + |u| + 1 + |act| + 1, tp, c)
    requires i + |u| + 1 + |act| + 1 + |tp| + 1 < |s|
    ensures Run(s, s[i], i + 1, m)
         == ReadResult(Some(m.tuple.(userid := u + m.tuple.userid[|u|..], action := LastOr(act, m.tuple.action), topic := tp)),
                       i + |u| + 1 + |act| + 1 + |tp| + 1 + 1)
  {
    var j := i + |u| + 1;
    FieldStart(s, j, act, DELIMITER);
    ReadsUserId(s, i, m, u);
    TopicOverflows(s, j, Machine(Action, 0, m.tuple.(userid := u + m.tuple.userid[|u|..])), act, tp, c);
  }

  /* And for a topic longer than LEN_TOPIC: the tuple comes back with the LEN_TOPIC topic
     characters that fitted, and no padding. */
  lemma TopicTooLongStillReturnsTuple(s: seq<char>, pos: nat, junk0: MTupleIn, junk: seq<char>,
                                      u: seq<char>, act: seq<char>, tp: seq<char>, c: char)
    requires WellSized(junk0) && NoneOf(junk, LB, ENTER)
    requires |u| <= LEN_USER_ID && NoneOf(u, DELIMITER, ENTER)
    requires |act| <= LEN_ACTION && NoneOf(act, DELIMITER, ENTER)
    requires |tp| == LEN_TOPIC && NoneOf(tp, RB, ENTER) && c != RB && c != ENTER
    requires FieldAt(s, pos, junk, LB) && FieldAt(s, pos + |junk| + 1, u, DELIMITER)
    requires FieldAt(s, pos + |junk| + 1 + |u| + 1, act, DELIMITER)
    requires FieldAt(s, pos + |junk| + 1 + |u| + 1 + |act| + 1, tp, c)
    requires pos + |junk| + 1 + |u| + 1 + |act| + 1 + |tp| + 1 < |s|
    ensures var e := pos + |junk| + 1 + |u| + 1 + |act| + 1 + |tp| + 1;
            var t := junk0.(userid := u + junk0.userid[|u|..], action := LastOr(act, junk0.action), topic := tp);
            ReadTuple(s, pos, junk0) == ReadResult(Some(t), e + 1)
  {
    var a := pos + |junk|;
    FieldStart(s, a + 1, u, DELIMITER);
    ReadsToUserId(s, pos, junk0, junk);
    FieldsThenTopicOverflows(s, a + 1, Initial(junk0).(state := UserId), u, act, tp, c);
  }

  /* The line of that example is well formed. */
  lemma HistoryLineWellFormed()
    ensures WellFormed([], "1111", "P", "history")
  {
    assert NoneOf("1111", DELIMITER, ENTER);
    assert NoneOf("P", DELIMITER, ENTER);
    assert NoneOf("history", RB, ENTER);
  }

  /* The example of hw2/combiner.c: "(1111,P,history)" followed by a newline maps to
     user 1111, topic "history" padded to LEN_TOPIC, weight 50. */
  /* Its topic padded to LEN_TOPIC. */
  lemma HistoryTopicPadded()
    ensures "history" + Spaces(LEN_TOPIC - 7) == "history        "
  {
    var t := "history" + Spaces(LEN_TOPIC - 7);
    forall i | 7 <= i < LEN_TOPIC
      ensures t[i] == ' '
    {
    }
  }

  lemma ExampleHistory(junk0: MTupleIn, out0: MTupleOut)
    requires WellSized(junk0) && TupleReader.WellSized(out0)
    ensures var s := "(1111,P,history)\n";
            var r := ReadTuple(s, 0, junk0);
            && r.tuple.Some? && r.next == |s|
            && r.tuple.value.userid == "1111" && r.tuple.value.action == 'P'
            && r.tuple.value.topic == "history        "
            && MapSpec(r.tuple.value, out0) == (out0.(error := 0, weight := 50, topic := "history        ", userid := "1111"), 0)
  {
    var s := "(1111,P,history)\n";
    var L := TupleLine([], "1111", "P", "history");
    assert [] + [LB] + "1111" == "(1111";
    assert "(1111" + [DELIMITER] + "P" == "(1111,P";
    assert "(1111,P" + [DELIMITER] + "history" == "(1111,P,history";
    assert s == [] + L + "\n";
    TextAtWithin([], L, "\n");
    HistoryLineWellFormed();
    ReadsLine(s, 0, junk0, [], "1111", "P", "history");
    var p := Filled(junk0, "1111", "P", "history");
    assert ReadTuple(s, 0, junk0) == ReadResult(Some(p), |s|);
    assert p.userid == "1111";
    HistoryTopicPadded();
    assert RuleWeight(p.action) == Some(50);
    assert MapSpec(p, out0) == (out0.(error := 0, weight := 50, topic := p.topic, userid := p.userid), 0);
  }
}

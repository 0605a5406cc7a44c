/*
 * The reducer's tuple reader: `console_tuple_read` in hw1/reducer.c, copied as
 * `r_console_tuple_read` in hw2/reducer.c.  It reads "(userid,topic,weight)" from
 * standard input one character at a time, driven by a state variable, and fills a
 * caller-owned tuple.  The struct passed by pointer is modelled as a value that goes
 * in and comes back out; standard input is a character sequence with a cursor.
 */
module TupleReader {
  import opened Text

  /* tupleIn_t of hw1/reducer.c (rTupleIn_t of hw2/reducer.h without its list links). */
  datatype Tuple = Tuple(error: int, userid: seq<char>, topic: seq<char>, weight: int)

  predicate WellSized(t: Tuple) {
    |t.userid| == LEN_USER_ID && |t.topic| == LEN_TOPIC
  }

  /* The states the loop can be in (E_RIGHT_BRACKET is never entered). */
  datatype State = LeftBracket | UserId | Topic | Weight

  /* Everything the loop keeps besides the input: state, charCount, the tuple and tempWeight.
     tempWeight[3] has no NUL terminator, so atoi may read on past it: the field holds the
     three bytes of the array followed by the bytes that come after it in memory. */
  datatype Machine = Machine(state: State, count: nat, tuple: Tuple, tempWeight: seq<char>)

  /* What one pass through the switch decides: go on, exitLoop = 1, or error = -1. */
  datatype Outcome = Continue | Complete | Failed

  /* LEN_WEIGHT is not fixed by the headers; `lenW` stands for it and must fit tempWeight[3]. */
  predicate Consistent(m: Machine, lenW: nat) {
    && WellSized(m.tuple)
    && |m.tempWeight| >= 3
    && lenW <= 3
    && match m.state
       case LeftBracket => m.count == 0
       case UserId => m.count <= LEN_USER_ID
       case Topic => m.count <= LEN_TOPIC
       case Weight => m.count <= lenW
  }

  const INITIAL_WEIGHT: seq<char> := ['X', 'X', 'X']

  /* One pass of the switch on the character c. */
  function Process(m: Machine, c: char, lenW: nat): (r: (Machine, Outcome))
    requires Consistent(m, lenW)
    ensures Consistent(r.0, lenW)
  {
    match m.state
    case LeftBracket =>
      if c == LB then (m.(state := UserId), Continue) else (m, Continue)
    case UserId =>
      if c == DELIMITER then (m.(state := Topic, count := 0), Continue)
      else if m.count == LEN_USER_ID then (m, Failed)
      else (m.(tuple := m.tuple.(userid := m.tuple.userid[m.count := c]), count := m.count + 1), Continue)
    case Topic =>
      if c == DELIMITER then
        (m.(tuple := m.tuple.(topic := PadFrom(m.tuple.topic, m.count)),
            state := Weight, count := 0), Continue)
      else if m.count == LEN_TOPIC then (m, Failed)
      else (m.(tuple := m.tuple.(topic := m.tuple.topic[m.count := c]), count := m.count + 1), Continue)
    case Weight =>
      if c == RB then (m.(tuple := m.tuple.(weight := Atoi(m.tempWeight), error := 0)), Complete)
      else if m.count == lenW then (m, Failed)
      else (m.(tempWeight := m.tempWeight[m.count := c], count := m.count + 1), Continue)
  }

  /* The value returned, the tuple as left behind, and the input cursor afterwards. */
  datatype ReadResult = ReadResult(ret: int, tuple: Tuple, next: nat)

  /* The rest of the loop once `c` has been read and the cursor stands at `cur`:
     process c, read the next character, stop on exitLoop, error, EOF or ENTER. */
  function Run(s: seq<char>, lenW: nat, c: char, cur: nat, m: Machine): (r: ReadResult)
    requires cur <= |s| && Consistent(m, lenW)
    ensures WellSized(r.tuple) && cur <= r.next <= |s|
    ensures r.ret == 0 || r.ret == -1
    ensures r.ret == 0 ==> cur < r.next
    decreases |s| - cur
  {
    var (m', o) := Process(m, c, lenW);
    if cur == |s| then ReadResult(-1, m'.tuple, cur)
    else if o == Failed then ReadResult(-1, m'.tuple, cur + 1)
    else if o == Complete then ReadResult(0, m'.tuple, cur + 1)
    else if s[cur] == ENTER then ReadResult(0, m'.tuple, cur + 1)
    else Run(s, lenW, s[cur], cur + 1, m')
  }

  /* A whole call of the reader on input `s` with the cursor at `pos`; t0 is what the
     caller's struct held before, and `after` the bytes that follow tempWeight in memory
     (atoi stops at the end of `after` if it gets that far). */
  function ReadTuple(s: seq<char>, lenW: nat, after: seq<char>, pos: nat, t0: Tuple): (r: ReadResult)
    requires pos <= |s| && WellSized(t0) && lenW <= 3
    ensures WellSized(r.tuple) && pos <= r.next <= |s|
    ensures r.ret == 0 || r.ret == -1
    ensures r.ret == 0 ==> pos < r.next
  {
    var t := t0.(error := -1);
    var (c, cur) := GetChar(s, pos);
    if c == ENTER then ReadResult(0, t, cur)
    else Run(s, lenW, c, cur, Machine(LeftBracket, 0, t, INITIAL_WEIGHT + after))
  }

  /* The C loop itself. */
  /* The body of the C switch: one character handled in the current state.  Reaching
     the ',' after the topic pads the rest of the topic with spaces in place. */
  method HandleChar(state: State, charCount: nat, tuple: Tuple, tempWeight: seq<char>, nextChar: char, lenW: nat)
    returns (state': State, charCount': nat, tuple': Tuple, tempWeight': seq<char>, outcome: Outcome)
    requires Consistent(Machine(state, charCount, tuple, tempWeight), lenW)
    ensures (Machine(state', charCount', tuple', tempWeight'), outcome)
         == Process(Machine(state, charCount, tuple, tempWeight), nextChar, lenW)
  {
    state', charCount', tuple', tempWeight', outcome := state, charCount, tuple, tempWeight, Continue;
    match state {
      case LeftBracket =>
        if nextChar == LB {
          state' := UserId;
        }
      case UserId =>
        if nextChar == DELIMITER {
          state' := Topic;
          charCount' := 0;
        } else if charCount == LEN_USER_ID {
          outcome := Failed;
        } else {
          tuple' := tuple.(userid := tuple.userid[charCount := nextChar]);
          charCount' := charCount + 1;
        }
      case Topic =>
        if nextChar == DELIMITER {
          while charCount' < LEN_TOPIC
            invariant charCount <= charCount' <= LEN_TOPIC && |tuple'.topic| == LEN_TOPIC
            invariant tuple' == tuple.(topic := tuple'.topic)
            invariant PadFrom(tuple'.topic, charCount') == PadFrom(tuple.topic, charCount)
          {
            tuple' := tuple'.(topic := tuple'.topic[charCount' := SPACE]);
            charCount' := charCount' + 1;
          }
          state' := Weight;
          charCount' := 0;
        } else if charCount == LEN_TOPIC {
          outcome := Failed;
        } else {
          tuple' := tuple.(topic := tuple.topic[charCount := nextChar]);
          charCount' := charCount + 1;
        }
      case Weight =>
        if nextChar == RB {
          tuple' := tuple.(weight := Atoi(tempWeight), error := 0);
          outcome := Complete;
        } else if charCount == lenW {
          outcome := Failed;
        } else {
          tempWeight' := tempWeight[charCount := nextChar];
          charCount' := charCount + 1;
        }
    }
  }

  /* The C loop itself: the switch, then the next getchar and the EOF test. */
  method ConsoleTupleRead(s: seq<char>, pos: nat, lenW: nat, after: seq<char>, t0: Tuple) returns (ret: int, tuple: Tuple, next: nat)
    requires pos <= |s| && WellSized(t0) && lenW <= 3
    ensures ReadResult(ret, tuple, next) == ReadTuple(s, lenW, after, pos, t0)
  {
    ghost var goal := ReadTuple(s, lenW, after, pos, t0);
    var exitLoop := false;
    var error := 0;
    var charCount: nat := 0;
    var state := LeftBracket;
    var nextChar, cur := GetChar(s, pos).0, GetChar(s, pos).1;
    var tempWeight := INITIAL_WEIGHT + after;
    tuple := t0.(error := -1);

    while !exitLoop && error != -1 && nextChar != ENTER
      invariant cur <= |s|
      invariant Consistent(Machine(state, charCount, tuple, tempWeight), lenW)
      invariant error == 0 || error == -1
      invariant !exitLoop && error != -1 && nextChar != ENTER ==>
        Run(s, lenW, nextChar, cur, Machine(state, charCount, tuple, tempWeight)) == goal
      invariant exitLoop || error == -1 || nextChar == ENTER ==> ReadResult(error, tuple, cur) == goal
      decreases |s| - cur, if exitLoop || error == -1 then 0 else 1
    {
      ghost var m0 := Machine(state, charCount, tuple, tempWeight);
      ghost var c0, cur0 := nextChar, cur;
      var outcome;
      state, charCount, tuple, tempWeight, outcome := HandleChar(state, charCount, tuple, tempWeight, nextChar, lenW);
      if outcome == Failed {
        error := -1;
      } else if outcome == Complete {
        exitLoop := true;
      }
      assert Run(s, lenW, c0, cur0, m0) == goal;
      var atEof := cur == |s|;
      nextChar, cur := GetChar(s, cur).0, GetChar(s, cur).1;
      if atEof {
        error := -1;
      }
    }
    ret := error;
    next := cur;
  }

  /* ---------------------------------------------------------------------------
   * Lemmas about the reader.
   * ------------------------------------------------------------------------- */

  /* The character that ends the field being read in each state. */
  function Terminator(st: State): char {
    match st
    case LeftBracket => LB
    case UserId => DELIMITER
    case Topic => DELIMITER
    case Weight => RB
  }

  function Capacity(st: State, lenW: nat): nat {
    match st
    case LeftBracket => 0
    case UserId => LEN_USER_ID
    case Topic => LEN_TOPIC
    case Weight => lenW
  }

  /* One character stored into the current field. */
  function Put(m: Machine, c: char, lenW: nat): (r: Machine)
    requires Consistent(m, lenW) && m.state != LeftBracket && m.count < Capacity(m.state, lenW)
    ensures Consistent(r, lenW) && r.state == m.state && r.count == m.count + 1
  {
    match m.state
    case UserId => m.(tuple := m.tuple.(userid := m.tuple.userid[m.count := c]), count := m.count + 1)
    case Topic => m.(tuple := m.tuple.(topic := m.tuple.topic[m.count := c]), count := m.count + 1)
    case Weight => m.(tempWeight := m.tempWeight[m.count := c], count := m.count + 1)
  }

  /* The machine after the characters `chars` were stored one by one into the current field. */
  function Store(m: Machine, chars: seq<char>, lenW: nat): (r: Machine)
    requires Consistent(m, lenW) && m.state != LeftBracket
    requires m.count + |chars| <= Capacity(m.state, lenW)
    ensures Consistent(r, lenW) && r.state == m.state && r.count == m.count + |chars|
    decreases |chars|
  {
    if |chars| == 0 then m else Store(Put(m, chars[0], lenW), chars[1..], lenW)
  }

  /* The same machine described all at once: the characters overwrite the field from count on. */
  function Written(m: Machine, chars: seq<char>, lenW: nat): Machine
    requires Consistent(m, lenW) && m.state != LeftBracket
    requires m.count + |chars| <= Capacity(m.state, lenW)
  {
    var n := m.count + |chars|;
    match m.state
    case UserId => m.(tuple := m.tuple.(userid := Overwrite(m.tuple.userid, m.count, chars)), count := n)
    case Topic => m.(tuple := m.tuple.(topic := Overwrite(m.tuple.topic, m.count, chars)), count := n)
    case Weight => m.(tempWeight := Overwrite(m.tempWeight, m.count, chars), count := n)
  }

  lemma {:induction false} StoreOverwrites(m: Machine, chars: seq<char>, lenW: nat)
    requires Consistent(m, lenW) && m.state != LeftBracket
    requires m.count + |chars| <= Capacity(m.state, lenW)
    ensures Store(m, chars, lenW) == Written(m, chars, lenW)
    decreases |chars|
  {
    if |chars| == 0 {
      match m.state
      case UserId => OverwriteNothing(m.tuple.userid, m.count);
      case Topic => OverwriteNothing(m.tuple.topic, m.count);
      case Weight => OverwriteNothing(m.tempWeight, m.count);
    } else {
      var m' := Put(m, chars[0], lenW);
      StoreOverwrites(m', chars[1..], lenW);
      var n := m.count;
      match m.state
      case UserId => OverwriteStep(m.tuple.userid, n, chars);
      case Topic => OverwriteStep(m.tuple.topic, n, chars);
      case Weight => OverwriteStep(m.tempWeight, n, chars);
    }
  }

  /* Characters before the first '(' are skipped: the machine is unchanged until x. */
  lemma {:induction false} SkipsToBracket(s: seq<char>, lenW: nat, i: nat, junk: seq<char>, x: char, m: Machine)
    requires Consistent(m, lenW) && m.state == LeftBracket
    requires FieldAt(s, i, junk, x) && x != ENTER && NoneOf(junk, LB, ENTER)
    ensures Run(s, lenW, s[i], i + 1, m) == Run(s, lenW, x, i + |junk| + 1, m)
    decreases |junk|
  {
    FieldStart(s, i, junk, x);
    if |junk| > 0 {
      FieldRest(s, i, junk, x);
      FieldStart(s, i + 1, junk[1..], x);
      SkipsToBracket(s, lenW, i + 1, junk[1..], x, m);
      assert i + 1 + |junk[1..]| + 1 == i + |junk| + 1;
    }
  }

  /* Inside a field, characters that are neither its terminator nor ENTER are stored
     one after the other while there is room. */
  lemma {:induction false} FillsField(s: seq<char>, lenW: nat, i: nat, f: seq<char>, x: char, m: Machine)
    requires Consistent(m, lenW) && m.state != LeftBracket
    requires FieldAt(s, i, f, x) && x != ENTER
    requires m.count + |f| <= Capacity(m.state, lenW)
    requires NoneOf(f, Terminator(m.state), ENTER)
    ensures Run(s, lenW, s[i], i + 1, m) == Run(s, lenW, x, i + |f| + 1, Store(m, f, lenW))
    decreases |f|
  {
    FieldStart(s, i, f, x);
    if |f| > 0 {
      var m' := Put(m, f[0], lenW);
      Stores(m, f[0], lenW);
      FieldRest(s, i, f, x);
      FieldStart(s, i + 1, f[1..], x);
      StepOn(s, lenW, f[0], i + 1, m);
      FillsField(s, lenW, i + 1, f[1..], x, m');
      assert i + 1 + |f[1..]| + 1 == i + |f| + 1;
      assert Store(m, f, lenW) == Store(m', f[1..], lenW);
    }
  }

  /* A character that is neither the field's terminator nor ENTER is stored while there is room. */
  lemma Stores(m: Machine, c: char, lenW: nat)
    requires Consistent(m, lenW) && m.state != LeftBracket && m.count < Capacity(m.state, lenW)
    requires c != Terminator(m.state)
    ensures Process(m, c, lenW) == (Put(m, c, lenW), Continue)
  {
  }

  /* A character that does not stop the loop: process it and carry on with s[i]. */
  lemma StepOn(s: seq<char>, lenW: nat, c: char, i: nat, m: Machine)
    requires Consistent(m, lenW) && i < |s| && s[i] != ENTER
    requires Process(m, c, lenW).1 == Continue
    ensures Run(s, lenW, c, i, m) == Run(s, lenW, s[i], i + 1, Process(m, c, lenW).0)
  {
  }

  /* A whole field and its terminator, with a character other than ENTER after it. */
  lemma ReadsField(s: seq<char>, lenW: nat, i: nat, f: seq<char>, m: Machine)
    requires Consistent(m, lenW) && (m.state == UserId || m.state == Topic)
    requires FieldAt(s, i, f, DELIMITER) && NoneOf(f, DELIMITER, ENTER)
    requires m.count + |f| <= Capacity(m.state, lenW)
    requires i + |f| + 1 < |s| && s[i + |f| + 1] != ENTER
    ensures Run(s, lenW, s[i], i + 1, m)
         == Run(s, lenW, s[i + |f| + 1], i + |f| + 1 + 1, Process(Store(m, f, lenW), DELIMITER, lenW).0)
  {
    FillsField(s, lenW, i, f, DELIMITER, m);
    StepOn(s, lenW, DELIMITER, i + |f| + 1, Store(m, f, lenW));
  }

  /* The machine at the start of a call: error already -1, tempWeight "XXX". */
  function Initial(t0: Tuple, after: seq<char>): Machine {
    Machine(LeftBracket, 0, t0.(error := -1), INITIAL_WEIGHT + after)
  }

  /* Skipping to '(' and entering the user id field, whose first character is at a + 1. */
  lemma ReadsToUserId(s: seq<char>, lenW: nat, after: seq<char>, pos: nat, t0: Tuple, junk: seq<char>)
    requires WellSized(t0) && lenW <= 3 && NoneOf(junk, LB, ENTER)
    requires FieldAt(s, pos, junk, LB)
    requires pos + |junk| + 1 < |s| && s[pos + |junk| + 1] != ENTER
    ensures var a := pos + |junk|;
            ReadTuple(s, lenW, after, pos, t0) == Run(s, lenW, s[a + 1], a + 1 + 1, Initial(t0, after).(state := UserId))
  {
    var a := pos + |junk|;
    FieldStart(s, pos, junk, LB);
    SkipsToBracket(s, lenW, pos, junk, LB, Initial(t0, after));
    StepOn(s, lenW, LB, a + 1, Initial(t0, after));
  }

  /* The ',' after the user id: the characters read replace the front of the old user id. */
  lemma UserIdClosed(m: Machine, u: seq<char>, lenW: nat)
    requires Consistent(m, lenW) && m.state == UserId && m.count == 0 && |u| <= LEN_USER_ID
    ensures Process(Store(m, u, lenW), DELIMITER, lenW).0
         == Machine(Topic, 0, m.tuple.(userid := u + m.tuple.userid[|u|..]), m.tempWeight)
  {
    StoreOverwrites(m, u, lenW);
    OverwriteFront(m.tuple.userid, u);
  }

  /* The ',' after the topic: the topic read, padded with spaces. */
  lemma TopicClosed(m: Machine, tp: seq<char>, lenW: nat)
    requires Consistent(m, lenW) && m.state == Topic && m.count == 0 && |tp| <= LEN_TOPIC
    ensures Process(Store(m, tp, lenW), DELIMITER, lenW).0
         == Machine(Weight, 0, m.tuple.(topic := tp + Spaces(LEN_TOPIC - |tp|)), m.tempWeight)
  {
    StoreOverwrites(m, tp, lenW);
    PadOverwrite(m.tuple.topic, tp);
  }

  /* The weight atoi reads once w has overwritten the front of tempWeight (and what follows it). */
  function WeightOf(w: seq<char>, tempWeight: seq<char>): int
    requires |w| <= |tempWeight|
  {
    Atoi(w + tempWeight[|w|..])
  }

  /* The ')' after the weight: atoi of the weight buffer, error 0, and the loop is left. */
  lemma WeightClosed(m: Machine, w: seq<char>, lenW: nat)
    requires Consistent(m, lenW) && m.state == Weight && m.count == 0 && |w| <= lenW
    ensures var buf := w + m.tempWeight[|w|..];
            Process(Store(m, w, lenW), RB, lenW) == (Machine(Weight, |w|, m.tuple.(weight := WeightOf(w, m.tempWeight), error := 0), buf), Complete)
  {
    StoreOverwrites(m, w, lenW);
    OverwriteFront(m.tempWeight, w);
  }

  /* The user id field and its ',', with a character other than ENTER after it. */
  lemma ReadsUserId(s: seq<char>, lenW: nat, i: nat, m: Machine, u: seq<char>)
    requires Consistent(m, lenW) && m.state == UserId && m.count == 0
    requires |u| <= LEN_USER_ID && NoneOf(u, DELIMITER, ENTER)
    requires FieldAt(s, i, u, DELIMITER) && i + |u| + 1 < |s| && s[i + |u| + 1] != ENTER
    ensures Run(s, lenW, s[i], i + 1, m)
         == Run(s, lenW, s[i + |u| + 1], i + |u| + 1 + 1,
                Machine(Topic, 0, m.tuple.(userid := u + m.tuple.userid[|u|..]), m.tempWeight))
  {
    ReadsField(s, lenW, i, u, m);
    UserIdClosed(m, u, lenW);
  }

  /* The topic field and its ',', with a character other than ENTER after it. */
  lemma ReadsTopic(s: seq<char>, lenW: nat, j: nat, m: Machine, tp: seq<char>)
    requires Consistent(m, lenW) && m.state == Topic && m.count == 0
    requires |tp| <= LEN_TOPIC && NoneOf(tp, DELIMITER, ENTER)
    requires FieldAt(s, j, tp, DELIMITER) && j + |tp| + 1 < |s| && s[j + |tp| + 1] != ENTER
    ensures Run(s, lenW, s[j], j + 1, m)
         == Run(s, lenW, s[j + |tp| + 1], j + |tp| + 1 + 1,
                Machine(Weight, 0, m.tuple.(topic := tp + Spaces(LEN_TOPIC - |tp|)), m.tempWeight))
  {
    ReadsField(s, lenW, j, tp, m);
    TopicClosed(m, tp, lenW);
  }

  /* The weight field and its ')': the loop ends with the weight converted, and the call
     returns 0 unless the input ends right there. */
  lemma ReadsWeight(s: seq<char>, lenW: nat, k: nat, m: Machine, w: seq<char>)
    requires Consistent(m, lenW) && m.state == Weight && m.count == 0
    requires |w| <= lenW && NoneOf(w, RB, ENTER)
    requires FieldAt(s, k, w, RB)
    ensures var e := k + |w| + 1;
            var t := m.tuple.(weight := WeightOf(w, m.tempWeight), error := 0);
            Run(s, lenW, s[k], k + 1, m) == if e == |s| then ReadResult(-1, t, e) else ReadResult(0, t, e + 1)
  {
    FillsField(s, lenW, k, w, RB, m);
    WeightClosed(m, w, lenW);
  }

  /* The topic and weight fields through the ')'. */
  lemma ReadsTopicWeight(s: seq<char>, lenW: nat, j: nat, m: Machine, tp: seq<char>, w: seq<char>)
    requires Consistent(m, lenW) && m.state == Topic && m.count == 0
    requires |tp| <= LEN_TOPIC && NoneOf(tp, DELIMITER, ENTER)
    requires |w| <= lenW && NoneOf(w, RB, ENTER)
    requires FieldAt(s, j, tp, DELIMITER) && FieldAt(s, j + |tp| + 1, w, RB)
    ensures var e := j + |tp| + 1 + |w| + 1;
            var t := m.tuple.(topic := tp + Spaces(LEN_TOPIC - |tp|), weight := WeightOf(w, m.tempWeight), error := 0);
            Run(s, lenW, s[j], j + 1, m) == if e == |s| then ReadResult(-1, t, e) else ReadResult(0, t, e + 1)
  {
    var k := j + |tp| + 1;
    FieldStart(s, k, w, RB);
    ReadsTopic(s, lenW, j, m, tp);
    ReadsWeight(s, lenW, k, Machine(Weight, 0, m.tuple.(topic := tp + Spaces(LEN_TOPIC - |tp|)), m.tempWeight), w);
  }

  /* From the user id's first character through the ')' and the read after it. */
  lemma ReadsFields(s: seq<char>, lenW: nat, i: nat, m: Machine, u: seq<char>, tp: seq<char>, w: seq<char>)
    requires Consistent(m, lenW) && m.state == UserId && m.count == 0
    requires |u| <= LEN_USER_ID && NoneOf(u, DELIMITER, ENTER)
    requires |tp| <= LEN_TOPIC && NoneOf(tp, DELIMITER, ENTER)
    requires |w| <= lenW && NoneOf(w, RB, ENTER)
    requires FieldAt(s, i, u, DELIMITER) && FieldAt(s, i + |u| + 1, tp, DELIMITER)
    requires FieldAt(s, i + |u| + 1 + |tp| + 1, w, RB)
    ensures var e := i + |u| + 1 + |tp| + 1 + |w| + 1;
            var t := m.tuple.(userid := u + m.tuple.userid[|u|..], topic := tp + Spaces(LEN_TOPIC - |tp|),
                              weight := WeightOf(w, m.tempWeight), error := 0);
            Run(s, lenW, s[i], i + 1, m) == if e == |s| then ReadResult(-1, t, e) else ReadResult(0, t, e + 1)
  {
    var j := i + |u| + 1;
    FieldStart(s, j, tp, DELIMITER);
    ReadsUserId(s, lenW, i, m, u);
    ReadsTopicWeight(s, lenW, j, Machine(Topic, 0, m.tuple.(userid := u + m.tuple.userid[|u|..]), m.tempWeight), tp, w);
  }

  /* A full field followed by one more character that is neither its terminator nor
     ENTER: the call fails with the tuple as it stands. */
  lemma FieldOverflows(s: seq<char>, lenW: nat, i: nat, f: seq<char>, c: char, m: Machine)
    requires Consistent(m, lenW) && m.state != LeftBracket && m.count == 0
    requires |f| == Capacity(m.state, lenW) && NoneOf(f, Terminator(m.state), ENTER)
    requires c != Terminator(m.state) && c != ENTER
    requires FieldAt(s, i, f, c)
    ensures var r := Run(s, lenW, s[i], i + 1, m);
            r.ret == -1 && r.tuple == Store(m, f, lenW).tuple
  {
    FillsField(s, lenW, i, f, c, m);
  }

  /* ENTER right after the characters f of a field: the call ends with 0 and the tuple
     as the field left it. */
  lemma {:induction false} NewlineEndsField(s: seq<char>, lenW: nat, i: nat, f: seq<char>, m: Machine)
    requires Consistent(m, lenW) && m.state != LeftBracket
    requires 0 < |f| && m.count + |f| <= Capacity(m.state, lenW)
    requires NoneOf(f, Terminator(m.state), ENTER)
    requires FieldAt(s, i, f, ENTER)
    ensures Run(s, lenW, s[i], i + 1, m) == ReadResult(0, Store(m, f, lenW).tuple, i + |f| + 1)
    decreases |f|
  {
    FieldStart(s, i, f, ENTER);
    var m' := Put(m, f[0], lenW);
    Stores(m, f[0], lenW);
    assert Store(m, f, lenW) == Store(m', f[1..], lenW);
    FieldRest(s, i, f, ENTER);
    if |f| > 1 {
      FieldStart(s, i + 1, f[1..], ENTER);
      StepOn(s, lenW, f[0], i + 1, m);
      NewlineEndsField(s, lenW, i + 1, f[1..], m');
    } else {
      assert s[i + 1] == ENTER;
    }
  }

  /* The fields of a line fit their buffers and hold none of the characters that end them. */
  predicate WellFormed(junk: seq<char>, u: seq<char>, tp: seq<char>, w: seq<char>, lenW: nat) {
    && NoneOf(junk, LB, ENTER)
    && |u| <= LEN_USER_ID && NoneOf(u, DELIMITER, ENTER)
    && |tp| <= LEN_TOPIC && NoneOf(tp, DELIMITER, ENTER)
    && |w| <= lenW && NoneOf(w, RB, ENTER)
  }

  /* The tuple a well-formed line leaves behind: userid characters stored over the old
     ones, the topic space-padded, the weight atoi of the 'X'-filled buffer and the bytes
     after it, error 0. */
  function Parsed(t0: Tuple, u: seq<char>, tp: seq<char>, w: seq<char>, after: seq<char>): Tuple
    requires WellSized(t0) && |u| <= LEN_USER_ID && |tp| <= LEN_TOPIC && |w| <= 3
  {
    Tuple(0, u + t0.userid[|u|..], tp + Spaces(LEN_TOPIC - |tp|), WeightOf(w, INITIAL_WEIGHT + after))
  }

  /* A weight shorter than the buffer leaves an 'X' behind it, which stops atoi inside
     tempWeight: the bytes after the buffer play no part. */
  lemma ShortWeightStaysInBuffer(w: seq<char>, after: seq<char>)
    requires |w| < 3
    ensures WeightOf(w, INITIAL_WEIGHT + after) == Atoi(w + ['X'])
  {
    var a := w + ['X'];
    var rest := INITIAL_WEIGHT[|w| + 1..];
    ShortWeightLayout(w, after);
    AtoiStopsAt(a, rest + after);
    AtoiStopsAt(a, rest);
  }

  /* The memory atoi reads for a short weight: the weight, an 'X', the rest of the buffer
     and the bytes after it. */
  lemma ShortWeightLayout(w: seq<char>, after: seq<char>)
    requires |w| < 3
    ensures w + (INITIAL_WEIGHT + after)[|w|..] == (w + ['X']) + (INITIAL_WEIGHT[|w| + 1..] + after)
    ensures w + INITIAL_WEIGHT[|w|..] == (w + ['X']) + INITIAL_WEIGHT[|w| + 1..]
  {
    assert (INITIAL_WEIGHT + after)[|w|..] == ['X'] + INITIAL_WEIGHT[|w| + 1..] + after;
  }

  /* A weight of three characters fills tempWeight, and atoi reads on into the bytes
     after it: "-10", the D rule's weight, reads as -10 only if a non-digit follows. */
  lemma FullWeightReadsPastBuffer()
    ensures WeightOf("-10", INITIAL_WEIGHT + "X") == -10
    ensures WeightOf("-10", INITIAL_WEIGHT + "5X") == -105
  {
    assert "-10" + (INITIAL_WEIGHT + "X")[3..] == ['-'] + "10" + "X";
    AtoiDigits("10", "X");
    assert "-10" + (INITIAL_WEIGHT + "5X")[3..] == ['-'] + "105" + "X";
    AtoiDigits("105", "X");
  }

  /* Reading up to and including the closing ')' of a well-formed line. */
  lemma ReadsToClose(s: seq<char>, lenW: nat, after: seq<char>, pos: nat, t0: Tuple,
                     junk: seq<char>, u: seq<char>, tp: seq<char>, w: seq<char>)
    requires WellSized(t0) && lenW <= 3 && WellFormed(junk, u, tp, w, lenW)
    requires FieldAt(s, pos, junk, LB) && FieldAt(s, pos + |junk| + 1, u, DELIMITER)
    requires FieldAt(s, pos + |junk| + 1 + |u| + 1, tp, DELIMITER)
    requires FieldAt(s, pos + |junk| + 1 + |u| + 1 + |tp| + 1, w, RB)
    ensures var e := pos + |junk| + 1 + |u| + 1 + |tp| + 1 + |w| + 1;
            ReadTuple(s, lenW, after, pos, t0) ==
            if e == |s| then ReadResult(-1, Parsed(t0, u, tp, w, after), e) else ReadResult(0, Parsed(t0, u, tp, w, after), e + 1)
  {
    var a := pos + |junk|;
    FieldStart(s, a + 1, u, DELIMITER);
    ReadsToUserId(s, lenW, after, pos, t0, junk);
    ReadsFields(s, lenW, a + 1, Initial(t0, after).(state := UserId), u, tp, w);
  }

  /* A well-formed line followed by any character: return 0, tuple filled, error 0, and the
     character after ')' consumed. */
  lemma ReadsWellFormedLine(s: seq<char>, lenW: nat, after: seq<char>, pos: nat, t0: Tuple,
                            junk: seq<char>, u: seq<char>, tp: seq<char>, w: seq<char>)
    requires WellSized(t0) && lenW <= 3 && WellFormed(junk, u, tp, w, lenW)
    requires TextAt(s, pos, TupleLine(junk, u, tp, w)) && pos + |TupleLine(junk, u, tp, w)| < |s|
    ensures ReadTuple(s, lenW, after, pos, t0) == ReadResult(0, Parsed(t0, u, tp, w, after), pos + |TupleLine(junk, u, tp, w)| + 1)
    ensures |w| < 3 ==> ReadTuple(s, lenW, after, pos, t0).tuple.weight == Atoi(w + ['X'])
  {
    TupleLineLayout(s, pos, junk, u, tp, w);
    ReadsToClose(s, lenW, after, pos, t0, junk, u, tp, w);
    if |w| < 3 {
      ShortWeightStaysInBuffer(w, after);
    }
  }

  /* End of input right after ')': the tuple is filled (error 0) but the call returns -1. */
  lemma EofAfterCloseFails(s: seq<char>, lenW: nat, after: seq<char>, pos: nat, t0: Tuple,
                           junk: seq<char>, u: seq<char>, tp: seq<char>, w: seq<char>)
    requires WellSized(t0) && lenW <= 3 && WellFormed(junk, u, tp, w, lenW)
    requires TextAt(s, pos, TupleLine(junk, u, tp, w)) && pos + |TupleLine(junk, u, tp, w)| == |s|
    ensures ReadTuple(s, lenW, after, pos, t0) == ReadResult(-1, Parsed(t0, u, tp, w, after), |s|)
  {
    TupleLineLayout(s, pos, junk, u, tp, w);
    ReadsToClose(s, lenW, after, pos, t0, junk, u, tp, w);
  }

  /* ENTER before any '(' ends the call with 0 while the tuple's error stays -1. */
  lemma NewlineBeforeTuple(s: seq<char>, lenW: nat, after: seq<char>, pos: nat, t0: Tuple, junk: seq<char>)
    requires WellSized(t0) && lenW <= 3 && NoneOf(junk, LB, ENTER)
    requires FieldAt(s, pos, junk, ENTER)
    ensures ReadTuple(s, lenW, after, pos, t0) == ReadResult(0, t0.(error := -1), pos + |junk| + 1)
  {
    FieldStart(s, pos, junk, ENTER);
    if |junk| > 0 {
      var n := |junk| - 1;
      TextPrefix(s, pos, junk, n);
      SkipsToBracket(s, lenW, pos, junk[..n], junk[n], Initial(t0, after));
    }
  }

  /* ENTER inside the topic field also ends the call with 0 and error -1: the half-read
     tuple is handed back with the user id read and the topic characters stored so far. */
  lemma NewlineInTopic(s: seq<char>, lenW: nat, after: seq<char>, pos: nat, t0: Tuple, junk: seq<char>, u: seq<char>, tp: seq<char>)
    requires WellSized(t0) && lenW <= 3 && NoneOf(junk, LB, ENTER)
    requires |u| <= LEN_USER_ID && NoneOf(u, DELIMITER, ENTER)
    requires 0 < |tp| <= LEN_TOPIC && NoneOf(tp, DELIMITER, ENTER)
    requires FieldAt(s, pos, junk, LB) && FieldAt(s, pos + |junk| + 1, u, DELIMITER)
    requires FieldAt(s, pos + |junk| + 1 + |u| + 1, tp, ENTER)
    ensures var r := ReadTuple(s, lenW, after, pos, t0);
            && r.ret == 0 && r.tuple.error == -1 && r.tuple.userid == u + t0.userid[|u|..]
            && r.tuple.topic == tp + t0.topic[|tp|..] && r.next == pos + |junk| + 1 + |u| + 1 + |tp| + 1
  {
    var a := pos + |junk|;
    var b := a + 1 + |u|;
    var m := Initial(t0, after).(state := UserId);
    var m1 := Machine(Topic, 0, m.tuple.(userid := u + m.tuple.userid[|u|..]), m.tempWeight);
    FieldStart(s, a + 1, u, DELIMITER);
    FieldStart(s, b + 1, tp, ENTER);
    ReadsToUserId(s, lenW, after, pos, t0, junk);
    ReadsUserId(s, lenW, a + 1, m, u);
    NewlineEndsField(s, lenW, b + 1, tp, m1);
    StoreOverwrites(m1, tp, lenW);
    OverwriteFront(m1.tuple.topic, tp);
  }

  /* A user id longer than LEN_USER_ID characters (a full one and an extra character c)
     makes the call return -1. */
  lemma UserIdTooLong(s: seq<char>, lenW: nat, after: seq<char>, pos: nat, t0: Tuple, junk: seq<char>, u: seq<char>, c: char)
    requires WellSized(t0) && lenW <= 3 && NoneOf(junk, LB, ENTER)
    requires |u| == LEN_USER_ID && NoneOf(u, DELIMITER, ENTER) && c != DELIMITER && c != ENTER
    requires FieldAt(s, pos, junk, LB) && FieldAt(s, pos + |junk| + 1, u, c)
    ensures ReadTuple(s, lenW, after, pos, t0).ret == -1
  {
    var a := pos + |junk|;
    FieldStart(s, a + 1, u, c);
    ReadsToUserId(s, lenW, after, pos, t0, junk);
    FieldOverflows(s, lenW, a + 1, u, c, Initial(t0, after).(state := UserId));
  }

  /* From the user id's first character: the user id, then LEN_TOPIC topic characters
     and one more character c that is not ','. */
  lemma UserIdThenTopicOverflows(s: seq<char>, lenW: nat, i: nat, m: Machine, u: seq<char>, tp: seq<char>, c: char)
    requires Consistent(m, lenW) && m.state == UserId && m.count == 0
    requires |u| <= LEN_USER_ID && NoneOf(u, DELIMITER, ENTER)
    requires |tp| == LEN_TOPIC && NoneOf(tp, DELIMITER, ENTER) && c != DELIMITER && c != ENTER
    requires FieldAt(s, i, u, DELIMITER) && FieldAt(s, i + |u| + 1, tp, c)
    ensures Run(s, lenW, s[i], i + 1, m).ret == -1
  {
    var j := i + |u| + 1;
    FieldStart(s, j, tp, c);
    ReadsUserId(s, lenW, i, m, u);
    FieldOverflows(s, lenW, j, tp, c, Machine(Topic, 0, m.tuple.(userid := u + m.tuple.userid[|u|..]), m.tempWeight));
  }

  /* More than LEN_TOPIC topic characters make the call return -1. */
  lemma TopicTooLong(s: seq<char>, lenW: nat, after: seq<char>, pos: nat, t0: Tuple, junk: seq<char>, u: seq<char>, tp: seq<char>, c: char)
    requires WellSized(t0) && lenW <= 3 && NoneOf(junk, LB, ENTER)
    requires |u| <= LEN_USER_ID && NoneOf(u, DELIMITER, ENTER)
    requires |tp| == LEN_TOPIC && NoneOf(tp, DELIMITER, ENTER) && c != DELIMITER && c != ENTER
    requires FieldAt(s, pos, junk, LB) && FieldAt(s, pos + |junk| + 1, u, DELIMITER)
    requires FieldAt(s, pos + |junk| + 1 + |u| + 1, tp, c)
    ensures ReadTuple(s, lenW, after, pos, t0).ret == -1
  {
    var a := pos + |junk|;
    FieldStart(s, a + 1, u, DELIMITER);
    ReadsToUserId(s, lenW, after, pos, t0, junk);
    UserIdThenTopicOverflows(s, lenW, a + 1, Initial(t0, after).(state := UserId), u, tp, c);
  }

  /* A topic, then more than LEN_WEIGHT weight characters: the call fails. */
  lemma WeightOverflows(s: seq<char>, lenW: nat, j: nat, m: Machine, tp: seq<char>, w: seq<char>, c: char)
    requires Consistent(m, lenW) && m.state == Topic && m.count == 0
    requires |tp| <= LEN_TOPIC && NoneOf(tp, DELIMITER, ENTER)
    requires |w| == lenW && NoneOf(w, RB, ENTER) && c != RB && c != ENTER
    requires FieldAt(s, j, tp, DELIMITER) && FieldAt(s, j + |tp| + 1, w, c)
    ensures Run(s, lenW, s[j], j + 1, m).ret == -1
  {
    var k := j + |tp| + 1;
    FieldStart(s, k, w, c);
    ReadsTopic(s, lenW, j, m, tp);
    FieldOverflows(s, lenW, k, w, c, Machine(Weight, 0, m.tuple.(topic := tp + Spaces(LEN_TOPIC - |tp|)), m.tempWeight));
  }

  /* From the user id's first character: user id and topic, then more than LEN_WEIGHT
     weight characters. */
  lemma FieldsThenWeightOverflows(s: seq<char>, lenW: nat, i: nat, m: Machine, u: seq<char>, tp: seq<char>, w: seq<char>, c: char)
    requires Consistent(m, lenW) && m.state == UserId && m.count == 0
    requires |u| <= LEN_USER_ID && NoneOf(u, DELIMITER, ENTER)
    requires |tp| <= LEN_TOPIC && NoneOf(tp, DELIMITER, ENTER)
    requires |w| == lenW && NoneOf(w, RB, ENTER) && c != RB && c != ENTER
    requires FieldAt(s, i, u, DELIMITER) && FieldAt(s, i + |u| + 1, tp, DELIMITER)
    requires FieldAt(s, i + |u| + 1 + |tp| + 1, w, c)
    ensures Run(s, lenW, s[i], i + 1, m).ret == -1
  {
    var j := i + |u| + 1;
    FieldStart(s, j, tp, DELIMITER);
    ReadsUserId(s, lenW, i, m, u);
    WeightOverflows(s, lenW, j, Machine(Topic, 0, m.tuple.(userid := u + m.tuple.userid[|u|..]), m.tempWeight), tp, w, c);
  }

  /* More than LEN_WEIGHT weight characters make the call return -1. */
  lemma WeightTooLong(s: seq<char>, lenW: nat, after: seq<char>, pos: nat, t0: Tuple,
                      junk: seq<char>, u: seq<char>, tp: seq<char>, w: seq<char>, c: char)
    requires WellSized(t0) && lenW <= 3 && NoneOf(junk, LB, ENTER)
    requires |u| <= LEN_USER_ID && NoneOf(u, DELIMITER, ENTER)
    requires |tp| <= LEN_TOPIC && NoneOf(tp, DELIMITER, ENTER)
    requires |w| == lenW && NoneOf(w, RB, ENTER) && c != RB && c != ENTER
    requires FieldAt(s, pos, junk, LB) && FieldAt(s, pos + |junk| + 1, u, DELIMITER)
    requires FieldAt(s, pos + |junk| + 1 + |u| + 1, tp, DELIMITER)
    requires FieldAt(s, pos + |junk| + 1 + |u| + 1 + |tp| + 1, w, c)
    ensures ReadTuple(s, lenW, after, pos, t0).ret == -1
  {
    var a := pos + |junk|;
    FieldStart(s, a + 1, u, DELIMITER);
    ReadsToUserId(s, lenW, after, pos, t0, junk);
    FieldsThenWeightOverflows(s, lenW, a + 1, Initial(t0, after).(state := UserId), u, tp, w, c);
  }
}

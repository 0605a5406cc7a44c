/*
 * The console helpers shared by the exercises (hw0/common.c, copied unchanged into
 * hw2/common.c) and the action -> weight rule table of hw2/common.c.
 */
module Common {
  import opened Text

  /* ---------------------------------------------------------------------------
   * console_string_read: read characters into a caller buffer until ENTER, at most
   * MAX_INPUT_STRING_LENGTH of them.  Every character read is stored and counted,
   * ENTER included; an EOF read stores EOF_CHAR.
   * ------------------------------------------------------------------------- */

  /* The next `n` characters a reader at `pos` gets from getchar, EOF_CHAR past the end. */
  function Window(s: seq<char>, pos: nat, n: nat): (w: seq<char>)
    requires pos <= |s|
    ensures |w| == n
    ensures forall i :: 0 <= i < n ==> w[i] == if pos + i < |s| then s[pos + i] else EOF_CHAR
  {
    if pos + n <= |s| then s[pos..pos + n] else s[pos..] + Repeat(EOF_CHAR, pos + n - |s|)
  }

  /* Index of the first `c` in `w`, or |w| when there is none. */
  function IndexOf(w: seq<char>, c: char): (k: nat)
    ensures k <= |w|
    ensures forall i :: 0 <= i < k ==> w[i] != c
    ensures k < |w| ==> w[k] == c
  {
    if |w| == 0 then 0
    else if w[0] == c then 0
    else 1 + IndexOf(w[1..], c)
  }

  /* The characters one call may read. */
  function Pending(s: seq<char>, pos: nat): (w: seq<char>)
    requires pos <= |s|
    ensures |w| == MAX_INPUT_STRING_LENGTH
  {
    Window(s, pos, MAX_INPUT_STRING_LENGTH)
  }

  /* How many characters one call reads: up to and including the first ENTER, or the
     whole limit. */
  function Consumed(s: seq<char>, pos: nat): (n: nat)
    requires pos <= |s|
    ensures 1 <= n <= MAX_INPUT_STRING_LENGTH
  {
    var k := IndexOf(Pending(s, pos), ENTER);
    if k < MAX_INPUT_STRING_LENGTH then k + 1 else MAX_INPUT_STRING_LENGTH
  }

  /* The value console_string_read returns. */
  function ReadLength(s: seq<char>, pos: nat): int
    requires pos <= |s|
  {
    var k := IndexOf(Pending(s, pos), ENTER);
    if k < MAX_INPUT_STRING_LENGTH then k + 1 else -1
  }

  /* The characters one call stores, in read order. */
  function LineRead(s: seq<char>, pos: nat): (r: seq<char>)
    requires pos <= |s|
    ensures |r| == Consumed(s, pos)
  {
    Pending(s, pos)[..Consumed(s, pos)]
  }

  /* The cursor after `n` getchar calls from `pos` (EOF reads do not advance it). */
  function Advance(s: seq<char>, pos: nat, n: nat): nat {
    if pos + n <= |s| then pos + n else |s|
  }

  method ConsoleStringRead(s: seq<char>, pos: nat, buf: array<char>) returns (len: int, next: nat)
    requires pos <= |s| && MAX_INPUT_STRING_LENGTH <= buf.Length
    modifies buf
    ensures len == ReadLength(s, pos)
    ensures next == Advance(s, pos, Consumed(s, pos))
    ensures buf[..Consumed(s, pos)] == LineRead(s, pos)
    ensures forall j :: Consumed(s, pos) <= j < buf.Length ==> buf[j] == old(buf[j])
  {
    ghost var w := Pending(s, pos);
    var cur := pos;
    var stringLength := 0;
    var i := 0;
    while i < MAX_INPUT_STRING_LENGTH
      invariant 0 <= i <= MAX_INPUT_STRING_LENGTH && stringLength == i
      invariant i <= IndexOf(w, ENTER)
      invariant cur == Advance(s, pos, i)
      invariant forall j :: 0 <= j < i ==> buf[j] == w[j]
      invariant forall j :: i <= j < buf.Length ==> buf[j] == old(buf[j])
    {
      var c: char;
      c, cur := GetChar(s, cur).0, GetChar(s, cur).1;
      assert c == w[i];
      buf[i] := c;
      stringLength := stringLength + 1;
      if c == ENTER {
        len, next := stringLength, cur;
        assert buf[..i + 1] == w[..i + 1];
        return;
      }
      i := i + 1;
    }
    len, next := -1, cur;
    assert buf[..i] == w[..i];
  }

  /* console_string_write: the characters put on standard output. */
  method ConsoleStringWrite(str: seq<char>, len: nat) returns (out: seq<char>)
    requires len <= |str|
    ensures out == str[..len]
  {
    out := [];
    var i := 0;
    while i < len
      invariant 0 <= i <= len && out == str[..i]
    {
      out := out + [str[i]];
      i := i + 1;
    }
  }

  /* A non-negative result n is the position of the first ENTER plus one: the stored
     line is exactly the next n input characters, the last of them ENTER. */
  lemma ReadLengthFindsLine(s: seq<char>, pos: nat)
    requires pos <= |s| && ReadLength(s, pos) != -1
    ensures var n := ReadLength(s, pos);
            1 <= n <= MAX_INPUT_STRING_LENGTH && pos + n <= |s|
            && LineRead(s, pos) == s[pos..pos + n]
            && s[pos + n - 1] == ENTER
            && forall i :: pos <= i < pos + n - 1 ==> s[i] != ENTER
  {
    var w := Pending(s, pos);
    var k := IndexOf(w, ENTER);
    assert w[k] == ENTER;
    assert pos + k < |s|;
    forall i | pos <= i < pos + k ensures s[i] != ENTER {
      assert w[i - pos] != ENTER;
    }
  }

  /* -1 exactly when none of the next MAX_INPUT_STRING_LENGTH characters is ENTER. */
  lemma ReadLengthFails(s: seq<char>, pos: nat)
    requires pos <= |s|
    ensures ReadLength(s, pos) == -1 <==> ENTER !in Pending(s, pos)
  {
    var k := IndexOf(Pending(s, pos), ENTER);
    if k < MAX_INPUT_STRING_LENGTH {
      assert Pending(s, pos)[k] == ENTER;
    }
  }

  /* ---------------------------------------------------------------------------
   * The rule table of hw2/common.c: action letter -> weight.
   * ------------------------------------------------------------------------- */

  const MAPPING_COUNT: nat := 5
  const RULE_ACTION: seq<char> := ['P', 'L', 'D', 'C', 'S']
  const RULE_WEIGHT: seq<int> := [50, 20, -10, 30, 40]

  /* Index of the first rule whose action is `a`, MAPPING_COUNT when there is none. */
  function RuleIndex(a: char): (k: nat)
    ensures k <= MAPPING_COUNT
    ensures k < MAPPING_COUNT ==> RULE_ACTION[k] == a
    ensures forall i :: 0 <= i < k ==> RULE_ACTION[i] != a
  {
    if a == 'P' then 0 else if a == 'L' then 1 else if a == 'D' then 2
    else if a == 'C' then 3 else if a == 'S' then 4 else 5
  }

  /* The letters are distinct, so the first match is the only one. */
  lemma RuleActionsDistinct()
    ensures forall i, j :: 0 <= i < j < MAPPING_COUNT ==> RULE_ACTION[i] != RULE_ACTION[j]
  {
  }

  /* The weight the table assigns to an action, when it lists the action. */
  function RuleWeight(a: char): (w: Option<int>)
    ensures w.Some? <==> a in RULE_ACTION
    ensures w.Some? ==> exists i :: 0 <= i < MAPPING_COUNT && RULE_ACTION[i] == a && RULE_WEIGHT[i] == w.value
  {
    var k := RuleIndex(a);
    if k < MAPPING_COUNT then Some(RULE_WEIGHT[k]) else None
  }

  lemma RuleTableValues()
    ensures RuleWeight('P') == Some(50) && RuleWeight('L') == Some(20) && RuleWeight('D') == Some(-10)
    ensures RuleWeight('C') == Some(30) && RuleWeight('S') == Some(40)
    ensures RuleWeight('X') == None && RuleWeight('p') == None
  {
  }

  /* debugger: prints when debugMode is set (output left out) and returns 0 either way. */
  function Debugger(message: seq<char>, debugMode: nat): (r: nat)
    ensures r == 0
  {
    0
  }
}

/*
 * hw0/mapper.c's own console_string_read: the same loop, but it breaks on ENTER and
 * returns the running count, so it never reports -1.
 */
module EchoMapper {
  import opened Text
  import opened Common

  method ConsoleStringRead(s: seq<char>, pos: nat, buf: array<char>) returns (len: nat, next: nat)
    requires pos <= |s| && MAX_INPUT_STRING_LENGTH <= buf.Length
    modifies buf
    ensures len == Consumed(s, pos)
    ensures next == Advance(s, pos, len)
    ensures buf[..len] == LineRead(s, pos)
    ensures forall j :: len <= j < buf.Length ==> buf[j] == old(buf[j])
  {
    ghost var w := Pending(s, pos);
    var cur := pos;
    var stringLength := 0;
    var i := 0;
    while i < MAX_INPUT_STRING_LENGTH
      invariant 0 <= i <= MAX_INPUT_STRING_LENGTH && stringLength == i
      invariant i <= IndexOf(w, ENTER)
      invariant cur == Advance(s, pos, i)
      invariant forall j :: 0 <= j < i ==> buf[j] == w[j]
      invariant forall j :: i <= j < buf.Length ==> buf[j] == old(buf[j])
    {
      var c: char;
      c, cur := GetChar(s, cur).0, GetChar(s, cur).1;
      assert c == w[i];
      buf[i] := c;
      stringLength := stringLength + 1;
      if c == ENTER {
        assert buf[..i + 1] == w[..i + 1];
        break;
      }
      i := i + 1;
    }
    len, next := stringLength, cur;
    assert buf[..len] == w[..len];
  }

  /* The variant's count agrees with the shared reader wherever that one succeeds, and
     is the full limit where that one reports -1. */
  lemma AgreesWithCommonReader(s: seq<char>, pos: nat)
    requires pos <= |s|
    ensures ReadLength(s, pos) != -1 ==> Consumed(s, pos) == ReadLength(s, pos)
    ensures ReadLength(s, pos) == -1 <==> LineRead(s, pos) == Pending(s, pos) && ENTER !in LineRead(s, pos)
  {
    ReadLengthFails(s, pos);
    var k := IndexOf(Pending(s, pos), ENTER);
    if k < MAX_INPUT_STRING_LENGTH {
      assert LineRead(s, pos)[k] == ENTER;
    }
  }

  /* console_string_write of hw0/mapper.c is the shared writer: exactly `len` characters. */
  method ConsoleStringWrite(str: seq<char>, len: nat) returns (out: seq<char>)
    requires len <= |str|
    ensures out == str[..len]
  {
    out := Common.ConsoleStringWrite(str, len);
  }
}

/*
 * Constants shared by the record pipelines and small explicit replacements for the
 * C library calls they use (getchar, atoi, sprintf("%d"), strncpy, strncmp).
 */
module Text {

  /* Field widths and delimiters of the tuple text format. */
  const LEN_USER_ID: nat := 4
  const LEN_TOPIC: nat := 15
  const LEN_ACTION: nat := 3
  const MAX_INPUT_STRING_LENGTH: nat := 50

  const ENTER: char := '\n'
  const LB: char := '('
  const RB: char := ')'
  const DELIMITER: char := ','
  const SPACE: char := ' '
  const NUL: char := '\0'

  datatype Option<T> = None | Some(value: T)

  /* What `getchar()` hands back at end of input once stored in a C `char`: (char)EOF. */
  const EOF_CHAR: char := '\U{FF}'

  /* ---------------------------------------------------------------------------
   * Standard input: a character sequence `s` and a cursor `cur <= |s|` counting the
   * characters consumed.  At the end of input `getchar` yields EOF_CHAR and the
   * cursor stays put; `feof(stdin)` is then true.
   * ------------------------------------------------------------------------- */

  function GetChar(s: seq<char>, cur: nat): (char, nat)
    requires cur <= |s|
  {
    if cur < |s| then (s[cur], cur + 1) else (EOF_CHAR, cur)
  }

  /* The i-th character a reader starting at `pos` sees, EOF_CHAR past the end. */
  function At(s: seq<char>, i: nat): char {
    if i < |s| then s[i] else EOF_CHAR
  }

  predicate NoneOf(s: seq<char>, a: char, b: char) {
    forall i :: 0 <= i < |s| ==> s[i] != a && s[i] != b
  }

  function Repeat(c: char, n: nat): (r: seq<char>)
    ensures |r| == n && forall i :: 0 <= i < n ==> r[i] == c
  {
    if n == 0 then [] else [c] + Repeat(c, n - 1)
  }

  /* `n` spaces, the padding of a short topic. */
  function Spaces(n: nat): (r: seq<char>)
    ensures |r| == n && forall i :: 0 <= i < n ==> r[i] == SPACE
  {
    Repeat(SPACE, n)
  }

  /* The padding loop of the topic field: a space at every index from k to the end. */
  function PadFrom(buf: seq<char>, k: nat): (r: seq<char>)
    ensures |r| == |buf|
    decreases |buf| - k
  {
    if k >= |buf| then buf else PadFrom(buf[k := SPACE], k + 1)
  }

  /* The padded field keeps its first k characters and is spaces after them. */
  lemma {:induction false} PadFromSpaces(buf: seq<char>, k: nat)
    requires k <= |buf|
    ensures PadFrom(buf, k) == buf[..k] + Spaces(|buf| - k)
    decreases |buf| - k
  {
    if k < |buf| {
      var b := buf[k := SPACE];
      PadFromSpaces(b, k + 1);
      assert b[..k + 1] == buf[..k] + [SPACE];
      assert Spaces(|buf| - k) == [SPACE] + Spaces(|buf| - k - 1);
      assert buf[..k] + [SPACE] + Spaces(|buf| - k - 1) == buf[..k] + ([SPACE] + Spaces(|buf| - k - 1));
    } else {
      assert buf[..k] == buf;
    }
  }

  /* The buffer `buf` after the characters `chars` were stored at indices at.. */
  function Overwrite(buf: seq<char>, at: nat, chars: seq<char>): (r: seq<char>)
    requires at + |chars| <= |buf|
    ensures |r| == |buf|
    ensures forall i :: 0 <= i < |buf| ==> r[i] == if at <= i < at + |chars| then chars[i - at] else buf[i]
  {
    buf[..at] + chars + buf[at + |chars|..]
  }

  /* Storing the first character and then the rest is storing them all. */
  lemma OverwriteStep(buf: seq<char>, at: nat, chars: seq<char>)
    requires 0 < |chars| && at + |chars| <= |buf|
    ensures Overwrite(buf[at := chars[0]], at + 1, chars[1..]) == Overwrite(buf, at, chars)
  {
    var l := Overwrite(buf[at := chars[0]], at + 1, chars[1..]);
    var r := Overwrite(buf, at, chars);
    forall i | 0 <= i < |buf| ensures l[i] == r[i] {
      if at + 1 <= i < at + |chars| {
        assert chars[1..][i - (at + 1)] == chars[i - at];
      }
    }
  }

  /* Storing from the front: the characters, then what was left of the old content. */
  lemma OverwriteFront(buf: seq<char>, chars: seq<char>)
    requires |chars| <= |buf|
    ensures Overwrite(buf, 0, chars) == chars + buf[|chars|..]
  {
    assert buf[..0] == [];
  }

  /* A field stored from the front and then padded: the characters, then spaces. */
  lemma PadOverwrite(buf: seq<char>, chars: seq<char>)
    requires |chars| <= |buf|
    ensures PadFrom(Overwrite(buf, 0, chars), |chars|) == chars + Spaces(|buf| - |chars|)
  {
    var x := Overwrite(buf, 0, chars);
    OverwriteFront(buf, chars);
    PadFromSpaces(x, |chars|);
    assert x[..|chars|] == chars;
  }

  lemma OverwriteNothing(buf: seq<char>, at: nat)
    requires at <= |buf|
    ensures Overwrite(buf, at, []) == buf
  {
    var r := Overwrite(buf, at, []);
    assert forall i :: 0 <= i < |buf| ==> r[i] == buf[i];
  }

  /* The input holds the characters f from index i on, one after the other. */
  predicate TextAt(s: seq<char>, i: nat, f: seq<char>)
    decreases |f|
  {
    i + |f| <= |s| && (|f| == 0 || (s[i] == f[0] && TextAt(s, i + 1, f[1..])))
  }

  /* The same, stated character by character. */
  lemma {:induction false} TextAtPointwise(s: seq<char>, i: nat, f: seq<char>)
    requires i + |f| <= |s|
    ensures TextAt(s, i, f) <==> forall k :: 0 <= k < |f| ==> s[i + k] == f[k]
    decreases |f|
  {
    if |f| > 0 {
      TextAtPointwise(s, i + 1, f[1..]);
      if forall k :: 0 <= k < |f| ==> s[i + k] == f[k] {
        forall k | 0 <= k < |f| - 1
          ensures s[i + 1 + k] == f[1..][k]
        {
          assert s[i + (k + 1)] == f[k + 1];
        }
        assert s[i + 0] == f[0];
      }
      if TextAt(s, i, f) {
        forall k | 0 <= k < |f|
          ensures s[i + k] == f[k]
        {
          if k > 0 {
            assert s[i + 1 + (k - 1)] == f[1..][k - 1];
          }
        }
      }
    }
  }

  /* A text made of two parts is the first part followed by the second. */
  lemma {:induction false} TextAtAppend(s: seq<char>, i: nat, a: seq<char>, b: seq<char>)
    ensures TextAt(s, i, a + b) <==> TextAt(s, i, a) && TextAt(s, i + |a|, b)
    decreases |a|
  {
    if |a| > 0 {
      assert (a + b)[1..] == a[1..] + b;
      TextAtAppend(s, i + 1, a[1..], b);
    } else {
      assert a + b == b;
    }
  }

  /* A text inside a longer one, after its first |p| characters. */
  lemma {:induction false} TextAtWithin(p: seq<char>, a: seq<char>, q: seq<char>)
    ensures TextAt(p + a + q, |p|, a)
    decreases |a|
  {
    if |a| > 0 {
      TextAtWithin(p + [a[0]], a[1..], q);
      assert p + [a[0]] + a[1..] + q == p + a + q;
      assert (p + a + q)[|p|] == a[0];
    }
  }

  /* The field f lies at index i of the input and the character x follows it. */
  predicate FieldAt(s: seq<char>, i: nat, f: seq<char>, x: char) {
    TextAt(s, i, f) && i + |f| < |s| && s[i + |f|] == x
  }

  /* A reader at i meets the field's first character, or x when the field is empty. */
  lemma FieldStart(s: seq<char>, i: nat, f: seq<char>, x: char)
    requires FieldAt(s, i, f, x)
    ensures s[i] == if |f| > 0 then f[0] else x
  {
  }

  /* After the field's first character the rest of the field follows. */
  lemma FieldRest(s: seq<char>, i: nat, f: seq<char>, x: char)
    requires FieldAt(s, i, f, x) && |f| > 0
    ensures FieldAt(s, i + 1, f[1..], x)
  {
  }

  /* The first n characters of a longer text form a field followed by the next one. */
  lemma TextPrefix(s: seq<char>, i: nat, f: seq<char>, n: nat)
    requires TextAt(s, i, f) && n < |f|
    ensures FieldAt(s, i, f[..n], f[n])
  {
    assert f == f[..n] + f[n..];
    TextAtAppend(s, i, f[..n], f[n..]);
  }

  /* The text of one "(a,b,c)" tuple as the readers expect it, preceded by characters
     they skip before the '('. */
  function TupleLine(junk: seq<char>, a: seq<char>, b: seq<char>, c: seq<char>): seq<char> {
    junk + [LB] + a + [DELIMITER] + b + [DELIMITER] + c + [RB]
  }

  /* Where the fields of a tuple line held by the input lie. */
  lemma TupleLineLayout(s: seq<char>, pos: nat, junk: seq<char>, a: seq<char>, b: seq<char>, c: seq<char>)
    requires TextAt(s, pos, TupleLine(junk, a, b, c))
    ensures FieldAt(s, pos, junk, LB)
    ensures FieldAt(s, pos + |junk| + 1, a, DELIMITER)
    ensures FieldAt(s, pos + |junk| + 1 + |a| + 1, b, DELIMITER)
    ensures FieldAt(s, pos + |junk| + 1 + |a| + 1 + |b| + 1, c, RB)
    ensures |TupleLine(junk, a, b, c)| == |junk| + 1 + |a| + 1 + |b| + 1 + |c| + 1
  {
    var p1 := junk + [LB];
    var p2 := p1 + a;
    var p3 := p2 + [DELIMITER];
    var p4 := p3 + b;
    var p5 := p4 + [DELIMITER];
    var p6 := p5 + c;
    TextAtAppend(s, pos, p6, [RB]);
    TextAtAppend(s, pos, p5, c);
    TextAtAppend(s, pos, p4, [DELIMITER]);
    TextAtAppend(s, pos, p3, b);
    TextAtAppend(s, pos, p2, [DELIMITER]);
    TextAtAppend(s, pos, p1, a);
    TextAtAppend(s, pos, junk, [LB]);
  }

  /* ---------------------------------------------------------------------------
   * atoi: leading white space, an optional sign, then digits folded into the value
   * until the first character that is not a digit.  atoi needs no terminator to
   * stop: the 'X' the reader pre-fills its weight buffer with ends the digits, and
   * when the buffer is full the digits run on into whatever follows it.  A
   * sequence handed to Atoi stands for memory up to a byte that stops it, or
   * ends where the model stops knowing what memory holds.
   * ------------------------------------------------------------------------- */

  predicate IsDigit(c: char) { '0' as int <= c as int <= '9' as int }

  predicate IsSpace(c: char) {
    c == ' ' || c == '\t' || c == '\n' || c == '\r' || c == '\U{0B}' || c == '\U{0C}'
  }

  function DigitValue(c: char): nat
    requires IsDigit(c)
  {
    c as int - '0' as int
  }

  function DigitChar(d: nat): (c: char)
    requires d < 10
    ensures IsDigit(c) && DigitValue(c) == d
  {
    ('0' as int + d) as char
  }

  /* atoi's digit loop: each leading digit multiplies the running value by ten and adds itself. */
  function DigitsFrom(s: seq<char>, acc: int): int
    decreases |s|
  {
    if |s| > 0 && IsDigit(s[0]) then DigitsFrom(s[1..], acc * 10 + DigitValue(s[0])) else acc
  }

  function Atoi(s: seq<char>): int
    decreases |s|
  {
    if |s| > 0 && IsSpace(s[0]) then Atoi(s[1..])
    else if |s| > 0 && s[0] == '-' then 0 - DigitsFrom(s[1..], 0)
    else if |s| > 0 && s[0] == '+' then DigitsFrom(s[1..], 0)
    else DigitsFrom(s, 0)
  }

  /* ---------------------------------------------------------------------------
   * sprintf("%d"): the decimal form of an integer.
   * ------------------------------------------------------------------------- */

  function NatDigits(n: nat): (d: seq<char>)
    ensures |d| > 0 && forall i :: 0 <= i < |d| ==> IsDigit(d[i])
  {
    if n < 10 then [DigitChar(n)] else NatDigits(n / 10) + [DigitChar(n % 10)]
  }

  function Itoa(n: int): seq<char> {
    if n < 0 then ['-'] + NatDigits(-n) else NatDigits(n)
  }

  /* The digit loop stops at the first character that is not a digit. */
  lemma {:induction false} DigitsFromStops(d: seq<char>, rest: seq<char>, acc: int)
    requires forall i :: 0 <= i < |d| ==> IsDigit(d[i])
    requires |rest| == 0 || !IsDigit(rest[0])
    ensures DigitsFrom(d + rest, acc) == DigitsFrom(d, acc)
    decreases |d|
  {
    if |d| > 0 {
      assert (d + rest)[1..] == d[1..] + rest;
      DigitsFromStops(d[1..], rest, acc * 10 + DigitValue(d[0]));
    } else {
      assert d + rest == rest;
    }
  }

  /* One more digit at the end: ten times the value, plus the digit. */
  lemma {:induction false} DigitsFromAppend(a: seq<char>, c: char, acc: int)
    requires forall i :: 0 <= i < |a| ==> IsDigit(a[i])
    requires IsDigit(c)
    ensures DigitsFrom(a + [c], acc) == DigitsFrom(a, acc) * 10 + DigitValue(c)
    decreases |a|
  {
    if |a| == 0 {
      assert a + [c] == [c] && [c][1..] == [];
    } else {
      assert (a + [c])[1..] == a[1..] + [c];
      DigitsFromAppend(a[1..], c, acc * 10 + DigitValue(a[0]));
    }
  }

  lemma {:induction false} NatDigitsValue(n: nat)
    ensures DigitsFrom(NatDigits(n), 0) == n
  {
    if n < 10 {
      assert [DigitChar(n)][1..] == [];
    } else {
      NatDigitsValue(n / 10);
      DigitsFromAppend(NatDigits(n / 10), DigitChar(n % 10), 0);
    }
  }

  /* atoi of a digit string followed by a non-digit, with or without a minus sign. */
  lemma AtoiDigits(d: seq<char>, rest: seq<char>)
    requires |d| > 0 && forall i :: 0 <= i < |d| ==> IsDigit(d[i])
    requires |rest| == 0 || !IsDigit(rest[0])
    ensures Atoi(d + rest) == DigitsFrom(d, 0)
    ensures Atoi(['-'] + d + rest) == 0 - DigitsFrom(d, 0)
  {
    DigitsFromStops(d, rest, 0);
    AtoiUnsigned(d + rest);
    DropFirst('-', d, rest);
    AtoiMinus(['-'] + d + rest);
  }

  lemma DropFirst(c: char, x: seq<char>, rest: seq<char>)
    ensures ([c] + x + rest)[0] == c && ([c] + x + rest)[1..] == x + rest
  {
  }

  /* A leading '-' negates what the digits after it are worth. */
  lemma AtoiMinus(u: seq<char>)
    requires |u| > 0 && u[0] == '-'
    ensures Atoi(u) == 0 - DigitsFrom(u[1..], 0)
  {
  }

  /* A string that starts with a digit is read from its first character on. */
  lemma AtoiUnsigned(t: seq<char>)
    requires |t| > 0 && IsDigit(t[0])
    ensures Atoi(t) == DigitsFrom(t, 0)
  {
    assert !IsSpace(t[0]) && t[0] != '-' && t[0] != '+';
  }

  /* The digit loop never looks past a character that is not a digit. */
  lemma {:induction false} DigitsFromStopsAt(a: seq<char>, b: seq<char>, acc: int)
    requires |a| > 0 && !IsDigit(a[|a| - 1])
    ensures DigitsFrom(a + b, acc) == DigitsFrom(a, acc)
    decreases |a|
  {
    assert (a + b)[0] == a[0];
    if IsDigit(a[0]) {
      assert (a + b)[1..] == a[1..] + b;
      DigitsFromStopsAt(a[1..], b, acc * 10 + DigitValue(a[0]));
    }
  }

  /* atoi stops at a character that is neither white space, a sign nor a digit:
     nothing after it changes the value. */
  lemma {:induction false} AtoiStopsAt(a: seq<char>, b: seq<char>)
    requires |a| > 0 && var x := a[|a| - 1]; !IsDigit(x) && !IsSpace(x) && x != '-' && x != '+'
    ensures Atoi(a + b) == Atoi(a)
    decreases |a|
  {
    assert (a + b)[0] == a[0];
    if IsSpace(a[0]) {
      assert (a + b)[1..] == a[1..] + b;
      AtoiStopsAt(a[1..], b);
    } else if a[0] == '-' || a[0] == '+' {
      assert (a + b)[1..] == a[1..] + b;
      DigitsFromStopsAt(a[1..], b, 0);
    } else {
      DigitsFromStopsAt(a, b, 0);
    }
  }

  /* atoi reads back what sprintf("%d") wrote, when a non-digit (or the end of the
     buffer) follows the number. */
  lemma AtoiItoa(n: int, rest: seq<char>)
    requires |rest| == 0 || !IsDigit(rest[0])
    ensures Atoi(Itoa(n) + rest) == n
  {
    var m: nat := if n < 0 then -n else n;
    var d := NatDigits(m);
    NatDigitsValue(m);
    AtoiDigits(d, rest);
  }

  /* ---------------------------------------------------------------------------
   * strncpy(dst, src, n) on fixed-size fields: copy up to the first NUL, then
   * fill the rest of the n characters with NULs.
   * ------------------------------------------------------------------------- */

  /* strncpy(dst, src, n): characters up to the first NUL, then NULs to fill n. */
  function StrNCpy(src: seq<char>, n: nat): (r: seq<char>)
    requires n <= |src|
    ensures |r| == n
    decreases n
  {
    if n == 0 then []
    else if src[0] == NUL then Repeat(NUL, n)
    else [src[0]] + StrNCpy(src[1..], n - 1)
  }

  /* A field without NUL characters is copied unchanged. */
  lemma {:induction false} StrNCpyNulFree(src: seq<char>, n: nat)
    requires n <= |src|
    requires forall i :: 0 <= i < n ==> src[i] != NUL
    ensures StrNCpy(src, n) == src[..n]
    decreases n
  {
    if n > 0 {
      assert src[0] != NUL;
      StrNCpyNulFree(src[1..], n - 1);
      assert src[..n] == [src[0]] + src[1..][..n - 1];
    }
  }

  /* Once a NUL is copied, the rest of the copy is NULs. */
  lemma {:induction false} StrNCpyPadded(src: seq<char>, n: nat, i: nat)
    requires n <= |src| && i < n
    requires StrNCpy(src, n)[i] == NUL
    ensures forall j :: i <= j < n ==> StrNCpy(src, n)[j] == NUL
    decreases n
  {
    if src[0] != NUL && i > 0 {
      StrNCpyPadded(src[1..], n - 1, i - 1);
      forall j | i <= j < n ensures StrNCpy(src, n)[j] == NUL {
        assert StrNCpy(src, n)[j] == StrNCpy(src[1..], n - 1)[j - 1];
      }
    }
  }

  /* A field as strncpy leaves it: after the first NUL there are only NULs. */
  predicate Padded(s: seq<char>) {
    forall i, j :: 0 <= i <= j < |s| && s[i] == NUL ==> s[j] == NUL
  }

  lemma CopyIsPadded(src: seq<char>, n: nat)
    requires n <= |src|
    ensures Padded(StrNCpy(src, n))
  {
    var r := StrNCpy(src, n);
    forall i, j | 0 <= i <= j < n && r[i] == NUL
      ensures r[j] == NUL
    {
      StrNCpyPadded(src, n, i);
    }
  }

  /* A padded field is its own copy. */
  lemma {:induction false} PaddedIsCopy(s: seq<char>)
    requires Padded(s)
    ensures StrNCpy(s, |s|) == s
    decreases |s|
  {
    if s != [] {
      if s[0] == NUL {
        assert forall j :: 0 <= j < |s| ==> s[j] == NUL;
      } else {
        assert Padded(s[1..]) by {
          forall i, j | 0 <= i <= j < |s| - 1 && s[1..][i] == NUL
            ensures s[1..][j] == NUL
          {
            assert s[i + 1] == NUL;
          }
        }
        PaddedIsCopy(s[1..]);
        assert s == [s[0]] + s[1..];
      }
    }
  }

  /* Copying a copy changes nothing. */
  lemma {:induction false} StrNCpyIdempotent(src: seq<char>, n: nat)
    requires n <= |src|
    ensures StrNCpy(StrNCpy(src, n), n) == StrNCpy(src, n)
    decreases n
  {
    var r := StrNCpy(src, n);
    if n > 0 {
      if src[0] == NUL {
        assert r[0] == NUL;
      } else {
        assert r[0] == src[0] && r[1..] == StrNCpy(src[1..], n - 1);
        StrNCpyIdempotent(src[1..], n - 1);
      }
    }
  }

  /* strncmp(a, b, n) == 0, compared character by character as the C library does. */
  function StrNCmpEqual(a: seq<char>, b: seq<char>, n: nat): bool
    requires n <= |a| && n <= |b|
    decreases n
  {
    if n == 0 then true
    else if a[0] != b[0] then false
    else if a[0] == NUL then true
    else StrNCmpEqual(a[1..], b[1..], n - 1)
  }

  /* strncmp reports equality exactly when strncpy would make the same copy. */
  lemma {:induction false} StrNCmpEqualIffSameCopy(a: seq<char>, b: seq<char>, n: nat)
    requires n <= |a| && n <= |b|
    ensures StrNCmpEqual(a, b, n) <==> StrNCpy(a, n) == StrNCpy(b, n)
    decreases n
  {
    if n > 0 {
      var ra, rb := StrNCpy(a, n), StrNCpy(b, n);
      if a[0] != b[0] {
        assert ra[0] == a[0] && rb[0] == b[0];
      } else if a[0] != NUL {
        StrNCmpEqualIffSameCopy(a[1..], b[1..], n - 1);
        assert ra[1..] == StrNCpy(a[1..], n - 1);
        assert rb[1..] == StrNCpy(b[1..], n - 1);
      }
    }
  }
}

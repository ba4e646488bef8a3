/**
 Character-level helpers behind the Kconfig compiler and the path model:
 Python's `str.strip`, `str.rstrip`, `str.isdigit`, `str.split(sep, 1)`,
 `str.rfind` and the line iterator of a file opened in text mode.
 */
module Text {
  import opened Wrappers

  /** The ASCII characters that Python's `str.strip()` removes: space,
      \t \n \x0b \x0c \r and the separators \x1c to \x1f. */
  const Whitespace: set<char> :=
    {' ', '\t', '\n', 11 as char, 12 as char, '\r', 28 as char, 29 as char, 30 as char, 31 as char}

  /** The argument of `str.strip('"')`. */
  const Quote: set<char> := {'"'}

  predicate IsDigit(c: char) {
    '0' <= c <= '9'
  }

  /** Every character of `s` is in `chars`. */
  predicate All(s: string, chars: set<char>) {
    forall k :: 0 <= k < |s| ==> s[k] in chars
  }

  /** Python's `str.isdigit()` restricted to ASCII: a non-empty run of decimal digits. */
  predicate IsDigits(s: string) {
    s != [] && forall k :: 0 <= k < |s| ==> IsDigit(s[k])
  }

  /** `s` without its longest prefix of characters from `chars` (`str.lstrip`). */
  function TrimLeft(s: string, chars: set<char>): string {
    if s != [] && s[0] in chars then TrimLeft(s[1..], chars) else s
  }

  /** TrimLeft removes a prefix made of characters from `chars`, and the
      first character it keeps is not one of them. */
  lemma {:induction false} TrimLeftSpec(s: string, chars: set<char>)
    ensures var r := TrimLeft(s, chars);
      && |r| <= |s| && r == s[|s| - |r|..]
      && All(s[..|s| - |r|], chars)
      && (r != [] ==> r[0] !in chars)
  {
    if s != [] && s[0] in chars {
      TrimLeftSpec(s[1..], chars);
      var r := TrimLeft(s[1..], chars);
      assert s[1..][|s| - 1 - |r|..] == s[|s| - |r|..];
      assert s[..|s| - |r|] == [s[0]] + s[1..][..|s| - 1 - |r|];
    }
  }

  /** `s` without its longest suffix of characters from `chars` (`str.rstrip`). */
  function TrimRight(s: string, chars: set<char>): string {
    if s != [] && s[|s| - 1] in chars then TrimRight(s[..|s| - 1], chars) else s
  }

  /** TrimRight removes a suffix made of characters from `chars`, and the
      last character it keeps is not one of them. */
  lemma {:induction false} TrimRightSpec(s: string, chars: set<char>)
    ensures var r := TrimRight(s, chars);
      && |r| <= |s| && r == s[..|r|]
      && All(s[|r|..], chars)
      && (r != [] ==> r[|r| - 1] !in chars)
  {
    if s != [] && s[|s| - 1] in chars {
      var s' := s[..|s| - 1];
      TrimRightSpec(s', chars);
      var r := TrimRight(s', chars);
      assert s'[..|r|] == s[..|r|];
      assert forall k :: 0 <= k < |s| - |r| - 1 ==> s[|r|..][k] == s'[|r|..][k];
    }
  }

  /** `r` is what remains of `s` once a prefix and a suffix made only of
      characters from `chars` are cut off, with none of them left at
      either end of `r`. */
  ghost predicate IsTrimOf(r: string, s: string, chars: set<char>) {
    exists i, j :: 0 <= i <= j <= |s| && r == s[i..j]
      && All(s[..i], chars) && All(s[j..], chars)
      && (r != [] ==> r[0] !in chars && r[|r| - 1] !in chars)
  }

  /** Python's `s.strip(chars)`, `chars` being the set of characters to remove. */
  function Trim(s: string, chars: set<char>): string {
    TrimLeft(TrimRight(s, chars), chars)
  }

  /** Trim meets its reference description IsTrimOf. */
  lemma TrimSpec(s: string, chars: set<char>)
    ensures IsTrimOf(Trim(s, chars), s, chars)
    ensures var r := Trim(s, chars); r != [] ==> r[0] !in chars && r[|r| - 1] !in chars
  {
    var right := TrimRight(s, chars);
    var r := TrimLeft(right, chars);
    TrimRightSpec(s, chars);
    TrimLeftSpec(right, chars);
    assert r == Trim(s, chars);
    var i, j := |right| - |r|, |right|;
    assert r == s[i..j];
    assert s[..i] == right[..i];
    assert All(s[..i], chars) && All(s[j..], chars);
    if r != [] {
      assert r[|r| - 1] == right[|right| - 1];
    }
    assert IsTrimOf(r, s, chars);
  }

  /** Trimming never introduces a character. */
  lemma TrimWithout(s: string, chars: set<char>, c: char)
    requires c !in s
    ensures c !in Trim(s, chars)
  {
    var right := TrimRight(s, chars);
    TrimRightSpec(s, chars);
    TrimLeftSpec(right, chars);
    assert c !in right by {
      assert forall k :: 0 <= k < |right| ==> right[k] == s[k];
    }
    var r := TrimLeft(right, chars);
    assert forall k :: 0 <= k < |r| ==> r[k] == right[|right| - |r| + k];
  }

  /** `str.strip()` with no argument. */
  function Strip(s: string): string {
    Trim(s, Whitespace)
  }

  /** TrimRight stops exactly at the last character that is kept. */
  lemma {:induction false} TrimRightAt(s: string, j: nat, chars: set<char>)
    requires j <= |s| && All(s[j..], chars) && (j == 0 || s[j - 1] !in chars)
    ensures TrimRight(s, chars) == s[..j]
    decreases |s|
  {
    if |s| > j {
      assert s[j..][|s| - 1 - j] == s[|s| - 1];
      assert s[..|s| - 1][j..] == s[j..|s| - 1];
      TrimRightAt(s[..|s| - 1], j, chars);
      assert s[..|s| - 1][..j] == s[..j];
    }
  }

  /** TrimLeft starts exactly at the first character that is kept. */
  lemma {:induction false} TrimLeftAt(s: string, i: nat, chars: set<char>)
    requires i <= |s| && All(s[..i], chars) && (i == |s| || s[i] !in chars)
    ensures TrimLeft(s, chars) == s[i..]
  {
    if i > 0 {
      assert s[..i][0] == s[0];
      assert s[1..][..i - 1] == s[1..i];
      TrimLeftAt(s[1..], i - 1, chars);
    }
  }

  /** IsTrimOf is an exact characterisation of Trim: it admits one result only. */
  lemma TrimUnique(r: string, s: string, chars: set<char>)
    requires IsTrimOf(r, s, chars)
    ensures r == Trim(s, chars)
  {
    var i, j :| 0 <= i <= j <= |s| && r == s[i..j]
      && All(s[..i], chars) && All(s[j..], chars)
      && (r != [] ==> r[0] !in chars && r[|r| - 1] !in chars);
    if r == [] {
      AllJoined(s, i, chars);
      TrimAllDropped(s, chars);
    } else {
      TrimInner(s, i, j, chars);
    }
  }

  /** A string whose two parts around `i` are made only of characters
      from `chars` is made only of them. */
  lemma AllJoined(s: string, i: nat, chars: set<char>)
    requires i <= |s| && All(s[..i], chars) && All(s[i..], chars)
    ensures All(s, chars)
  {
    forall k | 0 <= k < |s| ensures s[k] in chars {
      if k < i { assert s[..i][k] == s[k]; } else { assert s[i..][k - i] == s[k]; }
    }
  }

  /** A string made only of characters from `chars` trims to nothing. */
  lemma TrimAllDropped(s: string, chars: set<char>)
    requires All(s, chars)
    ensures Trim(s, chars) == []
  {
    assert s[0..] == s;
    TrimRightAt(s, 0, chars);
  }

  /** Trim keeps exactly the slice between the first and the last kept character. */
  lemma TrimInner(s: string, i: nat, j: nat, chars: set<char>)
    requires i < j <= |s| && All(s[..i], chars) && All(s[j..], chars)
    requires s[i] !in chars && s[j - 1] !in chars
    ensures Trim(s, chars) == s[i..j]
  {
    TrimRightAt(s, j, chars);
    var right := s[..j];
    assert right[..i] == s[..i];
    TrimLeftAt(right, i, chars);
  }


  /** A string with no character of `chars` at either end is its own trim. */
  lemma TrimNoop(s: string, chars: set<char>)
    requires s == [] || (s[0] !in chars && s[|s| - 1] !in chars)
    ensures Trim(s, chars) == s
  {
    assert s[..0] == [] && s[|s|..] == [] && s[0..|s|] == s;
    assert IsTrimOf(s, s, chars);
    TrimUnique(s, s, chars);
  }

  /** Trimming twice is trimming once. */
  lemma TrimIdempotent(s: string, chars: set<char>)
    ensures Trim(Trim(s, chars), chars) == Trim(s, chars)
  {
    TrimSpec(s, chars);
    TrimNoop(Trim(s, chars), chars);
  }

  /** A trim keeps the first character when that character is not dropped. */
  lemma TrimKeepsFirst(s: string, chars: set<char>)
    requires s != [] && s[0] !in chars
    ensures Trim(s, chars) != [] && Trim(s, chars)[0] == s[0]
  {
    var right := TrimRight(s, chars);
    TrimRightSpec(s, chars);
    if |right| < |s| {
      assert s[|right|..][0] == s[|right|];
    }
    assert right[0] == s[0];
    assert right[..0] == [];
    TrimLeftAt(right, 0, chars);
  }

  /** Python's `s.find(c)`: the first position of `c`, if any. */
  function IndexOf(s: string, c: char): (r: Option<nat>)
    ensures r.None? <==> c !in s
    ensures r.Some? ==> r.value < |s| && s[r.value] == c
    ensures r.Some? ==> forall k :: 0 <= k < r.value ==> s[k] != c
  {
    if s == [] then None
    else if s[0] == c then Some(0)
    else
      assert s == [s[0]] + s[1..];
      match IndexOf(s[1..], c)
      case None => None
      case Some(k) => Some(k + 1)
  }

  /** Python's `s.rfind(c)`: the last position of `c`, if any. */
  function LastIndexOf(s: string, c: char): (r: Option<nat>)
    ensures r.None? <==> c !in s
    ensures r.Some? ==> r.value < |s| && s[r.value] == c
    ensures r.Some? ==> forall k :: r.value < k < |s| ==> s[k] != c
  {
    if s == [] then None
    else if s[|s| - 1] == c then Some(|s| - 1)
    else
      assert s == s[..|s| - 1] + [s[|s| - 1]];
      match LastIndexOf(s[..|s| - 1], c)
      case None => None
      case Some(k) => Some(k)
  }

  /** Python's `s.split(c, 1)` on a string that holds `c`: the text before
      the first `c` and everything after it. */
  function SplitOnce(s: string, c: char): (r: Option<(string, string)>)
    ensures r.None? <==> c !in s
    ensures r.Some? ==> s == r.value.0 + [c] + r.value.1 && c !in r.value.0
  {
    match IndexOf(s, c)
    case None => None
    case Some(i) =>
      assert s == s[..i] + [c] + s[i + 1..];
      Some((s[..i], s[i + 1..]))
  }

  /** The split happens at the first `c`: any later `c` stays in the tail. */
  lemma SplitOnceAtFirst(s: string, c: char, head: string, tail: string)
    requires s == head + [c] + tail && c !in head
    ensures SplitOnce(s, c) == Some((head, tail))
  {
    assert forall k :: 0 <= k < |head| ==> s[k] == head[k];
    assert s[|head|] == c;
    var i := IndexOf(s, c).value;
    assert i == |head|;
    assert s[..i] == head;
    assert s[i + 1..] == tail;
  }

  /** The strings of `ls` one after the other. */
  function Concat(ls: seq<string>): string {
    if ls == [] then [] else ls[0] + Concat(ls[1..])
  }

  lemma {:induction false} ConcatAppend(a: seq<string>, b: seq<string>)
    ensures Concat(a + b) == Concat(a) + Concat(b)
  {
    if a == [] {
      assert a + b == b;
    } else {
      assert (a + b)[1..] == a[1..] + b;
      ConcatAppend(a[1..], b);
    }
  }

  /** Python's universal-newline translation when reading in text mode:
      "\r\n" and a lone "\r" both become "\n". */
  function TranslateNewlines(s: string): (r: string)
    ensures '\r' !in r
    ensures '\r' !in s ==> r == s
  {
    if s == [] then []
    else if s[0] == '\r' then
      if |s| > 1 && s[1] == '\n' then "\n" + TranslateNewlines(s[2..])
      else "\n" + TranslateNewlines(s[1..])
    else
      assert s == [s[0]] + s[1..];
      [s[0]] + TranslateNewlines(s[1..])
  }

  /** A line as the file iterator yields it: a "\n" can only be its last character. */
  predicate SingleLine(l: string) {
    forall k :: 0 <= k < |l| - 1 ==> l[k] != '\n'
  }

  /** A complete line: non-empty, ending in its only "\n". */
  predicate Terminated(l: string) {
    l != [] && l[|l| - 1] == '\n' && SingleLine(l)
  }

  /** Length of the first line of `s`, its "\n" included. */
  function FirstLineLength(s: string): (n: nat)
    requires s != []
    ensures 0 < n <= |s|
    ensures n == |s| || s[n - 1] == '\n'
    ensures forall k :: 0 <= k < n - 1 ==> s[k] != '\n'
  {
    match IndexOf(s, '\n')
    case None => |s|
    case Some(i) => i + 1
  }

  /** `r` could be what the file iterator yields: non-empty lines, each
      holding "\n" only at its end, and all but the last one terminated. */
  predicate LineShaped(r: seq<string>) {
    && (forall k :: 0 <= k < |r| ==> r[k] != [] && SingleLine(r[k]))
    && (forall k :: 0 <= k < |r| - 1 ==> Terminated(r[k]))
  }

  /** Putting a line in front of line-shaped lines keeps them line-shaped. */
  lemma ConsLine(l: string, rest: seq<string>)
    requires l != [] && SingleLine(l) && (rest != [] ==> Terminated(l))
    requires LineShaped(rest)
    ensures LineShaped([l] + rest)
    ensures Concat([l] + rest) == l + Concat(rest)
  {
    var r := [l] + rest;
    assert r[1..] == rest;
    assert forall k :: 1 <= k < |r| ==> r[k] == rest[k - 1];
  }

  /** The lines Python's file iterator yields for text `s`: the first one
      runs up to and including the first "\n", the rest are split alike. */
  function SplitLines(s: string): seq<string>
    decreases |s|
  {
    if s == [] then []
    else
      var n := FirstLineLength(s);
      [s[..n]] + SplitLines(s[n..])
  }

  /** Together the lines are the text, each one ends just after a "\n",
      except possibly the last, and no line is empty. */
  lemma {:induction false} SplitLinesShape(s: string)
    ensures Concat(SplitLines(s)) == s
    ensures LineShaped(SplitLines(s))
    decreases |s|
  {
    if s != [] {
      var n := FirstLineLength(s);
      SplitLinesShape(s[n..]);
      assert s == s[..n] + s[n..];
      ConsLine(s[..n], SplitLines(s[n..]));
    }
  }

  /** A complete line in front of any text is the first line of the
      result. */
  lemma FirstLineOf(l: string, rest: string)
    requires Terminated(l)
    ensures FirstLineLength(l + rest) == |l|
  {
    var s := l + rest;
    assert forall k :: 0 <= k < |l| ==> s[k] == l[k];
    assert s[|l| - 1] == '\n';
  }

  /** Splitting a run of complete lines gives those lines back. */
  lemma {:induction false} SplitConcat(ls: seq<string>)
    requires forall k :: 0 <= k < |ls| ==> Terminated(ls[k])
    ensures SplitLines(Concat(ls)) == ls
  {
    if ls != [] {
      var l, rest := ls[0], Concat(ls[1..]);
      assert Concat(ls) == l + rest;
      FirstLineOf(l, rest);
      assert (l + rest)[..|l|] == l;
      assert (l + rest)[|l|..] == rest;
      SplitConcat(ls[1..]);
      assert ls == [l] + ls[1..];
    }
  }

  /** What iterating over a file opened in text mode yields for its text. */
  function ReadLines(text: string): (r: seq<string>)
    ensures LineShaped(r)
    ensures Concat(r) == TranslateNewlines(text)
    ensures forall k :: 0 <= k < |r| ==> '\r' !in r[k]
    ensures '\r' !in text ==> Concat(r) == text
  {
    var t := TranslateNewlines(text);
    SplitLinesShape(t);
    NotInParts(SplitLines(t), '\r');
    SplitLines(t)
  }

  /** A character absent from a concatenation is absent from every part. */
  lemma {:induction false} NotInParts(ls: seq<string>, c: char)
    requires c !in Concat(ls)
    ensures forall k :: 0 <= k < |ls| ==> c !in ls[k]
  {
    if ls != [] {
      var head, rest := ls[0], Concat(ls[1..]);
      var s := Concat(ls);
      assert s == head + rest;
      assert c !in head by {
        assert forall i :: 0 <= i < |head| ==> s[i] == head[i];
      }
      assert c !in rest by {
        assert forall i :: 0 <= i < |rest| ==> s[|head| + i] == rest[i];
      }
      NotInParts(ls[1..], c);
      assert forall k :: 1 <= k < |ls| ==> ls[k] == ls[1..][k - 1];
    }
  }


  /** The text of a file whose lines are `ls`, each followed by the line
      ending `eol`. */
  function Terminate(ls: seq<string>, eol: string): string {
    if ls == [] then [] else ls[0] + eol + Terminate(ls[1..], eol)
  }

  /** The line endings universal newlines recognise. */
  predicate Eol(eol: string) {
    eol == "\n" || eol == "\r\n" || eol == "\r"
  }

  /** The lines hold no line-ending character of their own. */
  predicate Bare(ls: seq<string>) {
    forall k :: 0 <= k < |ls| ==> '\r' !in ls[k] && '\n' !in ls[k]
  }

  /** Text without a carriage return passes through translation unchanged
      in front of whatever follows it. */
  lemma {:induction false} TranslatePlain(l: string, rest: string)
    requires '\r' !in l
    ensures TranslateNewlines(l + rest) == l + TranslateNewlines(rest)
  {
    if l != [] {
      assert (l + rest)[0] == l[0];
      assert (l + rest)[1..] == l[1..] + rest;
      TranslatePlain(l[1..], rest);
      assert l == [l[0]] + l[1..];
    } else {
      assert l + rest == rest;
    }
  }

  /** A text of bare lines starts with neither a line feed nor, unless a
      line is empty, with a carriage return: never with "\n". */
  lemma TerminateStart(ls: seq<string>, eol: string)
    requires Bare(ls) && Eol(eol) && eol != "\n"
    ensures Terminate(ls, eol) == [] || Terminate(ls, eol)[0] != '\n'
  {
    if ls != [] {
      var t := Terminate(ls, eol);
      assert t == ls[0] + eol + Terminate(ls[1..], eol);
      if ls[0] != [] {
        assert t[0] == ls[0][0];
      } else {
        assert t[0] == eol[0];
      }
    }
  }

  /** One line ending translates to "\n", provided a lone "\r" is not
      followed by a "\n" that would make it a "\r\n". */
  lemma TranslateEol(eol: string, rest: string)
    requires Eol(eol)
    requires eol == "\r" ==> rest == [] || rest[0] != '\n'
    ensures TranslateNewlines(eol + rest) == "\n" + TranslateNewlines(rest)
  {
    if eol == "\r\n" {
      assert (eol + rest)[2..] == rest;
    } else if eol == "\r" {
      assert (eol + rest)[1..] == rest;
    } else {
      assert (eol + rest)[1..] == rest;
    }
  }

  /** Reading with universal newlines turns "\r\n" and a lone "\r" into
      "\n": bare lines followed by any of the three line endings, then a
      last line with no ending (possibly empty), read as the same lines
      followed by "\n", then that last line. */
  lemma {:induction false} TranslateTerminate(ls: seq<string>, eol: string, last: string)
    requires Bare(ls) && Eol(eol) && '\r' !in last && '\n' !in last
    ensures TranslateNewlines(Terminate(ls, eol) + last) == Terminate(ls, "\n") + last
  {
    if ls == [] {
      assert Terminate(ls, eol) + last == last;
      assert Terminate(ls, "\n") + last == last;
    } else {
      var rest := Terminate(ls[1..], eol) + last;
      BareTail(ls);
      TranslateTerminate(ls[1..], eol, last);
      TerminateUnfold(ls, eol, last);
      TerminateUnfold(ls, "\n", last);
      TranslatePlain(ls[0], eol + rest);
      if eol == "\r" {
        TerminateThenStart(ls[1..], eol, last);
      }
      TranslateEol(eol, rest);
    }
  }

  /** The lines after the first of bare lines are bare. */
  lemma BareTail(ls: seq<string>)
    requires Bare(ls) && ls != []
    ensures Bare(ls[1..])
  {
    forall k | 0 <= k < |ls| - 1 ensures '\r' !in ls[1..][k] && '\n' !in ls[1..][k] {
      assert ls[1..][k] == ls[k + 1];
    }
  }

  /** The first line and its ending, in front of the rest of the text. */
  lemma TerminateUnfold(ls: seq<string>, eol: string, last: string)
    requires ls != []
    ensures Terminate(ls, eol) + last == ls[0] + (eol + (Terminate(ls[1..], eol) + last))
  {
  }

  /** Bare lines with "\r" or "\r\n" endings, followed by a last line
      without one, never start with "\n". */
  lemma TerminateThenStart(ls: seq<string>, eol: string, last: string)
    requires Bare(ls) && Eol(eol) && eol != "\n" && '\n' !in last
    ensures var t := Terminate(ls, eol) + last; t == [] || t[0] != '\n'
  {
    var front := Terminate(ls, eol);
    TerminateStart(ls, eol);
    if front == [] {
      assert front + last == last;
    } else {
      assert (front + last)[0] == front[0];
    }
  }

  /** The text of bare lines each followed by "\n" is the concatenation of
      those complete lines. */
  lemma {:induction false} TerminateConcat(ls: seq<string>)
    requires Bare(ls)
    ensures Terminate(ls, "\n") == Concat(seq(|ls|, k requires 0 <= k < |ls| => ls[k] + "\n"))
  {
    var lines := seq(|ls|, k requires 0 <= k < |ls| => ls[k] + "\n");
    if ls != [] {
      var tail := seq(|ls| - 1, k requires 0 <= k < |ls| - 1 => ls[1..][k] + "\n");
      assert Bare(ls[1..]) by {
        forall k | 0 <= k < |ls| - 1 ensures '\r' !in ls[1..][k] && '\n' !in ls[1..][k] {
          assert ls[1..][k] == ls[k + 1];
        }
      }
      TerminateConcat(ls[1..]);
      assert lines[1..] == tail;
    }
  }

  /** A line as read is the first line of itself followed by any text,
      provided it ends in "\n" whenever that text is not empty. */
  lemma FirstLineIs(l: string, tail: string)
    requires l != [] && SingleLine(l) && (tail != [] ==> l[|l| - 1] == '\n')
    ensures FirstLineLength(l + tail) == |l|
  {
    if l[|l| - 1] == '\n' {
      FirstLineOf(l, tail);
    } else {
      assert l + tail == l;
      assert forall k :: 0 <= k < |l| ==> l[k] != '\n';
    }
  }

  /** Line-shaped lines are the only split of their concatenation: splitting
      it gives them back. */
  lemma {:induction false} SplitUnique(r: seq<string>)
    requires LineShaped(r)
    ensures SplitLines(Concat(r)) == r
  {
    if r != [] {
      var l, rest := r[0], r[1..];
      assert forall k :: 0 <= k < |rest| ==> rest[k] == r[k + 1];
      assert LineShaped(rest);
      SplitUnique(rest);
      var s := Concat(r);
      assert s == l + Concat(rest);
      FirstLineIs(l, Concat(rest));
      assert s[..|l|] == l;
      assert s[|l|..] == Concat(rest);
      assert r == [l] + rest;
    }
  }

  /** ReadLines' contract determines its result: line-shaped lines that
      concatenate to the translated text are the lines read. */
  lemma ReadLinesUnique(text: string, r: seq<string>)
    requires LineShaped(r) && Concat(r) == TranslateNewlines(text)
    ensures ReadLines(text) == r
  {
    SplitUnique(r);
  }

  /** A file of bare lines reads as those lines, each ending in "\n",
      whichever of the three line endings it was written with; a last line
      without an ending is read as it is. */
  lemma ReadTerminate(ls: seq<string>, eol: string, last: string)
    requires Bare(ls) && Eol(eol) && '\r' !in last && '\n' !in last
    ensures ReadLines(Terminate(ls, eol) + last)
            == seq(|ls|, k requires 0 <= k < |ls| => ls[k] + "\n") + (if last == [] then [] else [last])
  {
    var lines := seq(|ls|, k requires 0 <= k < |ls| => ls[k] + "\n");
    var end: seq<string> := if last == [] then [] else [last];
    var r := lines + end;
    TranslateTerminate(ls, eol, last);
    TerminateConcat(ls);
    ConcatAppend(lines, end);
    assert Concat(end) == last by {
      if last != [] {
        assert end[1..] == [];
      }
    }
    LfShaped(ls, last);
    ReadLinesUnique(Terminate(ls, eol) + last, r);
  }

  /** Bare lines each ending in "\n", then a last line without one, are
      shaped like lines read from a file. */
  lemma LfShaped(ls: seq<string>, last: string)
    requires Bare(ls) && '\n' !in last
    ensures LineShaped(seq(|ls|, k requires 0 <= k < |ls| => ls[k] + "\n") + (if last == [] then [] else [last]))
  {
    var lines := seq(|ls|, k requires 0 <= k < |ls| => ls[k] + "\n");
    var r := lines + (if last == [] then [] else [last]);
    forall k | 0 <= k < |lines| ensures Terminated(lines[k]) {
      assert lines[k] == ls[k] + "\n";
      assert forall j :: 0 <= j < |ls[k]| ==> lines[k][j] == ls[k][j];
    }
    assert forall k :: 0 <= k < |r| ==> r[k] == if k < |lines| then lines[k] else last;
  }
}

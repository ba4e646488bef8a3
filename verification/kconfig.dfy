/**
 The Kconfig-to-C-header compiler of yunetas (`kconfig2include`): every
 `KEY=VALUE` line of a Kconfig-style file becomes one `#define` line of a C
 header, in input order. Blank lines, `#` comments and lines without `=`
 contribute nothing.
 */
module Kconfig {
  import opened Wrappers
  import opened Text

  /** One setting of a Kconfig-style file, key and value already trimmed. */
  datatype Entry = Entry(key: string, value: string)

  /** A line yields a `#define`: once stripped it is not blank, is not a `#`
      comment, and holds a `=`. */
  predicate Qualifies(line: string) {
    var t := Strip(line);
    t != [] && t[0] != '#' && '=' in t
  }

  /** `e` is the setting of `line`: the stripped line is some text `k` free
      of `=`, then `=`, then `v`, and `e` holds `k` and `v` trimmed. */
  ghost predicate Holds(line: string, e: Entry) {
    exists k, v :: Strip(line) == k + "=" + v && '=' !in k && e == Entry(Strip(k), Strip(v))
  }

  /** The setting a line holds, if it holds one. */
  function ParseLine(line: string): (r: Option<Entry>)
    ensures r.Some? <==> Qualifies(line)
  {
    var t := Strip(line);
    if t == [] || t[0] == '#' then None
    else
      match SplitOnce(t, '=')
      case None => None
      case Some((k, v)) => Some(Entry(Strip(k), Strip(v)))
  }

  /** The C text a value becomes, tried in this order: exactly `y` is 1, a
      run of ASCII digits is a number, and anything else is a string literal
      whose leading and trailing double quotes (all of them) are replaced by
      one pair. */
  function ValueText(v: string): string {
    if v == "y" then "1"
    else if IsDigits(v) then v
    else "\"" + Trim(v, Quote) + "\""
  }

  /** ValueText's three cases and their priority: `y` first, then digits,
      and otherwise a quoted string whose inner text is the value with every
      leading and trailing double quote cut off, so that it neither starts
      nor ends with one. */
  lemma ValueTextSpec(v: string)
    ensures v == "y" ==> ValueText(v) == "1"
    ensures v != "y" && IsDigits(v) ==> ValueText(v) == v
    ensures v != "y" && !IsDigits(v) ==>
              var r := ValueText(v);
              |r| >= 2 && r[0] == '"' && r[|r| - 1] == '"'
              && IsTrimOf(r[1..|r| - 1], v, Quote)
  {
    if v != "y" && !IsDigits(v) {
      var inner := Trim(v, Quote);
      var r := ValueText(v);
      TrimSpec(v, Quote);
      assert r == "\"" + inner + "\"";
      assert |r| == |inner| + 2;
      assert r[0] == '"';
      assert r[|inner| + 1] == '"';
      assert r[1..|r| - 1] == inner;
    }
  }

  /** The header line an entry becomes. */
  function DefineLine(e: Entry): string {
    "#define " + e.key + " " + ValueText(e.value) + "\n"
  }

  /** The header lines of a run of entries, one per entry and in order. */
  function Defines(es: seq<Entry>): seq<string> {
    seq(|es|, i requires 0 <= i < |es| => DefineLine(es[i]))
  }

  /** The header text of a run of entries. */
  function Render(es: seq<Entry>): string {
    Concat(Defines(es))
  }

  /** The lines of `lines` that yield a `#define`, in their original order. */
  function Qualified(lines: seq<string>): seq<string> {
    if lines == [] then []
    else if Qualifies(lines[0]) then [lines[0]] + Qualified(lines[1..])
    else Qualified(lines[1..])
  }

  /** The settings of a file, one per qualifying line, in order. */
  function Parse(lines: seq<string>): seq<Entry> {
    if lines == [] then []
    else
      match ParseLine(lines[0])
      case Some(e) => [e] + Parse(lines[1..])
      case None => Parse(lines[1..])
  }

  /** Qualified keeps exactly the qualifying input lines: each kept line
      qualifies, and a line occurs among the kept ones as often as it
      occurs in the input when it qualifies, and never otherwise. */
  lemma {:induction false} QualifiedSpec(lines: seq<string>)
    ensures |Qualified(lines)| <= |lines|
    ensures forall i :: 0 <= i < |Qualified(lines)| ==> Qualifies(Qualified(lines)[i])
    ensures forall l :: multiset(Qualified(lines))[l] == if Qualifies(l) then multiset(lines)[l] else 0
  {
    if lines != [] {
      QualifiedSpec(lines[1..]);
      var rest := Qualified(lines[1..]);
      assert lines == [lines[0]] + lines[1..];
      assert multiset(lines) == multiset([lines[0]]) + multiset(lines[1..]);
      if Qualifies(lines[0]) {
        assert multiset(Qualified(lines)) == multiset([lines[0]]) + multiset(rest);
        forall i | 0 <= i < |rest| + 1 ensures Qualifies(([lines[0]] + rest)[i]) {
          if i > 0 {
            assert ([lines[0]] + rest)[i] == rest[i - 1];
          }
        }
      }
    }
  }

  /** The kept lines of two runs of lines are those of the first followed
      by those of the second: the filter keeps the input order. */
  lemma {:induction false} QualifiedAppend(a: seq<string>, b: seq<string>)
    ensures Qualified(a + b) == Qualified(a) + Qualified(b)
  {
    if a == [] {
      assert a + b == b;
    } else {
      assert (a + b)[0] == a[0];
      assert (a + b)[1..] == a[1..] + b;
      QualifiedAppend(a[1..], b);
    }
  }

  /** A single line is kept exactly when it qualifies. */
  lemma QualifiedOne(line: string)
    ensures Qualified([line]) == if Qualifies(line) then [line] else []
  {
    assert [line][1..] == [];
  }

  /** Parsing keeps one setting per qualifying line. */
  lemma {:induction false} ParseLength(lines: seq<string>)
    ensures |Parse(lines)| == |Qualified(lines)|
  {
    if lines != [] {
      ParseLength(lines[1..]);
    }
  }

  /** The `i`-th setting is the one the `i`-th qualifying line holds: the
      order of the file is kept, with no sorting and no removal of repeated
      keys. */
  lemma {:induction false} ParseAt(lines: seq<string>, i: nat)
    requires i < |Parse(lines)|
    ensures i < |Qualified(lines)|
    ensures ParseLine(Qualified(lines)[i]) == Some(Parse(lines)[i])
  {
    ParseLength(lines);
    var rest, qrest := Parse(lines[1..]), Qualified(lines[1..]);
    if ParseLine(lines[0]).Some? {
      if i == 0 {
        assert Qualified(lines)[0] == lines[0];
      } else {
        ParseAt(lines[1..], i - 1);
        assert Parse(lines)[i] == rest[i - 1];
        assert Qualified(lines)[i] == qrest[i - 1];
      }
    } else {
      ParseAt(lines[1..], i);
    }
  }

  /** The header body generated from the lines of a Kconfig-style file. */
  function Compile(lines: seq<string>): string {
    Render(Parse(lines))
  }

  /** kconfig2include: the accumulating loop over the file's lines. */
  method Kconfig2Include(lines: seq<string>) returns (content: string)
    ensures content == Compile(lines)
  {
    content := "";
    for i := 0 to |lines|
      invariant content == Compile(lines[..i])
    {
      var out := LineOutput(lines[i]);
      CompileStep(lines, i);
      content := content + out;
    }
    assert lines[..|lines|] == lines;
  }

  /** The body of kconfig2include's loop: what one line adds to the header. */
  method LineOutput(line: string) returns (out: string)
    ensures out == Compile([line])
  {
    CompileOne(line);
    out := "";
    var t := Strip(line);
    if t != [] && t[0] != '#' {
      match SplitOnce(t, '=')
      case Some((k, v)) =>
        var key, value := Strip(k), Strip(v);
        assert ParseLine(line) == Some(Entry(key, value));
        out := DefineOutput(key, value);
      case None =>
    }
  }

  /** The value processing of kconfig2include's loop: the `#define` line
      for a key and a value already trimmed. */
  method DefineOutput(key: string, value: string) returns (out: string)
    ensures out == DefineLine(Entry(key, value))
  {
    if value == "y" {
      out := "#define " + key + " 1\n";
    } else if IsDigits(value) {
      out := "#define " + key + " " + value + "\n";
    } else {
      var inner := Trim(value, Quote);
      out := "#define " + key + " \"" + inner + "\"\n";
    }
  }

  /** Compiling one more line appends that line's output. */
  lemma CompileStep(lines: seq<string>, i: nat)
    requires i < |lines|
    ensures Compile(lines[..i + 1]) == Compile(lines[..i]) + Compile([lines[i]])
  {
    CompileAppend(lines[..i], [lines[i]]);
    assert lines[..i] + [lines[i]] == lines[..i + 1];
  }

  /** One line compiles to its `#define` or to nothing. */
  lemma CompileOne(line: string)
    ensures Compile([line]) == match ParseLine(line)
                               case Some(e) => DefineLine(e)
                               case None => ""
  {
    assert [line][1..] == [];
    match ParseLine(line)
    case Some(e) =>
      assert Parse([line]) == [e];
      assert Defines([e]) == [DefineLine(e)];
      assert Concat([DefineLine(e)]) == DefineLine(e) + Concat([]);
    case None =>
      assert Parse([line]) == [];
  }

  lemma {:induction false} ParseAppend(a: seq<string>, b: seq<string>)
    ensures Parse(a + b) == Parse(a) + Parse(b)
  {
    if a == [] {
      assert a + b == b;
    } else {
      assert (a + b)[0] == a[0];
      assert (a + b)[1..] == a[1..] + b;
      ParseAppend(a[1..], b);
    }
  }

  /** Lines are compiled independently of each other: the output for two
      runs of lines is the output for the first followed by that for the
      second. */
  lemma CompileAppend(a: seq<string>, b: seq<string>)
    ensures Compile(a + b) == Compile(a) + Compile(b)
  {
    ParseAppend(a, b);
    var x, y := Parse(a), Parse(b);
    DefinesAppend(x, y);
    ConcatAppend(Defines(x), Defines(y));
  }

  /** The header lines of two runs of entries, one after the other. */
  lemma DefinesAppend(x: seq<Entry>, y: seq<Entry>)
    ensures Defines(x + y) == Defines(x) + Defines(y)
  {
    var l, r := Defines(x + y), Defines(x) + Defines(y);
    assert |l| == |r|;
    forall i | 0 <= i < |l| ensures l[i] == r[i] {
      if i < |x| {
        assert (x + y)[i] == x[i];
      } else {
        assert (x + y)[i] == y[i - |x|];
      }
    }
  }

  /** A blank line, a comment or a line without `=` can be removed without
      changing the output: it contributes nothing and is not an error. */
  lemma CompileSkips(a: seq<string>, line: string, b: seq<string>)
    requires !Qualifies(line)
    ensures Compile(a + [line] + b) == Compile(a + b)
  {
    CompileAppend(a + [line], b);
    CompileAppend(a, [line]);
    CompileOne(line);
    CompileAppend(a, b);
  }

  /** How an entry is written in a Kconfig-style file. */
  function FormatLine(e: Entry): string {
    e.key + "=" + e.value
  }

  /** An entry that a line can hold: both sides trimmed, no `=` in the key
      and the key not starting a comment. */
  predicate WellFormed(e: Entry) {
    && '=' !in e.key
    && Strip(e.key) == e.key
    && Strip(e.value) == e.value
    && (e.key == [] || e.key[0] != '#')
  }

  /** The split is at the first `=` and both sides are trimmed: later `=`
      characters stay in the value. */
  lemma ParseLineAt(line: string, k: string, v: string)
    requires Strip(line) == k + "=" + v && '=' !in k
    requires Strip(line)[0] != '#'
    ensures ParseLine(line) == Some(Entry(Strip(k), Strip(v)))
  {
    SplitOnceAtFirst(Strip(line), '=', k, v);
  }

  /** What ParseLine returns is the setting the line holds. */
  lemma ParseLineHolds(line: string)
    requires ParseLine(line).Some?
    ensures Holds(line, ParseLine(line).value)
  {
    var t := Strip(line);
    var (k, v) := SplitOnce(t, '=').value;
    assert t == k + "=" + v;
  }

  /** Writing a well-formed entry as a line and parsing it gives it back. */
  lemma ParseFormat(e: Entry)
    requires WellFormed(e)
    ensures ParseLine(FormatLine(e)) == Some(e)
  {
    var s := FormatLine(e);
    assert s[0] == (if e.key == [] then '=' else e.key[0]);
    assert s[|s| - 1] == (if e.value == [] then '=' else e.value[|e.value| - 1]);
    TrimSpec(e.key, Whitespace);
    TrimSpec(e.value, Whitespace);
    TrimNoop(s, Whitespace);
    ParseLineAt(s, e.key, e.value);
  }

  /** Every parsed entry is well-formed, and its canonical line parses to it:
      ParseLine and FormatLine are inverse on what ParseLine produces. */
  lemma ParsedWellFormed(line: string)
    requires ParseLine(line).Some?
    ensures WellFormed(ParseLine(line).value)
    ensures ParseLine(FormatLine(ParseLine(line).value)) == ParseLine(line)
  {
    var e := ParseLine(line).value;
    var t := Strip(line);
    ParseLineHolds(line);
    var k, v :| t == k + "=" + v && '=' !in k && e == Entry(Strip(k), Strip(v));
    TrimWithout(k, Whitespace, '=');
    TrimIdempotent(k, Whitespace);
    TrimIdempotent(v, Whitespace);
    TrimSpec(line, Whitespace);
    assert t != [] && t[0] !in Whitespace;
    if k != [] {
      assert k[0] == t[0];
      TrimKeepsFirst(k, Whitespace);
    }
    ParseFormat(e);
  }

  /** A line as read from a file holds no "\n" once stripped. */
  lemma StripSingleLine(l: string)
    requires SingleLine(l)
    ensures '\n' !in Strip(l)
  {
    if l != [] && l[|l| - 1] == '\n' {
      var body := l[..|l| - 1];
      assert '\n' !in body by {
        assert forall k :: 0 <= k < |body| ==> body[k] == l[k];
      }
      assert TrimRight(l, Whitespace) == TrimRight(body, Whitespace);
      TrimWithout(body, Whitespace, '\n');
    } else {
      TrimWithout(l, Whitespace, '\n');
    }
  }

  /** Neither side of an entry read from a file line holds a "\n". */
  predicate OnOneLine(e: Entry) {
    '\n' !in e.key && '\n' !in e.value
  }

  lemma ParsedOnOneLine(line: string)
    requires SingleLine(line) && ParseLine(line).Some?
    ensures OnOneLine(ParseLine(line).value)
  {
    StripSingleLine(line);
    ParseLineHolds(line);
    var k, v :| Strip(line) == k + "=" + v && '=' !in k
                && ParseLine(line).value == Entry(Strip(k), Strip(v));
    TrimWithout(k, Whitespace, '\n');
    TrimWithout(v, Whitespace, '\n');
  }

  /** The `#define` of an entry on one line is one complete header line. */
  lemma DefineTerminated(e: Entry)
    requires OnOneLine(e)
    ensures Terminated(DefineLine(e))
  {
    var vt := ValueText(e.value);
    if e.value != "y" && !IsDigits(e.value) {
      TrimWithout(e.value, Quote, '\n');
    }
    assert '\n' !in vt;
    var body := "#define " + e.key + " " + vt;
    assert '\n' !in body;
    var d := DefineLine(e);
    assert d == body + "\n";
    forall p | 0 <= p < |d| - 1 ensures d[p] != '\n' {
      assert d[p] == body[p];
    }
  }

  /** For the lines of a file, every generated `#define` is one complete
      header line. */
  lemma DefinesTerminated(lines: seq<string>)
    requires forall i :: 0 <= i < |lines| ==> SingleLine(lines[i])
    ensures forall i :: 0 <= i < |Parse(lines)| ==> Terminated(Defines(Parse(lines))[i])
  {
    var es := Parse(lines);
    forall i | 0 <= i < |es| ensures Terminated(Defines(es)[i]) {
      ParseAt(lines, i);
      QualifiedFrom(lines, i);
      ParsedOnOneLine(Qualified(lines)[i]);
      DefineTerminated(es[i]);
    }
  }

  /** For the lines of a file, the generated header body consists of exactly
      one line per qualifying input line: splitting it into lines gives the
      `#define` of each setting, in order. */
  lemma CompileLines(lines: seq<string>)
    requires forall i :: 0 <= i < |lines| ==> SingleLine(lines[i])
    ensures SplitLines(Compile(lines)) == Defines(Parse(lines))
    ensures |SplitLines(Compile(lines))| == |Qualified(lines)|
  {
    DefinesTerminated(lines);
    SplitConcat(Defines(Parse(lines)));
    ParseLength(lines);
  }

  /** Every qualifying line is one of the input lines. */
  lemma {:induction false} QualifiedFrom(lines: seq<string>, i: nat)
    requires i < |Qualified(lines)|
    ensures Qualified(lines)[i] in lines
  {
    if Qualifies(lines[0]) {
      if i > 0 {
        QualifiedFrom(lines[1..], i - 1);
      }
    } else {
      QualifiedFrom(lines[1..], i);
    }
  }

  /** The value `y` alone means true; changing its case makes it a string.
      Digits stay unquoted, and an empty value is the empty string. */
  lemma ValueExamples()
    ensures ValueText("y") == "1"
    ensures ValueText("Y") == "\"Y\""
    ensures ValueText("42") == "42"
    ensures ValueText("") == "\"\""
  {
    assert !IsDigit('Y');
    TrimNoop("Y", Quote);
  }

  /** A quoted `y` is the string "y", not true. */
  lemma QuotedYesExample()
    ensures ValueText("\"y\"") == "\"y\""
  {
    var yq := "\"y\"";
    assert !IsDigit('"');
    assert yq[..1] == "\"" && yq[1..2] == "y" && yq[2..] == "\"";
    assert IsTrimOf("y", yq, Quote);
    TrimUnique("y", yq, Quote);
  }

  /** Every leading and trailing double quote is cut, not only one pair. */
  lemma QuoteRunExample()
    ensures ValueText("\"\"\"hi\"") == "\"hi\""
  {
    var q := "\"\"\"hi\"";
    assert !IsDigit('"');
    TrimNoop("hi", Quote);
    assert q[..3] == "\"\"\"" && q[3..5] == "hi" && q[5..] == "\"";
    assert IsTrimOf("hi", q, Quote);
    TrimUnique("hi", q, Quote);
  }

  /** A Kconfig-style file gives the same header whether its lines end in
      "\n", "\r\n" or "\r", with or without a final line ending. */
  lemma CompileAnyEol(ls: seq<string>, eol: string, last: string)
    requires Bare(ls) && Eol(eol) && '\r' !in last && '\n' !in last
    ensures Compile(ReadLines(Terminate(ls, eol) + last)) == Compile(ReadLines(Terminate(ls, "\n") + last))
  {
    ReadTerminate(ls, eol, last);
    ReadTerminate(ls, "\n", last);
  }
}

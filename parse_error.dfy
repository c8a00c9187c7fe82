/**
 * The parser's error record and its rendering as a message (`formatError`): a 1-based line
 * number, the text of that line, and a caret under the failing column.
 */
module ParseError {
  import opened Wrappers
  import opened Strings

  /** The error the parser keeps: where a terminal match failed and what it expected there. */
  datatype SyntaxError = SyntaxError(offset: nat, expected: string)

  /**
   * What every failed terminal match does to the stored error: it is replaced unless it lies
   * strictly further on than the new failure.
   */
  function Record(e: Option<SyntaxError>, at: nat, expected: string): (r: Option<SyntaxError>)
    ensures r.Some? && at <= r.value.offset && NoEarlier(e, r)
    ensures r == e || r == Some(SyntaxError(at, expected))
    ensures e.Some? && e.value.offset == at ==> r.value.expected == expected
  {
    if e.None? || e.value.offset <= at then Some(SyntaxError(at, expected)) else e
  }

  /** `after` lies no earlier than `before`: recording failures never moves the stored error back. */
  predicate NoEarlier(before: Option<SyntaxError>, after: Option<SyntaxError>)
  {
    before.Some? ==> after.Some? && before.value.offset <= after.value.offset
  }

  /** The stored error after the failures `fs` are recorded in order, starting from `e`. */
  function RecordAll(e: Option<SyntaxError>, fs: seq<SyntaxError>): Option<SyntaxError>
  {
    if fs == [] then e
    else
      var last := fs[|fs| - 1];
      Record(RecordAll(e, fs[..|fs| - 1]), last.offset, last.expected)
  }

  /**
   * After any nonempty sequence of failures, the stored error is the failure at the furthest
   * offset, and among those at that offset the one recorded last.
   */
  lemma {:induction false} FurthestFailureWins(fs: seq<SyntaxError>) returns (k: nat)
    requires fs != []
    ensures k < |fs| && RecordAll(None, fs) == Some(fs[k])
    ensures forall j | 0 <= j < |fs| :: fs[j].offset <= fs[k].offset
    ensures forall j | k < j < |fs| :: fs[j].offset < fs[k].offset
  {
    var init := fs[..|fs| - 1];
    var last := fs[|fs| - 1];
    if init == [] {
      k := 0;
    } else {
      var k' := FurthestFailureWins(init);
      assert forall j | 0 <= j < |init| :: init[j] == fs[j];
      assert RecordAll(None, fs) == Record(Some(init[k']), last.offset, last.expected);
      if fs[k'].offset <= last.offset {
        k := |fs| - 1;
      } else {
        k := k';
      }
    }
  }

  /** A later failure at or beyond an earlier one wipes out the earlier one. */
  lemma RecordAbsorbs(e: Option<SyntaxError>, a: nat, x: string, b: nat, y: string)
    requires a <= b
    ensures Record(Record(e, a, x), b, y) == Record(e, b, y)
  {
  }

  /** `input.split(/\n/g)`: the pieces between line feeds, at least one. */
  function SplitLines(s: string): (lines: seq<string>)
    ensures |lines| >= 1
    decreases |s|
  {
    if s == [] then [""]
    else
      var init := SplitLines(s[..|s| - 1]);
      if s[|s| - 1] == '\n' then init + [""]
      else init[..|init| - 1] + [init[|init| - 1] + [s[|s| - 1]]]
  }

  /** The lines joined back with line feeds. */
  function JoinLines(lines: seq<string>): string
    requires |lines| >= 1
  {
    if |lines| == 1 then lines[0] else JoinLines(lines[..|lines| - 1]) + "\n" + lines[|lines| - 1]
  }

  lemma JoinAppendLine(lines: seq<string>, l: string)
    requires |lines| >= 1
    ensures JoinLines(lines + [l]) == JoinLines(lines) + "\n" + l
  {
    assert (lines + [l])[..|lines|] == lines;
  }

  lemma JoinAppendChar(pre: seq<string>, l: string, c: char)
    ensures JoinLines(pre + [l + [c]]) == JoinLines(pre + [l]) + [c]
  {
    if pre == [] {
      assert pre + [l + [c]] == [l + [c]];
      assert pre + [l] == [l];
    } else {
      JoinAppendLine(pre, l + [c]);
      JoinAppendLine(pre, l);
      assert JoinLines(pre) + "\n" + (l + [c]) == (JoinLines(pre) + "\n" + l) + [c];
    }
  }

  /** Joining the split lines gives back the input. */
  lemma {:induction false} JoinSplit(s: string)
    ensures JoinLines(SplitLines(s)) == s
    decreases |s|
  {
    if s != [] {
      var s' := s[..|s| - 1];
      JoinSplit(s');
      assert s == s' + [s[|s| - 1]];
      if s[|s| - 1] == '\n' {
        JoinAppendLine(SplitLines(s'), "");
      } else {
        var init := SplitLines(s');
        var m := |init| - 1;
        assert init == init[..m] + [init[m]];
        JoinAppendChar(init[..m], init[m], s[|s| - 1]);
      }
    }
  }

  /** No split line holds a line feed. */
  lemma {:induction false} SplitLinesFree(s: string)
    ensures forall k | 0 <= k < |SplitLines(s)| :: '\n' !in SplitLines(s)[k]
    decreases |s|
  {
    if s != [] {
      var s' := s[..|s| - 1];
      SplitLinesFree(s');
      var init := SplitLines(s');
      var lines := SplitLines(s);
      forall k | 0 <= k < |lines| ensures '\n' !in lines[k] {
        if k < |lines| - 1 {
          assert lines[k] == init[k];
        } else if s[|s| - 1] != '\n' {
          assert lines[k] == init[|init| - 1] + [s[|s| - 1]];
        }
      }
    }
  }

  /** There is one more line than line feeds. */
  lemma {:induction false} SplitLinesCount(s: string)
    ensures |SplitLines(s)| == Count(s, '\n') + 1
    decreases |s|
  {
    if s != [] {
      SplitLinesCount(s[..|s| - 1]);
    }
  }

  /** Offset at which line `n` (0-based) begins; line `|lines|` would begin past the end. */
  function LineStart(lines: seq<string>, n: nat): nat
    requires n <= |lines|
  {
    if n == 0 then 0 else LineStart(lines, n - 1) + |lines[n - 1]| + 1
  }

  /** Line `n` begins just past the first `n` lines joined and a line feed. */
  lemma {:induction false} LineStartJoin(lines: seq<string>, n: nat)
    requires 1 <= n <= |lines|
    ensures LineStart(lines, n) == |JoinLines(lines[..n])| + 1
    decreases n
  {
    if n == 1 {
      assert lines[..1] == [lines[0]];
    } else {
      LineStartJoin(lines, n - 1);
      assert lines[..n] == lines[..n - 1] + [lines[n - 1]];
      JoinAppendLine(lines[..n - 1], lines[n - 1]);
    }
  }

  lemma {:induction false} LineStartMonotone(lines: seq<string>, a: nat, b: nat)
    requires 1 <= |lines| && a <= b <= |lines|
    ensures LineStart(lines, a) + (b - a) <= LineStart(lines, b)
    decreases b - a
  {
    if a < b {
      LineStartMonotone(lines, a + 1, b);
    }
  }

  lemma LineStartOfAll(lines: seq<string>)
    requires |lines| >= 1
    ensures LineStart(lines, |lines|) == |JoinLines(lines)| + 1
  {
    LineStartJoin(lines, |lines|);
    assert lines[..|lines|] == lines;
  }

  /** The position one past the last line is one past the end of the input. */
  lemma LastLineStart(input: string)
    ensures LineStart(SplitLines(input), |SplitLines(input)|) == |input| + 1
  {
    JoinSplit(input);
    LineStartOfAll(SplitLines(input));
  }

  /**
   * The 0-based index, from `n` on, of the line whose extent (its text and its line feed) holds
   * `off`; the last line when none before it does.
   */
  function LineIndex(lines: seq<string>, off: nat, n: nat): (k: nat)
    requires n < |lines|
    ensures n <= k < |lines|
    ensures LineStart(lines, n) <= off ==> LineStart(lines, k) <= off
    ensures k + 1 < |lines| ==> off < LineStart(lines, k + 1)
    decreases |lines| - n
  {
    if n + 1 == |lines| || off < LineStart(lines, n + 1) then n else LineIndex(lines, off, n + 1)
  }

  /** Exactly one line's extent holds a given offset. */
  lemma LineIndexUnique(lines: seq<string>, off: nat, k: nat, m: nat)
    requires 1 <= |lines| && k < |lines| && m < |lines|
    requires LineStart(lines, k) <= off < LineStart(lines, k + 1)
    requires LineStart(lines, m) <= off < LineStart(lines, m + 1)
    ensures k == m
  {
    if k < m {
      LineStartMonotone(lines, k + 1, m);
    } else if m < k {
      LineStartMonotone(lines, m + 1, k);
    }
  }

  /** The decimal digit character for `d`. */
  function Digit(d: nat): char
    requires d < 10
  {
    ('0' as int + d) as char
  }

  /** `'' + n` for a line number: its decimal digits, most significant first. */
  function Decimal(n: nat): (s: string)
    ensures |s| >= 1
    ensures forall k | 0 <= k < |s| :: '0' <= s[k] <= '9'
    ensures |s| > 1 ==> s[0] != '0'
  {
    if n < 10 then [Digit(n)] else Decimal(n / 10) + [Digit(n % 10)]
  }

  /** The number a string of decimal digits denotes. */
  function DecimalValue(s: string): nat
    requires forall k | 0 <= k < |s| :: '0' <= s[k] <= '9'
  {
    if s == [] then 0 else DecimalValue(s[..|s| - 1]) * 10 + (s[|s| - 1] as int - '0' as int)
  }

  lemma {:induction false} DecimalRoundTrip(n: nat)
    ensures DecimalValue(Decimal(n)) == n
  {
    if n >= 10 {
      DecimalRoundTrip(n / 10);
      var s := Decimal(n);
      assert s[..|s| - 1] == Decimal(n / 10);
    }
  }

  /** `n` blanks, as `formatError` pads the caret line. */
  function Spaces(n: nat): string
  {
    if n == 0 then "" else Spaces(n - 1) + " "
  }

  /** The message `formatError` builds for an error at an offset within the input. */
  function ErrorMessage(input: string, f: SyntaxError): string
    requires f.offset <= |input|
  {
    LinesMessage(SplitLines(input), f)
  }

  /** The message for an error at an offset within the extent of the given lines. */
  function LinesMessage(lines: seq<string>, f: SyntaxError): string
    requires 1 <= |lines|
  {
    var k := LineIndex(lines, f.offset, 0);
    Message(k + 1, f.expected, lines[k], f.offset - LineStart(lines, k))
  }

  /**
   * The message's three lines: where and what was expected, the offending line itself, and a
   * caret `column` places in.
   */
  function Message(lineNo: nat, expected: string, line: string, column: nat): string
  {
    "Line " + Decimal(lineNo) + ": expected " + expected + "\n" + line + "\n" + Spaces(column) + "^"
  }

  /** `formatError`: the input is cut at its line feeds, and the lines are searched for the offset. */
  method FormatError(f: SyntaxError, input: string) returns (message: string)
    requires f.offset <= |input|
    ensures message == ErrorMessage(input, f)
  {
    var lines := SplitLines(input);
    LastLineStart(input);
    message := FormatLines(f, lines);
  }

  /**
   * The two loops of `formatError`: the first walks whole lines (each with its line feed) until
   * it passes the error offset; the second pads the caret under the failing column. The offset
   * must lie within the lines' extent, or the first loop would run past the last line.
   */
  method FormatLines(f: SyntaxError, lines: seq<string>) returns (message: string)
    requires 1 <= |lines| && f.offset < LineStart(lines, |lines|)
    ensures message == LinesMessage(lines, f)
  {
    var lineNo := 0;
    var offset := 0;
    while offset < f.offset + 1
      invariant lineNo <= |lines|
      invariant offset == LineStart(lines, lineNo)
      invariant lineNo > 0 ==> LineStart(lines, lineNo - 1) <= f.offset
      decreases |lines| - lineNo
    {
      offset := offset + |lines[lineNo]| + 1;
      lineNo := lineNo + 1;
    }
    LineIndexUnique(lines, f.offset, lineNo - 1, LineIndex(lines, f.offset, 0));
    message := "Line " + Decimal(lineNo) + ": expected " + f.expected + "\n";
    var line := lines[lineNo - 1];
    message := message + line + "\n";
    offset := offset - (|line| + 1);
    ghost var head := message;
    while offset < f.offset
      invariant LineStart(lines, lineNo - 1) <= offset <= f.offset
      invariant message == head + Spaces(offset - LineStart(lines, lineNo - 1))
    {
      message := message + " ";
      offset := offset + 1;
    }
    message := message + "^";
  }

  /** The first `m` lines, joined, begin the joined text, and a line feed follows them unless they are all. */
  lemma {:induction false} JoinPrefix(lines: seq<string>, m: nat)
    requires 1 <= m <= |lines|
    ensures |JoinLines(lines[..m])| <= |JoinLines(lines)|
    ensures JoinLines(lines)[..|JoinLines(lines[..m])|] == JoinLines(lines[..m])
    ensures m < |lines| ==>
      |JoinLines(lines[..m])| < |JoinLines(lines)| && JoinLines(lines)[|JoinLines(lines[..m])|] == '\n'
    decreases |lines| - m
  {
    if m == |lines| {
      assert lines[..m] == lines;
    } else {
      var init := lines[..|lines| - 1];
      assert init[..m] == lines[..m];
      assert lines == init + [lines[|lines| - 1]];
      JoinAppendLine(init, lines[|lines| - 1]);
      if m < |init| {
        JoinPrefix(init, m);
      } else {
        assert init[..m] == init;
      }
    }
  }

  /** Lines free of line feeds, joined, hold one line feed fewer than there are lines. */
  lemma {:induction false} CountJoin(lines: seq<string>)
    requires |lines| >= 1
    requires forall k | 0 <= k < |lines| :: '\n' !in lines[k]
    ensures Count(JoinLines(lines), '\n') == |lines| - 1
    decreases |lines|
  {
    CountAbsent(lines[|lines| - 1], '\n');
    if |lines| > 1 {
      var init := lines[..|lines| - 1];
      CountJoin(init);
      CountAppend(JoinLines(init) + "\n", lines[|lines| - 1], '\n');
      CountAppend(JoinLines(init), "\n", '\n');
      assert Count("\n", '\n') == 1 by {
        assert "\n"[..0] == "";
      }
    }
  }

  /** Up to its end, line `k` (with the lines before it) is the joined first `k + 1` lines. */
  lemma LineUpTo(lines: seq<string>, k: nat)
    requires k < |lines|
    ensures LineStart(lines, k) + |lines[k]| == |JoinLines(lines[..k + 1])|
    ensures k == 0 ==> JoinLines(lines[..k + 1]) == lines[k]
    ensures k > 0 ==> JoinLines(lines[..k + 1]) == JoinLines(lines[..k]) + "\n" + lines[k]
    ensures k > 0 ==> LineStart(lines, k) == |JoinLines(lines[..k])| + 1
  {
    LineStartJoin(lines, k + 1);
    if k == 0 {
      assert lines[..1] == [lines[0]];
    } else {
      LineStartJoin(lines, k);
      assert lines[..k + 1] == lines[..k] + [lines[k]];
      JoinAppendLine(lines[..k], lines[k]);
    }
  }

  /** Where line `k` lies in the joined text. */
  lemma LineExtent(lines: seq<string>, k: nat)
    requires k < |lines|
    ensures LineStart(lines, k) + |lines[k]| <= |JoinLines(lines)|
    ensures JoinLines(lines)[LineStart(lines, k)..LineStart(lines, k) + |lines[k]|] == lines[k]
    ensures k > 0 ==> JoinLines(lines)[LineStart(lines, k) - 1] == '\n'
    ensures k + 1 < |lines| ==>
      LineStart(lines, k) + |lines[k]| < |JoinLines(lines)|
      && JoinLines(lines)[LineStart(lines, k) + |lines[k]|] == '\n'
  {
    var all := JoinLines(lines);
    var start := LineStart(lines, k);
    LineUpTo(lines, k);
    JoinPrefix(lines, k + 1);
    var upto := JoinLines(lines[..k + 1]);
    assert all[..|upto|] == upto;
    assert all[start..start + |lines[k]|] == upto[start..];
    if k > 0 {
      assert all[start - 1] == upto[start - 1];
    }
  }

  /** Before line `k` the joined text holds exactly `k` line feeds. */
  lemma LinesBefore(lines: seq<string>, k: nat)
    requires k < |lines|
    requires forall j | 0 <= j < |lines| :: '\n' !in lines[j]
    ensures LineStart(lines, k) <= |JoinLines(lines)|
    ensures Count(JoinLines(lines)[..LineStart(lines, k)], '\n') == k
  {
    var all := JoinLines(lines);
    var start := LineStart(lines, k);
    LineUpTo(lines, k);
    JoinPrefix(lines, k + 1);
    var upto := JoinLines(lines[..k + 1]);
    assert all[..start] == upto[..start];
    if k == 0 {
      assert all[..start] == "";
    } else {
      var before := JoinLines(lines[..k]);
      assert upto[..start] == before + "\n";
      CountJoin(lines[..k]);
      CountAppend(before, "\n", '\n');
      assert Count("\n", '\n') == 1 by {
        assert "\n"[..0] == "";
      }
    }
  }

  /**
   * `formatError` reports the maximal line-feed-free stretch of the input whose extent holds the
   * offset: the line number counts the line feeds before it, the text is exactly that stretch,
   * and the caret stands `offset - start` columns in (on the line's own line feed at most).
   */
  lemma ErrorMessageLocates(input: string, e: SyntaxError) returns (lineNo: nat, start: nat, line: string)
    requires e.offset <= |input|
    ensures start <= e.offset <= start + |line| <= |input|
    ensures ErrorMessage(input, e) == Message(lineNo, e.expected, line, e.offset - start)
    ensures lineNo == Count(input[..start], '\n') + 1
    ensures input[start..start + |line|] == line && '\n' !in line
    ensures start == 0 || input[start - 1] == '\n'
    ensures start + |line| == |input| || input[start + |line|] == '\n'
  {
    var lines := SplitLines(input);
    var k := MessageLine(input, e);
    JoinSplit(input);
    SplitLinesFree(input);
    lineNo, start, line := LineAt(input, lines, e, k);
  }

  /** The location facts for line `k` of lines that join back to the input. */
  lemma LineAt(input: string, lines: seq<string>, e: SyntaxError, k: nat) returns (lineNo: nat, start: nat, line: string)
    requires k < |lines| && JoinLines(lines) == input
    requires forall j | 0 <= j < |lines| :: '\n' !in lines[j]
    requires LineStart(lines, k) <= e.offset < LineStart(lines, k + 1)
    ensures lineNo == k + 1 && start == LineStart(lines, k) && line == lines[k]
    ensures start <= e.offset <= start + |line| <= |input|
    ensures lineNo == Count(input[..start], '\n') + 1
    ensures input[start..start + |line|] == line && '\n' !in line
    ensures start == 0 || input[start - 1] == '\n'
    ensures start + |line| == |input| || input[start + |line|] == '\n'
  {
    lineNo, start, line := k + 1, LineStart(lines, k), lines[k];
    LineInInput(input, lines, k);
  }

  /** The line the message shows is the one whose extent holds the offset. */
  lemma MessageLine(input: string, e: SyntaxError) returns (k: nat)
    requires e.offset <= |input|
    ensures k < |SplitLines(input)|
    ensures LineStart(SplitLines(input), k) <= e.offset < LineStart(SplitLines(input), k + 1)
    ensures LineStart(SplitLines(input), k + 1) == LineStart(SplitLines(input), k) + |SplitLines(input)[k]| + 1
    ensures ErrorMessage(input, e)
      == Message(k + 1, e.expected, SplitLines(input)[k], e.offset - LineStart(SplitLines(input), k))
  {
    var lines := SplitLines(input);
    LastLineStart(input);
    k := LineIndex(lines, e.offset, 0);
  }

  /** Line `k` of lines free of line feeds, located in the input they join back to. */
  lemma LineInInput(input: string, lines: seq<string>, k: nat)
    requires k < |lines| && JoinLines(lines) == input
    requires forall j | 0 <= j < |lines| :: '\n' !in lines[j]
    ensures var start := LineStart(lines, k);
      && start + |lines[k]| <= |input|
      && input[start..start + |lines[k]|] == lines[k]
      && (start == 0 || input[start - 1] == '\n')
      && (start + |lines[k]| == |input| || input[start + |lines[k]|] == '\n')
      && Count(input[..start], '\n') == k
  {
    LineInJoined(lines, k);
  }

  /** Line `k` of lines free of line feeds, located in their joined text. */
  lemma LineInJoined(lines: seq<string>, k: nat)
    requires k < |lines|
    requires forall j | 0 <= j < |lines| :: '\n' !in lines[j]
    ensures var all := JoinLines(lines);
      var start := LineStart(lines, k);
      && start + |lines[k]| <= |all|
      && all[start..start + |lines[k]|] == lines[k]
      && (start == 0 || all[start - 1] == '\n')
      && (start + |lines[k]| == |all| || all[start + |lines[k]|] == '\n')
      && Count(all[..start], '\n') == k
  {
    LineExtent(lines, k);
    LinesBefore(lines, k);
    LineStartOfAll(lines);
    if k + 1 == |lines| {
      assert LineStart(lines, k + 1) == LineStart(lines, k) + |lines[k]| + 1;
    }
  }
}

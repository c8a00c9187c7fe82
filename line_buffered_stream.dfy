/**
 * A transform stream that holds text back until a line feed arrives: each chunk is appended to a
 * line buffer, every completed line (up to and including its `\n`) is pushed downstream, and at
 * the end whatever is left in the buffer is pushed as it is.
 */
module LineBufferedStream {
  import opened Strings

  /**
   * The `\n`-terminated lines of `s`, in order, reading it one character at a time: a line feed
   * completes the line read so far.
   */
  function CompleteLines(s: string): seq<string>
    decreases |s|
  {
    if s == [] then []
    else
      var p := s[..|s| - 1];
      if s[|s| - 1] == '\n' then CompleteLines(p) + [PartialLine(p) + "\n"] else CompleteLines(p)
  }

  /** What follows the last line feed of `s`: the line still waiting for its `\n`. */
  function PartialLine(s: string): (rest: string)
    ensures '\n' !in rest
    decreases |s|
  {
    if s == [] then []
    else if s[|s| - 1] == '\n' then ""
    else PartialLine(s[..|s| - 1]) + [s[|s| - 1]]
  }

  /** Strings laid end to end. */
  function Concat(chunks: seq<string>): string
  {
    if chunks == [] then "" else chunks[0] + Concat(chunks[1..])
  }

  /** The line buffer and what the stream has pushed downstream so far. */
  class LineBuffer {
    var buffer: string
    var pushed: seq<string>

    /** Between calls the buffer never holds a complete line. */
    ghost predicate Valid()
      reads this
    {
      '\n' !in buffer
    }

    constructor ()
      ensures buffer == "" && pushed == []
      ensures Valid()
    {
      buffer := "";
      pushed := [];
    }

    /** `flush`: pushes the buffer contents downstream and empties the buffer. */
    method Flush()
      modifies this
      ensures pushed == old(pushed) + [old(buffer)]
      ensures buffer == ""
    {
      pushed := pushed + [buffer];
      buffer := "";
    }

    /**
     * `writeToBuffer`: appends `str` up to its first line feed, flushes if there was one and
     * carries on with the rest; without a line feed the whole of `str` stays in the buffer.
     */
    method WriteToBuffer(str: string)
      requires Valid()
      modifies this
      ensures Valid()
      ensures pushed == old(pushed) + CompleteLines(old(buffer) + str)
      ensures buffer == PartialLine(old(buffer) + str)
      decreases |str|
    {
      var lineBreak := IndexOf(str, '\n') + 1;
      var line := str[..lineBreak];
      var remainder := str[lineBreak..];
      ghost var before, output := buffer, pushed;
      buffer := buffer + line;
      if lineBreak > 0 {
        FirstLine(before, str);
        Flush();
        EmptyPrefix(remainder);
        WriteToBuffer(remainder);
        AppendAssoc(output, [before + line], CompleteLines(remainder));
      } else {
        buffer := buffer + remainder;
        NoLineFeed(before + str);
        assert before + line + remainder == before + str;
      }
    }

    /** `_transform`: writes the chunk through the line buffer. */
    method Transform(chunk: string)
      requires Valid()
      modifies this
      ensures Valid()
      ensures pushed == old(pushed) + CompleteLines(old(buffer) + chunk)
      ensures buffer == PartialLine(old(buffer) + chunk)
    {
      WriteToBuffer(chunk);
    }

    /** `_flush`: at the end of the input the buffer is pushed, even when empty. */
    method End()
      modifies this
      ensures pushed == old(pushed) + [old(buffer)]
      ensures buffer == "" && Valid()
    {
      Flush();
    }
  }

  /** Every pushed line ends with a line feed and holds no other. */
  lemma {:induction false} LinesEndWithLineFeed(s: string)
    ensures forall k | 0 <= k < |CompleteLines(s)| ::
      var l := CompleteLines(s)[k];
      |l| > 0 && l[|l| - 1] == '\n' && Count(l, '\n') == 1
    decreases |s|
  {
    if s != [] {
      var p := s[..|s| - 1];
      LinesEndWithLineFeed(p);
      if s[|s| - 1] == '\n' {
        var l := PartialLine(p) + "\n";
        CountAbsent(PartialLine(p), '\n');
        assert l[..|l| - 1] == PartialLine(p);
      }
    }
  }

  /** One line is pushed per line feed. */
  lemma {:induction false} OneLinePerLineFeed(s: string)
    ensures |CompleteLines(s)| == Count(s, '\n')
    decreases |s|
  {
    if s != [] {
      OneLinePerLineFeed(s[..|s| - 1]);
    }
  }

  /** Nothing is lost or reordered: the pushed lines and the partial line make up the input. */
  lemma {:induction false} Reassemble(s: string)
    ensures Concat(CompleteLines(s)) + PartialLine(s) == s
    decreases |s|
  {
    if s != [] {
      var p := s[..|s| - 1];
      var lines, rest := CompleteLines(p), PartialLine(p);
      Reassemble(p);
      assert s == p + [s[|s| - 1]];
      if s[|s| - 1] == '\n' {
        ConcatAppend(lines, [rest + "\n"]);
        assert Concat([rest + "\n"]) == rest + "\n" + Concat([]);
        AppendAssoc(Concat(lines), rest, "\n");
      } else {
        AppendAssoc(Concat(lines), rest, [s[|s| - 1]]);
      }
    }
  }

  /** A chunk without a line feed pushes nothing: it is appended to the buffer. */
  lemma NoLineFeedNoPush(buffer: string, chunk: string)
    requires '\n' !in buffer && '\n' !in chunk
    ensures CompleteLines(buffer + chunk) == []
    ensures PartialLine(buffer + chunk) == buffer + chunk
  {
    NoLineFeed(buffer + chunk);
  }

  /** One `_transform` pushes exactly as many lines as the chunk has line feeds. */
  lemma PushesPerChunk(buffer: string, chunk: string)
    requires '\n' !in buffer
    ensures |CompleteLines(buffer + chunk)| == Count(chunk, '\n')
  {
    OneLinePerLineFeed(buffer + chunk);
    CountAppend(buffer, chunk, '\n');
    CountAbsent(buffer, '\n');
  }

  /**
   * Across one `_transform`, the pushed text followed by the buffer grows by exactly the chunk:
   * the output so far plus the buffer is always the input so far.
   */
  lemma TransformConserves(pushed: seq<string>, buffer: string, chunk: string)
    ensures Concat(pushed + CompleteLines(buffer + chunk)) + PartialLine(buffer + chunk)
         == Concat(pushed) + buffer + chunk
  {
    var lines := CompleteLines(buffer + chunk);
    ConcatAppend(pushed, lines);
    Reassemble(buffer + chunk);
    AppendAssoc(Concat(pushed), Concat(lines), PartialLine(buffer + chunk));
    AppendAssoc(Concat(pushed), buffer, chunk);
  }

  // Helpers

  /**
   * Reading `x` and then `y`: the lines completed within `x`, then those completed while reading
   * `y` after the partial line `x` left behind.
   */
  lemma {:induction false} LinesAppend(x: string, y: string)
    ensures CompleteLines(x + y) == CompleteLines(x) + CompleteLines(PartialLine(x) + y)
    ensures PartialLine(x + y) == PartialLine(PartialLine(x) + y)
    decreases |y|
  {
    var r := PartialLine(x);
    if y == [] {
      assert x + y == x && r + y == r;
      NoLineFeed(r);
    } else {
      var y', c := y[..|y| - 1], y[|y| - 1];
      assert (x + y)[..|x + y| - 1] == x + y' && (x + y)[|x + y| - 1] == c;
      assert (r + y)[..|r + y| - 1] == r + y' && (r + y)[|r + y| - 1] == c;
      LinesAppend(x, y');
      if c == '\n' {
        AppendAssoc(CompleteLines(x), CompleteLines(r + y'), [PartialLine(r + y') + "\n"]);
      }
    }
  }

  lemma AppendAssoc<T>(a: seq<T>, b: seq<T>, c: seq<T>)
    ensures (a + b) + c == a + (b + c)
  {
  }

  lemma EmptyPrefix(s: string)
    ensures "" + s == s
  {
  }

  lemma {:induction false} ConcatAppend(a: seq<string>, b: seq<string>)
    ensures Concat(a + b) == Concat(a) + Concat(b)
    decreases |a|
  {
    if a == [] {
      assert a + b == b;
    } else {
      assert (a + b)[1..] == a[1..] + b;
      ConcatAppend(a[1..], b);
    }
  }

  /** A string without line feeds is all partial line. */
  lemma {:induction false} NoLineFeed(s: string)
    requires '\n' !in s
    ensures CompleteLines(s) == [] && PartialLine(s) == s
    decreases |s|
  {
    if s != [] {
      var p := s[..|s| - 1];
      assert s == p + [s[|s| - 1]];
      NoLineFeed(p);
    }
  }

  /** A line that ends at its only line feed, followed by more text. */
  lemma LineThenRest(line: string, remainder: string)
    requires |line| > 0 && line[|line| - 1] == '\n'
    requires forall j | 0 <= j < |line| - 1 :: line[j] != '\n'
    ensures CompleteLines(line + remainder) == [line] + CompleteLines(remainder)
    ensures PartialLine(line + remainder) == PartialLine(remainder)
  {
    var head := line[..|line| - 1];
    NoLineFeed(head);
    assert CompleteLines(line) == [line] && PartialLine(line) == "" by {
      assert line == head + "\n";
    }
    LinesAppend(line, remainder);
    assert "" + remainder == remainder;
  }

  /**
   * Writing `str` onto a buffer without line feeds: the first line pushed is the buffer and `str`
   * up to its first line feed, and the rest behaves as if written onto an empty buffer.
   */
  lemma FirstLine(buffer: string, str: string)
    requires '\n' !in buffer && '\n' in str
    ensures var k := IndexOf(str, '\n');
      && CompleteLines(buffer + str) == [buffer + str[..k + 1]] + CompleteLines(str[k + 1..])
      && PartialLine(buffer + str) == PartialLine(str[k + 1..])
  {
    var k := IndexOf(str, '\n');
    var line, remainder := buffer + str[..k + 1], str[k + 1..];
    assert buffer + str == line + remainder by {
      assert str == str[..k + 1] + remainder;
    }
    assert line[..|line| - 1] == buffer + str[..k];
    assert forall j | 0 <= j < |line| - 1 :: line[j] == if j < |buffer| then buffer[j] else str[j - |buffer|];
    LineThenRest(line, remainder);
  }
}

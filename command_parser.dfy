/**
 * The generated command-line parser: a `Parser` object holding the input, the current offset and
 * the furthest failure recorded so far. Each rule is a method that moves the offset character by
 * character, accumulates the text of the node it builds and records every failed terminal match;
 * each is proved to produce exactly the node, end offset and stored error the pure `Grammar`
 * functions describe.
 */
module CommandParser {
  import opened Wrappers
  import opened Strings
  import opened ParseError
  import opened Grammar
  import opened GrammarProperties

  /**
   * What `parse` returns from a parser at offset `i` with stored error `e`: the root node when it
   * matches and reaches the end of the input; otherwise the formatted stored error, or an
   * `<EOF>` error at the offset reached when no failure was ever recorded. A match always
   * reaches the end, and a stored error always exists, so `parse` fails exactly when `root`
   * does, and then with the stored error.
   */
  function ParseOutcomeFrom(s: string, i: nat, e: Option<SyntaxError>): (r: Result<RootNode, string>)
    requires i <= |s| && ErrorWithin(e, |s|)
    ensures r.Success? <==> RootAt(s, i).Some?
    ensures r.Success? ==> r.value == RootAt(s, i).value && r.value.text == s[i..]
    ensures r.Failure? ==> r.error == ErrorMessage(s, RootErr(s, i, e).value)
  {
    var root := RootAt(s, i);
    ArgumentsReachEnd(s, SpaceEnd(s, WordEnd(s, i)));
    if root.Some? && RootEnd(s, i) == |s| then
      RootConsumesAll(s, i);
      Success(root.value)
    else
      var err := RootErr(s, i, e);
      var end := RootEnd(s, i);
      var f := if err.Some? then err.value else SyntaxError(end, EndOfInput);
      Failure(ErrorMessage(s, f))
  }

  /** What the static `Parser.parse(input)` returns: a fresh parser, then `parse`. */
  function ParseOutcome(s: string): Result<RootNode, string>
  {
    ParseOutcomeFrom(s, 0, None)
  }

  /**
   * A quoted alternative whose closing quote is found: the node the parser assembles from its
   * parts, where it ends and what it leaves recorded.
   */
  lemma QuotedClosed(s: string, i: nat, q: Quoting, e: Option<SyntaxError>, open: string, arg: string, close: string, space: string)
    requires q != Bare && i < |s| && s[i] == QuoteChar(q)
    requires var j := ContentEnd(s, i + 1, QuoteChar(q));
      && i + 1 < j < |s|
      && open == [s[i]] && arg == s[i + 1..j] && close == [s[j]] && space == s[j + 1..SpaceEnd(s, j + 1)]
    ensures var j := ContentEnd(s, i + 1, QuoteChar(q));
      && QuotedAt(s, i, q) == Some(ArgNode(open + arg + close + space, i, q, Span(arg, i + 1), Span(space, j + 1)))
      && QuotedEnd(s, i, q) == SpaceEnd(s, j + 1)
      && QuotedErr(s, i, q, e) == Record(ContentErr(s, i + 1, q, e), SpaceEnd(s, j + 1), SpaceClass)
  {
    var j := ContentEnd(s, i + 1, QuoteChar(q));
    SliceAround(s, i, j, SpaceEnd(s, j + 1));
    QuotedNode(s, i, q);
  }

  /** A quoted alternative with nonempty content that reaches the end of the input unclosed. */
  lemma QuotedUnclosed(s: string, i: nat, q: Quoting, e: Option<SyntaxError>)
    requires q != Bare && i < |s| && s[i] == QuoteChar(q)
    requires i + 1 < ContentEnd(s, i + 1, QuoteChar(q)) == |s|
    ensures QuotedAt(s, i, q).None? && QuotedEnd(s, i, q) == i
    ensures QuotedErr(s, i, q, e) == Record(ContentErr(s, i + 1, q, e), |s|, QuoteClass(q))
  {
  }

  /** One step of `argument*` at `i`: it stops where `argument` fails, else continues after it. */
  lemma ArgumentsStep(s: string, i: nat, e: Option<SyntaxError>)
    requires i <= |s|
    ensures var n := ArgumentEnd(s, i);
      && (n == i ==> ArgumentsFrom(s, i) == [] && ArgumentsEnd(s, i) == i && ArgumentsErr(s, i, e) == ArgumentErr(s, i, e))
      && (n != i ==> ArgumentsFrom(s, i) == [ArgumentAt(s, i).value] + ArgumentsFrom(s, n)
                     && ArgumentsEnd(s, i) == ArgumentsEnd(s, n)
                     && ArgumentsErr(s, i, e) == ArgumentsErr(s, n, ArgumentErr(s, i, e)))
  {
  }

  /** The root node the parser assembles from the word, the whitespace and the arguments' text. */
  lemma RootParts(s: string, i: nat, word: string, space: string, text: string)
    requires i <= |s| && i < WordEnd(s, i)
    requires var w := WordEnd(s, i);
      var sp := SpaceEnd(s, w);
      word == s[i..w] && space == s[w..sp] && text == s[sp..ArgumentsEnd(s, sp)]
    ensures var w := WordEnd(s, i);
      var sp := SpaceEnd(s, w);
      && RootAt(s, i) == Some(RootNode(word + space + text, i, Span(word, i), Span(space, w), ArgumentsFrom(s, sp)))
      && RootEnd(s, i) == ArgumentsEnd(s, sp)
  {
    var w := WordEnd(s, i);
    var sp := SpaceEnd(s, w);
    RootNodeAt(s, i);
    SliceJoin(s, i, w, sp);
    SliceJoin(s, i, sp, ArgumentsEnd(s, sp));
  }

  class Parser {
    const input: string
    var offset: nat
    var error: Option<SyntaxError>

    /** The offset stays within the input and so does every recorded failure. */
    ghost predicate Valid()
      reads this
    {
      offset <= |input| && ErrorWithin(error, |input|)
    }

    /** `new Parser(input)`: offset zero and nothing recorded yet. */
    constructor (input: string)
      ensures this.input == input && offset == 0 && error.None?
      ensures Valid()
    {
      this.input := input;
      offset := 0;
      error := None;
    }

    /** The terminal-match loop of `[^\s]+` (or `*`): the run of non-whitespace and its text. */
    method ConsumeWord() returns (text: string)
      requires offset <= |input|
      modifies this
      ensures offset == WordEnd(input, old(offset))
      ensures text == input[old(offset)..offset]
      ensures error == Record(old(error), offset, NonSpaceClass)
    {
      var start := offset;
      text := "";
      var matched := true;
      while matched
        invariant start <= offset <= |input|
        invariant WordEnd(input, offset) == WordEnd(input, start)
        invariant text == input[start..offset]
        invariant matched ==> error == old(error)
        invariant !matched ==> offset == WordEnd(input, start) && error == Record(old(error), offset, NonSpaceClass)
        decreases |input| - offset, matched
      {
        if offset < |input| && !IsWs(input[offset]) {
          text := text + [input[offset]];
          offset := offset + 1;
        } else {
          matched := false;
          error := Record(error, offset, NonSpaceClass);
        }
      }
    }

    /** The terminal-match loop of `[\s]*`: the run of whitespace and its text. */
    method ConsumeSpace() returns (text: string)
      requires offset <= |input|
      modifies this
      ensures offset == SpaceEnd(input, old(offset))
      ensures text == input[old(offset)..offset]
      ensures error == Record(old(error), offset, SpaceClass)
    {
      var start := offset;
      text := "";
      var matched := true;
      while matched
        invariant start <= offset <= |input|
        invariant SpaceEnd(input, offset) == SpaceEnd(input, start)
        invariant text == input[start..offset]
        invariant matched ==> error == old(error)
        invariant !matched ==> offset == SpaceEnd(input, start) && error == Record(old(error), offset, SpaceClass)
        decreases |input| - offset, matched
      {
        if offset < |input| && IsWs(input[offset]) {
          text := text + [input[offset]];
          offset := offset + 1;
        } else {
          matched := false;
          error := Record(error, offset, SpaceClass);
        }
      }
    }

    /**
     * The loop of `(!q .)+`: each round tries `[q]` as a lookahead (recording its failure) and,
     * when that fails, takes any one character (recording `<any char>` at the end of the input).
     */
    method ConsumeContent(q: Quoting) returns (text: string)
      requires q != Bare && offset <= |input|
      modifies this
      ensures offset == ContentEnd(input, old(offset), QuoteChar(q))
      ensures text == input[old(offset)..offset]
      ensures error == ContentErr(input, old(offset), q, old(error))
    {
      var start := offset;
      var c := QuoteChar(q);
      text := "";
      var matched := true;
      while matched
        invariant start <= offset <= |input|
        invariant ContentEnd(input, offset, c) == ContentEnd(input, start, c)
        invariant text == input[start..offset]
        invariant matched ==> error == if start < offset then Record(old(error), offset - 1, QuoteClass(q)) else old(error)
        invariant !matched ==> offset == ContentEnd(input, start, c) && error == ContentErr(input, start, q, old(error))
        decreases |input| - offset, matched
      {
        if offset < |input| && input[offset] == c {
          // the lookahead `!q` fails: the closing quote is next
          matched := false;
        } else {
          error := Record(error, offset, QuoteClass(q));
          if start < offset {
            RecordAbsorbs(old(error), offset - 1, QuoteClass(q), offset, QuoteClass(q));
          }
          if offset < |input| {
            text := text + [input[offset]];
            offset := offset + 1;
          } else {
            error := Record(error, offset, AnyChar);
            matched := false;
          }
        }
      }
    }

    /** A quoted alternative `q (!q .)+ q [\s]*` of `argument`; on failure the offset is restored. */
    method ConsumeQuoted(q: Quoting) returns (r: Option<ArgNode>)
      requires q != Bare && offset <= |input|
      modifies this
      ensures r == QuotedAt(input, old(offset), q)
      ensures offset == QuotedEnd(input, old(offset), q)
      ensures error == QuotedErr(input, old(offset), q, old(error))
    {
      var start := offset;
      if offset < |input| && input[offset] == QuoteChar(q) {
        var open := [input[offset]];
        offset := offset + 1;
        var arg := ConsumeContent(q);
        if |arg| > 0 {
          r := ConsumeClosing(q, start, open, arg, old(error));
        } else {
          QuotedFails(input, start, q);
          offset := start;
          r := None;
        }
      } else {
        error := Record(error, offset, QuoteClass(q));
        QuotedFails(input, start, q);
        r := None;
      }
    }

    /**
     * The rest of a quoted alternative once its opening quote `open` and nonempty content `arg`
     * are consumed: the closing quote and the whitespace after it.
     */
    method ConsumeClosing(q: Quoting, start: nat, open: string, arg: string, ghost e: Option<SyntaxError>)
        returns (r: Option<ArgNode>)
      requires q != Bare && start < |input| && input[start] == QuoteChar(q)
      requires offset == ContentEnd(input, start + 1, QuoteChar(q)) && start + 1 < offset
      requires open == [input[start]] && arg == input[start + 1..offset]
      requires error == ContentErr(input, start + 1, q, e)
      modifies this
      ensures r == QuotedAt(input, start, q)
      ensures offset == QuotedEnd(input, start, q)
      ensures error == QuotedErr(input, start, q, e)
    {
      if offset < |input| && input[offset] == QuoteChar(q) {
        var j := offset;
        var close := [input[offset]];
        offset := offset + 1;
        var space := ConsumeSpace();
        r := Some(ArgNode(open + arg + close + space, start, q, Span(arg, start + 1), Span(space, j + 1)));
        QuotedClosed(input, start, q, e, open, arg, close, space);
      } else {
        error := Record(error, offset, QuoteClass(q));
        QuotedUnclosed(input, start, q, e);
        offset := start;
        r := None;
      }
    }

    /** The bare alternative `[^\s]+ [\s]*` of `argument`. */
    method ConsumeBare() returns (r: Option<ArgNode>)
      requires offset <= |input|
      modifies this
      ensures r == BareAt(input, old(offset))
      ensures offset == BareEnd(input, old(offset))
      ensures error == BareErr(input, old(offset), old(error))
    {
      var start := offset;
      var word := ConsumeWord();
      if |word| > 0 {
        var j := offset;
        var space := ConsumeSpace();
        r := Some(ArgNode(word + space, start, Bare, Span(word, start), Span(space, j)));
        SliceJoin(input, start, j, offset);
      } else {
        offset := start;
        r := None;
      }
    }

    /** `__consume__argument`: single-quoted, else double-quoted, else bare. */
    method ConsumeArgument() returns (r: Option<ArgNode>)
      requires offset <= |input|
      modifies this
      ensures r == ArgumentAt(input, old(offset))
      ensures offset == ArgumentEnd(input, old(offset))
      ensures error == ArgumentErr(input, old(offset), old(error))
    {
      r := ConsumeQuoted(SingleQuoted);
      if r.None? {
        r := ConsumeQuoted(DoubleQuoted);
        if r.None? {
          r := ConsumeBare();
        }
      }
    }

    /**
     * `__consume__root`: the program word, the whitespace after it, then `argument*`; on failure
     * the offset is restored.
     */
    method ConsumeRoot() returns (r: Option<RootNode>)
      requires offset <= |input|
      modifies this
      ensures r == RootAt(input, old(offset))
      ensures offset == RootEnd(input, old(offset))
      ensures error == RootErr(input, old(offset), old(error))
    {
      var start := offset;
      var word := ConsumeWord();
      if |word| > 0 {
        var w := offset;
        var space := ConsumeSpace();
        var args, text := ConsumeArguments();
        r := Some(RootNode(word + space + text, start, Span(word, start), Span(space, w), args));
        RootParts(input, start, word, space, text);
      } else {
        offset := start;
        r := None;
      }
    }

    /** The `argument*` loop: arguments are consumed until one fails. */
    method ConsumeArguments() returns (args: seq<ArgNode>, text: string)
      requires offset <= |input|
      modifies this
      ensures args == ArgumentsFrom(input, old(offset))
      ensures offset == ArgumentsEnd(input, old(offset))
      ensures text == input[old(offset)..offset]
      ensures error == ArgumentsErr(input, old(offset), old(error))
    {
      var start := offset;
      args := [];
      text := "";
      var more := true;
      while more
        invariant start <= offset <= |input|
        invariant text == input[start..offset]
        invariant ArgumentsEnd(input, offset) == ArgumentsEnd(input, start)
        invariant more ==> args + ArgumentsFrom(input, offset) == ArgumentsFrom(input, start)
        invariant more ==> ArgumentsErr(input, offset, error) == ArgumentsErr(input, start, old(error))
        invariant !more ==> offset == ArgumentsEnd(input, start) && args == ArgumentsFrom(input, start)
        invariant !more ==> error == ArgumentsErr(input, start, old(error))
        decreases |input| - offset, more
      {
        ghost var o, e := offset, error;
        var a := ConsumeArgument();
        ArgumentsStep(input, o, e);
        if a.Some? {
          args := args + [a.value];
          text := text + a.value.text;
          SliceJoin(input, start, o, offset);
        } else {
          more := false;
        }
      }
    }

    /**
     * `parse`: the root node when `root` matches and reaches the end of the input; otherwise the
     * message of the stored error (an `<EOF>` error at the current offset when none was recorded).
     */
    method Parse() returns (r: Result<RootNode, string>)
      requires Valid()
      modifies this
      ensures r == ParseOutcomeFrom(input, old(offset), old(error))
      ensures offset == RootEnd(input, old(offset)) && error == RootErr(input, old(offset), old(error))
    {
      ghost var i, e := offset, error;
      var root := ConsumeRoot();
      if root.Some? && offset == |input| {
        return Success(root.value);
      }
      var failure := if error.Some? then error.value else SyntaxError(offset, EndOfInput);
      var message := FormatError(failure, input);
      r := Failure(message);
    }
  }

  /** The static `Parser.parse(input)`. */
  method Parse(input: string) returns (r: Result<RootNode, string>)
    ensures r == ParseOutcome(input)
  {
    var parser := new Parser(input);
    r := parser.Parse();
  }

  /**
   * Parsing succeeds exactly when the input is nonempty and starts with a non-whitespace
   * character; the root node then covers the whole input, so the `<EOF>` failure is never
   * produced after a match.
   */
  lemma ParseSucceedsIff(s: string)
    ensures ParseOutcome(s).Success? <==> |s| > 0 && !IsWs(s[0])
    ensures ParseOutcome(s).Success? ==> ParseOutcome(s).value == RootAt(s, 0).value
    ensures ParseOutcome(s).Success? ==> ParseOutcome(s).value.text == s
  {
    if |s| > 0 && !IsWs(s[0]) {
      var w := WordEnd(s, 0);
      ArgumentsReachEnd(s, SpaceEnd(s, w));
      RootConsumesAll(s, 0);
      assert s[0..] == s;
    }
  }

  /**
   * A failed parse reports `expected [^\s]` at offset 0: line 1, the first line of the input, and
   * the caret in the first column.
   */
  lemma ParseFailureMessage(s: string)
    requires ParseOutcome(s).Failure?
    ensures ParseOutcome(s).error == Message(1, NonSpaceClass, SplitLines(s)[0], 0)
  {
    ParseSucceedsIff(s);
    assert WordEnd(s, 0) == 0;
    assert RootErr(s, 0, None) == Some(SyntaxError(0, NonSpaceClass));
    var lines := SplitLines(s);
    assert LineIndex(lines, 0, 0) == 0;
  }
}

/**
 * The command-line grammar as the generated parser runs it, written as pure functions, one per
 * rule:
 *
 *   root     := [^\s]+ [\s]* argument*
 *   argument := "'" (!"'" .)+ "'" [\s]*  /  '"' (!'"' .)+ '"' [\s]*  /  [^\s]+ [\s]*
 *
 * Each rule has two functions: the node it produces at an offset (None when it fails), and the
 * parser's stored error after trying it, threaded through `Record` exactly as the generated
 * code records failed terminal matches.
 */
module Grammar {
  import opened Wrappers
  import opened ParseError

  /**
   * JavaScript's `\s`: the ECMAScript WhiteSpace characters (tab, vertical tab, form feed, space,
   * no-break space, byte order mark and the Unicode space separators) and the LineTerminators.
   */
  predicate IsWs(c: char)
  {
    || c == '\t' || c == '\n' || c == '\U{000B}' || c == '\U{000C}' || c == '\r' || c == ' '
    || c == '\U{00A0}' || c == '\U{1680}' || ('\U{2000}' <= c <= '\U{200A}')
    || c == '\U{2028}' || c == '\U{2029}' || c == '\U{202F}' || c == '\U{205F}'
    || c == '\U{3000}' || c == '\U{FEFF}'
  }

  /** Within ASCII, `\s` is exactly tab, line feed, vertical tab, form feed, carriage return and space. */
  lemma AsciiWhitespace(c: char)
    requires c <= '\U{007F}'
    ensures IsWs(c) <==> c in "\t\n\U{000B}\U{000C}\r "
  {
  }

  // What the failed terminal matches say they expected.
  const NonSpaceClass: string := "[^\\s]"
  const SpaceClass: string := "[\\s]"
  const AnyChar: string := "<any char>"
  const EndOfInput: string := "<EOF>"

  /** A syntax node whose children are single characters: its text and where it starts. */
  datatype Span = Span(text: string, offset: nat)

  /** Which alternative of `argument` matched. */
  datatype Quoting = SingleQuoted | DoubleQuoted | Bare

  /**
   * An `argument` node. Its elements are the opening delimiter, the `arg`-labelled node, the
   * closing delimiter and the trailing whitespace (`space`); a bare argument has no delimiters.
   */
  datatype ArgNode = ArgNode(text: string, offset: nat, quoting: Quoting, arg: Span, space: Span)

  /**
   * The `root` node. Its elements are the program word, the whitespace after it, and a node
   * whose elements are the `arguments`.
   */
  datatype RootNode = RootNode(text: string, offset: nat, word: Span, space: Span, arguments: seq<ArgNode>)

  function QuoteChar(q: Quoting): char
    requires q != Bare
  {
    if q == SingleQuoted then '\'' else '"'
  }

  /** The delimiter text around an argument: one quote, or nothing for a bare word. */
  function Delimiter(q: Quoting): string
  {
    if q == Bare then "" else [QuoteChar(q)]
  }

  /** What a failed match of the quote character class `[']` or `["]` expected. */
  function QuoteClass(q: Quoting): string
    requires q != Bare
  {
    "[" + [QuoteChar(q)] + "]"
  }

  /** End of the maximal run of non-whitespace characters from `i`. */
  function WordEnd(s: string, i: nat): (j: nat)
    requires i <= |s|
    ensures i <= j <= |s|
    ensures j == |s| || IsWs(s[j])
    decreases |s| - i
  {
    if i < |s| && !IsWs(s[i]) then WordEnd(s, i + 1) else i
  }

  /** End of the maximal run of whitespace characters from `i`. */
  function SpaceEnd(s: string, i: nat): (j: nat)
    requires i <= |s|
    ensures i <= j <= |s|
    ensures j == |s| || !IsWs(s[j])
    decreases |s| - i
  {
    if i < |s| && IsWs(s[i]) then SpaceEnd(s, i + 1) else i
  }

  /** End of the maximal run of characters other than `c` from `i`. */
  function ContentEnd(s: string, i: nat, c: char): (j: nat)
    requires i <= |s|
    ensures i <= j <= |s|
    ensures j == |s| || s[j] == c
    decreases |s| - i
  {
    if i < |s| && s[i] != c then ContentEnd(s, i + 1, c) else i
  }

  /** Everything before `WordEnd` is non-whitespace. */
  lemma {:induction false} WordRun(s: string, i: nat)
    requires i <= |s|
    ensures forall k | i <= k < WordEnd(s, i) :: !IsWs(s[k])
    decreases |s| - i
  {
    if i < |s| && !IsWs(s[i]) {
      WordRun(s, i + 1);
    }
  }

  /** Everything before `SpaceEnd` is whitespace. */
  lemma {:induction false} SpaceRun(s: string, i: nat)
    requires i <= |s|
    ensures forall k | i <= k < SpaceEnd(s, i) :: IsWs(s[k])
    decreases |s| - i
  {
    if i < |s| && IsWs(s[i]) {
      SpaceRun(s, i + 1);
    }
  }

  /** Nothing before `ContentEnd` is `c`. */
  lemma {:induction false} ContentRun(s: string, i: nat, c: char)
    requires i <= |s|
    ensures forall k | i <= k < ContentEnd(s, i, c) :: s[k] != c
    decreases |s| - i
  {
    if i < |s| && s[i] != c {
      ContentRun(s, i + 1, c);
    }
  }

  /**
   * What every argument node is: the input's own text at its offset; its delimiters, its `arg`
   * and its trailing whitespace laid end to end; a nonempty `arg` free of whitespace (bare) or of
   * its delimiter (quoted); and followed by a non-whitespace character or the end of the input.
   */
  predicate ArgWellFormed(s: string, a: ArgNode)
  {
    && a.offset + |a.text| <= |s|
    && a.text == s[a.offset..a.offset + |a.text|]
    && a.text == Delimiter(a.quoting) + a.arg.text + Delimiter(a.quoting) + a.space.text
    && a.arg.offset == a.offset + |Delimiter(a.quoting)|
    && a.space.offset == a.arg.offset + |a.arg.text| + |Delimiter(a.quoting)|
    && |a.arg.text| > 0
    && (forall k | 0 <= k < |a.arg.text| ::
          if a.quoting == Bare then !IsWs(a.arg.text[k]) else a.arg.text[k] != QuoteChar(a.quoting))
    && (forall k | 0 <= k < |a.space.text| :: IsWs(a.space.text[k]))
    && (a.offset + |a.text| == |s| || !IsWs(s[a.offset + |a.text|]))
  }

  /** Where the quoted alternative `q (!q .)+ q [\s]*` at `i` ends, or `i` when it fails. */
  function QuotedEnd(s: string, i: nat, q: Quoting): (e: nat)
    requires i <= |s| && q != Bare
    ensures i <= e <= |s|
  {
    var c := QuoteChar(q);
    if i < |s| && s[i] == c then
      var j := ContentEnd(s, i + 1, c);
      if i + 1 < j < |s| then SpaceEnd(s, j + 1) else i
    else i
  }

  /** Where the bare alternative `[^\s]+ [\s]*` at `i` ends, or `i` when it fails. */
  function BareEnd(s: string, i: nat): (e: nat)
    requires i <= |s|
    ensures i <= e <= |s|
  {
    var j := WordEnd(s, i);
    if i < j then SpaceEnd(s, j) else i
  }

  /**
   * Where `argument` at `i` ends, or `i` when it fails: the first alternative that matches wins.
   * It matches exactly at a non-whitespace character and always stops before another one or at
   * the end.
   */
  function ArgumentEnd(s: string, i: nat): (e: nat)
    requires i <= |s|
    ensures i <= e <= |s|
    ensures i < e <==> i < |s| && !IsWs(s[i])
    ensures i < e ==> e == |s| || !IsWs(s[e])
  {
    if i < QuotedEnd(s, i, SingleQuoted) then QuotedEnd(s, i, SingleQuoted)
    else if i < QuotedEnd(s, i, DoubleQuoted) then QuotedEnd(s, i, DoubleQuoted)
    else BareEnd(s, i)
  }

  /** The quoted alternative at `i`: the node it builds, or None when it fails. */
  function QuotedAt(s: string, i: nat, q: Quoting): (r: Option<ArgNode>)
    requires i <= |s| && q != Bare
    ensures r.Some? <==> i < QuotedEnd(s, i, q)
    ensures r.Some? ==> r.value.offset == i && r.value.quoting == q && r.value.text == s[i..QuotedEnd(s, i, q)]
  {
    var e := QuotedEnd(s, i, q);
    if i < e then
      var j := ContentEnd(s, i + 1, QuoteChar(q));
      Some(ArgNode(s[i..e], i, q, Span(s[i + 1..j], i + 1), Span(s[j + 1..e], j + 1)))
    else None
  }

  /** The bare alternative at `i`: the node it builds, or None when it fails. */
  function BareAt(s: string, i: nat): (r: Option<ArgNode>)
    requires i <= |s|
    ensures r.Some? <==> i < |s| && !IsWs(s[i])
    ensures r.Some? ==> r.value.offset == i && r.value.quoting == Bare && r.value.text == s[i..BareEnd(s, i)]
  {
    var j := WordEnd(s, i);
    if i < j then
      var e := SpaceEnd(s, j);
      Some(ArgNode(s[i..e], i, Bare, Span(s[i..j], i), Span(s[j..e], j)))
    else None
  }

  /** `argument`: ordered choice of single-quoted, double-quoted and bare. */
  function ArgumentAt(s: string, i: nat): (r: Option<ArgNode>)
    requires i <= |s|
    ensures r.Some? <==> i < |s| && !IsWs(s[i])
    ensures r.Some? ==> r.value.offset == i && r.value.text == s[i..ArgumentEnd(s, i)]
  {
    var single := QuotedAt(s, i, SingleQuoted);
    if single.Some? then single
    else
      var double := QuotedAt(s, i, DoubleQuoted);
      if double.Some? then double
      else BareAt(s, i)
  }

  /** The texts of a sequence of nodes, laid end to end. */
  function ArgsText(args: seq<ArgNode>): string
  {
    if args == [] then "" else args[0].text + ArgsText(args[1..])
  }

  /** Where `argument*` from `i` ends: arguments are taken until one fails. */
  function ArgumentsEnd(s: string, i: nat): (e: nat)
    requires i <= |s|
    ensures i <= e <= |s|
    decreases |s| - i
  {
    var n := ArgumentEnd(s, i);
    if n == i then i else ArgumentsEnd(s, n)
  }

  /** The nodes `argument*` builds from `i`. */
  function ArgumentsFrom(s: string, i: nat): (args: seq<ArgNode>)
    requires i <= |s|
    decreases |s| - i
  {
    var n := ArgumentEnd(s, i);
    if n == i then [] else [ArgumentAt(s, i).value] + ArgumentsFrom(s, n)
  }

  /** Where `root` at `i` ends, or `i` when it fails. */
  function RootEnd(s: string, i: nat): (e: nat)
    requires i <= |s|
    ensures i <= e <= |s|
  {
    var w := WordEnd(s, i);
    if i < w then ArgumentsEnd(s, SpaceEnd(s, w)) else i
  }

  /** `root` at offset `i`: the program word, the whitespace after it, and the arguments. */
  function RootAt(s: string, i: nat): (r: Option<RootNode>)
    requires i <= |s|
    ensures r.Some? <==> i < |s| && !IsWs(s[i])
    ensures r.Some? ==> r.value.offset == i
  {
    var w := WordEnd(s, i);
    if i < w then
      var sp := SpaceEnd(s, w);
      Some(RootNode(s[i..ArgumentsEnd(s, sp)], i, Span(s[i..w], i), Span(s[w..sp], w), ArgumentsFrom(s, sp)))
    else None
  }

  // The stored error after each rule, given the stored error `e` before it.

  /** After `(!c .)+` from `i`: every character consumed first failed the lookahead's `[c]`; at the
      end of the input both `[c]` and `.` fail. */
  function ContentErr(s: string, i: nat, q: Quoting, e: Option<SyntaxError>): (r: Option<SyntaxError>)
    requires i <= |s| && q != Bare
    ensures NoEarlier(e, r) && (ErrorWithin(e, |s|) ==> ErrorWithin(r, |s|))
    ensures ErrorWithin(e, |s|) && ContentEnd(s, i, QuoteChar(q)) == |s| ==> r == Some(SyntaxError(|s|, AnyChar))
  {
    var j := ContentEnd(s, i, QuoteChar(q));
    var e1 := if i < j then Record(e, j - 1, QuoteClass(q)) else e;
    if j == |s| then Record(Record(e1, j, QuoteClass(q)), j, AnyChar) else e1
  }

  /** After the quoted alternative from `i`. */
  function QuotedErr(s: string, i: nat, q: Quoting, e: Option<SyntaxError>): (r: Option<SyntaxError>)
    requires i <= |s| && q != Bare
    ensures NoEarlier(e, r) && (ErrorWithin(e, |s|) ==> ErrorWithin(r, |s|))
    ensures i == |s| || s[i] != QuoteChar(q) ==> r.Some? && i <= r.value.offset
  {
    var c := QuoteChar(q);
    if i < |s| && s[i] == c then
      var j := ContentEnd(s, i + 1, c);
      var e1 := ContentErr(s, i + 1, q, e);
      if j == i + 1 then e1
      else if j == |s| then Record(e1, j, QuoteClass(q))
      else Record(e1, SpaceEnd(s, j + 1), SpaceClass)
    else Record(e, i, QuoteClass(q))
  }

  /** After the bare alternative from `i`. */
  function BareErr(s: string, i: nat, e: Option<SyntaxError>): (r: Option<SyntaxError>)
    requires i <= |s|
    ensures NoEarlier(e, r) && (ErrorWithin(e, |s|) ==> ErrorWithin(r, |s|))
    ensures r.Some? && WordEnd(s, i) <= r.value.offset
  {
    var j := WordEnd(s, i);
    var e1 := Record(e, j, NonSpaceClass);
    if i < j then Record(e1, SpaceEnd(s, j), SpaceClass) else e1
  }

  /** After `argument` from `i`: the alternatives' failures in the order they were tried. */
  function ArgumentErr(s: string, i: nat, e: Option<SyntaxError>): (r: Option<SyntaxError>)
    requires i <= |s|
    ensures NoEarlier(e, r) && (ErrorWithin(e, |s|) ==> ErrorWithin(r, |s|))
  {
    var e1 := QuotedErr(s, i, SingleQuoted, e);
    if i < QuotedEnd(s, i, SingleQuoted) then e1
    else
      var e2 := QuotedErr(s, i, DoubleQuoted, e1);
      if i < QuotedEnd(s, i, DoubleQuoted) then e2
      else BareErr(s, i, e2)
  }

  /** After `argument*` from `i`: each argument's failures, up to and including the one that fails. */
  function ArgumentsErr(s: string, i: nat, e: Option<SyntaxError>): (r: Option<SyntaxError>)
    requires i <= |s|
    ensures NoEarlier(e, r) && (ErrorWithin(e, |s|) ==> ErrorWithin(r, |s|))
    decreases |s| - i
  {
    var n := ArgumentEnd(s, i);
    if n == i then ArgumentErr(s, i, e) else ArgumentsErr(s, n, ArgumentErr(s, i, e))
  }

  /** After `root` from `i`: `root` always records a failure, and never one before `i`. */
  function RootErr(s: string, i: nat, e: Option<SyntaxError>): (r: Option<SyntaxError>)
    requires i <= |s|
    ensures NoEarlier(e, r) && (ErrorWithin(e, |s|) ==> ErrorWithin(r, |s|))
    ensures r.Some? && i <= r.value.offset
  {
    var w := WordEnd(s, i);
    var e1 := Record(e, w, NonSpaceClass);
    if i < w then
      var sp := SpaceEnd(s, w);
      ArgumentsErr(s, sp, Record(e1, sp, SpaceClass))
    else e1
  }

  /** The stored error lies within the input (or there is none yet). */
  predicate ErrorWithin(e: Option<SyntaxError>, n: nat)
  {
    e.None? || e.value.offset <= n
  }
}

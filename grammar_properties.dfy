/**
 * What the grammar guarantees: `root` matches exactly when the input starts with a
 * non-whitespace character and then always reaches the end; the nodes tile the input in order;
 * the ordered choice in `argument`; and where the stored error can lie.
 */
module GrammarProperties {
  import opened Wrappers
  import opened ParseError
  import opened Grammar
  import opened Strings

  // ---------------------------------------------------------------------------------------------
  // Totality

  /**
   * From a non-whitespace character (or the end), `argument*` consumes the rest of the input: the
   * bare alternative always matches there, and every alternative ends on its maximal whitespace run.
   */
  lemma {:induction false} ArgumentsReachEnd(s: string, i: nat)
    requires i <= |s|
    requires i == |s| || !IsWs(s[i])
    ensures ArgumentsEnd(s, i) == |s|
    decreases |s| - i
  {
    if i < |s| {
      ArgumentsReachEnd(s, ArgumentEnd(s, i));
    }
  }

  /** The texts of the nodes `argument*` builds are the input from `i` to where it stops. */
  lemma {:induction false} ArgumentsText(s: string, i: nat)
    requires i <= |s|
    ensures ArgsText(ArgumentsFrom(s, i)) == s[i..ArgumentsEnd(s, i)]
    decreases |s| - i
  {
    var n := ArgumentEnd(s, i);
    if n != i {
      var a := ArgumentAt(s, i).value;
      var rest := ArgumentsFrom(s, n);
      ArgumentsText(s, n);
      ArgsTextCons(a, rest);
      SliceJoin(s, i, n, ArgumentsEnd(s, n));
    }
  }

  /** Whenever `root` matches, its text is the whole rest of the input, laid out as its parts. */
  lemma RootConsumesAll(s: string, i: nat)
    requires i <= |s|
    requires RootAt(s, i).Some?
    ensures var r := RootAt(s, i).value;
      && r.text == s[i..]
      && r.text == r.word.text + r.space.text + ArgsText(r.arguments)
  {
    var w := WordEnd(s, i);
    var sp := SpaceEnd(s, w);
    RootNodeAt(s, i);
    ArgumentsReachEnd(s, sp);
    ArgumentsText(s, sp);
    RootLayout(s, i, w, sp, ArgsText(ArgumentsFrom(s, sp)));
  }

  lemma RootLayout(s: string, i: nat, w: nat, sp: nat, rest: string)
    requires i <= w <= sp <= |s| && rest == s[sp..]
    ensures s[i..|s|] == s[i..] == s[i..w] + s[w..sp] + rest
  {
  }

  /** The root node, field by field. */
  lemma RootNodeAt(s: string, i: nat)
    requires i < |s| && !IsWs(s[i])
    ensures var w := WordEnd(s, i);
      var sp := SpaceEnd(s, w);
      RootAt(s, i) == Some(RootNode(s[i..ArgumentsEnd(s, sp)], i, Span(s[i..w], i), Span(s[w..sp], w), ArgumentsFrom(s, sp)))
  {
  }

  lemma ArgsTextCons(a: ArgNode, rest: seq<ArgNode>)
    ensures ArgsText([a] + rest) == a.text + ArgsText(rest)
  {
    assert ([a] + rest)[1..] == rest;
  }

  // ---------------------------------------------------------------------------------------------
  // Tiling

  lemma QuotedWellFormed(s: string, i: nat, q: Quoting)
    requires i <= |s| && q != Bare && QuotedAt(s, i, q).Some?
    ensures ArgWellFormed(s, QuotedAt(s, i, q).value)
  {
    var c := QuoteChar(q);
    var j := ContentEnd(s, i + 1, c);
    QuotedNode(s, i, q);
    ContentRun(s, i + 1, c);
    SpaceRun(s, j + 1);
    QuotedLayout(s, i, j, SpaceEnd(s, j + 1), q);
  }

  /** A quote, a run free of it, the quote again and a whitespace run make a well-formed node. */
  lemma QuotedLayout(s: string, i: nat, j: nat, e: nat, q: Quoting)
    requires q != Bare && i + 1 < j < e <= |s|
    requires s[i] == QuoteChar(q) && s[j] == QuoteChar(q)
    requires forall k | i + 1 <= k < j :: s[k] != QuoteChar(q)
    requires forall k | j + 1 <= k < e :: IsWs(s[k])
    requires e == |s| || !IsWs(s[e])
    ensures ArgWellFormed(s, ArgNode(s[i..e], i, q, Span(s[i + 1..j], i + 1), Span(s[j + 1..e], j + 1)))
  {
    var text, arg, space := s[i..e], s[i + 1..j], s[j + 1..e];
    SliceAround(s, i, j, e);
    assert Delimiter(q) == [s[i]] == [s[j]];
    assert text == Delimiter(q) + arg + Delimiter(q) + space;
    assert forall k | 0 <= k < |arg| :: arg[k] == s[i + 1 + k];
    assert forall k | 0 <= k < |space| :: space[k] == s[j + 1 + k];
  }

  lemma BareWellFormed(s: string, i: nat)
    requires i <= |s| && BareAt(s, i).Some?
    ensures ArgWellFormed(s, BareAt(s, i).value)
  {
    var j := WordEnd(s, i);
    WordRun(s, i);
    SpaceRun(s, j);
    SliceJoin(s, i, j, SpaceEnd(s, j));
  }

  /**
   * Every argument node is well formed: delimiters, `arg` and trailing whitespace laid end to
   * end over the input, a nonempty `arg` free of whitespace (bare) or of its delimiter (quoted).
   */
  lemma ArgumentWellFormed(s: string, i: nat)
    requires i <= |s| && ArgumentAt(s, i).Some?
    ensures ArgWellFormed(s, ArgumentAt(s, i).value)
  {
    if QuotedAt(s, i, SingleQuoted).Some? {
      QuotedWellFormed(s, i, SingleQuoted);
    } else if QuotedAt(s, i, DoubleQuoted).Some? {
      QuotedWellFormed(s, i, DoubleQuoted);
    } else {
      BareWellFormed(s, i);
    }
  }

  /**
   * The argument nodes are well formed and contiguous: the first starts at `i` and each starts
   * where the text of those before it ends.
   */
  lemma {:induction false} ArgumentsTile(s: string, i: nat)
    requires i <= |s|
    ensures var args := ArgumentsFrom(s, i);
      forall k | 0 <= k < |args| :: ArgWellFormed(s, args[k]) && args[k].offset == i + |ArgsText(args[..k])|
  {
    forall k | 0 <= k < |ArgumentsFrom(s, i)|
      ensures ArgWellFormed(s, ArgumentsFrom(s, i)[k])
      ensures ArgumentsFrom(s, i)[k].offset == i + |ArgsText(ArgumentsFrom(s, i)[..k])|
    {
      ArgumentNth(s, i, k);
      ArgumentWellFormed(s, ArgumentsFrom(s, i)[k].offset);
    }
  }

  /** Each argument node starts where the one before it ends. */
  lemma ArgumentsAdjacent(s: string, i: nat, k: nat)
    requires i <= |s| && k + 1 < |ArgumentsFrom(s, i)|
    ensures var args := ArgumentsFrom(s, i);
      args[k + 1].offset == args[k].offset + |args[k].text|
  {
    var args := ArgumentsFrom(s, i);
    ArgumentNth(s, i, k);
    ArgumentNth(s, i, k + 1);
    assert args[..k + 1] == args[..k] + [args[k]];
    ArgsTextAppend(args[..k], [args[k]]);
    assert ArgsText([args[k]]) == args[k].text + ArgsText([]);
  }

  /** The argument nodes are contiguous: each starts where the one before it ends. */
  lemma ArgumentsChain(s: string, i: nat)
    requires i <= |s|
    ensures var args := ArgumentsFrom(s, i);
      forall k | 0 <= k < |args| - 1 :: args[k + 1].offset == args[k].offset + |args[k].text|
  {
    forall k | 0 <= k < |ArgumentsFrom(s, i)| - 1
      ensures ArgumentsFrom(s, i)[k + 1].offset == ArgumentsFrom(s, i)[k].offset + |ArgumentsFrom(s, i)[k].text|
    {
      ArgumentsAdjacent(s, i, k);
    }
  }

  lemma {:induction false} ArgsTextAppend(a: seq<ArgNode>, b: seq<ArgNode>)
    ensures ArgsText(a + b) == ArgsText(a) + ArgsText(b)
    decreases |a|
  {
    if a == [] {
      assert a + b == b;
    } else {
      assert (a + b)[1..] == a[1..] + b;
      ArgsTextAppend(a[1..], b);
    }
  }

  /** The `k`-th argument node is the one `argument` builds at its offset, where the text before it ends. */
  lemma {:induction false} ArgumentNth(s: string, i: nat, k: nat)
    requires i <= |s| && k < |ArgumentsFrom(s, i)|
    ensures var a := ArgumentsFrom(s, i)[k];
      a.offset < |s| && ArgumentAt(s, a.offset) == Some(a)
    ensures ArgumentsFrom(s, i)[k].offset == i + |ArgsText(ArgumentsFrom(s, i)[..k])|
    decreases k
  {
    var args := ArgumentsFrom(s, i);
    var n := ArgumentEnd(s, i);
    var a := ArgumentAt(s, i).value;
    var rest := ArgumentsFrom(s, n);
    assert args == [a] + rest;
    if k == 0 {
      assert args[..0] == [];
    } else {
      ArgumentNth(s, n, k - 1);
      assert args[k] == rest[k - 1];
      assert (args[..k])[1..] == rest[..k - 1];
    }
  }

  /**
   * The root node tiles the input: the program word is the maximal leading run of
   * non-whitespace, then comes the maximal (possibly empty) whitespace run, then the arguments,
   * which reach the end of the input.
   */
  lemma RootTiles(s: string)
    requires RootAt(s, 0).Some?
    ensures var r := RootAt(s, 0).value;
      && r.text == s
      && r.text == r.word.text + r.space.text + ArgsText(r.arguments)
      && r.word == Span(s[..WordEnd(s, 0)], 0)
      && r.space == Span(s[WordEnd(s, 0)..SpaceEnd(s, WordEnd(s, 0))], WordEnd(s, 0))
      && r.arguments == ArgumentsFrom(s, SpaceEnd(s, WordEnd(s, 0)))
  {
    RootConsumesAll(s, 0);
  }

  /** The program word ends at whitespace, so an argument always comes after some whitespace. */
  lemma SpaceBeforeArguments(s: string)
    requires RootAt(s, 0).Some? && |RootAt(s, 0).value.arguments| > 0
    ensures |RootAt(s, 0).value.space.text| > 0
  {
    RootTiles(s);
    var w := WordEnd(s, 0);
    assert SpaceEnd(s, w) == w ==> w == |s|;
  }

  /**
   * `[\s]*` after the program word may take whitespace that no argument follows: a single word
   * followed by whitespace up to the end is one program with no arguments.
   */
  lemma TrailingSpaceAfterWord(s: string, w: nat)
    requires 0 < w <= |s|
    requires forall k | 0 <= k < w :: !IsWs(s[k])
    requires forall k | w <= k < |s| :: IsWs(s[k])
    ensures RootAt(s, 0).Some?
    ensures RootAt(s, 0).value.word.text == s[..w]
    ensures RootAt(s, 0).value.space.text == s[w..]
    ensures RootAt(s, 0).value.arguments == []
  {
    WordUpTo(s, 0, w);
    SpaceToEnd(s, w);
    RootTiles(s);
  }

  lemma {:induction false} WordUpTo(s: string, i: nat, w: nat)
    requires i <= w <= |s|
    requires forall k | i <= k < w :: !IsWs(s[k])
    requires w == |s| || IsWs(s[w])
    ensures WordEnd(s, i) == w
    decreases w - i
  {
    if i < w {
      WordUpTo(s, i + 1, w);
    }
  }

  lemma {:induction false} SpaceToEnd(s: string, i: nat)
    requires i <= |s|
    requires forall k | i <= k < |s| :: IsWs(s[k])
    ensures SpaceEnd(s, i) == |s|
    decreases |s| - i
  {
    if i < |s| {
      SpaceToEnd(s, i + 1);
    }
  }

  // ---------------------------------------------------------------------------------------------
  // Ordered choice in `argument`

  /** A word that does not start with a quote is one bare argument, quotes inside it included. */
  lemma BareUnlessQuoted(s: string, i: nat)
    requires i < |s| && !IsWs(s[i]) && s[i] != '\'' && s[i] != '"'
    ensures ArgumentAt(s, i) == BareAt(s, i)
    ensures ArgumentAt(s, i).value.arg.text == s[i..WordEnd(s, i)]
  {
  }

  /** The quoted node, field by field, once its closing quote is found. */
  lemma QuotedNode(s: string, i: nat, q: Quoting)
    requires q != Bare && i < |s| && s[i] == QuoteChar(q)
    requires i + 1 < ContentEnd(s, i + 1, QuoteChar(q)) < |s|
    ensures QuotedEnd(s, i, q) == SpaceEnd(s, ContentEnd(s, i + 1, QuoteChar(q)) + 1)
    ensures var j := ContentEnd(s, i + 1, QuoteChar(q));
      var e := SpaceEnd(s, j + 1);
      QuotedAt(s, i, q) == Some(ArgNode(s[i..e], i, q, Span(s[i + 1..j], i + 1), Span(s[j + 1..e], j + 1)))
  {
  }

  /** Without an opening quote, nonempty content and a closing quote, the quoted alternative fails. */
  lemma QuotedFails(s: string, i: nat, q: Quoting)
    requires q != Bare && i <= |s|
    requires !(i < |s| && s[i] == QuoteChar(q)) || ContentEnd(s, i + 1, QuoteChar(q)) in {i + 1, |s|}
    ensures QuotedAt(s, i, q).None? && QuotedEnd(s, i, q) == i
  {
  }

  /**
   * An opening quote with nonempty content and a closing quote makes a quoted argument whose
   * `arg` is exactly the content, whatever whitespace or line feeds it holds; the whitespace
   * run after the closing quote may be empty.
   */
  lemma QuotedWhenClosed(s: string, i: nat, q: Quoting)
    requires q != Bare && i < |s| && s[i] == QuoteChar(q)
    requires i + 1 < ContentEnd(s, i + 1, QuoteChar(q)) < |s|
    ensures var j := ContentEnd(s, i + 1, QuoteChar(q));
      && ArgumentAt(s, i).Some?
      && ArgumentAt(s, i).value.quoting == q
      && ArgumentAt(s, i).value.arg == Span(s[i + 1..j], i + 1)
      && ArgumentAt(s, i).value.space == Span(s[j + 1..SpaceEnd(s, j + 1)], j + 1)
  {
    QuotedNode(s, i, q);
    if q == DoubleQuoted {
      assert QuotedAt(s, i, SingleQuoted).None?;
    }
  }

  /** Empty quotes (`''` or `""`) do not make a quoted argument: the word is read bare. */
  lemma EmptyQuotesAreBare(s: string, i: nat, q: Quoting)
    requires q != Bare && i + 1 < |s| && s[i] == QuoteChar(q) && s[i + 1] == QuoteChar(q)
    ensures ArgumentAt(s, i) == BareAt(s, i)
    ensures ArgumentAt(s, i).value.arg.text == s[i..WordEnd(s, i)]
  {
  }

  /**
   * An opening quote never closed does not fail: the argument backtracks and is re-read as a bare
   * word that ends at the next whitespace.
   */
  lemma UnterminatedQuoteIsBare(s: string, i: nat, q: Quoting)
    requires q != Bare && i < |s| && s[i] == QuoteChar(q)
    requires forall k | i < k < |s| :: s[k] != QuoteChar(q)
    ensures ArgumentAt(s, i) == BareAt(s, i)
    ensures ArgumentAt(s, i).value.arg.text == s[i..WordEnd(s, i)]
  {
  }

  // ---------------------------------------------------------------------------------------------
  // The stored error

  /**
   * Once the arguments reach the end, the last failure recorded is the bare word's `[^\s]` at
   * the end of the input, and nothing recorded before lies further on.
   */
  lemma {:induction false} ArgumentsErrAtEnd(s: string, i: nat, e: Option<SyntaxError>)
    requires i <= |s| && ErrorWithin(e, |s|)
    requires i == |s| || !IsWs(s[i])
    ensures ArgumentsErr(s, i, e) == Some(SyntaxError(|s|, NonSpaceClass))
    decreases |s| - i
  {
    if i < |s| {
      ArgumentsErrAtEnd(s, ArgumentEnd(s, i), ArgumentErr(s, i, e));
    }
  }

  /** When `root` matches, the stored error is `[^\s]` expected at the end of the input. */
  lemma RootErrOnSuccess(s: string, i: nat, e: Option<SyntaxError>)
    requires i <= |s| && ErrorWithin(e, |s|)
    requires RootAt(s, i).Some?
    ensures RootErr(s, i, e) == Some(SyntaxError(|s|, NonSpaceClass))
  {
    var w := WordEnd(s, i);
    var sp := SpaceEnd(s, w);
    ArgumentsErrAtEnd(s, sp, Record(Record(e, w, NonSpaceClass), sp, SpaceClass));
  }
}

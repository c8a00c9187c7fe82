/**
 * The first step of `run(command)`: parse the command string and take the program name and the
 * argument vector from the parse tree. The program name is the text of the root's first element
 * (the leading word); each argument is the text of an argument node's `arg` label, which leaves
 * out its quotes and the whitespace after it.
 */
module GulpRun {
  import opened Wrappers
  import opened Strings
  import opened ParseError
  import opened Grammar
  import opened GrammarProperties
  import opened CommandParser

  /** What `run` hands to `child_process.spawn`: the program and its argument vector. */
  datatype Invocation = Invocation(cmd: string, args: seq<string>)

  /** The `arg` texts of the argument nodes, in order. */
  function ArgTexts(nodes: seq<ArgNode>): (texts: seq<string>)
    ensures |texts| == |nodes|
    ensures forall k | 0 <= k < |nodes| :: texts[k] == nodes[k].arg.text
  {
    if nodes == [] then [] else ArgTexts(nodes[..|nodes| - 1]) + [nodes[|nodes| - 1].arg.text]
  }

  /** The invocation `run(command)` builds, or the message of the error `parser.parse` throws. */
  function Tokenize(command: string): (r: Result<Invocation, string>)
    ensures r.Failure? <==> ParseOutcome(command).Failure?
    ensures r.Failure? ==> r.error == ParseOutcome(command).error
    ensures r.Success? ==> |r.value.args| == |ParseOutcome(command).value.arguments|
  {
    match ParseOutcome(command)
    case Failure(message) => Failure(message)
    case Success(ast) => Success(Invocation(ast.word.text, ArgTexts(ast.arguments)))
  }

  /** `run`'s parse-and-extract block: the parse, then `push` of each node's `arg` text. */
  method Run(command: string) returns (r: Result<Invocation, string>)
    ensures r == Tokenize(command)
  {
    var ast := Parse(command);
    if ast.Failure? {
      return Failure(ast.error);
    }
    var cmd := ast.value.word.text;
    var nodes := ast.value.arguments;
    var args: seq<string> := [];
    for k := 0 to |nodes|
      invariant args == ArgTexts(nodes[..k])
    {
      assert nodes[..k + 1][..k] == nodes[..k];
      args := args + [nodes[k].arg.text];
    }
    assert nodes[..|nodes|] == nodes;
    r := Success(Invocation(cmd, args));
  }

  /**
   * `run` throws exactly when the command is empty or starts with whitespace, and the message
   * then always points at the first column of the first line.
   */
  lemma TokenizeSucceedsIff(command: string)
    ensures Tokenize(command).Success? <==> |command| > 0 && !IsWs(command[0])
    ensures Tokenize(command).Failure? ==>
      Tokenize(command).error == Message(1, NonSpaceClass, SplitLines(command)[0], 0)
  {
    ParseSucceedsIff(command);
    if Tokenize(command).Failure? {
      ParseFailureMessage(command);
    }
  }

  /** The program is the leading maximal run of non-whitespace characters: nonempty, no whitespace. */
  lemma CommandIsFirstWord(command: string)
    requires Tokenize(command).Success?
    ensures var cmd := Tokenize(command).value.cmd;
      && cmd == command[..WordEnd(command, 0)]
      && |cmd| > 0
      && (forall k | 0 <= k < |cmd| :: !IsWs(cmd[k]))
      && (|cmd| == |command| || IsWs(command[|cmd|]))
  {
    ParseSucceedsIff(command);
    RootNodeAt(command, 0);
    WordRun(command, 0);
  }

  /** A successful `run` takes the program from the root's word and the arguments from its nodes. */
  lemma TokenizeValue(command: string)
    requires Tokenize(command).Success?
    ensures RootAt(command, 0).Some?
    ensures var root := RootAt(command, 0).value;
      Tokenize(command).value == Invocation(root.word.text, ArgTexts(root.arguments))
  {
    ParseSucceedsIff(command);
  }

  /**
   * One argument per argument node, in input order: each is the node's `arg` text, found in the
   * command at the `arg` node's offset, and none overlaps the one before it.
   */
  lemma ArgsMatchNodes(command: string)
    requires Tokenize(command).Success?
    ensures RootAt(command, 0).Some?
    ensures var nodes := RootAt(command, 0).value.arguments;
      && Tokenize(command).value.args == ArgTexts(nodes)
      && (forall k | 0 <= k < |nodes| ::
            && nodes[k].arg.offset + |nodes[k].arg.text| <= |command|
            && command[nodes[k].arg.offset..nodes[k].arg.offset + |nodes[k].arg.text|] == nodes[k].arg.text)
      && (forall k | 0 <= k < |nodes| - 1 :: nodes[k].arg.offset + |nodes[k].arg.text| <= nodes[k + 1].arg.offset)
  {
    TokenizeValue(command);
    NodesLaidOut(command);
    ArgsInOrder(command, RootAt(command, 0).value.arguments);
  }

  /** Whitespace reaches an argument only through quotes; quoted content never holds its quote. */
  lemma WhitespaceOnlyInQuotes(command: string)
    requires Tokenize(command).Success?
    ensures var args := Tokenize(command).value.args;
      var nodes := RootAt(command, 0).value.arguments;
      forall k | 0 <= k < |nodes| ::
        && |args[k]| > 0
        && (nodes[k].quoting == Bare ==> forall m | 0 <= m < |args[k]| :: !IsWs(args[k][m]))
        && (nodes[k].quoting != Bare ==> QuoteChar(nodes[k].quoting) !in args[k])
  {
    ParseSucceedsIff(command);
    RootTiles(command);
    ArgumentsTile(command, SpaceEnd(command, WordEnd(command, 0)));
  }

  /** A command that is one word runs that program with no arguments. */
  lemma SingleWord(command: string)
    requires |command| > 0 && forall k | 0 <= k < |command| :: !IsWs(command[k])
    ensures Tokenize(command) == Success(Invocation(command, []))
  {
    WordUpTo(command, 0, |command|);
    ParseSucceedsIff(command);
    RootNodeAt(command, 0);
    assert ArgumentEnd(command, |command|) == |command|;
  }

  // Helpers

  /** The root's argument nodes are well formed and laid end to end. */
  lemma NodesLaidOut(s: string)
    requires RootAt(s, 0).Some?
    ensures var nodes := RootAt(s, 0).value.arguments;
      && (forall k | 0 <= k < |nodes| :: ArgWellFormed(s, nodes[k]))
      && (forall k | 0 <= k < |nodes| - 1 :: nodes[k + 1].offset == nodes[k].offset + |nodes[k].text|)
  {
    RootTiles(s);
    var sp := SpaceEnd(s, WordEnd(s, 0));
    ArgumentsTile(s, sp);
    ArgumentsChain(s, sp);
  }

  /** A well-formed argument's `arg` text is the input's own text at the `arg` offset. */
  lemma ArgInInput(s: string, a: ArgNode)
    requires ArgWellFormed(s, a)
    ensures a.arg.offset + |a.arg.text| <= |s|
    ensures s[a.arg.offset..a.arg.offset + |a.arg.text|] == a.arg.text
  {
    var d, n := |Delimiter(a.quoting)|, |a.arg.text|;
    assert a.text[d..d + n] == a.arg.text;
    SliceOfSlice(s, a.offset, a.text, d, a.arg.text);
  }

  /** A slice of a slice of `s` is a slice of `s`. */
  lemma SliceOfSlice(s: string, o: nat, t: string, d: nat, x: string)
    requires o + |t| <= |s| && t == s[o..o + |t|]
    requires d + |x| <= |t| && x == t[d..d + |x|]
    ensures s[o + d..o + d + |x|] == x
  {
    assert forall k | 0 <= k < |x| :: s[o + d + k] == t[d + k] == x[k];
  }

  /** Well-formed argument nodes laid end to end: their `arg` texts sit in the input, in order. */
  lemma ArgsInOrder(s: string, nodes: seq<ArgNode>)
    requires forall k | 0 <= k < |nodes| :: ArgWellFormed(s, nodes[k])
    requires forall k | 0 <= k < |nodes| - 1 :: nodes[k + 1].offset == nodes[k].offset + |nodes[k].text|
    ensures forall k | 0 <= k < |nodes| ::
      && nodes[k].arg.offset + |nodes[k].arg.text| <= |s|
      && s[nodes[k].arg.offset..nodes[k].arg.offset + |nodes[k].arg.text|] == nodes[k].arg.text
    ensures forall k | 0 <= k < |nodes| - 1 ::
      nodes[k].arg.offset + |nodes[k].arg.text| <= nodes[k + 1].arg.offset
  {
    forall k | 0 <= k < |nodes|
      ensures nodes[k].arg.offset + |nodes[k].arg.text| <= |s|
      ensures s[nodes[k].arg.offset..nodes[k].arg.offset + |nodes[k].arg.text|] == nodes[k].arg.text
    {
      ArgInInput(s, nodes[k]);
    }
  }
}

# gulp-run command tokenizer and line buffer, in Dafny

This project models three parts of gulp-run:

- **The command parser** (`lib/command-parser.js`). It is a packrat PEG parser generated by Canopy. It splits the command string given to `run(command)` into a program word and arguments. Its grammar, as the generated code runs it, is:

  ```
  root     := [^\s]+ [\s]* argument*
  argument := "'" (!"'" .)+ "'" [\s]*  /  '"' (!'"' .)+ '"' [\s]*  /  [^\s]+ [\s]*
  ```

  Each rule is a method of the class `CommandParser.Parser`. The class has the fields `input`, `offset` and `error`. Each method consumes characters one at a time, as the generated loops do, and records every failed terminal match in the stored error. A stored error is replaced unless it lies strictly further on. Each method is proved equal to a pure function in `Grammar`: `RootAt`/`ArgumentAt`/… give the node a rule builds, `RootEnd`/`ArgumentEnd`/… where it stops, and `RootErr`/`ArgumentErr`/… the stored error afterwards. `parse` turns a failure into the three-line message of `formatError`: `Line n: expected …`, the offending line, and a caret under the column. `ParseError` models that message.
- **The extraction block of `run`** (`index.js`). It takes the program from the root's first element and one argument from each argument node's `arg` label (`GulpRun`).
- **The line-buffered transform stream** (`lib/line-buffered-stream.js`). It holds text back until a line feed arrives, pushes every completed line, and pushes whatever is left at the end (`LineBufferedStream`). Its chunk-by-chunk `writeToBuffer` is proved against a character-by-character reading of the input: a line feed completes the line read so far.

Where the generated code and the grammar's prose description differ, the model follows the code:

- The whitespace after the program word is `[\s]*`, a star, so a one-word command may end in whitespace (`"echo "`): the program with no arguments, the whitespace kept in the root node (`GrammarProperties.TrailingSpaceAfterWord`). A first argument still needs whitespace before it, because the word runs up to whitespace or the end (`GrammarProperties.SpaceBeforeArguments`, `GrammarProperties.RootTiles`).
- Quoted content must be nonempty. `''` and `""` are read as bare words (`GrammarProperties.EmptyQuotesAreBare`).
- An unterminated quote is not a parse error. The quoted alternative fails, and the word is re-read as a bare argument, opening quote included (`GrammarProperties.UnterminatedQuoteIsBare`).
- The only parse failure is an empty input or one that starts with whitespace. The message then always says `expected [^\s]` at line 1, column 0 (`CommandParser.ParseFailureMessage`).
- The `<EOF>` error of `parse` is never produced. A match always reaches the end of the input (`GrammarProperties.RootConsumesAll`), and `root` always records a failure (`Grammar.RootErr`).
- Whitespace is JavaScript's `\s`: the ECMAScript WhiteSpace and LineTerminator characters, including the Unicode space separators.
- The expected-token descriptions are the character-class texts the code records (`[^\s]`, `[\s]`, `[']`, `["]`, `<any char>`, `<EOF>`), not prose.

## Model

| member | source | states |
|---|---|---|
| ParseError.FurthestFailureWins | lib/command-parser.js:239-241 | after any nonempty sequence of failed matches, the stored error is the failure at the furthest offset; later failures at that offset replace earlier ones, and no failure recorded after it lies as far |
| ParseError.RecordAbsorbs | lib/command-parser.js:239-241 | a failure at or beyond an earlier one makes the earlier one irrelevant |
| ParseError.Record | lib/command-parser.js:80-82 | recording a failure always leaves an error, at the further of the stored offset and the new one; it is either the stored error or the new failure, and the new failure wins a tie |
| ParseError.SplitLines | lib/command-parser.js:24 | `input.split(/\n/g)` yields at least one piece |
| ParseError.JoinSplit | lib/command-parser.js:24 | the pieces of the split, joined with line feeds, give back the input |
| ParseError.SplitLinesFree | lib/command-parser.js:24 | no piece of the split holds a line feed |
| ParseError.SplitLinesCount | lib/command-parser.js:24 | the split yields one more piece than the input has line feeds |
| ParseError.LastLineStart | lib/command-parser.js:28-31 | the lines' extents, each with its line feed, end one past the end of the input, so the line walk of `formatError` finds a line for every offset up to the input's length |
| ParseError.LineIndex | lib/command-parser.js:28-31 | the line the walk stops on begins at or before the offset, and the next line begins after it |
| ParseError.LineIndexUnique | lib/command-parser.js:28-31 | exactly one line's extent (its text and its line feed) holds a given offset |
| ParseError.Decimal | lib/command-parser.js:32 | the line number prints as nonempty decimal digits without a leading zero |
| ParseError.DecimalRoundTrip | lib/command-parser.js:32 | the printed line number reads back as the number |
| ParseError.FormatError | lib/command-parser.js:23-43 | `formatError` returns the message for the error's offset in the input |
| ParseError.FormatLines | lib/command-parser.js:28-42 | the two loops: walk whole lines until the offset is passed, then pad the caret line; the result is `Line n: expected …`, the line, and the caret under the column |
| ParseError.ErrorMessageLocates | lib/command-parser.js:23-43 | the message names line n, which is the input's text between the line feeds around the offset; n is one more than the number of line feeds before it, and the caret's column is the offset minus where that line begins |
| ParseError.MessageLine | lib/command-parser.js:28-35 | the line shown is the one whose extent holds the offset |
| Grammar.WordEnd | lib/command-parser.js:56-101 | the `[^\s]` loop stops at whitespace or at the end of the input |
| Grammar.SpaceEnd | lib/command-parser.js:105-151 | the `[\s]` loop stops at non-whitespace or at the end of the input |
| Grammar.ContentEnd | lib/command-parser.js:246-361 | the `(!q .)` loop stops at the quote or at the end of the input |
| Grammar.WordRun | lib/command-parser.js:56-101 | everything the `[^\s]` loop consumes is non-whitespace |
| Grammar.SpaceRun | lib/command-parser.js:105-151 | everything the `[\s]` loop consumes is whitespace |
| Grammar.ContentRun | lib/command-parser.js:246-361 | nothing the `(!q .)` loop consumes is the quote |
| Grammar.ArgumentEnd | lib/command-parser.js:206-868 | `argument` matches exactly at a non-whitespace character and stops before the next non-whitespace character or at the end |
| Grammar.QuotedAt | lib/command-parser.js:215-473 | the quoted alternative builds a node exactly when it consumes something, starting at the offset, with the consumed text |
| Grammar.BareAt | lib/command-parser.js:736-866 | the bare alternative matches exactly at a non-whitespace character, with the consumed text |
| Grammar.ArgumentAt | lib/command-parser.js:206-868 | `argument` builds a node exactly at a non-whitespace character; the node's text is the consumed input |
| Grammar.RootAt | lib/command-parser.js:46-205 | `root` matches exactly when the input at the offset starts with a non-whitespace character |
| Grammar.AsciiWhitespace | lib/command-parser.js:64 | within ASCII, the `\s` of the character-class tests is exactly tab, line feed, vertical tab, form feed, carriage return and space |
| Grammar.ContentErr | lib/command-parser.js:246-361 | the `(!q .)+` loop never moves the stored error back or out of the input; when it runs to the end of the input the stored error is `<any char>` there |
| Grammar.QuotedErr | lib/command-parser.js:215-473 | the quoted alternative never moves the stored error back or out of the input; without an opening quote it records a failure at or after its start |
| Grammar.BareErr | lib/command-parser.js:736-866 | the bare alternative always leaves a stored error, at or after where the word ends, never earlier than the one before, and within the input |
| Grammar.ArgumentErr | lib/command-parser.js:206-868 | trying the alternatives in order never moves the stored error back or out of the input |
| Grammar.ArgumentsErr | lib/command-parser.js:155-191 | the `argument*` loop never moves the stored error back or out of the input |
| GrammarProperties.ArgumentsReachEnd | lib/command-parser.js:155-191 | from a non-whitespace character, `argument*` consumes the rest of the input |
| GrammarProperties.ArgumentsText | lib/command-parser.js:155-191 | the argument nodes' texts, laid end to end, are the consumed input |
| GrammarProperties.RootConsumesAll | lib/command-parser.js:46-205 | whenever `root` matches, its text is the whole rest of the input: word, whitespace, arguments |
| GrammarProperties.ArgumentWellFormed | lib/command-parser.js:206-868 | every argument node is the input's text at its offset: delimiters, a nonempty `arg` free of whitespace (bare) or of its quote (quoted), then a whitespace run, then a non-whitespace character or the end |
| GrammarProperties.QuotedWellFormed | lib/command-parser.js:215-473 | a quoted node has that layout |
| GrammarProperties.BareWellFormed | lib/command-parser.js:736-866 | a bare node has that layout |
| GrammarProperties.ArgumentsTile | lib/command-parser.js:155-191 | the argument nodes are well formed, the first starts where `argument*` starts, and each starts where the text before it ends |
| GrammarProperties.ArgumentsChain | lib/command-parser.js:155-191 | each argument node starts where the one before it ends |
| GrammarProperties.ArgumentNth | lib/command-parser.js:155-191 | the k-th argument node is what `argument` builds where the text of the earlier nodes ends |
| GrammarProperties.RootTiles | lib/command-parser.js:46-205 | the program word is the maximal leading non-whitespace run, then the maximal whitespace run, then the arguments, which reach the end of the input |
| GrammarProperties.SpaceBeforeArguments | lib/command-parser.js:46-205 | when `root` has arguments, the whitespace after the program word is nonempty |
| GrammarProperties.TrailingSpaceAfterWord | lib/command-parser.js:46-205 | a word followed only by whitespace is the program with no arguments, and `[\s]*` takes the trailing whitespace |
| GrammarProperties.BareUnlessQuoted | lib/command-parser.js:206-868 | a word that does not start with a quote is one bare argument, inner quotes included |
| GrammarProperties.QuotedWhenClosed | lib/command-parser.js:215-473 | an opening quote, nonempty content and a closing quote make a quoted argument whose `arg` is exactly the content, whitespace and line feeds included |
| GrammarProperties.QuotedFails | lib/command-parser.js:215-473 | without an opening quote, nonempty content and a closing quote, the quoted alternative fails and consumes nothing |
| GrammarProperties.EmptyQuotesAreBare | lib/command-parser.js:206-868 | `''` and `""` are read by the bare alternative |
| GrammarProperties.UnterminatedQuoteIsBare | lib/command-parser.js:206-868 | an unclosed quote backtracks, and the word is re-read bare up to the next whitespace |
| Grammar.RootErr | lib/command-parser.js:46-205 | after `root` there is always a stored error; it lies at or after where `root` started, no earlier than the one before, and within the input when that one was |
| GrammarProperties.ArgumentsErrAtEnd | lib/command-parser.js:155-191 | once the arguments reach the end, the stored error is `[^\s]` expected at the end of the input |
| GrammarProperties.RootErrOnSuccess | lib/command-parser.js:46-205 | after a successful `root`, the stored error is `[^\s]` at the end of the input |
| CommandParser.Parser.constructor | lib/command-parser.js:871-875 | a new parser is at offset 0 with nothing recorded |
| CommandParser.Parser.ConsumeWord | lib/command-parser.js:56-101 | the `[^\s]` loop advances to the end of the non-whitespace run, returns its text, and leaves `[^\s]` recorded where it stopped |
| CommandParser.Parser.ConsumeSpace | lib/command-parser.js:105-151 | the `[\s]` loop advances to the end of the whitespace run, returns its text, and leaves `[\s]` recorded where it stopped |
| CommandParser.Parser.ConsumeContent | lib/command-parser.js:246-361 | the `(!q .)+` loop advances to the next quote or the end, recording `[q]` at every consumed character and `<any char>` at the end |
| CommandParser.Parser.ConsumeQuoted | lib/command-parser.js:215-473 | the quoted alternative returns the node, the end and the stored error of its specification; on failure the offset is restored |
| CommandParser.Parser.ConsumeClosing | lib/command-parser.js:362-461 | the closing quote and trailing whitespace complete the quoted node, or the alternative fails back to its start |
| CommandParser.Parser.ConsumeBare | lib/command-parser.js:736-866 | the bare alternative returns its node, end and stored error |
| CommandParser.Parser.ConsumeArgument | lib/command-parser.js:206-868 | ordered choice: single-quoted, else double-quoted, else bare |
| CommandParser.Parser.ConsumeArguments | lib/command-parser.js:155-191 | the `argument*` loop collects nodes until `argument` fails, and returns their text |
| CommandParser.Parser.ConsumeRoot | lib/command-parser.js:46-205 | `root` returns its node, its end and the stored error of its specification |
| CommandParser.Parser.Parse | lib/command-parser.js:877-888 | `parse` returns the root node when it matches and reaches the end, otherwise the formatted message of the stored error; afterwards the offset is where `root` stopped and the stored error is what `root` left |
| CommandParser.ParseOutcomeFrom | lib/command-parser.js:877-888 | `parse` succeeds exactly when `root` matches, and the node then covers the rest of the input; a failure is always the message of the stored error, never `<EOF>` |
| CommandParser.Parse | lib/command-parser.js:890-893 | the static `parse` is a fresh parser's `parse` |
| CommandParser.ParseSucceedsIff | lib/command-parser.js:877-888 | parsing succeeds exactly when the input is nonempty and starts with non-whitespace; the root node then covers the whole input |
| CommandParser.ParseFailureMessage | lib/command-parser.js:877-888 | a failed parse reports `expected [^\s]` on line 1, showing the first line with the caret in column 0 |
| GulpRun.ArgTexts | index.js:48-50 | one argument per node, in order, each the node's `arg` text |
| GulpRun.Tokenize | index.js:45-50 | `run` throws exactly when `parse` does, with its message unchanged, and otherwise takes one argument per argument node |
| GulpRun.Run | index.js:44-50 | `run` parses the command, takes the program from the root's word and pushes each node's `arg` text |
| GulpRun.TokenizeSucceedsIff | index.js:44-50 | `run` throws exactly when the command is empty or starts with whitespace, with the line 1, column 0 message |
| GulpRun.CommandIsFirstWord | index.js:46 | the program is the maximal leading non-whitespace run: nonempty, free of whitespace, followed by whitespace or the end |
| GulpRun.ArgsMatchNodes | index.js:47-50 | each argument is the node's `arg` text, found in the command at that node's offset, and arguments appear in input order without overlapping |
| GulpRun.WhitespaceOnlyInQuotes | index.js:47-50 | every argument is nonempty; a bare argument holds no whitespace; a quoted one never holds its own quote |
| GulpRun.SingleWord | index.js:44-50 | a command without whitespace runs that program with no arguments |
| LineBufferedStream.PartialLine | lib/line-buffered-stream.js:31-42 | what stays in the buffer never holds a line feed |
| LineBufferedStream.LineBuffer.constructor | lib/line-buffered-stream.js:15-16 | the buffer starts empty and nothing has been pushed |
| LineBufferedStream.LineBuffer.Flush | lib/line-buffered-stream.js:19-22 | `flush` pushes the buffer contents and empties the buffer |
| LineBufferedStream.LineBuffer.WriteToBuffer | lib/line-buffered-stream.js:31-42 | `writeToBuffer` pushes exactly the completed lines of the buffer followed by the string, and keeps the partial line after the last line feed |
| LineBufferedStream.LineBuffer.Transform | lib/line-buffered-stream.js:25-45 | `_transform` pushes the completed lines of buffer plus chunk and keeps the rest |
| LineBufferedStream.LineBuffer.End | lib/line-buffered-stream.js:47-50 | `_flush` pushes the buffer, even an empty one, and leaves it empty |
| LineBufferedStream.LinesEndWithLineFeed | lib/line-buffered-stream.js:32-38 | every pushed line ends with a line feed and holds no other |
| LineBufferedStream.OneLinePerLineFeed | lib/line-buffered-stream.js:32-38 | one line is pushed per line feed in the input |
| LineBufferedStream.Reassemble | lib/line-buffered-stream.js:31-42 | the pushed lines followed by the buffer are exactly the input: nothing lost, added or reordered |
| LineBufferedStream.NoLineFeedNoPush | lib/line-buffered-stream.js:39-41 | a chunk without a line feed pushes nothing and is appended to the buffer |
| LineBufferedStream.PushesPerChunk | lib/line-buffered-stream.js:25-45 | one `_transform` pushes as many lines as the chunk has line feeds |
| LineBufferedStream.TransformConserves | lib/line-buffered-stream.js:25-45 | across one `_transform`, the output so far plus the buffer grows by exactly the chunk |
| LineBufferedStream.LinesAppend | lib/line-buffered-stream.js:31-42 | reading two pieces in a row completes the lines of the first, then those of the second read after the first's partial line |
| LineBufferedStream.FirstLine | lib/line-buffered-stream.js:32-38 | onto a buffer without line feeds, the first push is the buffer plus the string up to its first line feed, and the rest behaves as if written onto an empty buffer |

These reference functions have no row of their own, because the rows above are proved against them: `Grammar.IsWs`, `Grammar.QuotedEnd`, `Grammar.BareEnd`, `Grammar.ArgumentsEnd`, `Grammar.ArgumentsFrom`, `Grammar.RootEnd`, `ParseError.ErrorMessage`, `CommandParser.ParseOutcome`, `LineBufferedStream.CompleteLines` and `Strings.IndexOf`. Each is the specification that a method or lemma in the table is stated in terms of.

## Left out

- The packrat cache `_nodeCache` is left out. Every rule is tried at most once per offset here, so the cache never hits and changes no result.
- `lastError`, the class-wide copy of the stored error, is left out. Nothing in the core reads it.
- `extend`, `find`, `SyntaxNode.prototype.forEach` and the module export block are left out. They are JavaScript plumbing with no effect on results.
- Single-character leaf nodes and the untyped `elements` arrays of `SyntaxNode` are left out. Nodes are modelled down to the labelled parts that callers read: the word, the whitespace, `arg`, the delimiters and the trailing space.
- Strings are sequences of Dafny characters, not UTF-16 code units. Offsets and lengths differ from JavaScript's for characters outside the Basic Multilingual Plane.
- ParseError.ErrorMessage and ParseError.FormatError require the error offset to lie within the input. The parser only ever records such offsets (`Grammar.RootErr`).
- The rest of `run` (the child process, `env.PATH`, the stream of vinyl files, templating, verbosity and logging) is left out. It is I/O around the tokenizer. `lib/command.js`, `lib/logger.js` and `gulp-run.js` are not part of this model.
- `process.nextTick(callback)` in `_transform` and `_flush` is left out. Its timing is not modelled, and `pushed` records the calls to `push` in order.
- LineBufferedStream.LineBuffer.Transform takes a string chunk. Buffer chunks and their decoding are not modelled, and the check on line 26 that converts a string to a string changes nothing.
- The options object passed to the `stream.Transform` constructor (lines 11-13) is not modelled. It is handed over through `apply` as the argument list, so the stream never receives it. `decodeStrings` then keeps its default of true, so the stream would hand string writes to `_transform` as Buffers. The model takes every chunk as a string, so this conversion is not modelled.

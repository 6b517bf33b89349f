# Verified model of the streaming chat stack, the tensor tools and the codecs

A Dafny 4.11 project that models the parts of the repository in which one function's correctness depends on
another's, and proves what they promise on all inputs. `dafny verify dfyconfig.toml` checks everything.

## What is modelled

**Streaming chat parsing.** While a model generates, the server parses the growing text again and again and sends
the client only the difference of successive messages. `Text`, `Reasoning`, `ReasoningLaws` and `LiteralSearch` say
what the parser computes on a text, `ChatParser` is the cursor class itself, proved against them, `ChatDiff` and
`ServerStream` are the diff, the id cache and the server's update, and the client that folds the deltas. The main
results run across all of them: the shown texts are monotone exactly from the safe snapshots, the diff rebuilds a
message exactly when it extends the old one, and a content-only stream arrives whole however it is cut.

**XML-style tool calls.** `XmlSpec` is the parser as a function, with its backtracking, its early exits, its attempts
at JSON values and the exceptions it throws; `XmlToolCall` is the parser on the cursor class, proved equal to it;
`XmlLaws`, `XmlFaults` and `XmlRoundTrip` say what every attempt keeps, which inputs it fails on, and that parsing
undoes printing, with the delimiters of `XmlFormats`. The reader of JSON (`common_json_parse`) is a parameter;
`JsonHealing` and `HealingLaws` say how the shipped one completes a cut string and when its promise breaks,
`XmlCutValues` what that does to the parser, and `JsonStrings` what it makes of strings as `dump` writes them;
`JsonReading` says what the dump of `Json` means. `XmlSearches`, `XmlGrowth`, `XmlShown`, `XmlValues`, `XmlJsonValues`,
`XmlCutStrings`, `XmlStream`, `XmlCallStream`, `XmlScopeStream`, `XmlClientStream`, `XmlPrintedStream` and
`XmlPrintedJson` follow a growing text of tool calls from one delimiter over its values to the client, which ends with
exactly the calls. `ArgGrammar`, `TrieGrammar` and `TrieLanguage` give the grammars the code builds a
semantics (`Gbnf`) and determine the languages exactly. `PegMapper`, `PegLaws` and `PegStream` do the same for the
mapper that prints arguments piece by piece.

**Factored LoRA tensors.** `FactoredTensor`, `LoraAxes`, `LoraPipeline`, `LoraRuns` and `LoraHeads`: slicing, reshaping,
permuting and concatenating the factors A and B is slicing, reshaping, permuting and concatenating B times A, for
single operations and for whole pipelines.

**Byte-level codecs and in-place loops.** `Base64`, `Base64Laws`, the legacy GGML files (`GgmlSpec`, `GgmlModel`,
`GgmlLaws`, `GgmlTruncation`), in-place unescaping (`Escapes`), the rolling-row longest common run (`Lcs`), UTF-8
truncation (`Utf8`).

**Champion and candidates.** `Promotion`: what any number of training cycles keeps.

Code that changes state is modelled by classes, arrays and loops whose contracts tie the new state to a
specification function; the laws are lemmas about these functions. Characters are bytes.

## Where the code does less than its text says

- chat-parser-xml-toolcall.cpp:81-83 says that the grammar excludes every text with a forbidden string. It does so
  exactly when no chunk clashes with a forbidden string (`TrieLanguage.SoundExactly`, `SoundExactlyApart`), for a
  single string when all its bytes are equal (`SoundExactlyForConstants`, `ForbiddenInside`).
- chat-parser-xml-toolcall.cpp:420-427 uses the result of the second search for a tool end without testing it
  (`XmlLaws.NullDerefExactlyWhen`); with the Apriel delimiters a closing brace in a tool name is enough
  (`XmlFaults.BraceInNameDerefsExactly`, `BracedCallDerefs`).
- chat-parser-xml-toolcall.cpp:533 asserts that the healing marker is in the printed arguments, as json-partial.h:11-12
  promises. The shipped reader does not keep that promise when a string is cut inside a unicode escape: line 531
  prints the completed escape as raw UTF-8, and the marker, which json-partial.cpp:231-233 and its like begin with the
  digits that completed the escape, is no longer there (`HealingLaws.MarkerKeptExactly`). In the formats whose values
  must be JSON (Kimi-K2, Xiaomi MiMo, Apriel) a live stream can reach this: the assertion fails exactly on such cuts
  (`XmlLaws.AssertFailsExactlyOnCuts`, `XmlCutValues.CutValueExactly`, `HalfPairFails`), for instance after
  `{"k":"\ud83d` (`HalfPairInObject`).
- chat-parser-xml-toolcall.cpp:545-552: when a text pauses inside the end of a value, the value is held back although it
  was shown before, so a string already streamed is taken back. Xiaomi MiMo and Apriel, whose values end with a comma
  and a space, can reach this (`XmlCutStrings.SplitEndTakesBack`); Kimi-K2, with a comma alone, cannot
  (`XmlJsonValues.JsonGrows`).
- json-partial.cpp:300-318 completes a string at the top level only between its characters and after a backslash. Cut in
  a unicode escape it is not read, and the parser shows it as text with its quote, which the finished string takes back
  (`XmlCutStrings.UnreadStringTakesBack`); after a backslash a slash takes the backslash back (`SlashKeptExactly`).
- chat-parser-xml-toolcall.cpp:570 assigns to a key that is given twice, so the value already streamed for it is taken
  back and the diff at chat.cpp:147-164 refuses it (`XmlStream.RepeatedKeyRetracts`, `ChatDiff.RebuildsExtends`).
- chat-parser.cpp:346-367: spaces shown before an opening tag are taken back when the tag begins
  (`Reasoning.UnsafeSnapshotRetracts`); the server hides this because it skips empty messages, so a client is wrong
  only when the stream ends inside the opening tag (`ServerStream.StreamEndToEnd`).
- chat-parser.cpp:267-277: a longer candidate tail before the cursor hides a shorter one after it
  (`LiteralSearch.MissedExactlyWhenHidden`).
- chat-peg-parser.cpp:87-89: opening an argument forgets the quote that the argument before it still needs
  (`PegLaws.ConstructedExactly`).
- convert_lora_to_gguf.py:140-145 accepts several -1 dimensions whenever they are filled with ones or zeros and the
  row size is kept (`LoraPipeline.InfersSeveralExactly`).
- convert_llama_ggml_to_gguf.py:190-194 does not test that the last tensor's data are in the file, and lines 121-122
  cut its name short without an error (`GgmlTruncation.CutLoadsExactly`, `CutTensor`).

## Model

| member | source | states |
|---|---|---|
| `Text.PartialIsFirst` | llama.cpp/common/common.cpp:471-485 | the partial-stop search returns the start of the longest tail of the text that is a beginning of the stop string, and nothing only when there is no such tail |
| `Text.StripMeaning` | llama.cpp/common/common.cpp:414-424 | stripping removes exactly the leading and the trailing spaces |
| `Text.StripMonotone` | llama.cpp/common/common.cpp:414-424 | the stripped form of a text is a prefix of the stripped form of every extension |
| `Text.ShownEndMonotone` | llama.cpp/common/common.cpp:471-485 | how much of a section is shown before a possible closing tag never shrinks as the text grows |
| `CommonStrings.FindPartialStop` | llama.cpp/common/common.cpp:471-485 | the index loop returns the position the specification names, for every text and stop string |
| `CommonStrings.StripText` | llama.cpp/common/common.cpp:414-424 | the two index loops return the stripped text |
| `Reasoning.ParseMonotone` | llama.cpp/common/chat-parser.cpp:287-431 | streaming law: from a safe snapshot on, the content and the reasoning shown are prefixes of those of every later parse, partial or final, through tag withholding, stripping, repeated sections and both places for the reasoning |
| `Reasoning.StreamingIffSafe` | llama.cpp/common/chat-parser.cpp:346-367 | the law holds for all extensions exactly when the snapshot is not an unforced run of leading spaces that would be taken back |
| `Reasoning.UnsafeSnapshotRetracts` | llama.cpp/common/chat-parser.cpp:346-367 | from any other snapshot the first byte of the tag makes the spaces already shown disappear |
| `Reasoning.EmptyOrExtends` | llama.cpp/common/chat-parser.cpp:287-431 | even after an unsafe snapshot a later parse extends it or is empty altogether |
| `Reasoning.SplitsTaggedText` | llama.cpp/common/chat-parser.cpp:294-431 | a complete text of spaces, one tagged section, spaces and an answer is split exactly: the section without its outer spaces and the answer, in the fields the options ask for; a section of spaces leaves no reasoning |
| `ReasoningLaws.DocumentIsRead` | llama.cpp/common/chat-parser.cpp:287-431 | for every text made of leading spaces and sections, opened by a tag or forced open, closed or not, ending with a tag that has only begun or not, and an answer, partial or final: content and reasoning are exactly those of its parts, in the fields and with the tags the options ask for |
| `ReasoningLaws.EveryTextHasParts` | llama.cpp/common/chat-parser.cpp:287-431 | and every text is made of such parts, so that the message of every text is determined |
| `ReasoningLaws.ForcedOpenSplits` | llama.cpp/common/chat-parser.cpp:375-406 | the simplest case without an opening tag: with thinking forced open the text up to the closing tag is the reasoning, and the rest the answer |
| `ChatParser.MsgParser.TryParseReasoning` | llama.cpp/common/chat-parser.cpp:287-431 | the method on the cursor object ends with the position, content and reasoning of the specification, and restores its state when it finds no reasoning |
| `ChatParser.MsgParser.ParseContentOnly` | llama.cpp/common/chat-parser.cpp:1518-1521 | the content-only format leaves in the object the message of the specification with the whole input consumed |
| `LiteralSearch.ConsumesPreludeAndMatch` | llama.cpp/common/chat-parser.cpp:257-279 | prelude and match are exactly the text consumed; the match is the whole literal, or the rest of a partial input and a beginning of the literal |
| `LiteralSearch.MatchNeverMovesBack` | llama.cpp/common/chat-parser.cpp:257-279 | a match seen early, whole or partial, never starts earlier in an extended input, so the old prelude is a prefix of the new one |
| `LiteralSearch.MissedExactlyWhenHidden` | llama.cpp/common/chat-parser.cpp:267-277 | when nothing is found, a later match begins inside the text already seen exactly when the longest candidate tail starts before the cursor and hides a shorter one after it |
| `LiteralSearch.HiddenTailExample` | llama.cpp/common/chat-parser.cpp:267-277 | that situation occurs: a concrete input |
| `ChatParser.MsgParser.TryFindLiteral` | llama.cpp/common/chat-parser.cpp:257-279 | the method returns the match of the specification and moves the cursor to its end, or not at all |
| `ChatParser.MsgParser.TryConsumeLiteral` | llama.cpp/common/chat-parser.cpp:242-255 | consumes the literal exactly when it stands at the cursor |
| `ChatParser.MsgParser.ConsumeSpaces` | llama.cpp/common/chat-parser.cpp:232-240 | moves to the first character that is not a space and says whether it moved |
| `ChatParser.MsgParser.MoveTo` | llama.cpp/common/chat-parser.h:37-42 | moves within the input and refuses a position past its end; every step back of the tool-call parser goes through it |
| `ChatParser.MsgParser.AddToolCall` | llama.cpp/common/chat-parser.cpp:159-173 | appends a call unless its name is empty |
| `ChatDiff.ComputeDiffs` | llama.cpp/common/chat.cpp:125-172 | the deltas and errors of the specification, in the order of the source |
| `ChatDiff.DiffsFailExactly` | llama.cpp/common/chat.cpp:125-172 | the diff fails if and only if a text is neither a beginning nor a continuation of the one before, a call has gone, or the last old call changed its name |
| `ChatDiff.ClientHolds` | llama.cpp/common/chat.cpp:37-50 | what the client holds after the deltas of any two snapshots for which they can be computed: of every text the longer one, the last old call with the longer arguments, and the new calls |
| `ChatDiff.OneDeltaPerChange` | llama.cpp/common/chat.cpp:125-172 | one delta for each part that changed, and none for any other |
| `ChatDiff.DiffsRebuildIffExtends` | llama.cpp/common/chat.cpp:37-50 | for any two snapshots and a client that uses the index of a delta, opening the next call or appending to the last one and failing on any other index: the diff is computed without error and the client rebuilds the new snapshot, if and only if the new snapshot extends the old one (texts grow, only the last old call grows, in its arguments, and new calls have names) |
| `ChatDiff.RebuildsExtends` | llama.cpp/common/chat.cpp:147-164 | a rebuilt snapshot extends the old one: a retraction, a change to an earlier call or a call without a name is never rebuilt |
| `ServerStream.TaskResultState.SetToolCallIds` | llama.cpp/common/chat.h:55-66 | the loop fills the id cache and the calls as the specification says |
| `ServerStream.TaskResultState.TakeParsed` | llama.cpp/tools/server/server-task.cpp:168-173 | whatever parser the message comes from, the object keeps an empty one out, gives ids to the calls of any other, stores it and returns its deltas |
| `ServerStream.TaskResultState.UpdateChatMsg` | llama.cpp/tools/server/server-task.cpp:157-174 | one update of a content-only stream changes the text, the message and the cache as the specification says and returns its deltas |
| `ServerStream.Serve` | llama.cpp/tools/server/server-task.cpp:157-174 | updating the object with one chunk after the other, while a client folds what each update sends, ends in the state and the message of the run that the stream theorems are about |
| `ServerStream.UpdateFollows` | llama.cpp/tools/server/server-task.cpp:164-172 | an update with an extending parse raises no error, the client ends with the server's message, and the cache only grows |
| `ServerStream.RunTelescopes` | llama.cpp/common/chat.cpp:125-172 | over any run of growing snapshots with one id cache nothing fails and the folded deltas are the last non-empty snapshot with ids from the cache |
| `ServerStream.CallIdsAreStable` | llama.cpp/common/chat.h:55-66 | call i has the same id in every snapshot of a run from the one in which it first appears |
| `ServerStream.CacheEntries` | llama.cpp/common/chat.h:55-66 | an id in the cache is never replaced; a new one is the id the call has, or else a generated one |
| `ServerStream.IdsOfRun` | llama.cpp/common/chat.h:55-66 | over any run of growing snapshots every call has, for the server and the client, the id it came with in the first snapshot that holds it, or the one generated then |
| `ServerStream.StreamEndToEnd` | llama.cpp/tools/server/server-task.cpp:157-174 | however the text of a content-only stream is cut, no update fails and the client holds the server's message; it is not the message of the complete parse if and only if some chunk ended within leading spaces that were shown and the whole text is spaces and a proper beginning of the opening tag |
| `Reasoning.EmptyAfterUnsafe` | llama.cpp/common/chat-parser.cpp:346-367 | after leading spaces were shown, a later message is empty if and only if the text so far, after its spaces, is a proper beginning of the opening tag |
| `ServerStream.SafeStreamRebuildsFinal` | llama.cpp/common/chat-parser.cpp:1614-1636 | with safe snapshots only, the client always ends with exactly the message of the final parse |
| `Utf8.TruncateSafeLength` | llama.cpp/common/chat-parser-xml-toolcall.cpp:27-50 | the backward loop returns the cut of the specification |
| `Utf8.CutIsLongestWellFormedPrefix` | llama.cpp/common/chat-parser-xml-toolcall.cpp:27-50 | for every byte prefix of a well-formed text (section 4 of RFC 3629) the cut is its longest well-formed prefix and drops at most three bytes |
| `Utf8.CutIsIdempotent` | llama.cpp/common/chat-parser-xml-toolcall.cpp:27-50 | cutting a second time changes nothing |
| `JsonReading.ReadUndoesDump` | llama.cpp/common/chat-parser-xml-toolcall.cpp:596-600 | the printed arguments mean the members: a reader of JSON objects (sections 4 and 7 of RFC 8259) returns from them exactly the keys and values, in order, and what follows the object, for strings of any bytes and for other values printed without a separator outside their own brackets and strings |
| `JsonReading.DecodeUndoesEscape` | llama.cpp/common/chat-parser-xml-toolcall.cpp:596-600 | what is printed between the quotes stands for the string, for every string of bytes |
| `JsonReading.DumpIsInjective` | llama.cpp/common/chat-parser-xml-toolcall.cpp:596-600 | so the printed arguments of a call determine the members and their order |
| `JsonReading.WholeCharacter` | llama.cpp/common/chat-parser-xml-toolcall.cpp:27-50 | the whole characters that the cut keeps are exactly the encodings of code points, of which surrogates are none |
| `Json.PutNewKey` | llama.cpp/common/chat-parser-xml-toolcall.cpp:570 | assigning a new key appends it after the keys already there |
| `Json.PutOldKey` | llama.cpp/common/chat-parser-xml-toolcall.cpp:570 | a key assigned again keeps its place, and every other member stays |
| `XmlSpec.TryConsume` | llama.cpp/common/chat-parser-xml-toolcall.cpp:635-648 | backtracking: an attempt that returns false leaves cursor and calls as they were; every ending keeps the earlier calls in front; a success never moves the cursor back; the syntax error never escapes |
| `XmlSpec.ParseCalls` | llama.cpp/common/chat-parser-xml-toolcall.cpp:386-632 | the calls loop keeps the calls found so far on every ending, and refuses only before anything was committed to, whatever the reader of JSON returns for the values |
| `XmlLaws.NullDerefExactlyWhen` | llama.cpp/common/chat-parser-xml-toolcall.cpp:410-428 | the name step reads an empty optional exactly when the text before the separator holds the alternative tool end and no tool end can be found |
| `XmlFaults.BraceInNameDerefsExactly` | llama.cpp/common/chat-parser.cpp:932-949 | with the delimiters of the Apriel format, when the text so far, complete or not, ends with a name without a quote and its separator: that happens if and only if the name holds a closing brace and no tool end, that is, neither a brace, comma and space nor a brace, spaces and the end of the scope |
| `XmlFaults.BracedCallDerefs` | llama.cpp/common/chat-parser-xml-toolcall.cpp:410-428 | and the whole attempt on a text that opens its first call with such a name ends there |
| `XmlLaws.AssertFailsExactlyWhen` | llama.cpp/common/chat-parser-xml-toolcall.cpp:525-544 | the assertion after a value still growing fails exactly when values must be JSON, one that is shown was read up to the end of the text, and the marker that completed it is not in the printed arguments |
| `HealingLaws.MarkerKeptExactly` | llama.cpp/common/json-partial.h:11-12 | the promise that the dump of a completed value can be cut at the marker: kept if and only if the text is not cut in a string at an escape whose completion is dumped as something else, for a marker that the dump holds once |
| `HealingLaws.SingleLosesExactly` | llama.cpp/common/json-partial.cpp:186-211 | for a string cut after finished text in a unicode escape of fewer than four digits: the escape breaks the promise if and only if it is none of `\u`, `\u0`, `\u00`, `\u000`, `\u001` and `\u003` and does not begin like the second half of a pair, which no padding completes |
| `HealingLaws.HalfPairText` | llama.cpp/common/json-partial.cpp:197-199 | a text cut after the first half of a surrogate pair, in a string anywhere in it, breaks the promise |
| `XmlLaws.AssertFailsExactlyOnCuts` | llama.cpp/common/chat-parser-xml-toolcall.cpp:525-544 | with a reader that completes strings as the shipped one does: the assertion fails if and only if values must be JSON and a string, object or array is cut at the end of the text in such an escape |
| `XmlLaws.NeverFailsAssert` | llama.cpp/common/chat-parser-xml-toolcall.cpp:525-544 | with a reader that completes strings so, whatever the format: no attempt on a text that does not end in such an escape fails the assertion |
| `XmlCutValues.CutValueExactly` | llama.cpp/common/chat-parser.cpp:913-967 | lifted to a whole text that ends in the first value of its first call, in the formats whose values must be JSON: the attempt fails the assertion if and only if the value is cut in such an escape |
| `XmlCutValues.CutValueShows` | llama.cpp/common/chat-parser-xml-toolcall.cpp:531-539 | and where the assertion holds, the attempt shows the dumped arguments up to what completed the value, in whatever object or array it stands: the marker is not shown |
| `XmlCutValues.DeployedFirstValue` | llama.cpp/common/chat-parser.cpp:913-967 | the delimiters of Kimi-K2 and Xiaomi MiMo are such formats |
| `XmlCutValues.HalfPairFails` | llama.cpp/common/chat-parser-xml-toolcall.cpp:525-544 | so a live stream in these formats fails the assertion whenever it pauses after the first half of a surrogate pair in that value |
| `XmlCutValues.HalfPairInObject` | llama.cpp/common/json-partial.cpp:186-211 | the simplest such value, an object whose string ends in the first half of a pair |
| `XmlLaws.NeverDerefsWithoutLastToolEnd` | llama.cpp/common/chat-parser-xml-toolcall.cpp:410-428 | without an alternative tool end that never happens, on any input |
| `XmlToolCall.TryFindTwoLiterals` | llama.cpp/common/chat-parser-xml-toolcall.cpp:60-79 | the search for two literals with spaces between returns the match of the specification, restores the cursor otherwise, and terminates because each turn starts after the last |
| `XmlSearches.FindTwoFinds` | llama.cpp/common/chat-parser-xml-toolcall.cpp:60-79 | wherever the first literal, spaces and the second one stand, the search finds that place or an earlier one |
| `XmlSearches.FindTwoFound` | llama.cpp/common/chat-parser-xml-toolcall.cpp:60-79 | and what it finds is the first literal, or as much of it as the text still holds, with the second one after it and spaces, as far as the text goes |
| `XmlSearches.EndsBeforeLastTool` | llama.cpp/common/chat-parser-xml-toolcall.cpp:345-379 | where the last value needs no end of its own, it ends before the end of the last tool, too |
| `XmlSearches.ScopeEndExactly` | llama.cpp/common/chat-parser-xml-toolcall.cpp:611-630 | a list of calls ends well with the end of the scope after spaces, or without one that is only spaces, and waits for it while only spaces are left |
| `XmlToolCall.TryFindClose` | llama.cpp/common/chat-parser-xml-toolcall.cpp:345-376 | the earlier of the ordinary and the alternative closing tag, with the size of the one that matched |
| `XmlToolCall.ReadToolName` | llama.cpp/common/chat-parser-xml-toolcall.cpp:410-437 | the name step on the cursor object agrees with the specification |
| `XmlToolCall.ReadJsonValue` | llama.cpp/common/chat-parser-xml-toolcall.cpp:525-583 | a value read as JSON is shown, taken or given up for plain text on the cursor object as in the specification |
| `XmlToolCall.ReadValue` | llama.cpp/common/chat-parser-xml-toolcall.cpp:499-583 | the attempt at JSON, the test for an unfinished scalar and the plain text, on the cursor object, agree with the specification |
| `XmlToolCall.ReadArguments` | llama.cpp/common/chat-parser-xml-toolcall.cpp:447-584 | the argument loop on the cursor object agrees with the specification and terminates because every turn shortens the unread input |
| `XmlToolCall.ReadCalls` | llama.cpp/common/chat-parser-xml-toolcall.cpp:399-632 | the calls loop on the cursor object agrees with the specification in ending, cursor and calls, and terminates for the same reason |
| `XmlToolCall.ParseXmlToolCalls` | llama.cpp/common/chat-parser-xml-toolcall.cpp:298-633 | the whole parse on the cursor object agrees with the specification |
| `XmlToolCall.TryConsumeXmlToolCalls` | llama.cpp/common/chat-parser-xml-toolcall.cpp:640-648 | the attempt on the cursor object agrees with the specification, undoing included |
| `XmlRoundTrip.ParsesArgs` | llama.cpp/common/chat-parser-xml-toolcall.cpp:447-584 | the printed arguments of a call with distinct keys, with any spaces where the parser skips them and the alternative end after the last value where the format has one, are read back as exactly these, in order, each as JSON or as plain text as its value requires |
| `XmlRoundTrip.ParsesCalls` | llama.cpp/common/chat-parser-xml-toolcall.cpp:399-632 | a printed list of calls, with any spaces before each call, each argument and each end, is read back, and the loop stops after it |
| `XmlRoundTrip.ParseUndoesPrint` | llama.cpp/common/chat-parser-xml-toolcall.cpp:298-633 | round trip: parsing the printed form of any list of calls, with any spaces where the parser skips them, returns exactly these calls after those already there and leaves the cursor just after the scope; a value is JSON where the reader reads exactly its text, and plain text where values are raw or the attempt at JSON gives way |
| `XmlRoundTrip.FormatsPrintable` | llama.cpp/common/chat-parser.cpp:882-967 | the delimiters of all formats with one kind of tool end (MiniMax-M2, Qwen3-Coder, GLM 4.5, Seed-OSS, Kimi-K2, Xiaomi MiMo) meet the hypotheses of the round trip on the format |
| `XmlRoundTrip.KimiNameRecovered` | llama.cpp/common/chat-parser-xml-toolcall.cpp:429-437 | the name is recovered from `functions.NAME:INDEX` |
| `XmlGrowth.SeenGrows` | llama.cpp/common/chat-parser-xml-toolcall.cpp:515-583 | what is shown of a text before its delimiter, cut back to whole characters and to a delimiter that has begun, only grows as the text grows |
| `XmlGrowth.SeenIsWhole` | llama.cpp/common/chat-parser-xml-toolcall.cpp:332-335 | and of a text that is well-formed in the end it is whole characters |
| `XmlValues.HeldExactly` | llama.cpp/common/chat-parser-xml-toolcall.cpp:528-541 | where values must be JSON, one that may go on is held back if and only if it is a number, true, false or null; strings, objects and arrays are shown |
| `XmlValues.OpenShows` | llama.cpp/common/chat-parser-xml-toolcall.cpp:528-541 | whatever the reader: such a value is shown up to where it was completed, after the earlier arguments and its key |
| `XmlValues.PlainValueGrows` | llama.cpp/common/chat-parser-xml-toolcall.cpp:500-583 | where a value may be JSON, for any reader that reads steadily, so that what was no JSON stays so and JSON that something follows stays as it was read: nothing shown of the value is ever taken back, and a finished value stays |
| `XmlJsonValues.OpenString` | llama.cpp/common/chat-parser-xml-toolcall.cpp:528-541 | where a value must be JSON: of a string that has arrived so far exactly this is shown, a quote and its body |
| `XmlJsonValues.ClosedString` | llama.cpp/common/chat-parser-xml-toolcall.cpp:543-556 | a closed string is shown whole until its end follows it, and is then finished |
| `XmlJsonValues.JsonGrows` | llama.cpp/common/chat-parser-xml-toolcall.cpp:500-556 | there, with the shipped way of reading strings and scalars, what is shown of a string only grows, numbers and names are held back until they are finished, and a finished value stays |
| `XmlCutStrings.CutStringShows` | llama.cpp/common/chat-parser-xml-toolcall.cpp:528-541 | of a string cut between any of its characters and escapes exactly what is printed for its decoded body is shown, after a quote |
| `XmlCutStrings.CutSlashShows` | llama.cpp/common/json-partial.cpp:306-308 | after a backslash that too |
| `XmlCutStrings.CutStringExtends` | llama.cpp/common/chat-parser-xml-toolcall.cpp:528-541 | and that begins what is printed for every string it can become |
| `XmlCutStrings.SlashKeptExactly` | llama.cpp/common/json-partial.cpp:306-308 | the backslash shown stays if and only if the letter after it is one that is printed after a backslash: a slash takes it back |
| `XmlCutStrings.SplitEndTakesBack` | llama.cpp/common/chat-parser-xml-toolcall.cpp:543-552 | where the end of a value is longer than one byte, as in Xiaomi MiMo and Apriel, a pause inside it takes the whole string back |
| `XmlCutStrings.UnreadStringTakesBack` | llama.cpp/common/json-partial.cpp:309-313 | a string that the reader does not complete, as one cut in a unicode escape, is shown as text with its quote, which begins no string that does not begin with a quote |
| `XmlStream.CallStreams` | llama.cpp/common/chat-parser-xml-toolcall.cpp:447-610 | streaming law for one call in an arbitrary growing text with distinct keys, whose values are text, JSON or text read steadily, or JSON strings and scalars, as the format asks: what the parser shows of the call after its name is a beginning of what it shows of it in any longer text that does not take it back, through unfinished keys, values and scalars, flags and cut dumps; a finished call stays |
| `XmlStream.RepeatedKeyRetracts` | llama.cpp/common/chat-parser-xml-toolcall.cpp:480-575 | keys have to be new: when a key comes a second time in a call that so far has it alone, the value shown for it is taken back, although nothing is refused |
| `XmlCallStream.OneCallStreams` | llama.cpp/common/chat-parser-xml-toolcall.cpp:410-610 | the same from the name of the call on |
| `XmlScopeStream.ScopeStreams` | llama.cpp/common/chat-parser-xml-toolcall.cpp:298-648 | the calls an attempt shows extend, as the server compares messages, those shown of any beginning of the text, unless it returns false |
| `XmlScopeStream.RefusedStays` | llama.cpp/common/chat-parser-xml-toolcall.cpp:447-610 | a call that is refused on a beginning of a text is never finished on a longer one |
| `XmlScopeStream.CallsRefused` | llama.cpp/common/chat-parser-xml-toolcall.cpp:386-632 | nor is a list of calls |
| `XmlScopeStream.FinishedScopeStreams` | llama.cpp/common/chat-parser-xml-toolcall.cpp:635-648 | for a text that parses in the end nothing is ever taken back: the calls shown of any beginning are extended by those of any longer beginning and of the whole |
| `XmlClientStream.ClientGetsCalls` | llama.cpp/tools/server/server-task.cpp:157-174 | end to end for tool calls: however such a text is cut into chunks, between characters where values must be JSON, the server never fails and the client ends with the calls of the whole parse |
| `XmlPrintedStream.ClientGetsPrintedCalls` | llama.cpp/tools/server/server-task.cpp:157-174 | and for the printed form of any list of calls with such values the client ends with exactly these calls, in order |
| `XmlPrintedJson.JsonParamPrints` | llama.cpp/common/chat-parser-xml-toolcall.cpp:500-556 | with a reader that knows strings and scalars as the shipped one does, the printed form of any string without control characters that need four digits, and of any scalar, is such a value wherever it stands and is read back as it is |
| `XmlPrintedStream.FormatsSharp` | llama.cpp/common/chat-parser.cpp:882-911 | the delimiters of MiniMax-M2, Qwen3-Coder, GLM 4.5, Seed-OSS and Kimi-K2 meet the hypotheses of the streaming laws on the format |
| `ArgGrammar.BuildArgRules` | llama.cpp/common/chat-parser-xml-toolcall.cpp:246-257 | the right-to-left loop builds the rules of the specification |
| `ArgGrammar.ArgumentLanguage` | llama.cpp/common/chat-parser-xml-toolcall.cpp:246-257 | the rules derive exactly the in-order choices that contain every required parameter, separated by the value end and closed by the last one, or the empty text when nothing is chosen |
| `TrieGrammar.SortSorts` | llama.cpp/common/chat-parser-xml-toolcall.cpp:150 | sorting orders the forbidden strings and keeps them all |
| `TrieGrammar.BuildDerives` | llama.cpp/common/chat-parser-xml-toolcall.cpp:98-148 | the expression built for a range of strings at a depth derives exactly the texts that leave this part of the trie by one character |
| `TrieLanguage.ExpressionDerivesChunks` | llama.cpp/common/chat-parser-xml-toolcall.cpp:98-151 | the whole expression derives exactly the chunks: a proper beginning of a forbidden string and one more character that fits none |
| `TrieLanguage.ExcludingLanguage` | llama.cpp/common/chat-parser-xml-toolcall.cpp:84-161 | the grammar accepts exactly the sequences of chunks, and every text when nothing is forbidden |
| `TrieLanguage.AcceptedIsJoined` | llama.cpp/common/chat-parser-xml-toolcall.cpp:84-161 | a text is accepted if and only if some sequence of chunks joins to it |
| `TrieLanguage.DecompositionIsUnique` | llama.cpp/common/chat-parser-xml-toolcall.cpp:84-161 | two sequences of chunks that join to the same text are the same |
| `TrieLanguage.NoForbiddenAtBoundary` | llama.cpp/common/chat-parser-xml-toolcall.cpp:84-161 | for a prefix-free set no forbidden string starts where a chunk starts |
| `TrieLanguage.FreeTextIsAccepted` | llama.cpp/common/chat-parser-xml-toolcall.cpp:81-83 | completeness: a text free of forbidden strings is an accepted text followed by a proper beginning of a forbidden string |
| `TrieLanguage.ForbiddenInside` | llama.cpp/common/chat-parser-xml-toolcall.cpp:81-83 | the comment promises more than the code does: forbidding `</p>` accepts `<</p>` |
| `TrieLanguage.SoundExactly` | llama.cpp/common/chat-parser-xml-toolcall.cpp:81-83 | for any list of forbidden strings, with a byte that occurs in none: the comment holds if and only if no chunk holds a forbidden string or begins one whose rest can be read |
| `TrieLanguage.SoundExactlyApart` | llama.cpp/common/chat-parser-xml-toolcall.cpp:81-83 | for strings of which none stands inside another the condition is on the strings alone: no forbidden string can be left, by a byte that fits no other, after bytes that begin a forbidden string from a later place |
| `TrieLanguage.SoundExactlyForConstants` | llama.cpp/common/chat-parser-xml-toolcall.cpp:81-83 | for a single forbidden string the comment holds if and only if all its bytes are the same |
| `FactoredTensor.RowSlicingCommutes` | llama.cpp/convert_lora_to_gguf.py:73-81 | slicing rows of B slices the rows of the product |
| `FactoredTensor.SlicingCommutes` | llama.cpp/convert_lora_to_gguf.py:82-115 | slicing rows of B and columns of A slices the product in both |
| `LoraAxes.PermutedEntry` | llama.cpp/convert_lora_to_gguf.py:165-168 | axis k of a permuted tensor is axis p[k] of the original: the plain permutation the results are compared with |
| `LoraAxes.FixedLastPermuteCommutes` | llama.cpp/convert_lora_to_gguf.py:162-168 | with the last axis fixed, permuting B alone permutes the product |
| `LoraAxes.TransposeCommutes` | llama.cpp/convert_lora_to_gguf.py:169-170 | transposing and exchanging the factors transposes the product of a matrix |
| `LoraAxes.PermuteCommutes` | llama.cpp/convert_lora_to_gguf.py:162-173 | whatever permutation is accepted, the factors that result stand for the permuted product |
| `LoraAxes.PermuteAccepted` | llama.cpp/convert_lora_to_gguf.py:163-174 | a permutation is accepted if and only if it keeps the last axis, with one A for all rows, or exchanges the two axes of a matrix |
| `LoraPipeline.ExpandKeepsSize` | llama.cpp/convert_lora_to_gguf.py:140-145 | a single -1 becomes the dimension that keeps the number of elements |
| `LoraPipeline.ReshapeAccepted` | llama.cpp/convert_lora_to_gguf.py:131-155 | a reshape is accepted if and only if the shape has at least two dimensions, its -1 can be filled, and the filled shape keeps the row size and, unless the rank is zero, the number of rows |
| `LoraPipeline.ReshapeCommutes` | llama.cpp/convert_lora_to_gguf.py:131-155 | with a positive rank an accepted reshape is the reshape of the product to the filled shape |
| `LoraPipeline.ReshapeFaithfulExactly` | llama.cpp/convert_lora_to_gguf.py:131-155 | for any rank and any number of -1, an accepted reshape is the reshape of the product if and only if it has at most one -1 and keeps the number of elements |
| `LoraPipeline.ReshapeExactly` | llama.cpp/convert_lora_to_gguf.py:136-155 | with at most one -1, the factors accept only shapes that keep the row size, and of these the ones `torch.reshape` accepts, if and only if the rows are kept or rank and row size are both zero or both positive |
| `LoraPipeline.InfersSeveralExactly` | llama.cpp/convert_lora_to_gguf.py:140-145 | several -1 dimensions, which `torch.reshape` refuses, are accepted if and only if the quotient put in their place is at most one and the row size is kept |
| `LoraPipeline.InfersTwice` | llama.cpp/convert_lora_to_gguf.py:140-145 | the simplest case: a single element |
| `LoraRuns.CatEqualACommutes` | llama.cpp/convert_lora_to_gguf.py:207-222 | matrices are concatenated if and only if their A factors are equal, and the result stands for the concatenated products |
| `LoraRuns.StepCommutes` | llama.cpp/convert_lora_to_gguf.py:62-180 | each of slicing, reshape, permute and swapaxes commutes with the product and keeps the factors usable for the next |
| `LoraRuns.RunCommutes` | llama.cpp/convert_lora_to_gguf.py:62-180 | any run of operations that the factors accept, the product accepts, with the same outcome |
| `LoraHeads.HeadsAccepted` | llama.cpp/convert_hf_to_gguf.py:2567-2573 | the reshape, swapaxes, reshape pipeline of the attention heads is accepted on every factored matrix of `h * 2 * k` rows |
| `LoraHeads.HeadsInterleaved` | llama.cpp/convert_hf_to_gguf.py:2567-2573 | and interleaves the two halves of every head in the product |
| `Base64.Encode` | llama.cpp/common/base64.hpp:80-144 | the encoding loop produces the groups of six bits of the input, one symbol each, and the padding |
| `Base64.Decode` | llama.cpp/common/base64.hpp:200-244 | the decoding loop produces the whole bytes in the bits of the characters before the padding, or fails |
| `Base64.DecodeInPlace` | llama.cpp/common/base64.hpp:294-313 | decoding onto the text itself gives the bytes and failures of the out-of-place decoder; whether it succeeds or fails, exactly the bytes of the characters read before the loop stopped are written and every other cell keeps its contents |
| `Base64Laws.DecodeUndoesEncode` | llama.cpp/common/base64.hpp:80-244 | decoding the encoding of any bytes returns them, for both alphabets, told or detected |
| `Base64Laws.EncodedExactly` | llama.cpp/common/base64.hpp:80-144 | every character of the encoding (section 4 of RFC 4648): the letter of the alphabet for its six bits of the 24 of its group, from the highest on, and equals signs after those that hold bits of the input |
| `Base64Laws.DecodesExactly` | llama.cpp/common/base64.hpp:344-389 | a text is decoded if and only if the characters before its first padding are base64 characters that do not mix the two alphabets and, unless loose, only padding follows |
| `Base64Laws.EncodedSize` | llama.cpp/common/base64.hpp:338-341 | the encoding is exactly as long as computed beforehand |
| `Base64Laws.DecodedSize` | llama.cpp/common/base64.hpp:324-327 | the decoding never exceeds the maximum computed beforehand |
| `GgmlModel.Hyperparameters.Load` | llama.cpp/convert_llama_ggml_to_gguf.py:59-73 | the fields and errors of the specification |
| `GgmlModel.Hyperparameters.SetNFf` | llama.cpp/convert_llama_ggml_to_gguf.py:53-57 | the second dimension of the last tensor of the feed-forward name, or an error |
| `GgmlModel.Vocab.Load` | llama.cpp/convert_llama_ggml_to_gguf.py:84-98 | the loop appends the tokens of the specification |
| `GgmlModel.Tensor.Load` | llama.cpp/convert_llama_ggml_to_gguf.py:110-131 | the fields, sizes, padding and errors of the specification |
| `GgmlModel.GGMLModel.ValidateHeader` | llama.cpp/convert_llama_ggml_to_gguf.py:145-166 | the format and version, or the error, of the specification; an error changes nothing |
| `GgmlModel.GGMLModel.LoadAll` | llama.cpp/convert_llama_ggml_to_gguf.py:188-194 | the tensor loop reads the tensors of the specification, maps each name to the last tensor that has it, and terminates because every tensor takes at least twelve bytes |
| `GgmlModel.GGMLModel.Load` | llama.cpp/convert_llama_ggml_to_gguf.py:180-200 | once everything is read the object holds what the file says, even when the feed-forward tensor is then missing; on any earlier error nothing but the format is stored; the position returned is the end of the last tensor |
| `GgmlLaws.TensorsLaidOut` | llama.cpp/convert_llama_ggml_to_gguf.py:110-131 | in any file that loads, every tensor lies after the one before, aligned to 32 bytes when the format pads and without a gap when it does not |
| `GgmlLaws.TensorsDisjoint` | llama.cpp/convert_llama_ggml_to_gguf.py:190-194 | no two tensors share a byte |
| `GgmlLaws.DataPresentExactly` | llama.cpp/convert_llama_ggml_to_gguf.py:190-200 | the loader does not check that the data are there: they all are if and only if the position returned is the end of the file |
| `GgmlTruncation.CutTensor` | llama.cpp/convert_llama_ggml_to_gguf.py:110-131 | a tensor cut short loads if and only if its dimensions are there; its size and end are as if it were whole, and its name is silently cut |
| `GgmlTruncation.CutLoadsExactly` | llama.cpp/convert_llama_ggml_to_gguf.py:188-194 | the first bytes of a written file of tensors load if and only if the cut is between two tensors or after the dimensions of one, and the position returned is then the end that tensor should have had |
| `GgmlTruncation.CutHasDataExactly` | llama.cpp/convert_llama_ggml_to_gguf.py:188-194 | of the cut files that load, exactly those cut between two tensors have all their data |
| `GgmlTruncation.LastByteNotMissed` | llama.cpp/convert_llama_ggml_to_gguf.py:188-194 | a file without its last byte loads and the position returned is the length it should have had |
| `GgmlLaws.LoadsTensors` | llama.cpp/convert_llama_ggml_to_gguf.py:110-131 | written tensors are found again with their names, dimensions, types and data |
| `GgmlLaws.ConvertibleExactly` | llama.cpp/convert_llama_ggml_to_gguf.py:168-178 | a quantization is converted if and only if the file is of a version at least that in which the layout of its type last changed: 1 for types 0 and 1, 3 for types 2, 3, 4 and 7, and 2 for all others |
| `GgmlLaws.LoadUndoesWrite` | llama.cpp/convert_llama_ggml_to_gguf.py:145-200 | for any fields that fit in their words, in the three formats: a written file loads if and only if its magic, version, type, lengths, dimensions and tensor types are among those supported, its type is convertible at its version, and the last tensor of the feed-forward name has two dimensions; loading it then returns its hyperparameters, vocabulary and tensors and stops at its end |
| `GgmlLaws.SimpleBlocks` | llama.cpp/gguf-py/gguf/constants.py:3780-3813 | the sizes of the simple types and of the blocks of 32: scales of two bytes and the bits of the elements |
| `GgmlLaws.SuperBlocks` | llama.cpp/gguf-py/gguf/constants.py:3780-3813 | and of the blocks of 256, with the packed scales of their sub-blocks |
| `PegMapper.Mapper.Map` | llama.cpp/common/chat-peg-parser.cpp:64-124 | each node changes the object as the specification says |
| `PegLaws.ConstructedExactly` | llama.cpp/common/chat-peg-parser.cpp:64-124 | whatever reasoning, content and untagged nodes stand among those of the tools, the tool calls built are exactly the printed objects if and only if in every tool all string arguments but the last are closed before the next argument opens |
| `PegLaws.AppendedFallsShort` | llama.cpp/common/chat-peg-parser.cpp:87-111 | the arguments built fall short by exactly one quote for each string argument not closed in time |
| `PegStream.RunExtends` | llama.cpp/common/chat-peg-parser.cpp:64-124 | after the name of a tool every node only appends, and the calls before stay as they are |
| `PegStream.ExtendsExactly` | llama.cpp/common/chat-peg-parser.cpp:64-124 | a later stream extends a message if and only if it does not begin by naming a tool that was open, names every tool it opens, and leaves content and reasoning that begin with what they were |
| `PegStream.SnapshotExtendsExactly` | llama.cpp/common/chat-peg-parser.cpp:64-124 | for a snapshot cut inside a value the diff to the message of the whole stream is computed without error and rebuilds it, if and only if the stream names every tool it still opens and leaves content and reasoning that begin with what the snapshot showed |
| `Lcs.CommonLcs` | llama.cpp/common/common.cpp:1483-1530 | the rolling rows yield the length of a longest run common to both lists: some run has it and none is longer |
| `Lcs.EndingIsLongest` | llama.cpp/common/common.cpp:1505-1512 | every common run ending at a pair of positions is at most as long as the cell for that pair |
| `Escapes.ProcessEscapes` | llama.cpp/common/common.cpp:608-643 | the buffer ends as the left-to-right unescape of what it held |
| `Escapes.PiecesAreRead` | llama.cpp/common/common.cpp:608-643 | a text made of plain characters, letters that stand for a character, codes of two characters, backslashes kept with what follows them and one at the end stands for what these stand for, in order |
| `Escapes.EveryTextHasPieces` | llama.cpp/common/common.cpp:608-643 | and every text of bytes is made of such pieces, so that what it stands for is determined |
| `Escapes.UnescapeUndoesDoubling` | llama.cpp/common/common.cpp:608-643 | a text whose backslashes were doubled comes back unchanged, whatever follows it |
| `Escapes.UnescapeShrinks` | llama.cpp/common/common.cpp:608-643 | a text never grows, and stays as it is if and only if it contains no escape |
| `Promotion.Node.CycleStage` | fine_tune_models/scripts/10_continuous_mlops.py:417-446 | a cycle appends its record and replaces the champion as the specification says |
| `Promotion.ChampionIsLastPromoted` | fine_tune_models/scripts/10_continuous_mlops.py:425-443 | after any run of cycles the champion is the candidate promoted last |
| `Promotion.PromotedExactly` | fine_tune_models/scripts/10_continuous_mlops.py:277-289 | in any run, the record of a cycle names its candidate and the champion before it, the one promoted last, and the candidate is promoted if and only if there was none or it succeeds at least as often, keeps at least 85 % of a measured speed and loses at most 0.02 of quality and 0.01 of keyword score |
| `Promotion.ChampionBounded` | fine_tune_models/scripts/10_continuous_mlops.py:277-289 | however many cycles run, the success rate never drops, and n promotions cost at most 0.02 n of quality, 0.01 n of keyword score and a factor of 0.85^n of speed |

## Left out

- The reader of JSON (`json-partial.cpp` and nlohmann's parser) is a parameter, a function of the text that is left, of which only the size it takes is known. Of the shipped one `JsonHealing` models how a text cut inside a string is completed (json-partial.cpp:186-211); where that does not apply, and for texts cut between values, the dump is taken to hold what completed it, which ends with the marker. `JsonStrings.ReadsStrings` and `XmlJsonValues.KnowsScalars` say how it takes strings and scalars at the top level (json-partial.cpp:115-128, 300-321). Theorems that do not say otherwise hold for every reader.
- XmlLaws.NeverFailsAssert: assumes a reader that completes cut strings as the shipped one does.
- XmlLaws.AssertFailsExactlyOnCuts: assumes such a reader, and a marker that the dump holds once.
- XmlCutValues.CutValueExactly: assumes both; `HalfPairFails` too.
- HealingLaws.SingleLosesExactly: is about one cut escape after finished text; `MarkerKeptExactly` is about any text.
- The test for an unfinished scalar when the cursor is past the last whole character of the input: `remove_prefix` is then undefined, and the model takes the rest to be empty.
- `dump` on invalid UTF-8 throws in nlohmann's library; the model prints every byte string.
- The whitespace handling of `parse_msg_with_xml_tool_calls`, a list of special cases.
- The formats driven by regular expressions (Hermes, DeepSeek, GPT-OSS and others) and `common_regex`.
- The fallback in chat-parser.cpp:1623-1630, which parses the text a second time without clearing the content already added.
- ServerStream.TaskResultState.UpdateChatMsg: parses with the content-only format; `TakeParsed` is the rest of the update for every format.
- ServerStream.Serve: updates with the content-only format.
- ServerStream.StreamEndToEnd: is about the content-only format; the other formats differ in the parser they call, and for them `RunTelescopes` holds of any run of growing snapshots, and `XmlClientStream.ClientGetsCalls` is the end-to-end law for tool calls.
- ReasoningLaws.DocumentIsRead: both tags are non-empty, and the opening one begins with something other than a space.
- XmlRoundTrip.ParseUndoesPrint: formats with an alternative tool end are left out (Apriel alone has one); an alternative value end has to be empty, as in every format in use.
- XmlRoundTrip.ParsesArgs: the same formats are left out.
- XmlRoundTrip.ParsesCalls: the same formats are left out.
- XmlRoundTrip.FormatsPrintable: is about the delimiters; that the reader of JSON gives way to the text of a value, or reads it as the value, is a hypothesis on the call.
- XmlStream.CallStreams: is about delimiters that begin with a character occurring once in them, one kind of tool end, keys given once, and texts without the parser's own flag. Where values may be JSON the reader has to be steady; where they must be JSON, values are strings without escapes of four digits or slashes, whose end is a single byte, or scalars, the text ends between characters, and objects and arrays are left out, since what is shown of them depends on all of the shipped reader.
- XmlJsonValues.JsonGrows: the same values; the reader has to take strings and scalars as json-partial.cpp:300-318 does.
- XmlValues.PlainValueGrows: assumes a steady reader; the shipped one is not steady on a string cut in a unicode escape.
- XmlPrintedJson.JsonParamPrints: the same values, for an end of values of a single byte.
- XmlCutValues.CutValueShows: assumes a reader that completes as the shipped one does, and a marker that the dump holds once; that the rest of an object or array only extends what is shown is not claimed.
- XmlScopeStream.FinishedScopeStreams: assumes the same of every call, and names in which no delimiter begins.
- XmlClientStream.ClientGetsCalls: messages hold the calls of one attempt at the start of the text; the reasoning and content that `parse_msg_with_xml_tool_calls` may find before it are left out.
- XmlPrintedStream.ClientGetsPrintedCalls: the same.
- XmlToolCall.ParseXmlToolCalls: after a thrown exception the cursor is left unspecified, as no caller reads it before moving it (chat-parser.cpp:1623-1630).
- The healing marker drawn at random by the constructor; the generator of call ids is a parameter.
- Rule names and the escaping of GBNF text: grammars are syntax trees with rules inlined.
- ArgGrammar.ArgumentLanguage: the language of a parameter's own rule is a parameter.
- PegMapper.Mapper.Map: the pointer to the current tool is uninitialised in the source until a tool opens; the model starts with none and requires a tool name to come inside a tool.
- PegStream.ExtendsExactly: every tool is named right after it opens, as the parsers built by chat.cpp see to.
- PegStream.SnapshotExtendsExactly: the same.
- LoRA: `stack`, concatenation of more than two dimensions, single indices, negative dimensions, and A factors with a batch; data types and lazy evaluation. Entries are exact reals.
- TrieLanguage.ExcludingLanguage: a list of empty strings only is left out, since the code then writes the character class `[^]`, whose meaning is not part of this model.
- TrieLanguage.SoundExactly: assumes a byte that occurs in no forbidden string.
- TrieLanguage.SoundExactlyApart: the same.
- FactoredTensor.RowSlicingCommutes: is about matrices.
- FactoredTensor.SlicingCommutes: is about matrices and ranges; single indices are left out.
- LoraPipeline.ReshapeCommutes: has a positive rank; `ReshapeFaithfulExactly` is about any rank.
- LoraPipeline.ReshapeExactly: has at most one -1; `InfersSeveralExactly` is about the others.
- LoraPipeline.InfersSeveralExactly: has a positive rank and row size; `ReshapeFaithfulExactly` covers the rest.
- LoraRuns.CatEqualACommutes: is about matrices.
- LoraRuns.StepCommutes: has a positive rank and at most one -1 in a reshape, since the law fails otherwise exactly as `ReshapeFaithfulExactly` says.
- LoraRuns.RunCommutes: the same.
- GgmlModel.GGMLModel.Load: integers are unbounded, where the source multiplies in 64 bits; scores are the four bytes of the float; the conversion to GGUF after loading is left out.
- Promotion.Node.CycleStage: training, benchmarking and the timestamp; a missing model and an empty file name are one.
- Jinja templates, option tables, HTTP, logging, sampling, quantisation, training and data-preparation scripts: glue and tables.

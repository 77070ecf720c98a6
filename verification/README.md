# A verified model of pjson

pjson is a C++ JSON library. Its central algorithms are loops with an explicit
work list, cursor, stack of frames or budget, each standing in for a simple
recursive definition. This project models those algorithms in Dafny and proves
that they compute what the recursive definitions say, for every input.

One value type is shared by all parts: null, booleans, signed and unsigned 64-bit
integers, binary64 numbers as exact dyadic rationals, byte strings, sequences
and finite maps. Where the order of object members matters, results hold for
every duplicate-free order.

| files | part |
|---|---|
| `Json`, `Heap`, `Surgery`, `Teardown`, `Copy`, `Ownership`, `Insertion` | the DOM as a heap of uniquely owned nodes: teardown, copy, move, swap, insertion |
| `Numbers`, `Equality` | exact comparison across number kinds, iterative equality |
| `Pointer`, `PatchSpec`, `Workspace`, `Budget`, `PatchEngine`, `MergePatch` | JSON Pointer, JSON Patch and JSON Merge Patch on a scratch tree with budgets |
| `Utf8`, `Strings`, `Cursors`, `NumberText`, `Grammar`, `ParseProgress`, `DomParser`, `SaxParser`, `Agreement`, `Syntax` | the two parsers, their common grammar, and RFC 8259 |
| `Printer`, `DoubleText`, `NumberCodec`, `RoundTrip` | the explicit-frame serializer and the round trip |
| `Multiples` | exact decimal divisibility |
| `SchemaRules`, `SchemaRun`, `SchemaSoundness`, `SchemaCycles`, `SchemaVerdicts`, `SchemaEnds`, `SchemaEval` | the schema evaluator, its keyword semantics, and what its cycle test means |

Objects that the source updates in place are classes here (`Dom`, `PatchBudget`,
`Cursor`, `ParseCtx`, `SaxParser`, `Sink`, `StringSlot`, `ErrorSink`, `Validator`),
proved against functions whose own properties are the lemmas listed below. The
schema evaluator has one layer more: the methods refine a function that threads
the budgets (`SchemaRun`), and that function is related to keyword rules without
any budget (`SchemaRules`).

## What the proofs found

- A `$ref` with sibling keywords stays on the reference stack while its siblings
  are evaluated, so a second reference to the same target on the same instance is
  reported as a cycle although the first one is finished
  (`SchemaCycles.FinishedReferenceCounts` shows one schema,
  `SchemaVerdicts.SecondReferenceIsCycle` says it of all). The condition is exact:
  the cycle test is right for all instances and limits if and only if no keyword
  beside a `$ref` comes to its target again on an instance that the keyword rules
  judge (`SchemaEnds.WhereTheCycleTestIsRight`). The limits range over all numbers
  there; the depth limit of 32 only makes deeper runs give up.
- A cycle fails only the subschema that meets it; under `not` it can therefore make
  an instance pass that the recursive semantics never judges
  (`SchemaCycles.CycleUnderNotAccepts`, and for any loop
  `SchemaVerdicts.NegatedLoopAccepts` and `SchemaEnds.NegatedLoopPasses`). Where the
  subschemas under `contains`, `if`, `anyOf`, `oneOf` and `not` cannot come back to
  themselves, or to a reference still on the stack, on their own node, every accepted
  instance is valid (`SchemaVerdicts.AcceptedIsValid`). Exhausted budgets are not like
  that: they reject the whole run wherever they occur.
- Section 7 of RFC 8259 admits any four hexadecimal digits in an escape; both parsers
  reject exactly the texts with an unpaired surrogate escape
  (`Syntax.PairingDecides`, `Syntax.LoneSurrogate`).
- The attempt to report an exhausted error budget (pjson_schema.cpp, lines 247-259)
  is guarded by a condition that contradicts the one it stands under
  (`SchemaEval.Validator.PushIssue`), so that message is never produced.
- The message about an exhausted work, depth or reference budget is added without
  consulting the diagnostic counter: with all causes counted, the bound on what a run
  reports is the diagnostic limit plus one (`SchemaEval.RunValidation`), and it is
  attained (`SchemaEval.LimitPlusOne`).
- An array index whose digits overflow is reported as out of range even when other
  characters follow the digits (`Pointer.ParseIndex`).

## Model

| member | source | states |
|---|---|---|
| `DomHeap.NoCycle` | pjsonlib/src/pjson.cpp:682-741 | in a heap where every live node denotes a value and has at most one owner, two nodes that reach each other are the same node: ownership has no cycle, so every walk down a document ends |
| `DomHeap.NestedOrDisjoint` | pjsonlib/src/pjson.cpp:330-365 | two trees that share a node are nested, for every pair of nodes: overlap of two operands can be decided by two containment searches |
| `Teardown.Dom.PushPending` | pjsonlib/src/pjson.cpp:682-741 | queues a node on the intrusive pending list through its own link; only nodes that do not hold the shared null sentinel may be queued, so the sentinel is never written |
| `Teardown.Dom.DisposeOne` | pjsonlib/src/pjson.cpp:714-740 | one turn of the teardown loop keeps the pending list well linked, destroys exactly one popped node and any null children at once, changes no node that stays, and strictly shrinks the set of live nodes, which is the termination measure |
| `Teardown.Dom.DisposeChildren` | pjsonlib/src/pjson.cpp:682-741 | every proper descendant is destroyed exactly once, nothing else is touched, no intrusive link is left set, and the node keeps an empty container of its kind |
| `Teardown.Dom.Reset` | pjsonlib/src/pjson.cpp:494-514 | the node becomes null and exactly its descendants are destroyed |
| `Teardown.Dom.ResetTo` | pjsonlib/src/pjson.cpp:527-577 | rebuilds a node as an empty value; the new storage is allocated first, so a failed allocation leaves the heap unchanged |
| `DeepCopy.CopyContentsInto` | pjsonlib/src/pjson.cpp:591-675 | the iterative copy builds a disjoint tree of new nodes with the value of the source, which may be anywhere in the heap; an allocation failure at any step releases every node allocated and leaves the destination null and the heap as it was |
| `DeepCopy.CopyUndone` | pjsonlib/src/pjson.cpp:671-675 | at any moment of a copy, resetting the destination gives back the heap from before the copy, node for node |
| `Ownership.ContainsNode` | pjsonlib/src/pjson.cpp:330-365 | the search answers reachability exactly when it is not out of memory, and otherwise answers yes |
| `Ownership.CopyFrom` | pjsonlib/src/pjson.cpp:582-587 | copy assignment from any node, ancestor or descendant included: the destination receives the prior value of the source in new nodes, its former descendants are gone, the rest is untouched; a failure changes nothing |
| `Ownership.MoveAssign` | pjsonlib/src/pjson.cpp:279-306 | a source that does not contain the destination gives up its very nodes and is left null, or is destroyed with the former descendants of the destination; a source that contains it (or might, when the search ran out of memory) is copied instead; in each case the heap stays a forest and the destination holds the prior value of the source |
| `Ownership.Swap` | pjsonlib/src/pjson.cpp:314-326 | exchanges two values exactly when neither node is inside the other, and otherwise changes nothing |
| `Insertion.PushBackCopy` | pjsonlib/src/pjson.cpp:1185-1200 | appends a copy of any node, the array itself or an ancestor included; a target of another kind becomes an array of that one value; a failure changes nothing |
| `Insertion.PushBackMove` | pjsonlib/src/pjson.cpp:1202-1233 | appends the contents of the source, or a snapshot when the source contains the target or a search for that ran out of memory, the second one of a rebuilt target included; otherwise the resulting heap is given node for node, for an array and for a target rebuilt as one: the source is left null, one new node holds its contents, and what the target held before being rebuilt is gone; a failure changes nothing |
| `Insertion.PromotedEmpties` | pjsonlib/src/pjson.cpp:1202-1233 | when a target is rebuilt around a consumed source, a source apart from it ends null with its descendants moved, the only new node is the element, and the former descendants of the target are gone |
| `Insertion.InsertOrAssignCopy` | pjsonlib/src/pjson.cpp:1235-1263 | the member at the key holds the prior value of the source, every other slot keeps its child, only what the member (or the rebuilt target) held is gone, every other node is as it was and every new node hangs under the target, wherever the source lies; a failure changes nothing |
| `Insertion.InsertOrAssignMove` | pjsonlib/src/pjson.cpp:1265-1306 | the same for a consumed source: unless a search ran out of memory, one that neither contains the target nor lies in it ends null, what the replaced member held is gone unless it was moved, and no new node is left outside the target; a source that contains the target, or might, is copied and stays |
| `Numbers.CompareNumbers` | pjsonlib/src/pjson.cpp:1706-1794 | the sign of the exact difference of two numbers of any of the three kinds, infinities included, with every cast in range; unordered exactly when one is a NaN |
| `Numbers.CompareTruncated` | pjsonlib/src/pjson.cpp:1755-1794 | comparing an integer with the truncated double, and on a tie with its fractional part, gives the sign of the exact difference |
| `Numbers.TruncationRepresentable` | pjsonlib/src/pjson.cpp:1755-1794 | the integral part of every finite double is itself a double, so the cast back after truncation is exact |
| `Numbers.CompareReverses` | pjsonlib/src/pjson.cpp:1706-1794 | exchanging the operands negates the answer |
| `Numbers.CompareTransitive` | pjsonlib/src/pjson.cpp:1706-1794 | without NaN the comparison is a total preorder, strict where one step is strict |
| `Numbers.EqualReflexive` | pjsonlib/src/pjson.cpp:1811-1891 | a value equals itself exactly when no NaN occurs in it |
| `Numbers.EqualSymmetric` | pjsonlib/src/pjson.cpp:1811-1891 | structural equality is symmetric |
| `Numbers.EqualTransitive` | pjsonlib/src/pjson.cpp:1811-1891 | structural equality is transitive |
| `NodeEquality.NodesEqual` | pjsonlib/src/pjson.cpp:1811-1891 | the iterative operator== decides recursive structural equality of the two trees, in every member order |
| `NodeEquality.CompareNodes` | pjsonlib/src/pjson_patch.cpp:118-182 | the comparison under a work limit gives the same answer as operator== whenever it finishes, in every member order; an exhausted limit is never an answer, and the limit is never passed |
| `NodeEquality.PatchEqual` | pjsonlib/src/pjson_patch.cpp:118-182 | charged to the work of a patch: no other counter changes |
| `SchemaEval.Validator.EqualWithBudget` | pjsonlib/src/pjson_schema.cpp:1518-1590 | charged to the work of a validation: the same answer, and exhaustion gives the run up |
| `PatchBudgets.PatchBudget.constructor` | pjsonlib/src/pjson_patch.cpp:41-61 | the four limits, zero standing for the default; nothing is used yet |
| `PatchBudgets.PatchBudget.ChargeWork` | pjsonlib/src/pjson_patch.cpp:63-69 | charges an amount exactly when it fits the limit and otherwise changes nothing, so use never exceeds the limit |
| `PatchBudgets.MeasureClone` | pjsonlib/src/pjson_patch.cpp:71-114 | succeeds exactly when the node count, the work and the bytes of the whole tree fit what is left of the limits, in every traversal order, and then charges exactly those totals; the early rejections by child count refuse nothing that would have fit |
| `Pointer.ParseIndex` | pjsonlib/src/pjson_pointer.cpp:41-57 | succeeds exactly on canonical decimals not above the size_t maximum and returns their value without wrapping |
| `Pointer.EscapeInjective` | pjsonlib/src/pjson_pointer.cpp:145-157 | two tokens with the same escaped text are the same token |
| `Pointer.EscapeToken` | pjsonlib/src/pjson_pointer.cpp:145-157 | the loop that builds the escaped text computes the escaping that EscapeInjective and JoinInjective are about |
| `Pointer.DecodePointer` | pjsonlib/src/pjson_pointer.cpp:59-98 | decodes exactly the slash-joined escapes of token lists and returns that list, empty tokens included; anything else is rejected, as a syntax error exactly when a nonempty text lacks the leading slash |
| `Pointer.JoinInjective` | pjsonlib/src/pjson_pointer.cpp:59-98 | a pointer text stands for one token list only, so decoding the joined escapes of a list returns that list |
| `Pointer.IndexInjective` | pjsonlib/src/pjson_pointer.cpp:41-57 | two tokens that read as the same index are the same token, so paths name locations uniquely |
| `PatchSpec.ApplyAtParent` | pjsonlib/src/pjson_patch.cpp:314-454 | an edit at a path is an edit of one slot of the container at the parent path: resolving the parent first, as the engine does, gives the recursive meaning of add, remove and replace with the same error |
| `PatchSpec.RemoveThenAddSamePath` | pjsonlib/src/pjson_patch.cpp:710-712 | removing an existing value and adding it at the same place restores the document, so the same-path shortcut of move is the general route of section 4.4 of RFC 6902 |
| `PatchSpec.AddedHere` | pjsonlib/src/pjson_patch.cpp:314-364 | after a successful add the destination slot holds the value: the member of that name with all others kept, or the array element at that index with the array otherwise as before |
| `PatchSpec.PutThenLookup` | pjsonlib/src/pjson_patch.cpp:367-402 | a replaced value is read back at its path, and at every path neither above nor below it the document reads as before |
| `PatchSpec.OverwriteIsPut` | pjsonlib/src/pjson_patch.cpp:367-402 | where something exists, replace puts the value there, and so does add except into an array |
| `PatchSpec.NoChange` | pjsonlib/src/pjson_patch.cpp:682-712 | a test that passes changes nothing, and neither does a move of a value onto itself |
| `Workspace.PrefixIsAncestry` | pjsonlib/src/pjson_patch.cpp:464-468 | for two locations that exist, one is inside the other exactly when its path extends the other: the proper-prefix test rejects just the moves into a descendant of the source |
| `Workspace.EditAtPath` | pjsonlib/src/pjson_patch.cpp:314-454 | changing the subtree at one location and no other node of the document changes the value of the document at that path only |
| `PatchEngine.AddOwned` | pjsonlib/src/pjson_patch.cpp:314-364 | add on the scratch tree: the tree represents the specified result; unless a value is overwritten no node comes or goes and the added node itself stands at the path with its tree unchanged; a failure other than a resource limit fails in the specification with the same code |
| `PatchEngine.ReplaceOwned` | pjsonlib/src/pjson_patch.cpp:367-402 | replace on the scratch tree: the specified result, or the specified failure with the scratch tree unchanged |
| `PatchEngine.DetachAt` | pjsonlib/src/pjson_patch.cpp:406-454 | cuts out the value at a path without destroying it: the detached node is the one the path leads to, it keeps its value, the rest is the document after remove, and no node comes or goes |
| `PatchEngine.CopyTo` | pjsonlib/src/pjson_patch.cpp:696-708 | copy on the scratch tree gives the specified result or the specified failure |
| `PatchEngine.TestAt` | pjsonlib/src/pjson_patch.cpp:682-694 | test succeeds only when it does in the specification, and leaves the document alone |
| `PatchEngine.MoveTo` | pjsonlib/src/pjson_patch.cpp:710-729 | move is remove followed by add on the scratch tree, with every index shift; moving onto itself changes no node, and a move to a place nothing occupies conserves all nodes of the document and puts the very node found at the source at the destination |
| `PatchEngine.ReadOperation` | pjsonlib/src/pjson_patch.cpp:595-651 | one member of the patch array is decoded to the operation the specification reads from it, or rejected with the first failing check of the specification |
| `PatchEngine.ApplyPatch` | pjsonlib/src/pjson_patch.cpp:577-747 | success publishes exactly the fold of the operations over the document in one step; any failure at any operation leaves the whole heap unchanged; a failure other than a resource limit is the failure of the pure fold with the same code and operation index, and when resources run out the operations before the reported index had succeeded |
| `PatchSpec.StaysStopped` | pjsonlib/src/pjson_patch.cpp:595-603 | the fold reports its first failing operation, whatever follows |
| `MergePatch.MergeIdempotent` | pjsonlib/src/pjson_patch.cpp:490-567 | applying the same merge patch twice is applying it once |
| `MergePatch.HoleFilled` | pjsonlib/src/pjson_patch.cpp:513-567 | finishing one pending target leaves every enclosing tree on the way to the same final value |
| `MergePatch.MergeTarget` | pjsonlib/src/pjson_patch.cpp:513-567 | one turn of the work list: every pending target stays live, inside the document and apart from all others through each erase, replace and insert; the final value does not change, and the patch nodes still ahead strictly shrink |
| `MergePatch.MergeInto` | pjsonlib/src/pjson_patch.cpp:490-567 | the work-list merge leaves the document equal to the recursive merge, for every target, patch and member order, unless a budget or memory runs out |
| `MergePatch.ApplyMergePatch` | pjsonlib/src/pjson_patch.cpp:755-786 | on success the target holds exactly the recursive MergePatch of section 2 of RFC 7396 of the prior values; a failure is a resource failure and changes nothing |
| `Utf8.CharLenIff` | pjsonlib/src/pjson.cpp:744-780 | the check accepts n bytes exactly when they are the encoding of one Unicode scalar value (section 3 of RFC 3629): no overlong form, surrogate or value above U+10FFFF |
| `Utf8.EncodedIsAccepted` | pjsonlib/src/pjson_parser.cpp:188-204 | what appendUtf8 writes for a scalar value is accepted whatever follows, with the same length and the same code point |
| `Utf8.AcceptedIsEncoded` | pjsonlib/src/pjson.cpp:744-780 | what the check accepts is what appendUtf8 writes for the code point it carries |
| `Utf8.Utf8Len` | pjsonlib/src/pjson.cpp:744-780 | the byte-by-byte tests of _utf8Len compute that check |
| `Strings.DecodedIsValid` | pjsonlib/src/pjson_parser.cpp:1301-1385 | everything a successful string decode outputs is valid UTF-8 |
| `Strings.EscapeCharReads` | pjsonlib/src/pjson_serialize.cpp:322-400 | one or two \u escapes of any scalar value read back as its encoding, surrogate pairs included |
| `Strings.EscapeThenDecode` | pjsonlib/src/pjson_serialize.cpp:322-400 | escaping succeeds exactly on valid UTF-8, and then decoding the escaped text up to a closing quote returns the string, with or without escaping of non-ASCII characters |
| `Cursors.LineAndColumn` | pjsonlib/src/pjson_parser.cpp:352-369 | the loop computes the one-based line and column of an offset |
| `Cursors.Cursor.Get` | pjsonlib/src/pjson_parser.cpp:551-728 | buffer and stream cursors consume the same byte at the same position, with or without one byte of lookahead held |
| `Cursors.Cursor.GetChar` | pjsonlib/src/pjson_parser.cpp:1201-1206 | no byte at or beyond the input limit is ever consumed, and within it the next byte is delivered |
| `NumberText.ScanJsonNumber` | pjsonlib/src/pjson_parser.cpp:477-547 | the scanner accepts exactly the number tokens of the grammar, longest match first, on either cursor, and reports whether the token has a fraction or exponent |
| `Grammar.ClampDepth` | pjsonlib/src/pjson_parser.cpp:21-26 | the working depth lies between one and the hard limit for any configured depth |
| `DomParser.ParseCtx.HexAt` | pjsonlib/src/pjson_parser.cpp:206-221 | four hexadecimal digits of either case |
| `DomParser.ParseCtx.DecodeStringBody` | pjsonlib/src/pjson_parser.cpp:1301-1385 | the index-based decoder computes the decoding of the string grammar up to the closing quote, or fails exactly when there is none |
| `DomParser.ParseCtx.ParseNumber` | pjsonlib/src/pjson_parser.cpp:1640-1680 | converts exactly the longest number token, and fails only on a bad token, a refused conversion or an exhausted node budget |
| `DomParser.ParseCtx.ParseArray` | pjsonlib/src/pjson_parser.cpp:1684-1737 | reads exactly the array of the grammar with its value and node count, restores the depth on every way out, and fails only when the text or the limits do not admit it |
| `DomParser.ParseCtx.ParseObject` | pjsonlib/src/pjson_parser.cpp:1741-1824 | the same for objects, under each of the three duplicate policies |
| `DomParser.ParseTop` | pjsonlib/src/pjson_parser.cpp:1456-1518 | accepts exactly the texts that the grammar and the limits admit and returns the value the policy builds from them; a rejected text leaves null and an error position inside the text |
| `SaxParsing.SaxParser.ReadHex4` | pjsonlib/src/pjson_parser.cpp:1166-1183 | four hexadecimal digits read from a cursor |
| `SaxParsing.SaxParser.ConsumeUtf8Tail` | pjsonlib/src/pjson_parser.cpp:1132-1163 | continuation bytes are accepted exactly where the length check of the DOM parser accepts the character |
| `SaxParsing.SaxParser.ParseStringRaw` | pjsonlib/src/pjson_parser.cpp:1023-1128 | the byte-at-a-time decoder computes the same decoding as the DOM parser |
| `SaxParsing.SaxParser.ParseValue` | pjsonlib/src/pjson_parser.cpp:785-805 | one value: the events are those of the text, the node count is that of the text, and a failure within the input limit means the text or the limits do not admit it |
| `SaxParsing.ParseDocumentEvents` | pjsonlib/src/pjson_parser.cpp:751-781 | a document is accepted exactly when the grammar and the limits admit it, and then the events are those of its text |
| `SaxParsing.ParseSax` | pjsonlib/src/pjson_parser.cpp:1421-1443 | buffer and stream entry points accept the same texts as ParseTop and produce the same events |
| `Agreement.FoldBuilds` | pjsonlib/src/pjson_parser.cpp:733-1269 | folding the events of any admitted text, later members overwriting, places the value the DOM parser builds, for reject, keep-first and keep-last |
| `Agreement.ParseBoth` | fuzz/fuzz_stream.cpp:147-187 | on every byte string, limit, policy, cursor and configured depth the two parsers accept together, and the folded events are the DOM value |
| `Syntax.ValueReads` | pjsonlib/src/pjson_parser.cpp:1549-1566 | every text of the RFC 8259 grammar is read whole with the meaning of its syntax tree if its surrogate escapes are paired, and not at all otherwise |
| `Syntax.ValueSound` | pjsonlib/src/pjson_parser.cpp:1549-1566 | every text that is read has a syntax tree of the RFC 8259 grammar with that meaning, and its surrogate escapes are paired |
| `Syntax.GrammarIff` | pjsonlib/src/pjson_parser.cpp:1456-1518 | the texts the parsers can read are exactly the JSON texts of sections 2 to 7 of RFC 8259 in which every surrogate escape is paired, with their meaning |
| `Syntax.PairingDecides` | pjsonlib/src/pjson_parser.cpp:1301-1385 | for every syntax tree of a text: the parse gives its meaning if the surrogate escapes are paired and rejects the text otherwise |
| `Syntax.LoneSurrogate` | pjsonlib/src/pjson_parser.cpp:1301-1385 | a concrete text of the grammar that is rejected: the escape D800 alone, which section 7 of RFC 8259 admits |
| `Printer.Sink.Write` | pjsonlib/src/pjson_serialize.cpp:123-222 | a sink takes a piece of text whole or, when it would pass the limit, not at all, and then stays stopped |
| `Printer.Sink.Fail` | pjsonlib/src/pjson_serialize.cpp:123-222 | an encoding or number fault stops the sink without output |
| `Printer.WriteEscaped` | pjsonlib/src/pjson_serialize.cpp:322-400 | the loop sends the sink exactly the escaped string, or stops where the limit or an invalid character stops it |
| `Printer.OpenOrEmit` | pjsonlib/src/pjson_serialize.cpp:406-486 | what is emitted at once followed by what the frames still owe is the text of the recursive printer; the turns still owed stay below those of the document |
| `Printer.Turn` | pjsonlib/src/pjson_serialize.cpp:492-557 | one turn of the loop emits a piece and leaves frames that owe the rest, with strictly fewer turns owed: the termination measure |
| `Printer.WriteValue` | pjsonlib/src/pjson_serialize.cpp:492-557 | on every sink the explicit frames emit exactly the bytes of the recursive printer, and stop with the first cause that printer meets |
| `Printer.StringSlot.ToString` | pjsonlib/src/pjson_serialize.cpp:605-640 | a successful counting pass predicts the length exactly and the second pass cannot fail; a failed call leaves the string of the caller unchanged and reports the first cause |
| `DoubleText.FormatDouble` | pjsonlib/src/pjson_serialize.cpp:62-112 | rewrites the generated text to its final layout for every shortest decimal |
| `DoubleText.LayoutPreserves` | pjsonlib/src/pjson_serialize.cpp:62-112 | the rewritten text is a JSON number with a fraction or exponent, so it reads back as a double, with the sign and the exact value of the generated one |
| `RoundTrip.SyntaxOf` | pjsonlib/src/pjson_serialize.cpp:406-557 | every printed document is a text of the RFC 8259 grammar that spells the document, for every option |
| `RoundTrip.SpeltReturns` | pjsonlib/src/pjson_parser.cpp:1549-1824 | a text that spells a document is admitted by the limits the document fits and builds its value, under any duplicate policy |
| `RoundTrip.PrintThenParse` | pjsonlib/src/pjson_serialize.cpp:322-557 | every document with valid strings and finite numbers that the parser limits admit, printed with any options whose indentation fits a size_t and parsed under any policy, comes back equal; kinds are kept except that an unsigned integer not above INT64_MAX returns signed |
| `RoundTrip.PrintAndParse` | fuzz/fuzz_serialize.cpp:42-52 | the same through the imperative serializer and parser: printing succeeds exactly when the strings are valid UTF-8 and the text fits the output limit |
| `RoundTrip.ReturnsEqual` | fuzz/fuzz_serialize.cpp:42-52 | what comes back is equal under operator== |
| `RoundTrip.ParsedPrints` | pjsonlib/src/pjson_serialize.cpp:322-400 | no parsed document ever fails serialization for its encoding |
| `RoundTrip.RenderClean` | pjsonlib/src/pjson_serialize.cpp:322-557 | a document with finite numbers prints exactly when all its strings are valid UTF-8; before the output limit nothing else can go wrong |
| `RoundTrip.EveryTree` | pjsonlib/src/pjson_serialize.cpp:406-557 | every value is what some document denotes, so the results about documents are about all trees |
| `RoundTrip.EveryOrder` | pjsonlib/src/pjson_serialize.cpp:406-557 | every object is denoted by a document for any order of its members |
| `NumberCodec.CodecExists` | pjsonlib/src/pjson_serialize.cpp:62-112 | the contract of the number codec that the round trip assumes can be met, whatever the other options |
| `Multiples.DecimalFromText` | pjsonlib/src/pjson_schema_value.cpp:225-282 | the exact decimal of a number token, without trailing zeros and without overflow, or failure exactly when the coefficient does not fit 64 bits or the exponent is out of the reader range |
| `Multiples.StripTens` | pjsonlib/src/pjson_schema_value.cpp:275-281 | removing trailing zeros keeps the number and ends with a coefficient that is no multiple of ten |
| `Multiples.MagnitudeOf` | pjsonlib/src/pjson_schema_value.cpp:221-223 | the magnitude is right at INT64_MIN, where negation would overflow |
| `Multiples.StripFactors` | pjsonlib/src/pjson_schema_value.cpp:346-387 | removing at most shift factors of two and of five decides whether the divisor divides coefficient times ten to the shift |
| `Multiples.NegativeShift` | pjsonlib/src/pjson_schema_value.cpp:346-387 | for normalised coefficients the branch with a larger divisor exponent always answers no on a nonzero value |
| `Multiples.MultipleOfNormal` | pjsonlib/src/pjson_schema_value.cpp:346-387 | for normalised decimals the three branches decide exact rational divisibility |
| `Multiples.IsExactMultiple` | pjsonlib/src/pjson_schema_value.cpp:346-387 | multipleOf is exact rational divisibility for every positive divisor whose decimal fits; a divisor that is not positive or does not fit constrains nothing |
| `SchemaRules.DeeperAgrees` | pjsonlib/src/pjson_schema.cpp:1595-2498 | once a verdict of the recursive keyword semantics is settled, unrolling references further changes neither the verdict nor the annotations |
| `SchemaRules.RulesAgree` | pjsonlib/src/pjson_schema.cpp:1689-2498 | the verdict and annotations of a schema object depend only on the subschema results it consults |
| `SchemaSoundness.EvaluateSound` | pjsonlib/src/pjson_schema.cpp:1595-2498 | an evaluation inside its budgets that meets no reference cycle has enough depth, and its verdict and its annotations are those of the recursive semantics of sections 10 and 11 of JSON Schema Core 2020-12, with references cyclic or not |
| `SchemaSoundness.RunSound` | pjsonlib/src/pjson_schema.cpp:2502-2509 | a whole run that finishes without a cycle gives the verdict of the recursive semantics at every sufficient depth |
| `SchemaSoundness.LimitsDoNotDecide` | pjsonlib/src/pjson_schema.cpp:362-374 | two runs under different limits that both finish without a cycle give the same verdict |
| `SchemaCycles.CycleMeansNoVerdict` | pjsonlib/src/pjson_schema.cpp:1664-1674 | unless, on an instance the recursive semantics judges, a keyword beside a $ref comes to the target of that $ref again on the same node, a finished run reports a cycle exactly when the recursive semantics reaches no verdict at any depth |
| `SchemaCycles.SimplyApart` | pjsonlib/src/pjson_schema.cpp:1702-1736 | that condition holds in every dialect where a $ref hides its siblings, and wherever the siblings of each $ref do not stay on the node |
| `SchemaVerdicts.SecondReferenceIsCycle` | pjsonlib/src/pjson_schema.cpp:1702-1736 | for every schema, instance, place and budget: if a keyword that is evaluated beside a $ref on this instance, the selected then or else included, comes to the target of that $ref again, a finished evaluation reports a cycle, and through allOf or further references it fails |
| `SchemaEnds.CycleInVain` | pjsonlib/src/pjson_schema.cpp:1702-1736 | for every such schema without endless references the recursive semantics judges the instance, every finished run reports a cycle, and with large enough limits every run finishes |
| `SchemaEnds.WhereTheCycleTestIsRight` | pjsonlib/src/pjson_schema.cpp:1664-1736 | if every loop of a schema passes through one of finitely many $ref targets, the cycle test is right for all its subschemas, instances and limits exactly when no keyword beside a $ref comes to its target again on an instance that the recursive semantics judges |
| `SchemaEnds.RunsEnd` | pjsonlib/src/pjson_schema.cpp:1595-1687 | such a schema, with loops or without, is evaluated to the end on every instance once the work, reference and depth limits are large enough: the reference stack stops every loop |
| `SchemaEnds.TreesEnd` | pjsonlib/src/pjson_schema.cpp:1595-1687 | every finite schema whose subschemas on the same node are numbered after their parent is of this kind, wherever its references lead |
| `SchemaVerdicts.AcceptedIsValid` | pjsonlib/src/pjson_schema.cpp:2502-2509 | if the subschemas under contains, if, anyOf, oneOf and not can be ranked so that none comes, on its own node, back to itself or to a reference that is still on the stack, then what a run accepts the recursive semantics accepts |
| `SchemaVerdicts.NothingProbed` | pjsonlib/src/pjson_schema.cpp:2057-2449 | that condition holds of every schema that has none of those five keywords |
| `SchemaVerdicts.NegatedLoopAccepts` | pjsonlib/src/pjson_schema.cpp:2440-2449 | for every schema that only negates a reference into a loop of required references: the recursive semantics judges no instance, and a run that finishes accepts |
| `SchemaEnds.NegatedLoopPasses` | pjsonlib/src/pjson_schema.cpp:2440-2449 | and with large enough limits every run accepts, although the recursive semantics judges no instance |
| `SchemaCycles.FinishedReferenceCounts` | pjsonlib/src/pjson_schema.cpp:1702-1736 | with sibling keywords the cycle test is too strict: a concrete schema and every instance where a finished reference is still on the stack, so a valid instance is rejected as a cycle |
| `SchemaCycles.CycleUnderNotAccepts` | pjsonlib/src/pjson_schema.cpp:2440-2449 | a cycle met under not is no rejection: a concrete schema that the recursive semantics never judges is accepted |
| `SchemaEval.BranchExhausted` | pjsonlib/src/pjson_schema.cpp:2057-2076 | a branch that runs out of a budget halts its whole speculative loop, whatever the other branches say |
| `SchemaEval.RestStops` | pjsonlib/src/pjson_schema.cpp:1689-2498 | a budget that runs out in any stage of a schema object, speculative ones included, leaves no verdict for the object |
| `SchemaEval.DiagnosticLimit` | pjsonlib/src/pjson_schema.cpp:206-210 | the diagnostic limit is never zero |
| `SchemaEval.LimitsOf` | pjsonlib/src/pjson_schema.cpp:362-374 | the depth limit never exceeds the hard limit of 32 |
| `SchemaEval.Validator.PushIssue` | pjsonlib/src/pjson_schema.cpp:230-271 | every sink counts every failure; only public sinks throw or add public errors, discarding sinks keep nothing, and what is retained with its causes is covered by the diagnostic counter; while there is room an issue is appended, causes leaving the last place free |
| `SchemaEval.Validator.Fail` | pjsonlib/src/pjson_schema.cpp:344-360 | an exhausted budget gives the run up for good and leaves a public error, which is appended unless the public errors have reached the limit |
| `SchemaEval.Validator.ChargeWork` | pjsonlib/src/pjson_schema.cpp:384-393 | work is charged exactly when it fits the limit, and otherwise the run is given up |
| `SchemaEval.Validator.Enter` | pjsonlib/src/pjson_schema.cpp:1653-1674 | a reference is followed exactly when the reference budget admits it, it resolves, and its node and target are not active; otherwise one failure is counted |
| `SchemaEval.Validator.RunTasks` | pjsonlib/src/pjson_schema.cpp:2013-2054 | a conjunctive loop over subschemas does what the run without sinks does, or throws, which only public sinks do and only when that run does not pass |
| `SchemaEval.Validator.RunBranches` | pjsonlib/src/pjson_schema.cpp:2363-2384 | a speculative loop reports nothing publicly, gives the verdicts and consumption of the run without sinks, and stops exactly when a budget runs out |
| `SchemaEval.Validator.Conclude` | pjsonlib/src/pjson_schema.cpp:2385-2436 | anyOf and oneOf give back the diagnostics of dropped causes, so retained diagnostics stay covered by the counter |
| `SchemaEval.Validator.CheckContains` | pjsonlib/src/pjson_schema.cpp:2077-2099 | minContains and maxContains are both met exactly when no failure is added, also when they contradict each other and two failures are |
| `SchemaEval.Validator.ContainsItems` | pjsonlib/src/pjson_schema.cpp:2057-2100 | the array passes contains, minContains and maxContains as in the run without sinks; exactly the matching items are marked |
| `SchemaEval.Validator.EvaluateCondition` | pjsonlib/src/pjson_schema.cpp:2305-2339 | then or else is evaluated as if decides, and annotations of if survive only when it accepts, as in the run without sinks |
| `SchemaEval.Validator.EvaluateAnyOf` | pjsonlib/src/pjson_schema.cpp:2360-2395 | every branch of anyOf is evaluated, every accepting one gives its annotations, and a failure is added exactly when none accepts |
| `SchemaEval.Validator.EvaluateOneOf` | pjsonlib/src/pjson_schema.cpp:2397-2437 | every branch of oneOf is evaluated, and a failure is added exactly unless one accepts, whose annotations are kept |
| `SchemaEval.Validator.EvaluateNot` | pjsonlib/src/pjson_schema.cpp:2440-2449 | a failure is added exactly when the negated schema accepts, and its annotations are dropped |
| `SchemaEval.Validator.EvaluateUnevaluated` | pjsonlib/src/pjson_schema.cpp:2451-2496 | the unevaluated keywords apply to exactly the members and items that nothing before has marked |
| `SchemaEval.Validator.EvaluateKeywords` | pjsonlib/src/pjson_schema.cpp:1689-1736 | a $ref with siblings is evaluated first and merged when it accepts; an unresolved or cyclic one ends the schema object |
| `SchemaEval.Validator.EvaluateSchema` | pjsonlib/src/pjson_schema.cpp:1635-1687 | the loop over references without siblings ends, because each turn uses up depth, and evaluates what they lead to as in the run without sinks |
| `SchemaEval.Validator.EvaluateRest` | pjsonlib/src/pjson_schema.cpp:1817-2496 | the keywords in the order of the source, each stage as in the run without sinks |
| `SchemaEval.Validator.ValidateCtx` | pjsonlib/src/pjson_schema.cpp:1595-1610 | one evaluation agrees with the run without sinks in verdict, annotations, work and references; depth and reference stack are restored on every way out, exceptions included, and the remaining depth decreases into every nested evaluation |
| `SchemaEval.RunValidation` | pjsonlib/src/pjson_schema.cpp:2502-2509 | the verdict is that of the recursive semantics unless a cycle is met, and a rejection when a budget runs out anywhere; a run is accepted exactly when it reports nothing; at most the limit of top-level errors is reported, and at most one diagnostic more with all causes |
| `SchemaEval.LimitPlusOne` | pjsonlib/src/pjson_schema.cpp:230-271 | that bound is attained under every limit above one: with causes in all places but the last and their combinator in the last, the message about an exhausted budget is one more |
| `SchemaEval.TwoRuns` | pjsonlib/src/pjson_schema.cpp:214-272 | the verdict does not depend on maxErrors, stopAfterFirstError or collectNestedCauses |

## Left out

- SchemaEval.RunValidation: patternProperties, propertyNames, dependencies, dependentSchemas, `$dynamicRef`, the legacy array form of items and the strict keyword check are not modelled; type, const, enum, numeric, string, format, size, required and uniqueItems checks are one abstract leaf assertion with a cost and a verdict.
- Regular expressions, string formats, dialects, vocabularies, URI resolution and schema compilation: a reference arrives already resolved, unresolvable or absent.
- The work that compiling a pattern charges depends on what was compiled before; the abstract leaf has a fixed cost per instance.
- SchemaVerdicts.AcceptedIsValid: the condition is sufficient; where a probed subschema does come back to itself, whether an invalid instance is accepted depends on what the other keywords and the abstract assertions around it accept.
- SchemaEval.LimitPlusOne: performs the reporting steps of such a run and not the evaluation that leads to them.
- SchemaEval.Validator.EqualWithBudget: stands beside the abstract leaf assertions and is not called by them.
- Error texts, token diagnostics, schema locations and message classification: only success, position, code and operation index are kept.
- The saturation of the failure counter at the largest size_t.
- Allocation failures of temporary work lists in measureClone, patchEqual and the serializer, and of diagnostics in the validator.
- A single allocator domain: cross-allocator moves are copies and are not modelled.
- Insertion.InsertOrAssignMove: after taking a snapshot, in the call itself or in the call for the rebuilt target, the source searches the snapshot for containment once more; the model inserts the snapshot directly.
- Ryu and text-to-double conversion are one inverse pair, whose contract `NumberCodec.CodecExists` shows can be met, and strtoll, strtoull and istream extraction are parameters with a stated contract; the rewriting of the generated text is modelled.
- Physical streams, StreamSink and parseStream chunk buffering: a stream is its byte sequence read one byte at a time.
- DomParser.ParseTop: nodes are values here, so allocation failure while parsing is not modelled.
- Multiples.DecimalFromText: the branches for malformed text are not modelled, because only number tokens reach it; nor is the overflow of the int that counts fraction digits in texts longer than 2^31 bytes.
- Cancellation by a SAX handler.
- Bit operations on bytes are written as arithmetic; erasing a container slot is modelled as detaching the child and destroying it.
- Printer.Sink: the exception that a string sink throws at its limit is modelled as a sink that stops.
- Internal-error codes for states the proofs show to be unreachable.
- Hash seeds and table internals, visitors, scalar and vector assignment overloads, C-string wrappers: each repeats a small pattern or is data outside these algorithms.

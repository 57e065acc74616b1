# hclient, modelled in Dafny

`hclient` is an HTTP client workspace: a core crate, transports, resolvers and the `hc`
command line. This project models the parts of it whose correctness is a statement about whole
runs or about all inputs, and proves those statements.

- **The key/value store** (`KeyValue`). A self-pruning map of maps of slot lists over a
  partially ordered clock, as a class, against an operation history that never forgets.
- **Server-sent events** (`Lines`, `SseDecode`, `SseMeaning`, `SseLimit`, `SseVerdict`,
  `SseDecoder`, `SsePrint`, `Utf8`). The line splitter and the decoder are classes fed in chunks
  of any size and proved to compute a function of the whole byte stream, and that function is
  told from the lines; the verdict of the size limit is given in closed form and compared
  between chunked and one-piece delivery; and the printer is proved to be undone by the decoder.
- **The progress meter** (`Hooks`). Every interleaving of adds, loads, swaps and hook calls,
  and the response body that counts what it yields.
- **The WebSocket session** (`WsSession`). The select loop against an arbitrary environment.
- **The JSON printer** (`JsonPrint`) and a reader for the grammar of RFC 8259 (`JsonRead`).
- **The `--write-out` format**, **request items**, **`--resolve`** and **header folding**
  (`WriteOut`, `RequestItems`, `Resolve`, `Headers`).
- **The rustdoc walk** (`ExposedMajors`), a depth-first search over a graph with cycles.
- **The DNS-over-HTTPS chain** (`DohChain`) and **replayable bodies** (`Body`).

Code that changes things in place is modelled by classes, loops and a written-to `Sink`
(`Output`); each such method is tied to a function, and what the source promises is proved of
that function. `dafny verify dfyconfig.toml` checks the project.

## Where the code and its documentation disagree

The model follows the code.

- *Size limit of an SSE event.* The fuzz target states that byte accounting is invariant to
  chunking and that nothing is ever charged less than was consumed
  (crates/hclient/fuzz/fuzz_targets/sse_accounting.rs:5-19). An LF that arrives at the head of a
  chunk, its CR having ended the chunk before, is charged to the next line. When that line is
  blank the LF is charged to nothing, and chunks pass that one piece would not: the delivery
  `SseLimit.CutCrLfHidesAByte`, and `SseVerdict.UnderchargedIff` for exactly when. When the line
  before was blank the LF is charged to the wrong event, and chunks are refused that one piece
  would pass: the delivery `SseVerdict.CutCrLfChargesTheNextEvent`, and
  `SseVerdict.OverchargedIff` for exactly when. `SseVerdict.AcceptedIff` is the verdict on any
  delivery, and the difference is never more than one byte (`SseLimit.AcceptedWithinOneByte`,
  `SseLimit.RefusedWithinOneByte`).
- *Depth of a body.* `reduce` documents a refusal of a chain that is still going after sixteen
  factory calls (crates/hclient-core/src/body.rs:411-413). The loop ends before it looks at what
  the sixteenth call made, so a chain that ends there is refused too:
  `Body.SixteenthCallIsWasted`, and `Body.DocumentedBoundIff` for when the two bounds agree.
- *Overlapping progress reports.* Totals are documented as monotonic. A report loads, swaps and
  then calls the hook, and two reports in flight at once can break the promise at either gap: by
  crossing loads and swaps (`Hooks.OverlappingReportsRegress`), or with those in order by a late
  call (`Hooks.LateCallRegresses`). `Hooks.MonotoneIff` says of exactly which interleavings it
  holds.

## Model

| member | source | states |
|---|---|---|
| `KeyValue.MemoryStore.constructor` | crates/hclient-core/src/kv.rs:475-492 | a new store is empty and satisfies the invariant that nothing empty is kept |
| `KeyValue.MemoryStore.Get` | crates/hclient-core/src/kv.rs:627-643 | exactly the values with no expiry, or with one that does not compare as before or at the time of the read, each at the position given by the number of such values put before it; an expiry that cannot be compared keeps its value |
| `KeyValue.MemoryStore.GetMany` | crates/hclient-core/src/kv.rs:518-524 | pointwise `Get`, one answer per key in the order given, misses included |
| `KeyValue.MemoryStore.Put` | crates/hclient-core/src/kv.rs:526-548 | of that key alone, exactly the slots whose expiry compares as before or at the time of the put go, and the new one is appended; keeps the invariant |
| `KeyValue.MemoryStore.Remove` | crates/hclient-core/src/kv.rs:550-562 | the key goes, and an emptied namespace with it |
| `KeyValue.MemoryStore.Clear` | crates/hclient-core/src/kv.rs:564-568 | the namespace goes, the others stay |
| `KeyValue.MemoryStore.Scan` | crates/hclient-core/src/kv.rs:570-588 | under every key, what the scan pairs with it is what `Get` answers when the prefix matches and nothing otherwise, in any key order |
| `KeyValue.MemoryStore.ScanMany` | crates/hclient-core/src/kv.rs:590-609 | the same for the union of several prefixes, no key twice |
| `KeyValue.MemoryStore.RemovePrefix` | crates/hclient-core/src/kv.rs:611-621 | every matching key goes, and an emptied namespace with it |
| `KeyValue.LiveKeepsUnexpired` | crates/hclient-core/src/kv.rs:458-473 | the sweep keeps a slot if and only if it has no expiry or one that compares as neither before nor at the time, in order |
| `KeyValue.ExpiryDecides` | crates/hclient-core/src/kv.rs:458-473 | an expiry later than now, or incomparable with it, keeps a slot; one earlier or equal does not |
| `KeyValue.HeldAfter` | crates/hclient-core/src/kv.rs:526-621 | what each operation does to the slots of any one key: a put sweeps and appends, a covering removal empties, anything else leaves it alone |
| `KeyValue.ReachableNothingEmpty` | crates/hclient-core/src/kv.rs:526-621 | no reachable store holds an empty namespace or an empty slot list |
| `KeyValue.StoreIsHistoryIff` | crates/hclient-core/src/kv.rs:458-473 | after any operations, on any clock, the sweeping store answers as the history does if and only if no put swept a value the read would still answer with |
| `KeyValue.ForwardClockSweepsNothingLive` | crates/hclient-core/src/kv.rs:534-547 | on a transitive clock no put at or before the read's time sweeps such a value |
| `KeyValue.StoreRefinesHistory` | crates/hclient-core/src/kv.rs:513-621 | a read at or after every earlier put to its key cannot tell the store from the history that never forgets |
| `KeyValue.AnswersAreSubsequence` | crates/hclient-core/src/kv.rs:627-643 | whatever the times, an answer is a subsequence of the history's and holds nothing provably expired |
| `KeyValue.SameFromPreserved` | crates/hclient-core/src/kv.rs:526-621 | stores that differ only in slots expired at `t` stay so under any later operations |
| `KeyValue.RemovePrefixIsScanAndRemove` | crates/hclient-core/src/kv.rs:550-588 | deleting a prefix and removing every key a scan returned give equal answers to every later read not before the scan, whatever runs in between |
| `KeyValue.EmptyPrefixClears` | crates/hclient-core/src/kv.rs:611-621 | with the empty prefix the delete is `Clear`, state for state |
| `KeyValue.ScanCountsPairs` | crates/hclient-core/src/kv.rs:570-609 | as a multiset a scan counts each pair as often as `Get` answers it |
| `KeyValue.ExtendingPrefixIsRedundant` | crates/hclient-core/src/kv.rs:590-609 | adding a prefix that extends one already asked for changes nothing |
| `Utf8.LossyIsValid` | crates/hclient/src/sansio/sse/decode.rs:177-235 | lossy decoding always gives well-formed text |
| `Utf8.ValidIsKept` | crates/hclient/src/sansio/sse/decode.rs:177-235 | and leaves well-formed text alone |
| `Utf8.CharIsEncoded` | crates/hclient/src/sansio/sse/decode.rs:177-235 | a character at the front of a text encodes a code point that is no surrogate (section 3 of RFC 3629) |
| `Utf8.EncodedIsChar` | crates/hclient/src/sansio/sse/decode.rs:177-235 | and every such code point's encoding is a character |
| `Utf8.BadIsMaximal` | crates/hclient/src/sansio/sse/decode.rs:177-235 | what is replaced at once is one byte, or as many as begin some character and not one more |
| `Utf8.LossyUnfolds` | crates/hclient/src/sansio/sse/decode.rs:177-235 | lossy decoding keeps each character and puts one U+FFFD for each bad run |
| `Lines.FeedIsSplit` | crates/hclient/src/sansio/sse/lines.rs:78-140 | the byte-by-byte reading gives the lines and the tail of the whole stream, CRLF, LF and lone CR each ending one |
| `Lines.LineSplitter.constructor` | crates/hclient/src/sansio/sse/lines.rs:53-76 | a splitter that has read nothing |
| `Lines.LineSplitter.Push` | crates/hclient/src/sansio/sse/lines.rs:78-113 | however the bytes are cut, buffer, owed LF, carried byte and undecided BOM stay those of the automaton fed the whole stream |
| `Lines.LineSplitter.ResolveBom` | crates/hclient/src/sansio/sse/lines.rs:85-101 | one leading BOM is dropped, and bytes that turn out not to be one come back |
| `Lines.LineSplitter.NextLine` | crates/hclient/src/sansio/sse/lines.rs:124-140 | the next line of the whole stream, charged so that the total credited is the position behind its terminator as read so far; nothing if and only if no complete line is buffered |
| `Lines.LineSplitter.BufferedLen` | crates/hclient/src/sansio/sse/lines.rs:150-159 | bytes credited and bytes buffered together are the bytes behind the BOM, or all bytes while a BOM is undecided: none of those is counted twice or not at all |
| `SseDecoder.Decoder.constructor` | crates/hclient/src/sansio/sse/decode.rs:83-114 | a decoder seeded with a last event ID and a limit |
| `SseDecoder.Decoder.HandleLine` | crates/hclient/src/sansio/sse/decode.rs:177-235 | the field and comment rules, one leading space dropped, an id with NUL ignored, a retry saturating |
| `SseDecoder.Decoder.DispatchEvent` | crates/hclient/src/sansio/sse/decode.rs:236-255 | an empty data buffer queues nothing and still clears the type; one trailing newline goes; the id persists |
| `SseDecoder.Decoder.Drain` | crates/hclient/src/sansio/sse/decode.rs:134-148 | the lines handed out are tallied in order and refused at the first one past the limit, which is dropped |
| `SseDecoder.Decoder.Push` | crates/hclient/src/sansio/sse/decode.rs:132-157 | refused exactly when a line, or what is left over, is past the limit, after an earlier refusal as well; which lines were handled; and, nothing having been refused, the verdict of the count and the events of the whole stream |
| `SseDecoder.Decoder.Next` | crates/hclient/src/sansio/sse/decode.rs:173-175 | events leave in the order queued, none lost |
| `SseDecoder.DecodeChunks` | crates/hclient/src/sansio/sse/decode.rs:132-175 | for every cutting into chunks: refused if and only if the count is, and otherwise exactly the events of the concatenation |
| `SseMeaning.DecodeIs` | crates/hclient/src/sansio/sse/decode.rs:132-255 | what a stream decodes to, told from its lines: behind each block with data one message with the block's `data` values, and every comment and retry where it stands |
| `SseMeaning.FieldIff` | crates/hclient/src/sansio/sse/decode.rs:177-235 | a line is one field in one way: a name without a colon, or a name, a colon, a space that does not count, and a value |
| `SseMeaning.NoEventNoType` | crates/hclient/src/sansio/sse/decode.rs:236-245 | a message has no type unless an `event` line stands since the last blank line, whether or not that blank line dispatched anything |
| `SseMeaning.LastEventIsType` | crates/hclient/src/sansio/sse/decode.rs:177-235 | its type is the last `event` value since then |
| `SseMeaning.LastIdIsId` | crates/hclient/src/sansio/sse/decode.rs:177-255 | its ID is the last `id` value without a NUL, across blocks |
| `SseMeaning.NoIdIsSeed` | crates/hclient/src/sansio/sse/decode.rs:95-114 | or the one the decoder was made with |
| `SseVerdict.InOnePiece` | crates/hclient/src/sansio/sse/decode.rs:132-157 | one push of a whole stream is accepted if and only if no line ends further than the limit behind the last blank line before it, and neither does what is left over |
| `SseVerdict.TallyIs` | crates/hclient/src/sansio/sse/decode.rs:134-148 | the running count refuses if and only if some line is further than the limit into its event, and otherwise stands where the event under way began |
| `SseVerdict.AcceptedIff` | crates/hclient/src/sansio/sse/decode.rs:132-157 | the verdict on every delivery in closed form: no line, and nothing held behind any chunk, further into its event than the limit, each line ending where it was charged |
| `SseVerdict.ChargedIs` | crates/hclient/src/sansio/sse/lines.rs:103-140 | a line is charged to where it ends, less the LF if and only if a chunk boundary cuts its CRLF |
| `SseVerdict.OverchargedIff` | crates/hclient/fuzz/fuzz_targets/sse_accounting.rs:5-19 | chunks of a stream that one piece accepts are accepted if and only if no BOM is cut off past the limit and every event behind a blank line whose CRLF is cut is within the limit with that LF counted, at each of its lines and behind each chunk that ends in it |
| `SseVerdict.UnderchargedIff` | crates/hclient/fuzz/fuzz_targets/sse_accounting.rs:5-19 | chunks that are accepted are accepted in one piece if and only if every non-blank line whose CRLF is cut is within the limit with its LF, measured from where its event begins |
| `SseVerdict.CutCrLfChargesTheNextEvent` | crates/hclient/src/sansio/sse/lines.rs:78-113 | a delivery in two chunks that a limit of two refuses although its one event has two bytes |
| `SseLimit.AcceptedWithinOneByte` | crates/hclient/fuzz/fuzz_targets/sse_accounting.rs:5-19 | what any chunking accepts, one piece accepts with a limit one byte larger |
| `SseLimit.RefusedWithinOneByte` | crates/hclient/src/sansio/sse/decode.rs:132-157 | what any chunking refuses has a prefix of chunks that one piece refuses with a limit one byte smaller |
| `SseLimit.BytewiseIsExact` | crates/hclient/fuzz/fuzz_targets/sse_accounting.rs:49-74 | delivered byte by byte, nothing is accepted that one piece refuses: the comparison the fuzz target makes, for every input and limit |
| `SseLimit.PrefixAccepted` | crates/hclient/src/sansio/sse/decode.rs:125-157 | what one piece accepts was within the limit at every prefix, but for one that ends between CR and LF or inside a BOM |
| `SseLimit.UncutVerdictIff` | crates/hclient/fuzz/fuzz_targets/sse_accounting.rs:5-19 | with no CRLF and no BOM cut by a chunk boundary, chunks are accepted if and only if the whole is |
| `SseLimit.CountedInFullIff` | crates/hclient/fuzz/fuzz_targets/sse_accounting.rs:5-19 | chunks that are accepted are accepted in one piece if and only if, wherever a CRLF is cut in two, the stream up to and with the LF is accepted in one piece |
| `SseLimit.CutCrLfHidesAByte` | crates/hclient/src/sansio/sse/lines.rs:78-113 | a delivery in two chunks that passes a limit of two with an event of three bytes |
| `SsePrint.PrintEvent` | crates/hclient-cli/src/sse.rs:69-110 | writes the event's text at each verbosity: payload data alone, or the wire lines |
| `SsePrint.EventTextIs` | crates/hclient-cli/src/sse.rs:69-110 | payload prints a message's data and nothing of anything else; otherwise type, ID and data lines in that order and a blank line, a comment behind a colon and a space, a retry in milliseconds |
| `SsePrint.PrintEvents` | crates/hclient-cli/src/sse.rs:69-110 | events printed one by one in either annotated form are the text that `PrintedDecodes` reads back |
| `SsePrint.PrintData` | crates/hclient-cli/src/sse.rs:87-89 | one `data:` line per piece between newlines |
| `SsePrint.PiecesJoin` | crates/hclient-cli/src/sse.rs:84-90 | splitting data at newlines loses nothing, trailing newlines and empty data included |
| `SsePrint.SplitJoin` | crates/hclient/src/sansio/sse/lines.rs:124-140 | lines written one by one are read as the same lines |
| `SsePrint.EventsHandled` | crates/hclient-cli/src/sse.rs:69-110 | the printed lines of any printable events drive the decoder through exactly those events and leave nothing pending between them |
| `SsePrint.PrintedDecodes` | crates/hclient-cli/src/sse.rs:69-110 | printable events, printed, decode to themselves |
| `SsePrint.DecodedIsPrintable` | crates/hclient/src/sansio/sse/decode.rs:177-255 | whatever bytes arrive, ill-formed UTF-8 included, what is decoded is printable, unless the decoder was made with an ID holding a line end or NUL and a message still carries it |
| `SsePrint.PrintedDecodesIff` | crates/hclient-cli/src/sse.rs:69-110 | a list of events survives printing and decoding if and only if it is printable |
| `SsePrint.PrintingPreservesMeaning` | crates/hclient-cli/src/sse.rs:92-102 | the annotated output of any stream, from any last event ID, decodes to that stream's events if and only if no message carries an initial ID that no stream could have set |
| `Hooks.CountIsSum` | crates/hclient-core/src/hooks.rs:1584-1592 | in every interleaving the count is the sum of the adds, saturating at 2^64-1 |
| `Hooks.MonotoneIff` | crates/hclient-core/src/hooks.rs:1612-1629 | in every interleaving of adds, loads, swaps and hook calls the totals emitted increase strictly if and only if every call that tells has traffic before its load and of any two the later one's load stands behind the earlier one's with traffic between; whether a call tells is read off the schedule |
| `Hooks.PromptMonotoneIff` | crates/hclient-core/src/hooks.rs:1612-1629 | where each hook call directly follows its swap, the totals increase strictly if and only if no report swaps behind one that loaded after it, with traffic between the two loads |
| `Hooks.EmittedIsLogged` | crates/hclient-core/src/hooks.rs:1612-1629 | the totals emitted are what had moved before the loads of the calls that tell, in the order of the calls |
| `Hooks.FlightIsCountAtLoad` | crates/hclient-core/src/hooks.rs:1612-1629 | in every interleaving a report under way holds the count as it stood at its load, the value told is that of the last swap, and a report that has swapped knows whether it brought news |
| `Hooks.EmittedWasLoaded` | crates/hclient-core/src/hooks.rs:1612-1629 | every total emitted is the count at some report's load |
| `Hooks.ProgressIsMonotone` | crates/hclient-core/src/hooks.rs:1612-1629 | with one report at a time, from load to hook call, the totals increase strictly from above zero and never pass what has moved |
| `Hooks.FinalReportTellsTheSum` | crates/hclient-core/src/hooks.rs:1612-1629 | with no report under way, one more load, swap and call leave the last total at the saturated sum, and emit nothing only of nothing |
| `Hooks.HandoverIsSingleFlight` | crates/hclient-core/src/hooks.rs:1736-1765 | however uploads fall between the loads, swaps and hook calls made by the polls of the exchange and then of its body, every step can be taken, no two reports overlap and the totals increase strictly across the handover |
| `Hooks.OverlappingReportsRegress` | crates/hclient-core/src/hooks.rs:1612-1629 | two reports whose loads and swaps cross, emitting 2 and then 1 |
| `Hooks.LateCallRegresses` | crates/hclient-core/src/hooks.rs:1612-1629 | two reports whose loads and swaps do not cross, emitting 2 and then 1 because the first calls the hook last |
| `Hooks.Meter.Add` | crates/hclient-core/src/hooks.rs:1584-1592 | a saturating add that tells nothing |
| `Hooks.Meter.Report` | crates/hclient-core/src/hooks.rs:1612-1629 | one event with the count if it moved since the last, none otherwise |
| `Hooks.Counting.PollFrame` | crates/hclient-core/src/hooks.rs:1736-1765 | the inner outcome unchanged; an event each way for what has moved since the last |
| `Hooks.PollAll` | crates/hclient-core/src/hooks.rs:1736-1773 | for every script of polls and uploads, on a send meter already moved and told: the inner outcomes exactly, a Receiving total behind each non-empty data frame until saturation and behind nothing else, and the upload's running sums from where the exchange left them |
| `JsonPrint.JsonValue` | crates/hclient-cli/src/output.rs:148-190 | writes the indented text of a value, its rows and commas |
| `JsonPrint.JsonArray` | crates/hclient-cli/src/output.rs:162-174 | a row per item, a comma behind all but the last, the bracket at the outer depth |
| `JsonPrint.JsonObject` | crates/hclient-cli/src/output.rs:175-188 | the same for members, each key quoted in front of its value |
| `JsonPrint.NumbersAreNumbers` | crates/hclient-cli/src/output.rs:154 | every number of section 6 of RFC 8259 counts as one, so the round trip covers it |
| `JsonRead.QuotedReads` | crates/hclient-cli/src/output.rs:155-161 | a quoted string reads back as itself under section 7 of RFC 8259 |
| `JsonRead.LexesBack` | crates/hclient-cli/src/output.rs:148-190 | the printed text at any depth lexes to the tokens of the value and no others |
| `JsonRead.ParsesBack` | crates/hclient-cli/src/output.rs:148-190 | the tokens of a value, whatever follows, parse to that value and leave what follows |
| `JsonRead.PrintedParses` | crates/hclient-cli/src/output.rs:148-190 | every value, printed at every depth, parses back to itself |
| `JsonRead.DeeperIsIndented` | crates/hclient-cli/src/output.rs:148-190 | printing one level deeper only adds four spaces behind each newline |
| `ExposedMajors.Walker.Scan` | scripts/exposed-majors.py:100-113 | stops if and only if something named inside a type is not there, and otherwise adds exactly the crates named anywhere inside it |
| `ExposedMajors.Walker.ScanImpl` | scripts/exposed-majors.py:161-174 | adds an impl's generics, trait and methods, and nothing of a synthetic or blanket one; stops if and only if the impl, a method, or what they refer to is missing |
| `ExposedMajors.Walker.ScanPublic` | scripts/exposed-majors.py:150-174 | adds exactly a public item's own contribution, or stops where the script does |
| `ExposedMajors.Walker.Visit` | scripts/exposed-majors.py:118-174 | ends on cyclic indexes; all it newly sees is reachable, and nothing behind what it newly sees is left out; found and counted stay those of the items seen; it stops only at a reachable item that stops the script |
| `ExposedMajors.ClosedHoldsPath` | scripts/exposed-majors.py:118-149 | a set closed under module and use edges holds everything reachable from inside it |
| `ExposedMajors.ExposedCrates` | scripts/exposed-majors.py:87-180 | stops with an error if and only if a reachable item refers to something missing; otherwise the union of the reachable items' contributions without the standard crates, whatever the order of children, with the count of the reachable public items, an API with none being refused |
| `ExposedMajors.LocalIff` | scripts/exposed-majors.py:118-149 | what visiting an item adds, read off the document: the crate of an item or re-export target that is not in the index, or a public item's contribution |
| `ExposedMajors.PublicIff` | scripts/exposed-majors.py:150-174 | a public item contributes the crates named in its body outside the five fields, in the public and default items listed under `items`, `variants`, `kind.plain.fields` and `kind.tuple`, and in its impls |
| `ExposedMajors.ImplIff` | scripts/exposed-majors.py:161-174 | an impl that is neither synthetic nor blanket contributes through its generics, its trait and its methods, which must be public unless a trait's |
| `ExposedMajors.MentionsIff` | scripts/exposed-majors.py:100-113 | a scan finds exactly the crates that some dictionary inside refers to, by a resolved path or by an ID beside a path |
| `ExposedMajors.NextIff` | scripts/exposed-majors.py:133-147 | the walk goes from a module to its items and from a re-export to its target |
| `ExposedMajors.StopsIff` | scripts/exposed-majors.py:92-113 | a scan stops if and only if some dictionary inside has a reference without an ID or to an unlisted crate |
| `ExposedMajors.LocalStopsIff` | scripts/exposed-majors.py:118-149 | a visit stops at a module without items, at an unlisted crate, and at a public item that stops |
| `ExposedMajors.PublicStopsIff` | scripts/exposed-majors.py:150-174 | which it does through its body, a listed item or an impl |
| `ExposedMajors.ImplStopsIff` | scripts/exposed-majors.py:161-174 | an impl stops the script if it is missing, or has no items, a trait without a listed crate, or a method that is missing |
| `WsSession.Session.Send` | crates/hclient-cli/src/ws.rs:103-110 | the frame is handed over once the sink accepts it, and stays unflushed when the flush fails |
| `WsSession.Session.Goodbye` | crates/hclient-cli/src/ws.rs:304-316 | a close whose failure is swallowed |
| `WsSession.Session.TakeTurn` | crates/hclient-cli/src/ws.rs:214-268 | one turn of the biased select: receive, then a line unless closing, then the interrupt arm |
| `WsSession.Session.Serve` | crates/hclient-cli/src/ws.rs:212-271 | the loop is the run of its turns up to the one that ends it |
| `WsSession.FramesAreAPrefixThenOneClose` | crates/hclient-cli/src/ws.rs:206-271 | in every run the frames handed over are a prefix of the stdin lines in order and then at most one close, nothing behind it and nothing behind the peer's (section 5.5.1 of RFC 6455); every line taken is sent or ends the run with an error |
| `WsSession.PeerCloseSilences` | crates/hclient-cli/src/ws.rs:235-237 | from the turn in which the peer's close comes in nothing is handed to the sink any more |
| `WsSession.InterruptsAreFired` | crates/hclient-cli/src/ws.rs:257-266 | the interrupts consumed are the reached turns at which nothing came in, no line was read and the interrupt arm was ready |
| `WsSession.SessionEnds` | crates/hclient-cli/src/ws.rs:99-271 | told from the environment alone: success if and only if a reached turn is the peer's end, or an interrupt after something closed the session, with its write good; a failed write if and only if a reached turn has a bad write there, at a message or at an echoed line; a failed request if and only if a reached turn failed to receive, or to send a line read before any close; still open if and only if no reached turn is any of these; at most two interrupts; only a failed flush leaves a message unflushed |
| `WsSession.OutcomeIff` | crates/hclient-cli/src/ws.rs:214-271 | a run ends as the reached turn that ends it does, and not otherwise |
| `WsSession.ClosingIff` | crates/hclient-cli/src/ws.rs:206-268 | the session is closing if and only if the peer closed, stdin ended or an interrupt fired in some turn before, and until then each turn that reads stdin took one line |
| `WsSession.GoodbyeDecidesNothing` | crates/hclient-cli/src/ws.rs:274-316 | two runs that differ only in how the sink took a goodbye have the same outcome and take the same lines |
| `WriteOut.LexIsSound` | crates/hclient-cli/src/timings.rs:188-235 | a format is its tokens' sources end to end, up to where it is cut off inside a name, and each token may stand where it does |
| `WriteOut.LexIsUnique` | crates/hclient-cli/src/timings.rs:188-235 | a format, terminated or cut off, has exactly one well-placed token sequence |
| `WriteOut.LexConcatIff` | crates/hclient-cli/src/timings.rs:188-235 | behind a terminated format any other lexes as by itself if and only if the left one does not end in a backslash or percent sign that reads on |
| `WriteOut.Render` | crates/hclient-cli/src/timings.rs:188-235 | the one-pass loop computes the meaning of the tokens, or the first failure |
| `WriteOut.ReadName` | crates/hclient-cli/src/timings.rs:210-225 | the name up to the first brace, and whether there is one |
| `WriteOut.RendersIff` | crates/hclient-cli/src/timings.rs:188-235 | succeeds if and only if the format is terminated and every name is known, as the concatenated meanings; otherwise the first offender is named |
| `WriteOut.RendersByCharacter` | crates/hclient-cli/src/timings.rs:188-235 | escapes, doubled and bare percent signs and plain characters, one at a time |
| `WriteOut.RendersVariable` | crates/hclient-cli/src/timings.rs:210-225 | a variable runs to the first closing brace and is its value or named as unknown; one without a brace is reported as unterminated |
| `WriteOut.RenderConcat` | crates/hclient-cli/src/timings.rs:188-235 | rendering distributes over concatenation when the left part does not read on |
| `WriteOut.DoubledRendersToItself` | crates/hclient-cli/src/timings.rs:188-235 | any text with `%` and `\` doubled renders to itself |
| `WriteOut.KnownIsWhatIsAnswered` | crates/hclient-cli/src/timings.rs:237-265 | the names answered are exactly the names advertised |
| `WriteOut.TimesStandFor` | crates/hclient-cli/src/timings.rs:240-251 | name lookup, connect and handshake are cumulative milestones, a handshake that did not happen at zero |
| `WriteOut.LaterTimesStandFor` | crates/hclient-cli/src/timings.rs:252-254 | first byte, total and status |
| `WriteOut.CountsStandFor` | crates/hclient-cli/src/timings.rs:255-257 | version, connections and redirects |
| `WriteOut.PlacesStandFor` | crates/hclient-cli/src/timings.rs:258-259 | the last redirect target and the peer's address, empty when there was none |
| `WriteOut.SizesStandFor` | crates/hclient-cli/src/timings.rs:260-262 | the peer's port, the size and the final URL |
| `RequestItems.ParseItem` | crates/hclient-cli/src/args.rs:98-178 | the earliest separator decides, at its position the longest, with every refusal |
| `RequestItems.AcceptedIsExact` | crates/hclient-cli/src/args.rs:98-178 | an accepted argument is its item's name, separator and value and nothing else |
| `RequestItems.ReparsesIff` | crates/hclient-cli/src/args.rs:98-178 | a printed item parses back to itself if and only if it is spellable |
| `RequestItems.AcceptedIff` | crates/hclient-cli/src/args.rs:98-178 | the accepted arguments are exactly the printed spellable items |
| `RequestItems.NoSeparatorIff` | crates/hclient-cli/src/args.rs:120-125 | refused for want of a separator if and only if the argument has none |
| `RequestItems.EmptyNameIff` | crates/hclient-cli/src/args.rs:126-132 | refused for want of a name if and only if a separator stands in front |
| `RequestItems.UrlIff` | crates/hclient-cli/src/args.rs:155-166 | refused as a URL if and only if it begins with `http://` or `https://` |
| `RequestItems.BadJsonIff` | crates/hclient-cli/src/args.rs:134-146 | refused as bad JSON, with the reason given, if and only if the value behind a first `:=` is not JSON |
| `RequestItems.Spellings` | crates/hclient-cli/src/args.rs:104-114 | how each kind of item is written |
| `RequestItems.SlicesAreText` | crates/hclient-cli/src/args.rs:126-133 | both slices of a valid UTF-8 argument are valid UTF-8 |
| `Utf8.ValidAroundAscii` | crates/hclient-cli/src/args.rs:126-133 | valid text may be cut on either side of any ASCII byte |
| `Headers.EffectiveHeaders` | crates/hclient-cli/src/run.rs:844-864 | the in-place loop computes the fold of the items over the default agent |
| `Headers.FoldDescribesItems` | crates/hclient-cli/src/run.rs:835-864 | at most one entry per name up to ASCII case, the last item of that name unless its value is empty, the default exactly while nothing names it, ordered by the start of each name's unbroken presence |
| `Headers.KeyIff` | crates/hclient-cli/src/run.rs:853 | names are one up to the case of ASCII letters and no further |
| `Headers.LastIs` | crates/hclient-cli/src/run.rs:835-864 | what stands for a name is its last item |
| `Headers.UnnamedIsDefault` | crates/hclient-cli/src/run.rs:848-851 | without an item of that name only the default stands, under `user-agent` |
| `Headers.SinceIs` | crates/hclient-cli/src/run.rs:852-862 | the order is by the start of a presence that has not been broken since |
| `Resolve.AcceptedIff` | crates/hclient-cli/src/run.rs:197-242 | the whole grammar: a spec is accepted as a host and an address if and only if it spells them, bare or bracketed, with or without a port |
| `Resolve.SplitIff` | crates/hclient-cli/src/run.rs:205-220 | a head and an address text come out of a spec if and only if they spell it |
| `Resolve.NamesIff` | crates/hclient-cli/src/run.rs:231-237 | a head names exactly one host: what stands before an all-digit last segment, or all of it |
| `Resolve.RefusedIff` | crates/hclient-cli/src/run.rs:205-240 | which refusal it is: a bracket not closed at the end, no colon, a text that is no address, or no host |
| `Resolve.LongParses` | crates/hclient-cli/src/run.rs:189-242 | the port is dropped whatever the host ends in |
| `Resolve.ShortParses` | crates/hclient-cli/src/run.rs:197-242 | what the form without a port comes to for any head, every error included |
| `Resolve.PortMakesNoDifferenceIff` | crates/hclient-cli/src/run.rs:189-242 | the two forms agree in host, address and every error if and only if both are refused alike or the host neither ends in an all-digit segment nor, before brackets, in a colon |
| `DohChain.AddressLookupClosedForm` | crates/hclient-dns-doh/src/lib.rs:698-767 | at any depth: the first level that does not fail is the answer when it says anything, else the error of the level above it, or nothing at the top; each level down to it is asked once and none below |
| `DohChain.FirstToAnswer` | crates/hclient-dns-doh/src/lib.rs:724-767 | every level above it fails, and it does not |
| `DohChain.LiteralAsksNobody` | crates/hclient-dns-doh/src/lib.rs:716-723 | an IP literal asks no level anything: a V4 one is the one A record and nothing else, a V6 one the one AAAA record and nothing else |
| `DohChain.AddressLookupAsks` | crates/hclient-dns-doh/src/lib.rs:724-826 | type 1 asks for A and type 28 for AAAA; the answer's addresses in order, or the fallback's records, or the level's own error when there are none |
| `DohChain.HttpsIsTopLevelOnly` | crates/hclient-dns-doh/src/lib.rs:827-849 | type 65 asks the top level for HTTPS alone and is its endpoints in order or its one error, whatever the fallback; any other type is nothing and asks nothing |
| `DohChain.FailureIsNeverSilent` | crates/hclient-dns-doh/src/lib.rs:356-372 | over no fallback an address lookup is silent if and only if the top level answered with nothing |
| `Body.Reduce` | crates/hclient-core/src/body.rs:414-431 | succeeds if and only if the terminal body is reached in fewer than sixteen calls, with that body's content, and makes as many calls as the chain is long, or sixteen |
| `Body.SettlesIff` | crates/hclient-core/src/body.rs:414-431 | a chain is over after a number of calls if and only if it ends and takes no more than that |
| `Body.Reduction` | crates/hclient-core/src/body.rs:269-431 | what a body comes to has its content, no bytes being written one way only |
| `Body.RewindsWalkTheChain` | crates/hclient-core/src/body.rs:196-203 | rewinding walks the chain and fails exactly behind a stream |
| `Body.RewindsReduceAlikeIff` | crates/hclient-core/src/body.rs:196-203 | an accepted body reduces alike after any number of rewinds; a refused one stays refused if and only if its chain outlasts the rewinds and another reduction |
| `Body.RewindsForeverIff` | crates/hclient-core/src/body.rs:97-102 | a body can be rewound for ever if and only if its chain never comes to a stream |
| `Body.MayReplayIffRewinds` | crates/hclient-core/src/body.rs:388-393 | `may_replay` of the retry kind holds if and only if `rewind` gives a body |
| `Body.RetryKindIs` | crates/hclient-core/src/body.rs:181-203 | bytes in hand rewind to themselves, a factory to what it makes, and a stream not at all |
| `Body.LookingTellsWhatIsSent` | crates/hclient-core/src/body.rs:222-246 | a length told is the reduced length, bytes shown are the bytes sent, and neither depends on any factory |
| `Body.DocumentedBoundIff` | crates/hclient-core/src/body.rs:411-431 | a body is refused if and only if its chain takes sixteen calls or more, or never ends; as documented, more than sixteen; the two agree if and only if it does not take exactly sixteen |
| `Body.SixteenthCallIsWasted` | crates/hclient-core/src/body.rs:484-498 | sixteen factories are refused though the last makes an empty body; fifteen are accepted |
| `Body.EndlessIsRefused` | crates/hclient-core/src/body.rs:414-431 | a factory that makes itself is refused, after any number of rewinds |

## Left out

- Async plumbing, pinning, wakers, `Send` bounds and erasure: a poll is one step.
- Sockets, TLS, HTTP sending, signals, the stdin thread and file reads: choices of the environment.
- Failures of the output while JSON, SSE or header text is being written; the session loop does model a failed write.
- Colour styles, which are zero-width text.
- Weak memory ordering: each atomic is one sequentially consistent location.
- Sharing and poisoning of the store's lock: each store operation is one step.
- DNS messages, `exchange`, IP address parsing and JSON validation of a raw item: functions given as parameters.
- `supports` of the resolvers, settled by reading one line.
- Number formatting: a JSON number is its text, and a write-out time is printed by a function given as a parameter.
- Sub-millisecond retries, which the decoder cannot produce.
- `LineSplitter::take_unterminated`, which the SSE decoder does not call.
- ExposedMajors.ExposedCrates: a value of the wrong JSON type where the script expects a list counts as absent; identifiers are integers.
- Hooks.HandoverIsSingleFlight: that polls of one exchange do not overlap is taken from the exclusive borrow `poll` needs, and is not itself a theorem.
- Redirects, pools, timeouts, exit codes, mode refusals and capability tables: each claim is settled by reading one branch.
- The other scripts and the mutation harnesses, which drive processes.

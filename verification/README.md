# FremSoft playback, modelled and proved

FremSoft stands in for a vehicle-diagnostics interface. A shim logs the traffic between a client and a real
interface; a converter turns the log into a JSON recording; a loader reads the recording; a replay engine answers the
client's requests from it, through one scheduler of timed events. This project models that chain from the characters of
the log, through the characters of the recording file and its tokenizer, to the event item in the client's hands, and
proves what the parts promise each other.

## How the model is laid out

| file | part of the system |
|---|---|
| Bytes, Seqs | machine integers and sequence combinators |
| Text, HexCodec | number and hex text: printf, Python's format, strtoul, bytes.fromhex |
| LogFormat | the log printers and the converter's line scanner |
| Converter | pairing, indexing and the JSON document |
| Json, JsonText, JsonEscape | JSON values, their flattened tokens, the texts that spell them, and what json.dumps writes |
| Jsmn, JsmnMeaning, JsmnAccepts | the tokenizer over the characters of a file, what it finds in a text, and which texts it accepts |
| Recording, RecordingMeaning | the loader's cursor walk and lookup; what the walk means on documents |
| EventQueue, Scheduler | the scheduler's list as a value, and as heap nodes relinked in place |
| Replay, RunProperties | the replay engine as a state machine, and what holds in every run |
| LinkRefinement, EngineLinks, LinkAlone | the shared list against one list per link; links in engine runs |
| Interleaving, Delivery | arbitrary orders of the lock-protected steps; the delivery thread |
| DueOrder | when delivery is in due order, and when not |
| EndToEnd, Playback | log to tape to scheduled events to delivered events |
| ActivityLog, Reconversion, SelfReplay | the engine's own log, converted again |
| Engine, Session | the engine over heap and log, and complete sessions of it |

Code that changes state is modelled by methods over classes and arrays, each tied to a function of the old state; the
theorems are lemmas about those functions. Machine widths are explicit: 32-bit handles and identifiers, 64-bit times,
the 32-bit unsigned long of Windows.

## The main results

1. **Replay fidelity** (`EndToEnd.RequestFidelity`, `EndToEnd.ReplayFidelity`, `Playback.CaptureReachesClient`). Print
   a capture among any other log lines, convert, load, and repeat a captured request whose two upper header bytes are
   zero and which no earlier request agrees with behind them. If its responses up to the gap cap have zero upper
   header bytes too and follow each other by 0 to 2^32 - 1 ms, exactly they are scheduled, byte for byte, with their
   captured distances in time; and in every run of fewer than 2^32 starts whose due times fit 64 bits, what the client
   receives for it is a prefix of them, and all of them once a poll finds the link empty after the last is due and no
   cancel came before. Captures with a monotone clock and zero upper header bytes throughout, converted with a gap cap
   below 2^32 ms, meet this for every request that is the first with its bytes.
2. **When fidelity fails** (`EndToEnd.FaithfulReplayIff`, `EndToEnd.ExactReplayIff`, `EndToEnd.ShadowedReplay`,
   `EndToEnd.HiddenRequest`). As long as due times fit 64 bits, a captured request is answered from its own record
   exactly as captured if and only if the conditions of item 1 hold. What the client sees is exact, wherever it comes
   from, if and only if the bucket of the first request that agrees looks like the request's own (same number, same
   bytes once shortened, same distances), or, with a nonzero header, what was captured is one refusal 50 ms later.
   `EndToEnd.HiddenRequest` is a capture in which a request with a nonzero header hides a later one that is not the same
   request.
3. **From characters to a recording** (`JsmnMeaning.TextTokenized`, `RecordingMeaning.LoaderRoundTrip`,
   `RecordingMeaning.LoaderReadsSpliced`, `JsmnAccepts.AcceptedIff`). Any text, in any layout, that spells a document representing a recording, in
   any member order and with unknown scalar members, is tokenized to the document's tokens in both passes and loads as
   that recording. Objects under unknown top-level keys are walked into, so the last exchanges array of the document
   with them spliced open decides. A document's own array survives if and only if no array follows it there, or the
   last that does means the same (`RecordingMeaning.OwnExchangesSurviveIff`). A file is loaded at all if and only if its
   strings and primitives scan, its brackets nest, and the first character of any weight is an opening brace
   (`RecordingMeaning.LoadedIff`). The tokenizer's search for open tokens succeeds and fails exactly as a stack of
   brackets does (`JsmnAccepts.ParseVerdict`). A text spells one value at most (`JsmnMeaning.SpelledOnce`), so what the
   converter's file says of the recording is fixed (`Converter.MetadataWritten`), and so is what the loader takes from it
   (`RecordingMeaning.NamesLoaded`, `EndToEnd.ConvertedNames`).
4. **Whole-run scheduling** (`RunProperties`, `EngineLinks`, `LinkAlone`, `DueOrder`). For every sequence of starts, polls
   and cancels: conservation and no early delivery. With fewer than 2^32 starts, so that handles do not repeat:
   independence of links (drop all calls of other links, and a link's answers change in nothing but the handles); and,
   if due times also fit 64 bits, order per primitive. With due times that fit: history independence; and, on a
   nondecreasing clock besides, bounded inversion, and the exact condition for due order: what a link delivers up to an
   empty poll, whatever is called in between, is in due order if and only if no delivering poll passes over a ready
   event that is due before the one it hands out and is not canceled first. A run with an inversion is given, and one
   in which only the moving clock makes it (`DueOrder.MovingClockInverts`).
5. **The list and its memory** (`Scheduler`, `Interleaving`, `Session`). Append, pop and cancel on linked nodes do to
   the list what the value operations say; every node and buffer is freed exactly once in every interleaving.
6. **Re-conversion** (`Reconversion.ReconversionIff`, `Reconversion.ReconversionFixpoint`,
   `SelfReplay.EngineLogReconverts`). The log of any session converts back into a tape that knows exactly what was asked
   for. It repeats the answer to the first call that asked if and only if every reply of that answer has a 16-bit id and
   at least one UDS byte and the call's lines keep within the gap cap. Refusals of unknown requests meet this up to
   request id 0xFBFF (`Reconversion.RefusalCarriedIff`).
7. **The delivery thread** (`Delivery.CallsBackIff`, `Delivery.DueEventCallsBack`). Under every interleaving the thread
   calls back if and only if a snapshot took the registration, the first peek after it saw a due event of the registered
   link, and it has not called back since. A round whose peek sees one does call back, whatever the other threads do in
   between, and two callbacks never share a snapshot or a peek.
8. **Plain numbers** (`Replay.UnknownRefused`, `Replay.KnownAnswered`, `Replay.PollTakes`, `ActivityLog.RequestLogged`,
   `Text.StrToUlReads`, `HexCodec.FromHexMeans`). What a request is answered, what a poll takes, what a log line holds
   and what each number text denotes is also stated without the model's own functions, in literal bytes, characters and
   positions.

## Where code and documentation differ

The code is followed. Lookup is a stateless linear scan, neither the hash map of `src/recording.h:3` nor the consumed
queue of `docs/design.md:84-92`. Pop takes due events in insertion order, which need not be due order
(`DueOrder.InversionReachable`). The header's ordered list per (hMod, hCLL) (`src/scheduler.h:5-12`) is one shared
list, shown to behave as a list per link. There is one callback slot. Only CoPType 0x8010 is replayed. Cancel and
destroy are stated for `scheduler_*` and `fremsoft_*`, not for the exported symbols, which forward elsewhere. The
loader's nested walk takes two tokens per unknown member, whatever the member's value.

## Model

| member | source | states |
|---|---|---|
| Bytes.BigEndianRoundTrip | src/fremsoft.c:254-257 | reading the four prefix bytes the engine writes gives back every 32-bit CAN-ID |
| Bytes.FromBigEndianRoundTrip | src/fremsoft.c:218-222 | writing the CAN-ID read from any four request bytes gives back those bytes |
| Bytes.ShortIdHeader | tools/build_recording.py:56-59 | a CAN-ID fits the converter's 16 bits exactly when both upper header bytes are zero |
| Text.CanIdRoundTrip | src/recording.c:58-65 | every 32-bit CAN-ID survives "0x%04X" and the base-16 parse |
| Text.DelayCodec | src/recording.c:187-194 | what any integer delay becomes through decimal text, the 15-character buffer and a saturating 32-bit strtoul: clamped when too large in magnitude, negated modulo 2^32 when negative |
| Text.DelaySurvives | src/recording.c:187-194 | a delay is loaded unchanged if and only if it lies in [0, 2^32) |
| Text.DigitTable | src/recording.c:74-79 | the printed digits are 0-9A-F or 0-9a-f, and exactly these characters are read, each as its place in the table |
| Text.LeadingDigit | src/recording.c:64 | in what a digit string denotes its first digit weighs the base to the number of digits behind it |
| Text.StrToUlReads | src/recording.c:64 | every text is read as its white space, sign, prefix and digits say, saturating at 2^32 - 1, a minus negating modulo 2^32 |
| Text.CanIdText | tools/build_recording.py:136 | the six characters of a written CAN-ID: 0x and four upper-case digits |
| Text.CanIdReads | src/recording.c:57-65 | up to 15 characters that start with hex digits of either case, with or without 0x or 0X, are read as these digits say, clamped; the empty text and a longer one as 0 |
| Text.DelayReads | src/recording.c:187-192 | the number at the start of the first 15 characters of any text |
| HexCodec.ParseHexBytes | src/recording.c:68-85 | never writes beyond half the text's length and yields the bytes of the hex digits in pairs, an odd last digit dropped |
| HexCodec.HexRoundTrip | src/recording.c:68-85 | parse_hex_bytes inverts the spaced lower-case and upper-case printers for every byte sequence |
| HexCodec.SpacedText | shim/cstech2win/src/log.c:80-83 | the printed bytes character by character: two digits of the case asked for at 3k and 3k + 1, a blank between two bytes |
| HexCodec.OnlyDigitsMatter | src/recording.c:68-85 | texts with the same hex digits, whatever case and filling, decode alike |
| HexCodec.FromHexOfSpaced | tools/build_recording.py:51 | removing spaces and bytes.fromhex recover every logged byte sequence |
| HexCodec.OnlyBlanksGo | tools/build_recording.py:51 | before decoding, the blanks go and nothing else |
| HexCodec.FromHexReads | tools/build_recording.py:51 | every text that is digit pairs with any white space before, between and after them decodes to their bytes |
| HexCodec.FromHexMeans | tools/build_recording.py:51 | whatever decodes is such a text, of exactly the bytes decoded |
| LogFormat.LogFile.LogHex | shim/cstech2win/src/log.c:75-87 | the byte loop appends exactly one hex line and a newline to the file |
| LogFormat.LineFields | shim/cstech2win/src/log.c:78-85 | a printed line is six pipe-free fields: clock, thread, HEX and two blanks, tag, len= and the number of bytes, the bytes |
| LogFormat.JoinedOnce | tools/build_recording.py:38-41 | a text is a row of pipe-free fields in one way at most |
| LogFormat.SplitJoined | tools/build_recording.py:46 | splitlines undoes writing lines with newlines when no line contains a line break |
| LogFormat.LineEnds | tools/build_recording.py:46 | exactly ten characters end a line |
| LogFormat.MatchComplete | tools/build_recording.py:38-41 | every line of the pattern's shape is matched, with exactly its ms, kind and hex groups |
| LogFormat.MatchSound | tools/build_recording.py:38-41 | every matched line has the pattern's shape, so matching and the grammar coincide |
| LogFormat.ParseLog | tools/build_recording.py:44-62 | collects, in order, the frames of the lines that match, decode and hold at least five bytes |
| LogFormat.ParseLineReads | tools/build_recording.py:47-62 | a line of the pattern's shape is read as a frame if and only if its hex text decodes to at least five bytes: time, direction, the id in bytes 2 and 3, the rest |
| LogFormat.ParseLineMeans | tools/build_recording.py:47-49 | no other line is read |
| LogFormat.LineRoundTrip | tools/build_recording.py:47-62 | a printed line is read back as its frame if it is traffic of at least five bytes and skipped otherwise |
| LogFormat.LogFileRoundTrip | tools/build_recording.py:44-62 | printing any records among comments and other shim lines and parsing the file gives exactly the traffic, in order |
| Converter.TxIndicesExact | tools/build_recording.py:79-80 | the indices exchanges are made for are all request positions, each once, in log order |
| Converter.PairExchanges | tools/build_recording.py:69-107 | one exchange per request in log order, its responses the longest following run with no request and no gap over the cap, each with its delay from the frame before |
| Converter.RecordedIffReached | tools/build_recording.py:92-97 | a response is kept in some exchange if and only if a request precedes it with no break between |
| Converter.BucketsDisjoint | tools/build_recording.py:80-82 | no request's run of responses reaches past a later request |
| Converter.DelaysTelescope | tools/build_recording.py:98-104 | prefix sums of an exchange's delays are the distances from its request |
| Converter.IndexByRequest | tools/build_recording.py:110-151 | writes the first exchange of every key as JSON, in order; counts exactly the later ones whose first exchange has another number of responses or other response bytes, and names the first five of them by id and first four bytes |
| Converter.FirstWinsDistinct | tools/build_recording.py:121-134 | the index holds no key twice |
| Converter.FirstWinsLookup | tools/build_recording.py:121-134 | the first entry with any key is the log's first exchange with it, and is missing exactly when no exchange has the key |
| Converter.FirstWinsIdempotent | tools/build_recording.py:116-147 | indexing an index changes nothing |
| Converter.Convert | tools/build_recording.py:173-199 | the file text of any log text: its frames parsed, paired, indexed, wrapped with the metadata and written |
| Converter.DocumentSpelled | tools/build_recording.py:187-199 | for any metadata and exchanges the file text spells the document |
| Converter.MetadataWritten | tools/build_recording.py:187-193 | any value the file's text spells has each of the four metadata keys exactly once, with a string that denotes the metadata, and the exchanges |
| Converter.ExchangeText | tools/build_recording.py:134-147 | ids are written as 0x and four upper-case digits, bytes as lower-case pairs, in the request and in every response |
| Json.FlattenStands | src/vendor/jsmn.h:64-68 | the pre-order tokens of any value stand at their place in any token array, as many as the value's size |
| Json.StandsOnce | src/vendor/jsmn.h:64-68 | the tokens at a place are those of one value at most |
| Jsmn.ScanString | src/vendor/jsmn.h:193-263 | finds the closing quote past escapes, or reports a bad escape or an unfinished string |
| Jsmn.ScanPrimitive | src/vendor/jsmn.h:135-188 | stops at the first delimiter or the end, and rejects unprintable characters |
| Jsmn.CountTokens | src/vendor/jsmn.h:268-453 | the pass without tokens terminates on every text and returns its count or its scan error |
| Jsmn.Parser.TakeClose | src/vendor/jsmn.h:308-360 | closes the innermost open token of the same type, makes the next open one outside it superior, and rejects anything else |
| Jsmn.Parser.TakeSeparator | src/vendor/jsmn.h:379-396 | after a key's value the innermost open container is superior again |
| Jsmn.Parser.Run | src/vendor/jsmn.h:268-453 | on every text and token array the in-place parser ends with the tokens or the error of the step function, no write outside the array |
| JsmnMeaning.ParsedInText | src/vendor/jsmn.h:268-453 | for every text a successful parse leaves only closed tokens lying inside it |
| JsmnMeaning.PassesAgree | src/recording.c:99-107 | for every text the counting pass counts exactly the tokens of a successful parse, and the second pass never runs out of the tokens counted |
| JsmnMeaning.RoomSuffices | src/vendor/jsmn.h:106-119 | a larger token array never changes the outcome |
| JsmnMeaning.ParseValue | src/vendor/jsmn.h:268-453 | from any parser state, a spelled value adds one child and exactly its pre-order tokens, all closed |
| JsmnMeaning.TextTokenized | src/vendor/jsmn.h:268-453 | a text that spells a value, in any layout, is counted and tokenized to exactly that value's tokens |
| JsmnMeaning.SpelledOnce | src/vendor/jsmn.h:268-453 | a text spells one value at most |
| JsmnAccepts.StringEndIff | src/vendor/jsmn.h:193-263 | a string is scanned to a position if and only if a quote stands there and a body before it: no bare quote, backslash or NUL, and only the eight short escapes and \u with four digits |
| JsmnAccepts.PrimitiveEndIff | src/vendor/jsmn.h:135-188 | a primitive is scanned to a position if and only if printable characters that end nothing stand before it and a delimiter, a NUL or the end there |
| JsmnAccepts.ParseVerdict | src/vendor/jsmn.h:304-378 | on every text the backward search for open tokens succeeds, or fails with the same error, as a stack of brackets does |
| JsmnAccepts.AcceptedIff | src/vendor/jsmn.h:268-453 | a text is accepted if and only if its strings and primitives scan, there is room for its tokens, and every bracket is closed by its own kind, innermost first |
| JsmnAccepts.ParsedMarked | src/vendor/jsmn.h:268-453 | for every text, after a successful parse each object and array token spans a pair of brackets of its kind, each string token stands between quotes, each primitive token holds no delimiter |
| JsmnAccepts.FirstIsObject | src/recording.c:108 | the first token is an object if and only if the first character that is no blank, colon or comma is an opening brace |
| JsonText.DumpsSpell | tools/build_recording.py:199 | indented output spells its value wherever it stands, for every nesting |
| JsonText.DumpedTextSpells | tools/build_recording.py:199 | what json.dumps writes for any writable value spells it |
| JsonText.DumpedList | tools/build_recording.py:199 | a list in its written layout, two blanks of indentation per level |
| JsonText.DumpedObject | tools/build_recording.py:199 | an object in its written layout |
| JsonEscape.EscapeIsRaw | tools/build_recording.py:199 | the escaped form of any string, surrogate pairs included, scans as one string token |
| JsonEscape.UnescapeEscape | tools/build_recording.py:199 | the escaped form of any string denotes that string under section 7 of RFC 8259 |
| JsonEscape.PlainEscape | tools/build_recording.py:134-143 | printable text without quotes and backslashes is written as it is |
| JsonEscape.ShortEscapes | tools/build_recording.py:199 | the seven short escapes |
| JsonEscape.PrintableKept | tools/build_recording.py:199 | other printable ASCII is written as it is |
| JsonEscape.UnitWritten | tools/build_recording.py:199 | every other character below 16 bits is \u and four lower-case digits |
| JsonEscape.PairWritten | tools/build_recording.py:199 | every character beyond 16 bits is its two surrogate units |
| Recording.LoadTx | src/recording.c:146-163 | the tx loop reads inside the token array, fills only entry e, and leaves cursor and entry as the walk says |
| Recording.LoadResponse | src/recording.c:175-196 | the response loop fills only entry rx, each write inside the array, and leaves the cursor as the walk says |
| Recording.LoadRx | src/recording.c:166-198 | the rx loop allocates one zeroed entry per element and skips non-objects by one token |
| Recording.LoadExchange | src/recording.c:142-200 | the member loop fills only entry e; an unknown member takes two tokens |
| Recording.LoadExchanges | src/recording.c:135-201 | the exchange loop allocates one zeroed entry per element and fills them in order |
| Recording.RecordingLoad | src/recording.c:107-206 | terminates on every token array with every read inside it, and leaves id, vehicle and exchanges as the walk says |
| Recording.UnknownTakesTwo | src/recording.c:162-205 | whatever the tokens: only a string is a key, and what is no key of the loop it stands in sets nothing and takes two tokens |
| Recording.WrongKindTakesTwo | src/recording.c:133-199 | so does a tx not followed by an object, an rx or exchanges not followed by an array |
| Recording.OtherElementsTakeOne | src/recording.c:141-174 | an element that is no object takes one token and leaves its entry zeroed |
| Recording.LoadFile | src/recording.c:89-213 | from any characters: both tokenizer passes and the walk, or no recording on any error |
| Recording.WalkMember | src/recording.c:145-199 | whatever the tokens, one member advances the cursor by at least two |
| Recording.WalkExchanges | src/recording.c:139-201 | whatever the tokens, the entries keep their number and the cursor never moves back |
| Recording.SameBytes | src/recording.c:237 | memcmp of equal lengths is zero exactly when the bytes agree |
| Recording.RecordingLookup | src/recording.c:228-240 | returns the first entry with the CAN-ID, length and bytes, nothing if there is none |
| Recording.LookupDetermined | src/recording.c:233-239 | an entry with the key and none before it is the one lookup returns |
| Recording.SkippedEntriesInvisible | src/recording.c:235-237 | a zero-filled entry anywhere changes no lookup of a request with at least one UDS byte |
| RecordingMeaning.WalkTxMeaning | src/recording.c:148-163 | at a member boundary the tx loop computes the members' meaning and stops at the boundary after them |
| RecordingMeaning.WalkRxMeaning | src/recording.c:171-198 | at an element boundary the rx loop fills the remaining entries with the elements' meaning and stops after them |
| RecordingMeaning.WalkExchangesMeaning | src/recording.c:139-201 | at an element boundary the exchange loop fills the remaining entries with their meaning and stops after them |
| RecordingMeaning.WalkTopMeaning | src/recording.c:119-206 | the outer loop reads the document with every object under an unknown key spliced open, and stays on member boundaries |
| RecordingMeaning.LoadMeaning | src/recording.c:107-206 | loading any token array of such a document yields its meaning |
| RecordingMeaning.LoadTextMeaning | src/recording.c:89-213 | loading any text that spells such a document yields its meaning |
| RecordingMeaning.LoadedIff | src/recording.c:97-111 | exactly the files a recording is loaded from: texts the tokenizer accepts that start, blanks, colons and commas aside, with an opening brace |
| RecordingMeaning.NamesLoaded | src/recording.c:121-132 | the id is made of the texts under recording_id and the vehicle of those under vehicle_profile, each at most 127 characters of them, later ones written over earlier ones from the start |
| RecordingMeaning.OverlaidOnce | src/recording.c:121-132 | that determines the field |
| RecordingMeaning.NamesLoadedOnce | src/recording.c:121-132 | where each key occurs once at most: the first 127 characters of its text, or nothing |
| RecordingMeaning.LoaderRoundTrip | src/recording.c:89-213 | any text of a document representing a recording loads as exactly that recording, for any layout, any member order at any level and with unknown scalar members |
| RecordingMeaning.NoArrayKeeps | src/recording.c:132-202 | members without an array leave the exchanges as they are |
| RecordingMeaning.LastArrayWins | src/recording.c:132-202 | the last array-valued member alone decides the exchanges |
| RecordingMeaning.LoaderReadsSpliced | src/recording.c:203-205 | with nested objects under unknown keys, what is loaded is a given recording if and only if the last exchanges array of the spliced document means it, or it is empty and there is none |
| RecordingMeaning.LoaderReadsRepresented | src/recording.c:203-205 | in particular the recording is rebuilt when the spliced document represents it |
| RecordingMeaning.OwnExchangesSurviveIff | src/recording.c:132-205 | a document's own exchanges are read if and only if the members after them, spliced, contain no array or their last one means the same |
| RecordingMeaning.NestedBeforeIsDisplaced | src/recording.c:203-205 | for any two lists: exchanges nested in an earlier unknown object do no harm |
| RecordingMeaning.NestedExchangesDisplace | src/recording.c:203-205 | for any two lists: exchanges nested in a later unknown object replace the document's own |
| EventQueue.FirstReady | src/scheduler.c:85-99 | the walk stops at the least position whose event is the link's and due |
| EventQueue.PopEmptyIff | src/scheduler.c:87-101 | a poll finds nothing if and only if no event of the link is due |
| Scheduler.OwnedWithout | src/scheduler.c:178-179 | with separate buffers, dropping a node gives up exactly that node and its buffer |
| Scheduler.DropKeeps | src/scheduler.c:92 | dropping a node keeps the others live, separate and distinct from it |
| Scheduler.Scheduler.Push | src/scheduler.c:59-77 | the contents become the old contents and the event; the buffer passes from the caller to the list |
| Scheduler.Scheduler.Append | src/scheduler.c:68-74 | relinking the tail or the head yields the old nodes and the new one, still acyclic and separate |
| Scheduler.Scheduler.Unlink | src/scheduler.c:92 | redirecting the predecessor or the head takes out exactly the node at its position |
| Scheduler.Scheduler.PopDue | src/scheduler.c:79-102 | result and contents are those of the value queue's pop; only the node is freed and its buffer passes to the caller |
| Scheduler.Scheduler.CancelCop | src/scheduler.c:168-186 | the contents become the events of other primitives in their order, head and consecutive matches included; node and buffer of each removed one are freed once |
| Scheduler.Scheduler.FreeAll | src/scheduler.c:44-57 | afterwards nothing the list owned is allocated, and nothing else was freed |
| Scheduler.Scheduler.PeekDue | src/scheduler.c:135-143 | true exactly when a due event of the link is queued |
| Scheduler.Scheduler.DeliveryRound | src/scheduler.c:123-147 | a round that no other thread comes between calls back the registered callback with its link if and only if there is one and a due event of the link is queued |
| Scheduler.Scheduler.SetCallback | src/scheduler.c:110-119 | callback and link are written together, the list untouched |
| Replay.FitsInPractice | src/fremsoft.c:235-239 | no due time wraps 64 bits below 2^63 microseconds with at most 2^20 responses per exchange |
| Replay.DueTimes | src/fremsoft.c:235-239 | without wrap the i-th response is due the sum of the first i+1 delays after the call |
| Replay.UnknownRefused | src/fremsoft.c:266-292 | a request no entry was recorded for gets one result for its link, handle and tag, 50 ms later in 64-bit microseconds: its id plus 0x400 in 32 bits, then 7F, its service, 11 |
| Replay.KnownAnswered | src/fremsoft.c:228-262 | a request is answered from the first entry recorded for it: a result per response, its id in four bytes and its bytes behind, each due the sum of the delays so far after the call in 64-bit microseconds |
| Replay.OthersIgnored | src/fremsoft.c:205-214 | any other primitive, and one of fewer than five bytes, schedules nothing |
| Replay.PollTakes | src/fremsoft.c:326-335 | a poll takes the first queued event of its link that is due, and nothing else; without one it reports an empty queue |
| RunProperties.Conservation | src/scheduler.c:59-102 | in every run each scheduled event is delivered once, canceled once, or still queued |
| RunProperties.HandleGiven | src/fremsoft.c:42-200 | a start is given 0x10000 and the number of starts so far in 32 bits, and reports it |
| RunProperties.HandlesCollideIff | src/fremsoft.c:199 | two starts get the same handle if and only if a multiple of 2^32 starts lies between them |
| RunProperties.HandlesDistinct | src/fremsoft.c:199 | handles of fewer than 2^32 starts are all different |
| RunProperties.ScheduledInOrder | src/fremsoft.c:234-262 | when due times fit 64 bits, one call's events come in nondecreasing due order, none before the call |
| RunProperties.HandleIsNew | src/fremsoft.c:199 | in a run of fewer than 2^32 starts, nothing was ever scheduled under the handle a start is about to get |
| RunProperties.PopTakesFirst | src/scheduler.c:87-99 | although pop skips events, taking one out takes out the first of its primitive |
| RunProperties.PrimitiveOrder | src/fremsoft.c:235-262 | in every reachable state of a run of fewer than 2^32 starts whose due times fit 64 bits, per primitive, delivered then canceled then queued events are the scheduled list, and nothing is queued once some was canceled |
| RunProperties.DeliveryIsPrefix | src/fremsoft.c:326-363 | under the same bounds, what a caller received for a primitive is a prefix of its scheduled list, in due order |
| RunProperties.NeverEarly | src/fremsoft.c:332-335 | no event is handed out before its due time |
| RunProperties.QueuedAfterLastEmpty | src/fremsoft.c:332-335 | on a nondecreasing clock, due times fitting 64 bits, every queued event of a link is due no earlier than the link's last empty poll |
| RunProperties.BoundedInversion | src/scheduler.c:87-99 | on a nondecreasing clock, due times fitting 64 bits: if e is delivered before an earlier-due f of its link, f is earlier by no more than the time from the last empty poll to e's delivery |
| DueOrder.PollingTakesReady | src/scheduler.c:85-99 | while a link is polled at one clock reading, what was delivered and what is still ready make up what was ready |
| DueOrder.DrainAtOnceDelivers | src/scheduler.c:85-99 | polling a link at one clock reading, with no other call between, until it is empty delivers exactly its ready events, in queue order |
| DueOrder.DrainDeliversDue | src/fremsoft.c:332-335 | whatever is called in between and however the clock moves: by an empty poll every event of the link queued at an earlier call and due by now has been delivered, unless a cancel took it first |
| DueOrder.DrainAtOnceInOrderIff | src/scheduler.c:65-67 | a drain at one clock reading with no other call between is in due order if and only if no ready event of the link stood in the queue behind one due later |
| DueOrder.DrainInDueOrderIff | src/scheduler.c:65-99 | on a nondecreasing clock, due times fitting 64 bits, with any calls of any link between the polls: a link's deliveries up to an empty poll are in due order if and only if no delivering poll passes over a ready event due before the one it hands out and not canceled first |
| DueOrder.DrainWithoutCancels | src/scheduler.c:65-99 | without cancels: if and only if every delivering poll hands out an earliest-due one of the link's ready events |
| DueOrder.MovingClockInverts | src/fremsoft.c:332-335 | a run that meets the one-reading condition before its first poll and still delivers what is due at 1, 5 and 3 ms, because the clock moves between the polls |
| DueOrder.InversionReachable | src/scheduler.c:65-67 | a run on a monotone clock in which an event due at 5 ms is delivered before one of its link due at 3 ms |
| RunProperties.DueIsServed | src/fremsoft.c:332-335 | while an event of the link is queued and due, a poll delivers something |
| RunProperties.HistoryIndependence | src/fremsoft.c:228-295 | when due times fit 64 bits, equal requests anywhere in a run schedule the same payloads, shifted by the difference of their start times, matches and negative responses alike |
| LinkRefinement.PopProjects | src/scheduler.c:85-99 | pop commutes with projection onto the polled link and leaves every other link's projection alone |
| LinkRefinement.CancelProjects | src/scheduler.c:171-184 | cancel commutes with projection onto every link |
| LinkRefinement.SharedRefinesPerLink | src/scheduler.h:5-12 | for every sequence of operations the shared list answers exactly as one ordered list per link would |
| LinkRefinement.Noninterference | src/scheduler.c:59-102 | dropping every operation that is not the link's own changes nothing its polls return |
| LinkRefinement.SameOwnSameAnswers | src/scheduler.c:59-102 | two operation sequences that agree on a link's pushes, polls and cancels give that link the same answers |
| EngineLinks.RunIsOps | src/fremsoft.c:193-363 | a run of API calls is the run of its pushes, pops and cancels, with the same queue and the same poll answers |
| EngineLinks.LinksStayApart | src/fremsoft.c:326-335 | in every run a link's polls return what they would with only its own pushes, polls and cancels |
| EngineLinks.PushOrigin | src/fremsoft.c:240-242 | every pushed event bears link and handle of one start of the run |
| EngineLinks.HandlesBelongToOneLink | src/fremsoft.c:199 | no handle is used by two links in fewer than 2^32 starts |
| LinkAlone.AnswersAlone | src/fremsoft.c:193-363 | in a run of fewer than 2^32 starts, dropping every call of the other links leaves a link's polls returning the same events, due times, payloads and tags; only handles are counted afresh |
| LinkAlone.RenamedDistinct | src/fremsoft.c:199 | in that renaming a link's different handles stay different |
| Interleaving.InterleavingConserves | src/scheduler.c:59-186 | for every order of lock-protected steps, what was pushed is popped once, canceled once, or still queued |
| Interleaving.PerformAll | src/scheduler.c:44-186 | any order of the steps on the linked nodes, popped buffers freed by their callers at any later time, then scheduler_free: exactly the popped events are handed out and nothing stays allocated |
| Interleaving.PerformRelease | src/fremsoft.c:356-359 | freeing one held buffer keeps the queue and every other held buffer |
| Delivery.CallbacksAreSound | src/scheduler.c:121-149 | under every interleaving a fired callback and link were registered together, were current at the snapshot, and a due event of that link was queued at the peek |
| Delivery.OnlyLastRegistrationFires | src/scheduler.c:115-117 | a snapshot after a registration sees that one, whatever link was registered before |
| Delivery.CallbackFindsEvent | src/scheduler.c:133-144 | the event seen at the peek makes every later poll of the link succeed unless some step removes it first |
| Delivery.CallsBackIff | src/scheduler.c:123-145 | under every interleaving the thread calls back if and only if a snapshot took the registration, the first peek after it saw a due event of the registered link, and it has not called back since |
| Delivery.CallbacksApart | src/scheduler.c:125-146 | between two callbacks there is a new snapshot and a new peek that saw a due event |
| Delivery.DueEventCallsBack | src/scheduler.c:123-145 | progress: a round whose peek sees a due event of the last registered link calls back, whatever other threads do in between, and ends at the top of the loop |
| Delivery.NothingDueNoCallback | src/scheduler.c:137-145 | a round that sees nothing due ends at the top of the loop |
| Delivery.RoundEnds | src/scheduler.c:125-146 | from wherever the thread is, a peek and a call bring it to the top of the loop |
| Delivery.SlotHolds | src/scheduler.c:110-119 | the slot holds the last registration |
| Delivery.QueueIsOthers | src/scheduler.c:133-143 | the thread never changes the queue: it is what the other threads' pushes, pops and cancels make it |
| EndToEnd.ConvertedDocumentLoads | tools/build_recording.py:134-147 | whatever exchanges the converter writes, the loader reads back one by one from any layout of the file, delays as the 32-bit field holds them |
| EndToEnd.TapeOfConverted | tools/build_recording.py:187-199 | in particular from the text json.dumps writes |
| EndToEnd.DocumentNames | src/recording.c:121-132 | the names loaded from any text of a converted document are as much of the escaped metadata as the fields take |
| EndToEnd.ConvertedNames | tools/build_recording.py:187-189 | from any log file: plain id and vehicle of at most 127 characters are loaded as given to the converter |
| EndToEnd.LookupAfterConversion | src/recording.c:228-240 | after conversion and loading a request finds the exchange of the first request frame with its key, nothing exactly when there is none |
| EndToEnd.CaptureFrames | tools/build_recording.py:44-62 | a printed capture parses to the frames of its traffic records |
| EndToEnd.OwnRequest | tools/build_recording.py:56-59 | a request record yields the frame its own bytes ask for if and only if its upper header bytes are zero |
| EndToEnd.ShortenedIff | tools/build_recording.py:56-60 | replaying a record changes it exactly when an upper header byte is not zero |
| EndToEnd.ReplayOfCapture | src/fremsoft.c:228-295 | for any request against any converted capture: the bucket of its first request record, or the negative response |
| EndToEnd.TimingExactIff | tools/build_recording.py:98-104 | accumulated loaded delays equal the captured distances if and only if each frame follows the one before by 0 to 2^32 - 1 ms |
| EndToEnd.RequestFinds | src/recording.c:228-240 | a captured request finds the first request record that agrees with it behind the upper header bytes if its own are zero, and nothing otherwise |
| EndToEnd.FindsOwnRecordIff | src/recording.c:228-240 | it finds its own record if and only if its upper header bytes are zero and no earlier request agrees with it behind them |
| EndToEnd.BucketReplayIff | src/fremsoft.c:233-262 | when due times fit 64 bits, whichever record is found, its bucket is replayed exactly if and only if its responses have short headers and gaps the delay field holds |
| EndToEnd.FaithfulReplayIff | src/fremsoft.c:233-262 | when due times fit 64 bits, for any capture and any request of it, being answered from its own record exactly as captured is equivalent to conditions on the capture alone: zero upper header bytes, no earlier request agreeing behind them, short response headers, gaps the delay field holds |
| EndToEnd.ExactReplayIff | src/fremsoft.c:218-295 | when due times fit 64 bits, what a repeated captured request is answered is exactly what was captured after it if and only if the bucket of the first request sharing its key looks like its own, or, with a long header, its own is one short-headed refusal 50 ms later |
| EndToEnd.LooksLikeIff | src/fremsoft.c:233-262 | replaying one record's bucket passes for another's exactly when they agree in number, shortened bytes and loaded distances |
| EndToEnd.ShadowedReplay | src/fremsoft.c:233-262 | when due times fit 64 bits, a request that an earlier one agrees with gets the responses captured after the first such one |
| EndToEnd.HiddenRequest | tools/build_recording.py:56-59 | a capture in which a request with a nonzero header hides a later request, whose replay is then not its own |
| EndToEnd.HidingLooksFaithful | tools/build_recording.py:56-59 | in that capture clock, headers and gaps are faultless and no earlier request has the same bytes |
| EndToEnd.ReplayExact | src/fremsoft.c:233-262 | on monotone clocks and short headers, with a gap cap below 2^32 ms, every request that is the first with its bytes is replayed exactly |
| EndToEnd.ReplayFidelity | src/fremsoft.c:218-262 | on such captures, print, convert, write, tokenize, load and request: exactly the captured responses, byte for byte, each due its captured distance after the call |
| EndToEnd.RequestFidelity | src/fremsoft.c:218-262 | the same on any printed capture for one request whose own header, key, response headers and gaps are as item 1 above requires |
| EndToEnd.LongHeaderNeverFound | src/fremsoft.c:218-222 | a request with a nonzero upper header byte gets the negative response from every converted tape |
| Playback.ScheduledUnderHandle | src/fremsoft.c:234-262 | in a run of fewer than 2^32 starts, at any time exactly a start's own events have been scheduled under its handle |
| Playback.CanceledOnlyByCancel | src/scheduler.c:174-179 | without a cancel of the handle nothing of it is ever canceled |
| Playback.DeliveredPrefix | src/fremsoft.c:326-363 | with fewer than 2^32 starts and due times that fit 64 bits, what is delivered under a start's handle is a prefix of what it scheduled |
| Playback.ExactReplayReaches | src/fremsoft.c:326-363 | under the same bounds, a start that exactly replays a bucket with holding gaps delivers its captured bytes in order, all of them once its link is drained |
| Playback.DrainedMeansDelivered | src/fremsoft.c:332-335 | under the same bounds, an empty poll after the last due time, no cancel before it, means everything the start scheduled was delivered |
| Playback.CaptureReachesClient | src/fremsoft.c:193-363 | under the same bounds, on the tape converted from any capture the client receives for a repeated request, short-headed, not shadowed, and with short-headed responses at gaps the delay field holds, a prefix of its captured responses, byte for byte, and all of them once its link is drained |
| ActivityLog.ScheduledIsAnswer | src/fremsoft.c:226-291 | the payloads a request schedules are the tape's answer, whatever clock, link, handle and tag |
| ActivityLog.UnknownAnswer | src/fremsoft.c:277-286 | the answer to a request no entry was recorded for |
| ActivityLog.LoggedIff | src/fremsoft.c:205-226 | a call is logged if and only if it is a SENDRECV of at least five bytes |
| ActivityLog.RequestLogged | src/fremsoft.c:86-112 | the fields of every line a request writes: REQ-PDU with its own bytes, then RSP-UDS with the id and bytes of each response |
| Reconversion.CallFramesShape | src/fremsoft.c:86-112 | a call's lines are read back as its request, the upper half of its id lost, followed by responses with at least one UDS byte |
| Reconversion.CarriedFrames | src/fremsoft.c:86-112 | when all replies can be carried, each response line is read back as one frame with its time, id and bytes |
| Reconversion.CallBucketIff | tools/build_recording.py:79-106 | the bucket of a call's request holds the call's answer if and only if all its replies can be carried and its lines are prompt |
| Reconversion.RefusalCarriedIff | src/fremsoft.c:282-291 | the negative response to an unknown 16-bit request can be carried if and only if the request id is below 0xFC00 |
| Reconversion.SessionBucket | tools/build_recording.py:79-106 | in any session's log the first frame with a key heads a bucket holding the first asking call's answer if and only if the log keeps it, and a key nobody asks like has no frame |
| Reconversion.ReconversionIff | tools/build_recording.py:44-151 | for any session at all, the converted log knows exactly the keys some call asked like, and repeats the first such call's answer if and only if all its replies can be carried and its lines are prompt |
| Reconversion.ReconversionFixpoint | tools/build_recording.py:44-151 | for 16-bit requests and prompt lines, the converted log answers each request of the session as the original tape did if and only if every reply can be carried, and holds no other key |
| SelfReplay.EngineLogReconverts | src/fremsoft.c:60-112 | the same equivalence for the file the engine writes in any run, its four comment lines included |
| Engine.FillPayload | src/fremsoft.c:254-259 | the buffer holds the big-endian CAN-ID followed by the UDS bytes |
| Engine.PlaybackEngine.ScheduleResponses | src/fremsoft.c:233-262 | appends one event per recorded response with cumulative 64-bit due times, and one log line for each |
| Engine.PlaybackEngine.ScheduleNegative | src/fremsoft.c:266-292 | appends and logs one 7F SID 11 response on CAN-ID + 0x400, 50 ms ahead |
| Engine.PlaybackEngine.StartComPrimitive | src/fremsoft.c:193-297 | takes exactly the model's start step, writes exactly the session's log lines, and records the request as unknown exactly when lookup fails |
| Engine.NotedIff | src/fremsoft.c:268 | a request is noted as unknown, by id and bytes, if and only if it is a SENDRECV of at least five bytes no entry was recorded for |
| Engine.PlaybackEngine.GetEventItem | src/fremsoft.c:326-363 | takes exactly the model's poll step: a new item carrying the event, EVENT_QUEUE_EMPTY, or INVALID_PARAMETERS; the event's buffer is freed |
| Engine.PlaybackEngine.DestroyItem | src/fremsoft.c:365-369 | frees an item handed out and not yet destroyed; a null item changes nothing |
| Engine.PlaybackEngine.CancelComPrimitive | src/scheduler.c:168-186 | takes exactly the model's cancel step with the engine's ownership kept |
| Engine.PlaybackEngine.Shutdown | src/fremsoft.c:166-168 | only the items still in the client's hands stay allocated |
| Session.Perform | src/fremsoft.c:193-363 | each call on the engine is one step of the state machine, in state, outcome, items and log |
| Session.Serve | src/fremsoft.c:193-363 | for every sequence of calls the polls hand out what the model delivers, as distinct items, and the log holds the session |
| Session.CompleteSession | src/fremsoft.c:166-369 | serving any calls, destroying the items and shutting down leaves nothing allocated, nothing freed twice |

## Left out

- Windows plumbing: the registry, DLL loading, file handles, thread creation, Sleep and critical-section internals. A critical section is one atomic step; the clock, the thread number and the log clock are inputs.
- Characters: files are sequences of characters; the recording file is ASCII, as json.dumps writes it, and encodings of other files are not modelled. Positions and token counts are unbounded, without the 32-bit limits of jsmn's fields.
- Jsmn.Parser.Run: the parse with tokens only; the pass with a null token array is the method CountTokens. Parent links and strict mode are compiled out in the source and not modelled.
- Allocation failure: every allocation succeeds; conservation does not hold on the source's failure paths.
- Shutdown of the delivery thread with its stop flag and its 200 ms wait: the thread is taken to have stopped before scheduler_free.
- Scheduler.Scheduler.Push: the null-argument and failed-allocation returns are not modelled.
- Scheduler.Scheduler.FreeAll: frees the list; stopping the thread and freeing the scheduler's own block are not modelled.
- Engine.PlaybackEngine.ScheduleResponses: the skip on a failed allocation is not modelled.
- Engine.PlaybackEngine.ScheduleNegative: the skip on a failed allocation is not modelled.
- Engine.PlaybackEngine.StartComPrimitive: is one atomic step against the other calls; the null handle pointer and failed allocations are not modelled; and the logged payload is taken before the buffer passes to the queue, because the source reads it afterwards for the log.
- Engine.PlaybackEngine.GetEventItem: the FCT_FAILED return, which loses the event when allocation fails, is not modelled; the item block is one object with its byte sequence, without struct layout and pointer members.
- Engine.PlaybackEngine.Shutdown: releases the queue; releasing the recording and closing the logs are not modelled.
- Session.CompleteSession: accounts for nodes, buffers and items; the recording's memory lies outside the accounted heap.
- Scheduler.Heap: excludes double frees and leaks; that nothing is read after it was freed is not checked.
- LogFormat.MatchComplete: decimal digits are the ASCII ones, where Python's pattern also takes other scripts' digits.
- LogFormat.ParseLog: for the same reason lines with other scripts' digits are skipped here and matched by the source.
- LogFormat.SplitJoined: a carriage return followed by a newline counts as two line ends, which adds only empty lines.
- Recording.RecordingLoad: the responses of an exchange are a value in its entry and not a separate allocation, so loader memory and recording_free are not accounted for.
- Converter.IndexByRequest: a warning is the id and the bytes it names, not its wording.
- Payload lengths are unbounded: the 32-bit sum 4 + uds_len and num_data do not wrap.
- RecordingMeaning.LoadMeaning: arrays under unknown keys, and containers under unknown keys inside an exchange, lie outside its precondition; RecordingLoad covers the cursor's safety on them, UnknownTakesTwo each of its steps.
- The unknown-request log keeps (CAN-ID, bytes) pairs, not its file format.
- The converter's command line, output path, captured_at clock and progress prints.
- Constant-return stubs in `src/fremsoft.c:385-430`, forwarders, wrappers, trampolines, installer and generator scripts, `decode_ssa_for_seed.py`, passthrough and record mode, and the J2534 side.

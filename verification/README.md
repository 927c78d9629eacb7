# A model of the CLP IR stream machine

The repository is a Go and C++ layer over CLP that writes and reads streams of log events. This project
models the parts of it that carry the hard properties, in Dafny, and proves them for all inputs and all runs:

* the **buffered reader** (`ir/reader.go`): a window in a buffer that is compacted in place or doubled and
  refilled from a source with any chunking, around decoding calls that are retried when the window is too short;
* the **stateful deserializer** (`cpp/src/ffi_go/ir/deserializer.cpp`): one event at a time, or a wildcard
  and time-interval scan over many, with absolute (eight-byte) or accumulated (four-byte) timestamps;
* the **writer and its serializer** (`ir/writer.go`, `ir/serializer.go`): difference encoding with
  commit on success, a buffer that sinks drain, and the terminator;
* two **offset codecs**: queries merged into one string with lengths, and dictionary variables packed into
  bytes with end offsets.

## How it is laid out

| file | contents |
|---|---|
| `Base.dfy` | bytes, 64 bit timestamps with wrap-around, answers and errors |
| `FrameCodec.dfy`, `PreambleCodec.dfy` | a small concrete codec standing in for CLP's, with the facts the rest relies on |
| `WholeStream.dfy` | the reference meaning of a stream: decoding all its bytes at once |
| `WildcardQuery.dfy`, `TimedSearch.dfy` | merging and splitting queries; the scan of one window and what its answer means |
| `RetryLoop.dfy` | the retry loop on values, for any decoding call: conservation, refinement, drift, termination, growth |
| `DecodingCalls.dfy` | the three decoding calls and which hypotheses of the loop each meets |
| `Runs.dfy` | runs of calls: what every call keeps, every run keeps; answers that follow a script |
| `Halting.dfy` | when the loop returns for a call whose failures move the timestamp |
| `ReaderRuns.dfy`, `SearchRuns.dfy`, `Reachable.dfy`, `LogRuns.dfy` | whole runs of the reader, on bytes and on the log |
| `FourByteSearch.dfy`, `FourByteState.dfy`, `FourByteRuns.dfy`, `FourByteRefills.dfy` | four-byte searches: their answers, what they leave to later calls, their runs, when they return and when refills can be seen |
| `ReaderResults.dfy` | what the reader's methods return, told by the stream and the source's plan alone |
| `Deserializers.dfy`, `Readers.dfy` | the classes, proved to do what the functions above say |
| `WriterRuns.dfy`, `Serializers.dfy`, `Writers.dfy` | the writer on values and as classes |
| `RoundTrip.dfy`, `WriteRead.dfy` | writer and reader together |
| `Encoders.dfy` | packing of dictionary variables |

A reader's class methods take two ghost parameters: the decoding call `f` they make, and a bound `refills`.
Requiring that the loop on values returns within some bound is the exact termination condition of the Go loop;
`RetryTerminates`, `RetryHaltsIff` and `Halting.ReturnsIff` say when it holds. A source is the bytes it will
deliver and a plan for its next reads, which may prescribe any chunks, empty ones and errors beside bytes
included; after the plan it delivers what fits and then EOF. Where a lemma says *fair* source, the source never
reports an error other than EOF; its chunks are arbitrary. A source that stops delivering half way is one with
fewer bytes.

## What the proofs show beyond the intended behaviour

* **Four-byte searches can see refills.** A failed attempt keeps the timestamp of the events it walked
  (`cpp/src/ffi_go/ir/deserializer.cpp:209`) but the retry starts from the same `start` (`ir/reader.go:119-131`),
  so walked differences count twice. `SearchLaw` gives the exact answer in every case, `TransparentIff` and
  `UnseenIff` the exact conditions under which refills are invisible, the first for one run, the second on the
  stream alone, and `RefillIsSeen` inputs on which a match is lost.
* **A failed four-byte search moves all later timestamps**, with or without refills, so that the same search may
  answer differently and later reads stamp events wrongly (`SearchLeaves`, `FailureIsFelt`). `FailureRepeatsIff`,
  `EndRepeatsIff`, `EndAnswerRepeatsIff` and `NotFoundRepeats` say when a failure is repeated, `LeavesLogIff` and
  `LogRuns.AfterStampsIff` when stamps stay right, `LogRuns.AfterLeaves` by how much they move after any calls.
* **A truncated stream is never reported by reads and eight-byte searches.** `read` drops EOF, so their loops run
  for ever (`ReadHaltsIff`, `SearchHaltsIff`, `UnclosedNeverEnds`), although the comment at `ir/reader.go:211-215`
  suggests an EOF without bytes is forwarded. A four-byte search may return, with an answer the stream does not
  call for, because every retry moves its timestamp (`SearchReturnsIff`, `CutIsAnswered`). The model follows the
  code.
* **Size 0 never opens** (`ZeroSizeNeverOpens`): doubling 0 gives 0.
* **A failed wildcard search consumes nothing, a failed `ReadToFunc` consumes what it read**
  (`WildcardMatchIsReadTo`).
* **`ReadToWildcardMatch` does not search the entire IR**, as the comment at `ir/reader.go:90-92` has it, but the
  timestamps in [0, MaxInt64): events stamped before 0 are missed, and one stamped MaxInt64 ends the search
  (`WildcardMatchIsReadToIff`, `EarlyIsMissed`).
* **An encoder's vectors pile up** over calls, bytes and offsets in opposite orders, so a returned view is its own
  message's only under the condition of `ViewIsOwnIff`.
* The merged query's field `endOffsets` holds lengths, not end offsets (`search/wildcard_query.go:70-79`); the
  split treats it so, and the round trip holds.

## Model

| member | source | states |
|---|---|---|
| `RoundTrip.WriteThenRead` | ir/writeread_test.go:11-49 | End to end, both encodings: for any run of writer calls without `Reset` (failing writes, short or failing sinks, repeated closes and any draining included), any chunking by a source that does not break, and any initial size of at least 1, the reader opens with the writer's encoding and time zone and the first reads return exactly the admitted events with their exact timestamps in order. If the writer was closed every later read returns `EndOfIr`; if not, exactly the admitted events come back and the next read does not return. |
| `RoundTrip.WriteThenFilter` | ir/reader.go:139-153 | The same runs read with `ReadToFunc(f)`: the answers are exactly the admitted events that `f` accepts, in order, then `EndOfIr` for ever if the writer was closed, and no further return if not. |
| `RoundTrip.WriteThenSearch` | ir/reader.go:110-137 | The same runs of an eight-byte writer read with the wildcard search: the answers are exactly the admitted hits in order with their least matching queries, up to the first late event, then `QueryNotFound`, or `EndOfIr` if no event is late, for ever; with neither a late event nor a close the next search does not return. |
| `RoundTrip.WriteThenSearchAfter` | ir/reader.go:110-137 | The same for four-byte writers, closed, after any calls on the reader (reads, filters, searches, completed or not): the log left is that of the admitted events not consumed yet, moved by the shifts of the searches made, and the next search returns `a` if and only if that log, moved by the search's own drift, calls for `a`. |
| `RoundTrip.UnclosedNeverEnds` | ir/writer.go:12-16 | Without a close, and with any source, even one that breaks, the reads' own answers are at most the admitted events, in order; with a source that does not break they are exactly the first `count` of them, or all, and the next read does not return. |
| `RoundTrip.WrittenStream` | ir/writer.go:77-141 | What a writer's sinks took plus its buffer opens with its encoding and time zone, and decodes behind the preamble to exactly the admitted events, ended properly if and only if the writer was closed. |
| `WriteRead.WriteReadLogMessages` | ir/writeread_test.go:11-49 | The repository's write-then-read test with the classes themselves: for all events, planned chunks, time zones and sizes of at least 1, the events read are the events written and the last answer is `EndOfIr`. |
| `WriteRead.WriteEvents` | ir/writeread_test.go:16-35 | A loop of `Write` followed by `CloseTo` hands the sink the preamble, the events' frames and one terminator. |
| `WriteRead.ReadToEnd` | ir/writeread_test.go:45-48 | A loop of `Read` on any valid reader with a promising rest of the stream returns that rest's events and then `EndOfIr`. |
| `Readers.CopyDown` | ir/reader.go:203 | The overlapping copy in place moves `buf[start..end]` to the front, whatever the overlap. |
| `Readers.Source.Read` | ir/reader.go:217 | The source may fill any part of the free buffer and return any error value beside it, the one its plan has; it touches nothing before the free part. |
| `Readers.Reader.ReadSource` | ir/reader.go:211-223 | `read`: the delivered bytes join the window even when an error comes with them; EOF is dropped, the plan's other errors are forwarded. |
| `Readers.Reader.Compact` | ir/reader.go:197-206 | The first half of `fillBuf`: the window keeps its bytes while `start` becomes 0, and the buffer doubles exactly if more than half of it was unconsumed. |
| `Readers.Reader.FillBuf` | ir/reader.go:197-209 | `fillBuf` does to buffer, `start`, `end` and source exactly what one refill does to the abstract machine: window and undelivered bytes together stay, the size doubles exactly if more than half of it was unconsumed, and only an error other than EOF comes back. |
| `Readers.Reader.Read` | ir/reader.go:66-88 | What comes back, told by the stream: the code of the planned read that broke, if one did, with nothing lost; or else the first event left, of which exactly the frame's bytes are gone; or, with no event left, `EndOfIr` or `CorruptedIr` by how the stream ends. The reader is left in the state of the loop on values, which must return. |
| `Readers.Reader.ReadToWildcardMatchWithTimeInterval` | ir/reader.go:110-137 | What comes back, told by the stream's log with its timestamps moved by the drift (0 in eight-byte streams): the code of the planned read that broke; or the first event in the interval that some query matches, with the least index of such a query, if no event before it is late; `QueryNotFound` behind a late event; or else the error of the stream's ending. Only a match uses up bytes, through its event. |
| `Readers.Reader.ReadToWildcardMatch` | ir/reader.go:90-100 | The same over timestamps from 0 up to the largest one, that one excluded. |
| `Readers.Reader.ReadToFunc` | ir/reader.go:139-153 | What comes back: the first event left that `f` accepts, with the bytes through it gone; or the error of the stream's ending, if `f` accepts none; or the code of the planned read that broke, behind events `f` does not accept. |
| `Readers.Reader.DeserializePreamble` | ir/reader.go:41 | At every call `start` is 0, so assigning the position is right: a success drops exactly the preamble's bytes from the window, a failure nothing. |
| `Readers.NewReaderSize` | ir/reader.go:27-53 | A reader comes back exactly if no error does. A failure is the code of the planned read that broke, the very first one included, or the error the stream's first bytes call for; a success knows what the preamble's bytes say and has left everything behind them. |
| `ReaderResults.ReadReturns` | ir/reader.go:66-88 | For every machine, plan and bound the result of a finished read is the log's first event, its ending's error, or the code of the one planned read that broke, and the bytes left fit it. |
| `ReaderResults.FindReturns` | ir/reader.go:139-153 | The same for reading to the first accepted event: all events before it are rejected ones. |
| `ReaderResults.SearchReturns` | ir/reader.go:110-137 | The same for the wildcard read, in both encodings: event and query index, `QueryNotFound`, the ending's error or the broken read's code, and what is left with its timestamps moved. |
| `ReaderResults.BuiltReturns` | ir/reader.go:34-53 | The same for the constructor; if the first planned read breaks its code is the answer, whatever bytes came with it. |
| `Deserializers.Deserializer.DeserializeLogEvent` | cpp/src/ffi_go/ir/deserializer.cpp:62-118 | One event: frame, incomplete, corrupt and end are told apart, and the timestamp field changes only on success, to the frame's timestamp, or by the frame's difference modulo 2^64 in four-byte streams. |
| `Deserializers.Deserializer.FindQuery` | cpp/src/ffi_go/ir/deserializer.cpp:156-174 | `found` if and only if the list is empty or the matcher accepts the message with some query's text and case flag; the index found is that of the least such query, or 0 for the empty list. |
| `Deserializers.Deserializer.DeserializeWildcardMatch` | cpp/src/ffi_go/ir/deserializer.cpp:120-237 | The scan loop over the window ends in the answer and timestamp of the recursive scan; a matched event lies in the interval, and the matcher accepts it with the query of the index and with no query before it. |
| `Deserializers.DeserializePreamble` | ir/deserializer.go:54-120 | Which bytes give which error, in the source's order, or a deserializer of the stream's encoding; the reference timestamp is handed over for four-byte streams that carry one. |
| `RetryLoop.RetryConserves` | ir/reader.go:70-88 | At every point of the loop, after a forwarded source error too, window plus undelivered bytes are the bytes left before minus those of the answer. |
| `RetryLoop.RefillConserves` | ir/reader.go:197-223 | A refill loses and duplicates no byte, whatever the source does. |
| `RetryLoop.RetryIsOneAttempt` | ir/reader.go:73-82 | However the bytes arrived, the answer is that of one attempt on everything that remained, from the timestamp the last attempt started with. |
| `RetryLoop.RetryRefines` | ir/reader.go:73-87 | For a call that cannot tell it has failed before, the answer is that of one attempt on the whole rest of the stream from the caller's timestamp. |
| `RetryLoop.TimestampIsKept` | ir/reader.go:73-82 | For a call that commits the timestamp only on success every attempt starts from the caller's timestamp, and a loop cut short by the source leaves it alone. |
| `RetryLoop.DriftLaw` | ir/reader.go:119-131 | For a call that accumulates when it runs out of bytes, the last attempt starts from the caller's timestamp plus, modulo 2^64, the sum over failed attempts of what each window walked. |
| `RetryLoop.LastAttempt` | ir/reader.go:73-87 | The loop leaves the timestamp of its last attempt, whatever the outcome; a failure of the call's own leaves that attempt's window. |
| `RetryLoop.RetryAsks` | ir/reader.go:73-82 | The loop asks the source in the order of its plan and stops at the first read that breaks: a finished loop returns a source error if and only if the last read asked for broke, with that read's code. |
| `RetryLoop.ConstructAsks` | ir/reader.go:34-48 | The same for the constructor, its first read included. |
| `RetryLoop.TerminalRepeats` | ir/reader.go:83-87 | After an error of the deserializer every later loop returns the same error and leaves the whole state as it is. |
| `RetryLoop.RetryTerminates` | ir/reader.go:73-82 | The loop returns after no more refills than there are planned reads and bytes missing to settle the call; their sum decreases at every refill, because each uses up a planned read or delivers a byte. |
| `RetryLoop.RetryHaltsIff` | ir/reader.go:216-223 | With a source that never breaks, and for a call that cannot tell it has failed before, the loop returns if and only if the whole rest of the stream settles the call: because EOF is dropped it never returns on a truncated stream. |
| `RetryLoop.RetryMonotone` | ir/reader.go:73-82 | A loop that has returned is not changed by allowing more refills. |
| `RetryLoop.GivesIffReturns` | ir/reader.go:73-82 | The turn-by-turn relation the loop invariants use holds if and only if the loop returns that outcome. |
| `RetryLoop.RefillRoom` | ir/reader.go:197-206 | Every refill offers the source at least half of the buffer (rounded up) and at least one byte. |
| `RetryLoop.RetryDoubles` | ir/reader.go:197-201 | The buffer's size is only ever multiplied by powers of two. |
| `RetryLoop.RetryGrowth` | ir/reader.go:197-209 | The size never exceeds the larger of what it was and four times the bytes that settle the call. |
| `RetryLoop.ZeroCapacityStaysEmpty` | ir/reader.go:34-37 | A buffer of size 0 never grows and never receives a byte, so the loop never gets an answer of the deserializer. |
| `DecodingCalls.OpeningIsStable` | cpp/src/ffi_go/ir/deserializer.cpp:245-288 | Reading a preamble is unaffected by more bytes once it is decided and repeatable after a failure. |
| `DecodingCalls.OpenTells` | ir/deserializer.go:54-120 | Reading a preamble: which bytes give which of the four errors or the opened stream, and the timestamp it starts from. |
| `DecodingCalls.ReadingIsStable` | cpp/src/ffi_go/ir/deserializer.cpp:104-107 | The same for one event: an attempt that runs out of bytes leaves the timestamp untouched, so the retry is idempotent. |
| `DecodingCalls.SearchingIsStable` | cpp/src/ffi_go/ir/deserializer.cpp:176-237 | A search that did not run out of bytes answers the same on any longer window, timestamp and position included. |
| `DecodingCalls.EightByteSearchRepeats` | cpp/src/ffi_go/ir/deserializer.cpp:187-193 | With absolute timestamps no later answer can tell that a search has failed before. |
| `DecodingCalls.FourByteSearchAccumulates` | cpp/src/ffi_go/ir/deserializer.cpp:194-210 | With differences a search that runs out of bytes adds the differences of all complete frames in its window to the timestamp. |
| `ReaderRuns.ReadOne` | ir/reader.go:66-88 | One `Read`: the first event of the whole-stream decode and that frame consumed, or the stream's ending with nothing consumed; a read the source cut short changes neither log nor bytes left. |
| `ReaderRuns.ReadHaltsIff` | ir/reader.go:70-88 | With a fair source a `Read` returns if and only if something is left to answer with: an event, a terminator or a corrupt frame. |
| `ReaderRuns.ChunksAreInvisible` | ir/reader.go:70-88 | Chunking independence: for every stream, every chunking and any number of source errors in between, the reads' own answers are the events of the whole-stream decode in order and then its ending. |
| `ReaderRuns.CallsEnumerate` | ir/reader.go:139-191 | Repeated `ReadToFunc(f)` yields exactly the subsequence of events that `f` accepts, then the ending for ever; on a truncated stream no call returns after the last one. |
| `ReaderRuns.ReadToFinds` | ir/reader.go:139-153 | One `ReadToFunc` stops just behind the first accepted event; an error means none was left; a source error loses nothing. |
| `ReaderRuns.ReadConsumes` | ir/reader.go:86 | Every successful `Read` consumes at least one byte. |
| `ReaderRuns.FairCalls` | ir/reader.go:141-153 | With a source that never breaks the answers of a run are exactly those the decode calls for, and as many: every call returns if the stream is not truncated; otherwise exactly the accepted events come back and the next call does not return. |
| `ReaderRuns.ReadIsStable` | ir/reader.go:83-87 | Once `Read` has returned the end of the stream or a decoding error, every later `Read` returns the same with window, buffer, source and timestamp unchanged. |
| `ReaderRuns.CallsGrowth` | ir/reader.go:197-209 | In a run of `Read` or `ReadToFunc` the buffer never exceeds the larger of its size and four times the longest frame. |
| `ReaderRuns.ConstructRefines` | ir/reader.go:34-53 | For every chunking the constructor answers as one preamble read on the whole stream, and the window then begins exactly at the first frame. |
| `ReaderRuns.ConstructGrowth` | ir/reader.go:34-53 | The constructor keeps the buffer within its size or four times the preamble. |
| `ReaderRuns.FairConstruct` | ir/reader.go:40-48 | With a positive size and a source that never breaks the constructor returns if and only if the stream's preamble is decided, and then with an answer of the deserializer. |
| `ReaderRuns.ZeroSizeNeverOpens` | ir/reader.go:34-48 | With an initial size of 0 the constructor never gets an answer about the stream. |
| `Reachable.ReachableAccounts` | ir/reader.go:34-223 | Conservation over whole runs: after the constructor and any calls of `Read`, `ReadToFunc` and searches, each completed, cut short by a source error or still inside its loop, the first `used` bytes of the stream, the window and the undelivered bytes, in this order, are the stream, where `used` is the sum of what the calls' answers say they use. Nothing is dropped beyond that. |
| `Reachable.AfterAccounts` | ir/reader.go:70-223 | The same from any state on: what is left is what was left before, less exactly the bytes the calls have used. |
| `Reachable.ReachableBuffer` | ir/reader.go:34-209 | In every reachable state the window fits the buffer, and the buffer's size is the initial size times a power of two. |
| `Reachable.AfterStaysFair` | ir/reader.go:70-223 | Whatever is called, refills that were enough for everything to arrive stay enough. |
| `LogRuns.AfterLeaves` | ir/reader.go:70-191 | Whole runs against the log, both encodings: after any calls some number of events has been consumed, in order and with exactly their bytes, and the timestamps of the rest have moved by the shifts of the four-byte searches among the calls and by nothing else. |
| `LogRuns.AfterStampsIff` | ir/reader.go:70-191 | After any calls everything left is stamped as it was before them if and only if nothing is left or the shifts sum to 0 modulo 2^64; for eight-byte streams they are always 0. |
| `TimedSearch.ScanIffSearch` | cpp/src/ffi_go/ir/deserializer.cpp:156-237 | A scan gives an answer if and only if the log calls for it: the first hit with its least query and the position behind it, `QueryNotFound` for a late event before any hit, otherwise how the log ends. |
| `TimedSearch.ScanTells` | cpp/src/ffi_go/ir/deserializer.cpp:156-236 | What a matched or late answer of one scan says about its event, interval and queries, in the matcher's own terms. |
| `TimedSearch.SearchIsUnique` | cpp/src/ffi_go/ir/deserializer.cpp:176-237 | At most one answer fits a log. |
| `TimedSearch.ScanStable` | cpp/src/ffi_go/ir/deserializer.cpp:176-237 | More bytes never change a scan that did not run out of them. |
| `TimedSearch.IncompleteScanAddsDeltas` | cpp/src/ffi_go/ir/deserializer.cpp:202-209 | A four-byte scan that runs out of bytes has added exactly the differences of the complete frames in its window. |
| `TimedSearch.AnswerPinsBase` | cpp/src/ffi_go/ir/deserializer.cpp:202-236 | Two four-byte scans that give the same match, or the same end with the same timestamp, started from the same timestamp. |
| `TimedSearch.EarlyExitIsComplete` | cpp/src/ffi_go/ir/deserializer.cpp:211-216 | On a log in timestamp order `QueryNotFound` means that no event is a hit. |
| `SearchRuns.SearchRefines` | ir/reader.go:110-137 | Eight-byte search across any number of refills: it answers `a` if and only if the whole remaining log calls for `a`. |
| `SearchRuns.SearchConsumes` | ir/reader.go:132-136 | Eight-byte streams: a match consumes the stream through the matching event and leaves the log behind it; every other outcome leaves stream and log alone. (Four-byte streams: `FourByteState.SearchLeaves`.) |
| `SearchRuns.SearchesEnumerate` | ir/reader.go:110-137 | A run of the same eight-byte search enumerates the hits in order with their least matching queries, up to the first late event or the end, whatever the chunks and source errors. |
| `SearchRuns.FairSearches` | ir/reader.go:119-131 | With a source that never breaks the answers of a run of the same eight-byte search are exactly those its log calls for, and as many: if the stream is truncated with no late event before the cut, the hits come back and the next search does not return. |
| `SearchRuns.NotFoundMeansNone` | cpp/src/ffi_go/ir/deserializer.cpp:211-216 | Through the reader: on a sorted eight-byte log `QueryNotFound` means no remaining event lies in the interval and matches. |
| `SearchRuns.WildcardMatchIsReadTo` | ir/reader.go:93-100 | Eight-byte streams with all timestamps in [0, MaxInt64): `ReadToWildcardMatch` and `ReadToFunc` with "some query matches" find the same event and leave the same bytes, or fail alike; on failure the search has consumed nothing. |
| `SearchRuns.WildcardMatchIsReadToIff` | ir/reader.go:90-100 | Eight-byte streams, any timestamps: the two come to the same if and only if the first accepted event is stamped in [0, MaxInt64), if there is one, and no event before it is stamped MaxInt64. |
| `SearchRuns.EarlyIsMissed` | ir/reader.go:90-100 | Inputs on which they differ: an event stamped -1 is found by `ReadToFunc` and missed by the search of the whole stream. |
| `SearchRuns.SearchTerminates` | ir/reader.go:119-131 | With a source that never breaks every search returns whose stream settles it from every timestamp, truncated or not, in both encodings; a stream that is not truncated always does. |
| `SearchRuns.SearchHaltsIff` | ir/reader.go:119-131 | An eight-byte search over a source that never breaks returns unless, and only unless, the stream is truncated with neither a hit nor a late event before the cut. (Four-byte streams: `FourByteRefills.SearchReturnsIff`.) |
| `SearchRuns.SearchIsStable` | cpp/src/ffi_go/ir/deserializer.cpp:211-216 | An eight-byte search that ended in `EndOfIr`, `QueryNotFound` or a decoding error repeats its answer for the same arguments and leaves everything as it is. (Four-byte streams: `FourByteState.EndRepeatsIff` and `FourByteState.FailureRepeatsIff`.) |
| `SearchRuns.SearchGrowth` | ir/reader.go:197-209 | A search keeps the buffer within its size or four times the bytes through the deciding frame: always for eight-byte streams, for four-byte ones when no failed attempt moves the timestamp. |
| `FourByteSearch.SearchLaw` | ir/reader.go:119-131 | The exact retry law: a four-byte search answers `a` if and only if `a` is what the remaining log calls for once every timestamp in it is moved by the drift, the sum over failed attempts of the differences each walked. |
| `FourByteSearch.TransparentIff` | ir/reader.go:119-131 | Refills cannot be seen (same answer, timestamp and events walked as on the whole stream) if and only if the drift is 0 modulo 2^64. |
| `FourByteSearch.AnswerTellsIff` | cpp/src/ffi_go/ir/deserializer.cpp:226-236 | For a match or an end of stream, answer and timestamp alone equal the whole-stream ones if and only if the drift is 0 modulo 2^64. |
| `FourByteSearch.BalancedSearchRefines` | ir/reader.go:119-131 | If every failed attempt walked differences that sum to 0 (no refill included) the search answers `a` if and only if the remaining log calls for `a`. |
| `FourByteSearch.SteadyIffBalanced` | cpp/src/ffi_go/ir/deserializer.cpp:202-209 | No failed attempt moves the timestamp if and only if the differences each walked sum to 0 modulo 2^64. |
| `FourByteSearch.RefillIsSeen` | cpp/src/ffi_go/ir/deserializer.cpp:209-230 | Inputs on which refills change the answer: a stream whose second event matches, found when it lies in one window, is answered `QueryNotFound` when it arrives with a refill. |
| `FourByteState.SearchLeaves` | cpp/src/ffi_go/ir/deserializer.cpp:209-230 | What a four-byte search leaves, for every outcome, source errors and unfinished loops included: a match consumes the log through its event, every other outcome nothing, and the timestamps of what is left have moved by the differences the attempts walked and no match used up. |
| `FourByteState.FailureRepeatsIff` | ir/reader.go:119-136 | Any failure of a four-byte search, `QueryNotFound` included, is repeated by the same search if and only if the log the first one found, moved by that search's shift, calls for it. It holds, with no drift of the second search in it, whenever the window left settles the search from the timestamp left; the second search then returns at once, whatever refills it is allowed. |
| `FourByteState.FailureRepeatsBehindRefillsIff` | ir/reader.go:119-136 | The same when the second search has to wait for bytes too: its own drift is added to the first search's shift. |
| `FourByteState.NotFoundRepeats` | cpp/src/ffi_go/ir/deserializer.cpp:211-216 | A four-byte `QueryNotFound` is repeated at once, for every bound on refills and every chunking, if the first difference left is not negative and adding it to the timestamp left stays in range; the timestamp then moves by that difference. |
| `FourByteState.EndAnswerRepeatsIff` | cpp/src/ffi_go/ir/deserializer.cpp:179-184 | The answer alone of a four-byte search at the end of a stream, or at a corrupt frame, is repeated if and only if no event of the log it found, moved by its shift, is a hit or late; the second search always returns. |
| `FourByteState.EndRepeatsIff` | cpp/src/ffi_go/ir/deserializer.cpp:179-184 | A four-byte search that has come to the end, or to a corrupt frame, repeats its whole outcome, state included, if and only if the differences of all frames left sum to 0 modulo 2^64. |
| `FourByteState.LeavesLogIff` | cpp/src/ffi_go/ir/deserializer.cpp:209-230 | A four-byte search leaves the stamps of what it has not used as they were if and only if nothing is left or its shift is 0 modulo 2^64. |
| `FourByteState.FailureIsFelt` | cpp/src/ffi_go/ir/deserializer.cpp:209-216 | Inputs, with no refill, on which the same search answers `EndOfIr` and then `QueryNotFound`, and a read behind the first search stamps its event wrongly. |
| `FourByteRuns.SearchesReplay` | ir/reader.go:110-137 | Runs of the same four-byte search on a stream whose end has arrived: every search returns, and the answers are, for ever, those told by the log alone: a match goes on behind its event, a failure moves the whole log left from the starting timestamp to the one the search stopped at. |
| `FourByteRuns.ReplayBeginsWithHits` | ir/reader.go:110-137 | Such a run begins, as for eight-byte streams, with the hits before the first late event, in order and with their least matching queries. |
| `FourByteRefills.SearchReturnsIff` | ir/reader.go:119-131 | Exactly when a four-byte search over a source that never breaks returns: before everything has arrived, or when some number of further attempts on the same bytes, each adding its differences once more, comes to an answer. |
| `FourByteRefills.DrainedSearchReturnsIff` | ir/reader.go:119-131 | The same refill by refill on a source with nothing left: it returns within `n` refills if and only if one of the first scans, from the timestamp plus 0 to `n` times the window's differences, comes to an answer. |
| `FourByteRefills.CutIsAnswered` | ir/reader.go:119-131 | Inputs on which a search of a truncated stream, incomplete as a whole, returns `QueryNotFound` on its second attempt. |
| `FourByteRefills.UnseenIff` | ir/reader.go:119-131 | The condition on the stream alone: whatever the chunks, the buffer and the source's errors, a four-byte search of a stream that settles it gives the outcome of one whole-stream search if and only if every event passed before the deciding one is stamped with the timestamp the search starts from. |
| `Halting.ReturnsIff` | ir/reader.go:73-82 | The halting law for any call whose failed attempts add a weight of their window to the timestamp. |
| `Halting.FailingAdds` | cpp/src/ffi_go/ir/deserializer.cpp:202-209 | The timestamp after `k` failed attempts that each add `d` is the first one plus `k` times `d`, modulo 2^64. |
| `WholeStream.DecodeFrames` | cpp/src/ffi_go/ir/deserializer.cpp:83-107 | Decoding undoes printing for both encodings, whatever follows: the printed events with exact timestamps, then what the bytes behind them decode to. |
| `WholeStream.DecodeResumes` | cpp/src/ffi_go/ir/deserializer.cpp:92-107 | Decoding can be resumed behind any number of frames from the last event's timestamp. |
| `WholeStream.ShiftedDecode` | cpp/src/ffi_go/ir/deserializer.cpp:100 | Moving the starting timestamp of a four-byte stream moves every timestamp by the same amount modulo 2^64 and changes nothing else. |
| `WholeStream.ShiftedSameIff` | cpp/src/ffi_go/ir/deserializer.cpp:100 | A shift of a log cannot be seen if and only if the log is empty or the shift is 0 modulo 2^64. |
| `Base.StampUndoesField` | ir/serializer.go:160 | The reader's addition undoes the writer's subtraction for all pairs of timestamps, in 64 bit arithmetic. |
| `Base.DifferencesAreTrue` | ir/serializer.go:160 | Within the int64 range the stored difference is the difference and the rebuilt timestamp the sum; eight-byte fields are the timestamps. |
| `Base.AdditionInRangeIffDifferenceFits` | cpp/src/ffi_go/ir/deserializer.cpp:100 | The reader's signed addition stays in the int64 range if and only if the two timestamps differ by an int64. |
| `FrameCodec.ParsePrint` | cpp/src/ffi_go/ir/deserializer.cpp:74-118 | Stand-in codec: parsing undoes printing in front of any bytes. |
| `FrameCodec.TagsTell` | cpp/src/ffi_go/ir/deserializer.cpp:75-81 | Stand-in codec: which bytes are the end of the stream, a corrupt frame, an incomplete one or a frame. |
| `FrameCodec.ParseStable` | cpp/src/ffi_go/ir/deserializer.cpp:76-81 | Stand-in codec: more bytes never change an answer other than incomplete. |
| `FrameCodec.ParseLocal` | cpp/src/ffi_go/ir/deserializer.cpp:74-118 | Stand-in codec: any prefix that holds a frame's own bytes gives the same frame. |
| `PreambleCodec.ParsePrintPreamble` | ir/deserializer.go:82-120 | Stand-in preamble: encoding, pattern, syntax, time zone and reference timestamp survive printing and parsing, and the position is the preamble's length. |
| `PreambleCodec.PreambleStable` | ir/deserializer.go:54-84 | Stand-in preamble: more bytes never change an answer other than incomplete. |
| `WildcardQuery.SplitUndoesMerge` | cpp/src/ffi_go/ir/deserializer.cpp:147-154 | For every list of queries, empty strings and the empty list included, splitting the merged string gives back all queries and case flags in order. |
| `WildcardQuery.MergeUndoesSplit` | search/wildcard_query.go:60-82 | Every consistent merged query is the merge of its pieces. |
| `WildcardQuery.MergeRepresents` | search/wildcard_query.go:73-82 | The merged text is the concatenation, the stored offsets are the lengths of the single queries, the flags are theirs. |
| `WildcardQuery.MergeWildcardQueries` | search/wildcard_query.go:73-82 | The loop filling builder, offsets and flags computes this merge. |
| `WildcardQuery.SplitMergedQuery` | cpp/src/ffi_go/ir/deserializer.cpp:147-154 | The cursor loop computes these pieces; the cursor never leaves the string, so `substr` never cuts or throws. |
| `Serializers.Serializer.SerializeFrame` | cpp/src/ffi_go/ir/serializer.cpp:90-129 | The buffer is cleared first: on success it holds exactly the new frame, after a refusal only what the encoder left; a closed serializer fails and keeps it. |
| `Serializers.Serializer.SerializeLogEvent` | ir/serializer.go:143-172 | Success exactly when open, accepted and of printable length; the bytes are those of a frame holding the timestamp, or its difference from the previous one modulo 2^64; a four-byte serializer then keeps the event's timestamp, and no failure moves it. |
| `Serializers.NewSerializerWithPreamble` | cpp/src/ffi_go/ir/serializer.cpp:44-88 | A serializer comes with its preamble's bytes and reference timestamp, or neither exists. |
| `Serializers.EightByteSerializer` | ir/serializer.go:34-53 | The preamble carries the three strings and no reference timestamp. |
| `Serializers.FourByteSerializer` | ir/serializer.go:61-83 | The preamble carries the reference timestamp that the first difference is taken against. |
| `Writers.Writer.Write` | ir/writer.go:111-126 | A success appends one frame, holding the timestamp or the difference from the previous one, and returns its length; a failure is `CorruptedIr` and changes neither buffer nor previous timestamp. |
| `Writers.Writer.DrainTo` | ir/writer.go:136 | The buffer's own draining: no write if it is empty, else one; bytes taken leave the buffer even if the sink reports an error, which is returned as it is; taking too few is the error `ShortWrite`, and there is no other. |
| `Writers.Writer.WriteTo` | ir/writer.go:135-141 | What the sink took plus what is left is what was there; the count is that of the bytes taken, and the error is the sink's own, or `ShortWrite`, or none, by what the sink answers; no error means nothing is left. |
| `Writers.Writer.Close` | ir/writer.go:77-80 | One zero byte is appended, and no later write succeeds. |
| `Writers.Writer.CloseTo` | ir/writer.go:88-91 | One zero byte joins the buffer, the serializer is closed, and the buffer is drained once: the count and the error are the sink's own, `ShortWrite` if it takes too few without one, and none exactly if it takes everything. |
| `Writers.Writer.Reset` | ir/writer.go:102-104 | The bytes are dropped; serializer and previous timestamp stay. |
| `Writers.NewWriterSize` | ir/writer.go:37-72 | The new buffer holds exactly the preamble for the encoding, with the wall clock as four-byte reference. |
| `WriterRuns.RunAccounts` | ir/writer.go:67-141 | For any interleaving of all methods, `Reset` included: bytes that left the buffer plus its contents are the bytes it began with, the frames of what was written and the terminators, and the previous timestamp is the last written one. |
| `WriterRuns.RunWritesAdmitted` | ir/writer.go:77-126 | What was written is exactly what the encoder admitted before the first close; each close adds one terminator. |
| `WriterRuns.SinksTakeAll` | ir/writer.go:135-141 | Without `Reset` every byte that left the buffer reached a sink, in order. |
| `WriterRuns.WriterConserves` | ir/writer.go:67-141 | Writer conservation from the constructor on: bytes accepted by the sinks plus `Bytes()` are preamble, frames of the admitted events and one terminator for each close. |
| `WriterRuns.DifferencesTelescope` | ir/serializer.go:157-166 | After any run, failures included, a four-byte writer holds the timestamp of the last admitted event or the reference, and a reader adding the stored differences to the reference rebuilds every admitted timestamp. |
| `Encoders.Encoder.EncodeLogMessage` | cpp/src/ffi_go/ir/encoder.cpp:48-74 | After the insertion loop, cutting the bytes at the offsets this call appended gives what lies in the message between each pair of positions, in order; the bytes and offsets of earlier calls are kept, behind and in front; a failure changes neither. |
| `Encoders.OffsetsArePrefixSums` | cpp/src/ffi_go/ir/encoder.cpp:63-74 | Each end offset is the total length of the variables up to and including its own. |
| `Encoders.PieceLies` | cpp/src/ffi_go/ir/encoder.cpp:63-74 | Each variable lies between the end offset before it and its own. |
| `Encoders.FoundIsPacked` | cpp/src/ffi_go/ir/encoder.cpp:61-74 | A call packs exactly the bytes of the message between each pair of positions, behind and in front of what was there. |
| `Encoders.CutUndoesPack` | cpp/src/ffi_go/ir/encoder.cpp:63-74 | Cutting packed bytes at the end offsets gives back every variable, whatever lies around them. |
| `Encoders.CallsPileUp` | cpp/src/ffi_go/ir/encoder.cpp:63-74 | Over any number of calls the packed bytes are the calls' blocks in reverse order, the offsets the calls' offsets in order. |
| `Encoders.LastCallCuts` | cpp/src/ffi_go/ir/encoder.cpp:76-83 | Cutting at the last call's offsets gives the last call's variables; on a fresh encoder these are all there is. |
| `Encoders.ViewIsOwnIff` | cpp/src/ffi_go/ir/encoder.cpp:76-83 | What a call returns shows its own message and nothing else if and only if no earlier call on the encoder found a variable. |
| `Encoders.OrderedPiecesFit` | cpp/src/ffi_go/ir/encoder.cpp:61-72 | Variables that follow one another in a message never need a larger cursor than the message's length. |

## Left out

- CLP's own codec (variable encoding, tag values, byte widths, magic number, JSON metadata): not in the repository. The frame and preamble codecs here are stand-ins with the same outcomes (incomplete, corrupt, end, frame); nothing is claimed about CLP's byte layout.
- CLP's wildcard matcher and query cleaner: the matcher is an arbitrary total predicate, a query is any string and flag.
- CLP's encoder verdicts: each write is told whether the encoder accepts, and which bytes a refusal leaves behind.
- Signed overflow in C++ (`cpp/src/ffi_go/ir/deserializer.cpp:100`): modelled as wrap-around; `AdditionInRangeIffDifferenceFits` says exactly when it cannot occur.
- cgo plumbing, null pointers, views into reused memory, `Close` of readers and encoders, allocation failure: views are values. The overwriting of a view by the next call is not visible in the model.
- `try_get_pos` failures (`cpp/src/ffi_go/ir/deserializer.cpp:110`): the position of an in-memory reader always exists.
- Parsing of metadata values (`strconv`, JSON types): the parsed strings and the optional reference timestamp are fields of the stand-in preamble. A failed parse of the metadata is one error.
- `NewReader`, `NewWriter` and the wrappers `ReadToEpochTime`, `ReadToContains`, `ReadToPrefix`, `ReadToSuffix`: fixed arguments of modelled methods.
- The Go field `fourByteDeserializer.prevTimestamp`: never read after construction.
- `ir/decoder.go`, `newLogMessageView` (`ir/cgo_defs.go:64-98`) and the encoder's logtype and encoded variables: CLP's encoding, not modelled.
- Sources and sinks: a source delivers a finite stream and, after finitely many planned reads, what fits; a sink takes at most what it is offered. Ones that violate the `io.Reader` or `io.Writer` contract, and a source that answers with no bytes for ever while it still has some, are not modelled as such.
- Int and memory limits of the buffer: its size is unbounded.
- Encoders.Encoder.EncodeLogMessage: requires the variables of one message to fit an int32 cursor, as the source's types assume; `OrderedPiecesFit` shows that variables in message order do.
- FourByteSearch.AnswerTellsIff: not stated for `QueryNotFound`, where a shifted search may give the same answer by a different event; `TransparentIff` covers it by comparing the events walked, and `SearchLaw` gives the answer itself.
- SearchRuns.SearchGrowth: for four-byte searches it needs that no failed attempt moves the timestamp; otherwise the deciding frame may change between attempts.

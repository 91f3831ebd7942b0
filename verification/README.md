# A verified model of the HTTP worker, request parser, key-value store, echo server and shared-memory allocator

Four connected parts of the repository are modelled, each in the form its C++ has: objects whose
fields change become classes with loops and invariants, and every such method is proved equal to a
function on values; what the code is for is then proved about those functions over every input and
every run.

| files | what they model |
|---|---|
| `Text`, `Protocol`, `Printing` | `find` on views, decimal numbers, case-insensitive maps, the response printer and what a client reads from it |
| `ParserSpec`, `Parser` | one call of the incremental request parser, as functions and as the object with its loops |
| `ParserLaws`, `RoundTrip`, `Verdicts` | chunk independence, printer/parser round trip, verdicts on start lines, queries and header blocks |
| `Dissection`, `Acceptance` | the language of the parser: exactly which messages are accepted and as what request, which throw what, and which wait |
| `Coroutine` | the slot vector, the queue of finished slots, create/resume/yield/finish |
| `ConnectionSpec`, `ConnectionLaws`, `StreamLaws`, `ViewLaws` | one connection as a step machine over system-call results, its invariants, the exact output stream, and what the one extra byte in the parser's view does |
| `History`, `WorkerHistory`, `EchoHistory` | what a connection holds and where it goes next, told by the results, events and reports delivered to it alone |
| `Exchange` | printer, parser and connection together: printed messages sent one at a time |
| `Connection` | `readRequest`, `writeResponse` and `operator()` in direct style, following the step machine |
| `WorkerSpec`, `WorkerLaws`, `Worker` | the event loop: handler map, epoll masks, coroutine pool, timeout sweep |
| `KVSpec`, `KVStore`, `Generator` | page index, binary search, linear scan, and the chunked data generator |
| `EchoSpec`, `EchoLaws`, `Echo` | the echo handler and the asynchronous server loop |
| `ShmAllocator` | the bump allocator in a shared region |

One Dafny `char` stands for one byte. System calls are replaced by the results they can have under
their usual contracts: bytes (never more than the free room or than what was offered), would block,
end of stream, reset, error. A result that cannot occur in a state changes nothing in the step
functions, and the objects' methods exclude it. Sizes are unbounded naturals; where the C++ could
wrap, the model writes the wrap out (`Generator.Wrap`, `Text.Stoull`, `ShmAllocator.AsUnsigned`,
`ShmAllocator.Address`, `KVSpec.Search`) or the constructor demands sizes that do not (`KVStore.Sized`).

## Where the code and its purpose part

* **One byte too many.** `lib/http/connection_handler.cpp:38` shows the parser one byte beyond those
  received. `ConnectionSpec.Service.slack` is that number of bytes. Interest sets, slots, free room
  and timeouts are proved for 0 and for 1; the output stream is proved for 0. `ViewLaws.CodedRun`
  says exactly when 1 makes no difference, and `ViewLaws.CodedViewCutsBody` shows the family of
  requests it breaks: a body that is one byte short is handed over as complete, with a stale byte.
  `ViewLaws.CodedRunCutsBody` is the run of the handler that does it.
* **The key-value lookup reads past the file** for a key above the last one, and for the first key of
  a last page that holds at most half of a page's records; for every other key it is the linear
  scan (`KVSpec.GetAsCoded`). With the window clamped to the file it always is
  (`KVSpec.GetClampedIsScan`). The end of the index is tested before it is looked at
  (`include/kvstore/index.hpp:24` looks first).
* **A failed registration update leaks a slot**: the handler is dropped while its coroutine is
  suspended (`lib/http/http_worker.cpp:93-95`). `WorkerLaws.SlotOwnership`: slots and handlers
  correspond at the end of a run exactly when no needed update failed in it.
* **An empty head is never accepted** (`lib/http/parser.cpp:18`): `Verdicts.EmptyHeadNeverDone`.
* **A trailing space of a header value is kept** (`lib/http/parser.cpp:152-156` passes an end where a
  count is expected); the object computes the count and is proved to take the whole rest of the line.
* **The echo server can be ended by one event** (`lib/tcp/async_server.cpp:106-110`): the catch clause
  closes the connection, and that close throws out of the accept loop when the connection is closed
  already or `shutdown` fails, as it does after a reset. `EchoLaws.EventKillsServer` lists exactly
  the reports that do so.
* **The allocator's guard has its operands reversed** (`include/shmem/shmallocator.hpp:30`): it
  refuses non-empty requests on a full region, and otherwise only counts above 2^64 minus the room
  (`ShmAllocator.CodedRefuses`). `ShmAllocator.CodedAllocate` says exactly which allocations leave
  the region safe; the safety of every history is proved with the free room as end minus begin.
* **A length that is no number, or too large, ends the connection unanswered** (`lib/http/parser.cpp:35`
  lets the exceptions of `stoull` out, and no clause catches them): `Acceptance.ThrownExactly`.

## Model

| member | source | states |
|---|---|---|
| Protocol.InsertAllFirstWins | include/http/protocol.hpp:137-157 | inserting a list of fields one by one gives the case-insensitive map in which the earliest field of each name wins, whatever was in the map before |
| Protocol.FirstWinsUnique | include/http/protocol.hpp:137-157 | the first-wins description determines the map |
| Protocol.FoldSame | lib/http/protocol.cpp:33-36 | two names are keys of the same entry exactly when they have the same length and differ only in the case of ASCII letters |
| Protocol.FoundUnderAnySpelling | include/http/protocol.hpp:137-157 | after inserting a list, a field is found under every spelling of its name, the earliest with that name winning, unless the map already held one |
| Protocol.HttpResponse.AddHeader | lib/http/http_response.cpp:6-9 | appends one header and changes nothing else |
| Protocol.HttpResponse.SetBody | lib/http/http_response.cpp:17-21 | replaces the body and appends the Content-Length of the new body |
| Protocol.HttpResponse.Dump | lib/http/http_response.cpp:22-32 | the stream loop prints the whole text of the response, of which `Printing.DumpReadsBack` says what it holds |
| Printing.DumpReadsBack | lib/http/http_response.cpp:22-32 | a printed response with headers free of delimiters comes apart in exactly one way: a status line of version, decimal code and reason phrase, one line for each header in order from which that header is read back, an empty line, and exactly the body |
| Printing.BareDumpReadsBack | lib/http/http_response.cpp:22-32 | without headers the empty line follows the status line at once, and the body is what follows it |
| Printing.SetBodyReadsBack | lib/http/http_response.cpp:17-32 | a response whose body was set reads back with that body and, unless an earlier header claims a length, with its length under every spelling of Content-Length |
| Printing.ErrorTexts | lib/http/connection_handler.cpp:119 | the two error responses of the parser, byte for byte |
| Text.StoullOfDecimal | lib/http/parser.cpp:34-35 | what `to_string` prints for any 64-bit size, `stoull` reads back |
| Text.StoullExactly | lib/http/parser.cpp:34-35 | `stoull` reads a number, or one too large, exactly in the texts made of blanks, an optional sign, at least one digit and anything else |
| Text.StoullReads | lib/http/parser.cpp:34-35 | and then it is the value of the whole run of digits, too large above 2^64-1, and negated modulo 2^64 after a minus sign |
| Text.EveryDecimal | lib/http/parser.cpp:34-35 | every run of digits is the usual decimal form of its value after some zeros |
| Parser.HttpRequestParser.Parse | lib/http/parser.cpp:4-49 | one call on the object leaves exactly the fields and the exception of the value-level parser, also when it throws half-way |
| Parser.HttpRequestParser.ParseQueryParameters | lib/http/parser.cpp:74-93 | the shrinking-view loop terminates and inserts the separated pieces up to the first one without `=` |
| Parser.HttpRequestParser.ParseUrl | lib/http/parser.cpp:58-73 | query first, then path; an empty path throws and leaves the ERROR phase |
| Parser.HttpRequestParser.ParseStartLine | lib/http/parser.cpp:113-140 | token, target and version in order, with the fields assigned before a throw kept |
| Parser.HttpRequestParser.ParseHeader | lib/http/parser.cpp:142-157 | reading the byte after the colon, possibly the CR past the line, yields the field of the line: one space dropped, trailing space kept |
| Parser.HttpRequestParser.ParseHeaders | lib/http/parser.cpp:159-165 | the loop over the header block terminates, every find succeeds, and the fields are those of its lines |
| ParserSpec.TerminatedStep | lib/http/parser.cpp:17-22 | in the slice handed to the header loop every line has an end, and what remains is empty or ends in CRLF again, never a single byte |
| RoundTrip.LinesRejoin | lib/http/parser.cpp:159-165 | the lines visited, with their ends restored, concatenate to the header block |
| RoundTrip.LinesUnbroken | lib/http/parser.cpp:159-165 | no visited line contains a line end |
| RoundTrip.PiecesRejoin | lib/http/parser.cpp:74-93 | the query pieces visited are free of `&` and rejoin to the query |
| RoundTrip.QueryThrows | lib/http/parser.cpp:80-85 | the query loop throws, with 400, exactly when some piece has no `=` |
| RoundTrip.QueryMapIsFirstWins | lib/http/parser.cpp:74-93 | joining any non-empty list of pairs and parsing it gives the first-wins case-insensitive map of the list |
| RoundTrip.HeadersRoundTrip | lib/http/http_response.cpp:26-28 | printed headers, read by the header loop, are inserted in the order printed |
| RoundTrip.HeadEndFound | lib/http/parser.cpp:18 | the first CRLFCRLF after printed headers is the one printed, even if the body contains others |
| RoundTrip.SetBodyAnnounces | lib/http/http_response.cpp:17-21 | the length a header list announces is that of the body set, unless an earlier header already claims one |
| RoundTrip.MessageRoundTrip | lib/http/parser.cpp:4-49 | printing a message of any method and parsing it recovers method, path, query map, version and headers, whatever bytes follow; a POST or PUT that announces its length gets exactly its body, whatever it contains, and every other message an empty one |
| Exchange.PrefixPending | lib/http/parser.cpp:4-49 | every proper prefix of a printed message is still pending: the parser completes with the last byte and not before |
| Verdicts.LineFieldReprints | lib/http/parser.cpp:142-157 | an accepted header line is its colon-free name, a colon, at most one dropped space and its value |
| Verdicts.HeaderVerdict | lib/http/parser.cpp:142-165 | a header block is refused with 400 exactly when some line has no colon; otherwise the map is the first-wins map of its lines |
| Verdicts.QueryFirstWins | lib/http/parser.cpp:74-93 | the map of every accepted query is the first-wins map of its pieces |
| Verdicts.UrlVerdict | lib/http/parser.cpp:58-93 | a target is accepted exactly with a non-empty path and a query that is empty or has only named pieces; the path is the text before the first `?` and the query the first-wins map of the pieces after it; nothing else is assigned, and a refusal is a 400 |
| Verdicts.StartLineVerdict | lib/http/parser.cpp:94-140 | which start lines are accepted, with what method, version, path before the first `?` and first-wins query map, and which of the others are answered 505 and which 400 |
| Verdicts.StartLineTooShort | lib/http/parser.cpp:94-125 | a start line with fewer than two spaces is a 400 |
| Verdicts.EmptyHeadNeverDone | lib/http/parser.cpp:17-22 | a head without header lines is never accepted; it waits, or is a 400 once another empty line arrives |
| Dissection.HeadFound | lib/http/parser.cpp:17-22 | after any lines without line ends, none but the first empty, the first CRLFCRLF is the end of the last line and the empty line after it |
| Dissection.DissectionUnique | lib/http/parser.cpp:4-49 | a message can be taken apart into start line, head lines and rest in one way only |
| Acceptance.AcceptedExactly | lib/http/parser.cpp:4-49 | a message is accepted as a request exactly if it is a start line saying its method, path, query and version, at least one header line, all with a colon and together its first-wins headers, an empty line, and its body of the announced length, whatever follows; so the accepted request is the only one it reads as |
| Acceptance.ThrownExactly | lib/http/parser.cpp:4-49 | the parser throws exactly on a bad start line (400), a good one with an unsupported version (505), a complete head with a line that has no colon (400), and a complete good head announcing a length that `stoull` rejects, each with that exception |
| Acceptance.AnnouncedByFields | lib/http/parser.cpp:29-35 | the length that counts is that of the earliest Content-Length line, in any spelling, of a POST or PUT |
| Acceptance.WaitsExactly | lib/http/parser.cpp:4-49 | the parser waits for more exactly on what is neither a request nor faulty |
| Acceptance.RunAnswersLanguage | lib/http/connection_handler.cpp:81-123 | on every run each answered stretch of input reads as a request and is sent the callback's response to it, or the bare error response with the code the callback raised; or it has one of the two faults that are answered and is sent just that error text |
| ParserLaws.ParseExtends | lib/http/parser.cpp:4-49 | a parser re-run on a longer buffer ends where a new parser on that buffer ends; exceptions and finished requests are final |
| ParserLaws.ChunkIndependence | lib/http/parser.cpp:4-49 | for every growing sequence of buffers, all fields or the exception equal those of a new parser given only the last one |
| ParserLaws.ExtraByte | lib/http/connection_handler.cpp:38-41 | one byte beyond those received changes the parser's outcome exactly when it is the byte the parser waits for |
| Coroutine.CreateKeeps | lib/coroutine/coroutine.cpp:61-73 | the id handed out is not live before, and is the only one to become live; a routine that is running goes on running |
| Coroutine.FinishKeeps | lib/coroutine/coroutine.cpp:107-119 | the routine that ends is the running one, whose id alone ceases to be live |
| Coroutine.ResumeKeeps | lib/coroutine/coroutine.cpp:75-119 | a resume from the main context returns to it and can only end its own slot; it says that the routine can go on exactly if it was live and yielded, and rethrows exactly if it was live and threw |
| Coroutine.RunSafe | lib/coroutine/coroutine.cpp:61-119 | over every run of creations (from the main context or from within a routine), entries, yields and endings, the queue lists exactly the finished slots once each, the current routine is none or a live one, and there are as many slots as were ever live at once |
| Coroutine.LiveIffHeld | lib/coroutine/coroutine.cpp:61-119 | on every run an id is live exactly when it was handed out and its routine has not ended since |
| Coroutine.NeverTwice | lib/coroutine/coroutine.cpp:61-73 | on every run no id is handed out again while the routine it was handed out for has not ended |
| Coroutine.QueueInEndOrder | lib/coroutine/coroutine.cpp:107-119 | on every run the queue lists the finished ids in the order in which their routines ended |
| Coroutine.OldestReused | lib/coroutine/coroutine.cpp:61-73 | the id that is reused is, of all finished ones, the one that ended longest ago |
| Coroutine.Ordinator.CreateRoutine | lib/coroutine/coroutine.cpp:61-73 | reuses the oldest finished slot, else appends one; never a live id |
| Coroutine.Ordinator.ResumeRoutine | lib/coroutine/coroutine.cpp:75-101 | ids that are zero, too large or finished do nothing; otherwise the result says whether the routine can go on and whether its exception is rethrown |
| Coroutine.Ordinator.EndEntry | lib/coroutine/coroutine.cpp:107-119 | the running slot is marked finished, queued, and control is the main context's |
| ConnectionLaws.StepKeepsSound | lib/http/connection_handler.cpp:17-123 | every step keeps free room before each read, unsent bytes before each write, and interest exactly {IN} while reading and {OUT} while writing |
| ConnectionLaws.RunKeepsSound | lib/http/connection_handler.cpp:17-123 | the same over every run, so a zero return of `read` can only mean end of stream |
| ConnectionLaws.RunKeepsBounded | lib/http/connection_handler.cpp:42-44 | the read buffer is its first size doubled some number of times, and never exceeds that size or twice the longest request seen |
| ConnectionLaws.TimedOutResumeFinishes | lib/http/connection_handler.cpp:25-30 | a suspended handler resumed with its timeout flag set ends in that resume and writes nothing more |
| ConnectionLaws.ClosesByFields | lib/http/connection_handler.cpp:72-80 | which requests close, by their header lines: the earliest Connection line in any spelling decides, against the value `Keep-Alive` on HTTP/1.0 and `close` on HTTP/1.1 |
| History.CanOccur | lib/http/connection_handler.cpp:22-71 | on every run just those results are possible that the system calls' contracts allow: from the side that waits, some bytes, no more than the room or the offer |
| History.RunHistory | lib/http/connection_handler.cpp:17-137 | on every run: received are the bytes `read` delivered, sent as many as `write` took, the last activity is the time the socket was last not ready, the timeout flag is set by the resume that sets it, and the handler is suspended exactly after a result that would have blocked |
| History.RunLeadsTo | lib/http/connection_handler.cpp:81-123 | on every run each result leads to exactly one next point of the coroutine: waiting for more, writing the response or an error, the next request, or the end with or without an exception, by what the parse of the bytes so far and the callback say |
| StreamLaws.StepKeepsStream | lib/http/connection_handler.cpp:17-123 | every step keeps: input is the answered requests' bytes and the pending ones, the parser is where one parse of the pending bytes would be, output is the answers in order |
| StreamLaws.RunKeepsStream | lib/http/connection_handler.cpp:49-123 | on every run, for every split into reads and every suspension, the bytes sent are the answers to the one-shot parses in request order, complete except possibly the last, with nothing after a closing or error response |
| StreamLaws.KeptAsAsked | lib/http/connection_handler.cpp:72-111 | on every run, once an answer's last byte is written the connection goes on exactly when the callback answered a request that asks to stay, and otherwise ends; the bytes are the callback's response under the request's version, announcing keep-alive exactly on a kept HTTP/1.0 connection |
| Exchange.ExchangeExact | lib/http/connection_handler.cpp:17-123 | a client that sends printed messages one at a time, in any split into reads and with any suspensions, is sent the answers to exactly the requests it meant, in order, all complete except possibly the last; what has been received is the answered messages and, while the handler reads, a proper part of the next, so a message received in full has been answered or is being answered |
| ViewLaws.CodedStep | lib/http/connection_handler.cpp:38-41 | the handler as coded takes the intended step exactly when it does not show the parser, as extra byte, the one it waits for |
| ViewLaws.CodedRun | lib/http/connection_handler.cpp:38-41 | coded and intended handler agree all along a run exactly when no step of it misleads the parser |
| ViewLaws.CodedViewCutsBody | lib/http/connection_handler.cpp:38-41 | every POST or PUT message received up to one byte before the end of its body is still pending, but with the extra byte it counts as complete, its last body byte being whatever lies behind |
| ViewLaws.CodedRunCutsBody | lib/http/connection_handler.cpp:17-47 | the run in which that happens: after one read ending one byte before the end of the body the intended handler waits on, while the one as coded answers a request whose last body byte is a NUL that never arrived; so the two part |
| Connection.ConnectionHandler.Fill | lib/http/connection_handler.cpp:22-37 | one read with its suspension is one or two machine steps and leaves the fields of the machine |
| Connection.ConnectionHandler.ReadRequest | lib/http/connection_handler.cpp:17-47 | the read loop with a real parser object is left exactly as the machine leaves its reading state; under the intended view, what it returns or throws is the one-shot parse of the bytes received |
| Connection.ConnectionHandler.WriteResponse | lib/http/connection_handler.cpp:49-71 | the write loop is left complete, blocked, reset, timed out or failed exactly as the machine's writing state |
| Connection.ConnectionHandler.Serve | lib/http/connection_handler.cpp:86-111 | the try block: one request and its response, left by returning, by going on to the next, or by the exception the catch clauses will see, with the machine about to report it |
| Connection.ConnectionHandler.Operate | lib/http/connection_handler.cpp:81-123 | the direct-style coroutine body follows the step machine through every result, stops only when the machine is finished or the input is used up, and lets an exception out exactly when the machine says so: failed reads and writes, exceptions of the callback that answer nothing, and a timeout while an error response is written |
| WorkerSpec.LegStops | lib/http/connection_handler.cpp:139-144 | one resume ends suspended or finished, in a state of some run of the connection; which run, `WorkerHistory.ResumeIsRun` says |
| WorkerHistory.ResumeIsRun | lib/http/http_worker.cpp:85-100 | a resume is the run of the connection over the delivered results up to the first at which it is suspended or finished, or over all of them and then a socket that is not ready |
| WorkerHistory.UsesUpOnce | lib/http/http_worker.cpp:85-100 | there is only one such part of the results |
| WorkerHistory.EventExact | lib/http/http_worker.cpp:76-117 | an event leaves its connection where that run ends, kept and watched for what it waits for exactly if it is not finished and its new registration, where one is needed, went through; no other descriptor is touched |
| WorkerHistory.HandlerIsRun | lib/http/http_worker.cpp:57-117 | over every run of actions a handler's connection is what the results delivered to its descriptor since its creation make of a new one, and was last active at the time of the last of them |
| WorkerHistory.HandlerReceives | lib/http/http_worker.cpp:57-117 | over every run of actions a handler has received exactly the bytes delivered to its descriptor since its creation, and sent as many as were taken from it |
| WorkerLaws.SettleKeepsFit | lib/http/http_worker.cpp:85-100 | whichever way the coroutine comes back, the world is fit again |
| WorkerLaws.RunFit | lib/http/http_worker.cpp:57-117 | over every run of accepts, events and sweeps each handler is suspended in a live slot of its own and epoll watches what it waits for |
| WorkerLaws.NoLostWakeup | lib/http/http_worker.cpp:76-117 | a handler waiting to read is registered for input only, one waiting to write for output only, a client without handler for input, on every run |
| WorkerLaws.WorkerOutputExact | lib/http/http_worker.cpp:57-117 | in every worker run each registered connection has sent exactly what its input demands, and so has every one that an event or a sweep resumes when that resume comes back, suspended or ended; the sweep's resume ends it without sending more |
| WorkerLaws.SlotOwnership | lib/http/http_worker.cpp:57-100 | unfinished slots and handlers correspond one to one exactly when no needed epoll update failed in the run; live slots are always the handlers plus the leaked ones |
| WorkerLaws.SweepExact | lib/http/http_worker.cpp:57-74 | a sweep in any order removes exactly the visited entries idle for the threshold, with slot and registration, and leaves the others untouched |
| WorkerHistory.SweepByTime | lib/http/http_worker.cpp:57-74 | over every run of actions a sweep removes exactly the visited handlers whose last suspension, told by the actions, lies at least the threshold back |
| WorkerLaws.AcceptAllExact | lib/http/http_worker.cpp:128-152 | accepting registers exactly the clients that epoll took, for input, and changes nothing else |
| WorkerLaws.BatchIsRun | lib/http/http_worker.cpp:101-117 | a batch of events continues a run by its accepted clients and ready descriptors, in order, so every law over runs holds after it |
| Worker.HttpWorker.ResumeHandler | lib/http/http_worker.cpp:85-100 | the map, masks and pool after a resume, for every way the coroutine and the epoll update can end |
| Worker.HttpWorker.RegisterHandler | lib/http/http_worker.cpp:76-83 | a new handler gets a slot and its first resume |
| Worker.HttpWorker.HandleReady | lib/http/http_worker.cpp:109-115 | an event resumes the handler of its descriptor or creates one, and keeps the world fit |
| Worker.HttpWorker.HandleEvents | lib/http/http_worker.cpp:101-117 | the batch loop applies the events in order and keeps the world fit |
| Worker.HttpWorker.RegisterClients | lib/http/http_worker.cpp:128-152 | accepted clients are registered for input; errors are skipped |
| Worker.HttpWorker.ScheduleTimeoutHandler | lib/http/http_worker.cpp:57-74 | after the sweep the map holds exactly the untouched entries idle for less than the threshold |
| KVSpec.SearchIsScan | include/kvstore/store.hpp:30-47 | on a window reaching at most one past the file the search is the linear scan, unless the key is above the last one and the window reaches past |
| KVSpec.GetClampedIsScan | include/kvstore/store.hpp:20-47 | with the window clamped to the file, index plus binary search is the linear scan for every sorted file, page size and key |
| KVSpec.GetAsCoded | include/kvstore/store.hpp:20-47 | as coded, the lookup reads past the file exactly for a key above the last or the first key of a last page at most half full, and otherwise is the linear scan |
| KVSpec.LastPageEndsFile | include/kvstore/index.hpp:13-15 | the computed size of the last page is what is left of the file from its start |
| KVSpec.WindowIndices | include/kvstore/index.hpp:22-34 | the byte window of a key, divided by the record size, is its page, or ends with the file |
| KVStore.KVIndex.constructor | include/kvstore/index.hpp:11-20 | for every file, sorted or not, the built map holds exactly the first keys of the pages, each with the offset of the last page that starts with it |
| KVStore.KVIndex.FindPage | include/kvstore/index.hpp:22-34 | on a sorted file the lower-bound lookup with its step back names the window of the last page starting at or below the key |
| KVStore.Store.FindByKey | include/kvstore/store.hpp:30-47 | the search loop terminates and `mid - 1` never wraps on windows starting at or below the key |
| KVStore.Store.Get | include/kvstore/store.hpp:20-27 | the object's lookup is the scan or reads past the file, exactly as characterised |
| KVStore.Store.GetClamped | include/kvstore/store.hpp:20-27 | the object's lookup with the clamped window is the scan |
| Generator.FillDataPage | examples/kvstore-http/generator.cpp:25-32 | slot i of the page gets key begin plus i steps in 64-bit arithmetic |
| Generator.FillerFills | examples/kvstore-http/generator.cpp:25-32 | every data field is the letter x over its whole length |
| Generator.GenerateData | examples/kvstore-http/generator.cpp:34-56 | page loop and remainder write each slot exactly once, and slot i ends with key i·step modulo 2^64 |
| Generator.GenerateThenLookup | examples/kvstore-http/generator.cpp:34-56 | on a generated file the clamped lookup finds a key exactly when the step divides it and the quotient is below the number of keys, and then the record with that key |
| Generator.GenerateThenLookupAsCoded | include/kvstore/store.hpp:20-47 | the same for the lookup as coded, with the exact keys for which it reads past the file |
| EchoLaws.CallKeeps | examples/async-tcp-example/async-echo.cpp:21-78 | one handler call only appends to what was received and sent, sent stays a prefix of received, and unless it throws or closes, output is of interest afterwards exactly when bytes are pending |
| EchoLaws.ReadLoopVerdict | examples/async-tcp-example/async-echo.cpp:49-64 | how reading ends is decided by the results of `read` alone; received grows by exactly the bytes they bring, each cut to the room in a buffer that doubles when full |
| EchoLaws.WriteLoopVerdict | examples/async-tcp-example/async-echo.cpp:66-78 | on an open connection writing throws exactly when some write fails before the pending bytes are taken, and sends the bytes taken until then |
| EchoLaws.CallMoves | examples/async-tcp-example/async-echo.cpp:21-78 | one call receives exactly the bytes its reads bring and sends the next bytes in order, as many as its writes take; a reported error moves nothing |
| EchoHistory.ReportLeaves | lib/tcp/async_server.cpp:104-157 | a connection survives a report exactly if nothing failed, the stream did not end and its new registration went through, and then holds what the call moved; no other connection is touched |
| EchoHistory.AcceptLeaves | lib/tcp/async_server.cpp:116-138 | accepting leaves one new, open, empty connection watched for both directions, or ends the server |
| EchoHistory.EchoesDelivered | lib/tcp/async_server.cpp:97-181 | over every run a connection has received exactly the bytes its reports delivered since it was accepted, and what it has sent is a prefix of them |
| EchoLaws.RunFit | lib/tcp/async_server.cpp:97-181 | over every run, with closes, updates and registrations failing at any point, each registered connection is first in, first out, its epoll mask is its interest set, and epoll watches no other connection while the server lives |
| EchoLaws.OutputWatched | lib/tcp/async_server.cpp:140-157 | after each handler call that keeps a connection, epoll watches it for output exactly when bytes are pending |
| EchoLaws.EventKillsServer | lib/tcp/async_server.cpp:97-114 | a report ends the accept loop exactly when output is reported while reading meets the end of the stream, the close there succeeds and bytes are still to be written, or when something else throws (closing on ERR or at the end, reading, a write failing before the pending bytes are taken, the epoll update when bytes begin or cease to be pending) and the close in the catch clause fails too |
| EchoServer.EchoConnection.HandleRead | examples/async-tcp-example/async-echo.cpp:49-64 | the read loop over the growing buffer, closing at the end of the stream or throwing when that close fails |
| EchoServer.EchoConnection.HandleWrite | examples/async-tcp-example/async-echo.cpp:66-78 | the write loop, which throws on a closed connection with bytes pending |
| EchoServer.EchoConnection.Call | examples/async-tcp-example/async-echo.cpp:21-41 | the handler's branches on the reported events, and which of them throw |
| EchoServer.AsyncServer.HandleEvent | lib/tcp/async_server.cpp:140-157 | connections and masks after one event, for every result of the update and of the closes |
| EchoServer.AsyncServer.CloseConnection | lib/tcp/async_server.cpp:166-171 | the catch clause: a closed connection, or one whose close fails, ends the server |
| EchoServer.AsyncServer.RegisterConnection | lib/tcp/async_server.cpp:173-180 | a new connection is registered with the default interests, or the failure to do so ends the server |
| ShmAllocator.AllocateSafe | include/shmem/shmallocator.hpp:28-36 | with the guard read as free room, allocating keeps live blocks disjoint and inside the region, is refused exactly when it does not fit, and otherwise hands out just the bytes above `begin` |
| ShmAllocator.DeallocateSafe | include/shmem/shmallocator.hpp:38-43 | deallocating keeps the region safe, takes the one block off the live ones, and moves `begin` back to its start exactly for a block that ends at the region's end |
| ShmAllocator.RunSafe | include/shmem/shmallocator.hpp:28-43 | the same over every interleaving of calls by any processes and element sizes |
| ShmAllocator.CodedRefuses | include/shmem/shmallocator.hpp:30-32 | as coded, for every count of 64 bits: a full region refuses exactly the non-empty requests, any other exactly those above 2^64 minus the room in elements |
| ShmAllocator.CodedAllocate | include/shmem/shmallocator.hpp:28-36 | as coded, for every count of 64 bits and with the address wrapping, an allocation keeps the region safe exactly when it fits, the region is full, or the count is above 2^64 minus the room in elements |
| ShmAllocator.TypedAllocator.AllocateBlock | include/shmem/shmallocator.hpp:28-36 | the shared begin after an allocation by one of many typed allocators, for either guard |
| ShmAllocator.TypedAllocator.DeallocateBlock | include/shmem/shmallocator.hpp:38-43 | the shared begin after a deallocation of a live block |

## Left out

- Connection.ConnectionHandler.Operate: takes the callback as a function of the request, so a callback with memory is not modelled, nor one that throws the handler's own timeout exception.
- Worker.HttpWorker.HandleEvents: the handler map holds machine states rather than handler objects; the objects are proved to follow the machine separately, and aliasing of handlers is not modelled.
- Coroutine.Ordinator.ResumeRoutine: how the routine gives control back is a parameter, and what it creates meanwhile is in the runs of `Coroutine.Run` only; nested resumes are excluded from both, since one saved main context cannot support them. In the worker a context switch does not fail.
- EchoServer.AsyncServer.HandleEvent: the connection map holds values. A failing close leaves the descriptor open and, in the catch clause, registered; the destructor's further attempt to close it comes after the end of the server.
- ShmAllocator.CodedRefuses: assumes a region below 2^63 bytes and a room that is a multiple of the element size; other pointer differences are undefined in C++.
- ShmAllocator.RunSafe: a block of no bytes is nowhere, so it is not required to lie in the region. Bounds are against the region's own begin and end (`lib/shmem/shared_region.cpp:30` places the end past the mapping by the header size).
- KVStore.KVIndex.constructor: the file must be non-empty and its sizes must not wrap; an empty file cannot be mapped.
- KVStore.Store.Get: lookups in a file whose keys are not strictly increasing; the linear scan is then not what a binary search is for.
- Generator.GenerateData: the file is an array of records; `resize` of the page is a new, shorter page, which is filled completely before it is read. Zero keys divide by zero in the source.
- Verdicts.HeaderVerdict: names containing a NUL byte are compared as whole strings; in the source `strcasecmp` stops at the NUL while the hash does not.
- Views as values: the parser's views of path and body point into a buffer that `resize` may move (`lib/http/connection_handler.cpp:43`); the model copies them.
- Closing a descriptor happens once; the sweep and the destructor both close it in the source (`lib/http/http_worker.cpp:68`), which can hit a reused descriptor of another worker.
- Bytes after a completed request are part of that request's segment and are dropped, as the code drops them; pipelined requests are not served.
- The order in which the sweep visits the map is arbitrary, and the result is proved for every order.
- Socket set-up, name resolution, the blocking TCP classes, process wrappers, logging, command-line parsing, request pretty-printing: only easy loops.
- `ShMap`, `ShMutex`, `LockableSem`: thin locks around a map and a semaphore; a call under the lock is one step here.
- The wall-clock accounting of the event loop and the graceful-shutdown path: they depend on uninitialised or environment-dependent time.

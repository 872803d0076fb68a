# A verified model of Boa's core

Boa is a single-process, event-driven HTTP server. This project models the parts of it that hold
invariants over unbounded runs, and proves what they promise: the request scheduler and its poll
arrays, the incremental readers and writers, byte ranges, the two lookup structures, and the string
and date transforms. Check it with `dafny verify dfyconfig.toml`.

What the source updates in place is updated in place here: request nodes on doubly-linked lists,
range nodes and their pool, the mmap table, the buffers of a request, C strings decoded where they
stand. Each such method is tied to a function on values, and the laws are proved about those
functions for all inputs, all runs and all schedules. System calls (`accept`, `poll`, `read`,
`write`, `mmap`), the clock and the request handlers are inputs, so every statement holds whatever
they answer.

| file | what it models |
|---|---|
| `Commons.dfy`, `Bytes.dfy` | shared types and constants |
| `Queues.dfy` | request nodes and the three intrusive lists |
| `Requests.dfy` | what happens to one request in a visit, what it waits for, what wakes it |
| `Scheduler.dfy` | the scheduler and both main loops as a machine on values, with its laws over runs |
| `Server.dfy` | the scheduler on the heap: lists relinked during scans, poll arrays swapped |
| `HeaderReader.dfy` | the header recogniser under any division into packets, and pipelining |
| `PostSpool.dfy` | spooling a POST body to a file |
| `Transfer.dfy`, `Responses.dfy` | sending a response step by step: laws on values, and the buffer in place |
| `Courses.dfy` | whole responses, from the first bytes in the buffer to the end of the request |
| `Completion.dfy` | that responses come to an end with everything sent |
| `Multipart.dfy` | a reader of multipart responses, and what it reads in those of the server |
| `RangeSyntax.dfy` | the packed parser table, a grammar for byte-range sets, and printing |
| `RangeList.dfy` | range nodes, their pool, the parser's actions and the fix-up pass |
| `MmapCache.dfy` | the reference-counted cache of mapped files |
| `Aliases.dfy` | the hashed alias table against a linear scan |
| `EscapeTable.dfy`, `UriText.dfy` | the escape bitmap, escaping, decoding and cleaning of URIs |
| `HttpDate.dfy`, `DateFormats.dfy` | printing and parsing dates, the older formats, and If-Modified-Since |

## Where the code does not do what one would expect

Each of these is stated as an exact condition, for all inputs.

- A suffix range of at least the file's size loses the first byte of the file, and the number
  2^32-1 is taken for a missing one (`RangeList.FitOne`, `RangeSyntax.PrintParse`).
- The test for a range with neither number fires on two numbers that are 2^32-1 instead
  (`RangeSyntax.NeitherTestExactly`). So a bare "-" is accepted and served as the bytes 1 to
  filesize-1, and a set without ranges is accepted too (`RangeSyntax.HyphenAccepted`,
  `RangeList.HyphenServed`; exactly which accepted strings conform: `RangeSyntax.ConformingStrings`).
- Every interruption of `poll` leaves one more entry for the server socket in the array while there
  is room for connections (`Scheduler.InterruptsPileUp`). From the start of the server, one more of
  them in a row than the array has entries overflows it (`Scheduler.InterruptsOverflow`).
- `process_get` writes past the output buffer, so a write that accepts bytes behind a short flush
  sends them out of order (`Transfer.DirectOrderExactly`, with a run that does it in
  `Courses.ShortFlushDisorders`). A run keeps the response for all files of a size exactly when it
  has no such visit (`Courses.GetRunExactly`).
- The part headers of a HEAD request for several ranges get no reserve, so trickling flushes let them
  outgrow the buffer and the request dies (`Courses.RunExactly`, an input in `Courses.HeadOutgrows`).
- The copy at the end of `init_get` uses the 256 reserved bytes too, so the next multipart text
  may not fit (`Transfer.InitCopyExactly`, `Courses.InitCopyDelivers`; inputs in
  `Courses.InitCopyOverflows`).
- A file that is shorter than its size promised ends the response early, without an error
  (`Courses.CutShortExactly`).
- `free_request` drops the unsent bytes of a live request exactly when its last flush blocks or
  fails, and always those of a dead or timed-out one (`Requests.FinishDropsExactly`).
- A request whose header ends behind the 8192 bytes of the stream buffer closes the connection
  (`HeaderReader.ClosedByBufferExactly`).
- `escape_string` leaves '?' bare, so decoding undoes it exactly when there is none
  (`UriText.EscapeStringRoundTrip`).
- The alias "/" is found only by URIs whose first segment happens to hash like it
  (`Aliases.FindIsLinear`).
- Once a slot has been freed, the mmap cache can map a file a second time in front of its live entry
  (`MmapCache.SecondEntryExactly`, `MmapCache.SecondEntryAfterFreeing`).
- Only dates of 1970 to 2020 are accepted, although the printer writes any year
  (`HttpDate.ModifiedSincePrinted`).

## Model

A row names the member whose contract states the property. `Daemon`, `Queue`, `Conn`, `Spool`,
`Response`, `Ranges`, `MmapList` and `AliasTable` are classes.

| member | source | states |
|---|---|---|
| `Queues.Queue.Enqueue` | src/queue.c:136-145 | the request becomes the first node of a well-formed, acyclic, doubly-linked list; all others keep their order |
| `Queues.Queue.Dequeue` | src/queue.c:116-128 | a request anywhere on the list is unlinked, the rest stays well-formed and in order, and its own links are cleared |
| `Queues.SkipsUnlinks` | src/queue.c:116-128 | nodes linked around one of them form the list without it, in both directions |
| `Requests.FlushAgrees` | src/buffer.c:213-257 | the two buffer indexes seen by the scheduler stay those of the flush that moves the bytes, with the same result |
| `Requests.VisitKeepsConnection` | src/request.c:387-398 | a visit never changes the descriptor, and the keep-alive count changes exactly when the request is cleared for another one, and then falls by one |
| `Requests.KeepAliveBound` | src/request.c:387-398 | over every life of a connection it is reused at most as often as its keep-alive count says |
| `Requests.DeadCloses` | src/request.c:537-542 | a dead or timed-out request is closed by its next visit, whatever the world answers |
| `Requests.DoneFate` | src/request.c:473-574 | the exact fate of a finished request: without unsent bytes it is over, waiting cleared if the connection may be reused and closed otherwise; of unsent bytes those that the two flushes do not take are kept, on the blocked list if a socket is blocked; a failing one closes |
| `Requests.ServedFate` | src/request.c:473-586 | the exact fate of a request that a handler serves: blocked earlier bytes make it wait, failing ones close it, and otherwise the results -1, 1, 0 and any other make it wait, stay, end and die |
| `Requests.DrainedExactly` | src/request.c:524-535 | over any number of visits a finished request stays exactly until the sockets have taken its bytes; then it is over |
| `Requests.FinishDropsExactly` | src/request.c:302-346 | on bytes: a freed request has sent all it held exactly when it held none, or was alive and its last flush took all; a kept one has the rest in its buffer; a dead one is not flushed |
| `Scheduler.ArrivalExactly` | src/request.c:81-258 | what `get_request` does in every case: with the limit's number of connections or more the new one is refused with 503, its text flushed once, and accepting stops, exactly then; below it a cleared request on the new descriptor waits to be read |
| `Scheduler.ArriveKeeps` | src/request.c:81-258 | accepting, whatever the outcome, keeps the count equal to the live requests and at most one over the limit, and puts at most one request in front |
| `Scheduler.SettleKeeps` | src/request.c:563-586 | whether a request stays, blocks or is freed, the count, the ownership of poll entries and their number are kept |
| `Scheduler.ServeThenArrive` | src/request.c:470-562 | a connection accepted in the middle of a visit does not disturb the outcome of that visit |
| `Scheduler.RoomToSettle` | src/config.c:611-612 | during a scan there always is a free poll entry for the request being visited |
| `Scheduler.StepKeeps` | src/request.c:472-587 | one round of the scan keeps the invariant |
| `Scheduler.ScanLaw` | src/request.c:470-587 | the scan visits exactly the requests that were on the list, each once, in list order: closed forms for the ready list, the blocked list, the poll entries and the count; each arrival is refused exactly when the connections at its moment reach the limit |
| `Scheduler.PassLaw` | src/request.c:458-588 | for every `process_requests`: who stays keeps list order, who blocks gets successive poll entries, who arrives waits unvisited in front, refused exactly at the limit |
| `Scheduler.ReadyVisited` | src/request.c:470-587 | every request that is ready before a pass is visited in it and ends up where that visit sends it |
| `Scheduler.UpdateLaw` | src/poll.c:160-204 | `update_blocked` decides once about each blocked request in list order: sleepers keep their order and are renumbered, the woken go to the front of the ready list |
| `Scheduler.RouseExactly` | src/poll.c:160-204 | which blocked requests `update_blocked` wakes: all but those without an event that were served at most 60 seconds ago and are not past the keep-alive timeout with nothing read; these keep everything but their number; a woken one is dead exactly on POLLNVAL or POLLERR, else timed out exactly when too late, else unchanged |
| `Scheduler.EventsVisited` | src/poll.c:99-141 | every blocked request with an event or too late is visited in the same iteration, as it was woken, and ends up where that visit sends it |
| `Scheduler.SleepersPolled` | src/poll.c:196-200 | after renumbering each sleeper owns the entry that names its own descriptor and interest |
| `Scheduler.UpdateKeeps` | src/poll.c:126-137 | emptying one poll array into the other keeps every blocked request's entry its own, and leaves no other entry |
| `Scheduler.UpdateCounted` | src/select.c:152-238 | waking any requests keeps the count, whatever decides about them |
| `Scheduler.PassKeeps` | src/request.c:458-588 | a whole pass keeps the count, the bound and the ownership of poll entries |
| `Scheduler.IterateKeeps` | src/poll.c:43-141 | an iteration keeps the invariant; the entries are exactly the blocked requests' unless `poll` was interrupted |
| `Scheduler.EveryRun` | src/poll.c:33-142 | after every run: count = ready + blocked, at most one over the limit, distinct poll entries each naming its own descriptor and interest, and at most one stray entry per trailing interruption |
| `Scheduler.BlockedEntry` | src/queue.c:36-68 | in every reachable state a blocked request waits to write what is buffered, and otherwise for the descriptor and event that its status calls for |
| `Scheduler.FirstAcceptedExactly` | src/poll.c:83-120 | an iteration accepts a connection before it visits anyone exactly when there is room for one and the server socket is ready |
| `Scheduler.RoomWithoutInterrupts` | src/poll.c:83-90 | without interruptions at most blocked + 1 entries are polled, always below MAX_FD |
| `Scheduler.InterruptsPileUp` | src/poll.c:104-107 | `k` interruptions in a row leave exactly `k` more entries for the server socket; the array overflows exactly when they exceed the free ones |
| `Scheduler.InterruptsOverflow` | src/poll.c:104-107 | from the start of the server the array overflows exactly when there are more interruptions than entries |
| `Scheduler.EverySelectRun` | src/select.c:77-84 | the looser gate of the select loop keeps the same connection bound in every run |
| `Scheduler.SelectRouseExactly` | src/select.c:152-238 | which blocked requests `fdset_update` wakes, and how: all but those alive and in time whose descriptor is not set; and when a connection is accepted next |
| `Scheduler.SelectEventsVisited` | src/select.c:53-133 | each of them is visited in the same iteration, and ends up where that visit sends it |
| `Server.Move` | src/queue.c:36-39 | dequeue from one list and enqueue on another keep all three lists well-formed and disjoint |
| `Server.Daemon.NewRequest` | src/request.c:53-72 | the head of the free list, or a new node if there is memory; in either case on none of the lists, and cleared |
| `Server.Daemon.GetRequest` | src/request.c:81-258 | ready list, free list, count and pending flag after every outcome of `accept`; no node is lost |
| `Server.Daemon.BlockRequest` | src/queue.c:36-68 | the request moves from ready to blocked and owns the next poll entry, for the descriptor and events its status asks for |
| `Server.Daemon.ReadyRequest` | src/queue.c:76-107 | the request moves from blocked to ready |
| `Server.Daemon.FreeRequest` | src/request.c:302-446 | flush, then stay, wait for the next request on the connection, or be freed, with lists, count and poll entries |
| `Server.Daemon.Attend` | src/request.c:473-561 | serving a request and accepting during it leave it on the ready list with the same requests behind it, and `next` is read after the accept |
| `Server.Daemon.VisitCurrent` | src/request.c:472-587 | one round of the scan on the heap is one step of the machine, although it may move the node and push new heads |
| `Server.Daemon.ProcessRequests` | src/request.c:458-588 | terminates; visits the requests of the list (with a first accepted one) exactly once, in order; the heap ends as the pass on values says; no node is lost |
| `Server.Daemon.UpdateBlocked` | src/poll.c:160-204 | the in-place scan of the blocked list and the second array end as the pass on values says |
| `Server.Daemon.Wakeup` | src/poll.c:99-137 | after waking and swapping, every blocked request's entry in the new array is its own, and there are no others |
| `Server.Daemon.Iterate` | src/poll.c:43-141 | an iteration keeps the three lists well-formed, acyclic, disjoint and complete, and every clause of the invariant; it is one step of the machine |
| `Server.Daemon.RunRounds` | src/poll.c:33-142 | every run of the heap machine from its start keeps all of this and ends in the state of the run on values |
| `Server.Daemon.Start` | src/poll.c:33-42 | the same from the creation of the lists and arrays: every reachable state of the heap |
| `HeaderReader.Stop` | src/read.c:57-79 | where a line stops: the first line feed or illegal byte |
| `HeaderReader.Strip` | src/read.c:70-86 | a line without exactly its trailing carriage returns |
| `HeaderReader.Conn.NextStatus` | src/read.c:70-107 | the recogniser's status is a function of the lines so far and the bytes of the current line |
| `HeaderReader.Conn.EndLine` | src/read.c:117-145 | what is emitted at a line feed, and when the header ends |
| `HeaderReader.Conn.ReadByte` | src/read.c:57-155 | one byte of the recogniser against the line-by-line reference |
| `HeaderReader.Conn.Scan` | src/read.c:57-217 | the loop ends with the lines, positions and outcome of the line-by-line reference |
| `HeaderReader.Conn.ParseAndRead` | src/read.c:39-289 | a whole call in terms of the line-by-line reference on the bytes in the buffer |
| `HeaderReader.Conn.ReadHeader` | src/read.c:39-289 | a whole call is a scan of the session and, if the header goes on and the buffer has room, the packet received; on a full buffer the request is dead |
| `HeaderReader.Conn.Sanitize` | src/request.c:260-293 | the restart of the session: the bytes not yet parsed begin the next request |
| `HeaderReader.Conn.MoveDown` | src/request.c:268-277 | these bytes move to the front of the stream buffer, none lost |
| `HeaderReader.Conn.Serve` | src/read.c:39-289 | the life of a kept connection, call after call, is the run on values |
| `HeaderReader.ReadShift` | src/read.c:57-217 | where a text begins makes no difference to how it is read |
| `HeaderReader.ReadAt` | src/read.c:57-217 | one line of the reference, from wherever it is resumed |
| `HeaderReader.ReadWritten` | src/read.c:57-155 | a written line of tabs, carriage returns and bytes from 32 to 127 is read as one line; it ends the header if it is an empty one behind the first, longer than 1535 bytes, or not accepted |
| `HeaderReader.IllegalExactly` | src/read.c:57-66 | reading ends as illegal exactly at the first byte other than 9, 10, 13 and 32 to 127, unless it has ended before |
| `HeaderReader.ReadPrefix` | src/read.c:57-217 | reading a prefix first and resuming at its unfinished line gives the same lines and end as reading all at once |
| `HeaderReader.StepLaw` | src/request.c:260-293 | a packet, a scan and a restart each lose, duplicate and reorder nothing |
| `HeaderReader.AnyPackets` | src/read.c:219-289 | however a stream is cut into packets and whenever it is scanned, the same requests come out as when each is read alone |
| `HeaderReader.ConnectionLaw` | src/read.c:39-289 | the same for every run of calls, with the buffer's bound: the requests in the bytes taken are the completed ones and those in the buffer |
| `HeaderReader.ClosedByBufferExactly` | src/read.c:229-239 | the buffer closes a connection exactly when it is full and the current header ends behind it |
| `HeaderReader.ReadHeaderText` | src/read.c:57-217 | a header written with any number of carriage returns before each line feed is read back, ending right behind its empty line |
| `HeaderReader.PipelineReadBack` | src/request.c:260-293 | a stream of body-less requests is read back as their line lists, in order |
| `HeaderReader.PipelineServed` | src/request.c:260-293 | on every run of calls: pipelined requests that each fit the buffer of 8192 bytes are completed in order with the lines they have when read alone, nothing is lost, and the connection stays open |
| `HeaderReader.PipelineCompletes` | src/request.c:260-293 | once the stream has arrived, one call completes one request, until all are done |
| `PostSpool.StepKeepsInv` | src/read.c:310-428 | file and pending bytes are the body so far, and never more than the content length |
| `PostSpool.AnySchedule` | src/read.c:310-428 | under any schedule: the socket is never read past the body, and when `init_cgi` is reached the file holds exactly its first content-length bytes |
| `PostSpool.Progress` | src/read.c:310-428 | accepted bytes strictly decrease what is left to read or write |
| `PostSpool.ClosesExactly` | src/read.c:310-428 | a step closes the request exactly when the socket ends or fails before the body is complete, or the file fails with bytes to write; blocked and interrupted ones change nothing |
| `PostSpool.BodySpooled` | src/read.c:310-428 | without such failures no schedule closes the request, and one with enough steps that give or take bytes reaches `init_cgi` with the whole body in the file |
| `PostSpool.Spool.StartBody` | src/read.c:157-213 | which content lengths are refused, and that surplus leftover bytes are cut off |
| `PostSpool.Spool.ReadBody` | src/read.c:310-356 | reading into the buffer, as the machine on values |
| `PostSpool.Spool.WriteBody` | src/read.c:368-428 | writing to the file and rewinding the buffer, as the machine on values |
| `Transfer.WriteAllLaw` | src/buffer.c:36-62 | texts that fit the buffer are appended whole, otherwise the request is dead |
| `Transfer.FlushLaw` | src/buffer.c:213-257 | a flush keeps the order of bytes and dies exactly on a failing socket |
| `Transfer.CompleteLaw` | src/response.c:148-172 | ending a range produces the next part header, the trailer or nothing, provided that fits |
| `Transfer.CompleteExactly` | src/response.c:148-172 | nothing of the response is lost at the end of a range exactly when the next text fits behind the end of the buffer |
| `Transfer.IoShuffleLaw` | src/pipe.c:268-369 | one call, whatever file and socket answer, neither loses nor repeats nor reorders a byte nor overruns the buffer, exactly unless it is a HEAD request for several ranges whose next text does not fit |
| `Transfer.IoShuffleEndsExactly` | src/pipe.c:321-341 | `io_shuffle` gives up with ranges left exactly when the file ended early and the buffer is drained; never on a HEAD request |
| `Courses.BegunIsUnderWay` | src/range.c:119-229 | the ranges `ranges_fixup` leaves, behind headers that fit, begin a response that satisfies the invariant of a run |
| `Courses.VisitLaw` | src/request.c:472-587 | one visit, including the end of the request: the response stays the one begun and only a failure kills it, exactly when a HEAD request for several ranges has room for its next text |
| `Courses.RunLaw` | src/request.c:472-587 | over whole runs with that room the response stays the one begun, and only a failing file or socket kills the request |
| `Courses.RunExactly` | src/request.c:472-587 | a run keeps the response step by step exactly when every visit of it has that room |
| `Courses.OthersHaveRoom` | src/pipe.c:276-283 | every run has it, unless it is a HEAD request for several ranges |
| `Courses.HeadOutgrows` | src/pipe.c:276-279 | behind all headers that fit: a HEAD request for 73 ranges, without any failure, dies when each flush takes one byte |
| `Courses.CutShortExactly` | src/pipe.c:321-341 | exactly when a visit ends a request with ranges left: what is buffered is drained, and the file has no more bytes |
| `Courses.CopyDelivery` | src/pipe.c:268-369 | at every moment of a run with that room, wire + buffer + remainder is the response begun and the wire a prefix of it, even after a failure; a freed request has sent all exactly when it has not died, no range is left and the buffer is empty; without a failure it does not die |
| `Transfer.ReserveIsEnough` | src/pipe.c:283 | the 256 reserved bytes fit the part headers of every range of every file exactly when the content-type line has at most 145 bytes |
| `Transfer.PartHeaderLength` | src/response.c:115-142 | the exact length of a part header: 54 bytes, the content-type line and the digits of its three numbers |
| `Transfer.DigitsLength` | src/response.c:115-124 | a number below 10^k prints in at most k digits, and in exactly k from 10^(k-1) on |
| `Transfer.ProcessGetLaw` | src/get.c:467-532 | for GET and HEAD: nothing of the response is lost, exactly unless a range ends and the next text does not fit; death needs a failing socket; DONE exactly when no range is left; a positive write shrinks what remains |
| `Transfer.DirectOrderExactly` | src/get.c:476-532 | a direct write keeps the order of bytes, whatever the file holds, exactly when the buffer is drained or nothing is accepted |
| `Courses.GetDelivery` | src/get.c:467-532 | delivery of mapped files at every moment of every run without a harmful visit, that is one whose direct write accepts bytes while a short flush has left some |
| `Courses.GetVisitExactly` | src/get.c:476-532 | one visit keeps the response and its order for all files of that size exactly when it is not harmful: it accepts no bytes behind a short flush, and the next text of a HEAD request fits |
| `Courses.GetRunExactly` | src/get.c:467-532 | so does a whole run, exactly when none of its visits is harmful |
| `Courses.InitCopyDelivers` | src/get.c:415-451 | the first copied chunk keeps order, content and end of the response exactly when there is room for the next text |
| `Courses.GetCourseDelivery` | src/get.c:415-532 | end to end: the chunk copied where there is room, followed by the chunks of `process_get` without a harmful visit, is the response; these are the exact conditions of `InitCopyDelivers` and `GetRunExactly` |
| `Courses.VisitAgrees` | src/request.c:472-587 | the visit of a response that is read is the scheduler's visit of its request: on the same answers both are over, or both go on with the same buffer |
| `Courses.GetVisitAgrees` | src/request.c:472-587 | the same for a mapped file |
| `Completion.CopyCompletes` | src/pipe.c:268-369 | a response that is read ends with all of it sent, when file and socket give and take at least one byte whenever they are asked, after at most twice as many visits as it has bytes, and two |
| `Completion.GetCompletes` | src/get.c:467-532 | so does that of a mapped file, when each flush also drains the buffer |
| `Multipart.HeaderRead` | src/response.c:115-142 | a reader that knows only the standard (sections 14.16 and 19.2 of RFC 2616) and the boundary finds in every part header the type, the first and last position and the file size |
| `Multipart.PartsRead` | src/response.c:115-172 | what follows the first range of a multipart response reads as the other ranges, in order, each with its bytes of the file, up to the trailer |
| `Multipart.CopyReads` | src/pipe.c:268-369 | under any schedule: a client that has been sent all of the response to a request for several ranges reads the ranges `ranges_fixup` leaves, in order, each with its bytes |
| `Multipart.GetReads` | src/get.c:415-532 | the same for a mapped file, from `init_get` on, in every run that keeps the response |
| `Courses.ShortFlushDisorders` | src/get.c:476-532 | a run from `init_get` on in which a short flush lets the client receive bytes that are no prefix of the response |
| `Courses.InitCopyOverflows` | src/get.c:415-451 | for all headers: two ranges on which the copied chunk leaves no room and the request dies |
| `Transfer.InitCopyExactly` | src/get.c:415-451 | the first copied chunk loses nothing of the response exactly when the range does not end in the buffer or the next text still fits |
| `Responses.Response.ReqWrite` | src/buffer.c:36-62 | the buffer, in place, after appending or refusing a text |
| `Responses.Response.ReqFlush` | src/buffer.c:213-257 | the buffer indexes and the result for every answer of the socket |
| `Responses.Response.WriteTexts` | src/response.c:126-142 | the print helpers append their texts one by one |
| `Responses.Response.CompleteResponse` | src/response.c:148-172 | the range is popped and the next text written |
| `Responses.Response.TakeBytes` | src/pipe.c:294-327 | file bytes from the current position reach the end of the buffer, and the range moves on |
| `Responses.Response.IoShuffle` | src/pipe.c:268-369 | the in-place copy is the one on values, for every answer of file and socket |
| `Responses.Response.ProcessGet` | src/get.c:467-532 | the direct write is the one on values |
| `Responses.Response.InitCopy` | src/get.c:415-451 | the first chunk is the one on values |
| `RangeSyntax.TableReadOut` | src/range.c:291-356 | the bit-packed table, looked up and masked as the code does, is the explicit automaton in all rows and columns |
| `RangeSyntax.AccumulatedIsDecimal` | src/range.c:343-350 | digits accumulate to the decimal number modulo 2^64 |
| `RangeSyntax.Soundness` | src/range.c:241-376 | an accepted string is a byte-range set of the grammar, and the list built is what it denotes |
| `RangeSyntax.Completeness` | src/range.c:241-376 | every byte-range set is accepted with the list it denotes, unless it holds the refused spec |
| `RangeSyntax.AcceptsExactly` | src/range.c:241-376 | the table accepts exactly the language of the explicit grammar, which is wider than section 14.35.1 of RFC 2616: it has a range with neither number and a set without ranges |
| `RangeSyntax.ConformingStrings` | src/range.c:241-376 | an accepted string is a non-empty set of ranges with a number each, as section 14.35.1 of RFC 2616 asks (up to separators), exactly when it has a hyphen and none of its hyphens is bare |
| `RangeSyntax.ConformsExactly` | src/range.c:241-376 | the same about each derivation of a string |
| `RangeSyntax.NeitherTestExactly` | src/range.c:357-364 | the test for "neither start nor stop" fires exactly when both numbers are given and are 2^32-1 modulo 2^64, never on a range without numbers |
| `RangeSyntax.HyphenAccepted` | src/range.c:346-366 | a bare "-" is accepted as one range, an empty set as none |
| `RangeSyntax.PrintParse` | src/range.c:241-376 | printing a list of specs, with any white space around numbers, hyphens and commas, and parsing it gives the list back in order, exactly when no spec has both numbers 2^32-1 |
| `RangeList.FitOne` | src/range.c:156-191 | a kept range lies inside the file; it is the requested one (section 14.35.1 of RFC 2616) exactly outside the two quirks; a suffix of 0 < N < filesize is the last N bytes |
| `RangeList.HyphenServed` | src/range.c:156-191 | a bare "-" is served as the bytes 1 to filesize-1, and dropped for a file of one byte |
| `RangeList.FitAll` | src/range.c:119-229 | every surviving range has start <= stop < filesize |
| `RangeList.NodesConserved` | src/range.c:119-229 | kept and dropped nodes together are the nodes of the list, as multisets |
| `RangeList.Ranges.PoolPush` | src/range.c:74-78 | the node becomes the head of the pool |
| `RangeList.Ranges.PoolPop` | src/range.c:47-64 | a cleared node, from the pool or new, that is on neither list |
| `RangeList.Ranges.Reset` | src/range.c:33-45 | all nodes of the list go to the pool, the last one first |
| `RangeList.Ranges.Abort` | src/range.c:80-88 | the list becomes the single error node |
| `RangeList.Ranges.Add` | src/range.c:90-113 | the range is appended at the end of the list |
| `RangeList.Ranges.FindLast` | src/range.c:99-102 | the last node of the list |
| `RangeList.Ranges.DropNode` | src/range.c:191-203 | an invalid range is unlinked in place and pooled, the list in front of it untouched |
| `RangeList.Ranges.KeepNode` | src/range.c:212-216 | a valid range stays linked behind the last kept one |
| `RangeList.Ranges.Fixup` | src/range.c:119-229 | the in-place pass is an order-preserving filter-map on the list; dropped nodes go to the pool |
| `RangeList.Ranges.LookUp` | src/range.c:304-350 | one table look-up and its number updates |
| `RangeList.Ranges.ParseSpecs` | src/range.c:303-373 | the parser's loop accepts what the automaton accepts and appends its specs, or leaves the error node |
| `RangeList.Ranges.Parse` | src/range.c:241-376 | the prefix test, and the list after success and after failure |
| `RangeList.Ranges.PrefixExactly` | src/range.c:249 | the prefix is "bytes=" with its letters in either case |
| `MmapCache.Probe` | src/mmap_cache.c:41-79 | linear probing stops at the first slot that is free or holds the file |
| `MmapCache.Find` | src/mmap_cache.c:36-119 | a lookup answers with a slot below the size of the table or with nothing |
| `MmapCache.FindOutcome` | src/mmap_cache.c:36-119 | a lookup fails exactly when no slot holds the file or is free, or a free one comes first but 129 are in use or the mapping fails, and then changes no slot; otherwise the slot holds the file behind slots of others, no other slot changes, and it is a live one with its use count raised or a free one filled with the new mapping, counted and recorded |
| `MmapCache.MmapList.FindMmap` | src/mmap_cache.c:36-119 | the probing loop over the array is the lookup on values |
| `MmapCache.MmapList.ReleaseMmap` | src/mmap_cache.c:121-135 | the use count falls; at zero the mapping is unmapped and the slot freed |
| `MmapCache.NeverFull` | src/mmap_cache.c:41-79 | in every reachable state a probe ends at a hit or a free slot, so the wrapped-around return is unreachable |
| `MmapCache.OpenKeepsInv` | src/get.c:356-364 | a request that opens a file keeps: counter = live slots <= 129, use counts = holders, mappings balanced |
| `MmapCache.CloseKeepsInv` | src/request.c:346-347 | so does a request that gives its entry back |
| `MmapCache.EveryRun` | src/mmap_cache.c:36-135 | the invariant after every run; every mapping is unmapped exactly once or still in one live slot |
| `MmapCache.HeldSlotKept` | src/mmap_cache.c:36-135 | one event, whoever causes it, leaves a held slot its file, length and mapping |
| `MmapCache.HeldAllAlong` | src/mmap_cache.c:36-135 | so do whole runs, as long as one request holds the slot |
| `MmapCache.OnePerFileWithoutFreeing` | src/mmap_cache.c:41-79 | in runs that free no slot no file has two live entries |
| `MmapCache.SecondEntryExactly` | src/mmap_cache.c:41-79 | a lookup makes a second entry exactly when a free slot lies before the live one and the table may grow |
| `MmapCache.SecondEntryAfterFreeing` | src/mmap_cache.c:121-135 | a run from the empty table after which a lookup makes one |
| `Aliases.Hash` | src/alias.c:54-73 | the hash is below 17 |
| `Aliases.GetAliasHashValue` | src/alias.c:54-73 | the loop computes it, with C's sign extension and 32-bit wrap-around |
| `Aliases.HashExactly` | src/alias.c:54-73 | it is the sum of the first byte and those up to the next slash, as signed characters, modulo 2^32 and then 17 |
| `Aliases.MatchesExactly` | src/alias.c:160-217 | an alias matches exactly when its segments between slashes begin those of the URI, where a final slash leaves the next segment open |
| `Aliases.MatchHasSameHash` | src/alias.c:54-73 | an alias other than "/" hashes like every URI it matches |
| `Aliases.FirstMatchIsFirst` | src/alias.c:160-217 | the scan returns the first alias that matches, if any |
| `Aliases.AliasTable.AddAlias` | src/alias.c:82-148 | the bucket after a call, with the duplicate test that misses the last entry |
| `Aliases.AliasTable.FindAlias` | src/alias.c:160-217 | the scan of one bucket |
| `Aliases.BucketIsWithHash` | src/alias.c:82-148 | a bucket answers like all calls with its hash, even though duplicates get through |
| `Aliases.FindIsLinear` | src/alias.c:160-217 | the table answers like a linear first-match scan over all calls in order, exactly unless that match is "/" and the URI hashes elsewhere |
| `EscapeTable.ClearBits` | src/escape.c:46-80 | exactly the bits of the given bytes are cleared |
| `EscapeTable.BuildNeedsEscape` | src/escape.c:46-80 | the bitmap says "escape" exactly for the bytes outside the unreserved set |
| `UriText.Escape` | src/buffer.c:278-306 | the output is at most three times the input |
| `UriText.EscapedByte` | src/escape.c:46-80 | which bytes are left alone, and how the others are written |
| `UriText.EscapeString` | src/buffer.c:278-306 | the loop over the bitmap writes the escaped text and a NUL |
| `UriText.InsertDotSlash` | src/index_dir.c:137-143 | the memmove in the middle of the loop puts "./" in front of what has been written |
| `UriText.HttpEscapeString` | src/index_dir.c:119-154 | the loop writes the escaped name, with the prefix exactly when a colon follows the first byte |
| `UriText.HttpEscapeRoundTrip` | src/index_dir.c:119-154 | decoding an escaped name gives it back, up to "./" exactly for a late colon; at most three times the input |
| `UriText.ColonSavesTwo` | src/index_dir.c:119-154 | the unescaped colon pays for the prefix |
| `UriText.UnescapeEscape` | src/util.c:402-447 | decoding undoes escaping in front of any rest |
| `UriText.EscapeStringRoundTrip` | src/buffer.c:278-306 | decoding undoes `escape_string` exactly on strings without '?' |
| `UriText.BareQuestion` | src/buffer.c:278-306 | otherwise the path ends at the first '?' |
| `UriText.UnescapeUri` | src/util.c:402-447 | decoding in place: text, result and query offset, for every C string, truncated escapes and fragments included |
| `UriText.UriDecoded` | src/util.c:402-447 | however a path is spelled, with hexadecimal digits in either case, the bytes meant are decoded; the query begins behind the first question mark, or behind the one after a fragment; an escape cut short is refused |
| `UriText.SeekQuestion` | src/util.c:425-438 | the query after a fragment |
| `UriText.CleanPathname` | src/util.c:46-70 | cleaning in place computes the value form, never longer |
| `UriText.CleanFromSegments` | src/util.c:46-70 | the byte loop is dropping segments, at the start and in the middle of one |
| `UriText.CleanSpecification` | src/util.c:46-70 | the segments of the result are those of the path without the empty, "." and ".." ones strictly inside; cleaning is idempotent |
| `UriText.NoDotsAfterSlash` | src/util.c:46-70 | no slash of a cleaned path is followed by "/", "./" or "../" |
| `UriText.SplitJoin` | src/util.c:46-70 | splitting loses nothing |
| `UriText.JoinSplit` | src/util.c:46-70 | a path and its segments determine each other |
| `UriText.DecodeRequestUri` | src/request.c:805-814 | decoding then cleaning a URI in place gives the cleaned decoded path, and leaves the query intact |
| `HttpDate.Gmtime` | src/util.c:459-462 | the broken-down time is valid and denotes the instant |
| `HttpDate.CalendarExactly` | src/util.c:459-462 | it is 1 January 1970, a Thursday, at the epoch, and goes from each day to the next as the Gregorian calendar does |
| `HttpDate.FieldsLaterIsLater` | src/util.c:338-367 | comparing field by field is comparing instants, across leap years |
| `HttpDate.PutYear` | src/util.c:483-487 | the digit loop writes the four digits right to left |
| `HttpDate.Rfc822TimeBuf` | src/util.c:453-499 | the backwards printer writes the RFC 1123 text (section 3.3.1 of RFC 2616) and nothing else |
| `HttpDate.PrintedFields` | src/util.c:453-499 | the text, character by character: the weekday of the day number, the name of the month, and digits that write day, year and time |
| `HttpDate.ScanLastDigits` | src/util.c:254-324 | scanning printed digits gives the number |
| `HttpDate.PrintedDateParses` | src/util.c:254-324 | parsing a printed date gives its fields for 1970 to 2020 and an error otherwise |
| `DateFormats.Rfc1036Parses` | src/util.c:254-324 | so does a date in the format of RFC 1036, whose two-digit years mean 1970 to 2020 and are refused otherwise |
| `DateFormats.AsctimeParses` | src/util.c:254-324 | so does one in the format of `asctime` |
| `DateFormats.NonStandardParses` | src/util.c:254-324 | so does one that begins with the day and spells the month out |
| `HttpDate.ModifiedSincePrinted` | src/util.c:338-367 | for all t and u: 1 exactly when t > u, 0 otherwise, -1 exactly outside 1970 to 2020 (section 14.25 of RFC 2616) |

## Left out

- CGI (`src/cgi.c`, `src/cgi_header.c`, `read_from_pipe`, `write_from_pipe`) and the sendfile build: foreign processes and pointers between two halves of one buffer.
- The SIGTERM branches of both loops, signals, logging, and time other than as an input; a server socket error that ends the process.
- The contents of the select loop's `fd_set`s; only its accept gate and the moves between lists are modelled, on values.
- `src/hash.c` (the argument of the alias table, but easier), `src/access.c`, `boa_atoi`, `check_host`, configuration parsing, `translate_uri`, the fixed `send_r_*` texts, `html_escape_string` and `req_write_escape_*`: they would add easy members.
- The request handlers are inputs of the scheduler; what they do to a request is any change of the fields `sanitize_request` clears other than `pollfd_id`.
- A request's plain fields are one record value in the scheduler; only its links are separate fields.
- The response class keeps the range list as a sequence and the alias table its buckets as sequences; the linked form of the range list is in `RangeList`, that of buckets is not modelled.
- Calls that are retried at once after EINTR count as one call with its final answer.
- HeaderReader.Conn.ParseAndRead: the `result` of a finished header is the handler's and is not modelled, nor are the NUL bytes handlers put into lines already emitted.
- HeaderReader.Conn.ReadHeader: likewise for the `result` once the header has ended or failed.
- HeaderReader.PipelineReadBack: on the reference and an unbounded stream; the recogniser's runs with their buffer are in `HeaderReader.PipelineServed`.
- HeaderReader.PipelineServed: for requests without a body that the line handlers accept; HTTP/0.9 requests end a header at once and are an outcome of their own.
- Server.Daemon.RunRounds: for runs whose interruptions in a row do not overflow the poll array; beyond that see `Scheduler.InterruptsOverflow`.
- Multipart.HeaderRead: for types and character sets without a carriage return; a "Content-Type" line that holds one would be two.
- UriText.HttpEscapeString: the output buffer is the caller's; allocation is not modelled.
- HttpDate.PrintedDateParses: `sscanf` is modelled for the formats used, on numbers that fit an `int`.
- MmapCache.EveryRun: the entries of one process; requests are numbers, and only opening and closing a file are events.
- A SIGBUS while a mapped file is copied or written.
- FD_SETSIZE and MAX_FD are 1024, and `malloc` outside `new_request` succeeds.

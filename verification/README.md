# Model of a small HTTP server

The project models the four components of the repository that move bytes or tasks around, and proves
what holds across their loops, across several functions and over whole runs.

- **Request reading** (`ztHttp/ztHttp/simHttp.cpp`): `LineReader` is `get_line`, `HeaderDiscard` the "read &
  discard headers" loop, `RequestLine` the request-line parser, `Cgi` the Content-Length scan and the body
  relay, `Server` all of `accept_request`. The requests are those of HTTP/1.0, sections 5.1, 7.2.2 and 10.4
  of RFC 1945. The socket is a class with a byte sequence and a read position. `buf`, `method`, `url` and
  `path` are arrays of the sizes the code gives them, and their initial contents are arbitrary.
- **Chunked buffer and socket driver** (`ztHttp/ztHttp/IOBuffer.cpp`, `ztHttp/ztHttp/tcp.cpp`): the class
  `IOBuffer` changes a list of byte vectors in place; `Chunks` says what its operations mean on values and
  proves it against a flat byte queue. `TcpSocket` is `write`, `read` and `Http::read`; the kernel's answer to
  `send` is left open.
- **Thread pool** (`pthread_poolv1.cpp`): `ThreadPool` is a state machine with one step per source line of
  each thread, for any number of workers and of threads that call the pool; `ThreadPoolCalls` says what the
  calls promise and when, `ThreadPoolPrograms` what a whole program of calls can rely on.
- **File copy** (`Cat`): the `fgets`/`feof` loops of both servers.

A class method is proved against a specification function or relation, and the theorems are lemmas about
that function or relation. The functions over a stream `s` take positions in it; nothing bounds its length.

## What the proofs found

Where the code does not do what its comments say, the model keeps the code, a lemma shows the input, and
another lemma says exactly when the comment is right.

- The header loop is meant to stop at the blank line. It also stops after a line whose length is a positive
  multiple of 1023, because the rest of such a line is read as an empty one (`LongLineIsFalseBlank`,
  `StopsAtFirstBlankIff`).
- The Content-Length scan sees a long line as pieces of 1023 bytes, and a piece in mid-line counts if it looks
  like the header (`LongLineDeclares`). A line is ignored exactly when none of its pieces does
  (`LineIgnoredIff`).
- The scan reads from column 16 of the buffer whatever the length of the line. If the stream ends right after a
  bare `Content-Length:`, it reads what the buffer held before (`BareHeaderReadsStale`, `ScanIgnoresStaleIff`).
- The body relay ignores the result of `recv`: if the body is short, the script receives the last byte over
  and over (`ShortBodyRepeats`, `RelayFaithfulIff`); if no byte of it comes, the script receives what an
  uninitialised variable held (`StaleByteReachesScript`). `HandleIgnoresStaleIff` says exactly which requests
  depend on uninitialised memory, by this or by the scan.
- `pthread_cond_wait` is guarded by `if`, so a worker can reach `tasks.back()` with an empty queue. One worker
  and one `enqueue` are enough: the worker takes the task and waits again before the broadcast of that
  `enqueue` comes (`EmptyWakeIsReachable`, `EmptyWakeReadsEmpty`). Without spurious wake-ups a pool with one
  caller is safe there exactly when that caller never makes an `enqueue` that is accepted (`ReadsSafelyIff`);
  with spurious wake-ups, which POSIX allows, no pool with a worker is (`SpuriousReadsEmpty`).
  In the model a worker at lines 39 and 41 takes a step only if the queue is non-empty: what follows from
  `back()` on an empty list is undefined, so the theorems about the pool speak of the runs in which this does
  not happen.
- A comment in the header (`pthread_poolv1.h:73`) says not to assume that one thread makes all calls, and that
  an `endPool` should make the `waitPool` of another thread return early. Neither holds. `enqueue` tests
  `isWaited` without the mutex, so it can push after `waitPool` or `endPool` of another thread has returned; a
  task can be accepted by a pool whose workers have all ended (`TwoCallersUnsettle`, `TwoCallersLoseTask`).
  `reStart` tests `isCancelled` without the mutex too, so it can clear the `isWaited` of an `endPool` that has
  returned, and an `enqueue` called after that is accepted by such a pool (`RestartUndoesEnd`).
  Without a `reStart` taking effect the queue stays empty exactly when no such `enqueue` is on its way
  (`StaysEmptyIff`); after `endPool` it stays so for ever exactly when no such `enqueue` and no such `reStart`
  is (`EndedForEverIff`). With one caller neither can be (`WaitReturnsSettled`, `CancelledForEver`), and from
  two on waiting does not keep the queue empty (`QuietIsEmptyIff`). `waitPool` never looks at `isCancelled`
  (`WaitLastsUntilEmpty`).
- `waitPool` should block until everything is processed (`pthread_poolv1.h:43`). It returns on an empty queue,
  with tasks possibly still running (`WaitReturnsTooEarly`). A program of one caller can rely on the promise
  exactly when it never calls `waitPool` or `endPool` after an `enqueue` that is accepted (`AllProcessedIff`).
- `isCancelled` is set and broadcast without the mutex. The comment in `endPool` counts on a chain of
  broadcasts to end every worker; a worker that has passed line 27 but not yet begun to wait can miss them all
  (`CancelCanBeMissed`, `CanStillWait`), any other never waits again (`NeverWaitsAgain`).
- `cat` loses the end of a file that does not end in a newline, and a line with a NUL in it
  (`CatLosesTail`, `CatEmitsWholeFileIff`). The second `fgets` of `Http::cat` passes the size of a pointer,
  8 on the platforms modelled.
- The second `shutdown` in `TcpSocket::write` and the branch for a failed `consume` cannot be reached.

## Model

| member | source | states |
|---|---|---|
| LineReader.GetLine | ztHttp/ztHttp/simHttp.cpp:314-344 | stores the normalised form of a stretch of the stream that starts at the read position, fits the buffer, does not end inside a CRLF pair and ends at the first line end, a full buffer or the end of the stream; writes the terminator and nothing after it |
| LineReader.LineReadIsUnique | ztHttp/ztHttp/simHttp.cpp:301-344 | that requirement has exactly one solution, so it fixes both the result and where the stream is left |
| LineReader.LineShape | ztHttp/ztHttp/simHttp.cpp:314-344 | every result has at most size-1 bytes, no CR, an LF only in last place; it is empty exactly at the end of the stream (or without room), and a non-empty one has consumed a byte |
| LineReader.RunConserves | ztHttp/ztHttp/simHttp.cpp:314-344 | any run of calls with any buffer sizes hands over the normalised stream in order, nothing lost, nothing invented, no CRLF pair split |
| LineReader.ReadToEndNormalises | ztHttp/ztHttp/simHttp.cpp:314-344 | reading until a call returns 0, with sizes of at least 2, yields the whole stream with CRLF and lone CR replaced by LF, independently of the sizes |
| HeaderDiscard.ReadTerminatedLine | ztHttp/ztHttp/simHttp.cpp:314-344 | a line that ends in LF, CRLF or a CR without LF, given as bytes, is handed over with one LF, and the read ends right after the terminator |
| Bytes.SameIgnoringCaseIff | ztHttp/ztHttp/simHttp.cpp:78-84 | strcasecmp finds two strings equal exactly when each pair of bytes is equal or an ASCII capital and its small letter |
| Bytes.ByteValues | ztHttp/ztHttp/simHttp.cpp:71 | isspace accepts tab, LF, VT, FF, CR and space and nothing else |
| HeaderDiscard.DiscardHeaders | ztHttp/ztHttp/simHttp.cpp:114-115 | the discard loop, entered with any line in the buffer, leaves the stream at the reference stopping point, or where it was if that line already ends it |
| HeaderDiscard.DiscardStopsAt | ztHttp/ztHttp/simHttp.cpp:225-226 | repeated reads of at most 1023 bytes stop right after the first terminated line whose length is a multiple of 1023 (0 included), else at the end of the stream |
| HeaderDiscard.StopsAtFirstBlankIff | ztHttp/ztHttp/simHttp.cpp:225-226 | the stopping point is the first empty line exactly when no earlier line fills the buffer a whole number of times with something after it |
| HeaderDiscard.LongLineIsFalseBlank | ztHttp/ztHttp/simHttp.cpp:225-226 | on a concrete stream the loop stops at position 1024, although the blank line ends at 1027 |
| HeaderDiscard.DiscardStopsAfterBlankLine | ztHttp/ztHttp/simHttp.cpp:406-408 | after CRLF header lines of any length but multiples of 1023 and an empty one, the loop stops right after the empty one, whatever follows |
| HeaderDiscard.SkipHeaders | ztHttp/ztHttp/simHttp.cpp:406-408 | the loop as serve_file and the GET branch of execute_cgi enter it stops at the reference point, whatever the buffer held |
| HeaderDiscard.ReadHeaderBlock | ztHttp/ztHttp/simHttp.cpp:229-236 | on header lines of any length the reads hand over each in pieces of 1023 bytes and stop after the first line whose length is a multiple of 1023, the blank one included |
| RequestLine.CopyMethod | ztHttp/ztHttp/simHttp.cpp:69-76 | every access is in bounds and the method, as a C string, is a function of the received line alone, also when the loop runs on into stale bytes |
| RequestLine.CopyUrl | ztHttp/ztHttp/simHttp.cpp:87-95 | every access is in bounds and the URL, as a C string, is a function of the received line alone and at most 254 bytes |
| RequestLine.ParsePrinted | ztHttp/ztHttp/simHttp.cpp:69-95 | printing a method and a URL with any white space between and after them and parsing gives them back; of a longer URL, the first 254 bytes |
| RequestLine.ParseVerbOnly | ztHttp/ztHttp/simHttp.cpp:69-95 | a line with one word has that method and an empty URL |
| RequestLine.ReceivedRoundTrip | ztHttp/ztHttp/simHttp.cpp:68-95 | the same through get_line, wherever the line stands in the stream and however long its version text is |
| RequestLine.SplitQuery | ztHttp/ztHttp/simHttp.cpp:97-108 | cuts the URL in place: the array then holds the part before the first '?', and query_string points at the part after it |
| RequestLine.SplitRejoins | ztHttp/ztHttp/simHttp.cpp:97-108 | rejoining path and query restores the URL, and the split is the only one at a first '?' |
| RequestLine.FilePathIs | ztHttp/ztHttp/simHttp.cpp:110-112 | the path is the bytes of htdocs, the URL, and the bytes of index.html exactly after a URL that ends in a slash |
| RequestLine.BuildPath | ztHttp/ztHttp/simHttp.cpp:110-112 | builds that path in bounds of the 512-byte array |
| Server.PathFits | ztHttp/ztHttp/simHttp.cpp:110-121 | with both index suffixes the path has at most 281 bytes |
| Cgi.AtoiReadsDecimal | ztHttp/ztHttp/simHttp.cpp:234 | atoi skips white space, takes a sign and reads back every printed number of any size up to the first non-digit, cut to an int as ToInt says |
| Cgi.AtoiFindsNothing | ztHttp/ztHttp/simHttp.cpp:234 | without a digit atoi yields 0 |
| Cgi.NameBytes | ztHttp/ztHttp/simHttp.cpp:233 | the bytes of Content-Length: |
| Cgi.ScanHeaders | ztHttp/ztHttp/simHttp.cpp:227-241 | the scan, with its overwriting of column 15, computes the specification of the scan on the whole buffer and leaves the stream where the reads end |
| Cgi.LengthInIsLengthOf | ztHttp/ztHttp/simHttp.cpp:230-236 | the scan on the whole 1024-byte buffer is one on the received lines and the C string that stood at column 16 |
| Cgi.ScanIgnoresStaleIff | ztHttp/ztHttp/simHttp.cpp:229-236 | the scanned length is independent of what the buffer held exactly when the stream does not end right after a bare Content-Length: that follows short lines only |
| Cgi.BareHeaderReadsStale | ztHttp/ztHttp/simHttp.cpp:229-236 | a concrete stream that scans as length 0 or 1, depending on what the buffer held |
| Cgi.ScanOfBlock | ztHttp/ztHttp/simHttp.cpp:229-236 | on headers of any length the scan finds what the 1023-byte pieces of the lines declare, whatever the buffer held, and stops right after the line that ends them |
| Cgi.LineIgnoredIff | ztHttp/ztHttp/simHttp.cpp:229-236 | a line of any length leaves the scanned length as it was exactly when none of its pieces looks like a Content-Length line |
| Cgi.LongLineDeclares | ztHttp/ztHttp/simHttp.cpp:229-236 | concrete headers without a Content-Length line that scan as length 5 |
| Cgi.LengthLineValue | ztHttp/ztHttp/simHttp.cpp:232-234 | a Content-Length line in any letter case with white space, a sign and a decimal number from column 16 on declares that number |
| Cgi.LastLengthIs | ztHttp/ztHttp/simHttp.cpp:229-236 | the last Content-Length line that fits the buffer decides, if no piece of a later line looks like one |
| Cgi.RelayBody | ztHttp/ztHttp/simHttp.cpp:287-291 | writes exactly n bytes: those of the stream, then copies of the last byte received if the stream is shorter |
| Cgi.RelayFaithfulIff | ztHttp/ztHttp/simHttp.cpp:287-291 | the relay hands over what the peer sent exactly when the peer sent all of it |
| Cgi.RelayIgnoresStaleIff | ztHttp/ztHttp/simHttp.cpp:213-291 | the relayed bytes are independent of the uninitialised byte exactly when a byte comes or none is asked for |
| Server.ExecuteCgi | ztHttp/ztHttp/simHttp.cpp:210-291 | GET discards the headers; POST without a length is refused; otherwise the declared number of bytes is relayed |
| Server.AcceptRequest | ztHttp/ztHttp/simHttp.cpp:54-134 | response, bytes written to the script and final stream position of a whole request equal those of the specification, on every stream and every content of the local arrays |
| Server.HandleIgnoresStaleIff | ztHttp/ztHttp/simHttp.cpp:203-291 | the outcome of a request is independent of both uninitialised locals of execute_cgi, buffer and byte, exactly unless it is a POST to an existing script whose headers end right after a bare Content-Length: after short lines only, or declare a body of which no byte comes |
| Server.StaleByteReachesScript | ztHttp/ztHttp/simHttp.cpp:213-291 | a concrete request on which the script receives the uninitialised byte |
| Server.PostEndToEnd | ztHttp/ztHttp/simHttp.cpp:117-291 | a POST request to an existing file runs the script at the path of its URL, with /index.html after a directory; if its last Content-Length declares n, the script gets exactly the n bytes after the blank line, unaltered, and nothing of the body is eaten by the header reader; if fewer follow it gets these and copies of the last one, with the stream at its end, and for a negative n other than -1 nothing |
| Server.PrintedPostDelivers | ztHttp/ztHttp/simHttp.cpp:227-291 | printing a POST request with the length of its body among any headers and serving it delivers that body and leaves the rest of the stream |
| Server.PostWithoutLength | ztHttp/ztHttp/simHttp.cpp:237-240 | a POST request is refused exactly when its headers leave the scanned length at -1, as they do without a Content-Length; then its headers are read and its body is left |
| Server.PostToMissingFile | ztHttp/ztHttp/simHttp.cpp:113-117 | a POST request for a missing file is answered not found, with its headers read |
| Server.OtherMethod | ztHttp/ztHttp/simHttp.cpp:78-82 | any other method is answered unimplemented, with nothing read after the request line |
| Server.GetEndToEnd | ztHttp/ztHttp/simHttp.cpp:97-130 | a GET request is read exactly up to its blank line, whatever its outcome; query and path are the two sides of the first '?', and a script is run exactly for a query or an executable file, with that method and query |
| IOBuffer.IOBuffer.Append | ztHttp/ztHttp/IOBuffer.cpp:36-66 | copies another buffer's chunks and size; null changes nothing |
| IOBuffer.IOBuffer.AppendRaw | ztHttp/ztHttp/IOBuffer.cpp:70-86 | adds one chunk, an empty one included |
| IOBuffer.IOBuffer.PullDown | ztHttp/ztHttp/IOBuffer.cpp:88-111 | null exactly when too much is asked for or the buffer is empty; otherwise the front chunk becomes the concatenation of the shortest non-empty chunk prefix with num bytes, later chunks are untouched, content and size are kept and the pointer gives the first num bytes; no dereference past the list; bytes copied and loop rounds are those of the cost functions |
| IOBuffer.IOBuffer.Consume | ztHttp/ztHttp/IOBuffer.cpp:114-136 | succeeds exactly when the front chunk is non-empty and long enough, and then drops that many bytes of it, or the whole chunk if they are all of it; otherwise changes nothing |
| Chunks.RunIsQueue | ztHttp/ztHttp/IOBuffer.cpp:36-136 | over every run of operations, bytes consumed followed by bytes left are all bytes appended, in order |
| Chunks.StepIsQueue | ztHttp/ztHttp/IOBuffer.cpp:36-136 | each operation acts on the content as on a flat queue and keeps the cached size equal to the content's length |
| Chunks.ShortestPrefixUnique | ztHttp/ztHttp/IOBuffer.cpp:97-107 | the chunk prefix pullDown merges is determined |
| Chunks.MergingIsLinear | ztHttp/ztHttp/IOBuffer.cpp:97-107 | over any run from an empty buffer, the inserts of pullDown copy each appended byte at most once and its loop goes round at most once per appended chunk |
| Chunks.PullThenConsume | IOBuffer.h:18-20 | after a successful pullDown(n), positive consumes totalling at most n all succeed and remove exactly that prefix |
| Chunks.ConsumeRefusesIff | ztHttp/ztHttp/IOBuffer.cpp:113-121 | without a pullDown, consume of a positive number returns false, and changes nothing, exactly when the front chunk is empty or too short |
| Chunks.DriveIsQueue | IOBuffer.h:18-20 | a client that keeps to the usage rule cannot tell the buffer from a flat queue |
| Chunks.ChunkingIsUnobservable | IOBuffer.h:18-20 | two buffers with the same content and different chunks show such a client the same bytes and booleans and keep the same content |
| TcpSocket.TcpSocket.Write | ztHttp/ztHttp/tcp.cpp:156-206 | one call appends the argument, what the callback appends and returns, and the response, in this order, offers the first 1024 bytes of all that to send, keeps what send did not take, and shuts the write side down exactly when nothing is left |
| TcpSocket.RunDelivers | ztHttp/ztHttp/tcp.cpp:156-206 | over every run of writes with any answers of send, bytes sent followed by bytes pending are all bytes appended, in order, and the write side is shut down once per drain |
| TcpSocket.PeerSeesPrefix | ztHttp/ztHttp/tcp.cpp:156-206 | what the peer has is the prefix of everything appended given by the accepted counts, and all of it exactly when nothing is pending |
| TcpSocket.Http.Read | ztHttp/ztHttp/tcp.cpp:344-366 | moves the whole content, whatever its chunking, to _in_buffer and leaves a valid buffer of size 0, later chunks included |
| TcpSocket.TcpSocket.Read | ztHttp/ztHttp/tcp.cpp:217-253 | delivers what was buffered, the received block, if any, and what the callback appended to Http, in order, returns the result of recv, and shuts the write side down exactly when there was nothing to deliver |
| ThreadPool.StepKeepsInv | pthread_poolv1.cpp:22-110 | every step of every thread, with any number of workers and callers, keeps the whole invariant |
| ThreadPool.MutualExclusion | pthread_poolv1.cpp:28-77 | in every state of every run at most one thread, worker or caller, is between a lock and an unlock |
| ThreadPool.QueueChangedByOwner | pthread_poolv1.cpp:39-61 | a step changes the queue only if its thread owns the mutex |
| ThreadPool.RunRefinesStack | pthread_poolv1.cpp:22-65 | every run of any number of threads refines an atomic last-in first-out stack linearised at the push and the pop; tasks accepted or about to be are, as multisets, those queued, in a worker's hands and run; the order of each worker's and each caller's tasks is kept |
| ThreadPool.HistoryConserves | pthread_poolv1.cpp:39-61 | a legal stack history loses and duplicates nothing |
| ThreadPool.NoLostWakeUp | pthread_poolv1.cpp:29-63 | a worker waits beside a non-empty queue only while the broadcast of some enqueue is still to come |
| ThreadPool.DeadlockFree | pthread_poolv1.cpp:22-110 | in every state of every run a thread with something left to do can take a step, or the owner of the mutex can, unless a worker stands at line 39 before an empty queue |
| ThreadPoolCalls.AcceptedExactly | pthread_poolv1.cpp:52-65 | in every run of any number of threads, the enqueue calls of a thread that return 0, with the one it is in, are those it makes while isWaited is not set, in order |
| ThreadPoolCalls.FlagsAreHistory | pthread_poolv1.cpp:69-101 | in every run isWaited is what the last call of waitPool or endPool, or the last reStart past its test, made it, and isCancelled is set once an endPool is past its waitPool |
| ThreadPoolCalls.EndsOnlyCancelled | pthread_poolv1.cpp:27-45 | in every run of any number of threads a worker ends only once isCancelled is set |
| ThreadPoolCalls.WaitLastsUntilEmpty | pthread_poolv1.cpp:69-84 | waitPool does not return before the queue has been empty, whatever other threads call, endPool included |
| ThreadPoolCalls.ClosedUntilRestart | pthread_poolv1.cpp:52-94 | once isWaited is set and no enqueue is past its test, nothing is pushed until a reStart takes effect, whatever the queue holds and any number of threads call |
| ThreadPoolCalls.QuietUntilRestart | pthread_poolv1.cpp:52-94 | once isWaited is set, the queue empty and no enqueue past its test, the queue is empty in every state until a reStart takes effect, whatever any number of threads call |
| ThreadPoolCalls.StaysEmptyIff | pthread_poolv1.cpp:52-84 | with the mutex free, isWaited set and the queue empty, it stays so exactly when no enqueue is between its test of isWaited and its push |
| ThreadPoolCalls.WaitReturnsSettled | pthread_poolv1.cpp:69-84 | waitPool returns exactly on a size read as 0, and with a single caller in such a state |
| ThreadPoolCalls.TwoCallersUnsettle | pthread_poolv1.cpp:52-84 | with two or more callers and any number of workers, a task is accepted and queued after waitPool has returned |
| ThreadPoolCalls.QuietIsEmptyIff | pthread_poolv1.cpp:52-94 | over all runs of a pool, the queue is empty from the return of waitPool until a reStart takes effect exactly when the pool has one caller |
| ThreadPoolCalls.TwoCallersLoseTask | pthread_poolv1.cpp:52-105 | with two or more callers and any number of workers, a task is accepted and queued after endPool has returned and every worker has ended |
| ThreadPoolCalls.RestartUndoesEnd | pthread_poolv1.cpp:86-105 | the same for an enqueue called only after endPool has returned, through a reStart that tested isCancelled before |
| ThreadPoolCalls.QuietMeansAllPopped | pthread_poolv1.cpp:52-84 | with a single caller, after waitPool every task whose enqueue returned 0 has been popped |
| ThreadPoolCalls.ProcessedIff | pthread_poolv1.cpp:69-84 | with a single caller, after waitPool the accepted tasks are those run and those in a worker's hands (the step lemma of AllProcessedIff) |
| ThreadPoolCalls.WaitReturnsTooEarly | pthread_poolv1.cpp:69-84 | in every pool with a worker, a run in which waitPool returns while an accepted task is still running |
| ThreadPoolCalls.EndedForEver | pthread_poolv1.cpp:86-101 | once isCancelled is set on a settled queue and no reStart is past its test, no call of any number of threads puts a task in the queue again, and everything pushed has been popped |
| ThreadPoolCalls.EndedForEverIff | pthread_poolv1.cpp:52-101 | in a cancelled pool with isWaited set, the queue empty and the mutex free, the queue is empty in every later state of every run exactly when no caller is inside an enqueue before its push or inside a reStart past its test |
| ThreadPoolCalls.CancelledForEver | pthread_poolv1.cpp:86-101 | with a single caller, once isCancelled is set the queue is empty, everything accepted has been popped, and no later call changes that |
| ThreadPoolPrograms.ReadsSafelyIff | pthread_poolv1.cpp:27-64 | for every pool and every program of a single caller, without spurious wake-ups, line 39 finds a task in every state exactly when no enqueue of the program is accepted |
| ThreadPoolPrograms.NothingEnqueuedNothingRead | pthread_poolv1.cpp:27-64 | with any number of callers, in a run without an accepted enqueue and without spurious wake-ups no worker gets to line 39 or wakes up to an empty queue |
| ThreadPoolPrograms.SpuriousReadsEmpty | pthread_poolv1.cpp:29-39 | with one spurious wake-up and no call at all, every pool with a worker gets to line 39 with an empty queue |
| ThreadPoolPrograms.AllProcessedIff | pthread_poolv1.cpp:52-105 | for every pool and every program of a single caller, over all runs: whenever waitPool has returned and no reStart has taken effect since, the accepted tasks are exactly those that have run, if and only if no accepted enqueue of the program is followed by a waitPool or an endPool |
| ThreadPoolCalls.EmptyWakeIsReachable | pthread_poolv1.cpp:29-63 | in every pool with a worker and a caller one enqueue leads to a wake-up to an empty queue, without spurious wake-ups |
| ThreadPoolCalls.EmptyWakeReadsEmpty | pthread_poolv1.cpp:29-39 | after a wake-up to an empty queue the worker can go straight on to line 39 with nothing to take |
| ThreadPoolCalls.ReadsBackSafely | pthread_poolv1.cpp:29-39 | such a wake-up is the only way there: in a run without one, line 39 is reached only with a non-empty queue |
| ThreadPoolCalls.NeverWaitsAgain | pthread_poolv1.cpp:27-38 | once the pool is cancelled, a worker that is not between line 27 and the end of its wait never waits again, in any run |
| ThreadPoolCalls.NeverTakesAgain | pthread_poolv1.cpp:32-41 | once the pool is cancelled, a worker that has not passed line 38 takes no task any more, in any run |
| ThreadPoolCalls.CanStillWait | pthread_poolv1.cpp:27-31 | after every call has returned, the broadcast of endPool included, a worker between line 27 and its wait, with the mutex free or its own, can go on to wait |
| ThreadPoolCalls.CancelCanBeMissed | pthread_poolv1.cpp:96-102 | in every pool with a worker and a caller, one endPool leads to a state with endPool returned, a worker waiting and no worker able to take a step |
| Cat.SendFile | ztHttp/ztHttp/simHttp.cpp:163-173 | sends the pieces of the specification of the loop, 1023 bytes at a time |
| Cat.AppendFile | ztHttp/ztHttp/tcp.cpp:455-475 | appends the pieces of the specification of the loop, 1023 bytes first and 7 later |
| Cat.CatEmitsPrefix | ztHttp/ztHttp/simHttp.cpp:163-173 | for a file without NULs the loop emits a prefix that misses an exactly given number of bytes, all of them in a last fragment without a newline |
| Cat.CatEmitsWholeFileIff | ztHttp/ztHttp/simHttp.cpp:163-173 | the whole file is emitted exactly when it holds no NUL and that number is 0 |
| Cat.NewlineLosesNothing | ztHttp/ztHttp/simHttp.cpp:163-173 | nothing is lost of a file that is empty or ends in a newline |
| Cat.NulCutsLine | ztHttp/ztHttp/simHttp.cpp:163-173 | a line is emitted up to its first NUL, and the copy goes on with the next line |
| Cat.CatLosesTail | ztHttp/ztHttp/tcp.cpp:461-468 | a concrete file of which each of the two servers loses a different part |
| Cat.LostInBothLoops | ztHttp/ztHttp/tcp.cpp:461-468 | in a file with a newline the loss is the length of the last fragment modulo 1023 in one server and modulo 7 in the other |

## Left out

- `Http::get_line` and the parser inside `Http::write` (`ztHttp/ztHttp/tcp.cpp:368-379`, `477-559`): this copy of `get_line` never advances its index; `Http::write` is any non-empty response.
- `fork`, `pipe`, `exec`, environment variables, canned responses, logging and `close`: `pipe` and `fork` are taken to succeed, and what the script sends back is not modelled.
- `stat` is a function from paths to "missing" or two bits, a parameter of `accept_request`.
- `isspace` and `strcasecmp` are those of the C locale: bytes from 128 on are no spaces and have no case.
- Receive errors in mid-stream: `recv` on the socket yields nothing only at the end of the stream.
- Cgi.Atoi: a value beyond the range of `int` is undefined in C; the model takes the saturating 64-bit conversion cut to 32 bits.
- Cat.AppendFile: the pointer size is fixed at 8; sizes of pieces are parameters of the theorems.
- TcpSocket.TcpSocket.Read: needs a chunk in the list when `Http::read` consumes, as the code does.
- Chunks.MergingIsLinear: bytes a vector moves when it grows are not counted, only those inserted.
- TcpSocket.Http.Read: needs a chunk in the list, as the code does.
- IOBuffer.IOBuffer.Append: needs a buffer other than itself, because the loop walks the list it extends, and like AppendRaw a total below 2^31 bytes.
- IOBuffer.IOBuffer.Consume: needs a chunk in the list, as the code does.
- The `_status` bits, `connect`, `accept`, `disConnected` and the old IOBuffer kept in a comment of `IOBuffer.h`.
- Chunk lists and task lists are sequences that the methods reassign: node addresses and the lifetime of the pointer `pullDown` returns are not modelled.
- Termination of the pool (that workers exit after `endPool`) beyond the three members named above, `sleep`, thread creation, and what destroying a mutex still in use does; the memory model is sequentially consistent.
- `Event.cpp`, `EventManager`, `ReactorV1.h`, `zcsIO.cpp` and `httpParse.cpp`: no invariant across calls that the parts above do not show.

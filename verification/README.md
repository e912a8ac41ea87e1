# Verified model of the socket_wrapper stream classes

socket_wrapper cuts a TCP byte stream into segments in three layers: `Stream` (partial reads and
writes over `poll`, `read`, `write`), `BufferedStream` (a fixed array with a fill count, shifted left
after each removal) and `ConditionalBufferedStream` (a worker thread that asks user conditions how many
bytes to cut off, queues the segments per event descriptor, and hands them to reader threads with a
counting semaphore). This project models the three layers in Dafny and proves what they promise.

## How the model is built

- **The operating system** is an arbitrary schedule, a function that says for every `poll` which bytes
  arrived, whether the peer hung up, how many stop tokens were posted, how much a read hands out and
  which call fails (`Network.Env`). Statements quantify over all schedules, hence over every split of
  the stream into reads and every pattern of faults.
- **The three classes** are Dafny classes with the original's fields and loops (`Streams.Stream`,
  `BufferedStreams.BufferedStream`, `ConditionalBufferedStreams.ConditionalBufferedStream`). Every
  method equals a function of the old state (`Network.ReadLoop`, `Writing.Finish`, `ByteQueue.Fill`,
  `Until`, `Exactly`, `Raw`, `Dispatcher.Loop`, `Worker.Run`, `Handoff.ReadFront`), and the theorems are
  lemmas about those functions.
- **Conditions** are arbitrary total functions from the snapshot to an integer.
- **Concurrency** is a step function: `Writing.Step` and `Reading.Step` for calls of `Stream::write` and
  `Stream::read` whose rounds interleave, `Handoff.Step` for the worker and any number of readers. One lock-protected region or one
  eventfd operation is one step; a run is any list of actions.
- **The worker's endless loop** is cut after an arbitrary number of rounds; every statement holds for
  every number.
- An exception is a `Result` or a `Status` value. `Crashed` is an exception that the worker does not
  catch (`std::logic_error`, `std::out_of_range`), which ends the process.

Every lemma carries `{:induction false}`: no proof depends on automatic induction.

## Main results

1. **Dispatcher.** The loop with the recursive call in its body equals "first firing handler, pop,
   repeat" exactly when no handler answers on a snapshot that an earlier handler has already used. For
   any number of delimiter handlers that is exactly when no two of them find their delimiters in the
   buffer; newline and semicolon handlers on "a\n;" end in an uncaught `std::out_of_range`. On a whole
   stream, every schedule stays on the iteration exactly if neighbouring segments with different
   delimiters never fit into the buffer together, as far as the worker gets. For any handlers, stale
   answers and throws included, the recursion is a machine with an explicit stack of open calls, and
   every pop is the answer of a handler of its fd.
2. **Chunking.** For exclusive, bounded handlers with an eventfd each, the pops and the leftover are a
   function of the bytes read, whatever the schedule, exactly if every handler is stable: a non-zero
   answer does not change when more data arrives. For stable handlers that function is the
   byte-by-byte reference.
3. **Framing, capacity, stopping.** One delimiter handler computes the only possible split. A worker runs
   for at most as many rounds as there are bytes, and one that is fed at every poll never sees a stop
   request. On any schedule, a worker with one delimiter handler that has ended saw the stop request iff
   its last poll found nothing else and every frame and the unfinished tail received fit into the
   capacity; it has then split every received byte. Otherwise, on a healthy socket, it reports
   `SOCKET_CLOSED` on an open stream. For any handlers, it crashes exactly if the dispatcher throws.
4. **Hand-off.** In every interleaving, queued segments and undelivered notices equal tokens, tokens
   about to be posted and readers holding one; no reader with a token finds nothing; the error arrives
   once, after every segment. The worker is over exactly when it has made the steps of its plan, whatever
   readers do. Once the worker is over, a reader is served again exactly if a segment is
   queued or the error was stored and not yet delivered, and the error is stored exactly if the last
   poll found anything but a stop request, or left bytes unread. A stop request that reaches an idle
   worker therefore wakes no reader.
5. **Byte queue.** Any calls on a `BufferedStream`, throwing or not, lose, repeat or reorder nothing; the
   calls that keep the "buffer is full" error truthful are characterised exactly, and so is, for each of
   the three reads, after how many refills it ends and with what.
6. **Writers and readers of one stream.** The wire is a merge of one prefix per `write` call, and results
   report it exactly; each call is where its own arguments and the answers to its own OS writes put it,
   as if it were alone. The bytes taken off the socket are a merge of what each `read` call got.

## Model

| member | source | states |
|---|---|---|
| Network.Attempt | src/Stream.cpp:64-90 | one poll-and-read round either hands out 1 to room bytes from the front of what arrived, or takes nothing, as a zero-length read does; stop tokens are never consumed |
| Network.ReadLoop | src/Stream.cpp:59-92 | the read loop returns only with at least min bytes, throws only with fewer, and what it put in the buffer is what left the socket |
| Network.ReadLoopConserves | src/Stream.cpp:59-92 | read bytes, then unread bytes, are the received bytes in order, across the whole loop |
| Network.ReadOnce | src/Stream.cpp:59-92 | with min = 1 a call is one OS read: its bytes and count, or an exception with nothing consumed |
| Network.ReadErrors | src/Stream.cpp:67-88 | a stop request or timeout is reported only after every arrived byte was read, "closed" only after hang-up or with a full caller buffer, the other errors only when the last call failed |
| Network.OneReadExactly | src/Stream.cpp:59-92 | with min = 1: exactly when the call throws which error, by what its poll finds, and otherwise how many bytes it returns |
| Network.LastPollCauses | src/Stream.cpp:67-88 | for any min: the error thrown is the one that the last poll's findings cause |
| Network.ReturnsWithoutFailure | src/Stream.cpp:67-76 | no poll or read of a call that returns has failed, and none before the last of a call that throws |
| Network.ReadLoopExactly | src/Stream.cpp:59-92 | for any min: the call ends after exactly as many attempts, each for all the room left, as it takes for min bytes to be there or for one to throw |
| Network.FailuresTakeNothingIff | src/Stream.cpp:59-92 | a throwing call can lose bytes for some schedule exactly when it asks for more than one byte and has room for one |
| Streams.Stream.Read | src/Stream.cpp:59-92 | the C++ loop fills exactly the bytes of ReadLoop at the given offset, changes no other byte, and returns or throws as ReadLoop says |
| Reading.AloneIsReadLoop | src/Stream.cpp:59-92 | after any interleaving, a running call that nobody interrupts from then on ends with the bytes, result and socket of ReadLoop, within as many attempts as it still asks for bytes |
| Reading.CallIsReadLoop | src/Stream.cpp:59-92 | a call entered after any interleaving and not interrupted ends as ReadLoop does on its arguments, also when it asks for nothing |
| Reading.ArgumentsStay | src/Stream.cpp:59 | in every interleaving each call works on the arguments it was entered with |
| Reading.StepKeepsMerged | src/Stream.cpp:59-92 | any call's attempt keeps every call's buffer equal to its share of the bytes taken, and loses no byte |
| Reading.ConcurrentReaders | src/Stream.cpp:59-92 | received bytes are an order-preserving merge of what the interleaved calls got, then the unread ones; a return counts at least min bytes, a throwing call got fewer |
| Streams.Stream.Write | src/Stream.cpp:94-118 | for every int count of attempts, the retry loop appends exactly the sent prefix to the wire and returns or throws as Finish says, counting OS writes |
| Streams.Stream.StopReads | src/Stream.cpp:120-123 | adds 65535 to the stop eventfd and changes nothing else |
| Writing.Finish | src/Stream.cpp:94-118 | an uninterrupted call ends; it returns iff everything is out, and a partial-write error carries the exact count with no attempt left |
| Writing.FinishExactly | src/Stream.cpp:94-118 | an uninterrupted call stops at the first refused OS write, when everything is out, or when its attempts are used up, and nowhere else; result and bytes sent are functions of the answers it got |
| Writing.AsIfAlone | src/Stream.cpp:94-118 | in every interleaving a call is exactly where its own arguments and the answers to its own OS writes put it |
| Writing.Round | src/Stream.cpp:96-113 | one round uses one attempt, sends at most the unsent rest, and leaves a truthful progress |
| Writing.StepKeepsShuffle | src/Stream.cpp:94-118 | any writer's round keeps every writer's share of the wire equal to the sent prefix of its message |
| Writing.AttemptsBoundWrites | src/Stream.cpp:96 | in every interleaving a call makes exactly as many OS writes as it used attempts, never more than it was given |
| Writing.ConcurrentWriters | src/Stream.cpp:94-118 | the wire is an order-preserving merge of one prefix per call; a return means the whole message, a partial error reports exactly the length of the prefix after all attempts; a call fails iff one of its OS writes was refused |
| ByteQueue.Fill | src/BufferedStream.cpp:57-63 | a refill appends exactly the bytes taken from the socket, at least one, or throws and changes neither |
| ByteQueue.FillIsOneRead | src/BufferedStream.cpp:57-63 | a refill is one OS read of the free space |
| ByteQueue.Pop | src/BufferedStream.cpp:45-55 | a pop of n bytes succeeds iff n are buffered and removes exactly the front n; otherwise nothing changes |
| ByteQueue.UntilMoves | src/BufferedStream.cpp:17-31 | readUntilDelimiter removes exactly its result and the one delimiter it drops, or nothing |
| ByteQueue.UntilReadsFirst | src/BufferedStream.cpp:18-27 | a successful call has read at least one more byte, even if the delimiter was buffered already, and its result holds no delimiter |
| ByteQueue.ExactlyContract | src/BufferedStream.cpp:33-43 | read(n) refuses exactly n > capacity, serves buffered bytes without touching the socket, and else returns n bytes or a socket error |
| ByteQueue.ApplyMoves | src/BufferedStream.cpp:17-63 | each of the three reads, returning or throwing, takes exactly its result out of the byte queue |
| ByteQueue.RefinesByteQueue | src/BufferedStream.cpp:17-86 | over any run of calls and exceptions, outputs in order and then the buffer equal the initial buffer and the bytes taken since |
| ByteQueue.RunConserves | src/BufferedStream.cpp:17-86 | over any run, the socket under the buffer neither loses, invents nor reorders a received byte |
| ByteQueue.RetriedRead | src/BufferedStream.cpp:33-63 | after calls that all threw, read(n) returns the first n bytes of the stream as if called first |
| ByteQueue.RetriesAgree | src/BufferedStream.cpp:33-63 | two clients of one byte stream get the same read(n) whatever timed out or failed before, on any schedules and capacities |
| ByteQueue.RawContract | src/BufferedStream.cpp:75-86 | read(ptr,max,min) returns all buffered bytes or max of them, at least min when min <= max, after reading at least one byte |
| Refills.UntilExactly | src/BufferedStream.cpp:17-31 | readUntilDelimiter ends after exactly the first refill that brings the delimiter, fills the buffer or throws, and with what that calls for |
| Refills.ReadCount | src/BufferedStream.cpp:33-43 | read(n) within the capacity makes exactly as many refills as it takes for n bytes to be there and returns the first n, or throws what a refill throws |
| Refills.ReadRawExactly | src/BufferedStream.cpp:75-86 | read(ptr,max,min) makes one refill and then exactly as many as it takes for min bytes to be there, and returns the first max or all, or throws what a refill throws |
| Refills.ReadFailsOnlyShort | src/BufferedStream.cpp:33-43 | read(n) within the capacity fails only as its last poll says: a call failed, or all received bytes are buffered and fewer than n |
| Refills.RawFailsAsPolled | src/BufferedStream.cpp:75-86 | read(ptr,max,min) fails only as its last poll says, before min bytes are there or before its first refill |
| Refills.UntilFailsAsPolled | src/BufferedStream.cpp:17-31 | readUntilDelimiter fails with "full" iff the buffer is, and otherwise as its last poll says; what is buffered then lacks the delimiter unless nothing was read |
| ByteQueue.OverflowIsTruthful | src/BufferedStream.cpp:17-31 | on an honest buffer "full" means full and delimiter-free; on any other buffer the error is thrown although the delimiter is there |
| ByteQueue.ApplyStaysHonest | src/BufferedStream.cpp:17-86 | a harmless call leaves an honest buffer, also when it throws part-way |
| ByteQueue.OverflowTruthfulOverRuns | src/BufferedStream.cpp:17-43 | over any run of harmless calls the overflow error is thrown only when it is true |
| ByteQueue.HarmlessExactly | src/BufferedStream.cpp:17-86 | the calls that keep the error truthful under every schedule are exactly: the same delimiter, every read(n), raw reads with max > 0 and min within the capacity, and every call on a buffer of size zero |
| BufferedStreams.BufferedStream.constructor | src/BufferedStream.cpp:8-12 | an empty buffer of the given size over the stream |
| BufferedStreams.BufferedStream.ReadAvailableDataIntoBuffer | src/BufferedStream.cpp:57-63 | the array code refines Fill |
| BufferedStreams.BufferedStream.PopFromBuffer | src/BufferedStream.cpp:45-55 | the copy and in-place shift refine Pop |
| BufferedStreams.BufferedStream.ReadUntilDelimiter | src/BufferedStream.cpp:17-31 | the refill, search and shift loop refines Until |
| BufferedStreams.BufferedStream.Read | src/BufferedStream.cpp:33-43 | read(n) refines Exactly |
| BufferedStreams.BufferedStream.ReadInto | src/BufferedStream.cpp:75-86 | read(ptr,max,min) refines Raw; the caller's buffer gets exactly the result at its front and is untouched on an exception |
| Dispatcher.Fire | src/ConditionalBufferedStream.cpp:46-52 | a firing handler pops iff its answer fits both the snapshot and the live buffer |
| Dispatcher.DispatcherRefinement | src/ConditionalBufferedStream.cpp:39-68 | for any handlers and data: the recursive loop computes the simple iteration iff no handler answers on a snapshot already used |
| Dispatcher.AgreesOrDeparts | src/ConditionalBufferedStream.cpp:39-68 | where it does not, it throws although the iteration would not, or pops more than the iteration does |
| Dispatcher.ExclusiveRefinement | src/ConditionalBufferedStream.cpp:39-68 | exclusive, bounded handlers: the loop is the iteration, never throws, and leaves a buffer on which every handler answers 0 |
| Dispatcher.NoStaleAnswerKeepsLive | src/ConditionalBufferedStream.cpp:65 | without stale answers, the snapshot equals the live buffer at every entry of the recursion |
| Dispatcher.Conservation | src/ConditionalBufferedStream.cpp:39-68 | any handlers, returning or throwing: pops in time order and then the buffer are what the buffer held, each pop as long as asked for |
| Dispatcher.PopsAreAnswers | src/ConditionalBufferedStream.cpp:44-66 | any handlers, live or stale: every pop is the answer of a handler of its fd to a rest of the snapshot; "read more" means an answer beyond what was shown, out_of_range one beyond the live buffer, and there is no other failure |
| CallStack.RecursionIsStack | src/ConditionalBufferedStream.cpp:39-68 | any handlers, returning or throwing: the recursive loop halts where a machine with an explicit stack of open calls halts, with the same pops, buffer, exception, number of questions and depth |
| Dispatcher.WorkBound | src/ConditionalBufferedStream.cpp:44-67 | any handlers, returning or throwing: depth is at most pops + 1, evaluations at most handlers times (pops + 1), and pops at most the bytes popped |
| Dispatcher.ExclusiveDepth | src/ConditionalBufferedStream.cpp:44-67 | exclusive handlers: the recursion nests exactly once per pop |
| Delimiter.ToInt32 | src/ConditionalBufferedStream.cpp:109-113 | the narrowing gives the only int congruent to the distance modulo 2^32 |
| Delimiter.NarrowingBound | src/ConditionalBufferedStream.cpp:108-114 | the narrowing to int keeps every answer exact iff the capacity is at most 2^31 - 1 |
| Delimiter.FramesAgree | src/ConditionalBufferedStream.cpp:108-114 | frames cut from two readings of one stream agree wherever both exist |
| Delimiter.UniqueSegmentation | src/ConditionalBufferedStream.cpp:108-114 | an input has exactly one split into delimiter-terminated frames and a delimiter-free rest |
| Delimiter.SimpleSplits | src/ConditionalBufferedStream.cpp:39-68 | one delimiter handler queues the frames of the data and leaves its tail |
| Delimiter.StaysBelowIffFits | src/BufferedStream.cpp:57-63 | no proper prefix fills the buffer iff every frame with its delimiter, and the rest, fit into the capacity |
| Delimiter.DelimitersExactly | src/ConditionalBufferedStream.cpp:44-66 | any number of delimiter handlers work as intended on a buffer iff no two of them find their delimiters in it |
| MixedDelimiters.DelimitersOnStreams | src/ConditionalBufferedStream.cpp:15-68 | any number of handlers for different delimiters on a stream: every schedule keeps every round on the simple iteration iff, wherever one delimiter is followed by another, their two segments exceed the capacity together or the worker starves before |
| Delimiter.TwoDelimitersThrow | src/ConditionalBufferedStream.cpp:44-66 | newline and semicolon handlers on "a\n;" queue both segments and then throw out_of_range |
| Chunking.SimpleAppend | src/ConditionalBufferedStream.cpp:39-68 | handling a, then b behind the leftover of a, is handling a and b together |
| Chunking.ChunkIsBytes | src/ConditionalBufferedStream.cpp:17-22 | a chunk has the effect of its bytes arriving one at a time |
| Chunking.DelimiterWellBehaved | src/ConditionalBufferedStream.cpp:108-114 | the delimiter condition is exclusive, bounded and stable for every capacity up to 2^31 - 1 |
| Chunking.StabilityMatters | src/ConditionalBufferedStream.cpp:39-68 | an instance: a deliver-everything handler, exclusive and bounded but not stable, gives one segment or two depending on the chunks |
| Worker.ChunkFreeExactly | src/ConditionalBufferedStream.cpp:15-68 | exclusive, bounded handlers with an eventfd each: the same bytes give the same pops and leftover on any two schedules iff every handler is stable |
| Worker.WorkerConserves | src/ConditionalBufferedStream.cpp:15-23 | any handlers, any schedule, any ending: pops and then the buffer are the bytes read, and pops only grow |
| Worker.CrashExactly | src/ConditionalBufferedStream.cpp:15-37 | any handlers: the worker has crashed with an error iff in some round its refill returned and the dispatcher threw that error, and it stays as the dispatcher left it |
| Worker.EndsExactly | src/ConditionalBufferedStream.cpp:15-37 | any handlers: it has ended otherwise iff in some round its refill threw, with the status of that error and nothing popped by that round |
| Worker.WorkerFollowsReference | src/ConditionalBufferedStream.cpp:15-23 | with well-behaved handlers the worker is always where the byte-by-byte reference is, and never crashes |
| Worker.ChunkingIndependence | src/ConditionalBufferedStream.cpp:15-68 | two workers on any schedules and capacities: fewer bytes read means a prefix of the pops, the same bytes mean the same pops and leftover |
| Worker.WorkerSplits | src/ConditionalBufferedStream.cpp:15-68 | with one delimiter handler the pops are always the frames of the bytes read and the buffer the rest |
| Framing.ExactCapacity | src/Stream.cpp:71-80 | the next round ends in "closed" iff poll works and either there is room, the peer hung up, nothing is unread and no error is pending, or the unfinished segment fills the buffer and poll reports anything |
| Framing.FittingStreamNeverStarves | src/BufferedStream.cpp:57-63 | while every frame fits and the tail stays below capacity there is always room to read |
| Framing.DrainEnds | src/Stream.cpp:66-87 | any handlers, any schedule: a worker still running after n rounds had at least n bytes pending or arriving meanwhile |
| Framing.EndingExactly | src/Stream.cpp:66-87 | any handlers, any schedule: a worker that has ended without a crash has the status its last poll calls for, and left bytes unread only with a full buffer or a failing call |
| Framing.StoppedExactly | src/ConditionalBufferedStream.cpp:15-25 | one delimiter handler, any schedule: a worker that has ended saw the stop request iff its last poll found nothing else and every received frame and the tail fit; it has then split every received byte |
| Framing.FedNeverStops | src/Stream.cpp:66-87 | while something that fits arrives at every poll and nothing fails, no number of stop requests ends the worker |
| Framing.StoppingEnds | src/Stream.cpp:66-87 | any handlers: a stop request found by the next poll, idle or with p bytes to read and nothing happening later, ends the worker within p + 1 rounds, drained, starved or crashed |
| Framing.DrainAfterStop | src/ConditionalBufferedStream.cpp:15-25 | with one delimiter handler it has then split every pending byte iff every frame and the tail fit; otherwise it starved and reported "closed" |
| Framing.FramingRoundTrip | src/ConditionalBufferedStream.cpp:15-68 | delimiter-free messages joined with the delimiter, read in any chunks: exactly the messages with their delimiters are queued and the buffer is empty |
| Framing.FramingEndToEnd | src/ConditionalBufferedStream.cpp:15-68 | the next poll finds the stop request and the rest of the input, if any: every message is queued and the worker stops iff each message fits with its delimiter |
| Handoff.ReadFront | src/ConditionalBufferedStream.cpp:96-105 | read returns the front of a non-empty queue and only then changes it; an empty one gives the stored error, or "no data" if none is stored |
| Handoff.WorkKeepsInv | src/ConditionalBufferedStream.cpp:24-62 | pushing, posting, storing the error and posting a notice keep the token balance |
| Handoff.TakeKeepsInv | src/ConditionalBufferedStream.cpp:125-132 | taking a token keeps the balance |
| Handoff.FinishKeepsInv | src/ConditionalBufferedStream.cpp:91-106 | a token holder's read keeps the balance and never finds "no data present yet" |
| Handoff.TokenProtocol | src/ConditionalBufferedStream.cpp:24-137 | every interleaving: queued segments plus undelivered notices = tokens + pushed-but-unposted + holders; deliveries are a prefix of the pushes; no holder would find "no data"; the error comes at most once, after everything |
| Handoff.WorkerFinishes | src/ConditionalBufferedStream.cpp:24-62 | in every interleaving the worker is over iff it has made as many steps as its plan had left: two per segment, then the error and one notice per handler if it ended on one |
| Handoff.WholePlan | src/ConditionalBufferedStream.cpp:24-62 | after a whole plan each fd holds all its segments in order, one token for each, and one more, with the stored error, if the worker ended on one |
| Handoff.ServedAgainExactly | src/ConditionalBufferedStream.cpp:24-137 | in any reachable state after the worker's end, some continuation serves a reader of fd iff a segment is queued or the worker stored an error that nobody of fd got yet |
| Handoff.NeverServed | src/ConditionalBufferedStream.cpp:24-25 | otherwise, as after an end by termination request with an empty queue, no continuation brings fd a token, segment or error |
| Handoff.DeliveryBeforeClosure | src/ConditionalBufferedStream.cpp:91-137 | after an end by error, successive blocking reads return all remaining segments in order, then the error once, and no token is left |
| Handoff.ClosureForAnyReaders | src/ConditionalBufferedStream.cpp:91-137 | any readers, any interleaving: after an end by error, tokens and holders of fd are gone iff its readers got every segment and one of them the error |
| ConditionalBufferedStreams.ConditionalBufferedStream.CreateEventfdOnCondition | src/ConditionalBufferedStream.cpp:71-79 | appends the handler with an empty queue and no tokens |
| ConditionalBufferedStreams.ConditionalBufferedStream.Record | src/ConditionalBufferedStream.cpp:53-63 | per fd, delivered then queued segments stay equal to the positive pops in order, and each queued segment gets one token |
| ConditionalBufferedStreams.ConditionalBufferedStream.TakeFor | src/ConditionalBufferedStream.cpp:46-63 | pop, queue and post refine Fire on the live buffer; an exception before the pop queues and posts nothing |
| ConditionalBufferedStreams.ConditionalBufferedStream.ProcessDataSendSignals | src/ConditionalBufferedStream.cpp:39-68 | the loop with recursion refines Loop on the live buffer and posts exactly one token per queued segment |
| ConditionalBufferedStreams.ConditionalBufferedStream.ConditionalBufferWorker | src/ConditionalBufferedStream.cpp:15-37 | the loop refines Run; the error is stored and one token posted per handler iff it ended on a socket error other than a termination request |
| ConditionalBufferedStreams.ConditionalBufferedStream.NotifyAll | src/ConditionalBufferedStream.cpp:29-34 | exactly one token for every handler's fd and none for others |
| ConditionalBufferedStreams.ConditionalBufferedStream.Read | src/ConditionalBufferedStream.cpp:91-106 | unknown fd, front of the queue, stored error or "no data", leaving all other queues alone |
| ConditionalBufferedStreams.ConditionalBufferedStream.ReadBlocking | src/ConditionalBufferedStream.cpp:119-137 | takes one token and reads; a timeout gives the termination or poll error, a failing poll the timeout error, a readable descriptor of no handler the invalid-condition error, each changing nothing |
| ConditionalBufferedStreams.ConditionalBufferedStream.StopReads | src/ConditionalBufferedStream.cpp:146-149 | sets the flag and posts stop tokens to the stream but none to the handlers' eventfds |
| EndToEnd.ExtractorsAgree | src/BufferedStream.cpp:17-31 | on one stream, any chunks on both sides: the k-th readUntilDelimiter result plus delimiter is the k-th segment of the delimiter handler |
| EndToEnd.SocketToReaders | src/ConditionalBufferedStream.cpp:15-137 | any handlers, schedule and interleaving: readers of an fd get a prefix of the segments popped for it, all of them before the error |
| EndToEnd.StopServesExactly | src/ConditionalBufferedStream.cpp:15-149 | any handlers, schedule, interleaving: after a worker's end without a crash a reader of fd is served again iff a segment is queued, or its notice is undelivered and the last poll found anything but a stop request or left bytes unread |
| EndToEnd.StopWakesExactly | src/ConditionalBufferedStream.cpp:15-149 | one delimiter handler, any schedule: the same, with "left bytes unread" replaced by "a received frame or the tail overflows the buffer" |
| EndToEnd.CalmStopWakesExactly | src/ConditionalBufferedStream.cpp:15-149 | a stop request found by the next poll on a healthy socket with nothing happening later: readers are woken iff a frame or the tail of the bytes received by then overflows the buffer |
| EndToEnd.IdleReaderWaits | src/ConditionalBufferedStream.cpp:24-25 | a stop request on an idle stream: the worker stops, and in every interleaving no reader ever gets a token, a segment or an error |
| EndToEnd.MessagesReachReaders | src/ConditionalBufferedStream.cpp:15-137 | framed messages in any chunks, any readers: deliveries are a prefix of the messages with delimiters, and all of them once the error is reported |

## Where code and comments differ

- The comment on `readUntilDelimiter` (include/socket_wrapper/BufferedStream.h:40) says that the result
  includes the delimiter; the code drops it (src/BufferedStream.cpp:24-26), and so does the model.
- `stopReads` is announced as aborting all running reads
  (include/socket_wrapper/ConditionalBufferedStream.h:74); it posts nothing to the handlers' eventfds.
  Whether a reader that waits without a timeout is woken depends on the worker's last poll: if it finds
  nothing but the stop request, as on an idle stream, nobody is woken (`EndToEnd.IdleReaderWaits`); if
  the peer has hung up, a call fails, or bytes are left unread in front of a full buffer, the worker ends
  with another error and posts the closing notices (`EndToEnd.StopServesExactly`,
  `EndToEnd.StopWakesExactly`); and while bytes that fit keep arriving it does not end at
  all (`Framing.FedNeverStops`).
- `readBlocking` throws `SOCKET_POLL` on a timeout and `SOCKET_READ_TIMEOUT` when poll fails
  (src/ConditionalBufferedStream.cpp:126-135); the model follows the code.

## Left out

- Streams.Stream.Write: a negative `attempts` is decremented with two's complement wrap-around, which C++ leaves undefined.
- Network.Attempt: a read of length zero returns 0 also when the socket has a pending error, as on Linux; POSIX would let it report the error.
- Handoff.TokenProtocol: assumes that writes to the eventfds succeed, that each lock-protected region and each eventfd operation is atomic, and that `last_ex`, which the worker writes without a lock, is sequentially consistent.
- Network.ReadLoop: a timeout of -1 may still time out in the model, which only adds behaviours; a poll that never returns is a run without a next step.
- Chunking.DelimiterWellBehaved: capacities above 2^31 - 1 are excluded because the narrowing is then wrong (`Delimiter.NarrowingBound`).
- ConditionalBufferedStreams.ConditionalBufferedStream.ConditionalBufferWorker: an uncaught exception ends the C++ process; the model reports it as a status and takes no further step.
- EndToEnd.StopServesExactly: a crash of the worker ends the process, so nothing is stated about readers after one.
- Handoff.TakeKeepsInv: `poll` and the read of the eventfd are one step; a reader that polls and then loses the token to another blocks in the read past its timeout, which the model shows as not having taken a token yet.
- Socket set-up, listening, accepting, connecting, address handling and datagrams (src/Listener.cpp, src/StreamFactory.cpp, src/UdpDatagram.cpp, src/Utils.cpp): system-call plumbing.
- Error names and messages (src/SocketException.cpp): only the kinds that the three classes raise are kept, without errno.
- Move construction and assignment, destructors, closing of descriptors, and `malloc` and `free`.
- `BufferedStream::write`, `ConditionalBufferedStream::write` and `readBlockingStr`: one-line forwards.
- Clients that call `read(fd)` without having taken a token, or register handlers after `start`, in the interleaved model.
- The sleep between write attempts, and the errno value carried by exceptions.

# Saurion: a verified model of its framing, its thread pool and its event loop

Saurion is a socket server on several io_uring rings. Its workers run in a
thread pool; every request they submit is owned by a linked list until it is
deleted. This project models the three stateful parts in Dafny and proves what
they are for.

**Framing and reassembly** (`saurion/src/low_saurion.c`). A frame is 8 bytes of
little-endian length, the payload and one terminator. The sender scatters a
message over 8192-byte chunks; the receiver is a state machine over `prev`,
`prev_size`, `prev_remain`, `next_iov` and `next_offset` that splits one read
into frames or rebuilds a long frame from many reads.

- `Bytes`, `Frames`, `Chunks`: lengths on the wire, a reference parser, the
  split of a size into iovecs.
- `Requests`: `struct request` as a class, `set_request` with its loops.
- `ReadSpec`, `FreshReads`, `ReadPath`, `ReadLoop`: `read_chunk` and
  `handle_read`, first as pure functions of what a call sees, then as methods
  with the loops of the C code, proved against those functions.
- `Reassembly`, `Terminators`, `Connection`, `RoundTrip`: whole runs. What a
  connection delivers for any sequence of completed reads, up to a stream of
  batches and long frames, and from `saurion_send` back to `on_readed`.

**Thread pool** (`threadpool/src/threadpool.cpp`). `QueueSpec`, `TaskQueues` and
`Fairness` are the queues with their limits and the round-robin search of
`front`. `Pool` is the pool as a state machine in which every critical section
under `m_q_mtx`, and every unlocked read of `m_fstop`, is one step; a signal may
wake any sleeper, a broadcast wakes all, and sleepers may wake by themselves.
`PoolSteps` says what each step means for whoever takes it. `PoolRuns` states
what follows for every run: no task is lost or run twice, a task is handed out
exactly when its queue has room, no wake-up is lost, `stop` drains, and nobody
who waits is stuck. `PoolFairness` shows that the runs of the pool are runs of
its queues, so that the bounded wait holds for the pool.

**Registry and event loop** (`saurion/src/linked_list.c`, the workers of
`low_saurion.c`). `ListSpec`, `Nodes` and `Registry` are the linked list with
the memory it owns: `free` needs a live block, so a second free or a leak would
not verify; `RegistryRuns` plays whole runs of operations on it. `EventLoop`
interleaves any number of workers over their rings and shows, whatever bytes
arrive, that each socket has exactly one reader and that requests are freed
once, after use; and that a socket whose reads the code can follow has its
callbacks in the order of its bytes in every schedule. `EventSteps` follows each
handler to its end: a new socket, a read, end of file, a write, a stop.

`Folds` holds lemmas about sums.

## Reading the results

The receiver is right under conditions that its code does not check. They are
stated as equivalences, and what happens otherwise is stated as well:

- A continuation is taken for what it is iff it reaches into the last of its
  iovecs, because only the last `iov_len` is adjusted
  (`Reassembly.ContinuationExact`); `Reassembly.ShortContinuation` is a family
  of reads that deliver a message whose second half is zeros.
- A fresh read that ends inside a payload is handled iff that frame is the first
  and longer than the read. Otherwise the message is cut short and forgotten:
  `on_readed` gets the bytes that arrived, followed by whatever the buffer held
  (`FreshReads.ProperExact`, `Reassembly.FirstCutExact`,
  `Reassembly.CutTailExact`, `RoundTrip.CutShortReported`). A read that ends
  inside a length field loses the frame (`FreshReads.CutFieldForgotten`).
- The last frame of a read keeps its payload iff it holds no zero byte, since
  `handle_read` measures it with `strlen` (`Reassembly.BatchExact`).
- The padding length in `initialize_iovec` is defined iff the message has at
  most 8176 bytes or more than 8183 (`Requests.PaddingLengthExact`). Together
  with `RoundTrip.RoundTripExact`, a full first read brings a sent string back
  for lengths up to 8176, for 8184, and for every length above 8192.
- The continuation requests have room for exactly the missing payload, so the
  terminator of a long frame stays in the stream. If it arrives alone, it causes
  one call of `on_readed` with an empty message, and streams are delivered
  (`Reassembly.StreamDelivered`, `Reassembly.StringsDelivered`). If anything of
  a next frame with a payload is in the same read, that frame is lost: its
  length is read one byte early, and the connection waits for a message 256
  times as long (`Terminators.FrameSwallowed`). So such a read is handled as
  what it is iff nothing of the frame is in it
  (`Terminators.LateTerminatorExact`). A sender that does not pause behind a
  long message can cause this.
- `stop` leaves no task behind iff no `add` stands between its test of
  `m_faccept` and its push when `stop` starts (`PoolRuns.LateAddIsLost`).
- `wait_empty` waits for empty queues, not for finished tasks; the tests in
  `threadpool/test` read results right after it. `PoolRuns.WaitEmptyExact` and
  `PoolRuns.WaitEmptyIsNotCompletion` say when that is too early.

Where `docs/README.md` sketches another `read_chunk` and `add_read_continue`,
the model follows the C code. `wait_closeable` is documented as waiting for the
completion of pending tasks; in the code it waits for a task or the stop flag,
and so does the model.

## Model

| member | source | states |
|---|---|---|
| `Bytes.HeaderRoundTrip` | saurion/scripts/client.sh:85-88 | the 8-byte length field gives a length back exactly when it fits into 64 bits |
| `Bytes.CutAtZeroExact` | saurion/src/low_saurion.c:443-445 | `strlen` loses nothing exactly when the payload has no zero byte |
| `Bytes.StrLen` | saurion/src/low_saurion.c:444 | finds the first zero of a terminated buffer |
| `Frames.ParseWire` | docs/README.md:110 | parsing inverts framing for every list of frames, with or without the last terminator |
| `Frames.ParseSound` | docs/README.md:110 | whatever parses is the framing of the payloads it parses to |
| `Chunks.ExactCapacity` | saurion/src/low_saurion.c:99-102 | for every size the iovec lengths are between 1 and 8192 and add up to exactly that size |
| `Chunks.AdjustedLensExact` | saurion/src/low_saurion.c:405-407 | the adjusted lengths add up to the bytes received iff the last iovec was reached |
| `Chunks.FlatAt` | saurion/src/low_saurion.c:373-380 | byte k of a gathered read is byte k % 8192 of chunk k / 8192 |
| `Requests.PaddingLengthExact` | saurion/src/low_saurion.c:83-85 | the padding length stays non-negative in every chunk iff the message has at most 8176 or more than 8183 bytes |
| `Requests.AllocateIovec` | saurion/src/low_saurion.c:93-105 | a fresh chunk of 8192 bytes with the length of its position |
| `Requests.InitializeIovec` | saurion/src/low_saurion.c:59-90 | payload bytes at their place, header bytes untouched, zeros behind as far as the code writes them |
| `Requests.MakeIovecs` | saurion/src/low_saurion.c:142-153 | all chunks separate, of the right lengths and initialised |
| `Requests.SetRequest` | saurion/src/low_saurion.c:108-161 | a new request with those chunks; the socket, pending message and cursor are inherited |
| `RoundTrip.AddWrite` | saurion/src/low_saurion.c:288-318 | the write request for a string, laid out with header and terminator |
| `RoundTrip.PayloadPlace` | saurion/src/low_saurion.c:68-79 | payload byte j is in chunk (j + 8) / 8192 at offset (j + 8) % 8192, inside the part in use |
| `RoundTrip.SentLayout` | saurion/src/low_saurion.c:59-105 | what is sent is 8 header bytes, the message and one terminator slot, zero if there are two chunks |
| `RoundTrip.SentIsFrame` | saurion/src/low_saurion.c:59-161 | with the length in the reserved bytes, what is sent is a frame |
| `RoundTrip.RoundTripExact` | saurion/src/low_saurion.c:329-452 | a sent string comes back in one call, unchanged, iff its frame does not end within the eight bytes behind a full first read; then the first call copies 8184 bytes of it and keeps no state for the rest |
| `RoundTrip.CutShortReported` | saurion/src/low_saurion.c:349-445 | what `on_readed` is then told starts with those bytes and goes on with whatever the buffer held |
| `RoundTrip.WholeFirstRead` | saurion/src/low_saurion.c:349-368 | a frame whose payload ends in the first read is delivered once, whole |
| `RoundTrip.FullReadDelivered` | saurion/src/low_saurion.c:329-452 | so is every frame that fits a full first read or is longer than it |
| `ReadSpec.TakenStep` | saurion/src/low_saurion.c:373-380 | one pass of the copy loop takes the next piece of the bytes wanted |
| `ReadSpec.TrailOfTaken` | saurion/src/low_saurion.c:369-380 | the loop, piece by piece, takes the first bytes wanted of all there are, wherever it starts |
| `ReadSpec.StepOnOneIovec` | saurion/src/low_saurion.c:349-399 | on one iovec a call splits the message, or moves the cursor behind its frame, or ends idle |
| `ReadSpec.StepOnContinuation` | saurion/src/low_saurion.c:336-339 | a call on a pending message takes what there is and never finds a next frame |
| `ReadSpec.CutDetected` | saurion/src/low_saurion.c:340-392 | a message cut by the end of the read is either copied whole or remembered iff it fits, or is first and longer than the read |
| `FreshReads.PassIsReadStep` | saurion/src/low_saurion.c:349-399 | the C arithmetic of a call on one iovec, with its wrap-around, agrees with the pure call wherever the copy can start |
| `FreshReads.PassSettled` | saurion/src/low_saurion.c:381-399 | one call, whatever cursor and length it finds, keeps `next_iov` 0 and never leaves both a pending message and a cursor |
| `FreshReads.SettledOverLoop` | saurion/src/low_saurion.c:409-419 | over the calls of the loop, whatever lengths they find, the fields stay so, the cursor grows by more than 8 each time, and the loop ends |
| `FreshReads.CutFieldForgotten` | saurion/src/low_saurion.c:340-399 | a call whose length field is cut by the end of the read remembers nothing of the frame |
| `FreshReads.BufferCall` | saurion/src/low_saurion.c:343-347 | `strlen` of a buffer that is only partly written: the written part, then anything up to the terminator |
| `FreshReads.AnsweredParsed` | saurion/src/low_saurion.c:409-448 | the calls of a read that parses are those of the reference parser, and no others |
| `FreshReads.ProperExact` | saurion/src/low_saurion.c:340-392 | with whole length fields, a fresh read is covered by the reference step iff every call copies its message whole or remembers it |
| `FreshReads.ProperReceived` | saurion/src/low_saurion.c:349-399 | covered reads have whole length fields |
| `ReadSpec.SettledOnContinuation` | saurion/src/low_saurion.c:381-399 | a continuation keeps them so, finds no next frame, and `prev_remain` drops by at least the bytes received |
| `FreshReads.FrameCall` | saurion/src/low_saurion.c:340-368 | what has arrived of a message at the cursor is copied, and the cursor moves behind its terminator |
| `ReadSpec.SplitCall` | saurion/src/low_saurion.c:349-359 | a first frame longer than the read becomes the pending message |
| `ReadSpec.UpdatedAfter` | saurion/src/low_saurion.c:381-399 | the control fields after the copy, from those in force during it |
| `ReadSpec.StrayCall` | saurion/src/low_saurion.c:349-399 | a read of only a terminator copies nothing and leaves the request idle |
| `ReadSpec.ContinuationCall` | saurion/src/low_saurion.c:336-339 | a continuation appends its data, and zeros if it ended before the last iovec |
| `ReadSpec.DeliverStep` | saurion/src/low_saurion.c:409-448 | the calls due at a cursor are this frame's and those due behind it; the last is cut at a zero byte |
| `ReadPath.CopyPieces` | saurion/src/low_saurion.c:369-380 | the copy loop over the iovecs writes exactly the pieces taken and nothing else |
| `ReadPath.OpenMessage` | saurion/src/low_saurion.c:334-368 | which message is written, its size, where writing and reading start, and what is remembered |
| `ReadPath.CopyAndUpdate` | saurion/src/low_saurion.c:369-399 | the copy and the control fields it leaves |
| `ReadPath.ReadChunk` | saurion/src/low_saurion.c:329-400 | the whole call: the bytes delivered and all control fields equal the pure description |
| `ReadLoop.AddRead` | saurion/src/low_saurion.c:228-258 | an idle request with one empty chunk for the socket |
| `ReadLoop.AddReadContinue` | saurion/src/low_saurion.c:260-286 | a request with room for exactly the missing bytes, carrying the pending message |
| `ReadLoop.AdjustLast` | saurion/src/low_saurion.c:405-407 | only the last length changes, and the request then shows the completed read |
| `ReadLoop.FramePass` | saurion/src/low_saurion.c:409-419 | a pass over a message copies what has arrived of it and moves on to the next or to none |
| `ReadLoop.PassOn` | saurion/src/low_saurion.c:411-419 | a pass with a next message makes one call, and those in front of the cursor have been made |
| `ReadLoop.PassLast` | saurion/src/low_saurion.c:442-448 | the call measured with `strlen` completes the calls of the read |
| `ReadLoop.NextChunk` | saurion/src/low_saurion.c:409-448 | the message of one pass, by what the read holds at the cursor |
| `ReadLoop.Turn` | saurion/src/low_saurion.c:409-419 | one pass either leads to the next message or leaves the last call to be made |
| `ReadLoop.Conclude` | saurion/src/low_saurion.c:420-450 | the last call, and the next read, of the same event type and socket: a continuation iff a message is pending; otherwise the request remembers nothing |
| `ReadLoop.HandleRead` | saurion/src/low_saurion.c:402-452 | for any completion with whole length fields: the `on_readed` calls, which are those of the reference step if it covers the read, and exactly one next read of the same event type and socket, which holds the new state; the loop ends |
| `Reassembly.RunSnoc` | saurion/src/low_saurion.c:402-452 | a run and one more read |
| `Reassembly.ProperRunSnoc` | saurion/src/low_saurion.c:402-452 | a longer run is covered iff the shorter one and the last read are |
| `Reassembly.BatchDelivered` | saurion/src/low_saurion.c:349-400 | a read of k whole frames makes k calls, in order, the last cut at a zero byte |
| `Reassembly.BatchExact` | saurion/src/low_saurion.c:443-445 | these are the payloads iff the last holds no zero byte |
| `Reassembly.CutTailExact` | saurion/src/low_saurion.c:340-392 | frames followed by part of another: no message is cut short iff the cut is outside its length and payload; a cut payload is copied as far as it goes, after the whole frames, and forgotten |
| `Reassembly.FirstCutExact` | saurion/src/low_saurion.c:352-392 | of part of a first frame, `read_chunk` copies the payload whole or remembers it iff it is complete or longer than the read; otherwise it copies what is there and leaves the request idle |
| `Reassembly.ContinuationExact` | saurion/src/low_saurion.c:405-407 | a continuation is accounted for exactly iff it reached into the last iovec, and always moves on |
| `Reassembly.ShortContinuation` | saurion/src/low_saurion.c:405-407 | one full chunk of two completes a message whose second half is then zeros |
| `Reassembly.ContinuationsDelivered` | saurion/src/low_saurion.c:420-441 | continuations deliver the pending message once, when it is complete |
| `Reassembly.ContinuationsPending` | saurion/src/low_saurion.c:436-441 | before that nothing is delivered and the pending message is what has arrived |
| `Reassembly.Reassembled` | saurion/src/low_saurion.c:260-286 | a frame longer than its first read is delivered once, with exactly its payload, for every cut into filling reads |
| `Reassembly.ReassemblyPrefix` | saurion/src/low_saurion.c:336-390 | part-way the pending message is the payload's prefix received so far, and no call has been made |
| `Reassembly.SegmentDelivered` | saurion/src/low_saurion.c:402-452 | one batch, or one long frame whose terminator arrives alone, leaves the connection idle |
| `Reassembly.StreamDelivered` | saurion/src/low_saurion.c:402-452 | any mixture of both is delivered segment by segment |
| `Terminators.ReadEarly` | saurion/src/low_saurion.c:350 | behind a late terminator a length is read one byte early: 256 times the length without its last byte |
| `Terminators.FrameNotFound` | saurion/src/low_saurion.c:349-392 | a call on such a read never leaves the cursor behind the terminator |
| `Terminators.FrameSwallowed` | saurion/src/low_saurion.c:349-359 | a whole frame behind a late terminator is not reported; the connection waits for a message 256 times as long |
| `Terminators.LateTerminatorExact` | saurion/src/low_saurion.c:270-275 | a late terminator with more of the stream behind it, from the next frame with a payload on, leaves the state and the messages of the two arriving apart iff nothing is behind it |
| `Reassembly.ReadsAreTheStream` | saurion/src/low_saurion.c:402-452 | the reads of the segments, concatenated, are the framed stream |
| `Reassembly.StringsDelivered` | saurion/src/low_saurion.c:402-452 | non-empty C strings are reported once each, in order, apart from empty calls |
| `Connection.ProperOutcomes` | saurion/src/low_saurion.c:402-452 | reads the reference steps cover make exactly their calls |
| `Connection.CompleteRead` | saurion/src/low_saurion.c:402-452 | one completion: the bytes are scattered over the iovecs, and `handle_read` answers |
| `Connection.Serve` | saurion/src/low_saurion.c:402-452 | completing reads in a loop with the real requests: the calls of each read, and those of the pure run if it covers them |
| `QueueSpec.NextBusyIsNearest` | threadpool/src/threadpool.cpp:85-95 | the search stops at the nearest non-empty queue at or beyond a distance |
| `QueueSpec.FrontServesNearest` | threadpool/src/threadpool.cpp:81-100 | `front` serves the first non-empty queue in cyclic order after the cursor, the cursor's own last, and throws iff there is none or it is saturated |
| `QueueSpec.FrontLimitExact` | threadpool/src/threadpool.cpp:26-31 | of the nearest queue with work, `front` throws iff its limit is not 0 and its counter has reached it |
| `QueueSpec.FrontTakesFirst` | threadpool/src/threadpool.cpp:32-36 | otherwise its first task is handed out and counted, the cursor moves there, and no other queue changes |
| `QueueSpec.FrontKeepsValid` | threadpool/src/threadpool.cpp:26-37 | handing out a task keeps every queue's history first in, first out |
| `QueueSpec.PushKeepsFifo` | threadpool/src/threadpool.cpp:21-25 | so does a push |
| `QueueSpec.InsertExact` | threadpool/src/threadpool.cpp:63-68 | a new queue leaves all others as they were and the cursor on its queue |
| `QueueSpec.RemoveExact` | threadpool/src/threadpool.cpp:69-76 | so does a removal, and the queue with that id is gone |
| `TaskQueues.AsyncQueue.constructor` | threadpool/src/threadpool.cpp:17 | an empty queue with its limit |
| `TaskQueues.AsyncQueue.Push` | threadpool/src/threadpool.cpp:21-25 | the task is the last |
| `TaskQueues.AsyncQueue.Front` | threadpool/src/threadpool.cpp:26-37 | an exception that changes nothing iff there is a limit and the counter has reached it; otherwise the first task, and one more running |
| `TaskQueues.AsyncQueue.Pop` | threadpool/src/threadpool.cpp:38-42 | one fewer running, modulo 2^32 |
| `TaskQueues.AsyncQueue.Empty` | threadpool/src/threadpool.cpp:44-49 | whether there is a task |
| `TaskQueues.AsyncMultiQueue.constructor` | threadpool/src/threadpool.cpp:53-56 | queue 0, unlimited, under the cursor |
| `TaskQueues.AsyncMultiQueue.NewQueue` | threadpool/src/threadpool.cpp:63-68 | a new queue anywhere in the iteration order, or an exception iff the id is taken; the cursor stays with its queue |
| `TaskQueues.AsyncMultiQueue.RemoveQueue` | threadpool/src/threadpool.cpp:69-76 | the queue is gone and all others stay, or an exception iff there is none |
| `TaskQueues.AsyncMultiQueue.Push` | threadpool/src/threadpool.cpp:78-80 | a push to that queue only, or an exception iff there is none |
| `TaskQueues.AsyncMultiQueue.Pop` | threadpool/src/threadpool.cpp:101 | a pop of that queue only |
| `TaskQueues.AsyncMultiQueue.Empty` | threadpool/src/threadpool.cpp:103-110 | the loop answers whether all queues are empty |
| `TaskQueues.AsyncMultiQueue.Search` | threadpool/src/threadpool.cpp:85-95 | the wrap-around loop ends, also with the cursor at `begin`, at the nearest non-empty queue |
| `TaskQueues.AsyncMultiQueue.Front` | threadpool/src/threadpool.cpp:81-100 | the task of that queue, its id and the new cursor; an exception leaves every queue, counter and the cursor as they were |
| `Fairness.FifoOverRuns` | threadpool/src/threadpool.cpp:21-37 | over every run each queue's pushes are what it handed out, in that order, then what is pending |
| `Fairness.FrontComesNearer` | threadpool/src/threadpool.cpp:81-100 | serving another queue brings the cursor strictly nearer |
| `Fairness.WaitIsBounded` | threadpool/src/threadpool.cpp:81-100 | while a queue with work is not served, fewer fronts succeed than its distance from the cursor |
| `Fairness.ServedWithinAllQueues` | threadpool/src/threadpool.cpp:81-100 | a queue with work is served within as many successful fronts as there are queues, whatever is interleaved |
| `PoolFairness.RunIsEvents` | threadpool/src/threadpool.cpp:157-251 | what a run of the pool does to its queues is a run of pushes, fronts and pops, with the same tasks handed out |
| `PoolFairness.WaitIsBoundedInPool` | threadpool/src/threadpool.cpp:81-101 | in the pool, a queue with work is served before as many fetches have got a task as there are queues |
| `PoolFairness.FifoInPool` | threadpool/src/threadpool.cpp:21-37 | in the pool, each queue hands out its tasks in the order they were added |
| `Pool.InitialInv` | threadpool/src/threadpool.cpp:125-137 | the invariant holds after `init` |
| `Pool.StartConserved` | threadpool/src/threadpool.cpp:233-236 | fetching moves a task from its queue to the worker |
| `Pool.StartCounted` | threadpool/src/threadpool.cpp:28-34 | and keeps counters exact and limits observed |
| `Pool.CompleteConserved` | threadpool/src/threadpool.cpp:238-245 | finishing moves it from the worker to the finished |
| `Pool.CompleteCounted` | threadpool/src/threadpool.cpp:38-42 | and lowers the counter, which was not zero |
| `Pool.AcceptBooks` | threadpool/src/threadpool.cpp:165-176 | an accepted task is pending once |
| `Pool.CreateBooks` | threadpool/src/threadpool.cpp:180-189 | a new queue changes no task and no counter |
| `Pool.DeleteBooks` | threadpool/src/threadpool.cpp:190-205 | removing an idle, empty queue off the cursor changes none either |
| `Pool.BooksKept` | threadpool/src/threadpool.cpp:157-251 | every step keeps counters, limits and the conservation of tasks |
| `Pool.RaiseOrder` | threadpool/src/threadpool.cpp:146-149 | raising the flag with a broadcast leaves no worker asleep |
| `Pool.StopOrderKept` | threadpool/src/threadpool.cpp:138-156 | every step keeps the order of shutting down: closed, drained, flag, exits, joined |
| `Pool.PushWakes` | threadpool/src/threadpool.cpp:165-172 | the signal of `add` reaches a worker when all are asleep, although waiters share the condition variable |
| `Pool.WakeUpsKept` | threadpool/src/threadpool.cpp:157-251 | no step loses a wake-up |
| `Pool.InvariantOverRuns` | threadpool/src/threadpool.cpp:125-251 | the invariant holds after every run with a disciplined `stop`, and no accepted or finished task is forgotten |
| `PoolSteps.InitialExact` | threadpool/src/threadpool.cpp:53-56 | after `init` there is one unlimited, empty queue, and all workers are about to work |
| `PoolSteps.SignalWakesOne` | threadpool/src/threadpool.cpp:171 | a signal wakes exactly one sleeper, of any kind, unless there is none |
| `PoolSteps.BroadcastWakesAll` | threadpool/src/threadpool.cpp:148 | a broadcast wakes every sleeper and moves nobody else |
| `PoolSteps.AnySleeperMayWake` | threadpool/src/threadpool.cpp:209-211 | any sleeper may be the one that wakes, or wake by itself, and tests its condition again |
| `PoolSteps.AddReaches` | threadpool/src/threadpool.cpp:165-176 | `add` puts one task with its function and argument at the end of the queue it names and of no other; for an unknown queue nothing changes; either way it is over and signals once |
| `PoolSteps.CreateReaches` | threadpool/src/threadpool.cpp:180-189 | the new queue has the id and limit asked for; all others and the cursor's queue stay |
| `PoolSteps.DeleteReaches` | threadpool/src/threadpool.cpp:190-205 | the queue with that id is gone; all others and the cursor's queue stay; one signal |
| `PoolSteps.ReadStopExact` | threadpool/src/threadpool.cpp:230 | a worker that reads the flag raised exits, otherwise fetches |
| `PoolSteps.FetchExact` | threadpool/src/threadpool.cpp:233-236 | a fetching worker gets the first task of the nearest queue with work iff that queue has no limit or fewer workers than it on its tasks; otherwise nothing changes |
| `PoolSteps.FinishExact` | threadpool/src/threadpool.cpp:237-245 | a worker that has run its task counts it as finished, gives its place back, and wakes everybody |
| `PoolSteps.SleepExact` | threadpool/src/threadpool.cpp:207-213 | a worker falls asleep iff every queue is empty and the flag is down |
| `PoolSteps.WaitExact` | threadpool/src/threadpool.cpp:214-220 | a caller in `wait_empty` goes on iff every queue is empty, and otherwise falls asleep |
| `PoolSteps.StopExact` | threadpool/src/threadpool.cpp:138-156 | `stop` closes the pool, later raises the flag and wakes everybody, and returns once every worker has exited |
| `PoolSteps.CallsPossible` | threadpool/src/threadpool.cpp:157-220 | no client is blocked: `add`, `stop`, `wait_empty`, `new_queue` and `remove_queue` of an idle, empty queue off the cursor are possible in every state of the invariant |
| `PoolSteps.AddingExact` | threadpool/src/threadpool.cpp:157-176 | over every run, the adds in progress are those begun and not yet pushed |
| `PoolRuns.NoLostWakeUp` | threadpool/src/threadpool.cpp:207-251 | with a task pending some worker is awake; a waiter asleep with nothing pending has a running worker |
| `PoolRuns.ConcurrencyLimit` | threadpool/src/threadpool.cpp:26-43 | each counter is the number of workers between `front` and `pop`, never above a limit |
| `PoolRuns.FetchUnderLimit` | threadpool/src/threadpool.cpp:26-37 | in every reachable state a fetching worker gets a task iff the nearest queue with work has no limit or fewer than its limit running |
| `PoolRuns.EveryTaskOnce` | threadpool/src/threadpool.cpp:157-251 | an accepted task is in one place once, pending, running or finished, and nothing else is anywhere |
| `PoolRuns.DrainingStop` | threadpool/src/threadpool.cpp:138-156 | when `stop` returns, the finished tasks are the accepted ones, each once, and nothing is left |
| `PoolRuns.StopAfterTasks` | threadpool/src/threadpool.cpp:138-176 | for every number of workers and of tasks, some disciplined run accepts that many and has `stop` return |
| `PoolRuns.AllFinishedExact` | threadpool/src/threadpool.cpp:214-220 | with nothing pending, everything accepted is finished iff no worker runs a task |
| `PoolRuns.CountersExact` | threadpool/src/threadpool.cpp:26-43 | no worker is in the middle of a task iff every queue's counter is zero |
| `PoolRuns.WaitEmptyExact` | threadpool/src/threadpool.cpp:214-220 | so `wait_empty` returns with all tasks done iff every counter is zero |
| `PoolRuns.CallReturnsEarly` | threadpool/src/threadpool.cpp:214-220 | called while the last tasks run, it returns before they are done |
| `PoolRuns.WaitEmptyIsNotCompletion` | threadpool/src/threadpool.cpp:214-220 | such a run exists from `init` on |
| `PoolRuns.NoWorkerLeftBehind` | threadpool/src/threadpool.cpp:207-213 | once `stop` has raised its flag, no worker is or becomes asleep |
| `PoolRuns.ShutdownIsBounded` | threadpool/src/threadpool.cpp:230-250 | from then on the number of worker steps to the last exit is fixed, in every schedule |
| `PoolRuns.ProgressUnderLimits` | threadpool/src/threadpool.cpp:26-37 | with tasks pending and none running, `front` succeeds |
| `PoolRuns.Drain` | threadpool/src/threadpool.cpp:227-251 | from every state the workers alone can finish everything accepted |
| `PoolRuns.WaitEmptyCanReturn` | threadpool/src/threadpool.cpp:214-220 | whoever waits in `wait_empty` can return |
| `PoolRuns.StopCanReturn` | threadpool/src/threadpool.cpp:138-156 | wherever a caller of `stop` stands, it can return |
| `PoolRuns.LateAddIsLost` | threadpool/src/threadpool.cpp:157-167 | `stop` can leave a task behind iff an `add` stands between its test and its push when it starts |
| `Registry.Registry.CreateNode` | saurion/src/linked_list.c:19-59 | a node with its children, all its blocks new, distinct and live |
| `Registry.Registry.Last` | saurion/src/linked_list.c:74-77 | the walk reaches the last node, reading only live nodes |
| `Registry.Registry.ListInsert` | saurion/src/linked_list.c:61-81 | the entry is appended and the list owns its memory |
| `Registry.Registry.FreeNode` | saurion/src/linked_list.c:83-93 | every block of the node, children first, is freed once and no other, and its entry is recorded as freed |
| `Registry.Registry.Find` | saurion/src/linked_list.c:98-113 | the first node for the pointer and the one before it |
| `Registry.Registry.Unlink` | saurion/src/linked_list.c:102-122 | the chain without that node |
| `Registry.Registry.ListDeleteNode` | saurion/src/linked_list.c:95-126 | the first entry for the pointer is gone, exactly its memory freed; without one nothing changes |
| `Registry.Registry.ListFree` | saurion/src/linked_list.c:128-141 | the list is empty and exactly what it owned is freed |
| `Nodes.RemoveFirstFor` | saurion/src/linked_list.c:110-122 | unlinking the first node for a pointer removes its first entry |
| `Nodes.BlocksExact` | saurion/src/linked_list.c:83-93 | what a node gives back: itself, its pointer, each child and its pointer, and the table of children iff there are any |
| `Nodes.FirstEntryFor` | saurion/src/linked_list.c:110-123 | and that entry is what the freed node was listed as |
| `Nodes.AllBlocksOwned` | saurion/src/linked_list.c:83-93 | the addresses the nodes own are those of their entries |
| `Nodes.DeleteAccounts` | saurion/src/linked_list.c:110-123 | deleting keeps the account of memory: that of the entries left and what is foreign to the list |
| `Nodes.OwningWithout` | saurion/src/linked_list.c:121-123 | the other nodes keep all their memory |
| `Nodes.LinkedWithout` | saurion/src/linked_list.c:122 | skipping a node leaves a chain of the others |
| `ListSpec.RunsConserve` | saurion/src/linked_list.c:61-141 | over every run each entry inserted is still listed or was freed, as often as it was inserted |
| `RegistryRuns.PerformInsert` | saurion/src/linked_list.c:61-81 | an insertion on the heap list, with its account of memory |
| `RegistryRuns.PerformDelete` | saurion/src/linked_list.c:95-126 | a deletion, with its account of memory |
| `RegistryRuns.Play` | saurion/src/linked_list.c:61-141 | any run of operations on the heap list: its content, the entries freed in order, and no other memory touched |
| `ListSpec.DeleteExact` | saurion/src/linked_list.c:110-123 | a deleted pointer is gone iff it was not listed twice |
| `ListSpec.DeleteKeepsOrder` | saurion/src/linked_list.c:110-122 | on distinct pointers all others stay, in order |
| `EventLoop.OneReaderKept` | saurion/src/low_saurion.c:655-678 | every step keeps one holder of the read per open socket |
| `EventLoop.RegisteredKept` | saurion/src/low_saurion.c:154-155 | every step keeps the list equal to the requests in use |
| `EventLoop.OneAcceptKept` | saurion/src/low_saurion.c:656-661 | there is always exactly one accept, outstanding or about to be added |
| `EventLoop.ReadTaken` | saurion/src/low_saurion.c:402-452 | a completed read goes to its worker with the calls still to make |
| `EventLoop.AnyBytesMayArrive` | saurion/src/low_saurion.c:662-671 | no bytes are excluded: an outstanding read may complete with any |
| `EventLoop.HolderIsAlone` | saurion/src/low_saurion.c:662-673 | whoever holds a socket's read is alone |
| `EventLoop.CompleteKeepsContents` | saurion/src/low_saurion.c:632-674 | taking a completion keeps every connection's record |
| `EventLoop.DoKeepsContents` | saurion/src/low_saurion.c:655-677 | so does every handler step |
| `EventLoop.InitialInv` | saurion/src/low_saurion.c:754-767 | the invariant holds when the workers start |
| `EventLoop.InvariantOverRuns` | saurion/src/low_saurion.c:616-752 | and after every interleaving |
| `EventLoop.Serialized` | saurion/src/low_saurion.c:655-744 | whatever bytes arrive, an open socket's read is outstanding once or with one worker, never both; a closed one has none |
| `EventLoop.CallsInStreamOrder` | saurion/src/low_saurion.c:402-452 | whatever arrives on other sockets, the calls made for a socket whose own reads are covered are a prefix of those of its reads in order, and all of them once its next read is outstanding |
| `EventLoop.StreamsServed` | saurion/src/low_saurion.c:727-744 | a stream of frames is reported in order whatever the schedule and the other sockets' bytes |
| `EventLoop.SingleAccept` | saurion/src/low_saurion.c:656-661 | in every reachable state there is exactly one accept, outstanding or about to be added |
| `EventLoop.FreedAfterUse` | saurion/src/low_saurion.c:648-676 | whatever bytes arrive, a request is listed once while outstanding or in hand, never both, and not afterwards |
| `EventSteps.Undisturbed` | saurion/src/low_saurion.c:655-744 | nothing that others do, in any run, moves a busy worker or touches its socket |
| `EventSteps.InitialExact` | saurion/src/low_saurion.c:754-767 | every worker starts by adding its stop request, and the first is the master |
| `EventSteps.BootSteps` | saurion/src/low_saurion.c:624-625 | a worker adds the stop request to its own ring, the master then the first accept |
| `EventSteps.DispatchExact` | saurion/src/low_saurion.c:648-678 | which handler a completed request goes to: end of file iff a read returned no bytes |
| `EventSteps.CompleteExact` | saurion/src/low_saurion.c:638-654 | taking a completion takes that request off its ring and records the bytes that arrived |
| `EventSteps.AcceptSteps` | saurion/src/low_saurion.c:656-661 | of a new socket: on_connected, then the next accept on the master's ring, then a first read of it |
| `EventSteps.ReadSteps` | saurion/src/low_saurion.c:409-450 | of a read: its calls one by one, then exactly one read of the same socket |
| `EventSteps.CloseSteps` | saurion/src/low_saurion.c:471-478 | of end of file: on_closed, then the socket is closed; no request is submitted |
| `EventSteps.LastSteps` | saurion/src/low_saurion.c:672-677 | of a write: on_wrote; then every request is deleted, and the worker waits again or leaves |
| `EventSteps.BusyWorkerMoves` | saurion/src/low_saurion.c:655-678 | a busy worker can always take its next step |
| `EventSteps.IdleWorkerTakes` | saurion/src/low_saurion.c:631-654 | an idle worker takes any completion on its ring |
| `EventSteps.SendExact` | saurion/src/low_saurion.c:808-810 | `saurion_send` is possible at any time and submits one write to that socket |
| `EventSteps.EndOfFile` | saurion/src/low_saurion.c:666-672 | after a read without bytes, whatever is interleaved: on_closed once, the socket closed by the worker's second step, no request submitted, no read outstanding and no call made, until the number is accepted again |
| `EventSteps.CallbacksOnce` | saurion/src/low_saurion.c:321-327 | a socket has at most one on_connected, before any on_readed; a closed one had exactly one, one on_closed, and all its calls |
| `EventSteps.SendsAnswered` | saurion/src/low_saurion.c:288-318 | every `saurion_send` is outstanding, with a worker, or answered by one on_wrote |
| `EventSteps.EveryWorkerCanStop` | saurion/src/low_saurion.c:197-226 | each started worker's ring holds exactly one stop request until the worker takes it |
| `EventSteps.LeftStaysLeft` | saurion/src/low_saurion.c:648-652 | a worker that has left takes nothing more |

## Left out

- io_uring, sockets, eventfds and the retry loops around submissions: a
  submission succeeds, and a completion is a request with bytes, end of file or
  a new socket. Negative results, where a worker gives up, are not modelled.
- Failed allocations, and a message that is pending when its socket closes.
- `saurion_create`, `saurion_destroy` and the `status` handshake.
- `Requests.InitializeIovec`: not for one-chunk messages of 8177 to 8183 bytes
  with header, for which the padding length wraps around and `memset` leaves
  the chunk. `Requests.PaddingLengthExact` gives the condition.
- `Requests.MakeIovecs`: the same lengths are excluded.
- `Requests.SetRequest`: the same lengths are excluded. The insertion into the
  request list is part of `EventLoop`: there listing and submitting are one
  step, and the addresses of chunks are not tracked.
- `RoundTrip.AddWrite`: the same lengths are excluded.
- `ReadLoop.HandleRead`: not for fresh reads that cut a length field, since the
  copy then starts behind the bytes received and may leave the chunk; what the
  control fields become is `FreshReads.CutFieldForgotten`.
- `ReadLoop.AdjustLast`: the same reads are excluded.
- `Connection.Serve`: runs with such a read are excluded. `EventLoop` admits
  them: from then on the calls and the next read of that connection are
  arbitrary.
- A length field whose sum with header and terminator exceeds 64 bits: sizes are
  unbounded there, as a message of that length does not exist in memory.
- Requests without iovecs, on which `read_chunk` returns at once: every read
  request has a chunk. An accept request has none and is never read.
- Callbacks that are not set. `on_readed` is taken to be set; it is the log of
  calls.
- `Reassembly.StreamDelivered`: late terminators arrive alone. `Terminators`
  has the exact condition for one read; what a connection reports after a read
  that violates it is not modelled further.
- `Reassembly.StringsDelivered`: the same.
- `EventLoop.StreamsServed`: the same, for the socket it speaks of.
- `Registry.Registry.CreateNode`: the table of children is a sequence and the
  node's fields but its link are fixed at creation, so the order in which the
  node and its children are allocated is not modelled. The list mutex makes each
  operation one step.
- `Registry.Registry.ListInsert`: the caller's pointers are live and not listed
  yet. Inserting one twice is covered by `ListSpec` only.
- `ThreadPool` as an object: `init` is one step, as are the two unlocked writes
  at the start of `stop`. One lifetime from `init` to `stop` is covered, with
  fewer than 2^32 workers; re-`init`, the unlocked `empty`, `add` with a null
  function and the destructor are not.
- `TaskQueues.AsyncMultiQueue.RemoveQueue`: not on the queue under the cursor,
  whose iterator the code would leave dangling. The pool removes only queues
  that are also idle and empty.
- The iteration order of the hash map is a sequence; a new queue may enter it
  anywhere, but a rehash does not reorder the others.
- `PoolRuns.Drain`, `PoolRuns.StopCanReturn`, `PoolRuns.WaitEmptyCanReturn`:
  some schedule gets there. A fair schedule may still spin, as a worker that
  finds only a saturated queue loops without sleeping.
- The thin wrappers `saurion.cpp` and `cthreadpool.cpp`, the logger, scripts
  and build files.

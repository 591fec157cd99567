# Verified model of the client libraries, the posix proxy and the log collector

This project models, in Dafny, the stateful protocols and the data formats of the normal-world
side of a TEE client: the queue that two worlds share, the session pool, the reference-counted
contexts, shared-memory slots and packages, the marshalling of remote calls, the intrusive lists,
the log collector with its archives, and the command-line splitter and joiner. What several
threads or two worlds do at the same time is a state machine whose events are the atomic steps of
the code, in every order; the theorems are about every run. What one thread does is a class or a
method with the loops of the code, proved against the functions those theorems are about.

`dafny verify dfyconfig.toml` checks everything.

| files | what |
|---|---|
| Bytes, Positions, Messages, TaskQueue, TaskQueueProofs, QueueRuns | the ring of 512-byte blocks as a state machine over its snapshot, block and publish steps |
| Waiting, BlockingQueue | its bounded wait, and the queue's own procedures over the entry array |
| Executor, Service, Shutdown, Destroy, ThreadPool | the workers between two queues, the service of messages, the shutdown that interrupts, joins and destroys, and a start that fails |
| Bitmaps, SessionPool, PoolUse, SharedMemory, SharedRuns | byte bitmaps in place; the session pool; the 64 shared-memory slots of a context |
| Contexts, ContextLife | the context list, its counts and its descriptors |
| Packages, FdList, Chunks, PackageCalls | reference-counted packages, the timeout sweep, chunked transfers |
| Marshalling, Serializer | the wire format of calls, and the encoding and decoding loops |
| Rings, OpenFiles | circular lists on the heap, with and without a sentinel |
| LogDirs, LogStore, LogHistory, LogSizes, LogCollector | rotation of log files and the window of archives |
| LogParser, Tar, TarWriter, Arguments, ArgumentCalls | framed records, the archive format, tokenizer and joiner |

## What the code does where its comments or its callers expect something else

- The pool's header says that the keys equal opened minus inuse, and that a set usage bit marks a
  session in use (include/cloud/tee_session_pool.h:31-32). A set bit marks a free session, and the
  equation holds up to the threads between a semaphore operation and the lock (`PoolSafety`). The
  usage bitmap is never cleared (line 58 of the pool only allocates it); this turns out harmless,
  because first fit never reaches past the opened sessions while a key is held (`KeyMeansFree`).
- The size check of the queue multiplies in 32 bits, so from 2^23 blocks on it refuses sizes that
  would fit; a ring of just 2^23 blocks refuses every message but the empty one (`SizeCheckExact`,
  `FourGigabytesRefused`). A message of more than 2^31 - 512 bytes overflows the signed counts of
  EnqueueBlocks as soon as it is accepted and has room (`WaitsAreExact`, `OverflowExample`).
- A queue message of zero bytes is accepted and disappears (`Fifo`), and one that needs all blocks
  of the ring passes the size check and waits for ever (`WaitsAreExact`).
- A release of zero-copy shared memory clears slot 0, which it never took (`StepExact`,
  `SharedSlotExample`).
- A timeout sweep drops the list's reference every time it hits a package, so two sweeps over a
  borrowed package free it early, and one sweep during a send makes its first release free the package
  and its second one touch freed memory (`SweepExact`, `TwoSweepsExample`, `SweepInSendExample`).
- A chunk without data but with a size is reported as sent (`NullChunkClears`), and the size of a chunk
  is not compared with its data argument (`OutOfReachExact`).
- Serialize refuses bytes with 2^31 bytes of room or more behind them (`FitsExactly`).
- A stored size near 2^64 wraps the bounds test of DeSerialize (`PlacesInsideExact`).
- When any thread but the first cannot be started, creating a tasklet waits for ever for the others
  (`FailedStartEnds`).
- The fifth compression of a source deletes its oldest archive (`NothingLost`).
- The option -cp takes the word before it when it does not come first (`OneOption`).
- CalculateBuffSize cuts each size to 32 bits (`SizeExact`).
- MakeArgs tests totalSize > *size, but at equality the space behind the last word leaves no room
  for the zero, so it fails there too (`MakeArgs`).
- The size limit of a log file does not count the banner of a file just created, and a file reopened
  after a restart takes one record before the limit is looked at (`FileSizes`, `BoundReached`).
- The comments in GetCompressFile and LogFilesCompress speak of recycling from number zero; the code
  shifts the archives down and always reuses number 3 (`ArchiveWindow`). The record header's comment
  speaks of multiples of 32 bytes; the test is for 64.
- An empty file becomes a block of zeros in the archive, which ends it for readers, a path whose last
  part has less than eight characters with its slash ends it without an end block (`ShortPathExample`),
  a size is written modulo 2^32 (`RoundTripExact`), and where char is signed a name with bytes of 128 or more gets a
  wrong checksum (`ChecksumExact`).
- Print mode loses the last byte of a record whose text fills its padded buffer (`PrintedIsText`).

## Model

| member | source | states |
|---|---|---|
| `Positions.PublishHead` | src/tee_teleport/posix_proxy/src/xtasklet/blocking_queue.c:19-50 | Publishing a head leaves the tail half of the shared word alone, and a snapshot reads back exactly the published index and flip bit |
| `Positions.PublishTail` | src/tee_teleport/posix_proxy/src/xtasklet/blocking_queue.c:28-50 | The same for the tail |
| `Positions.AdvanceCounts` | src/tee_teleport/posix_proxy/src/xtasklet/blocking_queue.c:237-238 | A position stands for the number of blocks ever published, modulo two laps; adding blocks with the wrap and flip rule adds to that number |
| `Positions.IsFullExact` | src/tee_teleport/posix_proxy/src/xtasklet/blocking_queue.c:237-240 | The two-clause flip test reports full exactly when used plus needed blocks reach the ring size |
| `Positions.IsEmptyExact` | src/tee_teleport/posix_proxy/src/xtasklet/blocking_queue.c:339-340 | Equal position and flip means empty; equal position with different flips never occurs below a full ring |
| `Positions.SlotLoopTest` | src/tee_teleport/posix_proxy/src/xtasklet/blocking_queue.c:268-280 | A loop over blocks that compares slots with `!=` stops after exactly the intended number of blocks |
| `TaskQueueProofs.StepInv` | src/tee_teleport/posix_proxy/src/xtasklet/blocking_queue.c:213-404 | Each atomic step of sender or receiver keeps the layout invariant: both positions, the used window below the ring size, every readable block showing its message, and the progress of both copies |
| `TaskQueueProofs.RunInv` | src/tee_teleport/posix_proxy/src/xtasklet/blocking_queue.c:53-404 | The invariant holds after every interleaving from the zeroed ring |
| `TaskQueueProofs.Fifo` | src/tee_teleport/posix_proxy/src/xtasklet/blocking_queue.c:213-404 | In every interleaving the received messages are byte for byte a prefix of the sent ones without the zero-length ones, all of them exactly when the ring is empty, no error branch of GetMetadata is reached, and no message whose last block ends at 2^31 bytes or more, where the signed counts overflow, has been sent |
| `TaskQueueProofs.NoSlotShared` | src/tee_teleport/posix_proxy/src/xtasklet/blocking_queue.c:260-282 | The slot being written is not in the published window, is not being copied out, and is not the one whose metadata is read |
| `TaskQueueProofs.WaitsAreExact` | src/tee_teleport/posix_proxy/src/xtasklet/blocking_queue.c:213-252 | A sender goes ahead exactly when used plus needed blocks stay below the ring size, so a message of all blocks never does; of those that do, exactly the ones that an int can count are copied, the others overflow; a receiver goes ahead exactly when an undelivered message exists |
| `TaskQueueProofs.RunNoOverflow` | src/tee_teleport/posix_proxy/src/xtasklet/blocking_queue.c:260-282 | In every run, what is being copied or has been sent is counted without overflow, and a sender that overflowed had a message that an int cannot count |
| `TaskQueueProofs.OverflowExample` | src/tee_teleport/posix_proxy/src/xtasklet/blocking_queue.c:260-282 | On an empty ring with room, every accepted message that an int cannot count overflows |
| `TaskQueueProofs.SizeCheckExact` | src/tee_teleport/posix_proxy/src/xtasklet/blocking_queue.c:297 | The 32-bit size check lets through exactly the sizes that fit if and only if the ring has less than 2^23 blocks; and exactly those that fit among the sizes an int can count if and only if, besides, the product may also wrap to that limit or more |
| `TaskQueueProofs.FourGigabytesRefused` | src/tee_teleport/posix_proxy/src/xtasklet/blocking_queue.c:297 | A ring of exactly 2^23 blocks refuses every message except the empty one |
| `TaskQueueProofs.ProducerLoopTest` | src/tee_teleport/posix_proxy/src/xtasklet/blocking_queue.c:270-280 | The enqueue loop runs exactly once per block of the message and then publishes |
| `TaskQueueProofs.ConsumerLoopTest` | src/tee_teleport/posix_proxy/src/xtasklet/blocking_queue.c:395-402 | The dequeue loop runs exactly once per block and then publishes |
| `QueueRuns.SendCompletes` | src/tee_teleport/posix_proxy/src/xtasklet/blocking_queue.c:284-325 | An undisturbed sender whose message is accepted, countable and has room gets done: one step per block, then exactly that message has been sent |
| `QueueRuns.ReceiveCompletes` | src/tee_teleport/posix_proxy/src/xtasklet/blocking_queue.c:406-450 | An undisturbed receiver gets the oldest undelivered message whenever there is one, byte for byte |
| `BlockingQueue.BlockingQueue.constructor` | src/tee_teleport/posix_proxy/src/xtasklet/blocking_queue.c:53-93 | A new queue is the initial state of the machine, with the spin allowance of 2000 |
| `BlockingQueue.BlockingQueue.Blocking` | src/tee_teleport/posix_proxy/src/xtasklet/blocking_queue.c:183-206 | One wait: time out, spin, or sleep 100 us, with the new allowance and remaining time for each case |
| `BlockingQueue.BlockingQueue.Unblocking` | src/tee_teleport/posix_proxy/src/xtasklet/blocking_queue.c:208-211 | Success earns 2000 more spins |
| `BlockingQueue.BlockingQueue.WaitFull` | src/tee_teleport/posix_proxy/src/xtasklet/blocking_queue.c:213-252 | The outcome is that of the specified wait over the snapshots seen; on success the head is the one of a snapshot with room |
| `BlockingQueue.BlockingQueue.WaitEmpty` | src/tee_teleport/posix_proxy/src/xtasklet/blocking_queue.c:327-352 | The same for a receiver and a snapshot that is not empty |
| `BlockingQueue.BlockingQueue.SetMetadata` | src/tee_teleport/posix_proxy/src/xtasklet/blocking_queue.c:254-258 | Only the two metadata fields of one entry change |
| `BlockingQueue.BlockingQueue.EnqueueBlocks` | src/tee_teleport/posix_proxy/src/xtasklet/blocking_queue.c:260-282 | With nobody else moving, the loop equals one write step per block followed by the publishing step, which sends exactly the source bytes |
| `BlockingQueue.BlockingQueue.GetMetadata` | src/tee_teleport/posix_proxy/src/xtasklet/blocking_queue.c:354-371 | Accepts a first block with a size its blocks can hold, refuses everything else |
| `BlockingQueue.BlockingQueue.DequeueBlocks` | src/tee_teleport/posix_proxy/src/xtasklet/blocking_queue.c:387-404 | The loop equals one copy step per block followed by the publishing step, and the buffer then holds the oldest undelivered message |
| `BlockingQueue.WritesThenPublish` | src/tee_teleport/posix_proxy/src/xtasklet/blocking_queue.c:260-282 | After the last write step the publishing step is the one that is enabled, and it appends the message to what was sent |
| `BlockingQueue.CopiesThenPublish` | src/tee_teleport/posix_proxy/src/xtasklet/blocking_queue.c:387-404 | After the last copy step the publishing step delivers exactly the oldest undelivered message |
| `Waiting.BoundedWait` | src/tee_teleport/posix_proxy/src/xtasklet/blocking_queue.c:183-252 | With a timeout T >= 0: at most allowance + T/100 + 1 waits, at most T us slept, the remaining time never becomes the value for ever, and there is always a result |
| `Waiting.ExactTimeout` | src/tee_teleport/posix_proxy/src/xtasklet/blocking_queue.c:183-206 | When nothing frees the queue the timeout comes at precisely that wait, with T/100 sleeps; below 100 us it comes at once, unspun |
| `Waiting.EndlessWait` | src/tee_teleport/posix_proxy/src/xtasklet/blocking_queue.c:183-206 | With -1 the wait never times out by itself, however long it polls |
| `Waiting.FirstDecides` | src/tee_teleport/posix_proxy/src/xtasklet/blocking_queue.c:183-252 | With any timeout that lasts until then, the first snapshot that is not just blocked decides: an interrupt ends the wait, room ends it with success and 2000 more spins, and a failing sleep ends it with its error once the spins are used up |
| `Executor.StepInv` | src/tee_teleport/posix_proxy/src/xtasklet/cross_tasklet.c:77-106 | Each atomic step of a worker or of the shutdown keeps the reference counts, the mutex owners, the flags and the account of all tasklet messages |
| `Executor.RunInv` | src/tee_teleport/posix_proxy/src/xtasklet/cross_tasklet.c:77-171 | That holds after every interleaving of any number of workers with arrivals and a shutdown |
| `Executor.CallKeeps` | src/tee_teleport/posix_proxy/src/xtasklet/blocking_queue.c:284-325 | Every phase of a queue call, from RefQueue to DerefQueue, keeps count and mutex exact |
| `Executor.DeqKeeps` | src/tee_teleport/posix_proxy/src/xtasklet/cross_tasklet.c:49-70 | Dequeuing keeps the invariant; without memory the message stays in the queue, and one with a wrong magic is set aside |
| `Executor.EnqKeeps` | src/tee_teleport/posix_proxy/src/xtasklet/cross_tasklet.c:95-99 | Enqueuing a result keeps the invariant; after an interrupt the result is dropped, and a result too large for the queue is refused before a reference is taken |
| `Executor.BossKeeps` | src/tee_teleport/posix_proxy/src/xtasklet/cross_tasklet.c:157-171 | Terminate, interrupt both queues, join, destroy both queues keeps the invariant |
| `Shutdown.TasksConserved` | src/tee_teleport/posix_proxy/src/xtasklet/cross_tasklet.c:77-106 | Every message taken is in a worker's hands, among the results, dropped at an interrupt, malformed, or its result was refused as too large, with exact multiplicity |
| `Shutdown.FatesExact` | src/tee_teleport/posix_proxy/src/xtasklet/cross_tasklet.c:49-106 | Which of these ends a message meets depends only on itself: results and drops have a right magic and a result that fits, malformed ones a wrong magic, refused ones a right magic and a result that does not fit |
| `Service.ArrivalsInTurn` | src/tee_teleport/posix_proxy/src/xtasklet/cross_tasklet.c:49-70 | Over any run with any number of workers, the messages taken are exactly the first ones that arrived, each once, and those still waiting are the others in order of arrival |
| `Service.ArrivalsConserved` | src/tee_teleport/posix_proxy/src/xtasklet/cross_tasklet.c:49-106 | Every arrival waits, is in hand, or has met exactly one end, with exact multiplicity |
| `Service.OneLap` | src/tee_teleport/posix_proxy/src/xtasklet/cross_tasklet.c:77-106 | An undisturbed worker serves exactly the oldest message in one lap: 14 steps with a result, 7 for a wrong magic, 8 for a result that is refused; it is back at the top of its loop and both queue objects are as before |
| `Shutdown.OneDropEach` | src/tee_teleport/posix_proxy/src/xtasklet/cross_tasklet.c:95-106 | No worker drops more than one result, only after the shutdown began, so at most one per worker in all |
| `Shutdown.QueuesSafe` | src/tee_teleport/posix_proxy/src/xtasklet/blocking_queue.c:132-161 | Each queue object is freed at most once, never while a worker may still use it; at its destruction its count is 1, and afterwards it has been freed exactly once |
| `Shutdown.SomebodyMoves` | src/tee_teleport/posix_proxy/src/xtasklet/cross_tasklet.c:157-171 | A worker that waits for a queue mutex waits for one that can move: the shutdown cannot deadlock |
| `Shutdown.ShutdownBounded` | src/tee_teleport/posix_proxy/src/xtasklet/cross_tasklet.c:157-171 | Once the flags are set, any schedule, with whatever arrivals, waiting, joining and destroying in between, has at most twelve worker steps per worker before all have left the loop |
| `Shutdown.ShutdownEnds` | src/tee_teleport/posix_proxy/src/xtasklet/thread_pool.c:17-40 | From every such state all workers do leave, so the join loop ends |
| `Destroy.JoinEnds` | src/tee_teleport/posix_proxy/src/xtasklet/thread_pool.c:17-40 | Once all workers are gone, one step for each of them and four more end the shutdown, giving up each queue once and changing nothing else |
| `Destroy.ShutdownCompletes` | src/tee_teleport/posix_proxy/src/xtasklet/cross_tasklet.c:157-171 | A shutdown that begins at any moment of any run can be brought to its end: all workers gone and each queue object freed exactly once |
| `ThreadPool.Pool.constructor` | src/tee_teleport/posix_proxy/src/xtasklet/thread_pool.c:77 | No thread is started |
| `ThreadPool.Pool.ThreadPoolInit` | src/tee_teleport/posix_proxy/src/xtasklet/thread_pool.c:67-103 | Starts threads up to the first creation that fails, then joins exactly those in order and returns that error |
| `ThreadPool.Pool.ThreadPoolFinalize` | src/tee_teleport/posix_proxy/src/xtasklet/thread_pool.c:31-36 | The loop joins exactly the threads that were started, in order |
| `ThreadPool.NobodyExits` | src/tee_teleport/posix_proxy/src/xtasklet/cross_tasklet.c:77-106 | Without a shutdown no worker ever leaves its loop |
| `ThreadPool.FailedStartEnds` | src/tee_teleport/posix_proxy/src/xtasklet/thread_pool.c:83-100 | When a thread cannot be started, the join of the others, and with it the creation, ends if and only if it was the first one |
| `Bitmaps.SetBit` | src/libteec_vendor/tee_client_api.c:65-74 | Adds exactly one bit to the set, none beyond the end or without a map |
| `Bitmaps.ClearBit` | src/libteec_vendor/tee_client_api.c:87-96 | Removes exactly one bit |
| `Bitmaps.ScanByte` | src/libteec_vendor/tee_client_api.c:127-141 | The first bit of a byte that differs from the wanted state, or 8 |
| `Bitmaps.IterateBitmap` | src/libteec_vendor/tee_client_api.c:113-147 | Returns the least eligible bit and flips only that one; returns -1 and changes nothing exactly when there is none |
| `SessionPool.StepInv` | src/libteec_vendor/tee_session_pool.c:92-343 | Each atomic step of opener and invokers keeps the invariant that ties bits, keys and both counters together |
| `SessionPool.KeyMeansFree` | src/libteec_vendor/tee_session_pool.c:201-216 | Whoever is past sem_wait finds a set bit below `opened`, so the branch that cannot get a session is unreachable, whatever the allocator left in the bitmap |
| `SessionPool.PoolSafety` | src/libteec_vendor/tee_session_pool.c:92-343 | In every interleaving and from any initial bitmap: no session has two holders, a held one is neither free nor marked dead, keys plus the threads between semaphore and lock equal opened minus inuse |
| `SessionPool.NothingLost` | src/libteec_vendor/tee_session_pool.c:92-343 | Every opened session is free, held, or marked dead |
| `SessionPool.DeadStaysDead` | src/libteec_vendor/tee_session_pool.c:332-340 | A session once marked dead is never free or held again |
| `PoolUse.OpenedExact` | src/libteec_vendor/tee_session_pool.c:92-130 | When the opener has stopped, all sessions of the pool have been opened if and only if no open failed |
| `PoolUse.StoppedStays` | src/libteec_vendor/tee_session_pool.c:101-110 | After the opener has stopped, at the end or at a failure, nothing more is opened, whatever else happens |
| `PoolUse.OpensAll` | src/libteec_vendor/tee_session_pool.c:101-117 | k successful opens give k open sessions, k keys and the bits of the first k sessions, and the opener stops exactly at the pool's size |
| `PoolUse.UseAndReturn` | src/libteec_vendor/tee_session_pool.c:195-235 | One use by itself takes a key and the least free session, and returning it leaves the whole pool as it was |
| `SessionPool.FirstIsLeast` | src/libteec_vendor/tee_client_api.c:168-175 | The bit that GetAndCleartBit takes is the least one, and -1 means the set is empty |
| `SessionPool.Sessions.constructor` | src/libteec_vendor/tee_session_pool.c:35-71 | One bitmap byte per session and no clearing: any leftover contents give a proper initial state |
| `SessionPool.Sessions.TakeSession` | src/libteec_vendor/tee_session_pool.c:204-209 | The critical section takes the least free session and counts it, or changes nothing |
| `SessionPool.Sessions.PutSession` | src/libteec_vendor/tee_session_pool.c:225-230 | The critical section frees the session and counts it back |
| `SessionPool.Sessions.AddSession` | src/libteec_vendor/tee_session_pool.c:112-115 | The opener's critical section frees the new session and counts it as opened |
| `Contexts.StepInv` | src/libteec_vendor/tee_client_api.c:177-344 | Each atomic step of initialize, get, put, finalize, close and free keeps the invariant of counts, list, lock and descriptors |
| `Contexts.RunInv` | src/libteec_vendor/tee_client_api.c:177-344 | It holds after every interleaving, with the kernel free to reuse closed descriptors |
| `Contexts.CountsStep` | src/libteec_vendor/tee_client_api.c:177-203 | ops_cnt stays (1 if listed) plus the references outside the list, and a context whose count is 0 is on its way to its one free |
| `Contexts.FreedOnce` | src/libteec_vendor/tee_client_api.c:314-327 | A context is freed at most once, and then it is off the list and no thread has anything left to do with it |
| `Contexts.NothingLeaks` | src/libteec_vendor/tee_client_api.c:803-873 | A context that is off the list and that nobody is busy with has been freed exactly once and its descriptor is closed |
| `Contexts.HeldIsUsable` | src/libteec_vendor/tee_client_api.c:297-327 | While it is listed or somebody holds a reference, a context is neither being closed nor freed and its descriptor is open |
| `Contexts.LookupExact` | src/libteec_vendor/tee_client_api.c:274-295 | A lookup by descriptor finds the one listed context with it, or there is none |
| `Contexts.FinalizeAgain` | src/libteec_vendor/tee_client_api.c:863-873 | Finalizing a handle whose descriptor is already -1 changes nothing |
| `Contexts.DescriptorsMatch` | src/libteec_vendor/tee_client_api.c:697-795 | Open descriptors and contexts not yet closed match one to one |
| `Contexts.TeecLibrary.constructor` | src/libteec_vendor/tee_client_api.c:207 | The list starts empty |
| `Contexts.TeecLibrary.FindBnContext` | src/libteec_vendor/tee_client_api.c:274-295 | The loop returns the first listed context with the descriptor, or the end of the list |
| `Contexts.TeecLibrary.GetBnContext` | src/libteec_vendor/tee_client_api.c:297-312 | Finds and references a context, exactly the find and increment steps; fails exactly when none is listed |
| `Contexts.TeecLibrary.PutBnContext` | src/libteec_vendor/tee_client_api.c:314-327 | Drops a reference; the last one closes the descriptor and frees |
| `Contexts.TeecLibrary.FindAndRemoveBnContext` | src/libteec_vendor/tee_client_api.c:329-344 | Takes the context off the list and hands over the list's reference |
| `Contexts.TeecLibrary.InitializeContext` | src/libteec_vendor/tee_client_api.c:757-795 | Success adds exactly one context at the end of the list with count 1 and its new descriptor; missing memory, a failed connect and a failed lock leave nothing behind |
| `Contexts.TeecLibrary.FinalizeContext` | src/libteec_vendor/tee_client_api.c:863-873 | Takes the context with that descriptor off the list and puts its reference, or does nothing; afterwards none with it is listed, all others are, and the handle is -1 |
| `Contexts.Initialized` | src/libteec_vendor/tee_client_api.c:757-795 | The four steps of an initialization come to one listed context that only the list refers to |
| `ContextLife.PutExact` | src/libteec_vendor/tee_client_api.c:314-327 | A put gives up one reference and nothing else; exactly the last one closes the descriptor and frees, once |
| `ContextLife.GetThenPut` | src/libteec_vendor/tee_client_api.c:297-327 | Getting a listed context and putting it again leaves everything as it was |
| `ContextLife.OpenThenFinalize` | src/libteec_vendor/tee_client_api.c:757-873 | A context opened and then finalized with nobody using it is off the list, closed and freed once; nothing else has changed |
| `SharedMemory.StepExact` | src/libteec_vendor/tee_client_api.c:1327-1336 | A step keeps set bits equal to the offsets of live mapped blocks exactly when it is not a zero-copy release while slot 0 is in use |
| `SharedMemory.RunExact` | src/libteec_vendor/tee_client_api.c:1366-1528 | Over whole runs: the slots are consistent throughout exactly when no step clears a bit that it does not own |
| `SharedMemory.NoZeroCopyRun` | src/libteec_vendor/tee_client_api.c:1366-1528 | Without zero-copy flags every run keeps the slots consistent: distinct offsets, at most 64 |
| `SharedRuns.ReleaseExact` | src/libteec_vendor/tee_client_api.c:1470-1528 | A release takes the first block with that buffer off the list, and only it, and clears its bit and no other |
| `SharedRuns.ReleaseUnknown` | src/libteec_vendor/tee_client_api.c:1521-1525 | A release of a buffer that is not on the list changes nothing |
| `SharedRuns.FullExact` | src/libteec_vendor/tee_client_api.c:1366-1390 | In a consistent state no slot is free if and only if 64 mapped blocks are live |
| `SharedRuns.RunKeeps` | src/libteec_vendor/tee_client_api.c:1366-1528 | Over runs without a foreign release, bitmap and offsets refine a plain list: the live blocks are, in order, what was allocated and not released, and a mapping fails exactly while 64 are live |
| `SharedRuns.RoomAgain` | src/libteec_vendor/tee_client_api.c:1366-1528 | A context that gives back a mapped block can map another one, however full it was |
| `SharedMemory.SharedSlotExample` | src/libteec_vendor/tee_client_api.c:1327-1336 | A run of four calls after which two live blocks share offset 0 |
| `SharedMemory.FirstFreeUnique` | src/libteec_vendor/tee_client_api.c:149-155 | The slot taken is the least free one, and none exactly when all 64 are taken |
| `SharedMemory.ContextMemory.AllocateSharedMemory` | src/libteec_vendor/tee_client_api.c:1366-1422 | Allocation does the specified step, including giving the bit back when memory fails, and succeeds exactly when a slot and memory exist |
| `SharedMemory.ContextMemory.ReleaseSharedMemory` | src/libteec_vendor/tee_client_api.c:1467-1528 | Release finds the first block with that buffer, removes it and clears its bit |
| `Packages.PutWellFormed` | src/tee_teleport/posix_proxy/src/fd_list.c:221-251 | A put keeps keys pairwise distinct and fails exactly when the key is in use |
| `Packages.DerefWellFormed` | src/tee_teleport/posix_proxy/src/fd_list.c:209-219 | Dropping a reference keeps the list sound; the last one unlinks and frees exactly that package |
| `Packages.SearchUnique` | src/tee_teleport/posix_proxy/src/fd_list.c:177-187 | A search by (fd, teeIndex) finds the package itself |
| `Packages.StepExact` | src/tee_teleport/posix_proxy/src/fd_list.c:201-315 | A step keeps every count equal to borrows plus the list's reference exactly when it does not give up a list reference that is already gone |
| `Packages.RunExact` | src/tee_teleport/posix_proxy/src/fd_list.c:201-357 | The same over whole runs from the empty list, in both directions |
| `Packages.Lifetimes` | src/tee_teleport/posix_proxy/src/fd_list.c:143-315 | In such runs a borrowed package is allocated and listed, no buffer is freed twice, every package put is either listed or freed, and keys are pairwise distinct |
| `Packages.SecondDropFreesBorrowed` | src/tee_teleport/posix_proxy/src/fd_list.c:327-357 | After a second drop of a package still held, it is freed under its last holder as soon as the others have returned it |
| `Packages.ExpiredExact` | src/tee_teleport/posix_proxy/src/fd_list.c:317-349 | A package is expired exactly when its age in microseconds exceeds ten seconds for every GiB begun, and a clock that went backwards counts as 2^64 us ahead |
| `FdList.TwoSweepsExample` | src/tee_teleport/posix_proxy/src/fd_list.c:327-357 | A run from the empty list: put, get and two sweeps 10 seconds apart leave the borrower with freed memory |
| `FdList.SweepInSendExample` | src/tee_teleport/posix_proxy/src/posix_network.c:240-246 | A run from the empty list: one sweep during a send makes its first release free the package and its second one touch freed memory |
| `FdList.DropListEffect` | src/tee_teleport/posix_proxy/src/fd_list.c:209-219 | A batch of drops takes one reference from each package hit and touches nothing else |
| `FdList.BatchIsDrops` | src/tee_teleport/posix_proxy/src/fd_list.c:327-382 | A sweep or teardown is a run of single drops |
| `FdList.SweepExact` | src/tee_teleport/posix_proxy/src/fd_list.c:327-357 | A whole sweep keeps every count right exactly when none of the packages it hits had lost its list reference before |
| `FdList.SweepHits` | src/tee_teleport/posix_proxy/src/fd_list.c:327-362 | A sweep hits exactly the packages that are expired at the reading of the clock made for them, as far as the clock could be read |
| `FdList.TeardownExact` | src/tee_teleport/posix_proxy/src/fd_list.c:359-382 | A teardown leaves exactly the packages with another reference than the one it drops; it frees none under a holder if and only if every package that a sweep has hit before has two of them, and keeps the counts right if and only if there is no such package |
| `FdList.FdList.SearchPkg` | src/tee_teleport/posix_proxy/src/fd_list.c:177-187 | The loop finds the first package with the key, or none |
| `FdList.FdList.DerefPkg` | src/tee_teleport/posix_proxy/src/fd_list.c:209-219 | Does the specified drop of a reference |
| `FdList.FdList.PutPkg` | src/tee_teleport/posix_proxy/src/fd_list.c:221-251 | Does the specified put and reports whether the key was free |
| `FdList.FdList.GetPkg` | src/tee_teleport/posix_proxy/src/fd_list.c:253-277 | Finds and references, or changes nothing |
| `FdList.FdList.ReleasePkgByIndex` | src/tee_teleport/posix_proxy/src/fd_list.c:279-299 | Drops one reference of the package found, or changes nothing |
| `FdList.FdList.DelTimeoutPkg` | src/tee_teleport/posix_proxy/src/fd_list.c:327-357 | The sweep over a list that shrinks under it visits every original entry once and drops exactly the expired ones; it ends early exactly when the clock fails |
| `FdList.FdList.FreePkgList` | src/tee_teleport/posix_proxy/src/fd_list.c:359-382 | The teardown loop visits every original entry once and drops one reference of each |
| `Chunks.SendEffect` | src/tee_teleport/posix_proxy/src/posix_other.c:184-239 | A chunk for an existing package writes its own range and nothing else; every rejected chunk changes nothing; one that is copied although its size exceeds the argument buffer is told apart |
| `Chunks.AsIntExact` | src/tee_teleport/posix_proxy/src/posix_other.c:234 | The 64-bit block size that is returned through an int keeps its low 32 bits |
| `Chunks.OutOfReachExact` | src/tee_teleport/posix_proxy/src/posix_other.c:151-239 | A send reads beyond its argument buffer if and only if a size below 2^31 exceeds what the argument has and it is a first chunk within its own total or one that a listed package accepts |
| `Chunks.NullChunkClears` | src/tee_teleport/posix_proxy/src/posix_other.c:231-234 | A later chunk without data but with a size is accepted like any other: it clears its range and is reported as sent |
| `Chunks.Reassembly` | src/tee_teleport/posix_proxy/src/posix_other.c:184-239 | In any order, with repetitions, overlaps and rejected chunks: positions covered by chunks that deliver their range of the source hold its bytes, all others are unchanged |
| `Chunks.Transfer` | src/tee_teleport/posix_proxy/src/posix_network.c:203-247 | A first chunk and further ones give a package from which a send of that length sends the source where covered and zeros elsewhere; afterwards the package is freed |
| `Chunks.SendtoExact` | src/tee_teleport/posix_proxy/src/posix_network.c:203-247 | A send from a package takes the list's reference whether the length is right or not, and hands the bytes over only if it is |
| `Chunks.SendtoNothing` | src/tee_teleport/posix_proxy/src/posix_network.c:215-225 | Without the package a send hands nothing over and changes nothing |
| `Chunks.ReadBack` | src/tee_teleport/posix_proxy/src/posix_other.c:241-283 | Reading a stored package over any partition and concatenating gives back the stored bytes, and reading changes nothing |
| `Chunks.ReadOne` | src/tee_teleport/posix_proxy/src/posix_other.c:241-283 | A read of a listed package hands out exactly its bytes if the total, the range and the reply size allow it, nothing in every other case, and never changes anything |
| `Chunks.ReadNothing` | src/tee_teleport/posix_proxy/src/posix_other.c:241-262 | A read of a package that is not listed hands out nothing |
| `Chunks.ReceiveAndRead` | src/tee_teleport/posix_proxy/src/posix_network.c:249-294 | What a receive got can be read back over any partition, and terminating then leaves the list as before |
| `Chunks.ReceiveNothing` | src/tee_teleport/posix_proxy/src/posix_network.c:276-291 | A receive without data, or on a key in use, leaves the list as it was |
| `Chunks.PutThenRelease` | src/tee_teleport/posix_proxy/src/posix_other.c:285-306 | Putting a package and releasing it by its index leaves only the freed buffer behind |
| `Chunks.ReleaseExact` | src/tee_teleport/posix_proxy/src/posix_other.c:285-306 | A release by index gives up one reference of the package with that key, or does nothing if there is none |
| `Chunks.NewPackage` | src/tee_teleport/posix_proxy/src/fd_list.c:221-253 | A put under a free key adds one package at the end of the list, with its bytes, one reference and the time of the put |
| `PackageCalls.PkgSendWork` | src/tee_teleport/posix_proxy/src/posix_other.c:184-239 | The call on the shared list does the specified send, borrowing and returning on every path |
| `PackageCalls.PkgRecvWork` | src/tee_teleport/posix_proxy/src/posix_other.c:241-283 | Likewise for a read |
| `PackageCalls.NetSendtoWork` | src/tee_teleport/posix_proxy/src/posix_network.c:203-247 | Likewise for a send to the network, with both releases |
| `PackageCalls.NetRecvfromWork` | src/tee_teleport/posix_proxy/src/posix_network.c:249-294 | Likewise for a receive |
| `PackageCalls.PkgTerminateWork` | src/tee_teleport/posix_proxy/src/posix_other.c:285-306 | Drops one reference of the package found |
| `Marshalling.FitsExactly` | src/tee_teleport/posix_proxy/src/serialize.c:134-186 | Encoding succeeds if and only if every argument can be encoded, the buffer is at least as long as the encoding, and behind each argument with bytes the room is below the 2^31 that memcpy_s takes |
| `Marshalling.FirstFailure` | src/tee_teleport/posix_proxy/src/serialize.c:95-186 | When encoding fails, the first argument that does not pass decides: -EINVAL for an unknown type or a null pointer with a size, -ENOMEM when there is no room |
| `Marshalling.SizeExact` | src/tee_teleport/posix_proxy/src/serialize.c:27-76 | CalculateBuffSize reports the encoded size exactly when no buffer argument reaches 2^32 bytes, and too little otherwise |
| `Marshalling.DecodeInside` | src/tee_teleport/posix_proxy/src/serialize.c:255-309 | Decoding the encoding of a list inside a larger buffer works with its own list of types and with no other |
| `Marshalling.RoundTrip` | src/tee_teleport/posix_proxy/src/serialize.c:134-309 | From a buffer that holds an encoding DeSerialize succeeds with the encoded list of types and with no other list or count, and returns the integers and places in order |
| `Marshalling.PlacesHold` | src/tee_teleport/posix_proxy/src/serialize.c:232-253 | Every returned place lies in the buffer and holds exactly the argument's bytes; an empty argument comes back as NULL |
| `Marshalling.PlacesOrdered` | src/tee_teleport/posix_proxy/src/serialize.c:232-253 | The places are disjoint and in argument order |
| `Marshalling.PlacesInsideExact` | src/tee_teleport/posix_proxy/src/serialize.c:242-251 | For any buffer below 2^32 bytes and any wanted types: all places handed out lie inside the buffer if and only if the count is wrong or no size met on the way through the fields wraps around 64 bits |
| `Marshalling.DecodeErrors` | src/tee_teleport/posix_proxy/src/serialize.c:188-309 | A field that does not pass ends decoding with nothing more handed out: -ENOMEM when bytes are missing, -EINVAL when the type differs or an unknown one is wanted; any other field hands out something |
| `Marshalling.TypeIsExact` | src/tee_teleport/posix_proxy/src/serialize.c:188-206 | A stored type word counts by its low 32 bits only |
| `Marshalling.WrappingPlaceExample` | src/tee_teleport/posix_proxy/src/serialize.c:242-244 | A buffer of 20 bytes that decodes with success and hands out a place that ends outside it |
| `Marshalling.EndToEnd` | src/tee_teleport/posix_proxy/src/serialize.c:134-309 | Serialize, then DeSerialize with the same types: every argument comes back |
| `Serializer.CalculateBuffSize` | src/tee_teleport/posix_proxy/src/serialize.c:27-76 | Fails exactly on an unknown type or a sum of 2^32 or more, otherwise returns the sum of the 32-bit sizes |
| `Serializer.InterTypeSerialize` | src/tee_teleport/posix_proxy/src/serialize.c:105-114 | Writes 16 bytes when they fit, otherwise nothing |
| `Serializer.PointTypeSerialize` | src/tee_teleport/posix_proxy/src/serialize.c:116-132 | Writes type, size and bytes exactly when they fit |
| `Serializer.Serialize` | src/tee_teleport/posix_proxy/src/serialize.c:134-186 | Returns the specified code; on success the buffer starts with the encoding and the rest is untouched |
| `Serializer.DeSerialize` | src/tee_teleport/posix_proxy/src/serialize.c:188-309 | The loop returns exactly the specified reply for any buffer and any wanted types |
| `Rings.RingUnique` | include/tee_client_list.h:16-19 | The sequence a ring stands for is determined by the heap and its first node |
| `Rings.Neighbours` | include/tee_client_list.h:16-19 | next and prev of every node are its neighbours in the sequence, so they are mutually inverse |
| `Rings.ListInit` | include/tee_client_list.h:30-34 | The empty list is the ring of the sentinel alone |
| `Rings.ListInsertHead` | include/tee_client_list.h:40-46 | Prepends to the sequence, touching three nodes |
| `Rings.ListInsertTail` | include/tee_client_list.h:48-54 | Appends to the sequence, touching three nodes |
| `Rings.ListRemoveEntry` | include/tee_client_list.h:56-60 | Removes one element from the sequence; the entry keeps its own pointers |
| `Rings.ListRemoveHead` | include/tee_client_list.h:62-70 | Removes and returns the first entry, or NULL exactly on the empty list |
| `Rings.ListRemoveTail` | include/tee_client_list.h:72-80 | Removes and returns the last entry, or NULL exactly on the empty list |
| `Rings.ForEachSafe` | include/tee_client_list.h:88-89 | Visits every original entry once and in order while current entries are removed and given up, and leaves exactly the others |
| `OpenFiles.OpenFileList.AddOpenFile` | src/teecd/fs_work_agent.c:136-161 | Appends a file to the ring without sentinel, or changes nothing without memory |
| `OpenFiles.OpenFileList.DelOpenFile` | src/teecd/fs_work_agent.c:163-185 | Removes a file; when it was the first, the next one becomes first; the last one leaves the ring empty |
| `OpenFiles.OpenFileList.FindOpenFile` | src/teecd/fs_work_agent.c:187-213 | Ends within one lap with the first file of that descriptor, or reports none; on an empty ring the caller's variable is left alone |
| `LogDirs.IndexMeans` | src/tlogcat/tlogcat.c:741-763 | GetFileIndex returns the k for which files 1 to k exist, and k + 1 is free |
| `LogDirs.FullKeeps` | src/tlogcat/tlogcat.c:625-668 | Renaming a full file meets no existing name and keeps the order of the contents |
| `LogDirs.Shifted` | src/tlogcat/tlogcat.c:438-480 | The shift-down loop drops the oldest archive, moves the others by one, and no rename meets an existing name |
| `LogDirs.CompressArchives` | src/tlogcat/tlogcat.c:407-480 | A compression keeps the window of archives, whether its name came from the first-free search or from the shift |
| `LogDirs.CompressKeeps` | src/tlogcat/tlogcat.c:586-623 | A compression moves all numbered files into one archive and loses nothing of the history; when file 3 and file 0 exist the archive holds all four |
| `LogStore.StepInv` | src/tlogcat/tlogcat.c:709-851 | Each write, close and restart keeps the invariant of slots and directories |
| `LogStore.RunInv` | src/tlogcat/tlogcat.c:709-851 | It holds after every run from the empty directory |
| `LogStore.UsableKeeps` | src/tlogcat/tlogcat.c:709-739 | GetUsableFile rolls full files on its way and, if it finds none, leaves no slot of that source |
| `LogStore.CloseKeeps` | src/tlogcat/tlogcat.c:816-852 | A close keeps the invariant |
| `LogStore.CloseEmpties` | src/tlogcat/tlogcat.c:849 | A close frees every place of the table |
| `LogStore.CloseRolls` | src/tlogcat/tlogcat.c:832-841 | A close rolls exactly the sources whose file is at the limit, which leaves them without file 0, and leaves the files of every other source alone |
| `LogHistory.RenamesAreSafe` | src/tlogcat/tlogcat.c:184-219 | In every run a source has at most one valid slot; its index is the last file number, its rename target is free, and at index 3 all four files exist |
| `LogHistory.FilesContiguous` | src/tlogcat/tlogcat.c:625-763 | In every run the files of a source are numbers 1 to k below 4 and possibly 0 |
| `LogHistory.ArchiveWindow` | src/tlogcat/tlogcat.c:407-480 | After n compressions the archives are exactly 0 to min(n,4)-1 and hold the last min(n,4) of them, oldest first |
| `LogHistory.WriteWrites` | src/tlogcat/tlogcat.c:935-954 | A write adds the record to its own source only, and nothing exactly when the table has no place for it |
| `LogHistory.RecordsConserved` | src/tlogcat/tlogcat.c:586-954 | All archives ever made in order, then files 1 to k, then file 0, hold exactly the records that found a place, in the order they came |
| `LogHistory.DiskConserved` | src/tlogcat/tlogcat.c:438-480 | What the shift has deleted, followed by what archives 0 to 3 and the log files still hold, is every record that found a place, in order |
| `LogHistory.RunRich` | src/tlogcat/tlogcat.c:670-694 | Every archive ever made holds at least one record, because only a file that reached the limit is rolled |
| `LogHistory.NothingLost` | src/tlogcat/tlogcat.c:184-219 | The disk still holds every record handed in for a source, in order, if and only if each of its writes found a place in the table and there were at most four compressions, the fifth of which deletes the oldest archive |
| `LogSizes.FileSizes` | src/tlogcat/tlogcat.c:670-694 | A finished file, also inside archives, has at least 500 KiB, and no file exceeds that by more than the banner and one record for the run and one more per restart |
| `LogSizes.BoundReached` | src/tlogcat/tlogcat.c:231-290 | For every banner length and every number of restarts there is a run after which file 0 has one byte less than that bound, so neither the banner nor the record per restart can be left out |
| `LogCollector.Collector.constructor` | src/tlogcat/tlogcat.c:75 | The table starts empty |
| `LogCollector.Collector.GetFileIndex` | src/tlogcat/tlogcat.c:741-763 | The loop returns the largest number in use, or 0 |
| `LogCollector.Collector.LogFileFull` | src/tlogcat/tlogcat.c:625-668 | Renames file 0 to the next number |
| `LogCollector.Collector.GetCompressFile` | src/tlogcat/tlogcat.c:407-436 | The loop returns the first free archive number, or 4 |
| `LogCollector.Collector.ArrangeCompressFile` | src/tlogcat/tlogcat.c:438-480 | The loop shifts the archives down by one |
| `LogCollector.Collector.MoveFilesToTmpPath` | src/tlogcat/tlogcat.c:556-601 | The loop moves exactly the files 0 to 3 |
| `LogCollector.Collector.LogFilesCompress` | src/tlogcat/tlogcat.c:586-623 | Does the specified compression |
| `LogCollector.Collector.LogFilesChecklimit` | src/tlogcat/tlogcat.c:670-694 | Rolls the file and frees its slot exactly when the limit is reached |
| `LogCollector.Collector.GetUsableFile` | src/tlogcat/tlogcat.c:709-739 | The loop does the specified search with its rolls on the way |
| `LogCollector.Collector.LogFilesAdd` | src/tlogcat/tlogcat.c:184-219 | Fills the first free slot, or none |
| `LogCollector.Collector.LogFilesGet` | src/tlogcat/tlogcat.c:765-808 | Finds a usable file or opens file 0 with the right index and length |
| `LogCollector.Collector.WritePrivateLogFile` | src/tlogcat/tlogcat.c:935-954 | Does the specified write |
| `LogCollector.Collector.LogFilesClose` | src/tlogcat/tlogcat.c:810-851 | Does the specified close of the whole table |
| `LogParser.ParseSound` | src/tlogcat/tlogcat.c:982-1005 | The records taken are well formed, lie end to end from the start of the buffer, and what follows starts with no record: the longest prefix |
| `LogParser.ParseComplete` | src/tlogcat/tlogcat.c:982-1005 | Any concatenation of well-formed records, followed by something that starts with none, is recovered in full |
| `LogParser.NextIsWellFormed` | src/tlogcat/tlogcat.c:860-883 | The test on the header accepts exactly when a prefix of the remaining buffer is a well-formed record, of that length |
| `LogParser.RecordExact` | src/tlogcat/tlogcat.c:860-885 | Built from its parts, a record is well formed exactly with the magic, a text length from 1 to the buffer length, a buffer length that is a multiple of 64 up to 960 and less than 64 above the text length, and as many bytes behind the header; its text is then the start of those |
| `LogParser.PrintedIsText` | src/tlogcat/tlogcat.c:973-979 | Printing shows the text up to its first zero byte, without its last byte when the text fills the padded buffer |
| `LogParser.PrintKeepsFrames` | src/tlogcat/tlogcat.c:973-1004 | The terminators of print mode change no frame: the buffer afterwards parses into the same records |
| `LogParser.AfterIs` | src/tlogcat/tlogcat.c:982-1005 | The buffer afterwards is the records, with their terminators in print mode, followed by the unchanged rest |
| `LogParser.LogItemGetNext` | src/tlogcat/tlogcat.c:860-883 | Tells whether a record starts here and fits the rest of the buffer |
| `LogParser.OutputLog` | src/tlogcat/tlogcat.c:965-980 | Hands on the text of one record and writes at most its terminator |
| `LogParser.ReadLogBuffer` | src/tlogcat/tlogcat.c:982-1005 | Terminates and hands on exactly the parsed records in order, in both modes, writing nothing outside them |
| `Tar.OctalReadsBack` | src/tlogcat/tarzip.c:102-112 | An octal field reads back as the number printed |
| `Tar.CutField` | src/tlogcat/tarzip.c:112-119 | A sum of eleven digits loses its last three in the field |
| `Tar.FieldReadsBack` | src/tlogcat/tarzip.c:111-119 | A number printed over leftover digits of another still reads back |
| `Tar.SumIs` | src/tlogcat/tarzip.c:62-111 | The running sum is the true one, minus 256 for every name byte of 128 or more where char is signed |
| `Tar.ChecksumExact` | src/tlogcat/tarzip.c:76-120 | The checksum field equals the sum of all header bytes with the field itself taken as eight spaces (POSIX.1-2017, pax, section "ustar Interchange Format") if and only if char is unsigned or the written name has no byte of 128 or more |
| `Tar.HeaderReadsBack` | src/tlogcat/tarzip.c:76-120 | A reader finds the name, cut to 99 characters, and the size modulo 2^32 |
| `Tar.FieldsReadBack` | src/tlogcat/tarzip.c:52-120 | A reader finds a regular file of mode 0666, user and group 0 and time 0 |
| `Tar.MemberReadsFirst` | src/tlogcat/tarzip.c:217-243 | The first entry a reader finds has the name and as many bytes as the size modulo 2^32 |
| `Tar.MemberReadsBack` | src/tlogcat/tarzip.c:217-243 | A reader recovers one non-empty file and goes on right behind its padding |
| `Tar.ReadsBack` | src/tlogcat/tarzip.c:246-287 | A reader recovers, in order and with names cut to 99 characters, the files up to the first empty one or the first with an unusable path, missing ones skipped, when they are below 2^32 bytes |
| `Tar.RoundTripExact` | src/tlogcat/tarzip.c:246-287 | For any files: the archive gives back exactly all that are there if and only if each has 7 to 99 characters behind the last slash of its path, is not empty and has less than 2^32 bytes |
| `Tar.ShortPathExample` | src/tlogcat/tarzip.c:229-232 | A file /a ends the archive before it has begun, and every file behind it is lost with it |
| `Tar.EmptyMember` | src/tlogcat/tarzip.c:86-88 | An empty file is written as a block of zeros, where readers stop |
| `Tar.PathExact` | src/tlogcat/tarzip.c:229-232 | The name in the archive is what follows the last slash of the path; a path is usable if and only if it has a slash and at least seven characters behind the last one |
| `TarWriter.WriteOneUint` | src/tlogcat/tarzip.c:62-73 | Copies a field in place and returns the sum of its chars, signed or unsigned |
| `TarWriter.WriteHeader` | src/tlogcat/tarzip.c:76-120 | Fills the header array with exactly the specified bytes |
| `TarWriter.WriteZipContent` | src/tlogcat/tarzip.c:125-164 | Writes the contents in 512-byte blocks, the last one padded with zeros |
| `TarWriter.WriteSingleFile` | src/tlogcat/tarzip.c:217-243 | Writes one member, skips a missing file, and fails exactly on an unusable path |
| `TarWriter.TarZipFiles` | src/tlogcat/tarzip.c:246-287 | Writes exactly the specified archive for four names, and nothing for any other count |
| `Arguments.SplitExact` | src/tee_teleport/tee_teleport.c:481-520 | Splitting finds exactly the words, however they are separated |
| `Arguments.SplitSound` | src/tee_teleport/tee_teleport.c:481-520 | Every string is such a separation of its words |
| `ArgumentCalls.SplitAt` | src/tee_teleport/tee_teleport.c:482-519 | One round of the tokenizer finds the next word and leaves the rest |
| `Arguments.PlainParse` | src/tee_teleport/tee_teleport.c:489-494 | Without -cp and -classpath the parameters are the words, and more than maxNum of them are an error |
| `Arguments.OneOption` | src/tee_teleport/tee_teleport.c:501-517 | One -cp or -classpath takes the word after it for the class path only when it comes first; otherwise it takes the word before it |
| `Arguments.LongPathFails` | src/tee_teleport/tee_teleport.c:469-522 | A class path of 4096 bytes or more is an error on either side of the option |
| `Arguments.SettledStays` | src/tee_teleport/tee_teleport.c:501-517 | Between two words the options have been dealt with: none is kept, and one is awaited only while no word is kept |
| `ArgumentCalls.FoundWord` | src/tee_teleport/tee_teleport.c:482-499 | A round that finds a word stores it in place and leaves the rest of the string as it was, or shows that there are too many |
| `ArgumentCalls.TakeOptions` | src/tee_teleport/tee_teleport.c:501-517 | The two option steps on the stored words do what the specification says, or fail on a class path that is too long |
| `ArgumentCalls.ParseParam` | src/tee_teleport/tee_teleport.c:469-522 | In place, for any string: every result is where one kept word now stands as a C string of its own, in order, and the class path is the specified one; fails exactly when the specification does |
| `ArgumentCalls.JoinSplits` | src/tee_teleport/run.c:59-72 | Words joined by single spaces split into the same words |
| `ArgumentCalls.JoinExact` | src/tee_teleport/run.c:59-72 | One space stands between any two words and nothing else |
| `ArgumentCalls.GivenExact` | src/tee_teleport/run.c:58-60 | The words joined are the arguments that are there, each once and in order |
| `ArgumentCalls.JoinedReadsBack` | src/tee_teleport/run.c:58-72 | What is read from the cleared buffer splits into the same words |
| `ArgumentCalls.TotalSize` | src/tee_teleport/run.c:42-51 | The sizing loop fails exactly on an empty or over-long argument, otherwise counts every byte and separator |
| `ArgumentCalls.MakeArgs` | src/tee_teleport/run.c:36-74 | Succeeds exactly when there is an argument, all have 1 to 4095 bytes, and the joined string with its final zero is shorter than the buffer; then writes it with size = length + 1 and zeros behind |

## Left out

- Hardware memory ordering: a snapshot of the 64-bit position word and a 32-bit publish are single atomic steps, as the barriers intend.
- TaskQueueProofs.RunInv: rings have less than 2^31 entries, as many as a position word can index, and what a sender does after its signed counts have overflowed is not modelled: it stays where it is; the same holds for Fifo, NoSlotShared and WaitsAreExact.
- BlockingQueue.BlockingQueue.constructor: the check of the memory size and the failures of creation; both sides' initialisation is one step.
- BlockingQueue.BlockingQueue.WaitFull: the environment is a finite list of snapshots; the source has no such list, and a wait that outlives it is reported as still waiting.
- BlockingQueue.BlockingQueue.DequeueBlocks: see EnqueueBlocks.
- BlockingQueue.BlockingQueue.EnqueueBlocks: the class is proved for a side that nobody interrupts inside the loop; the interleavings are those of the state machine.
- Waiting.BoundedWait: a negative timeout other than -1 times out at the first wait, which follows from the definition and is not stated.
- Executor.RunInv: a start that fails is treated apart, in ThreadPool; locks and sleeps succeed, fn returns, and what is read for a result that states more bytes than its message has is not modelled.
- Shutdown.TasksConserved: the buffer of a message with a wrong magic is never freed by the code; the model counts such messages as malformed.
- SessionPool.PoolSafety: TEEC_SessionPoolDestroy and the query call are not steps of the machine; sem_wait restarts and locks succeed.
- Contexts.RunInv: sessions and shared memory of a context, whose counts follow the same scheme, are not part of its state; failing locks outside the initialization and the branches of a failing memset_s are not modelled; descriptors opened by others are simply never returned by the kernel for a context while open.
- SharedMemory.RunExact: registering memory, and the reference counts by which a running command delays the clearing of a bit.
- SharedMemory.ContextMemory.AllocateSharedMemory: parameter checks and failing locks.
- SharedMemory.ContextMemory.ReleaseSharedMemory: contexts made through the HIDL side look for an allocated block by its offset instead of its buffer (tee_client_api.c:1483), where a zero-copy block and the block in slot 0 have the same offset; reference counts as above.
- Packages.RunExact: addresses are handles that are never reused, so reuse of a freed address is not modelled.
- FdList.FdList.PutPkg: failures of malloc and of the clock, which leave the list as it was.
- Chunks.SendEffect: what a copy from beyond the argument buffer stores is not stated. memcpy_s follows ISO/IEC 9899:2011, section K.3.7.1.1, with a limit of 2^31 - 1 bytes. The same holds for PkgSendWork.
- PackageCalls.NetSendtoWork: calls without a package, which touch no list, and the result of sendto. The same holds for NetRecvfromWork.
- Chunks.ReceiveAndRead: NetRecvfromWork fills a buffer that is already listed and holds no borrow while it does; reads and releases by other threads during recvfrom are not modelled.
- Chunks.ReadBack: buffers have less than 2^64 bytes, and block sizes fit the reply buffer.
- Serializer.Serialize: what a failed call has already written is not stated.
- Rings.ListInsertHead: inserting an entry that is already on a list is a caller's error; CONTAINER_OF is the `value` of a node.
- Rings.ForEachSafe: the body removes and gives up the current entry or does nothing; removing another one is a caller's error.
- LogStore.RunInv: file operations succeed, buffered data reaches the disk before a restart, and the build is the one with numbered files.
- LogCollector.Collector.MoveFilesToTmpPath: the temporary directory is empty between compressions, so it is the local result.
- LogParser.LogItemGetNext: a rest shorter than a header is refused before it is read; the code reads the header first and refuses for the same reason.
- Tar.ReadsBack: compression itself, and files that change while they are read; for files of 2^32 bytes and more see RoundTripExact.
- ArgumentCalls.ParseParam: maxNum is not negative, as in all its calls.
- ArgumentCalls.MakeArgs: the 32-bit sum of sizes, which argument vectors of at most 64 entries cannot overflow; the contents of the buffer after a failure.
- FD bitmaps of the list, version checks, the daemon socket and login, agents, scp, portals, file and network wrappers that only decode and call libc: single branches around system calls.
- System log output, tag files and the variants without numbered files of the collector.

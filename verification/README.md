# Verification model of the Sylar server framework

This project models six components of the framework that keep state in place, and proves that each
agrees with a simple specification. `dafny verify dfyconfig.toml` checks everything.

Each component has a specification over values (datatypes, functions, lemmas over whole runs) and
classes whose fields and loops are those of the source. A class keeps the value it represents in a ghost
field `view`; its methods say that `view` is what the specification's function makes of the old one.

- **Coroutine scheduler** (`ScheduleSpec.dfy`, `LifecycleSpec.dfy`, `Coroutine.dfy`): `Resume`, `Yield`, the end of
  `CoMainFunc` and `SwapContext`, with stacks in shared buffers. Labels of the machine are the scheduler's calls and what a
  running coroutine does to its own stack: it may push, pop and overwrite bytes of its frame. The live frame
  is `[dummy_, end of the buffer)`, and a switch is one step. Shared stacks are shown to refine private ones.
- **Time wheel** (`TimeWheelSpec.dfy`, `TimeWheel.dfy`): the ring of slot lists with round
  counters against a plain list of tick deadlines; when repeating timers fire (`RearmSpec.dfy`), what they do to others
  (`MoverSpec.dfy`), and the next timeout (`NextTimeoutSpec.dfy`). Callbacks append to a trace.
- **ByteArray** (`ByteArraySpec.dfy`, `RecordSpec.dfy`, `WireSpec.dfy`, `ByteArray.dfy`): a chain of fixed-size nodes with a
  write and a read cursor against an append-only byte sequence, and typed records on top. This is the build in
  which `SwapToLittle` is the identity (src/include/endian.hh:29-33).
- **HTTP server without coroutines** (`HttpServerSpec.dfy`, `HttpServer.dfy`): the listener and five workers as
  a state machine over accept, register, `epoll_wait` and one event at a time, interleaved in any way. Answers of
  the kernel and of the handlers are parameters of the steps. What is assumed of them is `Possible`: a socket
  number in use is not handed out again, `epoll_wait` reports a socket at most once and only what it is registered
  for, `recv` and `send` stay within their buffers, `send` returns 0 only for nothing to send, and responses fit
  into the 4096 bytes of `buf_`.
- **HTTP messages** (`HttpMessageSpec.dfy`, `HttpMessage.dfy`): `FromString` against the grammar that the printers
  emit (sections 2.1, 3 and 5 of RFC 9112), and what the server makes of any text (`HttpAnswerSpec.dfy`).
- **Log patterns** (`LogPatternSpec.dfy`, `LogPattern.dfy`): the scanner of `LogFormatter::Init` against a printer
  that it is inverse to.

`Arithmetic.dfy` and `Common.dfy` hold small shared facts and types.

Some promises do not hold of the code. Each is stated with the exact condition under which the code
keeps it, or for all inputs where it never does:

- `CoMainFunc` leaves a nested parent READY, so that its next `Resume` aborts (`SecondNestedChildAborts`; exactly when:
  `ResumeAbortsExactly`).
- Resuming a coroutine on the stack can revive a finished one (`ReentryRevivesTerminal`; exactly when:
  `LeavesTerminalExactly` for a step, `TerminalStaysExactly` for a run).
- A repeating timer does not repeat after its timeout, as a timeout of less than one turn repeats once a turn
  (`ShortTimeoutsRepeatEveryTurn`; exactly when it does: `PeriodIsTimeoutExactly`).
- A repeating timer that changes its slot makes others fire early (`MoverFiresOthersEarly`; exactly when:
  `LosesOneRoundExactly` for a scan, `OneShotAmongMovers` for a run).
- The header of `GetNextTimeout` says that 0 means an empty wheel (src/include/timewheel.hh:69-71); the code also
  returns 0 when a front is due now and when all fronts are overdue (`ZeroForNonEmptyWheels`; exactly when:
  `NextTimeoutZeroExactly`), and a repeating timer counts only until its first timeout is over (`NextTimeoutOfRuns`).
- A reader that drains an exactly full node is lost (`LostReader`; exactly when: `ReadsDefinedExactly`).
- Varints of more than one group do not come back (exactly when: `RecordRoundTrip`).
- The record of each answered request is never freed (`OneRecordLeaksPerRequest`).
- A body without header lines is not found (exactly when: `BodyExactly`).
- The request printer leaves out the colon, and what it prints comes back only without headers and body
  (`RequestPrinterMergesHeaders`; exactly when: `OwnPrintExactly`).
- Responses are two bytes longer than their Content-Length says (`ResponseOverrunsContentLength`), or have none
  (`BareResponse`); the phrase of 505 is empty (`ReasonPhrase`).
- Literal text at the end of a pattern is dropped (exactly when: `ScanPrintedExactly`).

## Model

| member | source | states |
|---|---|---|
| ScheduleSpec.SharedRefinesPrivate | src/coroutine.cc:46-71 | After any run of create, resume, yield, finish, push, pop and write steps from the initial state, with any number of coroutines on any number of buffers, the control stack is that of a machine with one private stack per coroutine, and the bytes from the stack pointer to the end of the running coroutine's buffer are its private frame |
| ScheduleSpec.ControlComesBackIntact | src/coroutine.cc:46-71 | When a coroutine gets control back, its stack pointer and all bytes from there to the end of its buffer are what they were when it gave control up, whatever ran in between |
| ScheduleSpec.SwapKeepsFrames | src/coroutine.cc:46-71 | A switch (eviction of the occupant, restoration of the next) changes the live frame of no coroutine, and re-establishes the invariant |
| ScheduleSpec.RunAgrees | src/coroutine.cc:29-71 | From any state that agrees with a private-stack machine, the two still agree after the same run |
| ScheduleSpec.ResumeReturnBracket | src/coroutine.cc:209-243 | From any point, while the stack stays deeper than n its first n entries stay; when the depth is n again the running coroutine is the last of them |
| ScheduleSpec.ReachableControl | src/coroutine.cc:9-44 | In every reachable state the stack counter is the depth, main is at the bottom and nowhere else and RUNNING, and the running coroutine is the top |
| ScheduleSpec.EvictionWellDefined | src/coroutine.cc:114-162 | In every reachable state a running shared-stack coroutine occupies its buffer, an evicted one has saved exactly the bytes from its dummy to the end, and whoever SaveStack runs on in a switch has a dummy in the buffer at stake, so the branch for a null dummy is never taken |
| ScheduleSpec.StepKeepsLifecycle | src/coroutine.cc:29-44 | If nobody resumes a coroutine on the stack, a step keeps the stack free of duplicates and of TERMINAL coroutines, coroutines off the stack are not RUNNING, and TERMINAL coroutines stay so |
| ScheduleSpec.RunKeepsLifecycle | src/coroutine.cc:209-243 | The same over whole runs |
| ScheduleSpec.StartLifecycle | src/coroutine.cc:9-18 | The initial state satisfies both invariants |
| ScheduleSpec.RunningIsReadyExactly | src/coroutine.cc:230-243 | For a scheduler that keeps the lifecycle and a step without re-entry: the running coroutine is READY after it exactly if it got control back from a coroutine that finished and is not main, or was READY and kept control |
| ScheduleSpec.MainResumesSafely | src/coroutine.cc:209-228 | Both assertions of Resume hold when main resumes another coroutine |
| ScheduleSpec.OnlyMainNeverAborts | src/coroutine.cc:209-228 | Both assertions of Resume hold in every step of every run in which only main resumes coroutines |
| ScheduleSpec.ReentryRevivesTerminal | src/coroutine.cc:29-44 | A run with re-entry after which a Yield makes a TERMINAL coroutine RUNNING |
| LifecycleSpec.LeavesTerminalExactly | src/coroutine.cc:29-44 | For every step of any scheduler state in the invariant, re-entrant or not: a TERMINAL coroutine leaves that state exactly if the step is a Yield and the coroutine is on top of the stack or just below |
| LifecycleSpec.TerminalStaysExactly | src/coroutine.cc:29-44 | Over any run, all coroutines that are TERMINAL at some point stay so to the end, if and only if no Yield of the run meets a TERMINAL coroutine on top of the stack or just below |
| LifecycleSpec.RunningIsReadyAfter | src/coroutine.cc:230-243 | After every run without re-entry the running coroutine is READY if and only if the last switch was the end of a coroutine whose parent is not main |
| LifecycleSpec.ResumeAbortsExactly | src/coroutine.cc:209-228 | After every run without re-entry, Resume of any coroutine changes nothing if it is finished; for all others an assertion fails if and only if it is main, or the running coroutine itself, or the last switch was the end of a coroutine whose parent is not main |
| LifecycleSpec.YieldThrowsExactly | src/coroutine.cc:29-44 | After every run, Yield throws if and only if every resumed coroutine has given control back, so that main runs |
| ScheduleSpec.SecondNestedChildAborts | src/coroutine.cc:230-243 | A run after which a parent whose nested child has finished cannot resume a second READY child, since CoMainFunc does not mark the parent RUNNING |
| Coroutines.Schedule.InitThreadSchedule | src/coroutine.cc:9-18 | The new scheduler has main alone on the stack, running |
| Coroutines.Schedule.SwapContext | src/coroutine.cc:46-71 | Evicting the occupant and restoring the next coroutine, in the byte arrays, is the switch of the specification |
| Coroutines.Schedule.Resume | src/coroutine.cc:209-228 | TERMINAL coroutines are left alone, the assertions fail exactly when the specification aborts, and otherwise the new state is that of the specification's step |
| Coroutines.Schedule.Yield | src/coroutine.cc:29-44 | Throws exactly if the stack has fewer than two entries and then changes nothing; otherwise it is the specification's step |
| Coroutines.Schedule.CoMainFuncReturns | src/coroutine.cc:230-243 | The end of a coroutine's function is the specification's step |
| Coroutines.Schedule.CreateCoroutine | src/coroutine.cc:164-207 | The size in the attributes of the caller is rounded in place; a pool there gives its next buffer in turn, and otherwise the coroutine gets a new buffer of the rounded size; in both cases the new state is that of the specification's step |
| Coroutines.Schedule.CreateShared | src/coroutine.cc:180-195 | The next buffer of the pool in turn is given to a fresh READY coroutine, as the specification's step says |
| Coroutines.Schedule.CreatePrivate | src/coroutine.cc:183-195 | A coroutine with its own new buffer is the specification's step |
| Coroutines.Coroutine.SaveStack | src/coroutine.cc:145-158 | The bytes from dummy to the end of the buffer are saved in memory of exactly that size |
| Coroutines.Coroutine.ResumeStack | src/coroutine.cc:160-162 | The saved bytes are back at dummy, all other bytes of the buffer are unchanged, and nothing changes if none were saved |
| Coroutines.StackMem.AllocStack | src/include/coroutine.hh:50-56 | A buffer of the size asked for without an occupant |
| Coroutines.SharedMem.AllocSharedMem | src/include/coroutine.hh:74-84 | The array holds count different buffers of the given size, all fresh and unoccupied |
| Coroutines.SharedMem.GetStackMem | src/include/coroutine.hh:86-93 | The buffers are handed out in turn, modulo count |
| Coroutines.RoundStackSizeIsLeast | src/coroutine.cc:174-179 | The rounded stack size is the least multiple of 4096 that is large enough, exactly for sizes that do not wrap around 2^64, and rounding it again changes nothing |
| TimeWheelSpec.WheelRefinesDeadlines | src/timewheel.cc:12-65 | Over any interleaving of AddTimer and ExecuteTimeout the wheel fires, tick by tick and in the same order, what a plain list of deadlines fires, if repeating timers are re-armed in place, that is, timeout / granularity / slots is a multiple of the slots; such a timer is due again (timeout / granularity / slots + 1) * slots ticks later |
| TimeWheelSpec.TickRefines | src/timewheel.cc:31-63 | One tick of the wheel is one tick of the deadline list |
| TimeWheelSpec.AddRefines | src/timewheel.cc:12-24 | Adding a timer to the wheel is adding its deadline to the list |
| TimeWheelSpec.EmptyWheel | src/timewheel.cc:6-10 | The constructor's wheel stands for the empty list |
| RearmSpec.RepeatingTimerFires | src/timewheel.cc:12-65 | Over any polling, a timer that has the wheel to itself, with any timeout and count, fires in the tick with index timeout / granularity after its registration and then every Period ticks until its count is used up, for ever if it is negative, and in no other tick; with r = timeout / granularity / slots and q = r % slots the period is (r + 1) * slots for q = 0, r * slots + q + 1 for a smaller q, and r * slots for q = slots - 1 |
| RearmSpec.PeriodIsTimeoutExactly | src/timewheel.cc:49-57 | The ticks between two fires are timeout / granularity, as asked for, if and only if 0 < q < slots - 1 and q + 1 ticks are beyond whole turns, or 0 < q = slots - 1 and none are |
| RearmSpec.ShortTimeoutsRepeatEveryTurn | src/timewheel.cc:49-57 | A timer with a timeout of less than one turn repeats once a turn, whatever the timeout |
| TimeWheelSpec.OneShotFiresExactly | src/timewheel.cc:12-24 | A one-shot timer fires once, in the tick with index timeout / granularity after its registration, and in no other, for any number of turns |
| TimeWheelSpec.FiresInRegistrationOrder | src/timewheel.cc:26-65 | Within a tick timers fire in the order of registration |
| TimeWheelSpec.TicksRun | src/timewheel.cc:26-31 | The ticks run account for the time since the start but for the rests that the calls lost |
| TimeWheelSpec.TicksNeverAhead | src/timewheel.cc:26-31 | Over irregular polling the number of ticks is at most (now - start) / granularity, with equality exactly if the lost rests add up to less than a granule |
| TimeWheelSpec.OneShotNeverEarly | src/timewheel.cc:12-31 | A one-shot timer added at last_trigger_ does not fire in calls before last_trigger_ + (timeout / granularity + 1) * granularity |
| TimeWheelSpec.FireCountConserved | src/timewheel.cc:43-57 | A timer with count n, whatever its interval and the timers beside it, is in the slot lists exactly once until it has fired n times, fires so far and count left adding up to n, and then nowhere |
| TimeWheelSpec.RunConserves | src/timewheel.cc:30-63 | For every timer the fires of a run and the fires left add up, over all lists and moves |
| TimeWheelSpec.ScanIsSweep | src/timewheel.cc:34-62 | Without moves the scan is one pass over the list |
| TimeWheelSpec.Scan | src/timewheel.cc:34-62 | The scan with its restart after a move terminates, for every wheel and also with infinite counts, and keeps the number of slots |
| TimeWheelSpec.MoverFiresOthersEarly | src/timewheel.cc:49-57 | A wheel in which a repeating timer that changes its slot makes a one-shot timer fire two ticks early |
| MoverSpec.LosesOneRoundExactly | src/timewheel.cc:34-62 | In a scan of any list a one-shot timer with rounds to go loses exactly one of them, if and only if no item behind it in the list fires and gets a new slot |
| MoverSpec.OneShotAmongMovers | src/timewheel.cc:12-65 | Among timers of any kind a one-shot timer never fires later than in the tick with index timeout / granularity after its registration and at most once; it keeps to that tick if and only if the run is calm for it: whenever its slot is scanned before its last round, no item behind it in the list fires and gets a new slot |
| TimeWheelSpec.NextTimeoutIsLeastFront | src/timewheel.cc:67-82 | The answer is the least delay among the fronts that are not overdue, and 0 if there is none |
| TimeWheelSpec.NextTimeoutBound | src/timewheel.cc:67-82 | With nothing overdue the answer is never below the least delay in the wheel, and is that delay exactly if the front of some slot has it |
| TimeWheelSpec.NextTimeoutZeroExactly | src/timewheel.cc:67-82 | The answer is 0 if and only if no front is pending (the wheel is empty or all fronts are overdue) or a pending front is due at this moment |
| TimeWheelSpec.ZeroForNonEmptyWheels | src/timewheel.cc:67-82 | Two wheels with a timer in them and the answer 0 |
| NextTimeoutSpec.NextTimeoutOfAdds | src/timewheel.cc:12-24 | In a wheel built by AddTimer calls alone, the answer is the least at + timeout - now of the timers that were the first in their slot, overdue ones left aside, and 0 if all those are overdue |
| NextTimeoutSpec.NextTimeoutOfOne | src/timewheel.cc:67-82 | In a wheel with one timer, added at time at, the answer is at + timeout - now until that time is reached |
| NextTimeoutSpec.NextTimeoutOfRuns | src/timewheel.cc:49-82 | After any run, fires and moves included, the answer is 0 or at + timeout - now for some AddTimer call: re-arming changes neither, so that a repeating timer is no longer counted once its first timeout is over |
| TimeWheelSpec.EverySlotVisited | src/timewheel.cc:72-73 | The modular scan reaches every slot |
| TimeWheels.TimeWheel.constructor | src/timewheel.cc:6-10 | An empty wheel |
| TimeWheels.TimeWheel.AddTimer | src/timewheel.cc:12-24 | The new item goes to the end of the list of its slot, with its rounds, as the specification says |
| TimeWheels.TimeWheel.ScanSlot | src/timewheel.cc:34-62 | The inner loop with erase, splice and restart is the specification's scan |
| TimeWheels.TimeWheel.ExecuteTimeout | src/timewheel.cc:26-65 | The loop over the ticks is the specification's, with the same trace of fires |
| TimeWheels.TimeWheel.GetNextTimeout | src/timewheel.cc:67-82 | The loop computes the least trigger over the fronts of all slots, with 64-bit wrap-around; the answer is the time to the earliest end of a front timer that is not overdue; it is 0 exactly if the call comes before the last trigger, no front is pending, or a pending front is due now |
| ByteArraySpec.WriteAppends | src/bytearray.cc:138-168 | Write makes the stored sequence old ++ buf, keeps nodes before the write node full and nodes behind it empty, and capacity_ at least base_size_ times the chain length |
| ByteArraySpec.NextNode | src/bytearray.cc:156-166 | When the bytes do not fit into the write node there is a next node: write_ptr_ never becomes null |
| ByteArraySpec.WriteLoopAppends | src/bytearray.cc:146-167 | The loop appends what it is given; it terminates with the bytes left and the nodes left, since a step through a full node copies nothing |
| ByteArraySpec.ExtendKeeps | src/bytearray.cc:57-66 | Extending the chain keeps the stored sequence and the shape |
| ByteArraySpec.WriteGrows | src/bytearray.cc:57-66 | A write that fits into its node changes neither the nodes nor capacity_; one that does not leaves the chain k nodes behind the old write node and adds k * base_size_ to capacity_, where k is the least number of nodes that hold all bytes of the write |
| ByteArraySpec.ChunkInContents | src/bytearray.cc:170-186 | Byte j of node i is byte i * base_size_ + j of the stored sequence |
| ByteArraySpec.ReadsAreFifo | src/bytearray.cc:170-186 | Over any run of writes and reads the bytes read are, in order, the written sequence from the first cursor to the last |
| ByteArraySpec.ReadsDefinedExactly | src/bytearray.cc:170-186 | A run is well defined exactly if every read stays within what was written and none comes after a read that drained an exactly full last node |
| ByteArraySpec.LostReader | src/bytearray.cc:170-186 | For a node size of any value: fill the root node, read it, write one byte and read it; the last call alone is not defined |
| ByteArraySpec.CursorNode | src/bytearray.cc:176-181 | The node of the cursor is number read_pos_ / base_size_, at most the write node, unless the chain has been drained |
| ByteArraySpec.SnapshotExact | src/bytearray.cc:68-88 | The snapshot is the stored sequence exactly if the write node is the last one, or is full with one spare node behind it |
| ByteArraySpec.SnapshotAfterWrite | src/bytearray.cc:68-88 | After a write that does not fit into its node, the snapshot is the stored sequence if and only if the bytes that did not fit are at least base_size_ times the number of new nodes less one; so it is whenever the bytes are no more than a node |
| RecordSpec.ZigZagRoundTrip | src/bytearray.cc:231-273 | ZigZag is undone for every value of a signed type, and for an unsigned type exactly for the lower half |
| RecordSpec.GroupsFit | src/bytearray.cc:284-293 | Every value needs at most as many groups as the loop looks at |
| RecordSpec.LeRoundTrip | src/bytearray.cc:197-229 | A value comes back from its little-endian bytes |
| RecordSpec.RecordRoundTrip | src/bytearray.cc:410-563 | A record comes back, taking exactly the bytes written for it, exactly if it is fixed-width, a varint below 128 after ZigZag (unsigned: in the lower half), or a string shorter than 64 bytes |
| RecordSpec.RecordsRoundTrip | src/bytearray.cc:410-563 | Any sequence of such records is returned by the same sequence of reads |
| RecordSpec.EncodeIgnoresJunk | src/bytearray.cc:294-303 | The bytes of such a record do not depend on what stood in the local buffer |
| WireSpec.FixedByte | src/bytearray.cc:197-229 | Byte i of a fixed-width number is the number divided by 256 to the i, rounded down, modulo 256, also for negative numbers |
| WireSpec.ZigZagIs | src/bytearray.cc:231-247 | Signed numbers become 2v or, if negative, -2v - 1; unsigned ones 2v, and in the upper half 2v - 2^n + 1 |
| WireSpec.GroupsAreDigits | src/bytearray.cc:282-304 | The number of groups is the number of base-128 digits, and the top group is the first of them |
| WireSpec.VarintSize | src/bytearray.cc:410-472 | A signed value beyond a quarter of its range takes no byte; any other takes as many as its ZigZag form has base-128 digits, and the first is the top digit |
| WireSpec.FaithfulBytes | src/bytearray.cc:410-481 | The bytes of varints and strings that come back: one byte 2v or -2v - 1, and twice the length in front of the text |
| WireSpec.VarintRead | src/bytearray.cc:509-523 | Reading a varint takes exactly the bytes up to the first one below 128, ten at most; only the first of them counts, and ten that all go on stand for 0 |
| ByteArrays.ByteArray.constructor | src/bytearray.cc:43-53 | An empty array of one node with at least NODE_SIZE bytes, which is its capacity_ |
| ByteArrays.ByteArray.ExtendCapacity | src/bytearray.cc:57-66 | New nodes behind the write node; those that stood there are no longer in the chain |
| ByteArrays.ByteArray.Write | src/bytearray.cc:138-168 | On the linked nodes, the stored sequence grows by the bytes written and the cursor stays; nodes and capacity_ stay if the bytes fit into the write node, and otherwise grow by exactly the nodes that all the bytes need |
| ByteArrays.ByteArray.Read | src/bytearray.cc:170-186 | The bytes at the cursor, in order, with the cursor moved; an exception and no change for more than capacity_ |
| ByteArrays.ByteArray.BitsStream | src/bytearray.cc:68-102 | The snapshot of the nodes, equal to the stored sequence exactly under the condition of SnapshotExact; the buffer of capacity_ bytes is large enough |
| ByteArrays.ByteArray.Clear | src/bytearray.cc:131-136 | Nothing is stored, the cursor is at 0 on the new root, which is the only node, and capacity_ is not reset |
| ByteArrays.ByteArray.SetAllBits | src/bytearray.cc:104-110 | The bytes become the stored sequence, with the cursor at 0; capacity_ grows by the nodes they need if one is not enough |
| ByteArrays.Transfer | src/bytearray.cc:68-110 | A snapshot taken while the write node is the last one carries the stored sequence over to any array, with its cursor at 0 |
| ByteArrays.EncodeVarintLoop | src/bytearray.cc:282-304 | The loop, whose index does not move on continuation groups, leaves the top group in the first byte |
| ByteArrays.DecodeVarintLoop | src/bytearray.cc:306-408 | The loop gives back the first byte of what the read loop collected |
| ByteArrays.ByteArray.WriteFixed | src/bytearray.cc:197-229 | Appends the little-endian bytes |
| ByteArrays.ByteArray.WriteVarint | src/bytearray.cc:410-472 | Appends the encoding of the ZigZag form |
| ByteArrays.ByteArray.WriteText | src/bytearray.cc:478-481 | Appends the length and the bytes |
| ByteArrays.ByteArray.ReadVarint | src/bytearray.cc:509-541 | Reads up to the first byte without a continuation bit, at most ten, and decodes them |
| ByteArrays.ByteArray.ReadRecord | src/bytearray.cc:483-563 | Reads one record of a shape as the specification decodes it |
| ByteArrays.RoundTrip | src/bytearray.cc:410-563 | Any sequence of faithful records written to a new array is returned unchanged by the same reads, wherever records straddle nodes |
| HttpServerSpec.StepKeepsInv | src/http_server.cc:115-221 | Whatever the kernel answers, no step of the listener or a worker uses or deletes a deleted EventData, no epoll_ctl fails, and the invariant holds again |
| HttpServerSpec.RunKeepsInv | src/http_server.cc:87-149 | The same over any interleaving of the listener and the five workers, with events of a batch handled one by one |
| HttpServerSpec.RegistrationLiveness | src/http_server.cc:87-113 | In every reachable state each open socket, except one about to be registered, is registered with exactly one worker with a pointer to a live EventData that carries it, and no other socket is registered |
| HttpServerSpec.ClientSeesWholeResponses | src/http_server.cc:151-221 | In every reachable state the bytes sent on a connection are the complete earlier responses in order and cursor_ bytes of the current one, with cursor_ + length_ its size; connections that were completed or closed by the client have got every response whole |
| HttpServerSpec.CompletionExactlyWhenSent | src/http_server.cc:177-208 | A send can return 0, which leads to the next request or an orderly close, exactly if the current response has been sent whole; requests are received only between responses |
| HttpServerSpec.KeepAliveDecides | src/http_server.cc:177-211 | In every run, a connection waits for a request only if all its earlier ones asked to stay; of an ended one all but the last asked, the last did not if the server completed it, and did if the client closed it |
| HttpServerSpec.EventDecides | src/http_server.cc:131-221 | In every state that meets the invariant, an event closes its connection if and only if it is a hangup or has neither flag, recv or send fails, recv gives 0, or send gives 0 and the last request did not ask to stay; otherwise the socket stays registered, for EPOLLOUT after a request or while the response is being sent, and else for EPOLLIN |
| HttpServerSpec.EventLeavesOthers | src/http_server.cc:131-147 | An event changes no other connection and no other registration |
| HttpServerSpec.HandleLeavesOthers | src/http_server.cc:131-147 | Handling an event changes no record but its own, and takes only its event from the batch |
| HttpServerSpec.RoundRobin | src/http_server.cc:110-111 | In every run the connection that is registered after k others is registered with worker k modulo 5 and with no other |
| HttpServerSpec.WorkerStays | src/http_server.cc:87-149 | While it is open a connection stays with its worker |
| HttpServerSpec.ResponsesAnswerRequests | src/http_server.cc:156-176 | In every run, the i-th response of a connection, and what is noted of whether the i-th request asked to stay, are ones that the given relation allows for that request |
| HttpServerSpec.OneRecordLeaksPerRequest | src/http_server.cc:157-168 | Besides one record per registered connection, exactly one EventData stays allocated for ever for each request answered |
| HttpServers.HttpServer.ListenClient | src/http_server.cc:94-112 | One round of the listener is the two steps of the specification, and nothing if accept4 fails; the responses of every connection keep answering its requests |
| HttpServers.HttpServer.HandleRequestMessage | src/http_server.cc:379-392 | The handler for the path before a question mark and the method, or 404, or 405 |
| HttpServers.HttpServer.ParseAndHandle | src/http_server.cc:348-363 | Exceptions become 400, 505 and 500 with their text, the order of the catch clauses counting |
| HttpServers.HttpServer.HandleRequestData | src/http_server.cc:346-369 | The buffer starts with the printed response, length_ is its length, and keep_alive_ says whether the request asks for it |
| HttpServers.HttpServer.Receive | src/http_server.cc:156-176 | The EPOLLIN half is the specification's step, on the records and registrations |
| HttpServers.HttpServer.Transmit | src/http_server.cc:178-219 | The other half is the specification's step |
| HttpServers.HttpServer.HandleEpollEvent | src/http_server.cc:151-221 | Dispatches to one of the halves as the specification does |
| HttpServers.HttpServer.Dispatch | src/http_server.cc:131-147 | One round of the loop over events is a step of the specification that the kernel's promises allow |
| HttpServers.HttpServer.EpollWait | src/http_server.cc:125-130 | The batch holds the registered pointers of the reported sockets |
| HttpServers.HttpServer.HandleBatch | src/http_server.cc:131-147 | The loop over a whole batch is a run of the specification, one step an event; afterwards, on every connection, the i-th response is still the printed answer of routes and handler to the i-th request, and what is noted of keep-alive is what that request says when parsed |
| HttpMessageSpec.ParsePrinted | src/http_message.cc:145-203 | For a start line with HTTP/0.9 to 1.1, at least one header line as printed, a blank line and any body, FromString recovers method, path, version, body, and the keys and values of the headers, each as its words run together: of lines with the same key the last, and no other key but Content-Length, the length of the body |
| HttpMessageSpec.ParseText | src/http_message.cc:145-203 | The same for header lines of any form on one line each, and for a request object that was used before, whose other headers stay |
| HttpMessageSpec.BodyExactly | src/http_message.cc:166-174 | The printed body comes back exactly if there are header lines, or no body |
| HttpMessageSpec.Version2Refused | src/http_message.cc:180-186 | HTTP/2.0 ends with a logic_error after method, path and version have been stored |
| HttpMessageSpec.HeadersExact | src/include/http_message.hh:80-83 | Header lines with distinct keys are all in the map and nothing else is new |
| HttpMessageSpec.MethodConversion | src/http_message.cc:9-27 | MethodFromString accepts exactly the printed names, in any case |
| HttpMessageSpec.VersionConversion | src/http_message.cc:29-42 | VersionFromString accepts exactly the printed names, in any case |
| HttpMessageSpec.DecimalRoundTrip | src/include/http_message.hh:94-96 | The number printed for Content-Length is read back |
| HttpMessageSpec.RequestPrinterMergesHeaders | src/http_message.cc:119-129 | A request printed by its own ToString, which leaves out the colon, is parsed to one header for each line: key and value both the words of old key and value run together, or, if the value has a colon, cut at that colon |
| HttpMessageSpec.SpaceLineOf | src/http_message.cc:189-201 | The header that is read from a line without the colon behind the key, for any value, with or without white space |
| HttpMessageSpec.OwnPrintExactly | src/http_message.cc:119-203 | Method, path, version, body and exactly the headers with their values come back from a request's own ToString, white space or not, if and only if there is no header and no body and the version is not HTTP/2.0 |
| HttpMessageSpec.ResponseOverrunsContentLength | src/http_message.cc:131-143 | A printed response whose content was set splits into its status line, its header lines and a body that is the content and two bytes more than Content-Length, or nothing for HEAD |
| HttpMessageSpec.BareResponse | src/http_message.cc:131-143 | A printed response without headers, as the 404 and 405 of the server, is its status line, a blank line and the content with two bytes more (nothing for HEAD), without any Content-Length |
| HttpMessageSpec.OneOrder | src/include/http_message.hh:98-98 | A header map is met in one order only, that of its keys, so that what the printers write is determined |
| HttpMessageSpec.MalformedCloses | src/http_server.cc:351-369 | A text that cannot be parsed is answered with 400 or 505 and the message, and the connection is closed |
| HttpAnswerSpec.RouteIsAnswered | src/http_server.cc:346-392 | A printed request for a route, with or without a query, gets 404 or 405 without content, the response of the handler, or 400, 505 or 500 with the text of what the handler throws; content is left out for HEAD, and the connection is kept exactly if the last Connection line says keep-alive |
| HttpAnswerSpec.AnyText | src/http_message.cc:166-186 | Any text with a line end is parsed if and only if the first word of its first line names a method and the third a version before 2.0, in any spacing; else the first check that fails decides, and path, method and version are stored as far as the checks came; without a blank line there are no headers and no body |
| HttpAnswerSpec.NoLineEnd | src/http_message.cc:153-165 | A text without a line end is refused and changes nothing |
| HttpAnswerSpec.StatusLineReads | src/http_message.cc:131-136 | The words of a printed status line are the version and a number that stands for no other status, and behind them comes the phrase |
| HttpAnswerSpec.ReasonPhrase | src/http_message.cc:46-78 | The phrases are the standard ones for thirteen codes, and empty for all others |
| HttpAnswerSpec.NamesOnTheWire | src/http_message.cc:9-117 | The nine method names and four version names are those of the protocol, in any case |
| HttpMessages.HttpRequest.FromString | src/http_message.cc:145-203 | The object is what the specification says however the call ends, including the fields set before an exception |
| HttpMessages.HttpRequest.ReadStartLine | src/http_message.cc:177-186 | The three words of the start line and the checks, field by field |
| HttpMessages.HttpRequest.ReadHeaderLines | src/http_message.cc:187-201 | The loop over the lines is the specification's fold |
| HttpMessages.HttpRequest.ToString | src/http_message.cc:119-129 | The text is the printed request with every header of the map once, in the order of the keys and without a colon |
| HttpMessages.HttpResponse.ToString | src/http_message.cc:131-143 | The text is the printed response with every header of the map once, in the order of the keys |
| HttpMessages.PrintHeaderLines | src/http_message.cc:123-137 | The loop prints each header of the map once, in the order of the keys |
| LogPatternSpec.ScanPrinted | src/log.cc:186-244 | Scanning the printed form of a canonical token list gives the list back but for a trailing literal; it gives it back whole exactly if the last token is a directive |
| LogPatternSpec.ScanLossless | src/log.cc:186-244 | For every pattern, printing what the scanner finds and the dropped trailing literal gives the pattern back |
| LogPatternSpec.ScanIsCanonical | src/log.cc:186-244 | If every brace is closed, what the scanner finds is canonical |
| LogPatternSpec.ScanPrintedExactly | src/log.cc:186-244 | A list without unclosed braces comes back whole from its print if and only if it is canonical and empty or ending in a directive |
| LogPatternSpec.FormattersOfPrinted | src/log.cc:250-283 | A printed canonical list gives one formatter item per token in order; unknown directives become the text of a parse error |
| LogPatternSpec.OneDirective | src/log.cc:250-283 | What each directive shows, with or without braces; any other name shows the text of a parse error |
| LogPatternSpec.NameEnds | src/log.cc:186-212 | A name goes as far as there are letters or closing braces, and a doubled percent sign is one in the text |
| LogPatterns.LogFormatter.constructor | src/log.cc:151-153 | The items are those of the specification |
| LogPatterns.LogFormatter.ScanDirective | src/log.cc:198-228 | The inner loop with its flag finds name, details and end of a directive, or an unclosed brace |
| LogPatterns.LogFormatter.PushDirective | src/log.cc:230-243 | What is pushed at a percent sign, and where scanning goes on: right behind the percent sign after an unclosed brace |
| LogPatterns.LogFormatter.Init | src/log.cc:153-288 | The scanner pushes exactly the specified tokens, and the second loop makes the specified items |
| LogPatterns.LogFormatter.MakeItems | src/log.cc:268-283 | One item per token by the table of directives |

## Left out

- SaveStack: does not model the branch for a null `dummy_` (src/coroutine.cc:145-151), which would go on to compute a length from a null pointer; `EvictionWellDefined` shows that no reachable state takes it.
- CreateCoroutine: a coroutine without attributes, which has no stack, is only made for main (`InitThreadSchedule`).
- CreatePrivate: as in `CreateShared`, the function to run is not modelled; what coroutines do is the choice of labels.
- AddTimer: requires a timeout below 2^31, the range of the `int` fields that store it; the source truncates larger ones there, also to negative intervals.
- ExecuteTimeout: does not model callbacks or resumed coroutines that call AddTimer during the scan.
- WheelRefinesDeadlines: repeating timers must be re-armed in place; `RepeatingTimerFires` gives the ticks of the others for a timer alone in its wheel, and `OneShotAmongMovers` and `FireCountConserved` hold beside any timers.
- Read: requires that the bytes have been written and the cursor is on a node; otherwise the source reads memory that was never written or a null pointer. An exception for too many bytes is modelled.
- ReadVarint: requires a terminated varint in what was written, for the same reason.
- DecodeVarintLoop: models `|=` of groups that do not overlap as addition.
- HandleRequestData: requires that the printed response fits into the buffer; the source copies it without a check.
- EndConn: removing a registration, closing the socket and freeing the record are one step.
- Machine contexts, registers, real stack frames, and the copy that runs on the stack it overwrites.
- `SetGranularity` in mid-run, and wheels with no slots or no granularity.
- Values of multi-group varints, float and double records, and the byte-swapping build.
- `GetBuffer`, `Dump` and the ownership of raw `iovec` memory in ByteArray.
- The coroutine path of the HTTP server, start and stop, sleeping, and what handlers compute.
- `std::isspace` and `toupper` outside ASCII, and other locales.
- `LogFormatter::Format`, loggers, appenders, timestamps and file output.
- Sockets, addresses, epoll wrappers, hooks, mutexes, utilities and the configuration: wrappers over system calls or over libraries that are not part of the repository.

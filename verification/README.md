# basic-services: verification models

Dafny 4.11 models of the stateful parts of the C++ library basic-services, with
proofs about them. `dafny verify dfyconfig.toml` checks everything.

## What is modelled

**Timer manager** (`src/timer.cpp`). `TimerList` holds the list nodes, the
source's `operator<` (two idle timers are each less than the other) and the list
operations: singleton merge as a left-to-right scan, find, erase, prefix scan,
splice. `TimerSystem` is a state machine whose steps are the client operations,
the passing of time, and what the worker thread does between two points of its
code; client steps are possible exactly where the worker has released the lock,
so any finite sequence of them may happen during a call-back, on any timer.
`TimerInvariant` proves the list order over every run and how long the worker
sleeps. `TimerShutdown` proves that the worker comes to an end and when shutdown
goes wrong, `TimerProgress` what it gets done before. `AlarmBoard` says what a
timer manager is for, with a map of alarms and no list; `TimerRefinement` proves
that every run of the manager is a run of the board, and takes the guarantees to
clients from there; `TimerClients` says which calls are accepted.
`TimerManagerImpl` is the mutable class; its methods make steps of the machine.

**Serial packetizer** (`src/serial-packet-device.cpp` and its headers).
`Delimiters` is the delimiter search, `PacketParser` the packetizer as a function
of the received bytes and gaps with the conservation law, `PacketStreams` the
whole-stream laws, `PacketEndings` says how a packet ends when its delimiter begins
a longer one, `PacketPromptness` which delimiters can be overlooked,
`PacketDevices` has the mutable objects: the receive buffer and the nested loops
over the packet array with the one-byte push-back.

**Thread pool and bounded queue** (`src/thread-pool.cpp`, `include/queue.h`).
`PoolMonitor` gives every worker and every caller of `Run` a program counter and
lets a woken thread lose the race for the mutex or wake without cause;
`PoolProgress` says what gets done while the pool runs, and by which thread;
`ThreadPools` has the two classes.

**Log stream** (`src/log-stream.cpp`, `include/log-stream.h`). `Numerals` has the
conversions with C++ division and the mirrored digit table, `LogBuffers` the
fixed buffer and the stream.

**Circle buffer** (`include/circle-buffer.h`). `CircleBuffers`.

## What the code does not do

For each of these a lemma gives a run or an input that shows it, and another one
the exact condition.

- *Oversleeping.* `updateTimers` documents the result 0 as "timer list is empty",
  and the worker then waits without a time-out. It also returns 0 when the front
  timer fell under a millisecond between the scan and the second clock reading
  (`TimerInvariant.OversleepHappens`; exactly: `SleepsExactly`). That is the
  only way a timer is passed over (`OverdueIsSeen`).
- *Hanging shutdown.* `workThread` does not look at the termination flag between
  the return of `updateTimers` and the wait. If the list is empty by then, nothing
  ever notifies it (`TimerShutdown.ShutdownCanHang`; the step: `StrandedExactly`).
  The shutdown can hang exactly if the manager is destroyed while a call-back is
  running (`DestructionExactly`).
- *Stop.* `include/timer.h` promises that no call-back occurs once `Stop` returns.
  One selected before may still be running (`TimerRefinement.StopDoesNotWait`). The
  promise holds exactly for a timer that is not being called back (`StopExactly`).
- *Lost bytes.* With the delimiters `abc, a` the packetizer drops bytes
  (`PacketParser.LossWitness`). All bytes are accounted for exactly if the
  delimiter list satisfies `NoLoss` (`ConservationExactly`).
- *Overlooked delimiters.* A failed match is taken into the payload whole, with
  bytes that could have begun a delimiter: CR CR LF is not split at CR LF
  (`PacketPromptness.CrLfOverlooked`), nor `abb` with the delimiters `aa, bb`
  (`RepeatedBytesOverlooked`). Exactly if the list and the packet size are
  `Seamless` no delimiter is overlooked, time-outs or not (`PromptExactly`). The
  size counts only while two delimiters do not fit (`ListDecides`): CR LF is
  overlooked exactly with three bytes or more (`CrLfExactly`). A single delimiter
  that repeats one byte never is, any other one is if it is shorter than the
  packet (`SinglePromptExactly`).
- *No resynchronisation.* After an over-long packet the packetizer can stay silent
  for ever (`PacketStreams.RecoveryFails`, `DeadStays`), and its writes stay inside
  the packet array exactly as long as all bytes since then fit
  (`PacketDevices.DeadFitsExactly`). It recovers exactly if the very next bytes
  spell a delimiter (`RecoveryExactly`).
- *Stop drops work.* After `Stop` of the pool, queued functions can be left over
  (`PoolMonitor.StopCanLeaveTasks`). The queue is drained exactly if it is no longer
  than the number of workers inside `take` (`StopDrainsExactly`).
- *Full index range.* If `size + 1` wraps around in the index type, and only then,
  the circle buffer has capacity 0 (`CircleBuffers.CircleBuffer.constructor`).

## Model

| member | source | states |
|---|---|---|
| TimerList.GetDurationIsExact | src/timer.cpp:55-59 | for a timer no further ahead than the longest duration the 32-bit result never truncates and is 0 exactly if the timer is not active or has under a millisecond left |
| TimerList.MergeKeepsOrder | src/timer.cpp:151-156 | merging one idle or newly started timer with the non-strict `operator<` keeps the list in sections: active by expiration and start order, idle, expired |
| TimerList.MergePosExactly | src/timer.cpp:151-156 | an active timer goes behind the active ones that expire no later, an idle one in front of all idle ones |
| TimerList.DuePrefixIsFullScan | src/timer.cpp:354-363 | the scan that stops at the first timer not due marks exactly the timers of the whole list that are due |
| TimerList.SpliceKeeps | src/timer.cpp:365-368 | moving the marked prefix behind the list keeps order and identities |
| TimerSystem.CreateKeeps | src/timer.cpp:242-259 | creating a timer, in any state of the worker in which the lock is free, keeps the invariant |
| TimerSystem.UpdateKeeps | src/timer.cpp:290-313 | starting or stopping any timer, including one that is expired or being called back, keeps the invariant |
| TimerSystem.DestroyKeeps | src/timer.cpp:264-283 | destroying any timer keeps the invariant; one that is being served stays in the list, marked |
| TimerInvariant.ScanMarksTheDue | src/timer.cpp:350-363 | in every state that satisfies the invariant the prefix marked at `now` is the set of timers with under a millisecond left |
| TimerInvariant.StepKeeps | src/timer.cpp:319-403 | every step of clients, worker and clock keeps the invariant |
| TimerInvariant.ListInEveryRun | src/timer.cpp:142-156 | in every run the list is duplicate-free and sectioned, only the timer being served is locked or marked for destruction, it is still in the list, and the worker is gone only with an empty list |
| TimerInvariant.NeverTruncates | src/timer.cpp:55-59 | in every run `getDuration` is the whole number of milliseconds left |
| TimerInvariant.SleepsExactly | src/timer.cpp:396-402 | the worker sleeps for exactly the whole milliseconds the earliest active timer has left, bounded from both sides, or without time-out exactly if no timer is active or the front one fell under a millisecond after the scan |
| TimerInvariant.SleepInEveryRun | src/timer.cpp:319-334 | while the worker sleeps un-notified its time-out is not later than any active timer; an unbounded sleep beside an active timer needs the clock to have moved between the two readings |
| TimerInvariant.OverdueIsSeen | src/timer.cpp:319-334 | in every run, if an active timer is past its expiration the worker can go on, or is in its last wait, or sleeps without time-out because the clock moved between the two readings |
| TimerInvariant.OversleepHappens | src/timer.cpp:339-345 | a run in which the worker sleeps without time-out beside an active timer, against the documented meaning of 0 |
| TimerShutdown.ClientCounts | src/timer.cpp:242-313 | no client operation makes a timer expired; with the termination flag set none makes one active |
| TimerShutdown.WorkCounts | src/timer.cpp:370-393 | every round of the loop over the expired timers leaves one fewer |
| TimerShutdown.ClientsDoNotDelay | src/timer.cpp:290-293 | with the flag set, clients cannot raise the bound on the worker's remaining steps |
| TimerShutdown.WorkComesNearer | src/timer.cpp:351-401 | with the flag set, every step of the worker lowers that bound |
| TimerShutdown.WorkerFinishes | src/timer.cpp:322-336 | so after a bounded number of its own steps the worker is in its last wait or gone, in every interleaving |
| TimerShutdown.StrandedForGood | src/timer.cpp:220-226 | a worker waiting without time-out, un-notified, flag set, list empty, is never woken by any step but a spurious one |
| TimerShutdown.StrandedExactly | src/timer.cpp:322-334 | that state is entered exactly when `updateTimers` returns with the flag already set and an empty list |
| TimerShutdown.QuietShutdownIsSeen | src/timer.cpp:216-223 | if the flag is raised while no call-back runs, the worker never sleeps un-notified with the flag set |
| TimerShutdown.DestructionExactly | src/timer.cpp:216-231 | from any state in which the manager can be destroyed, some run strands the worker exactly if a call-back is running |
| TimerShutdown.ShutdownCanHang | src/timer.cpp:319-337 | a run that ends in the stranded state |
| TimerProgress.OverdueComesNearer | src/timer.cpp:319-403 | until an overdue timer is selected, every step of the worker brings it nearer, whatever clients do with other timers |
| TimerProgress.OverdueIsServed | src/timer.cpp:319-403 | an overdue timer left alone is selected exactly once within three steps of the worker per timer in the list and three more, in every interleaving without the manager's destruction |
| TimerProgress.SleepsThrough | src/timer.cpp:328-336 | un-notified and but for spurious wake-ups the worker does not go on before its time-out |
| TimerProgress.WaitsAreFresh | src/timer.cpp:328-336 | a notification given before the wait does not end it |
| TimerProgress.LockIsReleased | src/timer.cpp:319-403 | client operations are possible in call-backs and waits, and the worker, which can go on while it holds the lock, comes to one of these after at most five steps |
| TimerProgress.WorkerReturns | src/timer.cpp:328-336 | with the flag set and the list empty the worker returns after a bounded number of steps, which it can make unless it is stranded |
| TimerClients.AcceptedExactly | src/timer.cpp:65-79 | a stop is accepted for every timer not destroyed, a start exactly if it has a handler and the manager is not shutting down, whatever the timer's state |
| TimerClients.AcceptedOnBoard | src/timer.cpp:290-313 | the same on the board, where an accepted start arms the timer and an accepted stop disarms it |
| TimerClients.LiveInEveryRun | src/timer.cpp:264-283 | in every run a timer that is not destroyed stays, with the handler it had |
| TimerClients.AcceptedFromCreation | src/timer.cpp:242-313 | from its creation until its destruction, in every run, a timer can be stopped, and started exactly if it was created with a handler and the flag is not set |
| TimerClients.NotifiesExactly | src/timer.cpp:220-308 | a client operation notifies the worker exactly when it creates or starts a timer, sets the flag, or removes the last timer with the flag set |
| AlarmBoard.FiresArePaidFor | include/timer.h:68-75 | on the board, call-backs plus a pending alarm never exceed starts |
| AlarmBoard.RetiredStaysSilent | include/timer.h:57-61 | on the board, a destroyed timer is never started or fired again |
| AlarmBoard.BatchFiresInOrder | src/timer.cpp:370-375 | on the board, alarms collected together fire by expiration, ties by order of starting |
| AlarmBoard.CollectedFires | src/timer.cpp:370-375 | a collected alarm that is not started, stopped or destroyed leaves the batch only by firing |
| AlarmBoard.NotCollectedIsSilent | src/timer.cpp:370-375 | an alarm that was not collected does not fire before the next collection |
| TimerRefinement.ScanSimulates | src/timer.cpp:354-368 | scan and splice of the sorted list do what a full scan of the alarms does |
| TimerRefinement.DrainSimulates | src/timer.cpp:370-385 | the timer taken for its call-back is the earliest of those collected |
| TimerRefinement.StepSimulates | src/timer.cpp:242-403 | every step of the timer manager is a step of the alarm board |
| TimerRefinement.RunSimulates | src/timer.cpp:242-403 | every run of the timer manager is a run of the alarm board |
| TimerRefinement.AtMostOneCallbackPerStart | include/timer.h:68-75 | in every run a timer's selections, plus one while it is active or expired, are at most its successful non-zero starts |
| TimerRefinement.StopIsSafe | src/timer.cpp:290-313 | after a successful stop a timer is not selected before a new start |
| TimerRefinement.StopExactly | include/timer.h:77-81 | no call-back of a stopped timer is running in any state of any run before its next start, exactly if none was running when it was stopped |
| TimerRefinement.StopDoesNotWait | include/timer.h:77-81 | a run in which a stop succeeds while the timer's call-back is running |
| TimerRefinement.DestroyIsSafe | src/timer.cpp:261-283 | a destroyed timer is never started or selected again |
| TimerRefinement.SelectedWhenDue | src/timer.cpp:371-385 | a selected timer has under a millisecond left of its last start and has its handler and API object |
| TimerRefinement.NeverEarly | src/timer.cpp:73-75 | in every run, from a successful start to the selection it leads to more than the duration less one millisecond passes |
| TimerRefinement.CallbacksInOrder | src/timer.cpp:370-393 | selections between two scans come in non-decreasing expiration, ties in start order, whatever clients do in between |
| TimerRefinement.DueIsSelected | src/timer.cpp:354-393 | a timer that a scan finds due, and that is not started, stopped or destroyed meanwhile, has been selected exactly once when the worker leaves the loop over the expired timers, in every interleaving |
| TimerRefinement.OnlyDueAreSelected | src/timer.cpp:354-393 | a timer that the scan does not find due is not selected before the next scan, whatever clients do |
| TimerManagerImpl.TimerManager.CreateTimer | src/timer.cpp:242-259 | the method makes the machine's step and returns the new timer, or none after termination |
| TimerManagerImpl.TimerManager.DestroyTimer | src/timer.cpp:264-283 | the method makes the machine's step |
| TimerManagerImpl.TimerManager.UpdateTimer | src/timer.cpp:290-313 | the method makes the machine's step; it returns true exactly if the timer exists, was not destroyed, and either is to be stopped or has a handler with the flag not set |
| TimerManagerImpl.TimerManager.Unlocked | src/timer.cpp:382-384 | while the lock is released any finite run of client steps may happen, and nothing else |
| TimerManagerImpl.TimerManager.MarkDue | src/timer.cpp:356-363 | the scanning loop marks the due prefix and changes nothing else |
| TimerManagerImpl.TimerManager.ServeExpired | src/timer.cpp:370-393 | the loop over the expired timers is a run of the machine, keeps the invariant and ends whatever clients do |
| TimerManagerImpl.TimerManager.Terminate | src/timer.cpp:220-223 | raising the flag makes the machine's step |
| TimerManagerImpl.TimerManager.ServeOne | src/timer.cpp:371-393 | one expired timer is selected, called back with the lock released, and unlocked or erased: a run of the machine that keeps the invariant and leaves fewer expired timers |
| TimerManagerImpl.TimerManager.Settled | src/timer.cpp:396-402 | the end of a cycle re-reads the clock and yields the next interval: the whole milliseconds the earliest active timer has left, bounded from both sides, or 0 in the two cases above |
| TimerManagerImpl.TimerManager.Cycle | src/timer.cpp:351-394 | one cycle is a run of the machine and asks for another exactly if a timer was due |
| TimerManagerImpl.TimerManager.UpdateTimers | src/timer.cpp:346-403 | the cycles are a run of the machine and the duration returned is that interval; if it does not return within the given number of cycles, each of them had a timer that was due |
| TimerManagerImpl.TimerManager.Resume | src/timer.cpp:322-336 | a wait is a run of client steps followed by the worker's waking and the condition of its loop |
| TimerManagerImpl.TimerManager.WorkThread | src/timer.cpp:319-337 | the thread function is a run of the machine, keeps the invariant, and returns only with the flag set and an empty list, or when the given numbers of waits or cycles are used up |
| Delimiters.FindDelimiter | src/serial-packet-device.cpp:14-33 | the loop returns the first hit of the list, or in best-match mode the first complete delimiter, else the beginning of one |
| Delimiters.MaxDelimiterSize | include/impl/serial-packet-device-impl.h:36-42 | the loop returns the size of the longest delimiter |
| PacketParser.ParseKeepsGood | src/serial-packet-device.cpp:65-89 | without over-long packets the waiting window is shorter than the longest delimiter and every delivered packet is within the size limit |
| PacketParser.PushedBackOnce | src/serial-packet-device.cpp:80-83 | a byte that was pushed back is not pushed back again |
| PacketParser.ParseConserves | src/serial-packet-device.cpp:54-88 | under `NoLoss`, bytes received are delivered payloads with their delimiters, pending payload and window, through push-backs and gaps |
| PacketParser.ConservationExactly | src/serial-packet-device.cpp:54-88 | all streams without over-long packets are conserved exactly if the delimiter list satisfies `NoLoss` |
| PacketParser.LossWitness | src/serial-packet-device.cpp:54-63 | with the delimiters `abc` and `a` the stream `ab` and a gap loses the `b` |
| PacketParser.CloseDelimitersLoseNothing | src/serial-packet-device.cpp:17-31 | `NoLoss` holds if a delimiter that begins another one is at most one byte shorter |
| PacketStreams.ChunkingIrrelevant | src/serial-packet-device.cpp:52-92 | without gaps, packets and final state depend on the concatenated bytes only |
| PacketStreams.GapsExactly | src/serial-packet-device.cpp:54-63 | reads that time out change nothing, on all streams without over-long packets, exactly if no complete delimiter can be waiting to become a longer one |
| PacketStreams.NoneBeginsAnother | src/serial-packet-device.cpp:54-63 | that is so if no listed delimiter is the beginning of another |
| PacketStreams.RoundTrip | src/serial-packet-device.cpp:65-88 | the framed bytes of payloads within the limit that hold no first byte of a delimiter are delivered as those payloads and nothing is left |
| PacketStreams.RoundTripWithGaps | src/serial-packet-device.cpp:50-93 | the same with reads that time out anywhere in the stream |
| PacketStreams.RoundTripInChunks | src/serial-packet-device.cpp:50-93 | the same for any chunking with empty reads, and no packet is discarded |
| PacketStreams.SplitExactly | src/serial-packet-device.cpp:65-88 | with one-byte delimiters the packets are the fields of the naive split and the tail is pending; nothing is discarded exactly if every field is within the limit |
| PacketStreams.DeadStays | src/serial-packet-device.cpp:54-75 | discarding with a window that matches nothing, the parser delivers nothing more on any stream of bytes and gaps, and its window grows with every byte |
| PacketStreams.RecoveryExactly | src/serial-packet-device.cpp:54-88 | after an over-long packet the parser stops discarding, on a stream of bytes and gaps, exactly if the next bytes spell a delimiter at once |
| PacketStreams.RecoveryFails | src/serial-packet-device.cpp:70-75 | a stream from the start that ends discarding, after which nothing is ever delivered |
| PacketEndings.TokenAtATime | src/serial-packet-device.cpp:54-88 | any stream of bytes and time-outs, without the window: up to the first event that ends the waiting the bytes are a piece of payload or a delimiter that ends the packet, and a byte beyond it is read again |
| PacketEndings.SettledStream | src/serial-packet-device.cpp:54-88 | a waiting delimiter that begins a longer one ends its packet at the next time-out or byte that continues it into none |
| PacketEndings.AmbiguousRoundTrip | src/serial-packet-device.cpp:36-88 | the round trip with such a delimiter, by push-back or time-out: all payloads are delivered as written and nothing is left |
| PacketEndings.GapDelivers | src/serial-packet-device.cpp:54-63 | a time-out hands over a payload of any length within the limit with the delimiter waiting behind it |
| PacketEndings.OverlongIsDropped | src/serial-packet-device.cpp:56-88 | nothing of an over-long packet is handed over while discarding or when it ends, but for an empty packet if the byte pushed back is a delimiter |
| PacketPromptness.PromptExactly | src/serial-packet-device.cpp:54-88 | every listed delimiter is delivered as soon as it has arrived, in all streams of bytes and time-outs without over-long packets, exactly if the delimiter list and the packet size are `Seamless`, a condition on the finitely many beginnings of listed delimiters |
| PacketPromptness.SeamlessIsAll | src/serial-packet-device.cpp:66-79 | these beginnings are all the windows the packetizer can be left waiting with |
| PacketPromptness.SeamlessIgnoresGaps | src/serial-packet-device.cpp:54-63 | under that condition no complete delimiter waits, so time-outs change nothing |
| PacketPromptness.ListDecides | src/serial-packet-device.cpp:66-79 | if a packet has room for twice the longest delimiter less one byte, no delimiter is overlooked exactly if none is at any packet size |
| PacketPromptness.SinglePromptExactly | src/serial-packet-device.cpp:66-79 | a single delimiter that repeats one byte is never overlooked, at any packet size; if the delimiter is shorter than the packet size, only such a one |
| PacketPromptness.CrLfExactly | src/serial-packet-device.cpp:70-79 | CR LF can be overlooked exactly if packets of three bytes are allowed |
| PacketPromptness.CrLfOverlooked | src/serial-packet-device.cpp:70-71 | the stream CR CR LF is not split at CR LF |
| PacketPromptness.RepeatedBytesOverlooked | src/serial-packet-device.cpp:70-71 | the stream `abb` is not split at `bb` if `aa` is listed too |
| PacketDevices.RxBuffer.ReadSome | include/impl/serial-buffer-device-impl.h:36-46 | returns the pending chunk, reads the device only if there is none, and keeps received bytes equal to removed plus pending |
| PacketDevices.RxBuffer.Remove | include/impl/serial-buffer-device-impl.h:48-57 | acknowledges a prefix of the pending chunk, at most all of it, in order |
| PacketDevices.CleanFits | include/impl/serial-packet-device-impl.h:60-61 | on runs without over-long packets every write index is inside `m_maxPacketSize + MAX_DELIMITER_SIZE` |
| PacketDevices.DeadFitsExactly | src/serial-packet-device.cpp:66-75 | discarding with a window that matches nothing, all writes of any stream are inside an array exactly if what is in it and the bytes still to come fit |
| PacketDevices.PacketDevice.WriteSome | src/serial-packet-device.cpp:36-41 | what reaches the line and the size returned: the accepted part, and the delimiter only behind a payload accepted completely |
| PacketDevices.SendAll | src/serial-packet-device.cpp:36-41 | fully accepted writes one after the other put the framed payloads on the line |
| PacketDevices.Exchange | src/serial-packet-device.cpp:36-95 | what one device sends, arriving in reads of any size with time-outs anywhere between them, the other hands over as exactly the payloads sent |
| PacketDevices.ExchangeSettled | src/serial-packet-device.cpp:36-95 | the same with a delimiter that begins a longer listed one, settled by silence or by the next byte |
| PacketDevices.PacketDevice.constructor | include/impl/serial-packet-device-impl.h:46-77 | an empty device, valid exactly if buffer and packet have room and some delimiter is not empty |
| PacketDevices.PacketDevice.AfterGap | src/serial-packet-device.cpp:54-63 | an empty read delivers a packet exactly if the waiting window holds a complete delimiter |
| PacketDevices.PacketDevice.AfterByte | src/serial-packet-device.cpp:66-88 | the loop body on the packet array does the parser's round and reports the push-back |
| PacketDevices.PacketDevice.AfterChunk | src/serial-packet-device.cpp:65-89 | the inner loop with its push-back ends and yields the parser's result for the chunk |
| PacketDevices.PacketDevice.Packetizer | src/serial-packet-device.cpp:44-95 | the nested loops hand over exactly the payloads the parser delivers, write inside the array, and acknowledge every byte; nothing happens if the device is not valid |
| PoolMonitor.StepKeeps | src/thread-pool.cpp:42-81 | every step of workers, callers and Stop keeps: sleeping workers are covered by notified ones, blocked callers by roused ones, and the capacity |
| PoolMonitor.NoLostWakeUp | src/thread-pool.cpp:42-72 | in every run, if a worker sleeps un-notified then queued functions are at most the notified workers, if a caller is blocked then free slots are at most the roused callers, and the pool never stands still with both |
| PoolMonitor.FirstInFirstOut | src/thread-pool.cpp:48-72 | in every run what is taken is what was put, in order, none twice and none lost |
| PoolMonitor.StopWakesAll | src/thread-pool.cpp:30-35 | Stop leaves no worker asleep |
| PoolMonitor.StoppedNeverSleep | src/thread-pool.cpp:30-35 | after Stop no worker is asleep in any state of any run |
| PoolMonitor.StoppedComesNearer | src/thread-pool.cpp:56-81 | after Stop every worker step lowers the sum of the workers' ranks and no other step touches the workers |
| PoolMonitor.StoppedWorkersFinish | src/thread-pool.cpp:56-81 | after Stop the workers take at most three steps each |
| PoolMonitor.StoppedCanStep | src/thread-pool.cpp:56-81 | after Stop some worker can make its next step exactly while some worker has not returned |
| PoolMonitor.AtMostOneMoreTask | src/thread-pool.cpp:74-81 | after Stop a worker takes at most one more function, and none if it is not in `take` |
| PoolMonitor.StopLeavesTasks | src/thread-pool.cpp:30-40 | after Stop at most one function per worker inside `take` is taken, and no fewer once all have returned unless the queue ran empty |
| PoolMonitor.StopDrainsExactly | src/thread-pool.cpp:30-40 | when all workers have returned, everything queued at Stop was taken exactly if it was no more than the workers inside `take` |
| PoolMonitor.StopCanLeaveTasks | src/thread-pool.cpp:30-40 | a run from the initial state in which a queued function is left when all workers have returned |
| PoolProgress.RunningComesNearer | src/thread-pool.cpp:56-81 | with functions queued, every worker step takes one or brings the worker nearer to `take` |
| PoolProgress.QueuedAreTaken | src/thread-pool.cpp:56-81 | while the pool runs, the first k + 1 queued functions are taken in order within 3k + 2n + 1 worker steps of n workers, in every interleaving |
| PoolProgress.RunningCanStep | src/thread-pool.cpp:56-81 | with functions queued some worker that is not asleep un-notified can make a step |
| PoolProgress.WorkerRunsWhatItTakes | src/thread-pool.cpp:74-81 | every worker runs exactly what it takes, once and in order |
| PoolProgress.EveryRoundRunsATask | src/thread-pool.cpp:56-81 | every round of a worker's loop runs a function or ends with an empty `take` of a stopped pool |
| PoolProgress.CallerCanStep | src/thread-pool.cpp:45-53 | a caller that is not blocked un-notified can make its step, which puts its function if there is room |
| PoolProgress.CallerPutsWhatItSubmits | src/thread-pool.cpp:42-53 | every caller of `Run` puts exactly what it was called with, once and in order, through waits for room and Stop |
| ThreadPools.ThreadPool.Start | src/thread-pool.cpp:20-28 | starting yields the machine's initial state, which satisfies the invariant |
| ThreadPools.ThreadPool.Stop | src/thread-pool.cpp:30-35 | the method makes the machine's step, and no worker is asleep afterwards |
| ThreadPools.ThreadPool.Submit | src/thread-pool.cpp:42-46 | without threads the function is run at once and the pool left alone, otherwise the caller goes on to put it |
| ThreadPools.ThreadPool.Take | src/thread-pool.cpp:56-72 | one pass through `take` is the machine's step and returns the oldest function or none |
| ThreadPools.ThreadPool.Put | src/thread-pool.cpp:45-53 | one pass through `Run` is the machine's step and blocks exactly if the queue is full |
| ThreadPools.Queue.Pop | include/queue.h:148-159 | `Pop`, which notifies even with unlimited capacity, is the pool's take step |
| ThreadPools.Queue.Push | include/queue.h:112-120 | `Push` is the pool's put step and blocks exactly if the queue is full |
| Numerals.NumeralReadsBack | src/log-stream.cpp:46-62 | reading a numeral gives the number back, in any base up to sixteen |
| Numerals.NoLeadingZero | src/log-stream.cpp:29-34 | a numeral is not empty and has no leading zero unless it is zero |
| Numerals.NumeralUnique | src/log-stream.cpp:29-34 | it is the only such text of digits |
| Numerals.DecimalRoundTrip | src/log-stream.cpp:23-44 | reading the signed decimal text gives the value back |
| Numerals.MirroredDigit | src/log-stream.cpp:15-17 | the mirrored table covers the remainders of C++ for negative values |
| Numerals.DecimalFits | src/log-stream.cpp:100-107 | every signed or unsigned 64-bit value, the least included, takes at most 20 characters |
| Numerals.HexFits | src/log-stream.cpp:157-169 | every address takes at most 16 hexadecimal digits |
| Numerals.Convert | src/log-stream.cpp:23-44 | writes the decimal text and its terminator, returns its length, and touches nothing else |
| Numerals.ConvertHex | src/log-stream.cpp:46-62 | the same in hexadecimal |
| LogBuffers.LogGrows | include/log-stream.h:37-68 | a run of items never overflows the buffer and never alters what is there |
| LogBuffers.CompleteExactly | src/log-stream.cpp:99-107 | the log is the concatenation of all renderings exactly if every text fits and every number finds 32 characters free |
| LogBuffers.LogIsCut | include/log-stream.h:37-157 | every log is the concatenation of the items kept, cut at the end of the buffer; only numbers that find fewer than 32 characters free are not kept |
| LogBuffers.TextsAreCut | include/log-stream.h:37-157 | a log of flags, characters and texts is their concatenation cut at the end of the buffer |
| LogBuffers.ItemReadsBack | include/log-stream.h:101-157 | every item can be read back from its text |
| LogBuffers.FixedBuffer.Append | include/log-stream.h:37-50 | appends the longest prefix that fits |
| LogBuffers.LogStream.FormatInteger | src/log-stream.cpp:99-107 | appends the decimal text whole, or nothing with fewer than 32 characters free |
| LogBuffers.LogStream.AppendText | include/log-stream.h:101-157 | flags, characters and texts, a null text as `(null)`, are appended as far as they fit, to the last free character |
| LogBuffers.LogStream.FormatAddress | src/log-stream.cpp:157-169 | appends prefix and digits whole, or nothing |
| LogBuffers.LogStream.Put | include/log-stream.h:101-157 | a chain of `<<` yields the contents of which `LogIsCut` and `CompleteExactly` speak |
| LogBuffers.LogStream.ResetBuffer | include/log-stream.h:161 | empties the buffer |
| CircleBuffers.InOrderOut | include/circle-buffer.h:14-16 | over every run of posts and gets what comes out is what was accepted, in order, and never more than the capacity is inside |
| CircleBuffers.CircleBuffer.PerformOps | include/circle-buffer.h:33-83 | a run of posts and gets on the ring: what was inside and what was accepted is what it hands out and what is inside afterwards, in order |
| CircleBuffers.CircleBuffer.constructor | include/circle-buffer.h:27-30 | an empty queue of capacity `size + 1`, or 0 if that wraps around in the index type |
| CircleBuffers.CircleBuffer.Get | include/circle-buffer.h:33-57 | removes and returns the oldest value, or nothing exactly if empty, through wrap-around and for size 0 |
| CircleBuffers.CircleBuffer.Post | include/circle-buffer.h:60-83 | appends the value, or fails exactly if full |

## Left out

- Timer identities: a node's address is a number never used again; reuse of freed memory by the allocator is not modelled.
- Unlocked accesses to a timer (`operator=(Callback&&)`, `operator Duration`): the call-back handler is fixed at creation.
- The evaluation of `*it->m_inst` after the lock is released: the call-back is one step whose argument is not modelled.
- `wait_for`: the sleep is counted from the last clock reading, not from the later moment at which the wait begins; waking earlier is covered by spurious wake-ups.
- TimerManagerImpl.TimerManager.UpdateTimers: runs at most a given number of cycles, because call-backs that keep restarting timers can keep the source's loop from ending; the state machine has no such bound.
- TimerManagerImpl.TimerManager.WorkThread: follows at most a given number of waits, because the source's loop ends only with the manager; the state machine has no such bound.
- List nodes are values with an identity held in a sequence; `std::list` links and iterators are not modelled, their stability is the statement that the timer being served stays in the list.
- PacketDevices.PacketDevice.Packetizer: requires that every byte is written inside the packet array, which all runs without over-long packets satisfy (`CleanFits`); what the source does beyond the array has no meaning in C++.
- PacketDevices.PacketDevice.Packetizer: the reads up to the closing of the device are a parameter; the race between the closing flag and the loop is not modelled.
- PacketParser.ParseConserves: about runs without over-long packets, since an over-long packet is dropped by design.
- The handler in `IsValid`, and failures of allocation.
- The `Delimiter` constructors, which cut delimiters to three bytes: here delimiters have any size, also none.
- `Queue::Clear`, `Queue::setCapacity`, the size queries and the move constructor.
- Callers blocked in `Run` across `Stop`: nothing wakes them; progress after `Stop` is stated for workers only.
- The unlocked reads of `m_isRunning` and `m_threads`: each is one atomic step.
- Empty functions handed to `Run`: a worker skips them; here they are ordinary queue entries.
- Formatting of floating point values and `Fmt`: `snprintf` is not part of this model.
- Null values posted to the circle buffer, and `CircleBuffer::empty`, a constant.
- `CountDownLatch`, `Fsm`, `Date`, `JobScheduler`, `Timestamp`, `Version`, `SourceFile`, `ThreadSafeStack`, the allocator, the logger and the device drivers: thin wrappers, declarations or input and output.

# Verified models of c-playground

A Dafny project that models the state machines, hand-off protocols and codecs of
`c-playground` (mainly `socket/monitor`) and proves what they are built for.
`dafny verify dfyconfig.toml` checks all of it.

A protocol is a `State`, a labelled `Step`, and two functions, `Enabled` and `Apply`; the
label carries every free choice, so a run is a sequence of steps and the theorems speak
about all runs from the initial state. Beside it stands a `class` in the form of the
source, whose methods are proved to perform exactly those steps. The history theorems tie
the state to the list of steps alone, so that what the other theorems say of recorded
fields is said of the run; the progress theorems name a run that gets where the protocol
should. A codec is a pure function on octet sequences, taken from its standard where there is one, and the source's loops over
buffers are methods proved against it. Instants and durations that the source keeps in
`double` are reals; fixed-width integers are written out where they can wrap.

| file | what it holds |
|---|---|
| `TimerFd`, `TimerScheduler`, `TimerTheorems`, `TimerRunner` | the timer scheduler `tRunner` with its timerfd, eventfd, heap and marks |
| `TimerHistory`, `TimerProgress` | its state as a function of the steps; every live task can start |
| `TaskRunner` | the task queue driven by an eventfd counter |
| `HeartbeatWheel`, `WheelHistory` | the coordinator's time wheel and reference-count eviction, also on accepts, beats and ticks alone |
| `Forwarder`, `ForwarderHistory` | the rendezvous of clients and followers by dialogue, also on its callbacks alone |
| `Collector`, `Pool` | the double-buffer hand-off and the block pool |
| `Heartbeat` | the listener's ping budget |
| `Strlcpy` | the word-at-a-time bounded copy |
| `Message` | packing, unpacking and framing |
| `Base64`, `Utf8` | section 4 of RFC 4648, section 3 of RFC 3629 |
| `Dns`, `DnsReader` | sections 3.1 and 4.1.4 of RFC 1035 |
| `TreeIndex`, `WeightWindow` | bit tricks and a running sum against their plain meanings |
| `Tally`, `Slices`, `Bits`, `Notifier` | counting in sequences, slices, machine numbers and bit operations, the eventfd constant |

Results that go against what a reader may expect, each with the condition under which
the expected property does hold:

- A long task posted between the scheduler's decision to re-arm and the re-arming itself
  can lose its wakeup (`TimerTheorems.WindowLosesWakeup`). A re-arming keeps the wakeups
  if and only if the deadline it sets is in time for every queued task
  (`TimerTheorems.RearmExactly`).
- `cancel` refuses the newest id (`TimerTheorems.CancelExactly`), and such a task starts all
  the same (`TimerTheorems.NewestStartsAnyway`).
- A worker that is pushed twice in one interval, as one whose first ping arrives in the
  interval of its accept, is never evicted if it then falls silent
  (`WheelHistory.HeardTwiceStays`, `HeartbeatWheel.SilentWorkerEvicted`).
- A descriptor that is accepted again can be evicted early
  (`HeartbeatWheel.ReuseEvictsEarly`): exactly when an earlier record of it has its last two
  references from some slot of the wheel on (`HeartbeatWheel.DroppedEarlyExactly`).
- A second follower with a live pid breaks the index of the forwarder
  (`Forwarder.AcceptKeepsIndexExactly`).
- A response whose string has 2^31 - 1 bytes overflows the cursor
  (`Message.LongestOverflows`), and the two forms of unpacking disagree on 2^31 bytes or
  more (`Message.FormsDisagree`).
- An empty string, read into a message that holds an older one, leaves the older one there
  (`Message.IntoUsedMessage`).
- `base64_decode` leaves its allocation on texts of 2^31 characters or more whose length
  wraps to a smaller one (`Base64.Decode`, `Base64.FailingLengths`).
- `name_decode` reads behind the terminator of every name of one label
  (`Dns.WalkExactly`), and going octet by octet misreads labels with an octet of 0 or above
  0xbf (`DnsReader.OctetWiseExactly`).
- `utf8_encode` of a number beyond 21 bits reports one byte and writes none
  (`Utf8.Encode`), and `utf8_decode` accepts overlong forms (`Utf8.OverlongDecoded`,
  `Utf8.ReencodesExactly`).

## Model

| member | source | states |
|---|---|---|
| `TimerTheorems.NoLostWakeup` | socket/monitor/runner.cpp:75-183 | In every state reached by re-arming in time, a waiting runner with a queued task has a notification pending or on its way, or it is in WORK with the timer armed (or expired, unread) no later than the earliest task allows; IDLE implies that only short tasks are queued; no planned re-arm disarms the timer |
| `TimerTheorems.RearmExactly` | socket/monitor/runner.cpp:175-181 | After a run that was in time so far, a re-arming leaves a wakeup if and only if the deadline it sets is in time for every queued task or a notification is under way |
| `TimerTheorems.LandingPostsKeepWakeups` | socket/monitor/runner.cpp:75-106 | Runs in which every post into the re-arm window is short, meets a pending notification or is due no sooner than the planned deadline re-arm in time, so lose no wakeup |
| `TimerTheorems.NothingOverdueAtRest` | socket/monitor/runner.cpp:115-183 | When the runner waits and nothing is left to fire, read or retrieve, no queued task is overdue |
| `TimerTheorems.TasksConserved` | socket/monitor/runner.cpp:75-169 | Every posted id is in exactly one place: queued, in the current drain, or retired once; queued ids are distinct |
| `TimerTheorems.RunsAtMostOnce` | socket/monitor/runner.cpp:153-169 | A once-task runs at most once over any run; a task retired without a cancel has run |
| `TimerTheorems.StartsOnlyDueAndLive` | socket/monitor/runner.cpp:133-155 | A task about to start is due, was not retired and was not cancelled before its drain began |
| `TimerTheorems.BatchExact` | socket/monitor/runner.cpp:129-152 | A batch is sorted by due time and holds, copy for copy, the due and live tasks of the drained heap |
| `TimerTheorems.AcceptedCancelShuts` | socket/monitor/runner.cpp:108-113 | After an accepted cancel and any further steps, the next drain shuts the task out |
| `TimerTheorems.CancelledNeverStarts` | socket/monitor/runner.cpp:108-155 | A task that is shut out is not started by any later run |
| `TimerTheorems.CancelExactly` | socket/monitor/runner.cpp:108-113 | In every reachable state a cancel unmarks a marked task if and only if a newer id has been handed out, and changes nothing for the newest |
| `TimerTheorems.NewestStartsAnyway` | socket/monitor/runner.cpp:108-155 | A run in which the newest task is cancelled and still starts |
| `TimerTheorems.WindowExact` | socket/monitor/runner.cpp:175-181 | A long task posted into the window of a re-arming that is in time keeps its wakeup if and only if the deadline set is not later than its due time allows |
| `TimerTheorems.WindowLosesWakeup` | socket/monitor/runner.cpp:175-181 | A reachable state in which such a post loses its wakeup |
| `TimerTheorems.InvKept` | socket/monitor/runner.cpp:75-183 | Every step keeps the joint invariant of conservation, marks, run counts and drains |
| `TimerHistory.PostedExactly` | socket/monitor/runner.cpp:75-113 | After any run the posted tasks are the callable posts in order, the i-th with id i, due at its birth plus its duration, with its own duration and kind; the cancelled ids and the clock are those of the steps |
| `TimerHistory.QueuedAsPosted` | socket/monitor/runner.cpp:75-169 | A task in the heap or a batch has the duration and kind of the post with its id, and is due as posted until it first runs |
| `TimerHistory.RepeatedStays` | socket/monitor/runner.cpp:133-169 | A task posted as repeated that no step has cancelled is never retired and stands in exactly one place |
| `TimerHistory.SettleRequeues` | socket/monitor/runner.cpp:156-169 | After its run a repeated task is queued with the clock plus its duration; any other is retired and unmarked |
| `TimerHistory.SettleExactly` | socket/monitor/runner.cpp:156-177 | With nothing queued the runner goes IDLE and disarms; otherwise it plans a notification exactly if a queued task is due within 10 ms, and else a time not later than any task and less than a millisecond before the earliest |
| `TimerHistory.PostArmsExactly` | socket/monitor/runner.cpp:82-105 | A post arms the timer, for its duration from now, if and only if it is callable, takes 10 ms or more and finds the runner IDLE or no queued task due before it; it notifies if and only if it is short or not callable; it queues its own task and no other |
| `TimerHistory.RearmArmsExactly` | socket/monitor/runner.cpp:175-181 | A planned notification adds one to the counter and leaves the timer; a planned time arms the timer for just that long |
| `TimerHistory.CounterExactly` | socket/monitor/runner.cpp:75-183 | The eventfd counter is the number of notifications since it was last read |
| `TimerHistory.RelaysExactly` | socket/monitor/listener.cpp:265-270 | The expirations on their way to the runner are those polled and not yet passed on |
| `TimerHistory.ExpirationsReadOnce` | socket/monitor/listener.cpp:265-270 | No expiration of the timer is read twice |
| `TimerProgress.LiveTaskCanStart` | socket/monitor/runner.cpp:115-183 | From every state a run in time reaches with the runner waiting, each queued task that is not cancelled has a run without further posts that starts it as soon as it is due, up to the bound on the delays |
| `TimerFd.SetTimespec` | socket/monitor/timer.cpp:9-17 | The macro's branches and 32-bit wrap compute quotient and remainder by 1000 |
| `TimerFd.ToItimerspec` | socket/monitor/timer.cpp:7-27 | Interval and value are converted each from their own fields |
| `TimerFd.ConfigExact` | socket/monitor/timer.cpp:7-27 | Interval and value each keep the time of their own seconds and milliseconds, where these fit 32 bits |
| `TimerFd.ConversionExact` | socket/monitor/timer.cpp:7-27 | The conversion keeps the configured time if and only if the seconds fit 32 bits; nanoseconds are always in range |
| `TimerFd.DisarmsExactly` | socket/monitor/timer.cpp:7-27 | The value is zero, and so disarms, exactly for a total of 0 or 2^32 whole seconds |
| `TimerFd.ResetMsExact` | socket/monitor/timer.cpp:46-49 | A relative reset arms for exactly that many milliseconds and disarms only for zero |
| `TimerRunner.Top` | socket/monitor/runner.cpp:96 | The position found is one of an earliest task |
| `TimerRunner.Runner.constructor` | socket/monitor/runner.cpp:116 | The started runner is in the initial state |
| `TimerRunner.Runner.Post` | socket/monitor/runner.cpp:75-106 | Performs the post step and returns the new id or -1 |
| `TimerRunner.Runner.Cancel` | socket/monitor/runner.cpp:108-113 | Performs the cancel step |
| `TimerRunner.Runner.Retrieve` | socket/monitor/runner.cpp:123-126 | Drains the eventfd counter and begins a drain or stops |
| `TimerRunner.Runner.PopTop` | socket/monitor/runner.cpp:134-147 | Moves one task from the heap to the batch, or disposes of it |
| `TimerRunner.Runner.DrainHeap` | socket/monitor/runner.cpp:129-152 | The loop is a run of pop steps that ends the drain |
| `TimerRunner.Runner.RunBatch` | socket/monitor/runner.cpp:153-155 | The loop is a run of start steps over the whole batch |
| `TimerRunner.Runner.Requeue` | socket/monitor/runner.cpp:158-169 | Repeated tasks are queued again, the others are disposed and unmarked |
| `TimerRunner.Runner.SettleBatch` | socket/monitor/runner.cpp:156-177 | Performs the settling step and decides how to re-arm |
| `TimerRunner.Runner.Rearm` | socket/monitor/runner.cpp:177-181 | Performs the re-arming step |
| `TimerRunner.Runner.Finish` | socket/monitor/runner.cpp:156-181 | From the second reading of the clock on, the turn is a run of settling and re-arming steps |
| `TimerRunner.Runner.Iterate` | socket/monitor/runner.cpp:121-182 | One iteration of the loop is a run of the step system and quits exactly on a quit notification |
| `TaskRunner.NeverPopsEmpty` | socket/monitor/runner.cpp:27-56 | In every state before the stop the queue size is the counter plus the posters between push and notify plus what was retrieved; so retrieved notifications never exceed the queued tasks, which are newest first |
| `TaskRunner.RunsAtMostOnce` | socket/monitor/runner.cpp:27-63 | Every posted task is in exactly one place: queued, in the batch, or run once |
| `TaskRunner.QuiescentAllRan` | socket/monitor/runner.cpp:27-63 | When nothing is pending the queue is empty and every posted task has run exactly once |
| `TaskRunner.QuitsExactly` | socket/monitor/runner.cpp:45-48 | A retrieval ends the loop if and only if a stop was posted or that many tasks are outstanding |
| `TaskRunner.HistoryExactly` | socket/monitor/runner.cpp:27-35 | The numbers of accepted tasks, of posters before their notification and of stops are those of the steps |
| `TaskRunner.CanRunAll` | socket/monitor/runner.cpp:27-63 | After any run that has not stopped, with fewer notifications outstanding than mean a stop, some run posts nothing more and ends with every accepted task run exactly once |
| `TaskRunner.Runner.PushTask` | socket/monitor/runner.cpp:27-31 | Performs the push step |
| `TaskRunner.Runner.NotifyOne` | socket/monitor/runner.cpp:32 | Performs the notify step |
| `TaskRunner.Runner.ReadCounter` | socket/monitor/runner.cpp:45-48 | Performs the retrieve step |
| `TaskRunner.Runner.PopBatch` | socket/monitor/runner.cpp:50-56 | The loop pops as many tasks as were retrieved, without reaching the end of the deque |
| `TaskRunner.Runner.RunBatch` | socket/monitor/runner.cpp:57-61 | Runs the batch in order and returns to polling |
| `HeartbeatWheel.UseCountExact` | socket/monitor/examples/coordinator.cpp:119-126 | In a tick the reference count of a record is the number of its pushes in the last N intervals, and one more if it is listed |
| `HeartbeatWheel.SweepExact` | socket/monitor/examples/coordinator.cpp:117-127 | The sweep erases a descriptor exactly when one of the slot's records of it, listed or not, has a count of two |
| `HeartbeatWheel.LastReference` | socket/monitor/examples/coordinator.cpp:117-127 | A record has its only remaining reference in an interval exactly when it was pushed there once and not since |
| `HeartbeatWheel.EvictedExactly` | socket/monitor/examples/coordinator.cpp:114-155 | After any run, reused descriptors included, the next tick evicts a listed worker if and only if it is the N-th after its last push, one of its interval, or an earlier record of the descriptor does harm |
| `HeartbeatWheel.ListedExactly` | socket/monitor/examples/coordinator.cpp:114-155 | Over any run that does not accept its descriptor again, a worker is listed if and only if its own record lets it be and no earlier record of the descriptor has done harm |
| `HeartbeatWheel.DroppedEarlyExactly` | socket/monitor/examples/coordinator.cpp:147-155 | An accepted worker is evicted early if and only if a tick takes out an interval from which on, at the accept, an earlier record of the descriptor had its last two references |
| `HeartbeatWheel.OneReferenceHarmless` | socket/monitor/examples/coordinator.cpp:117-155 | Earlier records with at most one reference left in the wheel do no harm |
| `HeartbeatWheel.SilentWorkerEvicted` | socket/monitor/examples/coordinator.cpp:114-155 | Where descriptors are not reused early, a silent worker is listed if and only if N ticks have not passed or its last interval saw two pushes |
| `HeartbeatWheel.ReuseEvictsEarly` | socket/monitor/examples/coordinator.cpp:147-155 | A run in which a worker on a reused descriptor is evicted two ticks before its N-th |
| `HeartbeatWheel.InvKept` | socket/monitor/examples/coordinator.cpp:114-155 | Every callback, reusing descriptors or not, keeps slots, counts, table and push history in agreement |
| `WheelHistory.HistoryExactly` | socket/monitor/examples/coordinator.cpp:114-155 | After any run ticks, records and pushes are those of the ticks, accepts and beats, and a listed descriptor is listed with its latest accept |
| `WheelHistory.HeardExactly` | socket/monitor/examples/coordinator.cpp:129-155 | The pushes of an accepted record are, interval by interval, its accept and the beats on its descriptor |
| `WheelHistory.WorkerListedExactly` | socket/monitor/examples/coordinator.cpp:114-155 | On the steps alone: a worker is listed if and only if it was heard from within N ticks, or twice in the last interval it was heard from, and no earlier record of the descriptor has done harm |
| `WheelHistory.FirstWorkerListedExactly` | socket/monitor/examples/coordinator.cpp:114-155 | The same without the last condition for a descriptor accepted for the first time |
| `WheelHistory.HeardTwiceStays` | socket/monitor/examples/coordinator.cpp:129-155 | A worker last heard from in the interval of its accept stays listed for ever |
| `HeartbeatWheel.Coordinator.constructor` | socket/monitor/time_wheel.h:16-18 | The wheel starts empty at its last slot |
| `HeartbeatWheel.Coordinator.AcceptWorkerConnection` | socket/monitor/examples/coordinator.cpp:147-155 | Performs the accept step |
| `HeartbeatWheel.Coordinator.OnRecvHeartBeat` | socket/monitor/examples/coordinator.cpp:129-145 | Performs the beat step |
| `HeartbeatWheel.Coordinator.TakeSlot` | socket/monitor/time_wheel.h:22-29 | Steps back round the wheel, empties that slot and returns what it held |
| `HeartbeatWheel.Coordinator.OnWheelTick` | socket/monitor/examples/coordinator.cpp:117-127 | The loop over the slot performs the tick step |
| `Forwarder.NoMissedRendezvous` | socket/monitor/examples/forwarder.cpp:77-168 | After every callback no waiting client shares a dialogue with a mapped follower, and the map indexes exactly the listed followers |
| `Forwarder.PublishedRightfully` | socket/monitor/examples/forwarder.cpp:104-168 | A client is only handed to a follower whose last announcement, still unanswered, was its dialogue, and not after the expiry threshold |
| `Forwarder.PublishedOnce` | socket/monitor/examples/forwarder.cpp:104-168 | No client is handed over twice, or is still waiting after it was |
| `Forwarder.NotifyMeetsExactly` | socket/monitor/examples/forwarder.cpp:104-128 | An announcement hands over a client if and only if an unexpired one waits for that dialogue |
| `Forwarder.PeekMeetsExactly` | socket/monitor/examples/forwarder.cpp:149-168 | An arriving client is handed over at once if and only if a follower waits for its dialogue |
| `Forwarder.AcceptKeepsIndexExactly` | socket/monitor/examples/forwarder.cpp:77-102 | A new follower keeps the map an exact index if and only if its pid is not mapped yet |
| `Forwarder.ScanFinds` | socket/monitor/examples/forwarder.cpp:108-126 | The scan finds a client exactly when an unexpired one with the dialogue is there; otherwise all that stay are unexpired |
| `Forwarder.ScanKeeps` | socket/monitor/examples/forwarder.cpp:108-126 | The scan drops only expired clients and the one it hands over |
| `Forwarder.IndexKept` | socket/monitor/examples/forwarder.cpp:77-168 | Every callback keeps the index exact |
| `ForwarderHistory.QuitExactly` | socket/monitor/examples/forwarder.cpp:92-101 | A quit unlists and unmaps the follower with the descriptor, and leaves every other follower, its place and the clients as they were |
| `ForwarderHistory.FollowersExactly` | socket/monitor/examples/forwarder.cpp:77-101 | The listed followers are those accepted and not gone, the latest in front |
| `ForwarderHistory.AnnouncementsExactly` | socket/monitor/examples/forwarder.cpp:104-128 | The announcements are the notifications from processes listed at the time |
| `ForwarderHistory.ClientsExactly` | socket/monitor/examples/forwarder.cpp:104-168 | Every client that waits or was handed over has the descriptor, dialogue and time of its own arrival |
| `ForwarderHistory.NotifyExactly` | socket/monitor/examples/forwarder.cpp:104-128 | A notification changes its own follower alone: to none and the time if a client was handed over, else to the dialogue; what is handed over was waiting |
| `ForwarderHistory.PeekExactly` | socket/monitor/examples/forwarder.cpp:149-168 | An arriving client is handed to the follower found, which then waits for none, or is put in front of the waiting ones; nothing else changes |
| `ForwarderHistory.ClientWaitsAfterQuit` | socket/monitor/examples/forwarder.cpp:92-168 | When the only followers waiting for a dialogue have quit, a client that arrives for it is kept waiting |
| `ForwarderHistory.NobodyForgotten` | socket/monitor/examples/forwarder.cpp:77-168 | After any further run, an arrived client waits, was handed over, or had expired at a later notification |
| `Forwarder.FindClient` | socket/monitor/examples/forwarder.cpp:108-122 | The loop finds the first unexpired client of the dialogue and remembers exactly the expired ones before it |
| `Forwarder.EraseInvalid` | socket/monitor/examples/forwarder.cpp:124-126 | The loop erases exactly the remembered clients |
| `Forwarder.WalkClients` | socket/monitor/examples/forwarder.cpp:108-126 | Both loops together compute the scan |
| `Forwarder.Server.AcceptFollower` | socket/monitor/examples/forwarder.cpp:77-90 | Lists the follower in front and inserts its pid unless mapped |
| `Forwarder.Server.FollowerQuit` | socket/monitor/examples/forwarder.cpp:92-101 | The loop unlists and unmaps the first follower with the descriptor |
| `Forwarder.Server.HandleNotify` | socket/monitor/examples/forwarder.cpp:104-128 | Performs the notify step |
| `Forwarder.Server.PeekHeader` | socket/monitor/examples/forwarder.cpp:149-168 | Performs the arrival step for any order in which the map is walked |
| `Collector.TakenIsPrefix` | socket/collector.h:160-257 | For all interleavings, what the consumer took is a prefix of what was pushed and the buffer holds the rest |
| `Collector.NoLostWakeup` | socket/collector.h:160-257 | A non-empty buffer implies an unread ready byte, a producer before its write, or a consumer before its swap |
| `Collector.BlockedMeansDrained` | socket/collector.h:229-257 | A consumer that would block with no producer under way has taken everything |
| `Collector.SentIsPrefix` | socket/collector.h:249-254 | While the link is up, what was sent is a prefix of what was pushed |
| `Collector.InvKept` | socket/collector.h:160-257 | Every atomic step of producers and consumer keeps the invariant |
| `Collector.SentExactly` | socket/collector.h:229-257 | Between two rounds, while the link is up, everything taken has been sent |
| `Collector.HistoryExactly` | socket/collector.h:160-257 | Payloads, link, writers and pipe are those of the steps: the pipe holds the bytes written and not yet read, in order |
| `Collector.StopsExactly` | socket/collector.h:229-257 | The consumer has stopped if and only if a check found the link done or a read found another byte than ready; every other check and read goes on |
| `Collector.StopsOnlyWhenTold` | socket/collector.h:179-257 | The consumer stops only after a quit or after the link was set done |
| `Collector.CanCatchUp` | socket/collector.h:160-257 | From every state that is not stopped or told to stop, some run ends with all that was pushed taken |
| `Collector.Buffers.PushPayload` | socket/collector.h:163-166 | Performs the push step |
| `Collector.Buffers.WriteReadyByte` | socket/collector.h:167-168 | Performs the write step |
| `Collector.Buffers.ConsumeOne` | socket/collector.h:235-256 | One iteration reads one byte, takes and sends the whole buffer, or stops at another byte |
| `Collector.Buffers.SendAll` | socket/collector.h:249-254 | The loop sends all taken payloads in order if the link is up |
| `Pool.RoundUpLeast` | socket/collector.h:65-73 | The block size is the least multiple of the pointer size not below BLOCK |
| `Pool.PoolSound` | socket/collector.h:55-103 | Over every run the free stack and the lent blocks partition the initial blocks, live blocks do not overlap, and no other block enters the stack |
| `Pool.AcquireExactly` | socket/collector.h:84-94 | After any run an acquire lends one of the initial blocks if and only if fewer than all are lent, and else a fresh one |
| `Pool.ReleaseExactly` | socket/collector.h:89-92 | A released block leaves the live ones; a pooled one is what the next acquire lends, and another never enters the stack |
| `Pool.BlockPool.constructor` | socket/collector.h:63-79 | The loop fills the stack with the initial blocks |
| `Pool.BlockPool.AcquireBlock` | socket/collector.h:84-94 | Performs the acquire step |
| `Pool.BlockPool.ReleaseBlock` | socket/collector.h:89-92 | Performs the release step |
| `Heartbeat.FailsOnlyAfterFivePings` | socket/monitor/listener.cpp:8-53 | A ping fails only if five were sent since the last pong or reset |
| `Heartbeat.FiveIsTight` | socket/monitor/listener.cpp:8-53 | A run in which exactly five pings precede the failure |
| `Heartbeat.DroppedExactly` | socket/monitor/listener.cpp:8-34 | In silence the failure comes at a call number fixed by the state, and not before |
| `Heartbeat.SilentPeerDropped` | socket/monitor/listener.cpp:8-53 | After any history, a peer silent for 7500 ms of pongs and 5000 ms of requests is dropped at that call, the seventh at the latest |
| `Heartbeat.RecordsHold` | socket/monitor/listener.cpp:8-81 | After any history every field is a function of the events: last ping, last answer and its trip, largest and smallest trip, last request, retries |
| `Heartbeat.CostExactly` | socket/monitor/listener.cpp:8-34 | A ping is sent, costs a retry or fails exactly as the times of the last request, answer and ping and the retries left say |
| `Heartbeat.PunctualPeerKept` | socket/monitor/listener.cpp:8-53 | A peer whose answers are in time at every ping keeps all five retries and is never dropped |
| `Heartbeat.Monitor.PingPeer` | socket/monitor/listener.cpp:8-34 | Performs the ping step and reports its failure |
| `Heartbeat.Monitor.ReceivePong` | socket/monitor/listener.cpp:77-81 | Performs the pong step with the round-trip update of lines 44-53 |
| `Heartbeat.Monitor.ResetSession` | socket/monitor/listener.cpp:36-42 | Performs the reset step |
| `Strlcpy.HasZeroExact` | socket/monitor/util.cpp:28 | The mask expression is non-zero if and only if the word has a zero byte |
| `Strlcpy.LoadStore` | socket/monitor/util.cpp:39 | Storing a loaded word writes the bytes it was loaded from |
| `Strlcpy.CopyBytes` | socket/monitor/util.cpp:35 | The byte loop stops at the end, at the limit or at an aligned address, having copied what lies before |
| `Strlcpy.CopyWords` | socket/monitor/util.cpp:36-42 | The word loop copies whole words and no byte beyond the string or the limit |
| `Strlcpy.Copy` | socket/monitor/util.cpp:25-49 | For every alignment: exactly min(strlen, n) bytes are copied, terminated and counted, and nothing behind them is touched |
| `Message.IntRoundTrip` | socket/monitor/message.h:34-44 | Unpacking a packed 32-bit integer gives it back, negative ones too |
| `Message.RequestInverts` | socket/monitor/message.cpp:66-75 | Unpacking inverts packing of a request anywhere in a buffer and consumes exactly its bytes |
| `Message.ResponseInverts` | socket/monitor/message.cpp:77-95 | The same for a response whose lengths fit an int, that of the string with its terminator |
| `Message.HeartbeatInverts` | socket/monitor/message.cpp:106-114 | The same for a heartbeat |
| `Message.ResponseRoundTripExactly` | socket/monitor/message.cpp:77-95 | A response comes back if and only if its lengths fit an int, that of the string with its terminator |
| `Message.LongestOverflows` | socket/monitor/message.h:47-62 | A string of 2^31 - 1 bytes overflows the step of the cursor |
| `Message.RequestPrefixRefused` | socket/monitor/message.cpp:56-64 | Every strict prefix of a packed request is refused |
| `Message.ResponsePrefixRefused` | socket/monitor/message.cpp:83-90 | A strict prefix of a packed response is never accepted; it is refused if and only if its string does not overflow the cursor or is cut |
| `Message.HeartbeatPrefixRefused` | socket/monitor/message.cpp:97-104 | Every strict prefix of a packed heartbeat is refused |
| `Message.SizedExactly` | socket/monitor/message.h:47-80 | What follows a length is read, refused, thrown at or overflows exactly as its sign, the bytes left and the width of int say |
| `Message.CutLengthRefused` | socket/monitor/message.h:34-80 | Data that ends within a length or integer is refused with the cursor in place |
| `Message.IntoUsedMessage` | socket/monitor/message.h:47-62 | A packed string comes back into a message that was used before if and only if it is not empty or the message holds an empty one |
| `Message.RequestFormsAgreeExactly` | socket/monitor/message.cpp:56-75 | The two unpack forms of a request agree if and only if the int-converted length of the rest shows eight bytes where there are eight |
| `Message.HeartbeatFormsAgreeExactly` | socket/monitor/message.cpp:97-114 | The same for a heartbeat |
| `Message.ResponseFormsAgreeExactly` | socket/monitor/message.cpp:83-95 | The two unpack forms of a response agree if and only if the one at the cursor refuses, or stays within the int-converted length without overflow |
| `Message.ResponseFormsAgreeUpTo` | socket/monitor/message.cpp:83-95 | They agree on all data of a length if and only if it is below 2^31 |
| `Message.FormsDisagree` | socket/monitor/message.cpp:56-104 | With 2^31 bytes left the forms at the cursor accept what the others refuse |
| `Message.FrameInverts` | socket/monitor/message.cpp:29-54 | Reading a written frame gives it back and stops behind it |
| `Message.FrameExactly` | socket/monitor/message.cpp:29-45 | For every header: a length of zero or less gives an empty payload, a longer one than the rest is refused, any other gives that many bytes |
| `Message.FrameRoundTripExactly` | socket/monitor/message.cpp:29-54 | A frame comes back if and only if the length of its payload fits an int |
| `Message.WriteRaw` | socket/monitor/message.cpp:47-54 | Writes the frame, and reports success if and only if header and payload together fit an int |
| `Message.CutStreamReads` | socket/monitor/message.cpp:29-54 | A stream cut anywhere reads as exactly the frames that are whole |
| `Message.StreamRoundTrip` | socket/monitor/message.cpp:29-54 | Any list of frames that fit reads back as the same list |
| `Message.Packer.AddInt` | socket/monitor/message.h:102-110 | The byte loop appends four bytes that read as the integer again |
| `Message.Packer.AddString` | socket/monitor/message.h:113-122 | Appends length, bytes and a zero byte, or only a zero length |
| `Message.Packer.AddVector` | socket/monitor/message.h:125-134 | Appends length and bytes, or only a zero length |
| `Message.SerializeResponse` | socket/monitor/message.cpp:77-81 | Packs the two fields in order |
| `Message.Unpacker.NextInt` | socket/monitor/message.h:34-44 | Reads an integer and moves the cursor, or leaves both |
| `Message.Unpacker.NextSized` | socket/monitor/message.h:47-80 | Reads a length and that many bytes, with the string's extra byte, and all its failures, the int overflow included |
| `Message.Unpacker.NextResponse` | socket/monitor/message.cpp:92-95 | Reads the two fields in order |
| `Message.Unpacker.NextOwnResponse` | socket/monitor/message.h:82-89 | Reads through a cursor of its own over the int-converted length, and moves only on success |
| `Base64.QuadIsRadix64` | codec/base64.c:92-106 | The four extractors give the radix-64 digits of the 24-bit group |
| `Base64.TripleInverts` | codec/base64.c:123-134 | Decoding a group inverts encoding it, padded groups included |
| `Base64.EncodingLength` | codec/base64.c:148 | The encoding has exactly 4·ceil(n/3) characters |
| `Base64.DecodeEncode` | codec/base64.c:111-175 | Decoding the encoding gives the input padded with zeros to a multiple of three |
| `Base64.RoundTrip` | codec/base64.c:111-175 | For every NUL-free input the result is the same C string |
| `Base64.InitTables` | codec/base64.c:11-27 | The two tables are the alphabet and its inverse, the pad character maps to zero |
| `Base64.Encode` | codec/base64.c:141-175 | The loop writes the encoding and a terminator, filling the allocation exactly |
| `Base64.DecodeGroups` | codec/base64.c:120-136 | The loop fills the allocation exactly if it was made for all groups, and otherwise leaves it |
| `Base64.Decode` | codec/base64.c:111-139 | The allocation is filled exactly with the decoding if and only if the text is not empty, of whole groups and shorter than 2^31; it is overrun if and only if a longer one wraps to a non-negative length |
| `Base64.FailingLengths` | codec/base64.c:114-118 | 2^31 characters give a negative length, and for 2^32 + 4 of them four bytes are allocated |
| `Base64.Join` | codec/base64.c:123-133 | The shifted and or-ed parts add up to the three bytes |
| `Base64.EncodeThenDecode` | codec/base64.c:111-175 | A non-empty string comes back if and only if its encoding is shorter than 2^31 characters |
| `Utf8.DecodesBack` | trivial/name_codec.c:109-156 | Decoding inverts encoding wherever the octets stand |
| `Utf8.ReencodesExactly` | trivial/name_codec.c:109-156 | What was decoded encodes to the same octets if and only if these do not begin an overlong form: 0xC0, 0xC1, 0xE0 before less than 0xA0, or 0xF0 before less than 0x90 |
| `Utf8.OverlongDecoded` | trivial/name_codec.c:109-156 | Overlong forms of zero in two, three and four bytes are decoded |
| `Utf8.StreamRoundTrip` | trivial/name_codec.c:28-156 | The stream over concatenated encodings returns the code points with their sizes and then ends |
| `Utf8.Encode` | trivial/name_codec.c:53-88 | Writes the octets of RFC 3629 if they fit, reports their number, and touches nothing else |
| `Utf8.Decode` | trivial/name_codec.c:109-156 | The tests and the loop compute the decoding and its size, or zero |
| `Utf8.Stream.Next` | trivial/name_codec.c:35-51 | Returns the next code point and moves on, or -1 in place; never reads past the end |
| `Dns.SplitJoins` | socket/dns-demo.c:423-459 | Joining the labels of a host name with dots gives the name back |
| `Dns.JoinSplits` | socket/dns-demo.c:423-459 | Every list of dot-free labels is found again in what it joins to |
| `Dns.NameEncode` | socket/dns-demo.c:443-459 | For every host string the buffer holds the wire form of its labels, empty labels and long ones included |
| `Dns.ChangeToDnsNameFormat` | socket/dns-demo.c:423-441 | The older encoder writes the same wire form for every host string |
| `Dns.NameDecode` | socket/dns-demo.c:461-476 | The wire form of two or more non-empty labels becomes the dotted name, also in place |
| `Dns.WalkExactly` | socket/dns-demo.c:463-473 | The decoding loop stays inside the string, and makes the dotted name, if and only if there are two labels or more; with one label it reads behind the terminator |
| `Dns.EncodeThenDecode` | socket/dns-demo.c:443-476 | Decoding in place what was encoded gives the host name back |
| `DnsReader.ReadsWire` | socket/dns-demo.c:315-385 | Reading an uncompressed name gives its labels, wherever it stands |
| `DnsReader.ReadsCompressed` | socket/dns-demo.c:315-385 | Labels that end in a pointer read as those labels followed by the name pointed to |
| `DnsReader.OctetWiseExactly` | socket/dns-demo.c:315-328 | Going octet by octet finds the octets of a well-formed name if and only if its label octets are non-zero and below 0xc0 |
| `DnsReader.Follow` | socket/dns-demo.c:315-328 | The octet-wise loop ends and yields the expanded wire form; its count is the octets occupied in place |
| `DnsReader.ReadName` | socket/dns-demo.c:315-331 | The result is the expanded dotted name with its count |
| `DnsReader.FollowOlder` | socket/dns-demo.c:333-370 | The loop of the older reader does the same |
| `DnsReader.DotLabels` | socket/dns-demo.c:372-383 | The in-place loop turns lengths into dots and drops the last one |
| `DnsReader.ReadNameOlder` | socket/dns-demo.c:333-385 | The result is the expanded dotted name with its count, for one label too |
| `DnsReader.ReadersAgree` | socket/dns-demo.c:315-385 | Both readers return the same string and count |
| `TreeIndex.ScanReverseExact` | trivial/bitmap.cpp:67-72 | The shift-and-mask code computes floor(log2 x) for x from 1 to 0xFFFF |
| `TreeIndex.BinExact` | trivial/bitmap.cpp:49-77 | A size is in bin i if and only if it lies between the least sizes of bins i and i + 1 |
| `TreeIndex.IndexMonotone` | trivial/bitmap.cpp:49-77 | A larger size never has a lower bin |
| `TreeIndex.BitToIndexExact` | trivial/bitmap.cpp:34-45 | The parallel bit count returns the position of a single bit |
| `WeightWindow.WindowSlides` | trivial/ring_buffer.c:69-79 | The sum of the last weights changes by the new one less the one that leaves |
| `WeightWindow.RingSlides` | trivial/ring_buffer.c:37-43 | Filling the next slot makes the ring hold the last weights again |
| `WeightWindow.Window.constructor` | trivial/ring_buffer.c:53-58 | An empty window |
| `WeightWindow.Window.Get` | trivial/ring_buffer.c:37-43 | Returns the next slot and goes round the ring |
| `WeightWindow.Window.AddWeight` | trivial/ring_buffer.c:69-79 | The sum is that of the last weights, and full means as many as the length were added |
| `WeightWindow.Window.Average` | trivial/ring_buffer.c:81-83 | The sum of the last weights divided towards zero |

## Left out

- Sockets, epoll, signals, file descriptors, logging and formatting; sends, writes and descriptor passing succeed in full.
- The language demos and small utilities outside the files above.
- Posts from two threads at once: `tRunner::post` is one step, and posts happen after `start()`. Ids do not wrap, and counters of eventfds do not overflow.
- The clock never goes back, and the delay from building a task to posting it, and from the decision to re-arm to re-arming, is bounded by a parameter that may be zero.
- TimerTheorems.NoLostWakeup: speaks of runs whose re-armings are in time, because the wakeup is lost exactly when one is not, as `RearmExactly` shows.
- TimerRunner.Runner.Iterate: no other thread's step falls inside the call; the theorems about runs allow every interleaving.
- TaskRunner.Runner.RunBatch: no other thread's step falls inside the call; the theorems about runs allow every interleaving.
- Collector.Buffers.ConsumeOne: no other thread's step falls inside the call; the theorems about runs allow every interleaving.
- Order of execution in `TaskRunner`, which pushes and pops at the front.
- Delivery by `Listener::run`, which skips writing when small and medium notifications coalesce.
- The idle and busy lists of the coordinator.
- Forwarder.Server.FollowerQuit: reads the pid before it unlists the follower, where the source reads it from the erased node.
- `MsgCmd` and the dispatch on message types.
- Strlcpy.Copy: a source buffer ends at a word boundary, as the word loop may read to the end of a word that holds the terminator.
- Dns.NameDecode: names of one label or none, for which the source reads behind the terminator (`WalkExactly`).
- DnsReader.ReadName: names of one label or none, as it decodes in place with `name_decode`.
- DnsReader.ReadNameOlder: the empty name, for which the source writes before its buffer.
- DnsReader.Follow: label octets are non-zero and below 0xc0, which is necessary by `OctetWiseExactly`, and each pointer leads below the start of its segment, so that the loop ends.
- DnsReader.FollowOlder: the same two conditions.
- Dns.NameEncode: host names of 2^31 - 1 characters and more, whose length does not fit the `int` that holds it; the other DNS functions have the same bound.
- TreeIndex.ScanReverseExact: the assembler branches; the portable ones are modelled.
- WeightWindow.Window.AddWeight: `int` overflow of the sum.
- Base64.Encode: allocation failure.

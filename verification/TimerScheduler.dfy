/** The timer scheduler `tRunner` of socket/monitor/runner.cpp as a step system.
    One state holds what the poster threads, the runner thread and the listener
    loop share, together with the history the theorems speak about. A step
    carries every free choice (which of several earliest tasks the heap yields),
    so that a run is a sequence of steps and its outcome is a function of it. */
module TimerScheduler {
  import opened Notifier
  import opened TimerFd

  /** `kind` is the source's `type`, of which only the low byte counts. */
  datatype Task = Task(id: int, runat: real, duration: u32, kind: int) {
    predicate Repeated() { kind % 0x100 == 1 }
    predicate Short() { duration < LEAST_DURATION }
  }

  datatype Mode = Idle | Work | Terminated

  /** One drain of the heap: when it began, what was queued and cancelled then,
      and what has been popped into the batch or dropped so far. */
  datatype Drain = Drain(at: real, from: seq<Task>, barred: set<int>, batch: seq<Task>, dropped: seq<Task>) {
    predicate Ready(t: Task) { t.runat < at + LEAST_DURATION as real }
  }

  /** What the runner decided before it released the lock to re-arm. */
  datatype Plan = Wake | Arm(at: real, ms: u32)

  datatype Phase =
    | Waiting
    | Draining(drain: Drain)
    | Running(drain: Drain, next: nat)
    | Rearming(plan: Plan)
    | Stopped

  datatype State = State(
    clock: real,
    heap: seq<Task>,
    marks: set<int>,
    lastId: nat,
    timer: Descriptor,
    count: nat,
    mode: Mode,
    phase: Phase,
    relaying: nat,
    posted: seq<Task>,
    cancelled: set<int>,
    ran: seq<int>,
    retired: seq<int>)

  datatype Step =
    | Advance(t: real)
    | Expire
    | PollRead
    | PollNotify
    | Post(callable: bool, born: real, duration: u32, kind: int)
    | Cancel(id: int)
    | Stop
    | Retrieve
    | Pop(k: nat)
    | EndDrain
    | RunNext
    | Settle(k: nat)
    | Commit

  /** The state in which `start()` leaves the runner at instant `clock`. */
  function Init(clock: real): State {
    State(clock, [], {}, 0, Disarmed, 0, Idle, Waiting, 0, [], {}, [], [])
  }

  /* ---- the heap ---- */

  predicate Earliest(runat: real, heap: seq<Task>) {
    forall t :: t in heap ==> runat <= t.runat
  }

  /** Position k is one that `tasks_.top()` may be at. */
  predicate TopAt(heap: seq<Task>, k: nat) {
    k < |heap| && Earliest(heap[k].runat, heap)
  }

  function Without(heap: seq<Task>, k: nat): seq<Task>
    requires k < |heap|
  {
    heap[..k] + heap[k + 1..]
  }

  /** The conversion `unsigned(x)` of a non-negative double. */
  function Truncate(x: real): u32 {
    x.Floor % 0x1_0000_0000
  }

  /* ---- the steps ---- */

  /** The batch tasks that go back into the heap, due `now + duration`. */
  function Requeued(batch: seq<Task>, now: real): seq<Task> {
    if batch == [] then []
    else
      var t, rest := batch[|batch| - 1], Requeued(batch[..|batch| - 1], now);
      if t.Repeated() then rest + [t.(runat := now + t.duration as real)] else rest
  }

  /** The ids of the batch tasks that run once, which are disposed. */
  function Finished(batch: seq<Task>): seq<int> {
    if batch == [] then []
    else
      var t, rest := batch[|batch| - 1], Finished(batch[..|batch| - 1]);
      if t.Repeated() then rest else rest + [t.id]
  }

  function NextHeap(s: State): seq<Task>
    requires s.phase.Running?
  {
    s.heap + Requeued(s.phase.drain.batch, s.clock)
  }

  /** When a step can happen. `lag` bounds two delays: from building a task to
      posting it, and from the decision to re-arm to the re-arming. The heap
      lock keeps posts out of a drain. */
  predicate Enabled(lag: real, s: State, step: Step) {
    match step
    case Advance(t) => s.clock <= t && (s.phase.Rearming? && s.phase.plan.Arm? ==> t <= s.phase.plan.at + lag)
    case Expire => s.timer.Armed? && s.timer.at <= s.clock
    case PollRead => s.mode == Work
    case PollNotify => s.relaying > 0
    case Post(_, born, _, _) => born <= s.clock <= born + lag && !s.phase.Draining?
    case Cancel(_) => true
    case Stop => true
    case Retrieve => s.phase.Waiting? && s.count > 0
    case Pop(k) => s.phase.Draining? && TopAt(s.heap, k) && s.phase.drain.Ready(s.heap[k])
    case EndDrain => s.phase.Draining? && forall t :: t in s.heap ==> !s.phase.drain.Ready(t)
    case RunNext => s.phase.Running? && s.phase.next < |s.phase.drain.batch|
    case Settle(k) =>
      && s.phase.Running? && s.phase.next == |s.phase.drain.batch|
      && (NextHeap(s) != [] ==> TopAt(NextHeap(s), k))
    case Commit => s.phase.Rearming?
  }

  /** `tRunner::post`. */
  function ApplyPost(s: State, callable: bool, born: real, duration: u32, kind: int): State {
    if !callable then
      s.(count := s.count + 1)
    else
      var task := Task(s.lastId + 1, born + duration as real, duration, kind);
      var s1 := s.(lastId := task.id, marks := s.marks + {task.id},
                   heap := s.heap + [task], posted := s.posted + [task]);
      if duration < LEAST_DURATION then
        s1.(count := s.count + 1)
      else if s.mode == Idle then
        s1.(timer := ResetMs(duration, s.clock), mode := Work)
      else if Earliest(task.runat, s1.heap) then
        s1.(timer := ResetMs(duration, s.clock))
      else
        s1
  }

  /** One turn of the loop that empties the heap. */
  function ApplyPop(s: State, k: nat): State
    requires s.phase.Draining? && k < |s.heap|
  {
    var t := s.heap[k];
    var d := s.phase.drain;
    if t.id in s.marks then
      s.(heap := Without(s.heap, k), phase := Draining(d.(batch := d.batch + [t])))
    else
      s.(heap := Without(s.heap, k), phase := Draining(d.(dropped := d.dropped + [t])),
         retired := s.retired + [t.id])
  }

  /** From the second reading of the clock to the choice of the new deadline. */
  function ApplySettle(s: State, k: nat): State
    requires s.phase.Running? && (NextHeap(s) != [] ==> k < |NextHeap(s)|)
  {
    var done := Finished(s.phase.drain.batch);
    var s1 := s.(heap := NextHeap(s), retired := s.retired + done, marks := s.marks - (set id | id in done));
    if s1.heap == [] then
      s1.(timer := ResetMs(0, s.clock), mode := Idle, phase := Waiting)
    else if s1.heap[k].runat < s.clock + LEAST_DURATION as real then
      s1.(phase := Rearming(Wake))
    else
      s1.(phase := Rearming(Arm(s.clock, Truncate(s1.heap[k].runat - s.clock))))
  }

  function ApplyCommit(s: State): State
    requires s.phase.Rearming?
  {
    match s.phase.plan
    case Wake => s.(count := s.count + 1, phase := Waiting)
    case Arm(_, ms) => s.(timer := ResetMs(ms, s.clock), phase := Waiting)
  }

  function Apply(lag: real, s: State, step: Step): State
    requires Enabled(lag, s, step)
  {
    match step
    case Advance(t) => s.(clock := t)
    case Expire => s.(timer := Expired(s.timer.at))
    case PollRead => s.(timer := if s.timer.Expired? then Disarmed else s.timer, relaying := s.relaying + 1)
    case PollNotify => s.(relaying := s.relaying - 1, count := s.count + 1)
    case Post(callable, born, duration, kind) => ApplyPost(s, callable, born, duration, kind)
    case Cancel(id) =>
      if 0 < id < s.lastId then s.(marks := s.marks - {id}, cancelled := s.cancelled + {id}) else s
    case Stop => s.(count := s.count + NOTIFY_QUIT, mode := Terminated)
    case Retrieve =>
      s.(count := 0,
         phase := if s.count >= NOTIFY_QUIT then Stopped
                  else Draining(Drain(s.clock, s.heap, s.cancelled, [], [])))
    case Pop(k) => ApplyPop(s, k)
    case EndDrain => s.(phase := Running(s.phase.drain, 0))
    case RunNext =>
      s.(ran := s.ran + [s.phase.drain.batch[s.phase.next].id], phase := Running(s.phase.drain, s.phase.next + 1))
    case Settle(k) => ApplySettle(s, k)
    case Commit => ApplyCommit(s)
  }

  /* ---- runs ---- */

  predicate ValidRun(lag: real, s: State, steps: seq<Step>)
    decreases |steps|
  {
    steps != [] ==> Enabled(lag, s, steps[0]) && ValidRun(lag, Apply(lag, s, steps[0]), steps[1..])
  }

  function Exec(lag: real, s: State, steps: seq<Step>): State
    requires ValidRun(lag, s, steps)
    decreases |steps|
  {
    if steps == [] then s else Exec(lag, Apply(lag, s, steps[0]), steps[1..])
  }

  ghost predicate Reachable(lag: real, s: State) {
    exists clock: real, steps: seq<Step> :: ValidRun(lag, Init(clock), steps) && Exec(lag, Init(clock), steps) == s
  }

  lemma {:induction false} ExecAppend(lag: real, s: State, a: seq<Step>, b: seq<Step>)
    requires ValidRun(lag, s, a)
    requires ValidRun(lag, Exec(lag, s, a), b)
    ensures ValidRun(lag, s, a + b)
    ensures Exec(lag, s, a + b) == Exec(lag, Exec(lag, s, a), b)
    decreases |a|
  {
    if a == [] {
      assert a + b == b;
    } else {
      assert (a + b)[0] == a[0] && (a + b)[1..] == a[1..] + b;
      ExecAppend(lag, Apply(lag, s, a[0]), a[1..], b);
    }
  }
}

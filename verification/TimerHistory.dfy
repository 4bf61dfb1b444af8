/** What a run of the timer scheduler owes to its steps alone: which tasks there
    are and when they are due, who was cancelled, what the counter shows, and how
    the timer is set. */
module TimerHistory {
  import opened Notifier
  import opened TimerFd
  import opened TimerScheduler
  import opened TimerTheorems
  import opened Tally

  /* ---- the steps of a run ---- */

  /** The task that a step posts, when n were posted before. */
  function PostedBy(step: Step, n: nat): seq<Task> {
    if step.Post? && step.callable then
      [Task(n + 1, step.born + step.duration as real, step.duration, step.kind)]
    else []
  }

  /** The tasks of the accepted posts, in order. */
  function Accepted(steps: seq<Step>, n: nat): seq<Task>
    decreases |steps|
  {
    if steps == [] then []
    else PostedBy(steps[0], n) + Accepted(steps[1..], n + |PostedBy(steps[0], n)|)
  }

  /** The id that a step cancels: not the newest one. */
  function CancelledBy(step: Step, n: nat): set<int> {
    if step.Cancel? && 0 < step.id < n then {step.id} else {}
  }

  function Cancelled(steps: seq<Step>, n: nat): set<int>
    decreases |steps|
  {
    if steps == [] then {}
    else CancelledBy(steps[0], n) + Cancelled(steps[1..], n + |PostedBy(steps[0], n)|)
  }

  /** The instant last advanced to. */
  function ClockAfter(clock: real, steps: seq<Step>): real
    decreases |steps|
  {
    if steps == [] then clock
    else ClockAfter(if steps[0].Advance? then steps[0].t else clock, steps[1..])
  }

  lemma StepHistory(lag: real, s: State, step: Step)
    requires Enabled(lag, s, step)
    ensures var s' := Apply(lag, s, step);
            && s'.posted == s.posted + PostedBy(step, s.lastId)
            && s'.lastId == s.lastId + |PostedBy(step, s.lastId)|
            && s'.cancelled == s.cancelled + CancelledBy(step, s.lastId)
            && s'.clock == if step.Advance? then step.t else s.clock
  {
    hide ResetMs, Requeued, Finished, Without, Truncate, NextHeap;
    assert s.posted + [] == s.posted;
  }

  lemma {:induction false} HistoryFrom(lag: real, s: State, steps: seq<Step>)
    requires ValidRun(lag, s, steps)
    ensures var e := Exec(lag, s, steps);
            && e.posted == s.posted + Accepted(steps, s.lastId)
            && e.lastId == s.lastId + |Accepted(steps, s.lastId)|
            && e.cancelled == s.cancelled + Cancelled(steps, s.lastId)
            && e.clock == ClockAfter(s.clock, steps)
    decreases |steps|
  {
    hide Apply, Enabled, PostedBy, CancelledBy;
    if steps == [] {
      assert s.posted + [] == s.posted;
    } else {
      StepHistory(lag, s, steps[0]);
      HistoryFrom(lag, Apply(lag, s, steps[0]), steps[1..]);
      assert s.posted + Accepted(steps, s.lastId) ==
             (s.posted + PostedBy(steps[0], s.lastId)) + Accepted(steps[1..], s.lastId + |PostedBy(steps[0], s.lastId)|);
    }
  }

  /** The posted tasks are exactly those of the callable posts: the i-th has id
      i + 1, is due its duration after it was built, and keeps its kind. */
  lemma PostedExactly(lag: real, clock: real, steps: seq<Step>)
    requires ValidRun(lag, Init(clock), steps)
    ensures var s := Exec(lag, Init(clock), steps);
            && s.posted == Accepted(steps, 0) && s.lastId == |s.posted|
            && s.cancelled == Cancelled(steps, 0)
            && s.clock == ClockAfter(clock, steps)
  {
    hide Exec, Accepted, Cancelled, ClockAfter;
    HistoryFrom(lag, Init(clock), steps);
    assert [] + Accepted(steps, 0) == Accepted(steps, 0);
  }

  /* ---- due times and repetition ---- */

  /** A task that has not run is due when it was posted to be. */
  predicate DueAsPosted(s: State, t: Task) {
    1 <= t.id <= |s.posted| && (Times(s.ran, t.id) == 0 ==> t.runat == s.posted[t.id - 1].runat)
  }

  ghost predicate FirstDue(s: State) {
    && (forall t :: t in s.heap ==> DueAsPosted(s, t))
    && (forall t :: t in Active(s) ==> DueAsPosted(s, t))
  }

  /** A repeated task is retired only if it was cancelled. */
  predicate StayedUnless(s: State, id: int) {
    1 <= id <= |s.posted| && (s.posted[id - 1].Repeated() ==> id in s.cancelled)
  }

  ghost predicate RepeatedStay(s: State) {
    forall id :: id in s.retired ==> StayedUnless(s, id)
  }

  lemma DuePost(s: State, callable: bool, born: real, duration: u32, kind: int)
    requires AllGenuine(s) && FirstDue(s) && RepeatedStay(s)
    ensures var s' := ApplyPost(s, callable, born, duration, kind); FirstDue(s') && RepeatedStay(s')
  {
    hide Times, ResetMs;
    var s' := ApplyPost(s, callable, born, duration, kind);
    if callable {
      var task := Task(s.lastId + 1, born + duration as real, duration, kind);
      assert forall t :: t in s'.heap ==> t in s.heap || t == task;
      assert s'.posted == s.posted + [task];
      forall t | t in s.heap || t in Active(s)
        ensures DueAsPosted(s', t)
      {
        assert DueAsPosted(s, t);
      }
      forall id | id in s.retired
        ensures StayedUnless(s', id)
      {
        assert StayedUnless(s, id);
      }
    } else {
      DueFrame(s, s');
    }
  }

  lemma DuePop(s: State, k: nat)
    requires s.phase.Draining? && k < |s.heap| && AllGenuine(s) && Marked(s) && FirstDue(s) && RepeatedStay(s)
    ensures var s' := ApplyPop(s, k); FirstDue(s') && RepeatedStay(s')
  {
    var s', top := ApplyPop(s, k), s.heap[k];
    CountMember(s.heap, top);
    assert DueAsPosted(s, top) && Genuine(s, top);
    hide Times, Count;
    assert top.id !in s.marks ==> top.id in s.cancelled;
    forall t | t in s.heap || t in Active(s)
      ensures DueAsPosted(s', t)
    {
      assert DueAsPosted(s, t);
    }
    assert forall t :: t in s'.heap ==> t in s.heap;
    forall id | id in s'.retired
      ensures StayedUnless(s', id)
    {
      assert id in s.retired ==> StayedUnless(s, id);
    }
  }

  lemma DueSettle(s: State, k: nat)
    requires s.phase.Running? && s.phase.next == |s.phase.drain.batch|
    requires NextHeap(s) != [] ==> k < |NextHeap(s)|
    requires AllGenuine(s) && RunsFit(s) && FirstDue(s) && RepeatedStay(s)
    ensures var s' := ApplySettle(s, k); FirstDue(s') && RepeatedStay(s')
  {
    hide Times, ResetMs, Requeued, Finished, Truncate;
    var s', batch := ApplySettle(s, k), s.phase.drain.batch;
    forall t | t in s'.heap
      ensures DueAsPosted(s', t)
    {
      if t in s.heap {
        assert DueAsPosted(s, t);
      } else {
        var j := RequeuedFrom(batch, s.clock, t);
        assert RanAtLeastOnce(s, batch[j]) && Genuine(s, batch[j]);
      }
    }
    forall id | id in s'.retired
      ensures StayedUnless(s', id)
    {
      if id in s.retired {
        assert StayedUnless(s, id);
      } else {
        var j := FinishedFrom(batch, id);
        assert Genuine(s, batch[j]);
      }
    }
  }

  lemma DueRunNext(s: State)
    requires s.phase.Running? && s.phase.next < |s.phase.drain.batch| && FirstDue(s) && RepeatedStay(s)
    ensures var s' := s.(ran := s.ran + [s.phase.drain.batch[s.phase.next].id],
                         phase := Running(s.phase.drain, s.phase.next + 1));
            FirstDue(s') && RepeatedStay(s')
  {
    var x := s.phase.drain.batch[s.phase.next].id;
    var s' := s.(ran := s.ran + [x], phase := Running(s.phase.drain, s.phase.next + 1));
    hide Times;
    forall t | t in s.heap || t in Active(s)
      ensures DueAsPosted(s', t)
    {
      assert DueAsPosted(s, t);
      TimesPush(s.ran, x, t.id);
    }
    forall id | id in s.retired
      ensures StayedUnless(s', id)
    {
      assert StayedUnless(s, id);
    }
  }

  lemma DueFrame(s: State, s': State)
    requires FirstDue(s) && RepeatedStay(s)
    requires s'.heap == s.heap && s'.posted == s.posted && s'.ran == s.ran && s'.retired == s.retired
    requires s.cancelled <= s'.cancelled && forall t :: t in Active(s') ==> t in Active(s)
    ensures FirstDue(s') && RepeatedStay(s')
  {
    hide Times;
    forall t | t in s.heap || t in Active(s)
      ensures DueAsPosted(s', t)
    {
      assert DueAsPosted(s, t);
    }
    forall id | id in s.retired
      ensures StayedUnless(s', id)
    {
      assert StayedUnless(s, id);
    }
  }

  lemma DueKept(lag: real, s: State, step: Step)
    requires Enabled(lag, s, step) && Inv(s) && FirstDue(s) && RepeatedStay(s)
    ensures var s' := Apply(lag, s, step); FirstDue(s') && RepeatedStay(s')
  {
    hide FirstDue, RepeatedStay, Marked, AllGenuine, RunsFit, ApplyPop, ApplySettle, ApplyPost, Requeued, ResetMs;
    if step.Post? {
      DuePost(s, step.callable, step.born, step.duration, step.kind);
    } else if step.Pop? {
      DuePop(s, step.k);
    } else if step.Settle? {
      DueSettle(s, step.k);
    } else if step.RunNext? {
      DueRunNext(s);
    } else {
      DueFrame(s, Apply(lag, s, step));
    }
  }

  lemma {:induction false} DueHolds(lag: real, s: State, steps: seq<Step>)
    requires ValidRun(lag, s, steps) && Inv(s) && FirstDue(s) && RepeatedStay(s)
    ensures var e := Exec(lag, s, steps); FirstDue(e) && RepeatedStay(e)
    decreases |steps|
  {
    hide FirstDue, RepeatedStay, Inv, Apply, Enabled;
    if steps != [] {
      DueKept(lag, s, steps[0]);
      InvKept(lag, s, steps[0]);
      DueHolds(lag, Apply(lag, s, steps[0]), steps[1..]);
    }
  }

  lemma DueReached(lag: real, clock: real, steps: seq<Step>)
    requires ValidRun(lag, Init(clock), steps)
    ensures var s := Exec(lag, Init(clock), steps); Inv(s) && FirstDue(s) && RepeatedStay(s)
  {
    hide Exec, ValidRun;
    assert Inv(Init(clock)) && FirstDue(Init(clock)) && RepeatedStay(Init(clock));
    InvHolds(lag, Init(clock), steps);
    DueHolds(lag, Init(clock), steps);
  }

  /** A queued task that has not run is due as its post said; whether it has or
      not, it has the duration and kind of its post. */
  lemma QueuedAsPosted(lag: real, clock: real, steps: seq<Step>, t: Task)
    requires ValidRun(lag, Init(clock), steps)
    requires var s := Exec(lag, Init(clock), steps); t in s.heap || t in Active(s)
    ensures var s, all := Exec(lag, Init(clock), steps), Accepted(steps, 0);
            && 1 <= t.id <= |all| && t.duration == all[t.id - 1].duration && t.kind == all[t.id - 1].kind
            && (Times(s.ran, t.id) == 0 ==> t.runat == all[t.id - 1].runat)
  {
    hide Exec, ValidRun, Accepted, Times;
    DueReached(lag, clock, steps);
    PostedExactly(lag, clock, steps);
    var s := Exec(lag, Init(clock), steps);
    assert Genuine(s, t) && DueAsPosted(s, t);
  }

  /** A repeated task stays in the system unless it is cancelled. */
  lemma RepeatedStays(lag: real, clock: real, steps: seq<Step>, id: int)
    requires ValidRun(lag, Init(clock), steps)
    requires 1 <= id <= |Accepted(steps, 0)| && Accepted(steps, 0)[id - 1].kind % 0x100 == 1
    requires id !in Cancelled(steps, 0)
    ensures var s := Exec(lag, Init(clock), steps);
            id !in s.retired && Count(s.heap, id) + Count(Active(s), id) == 1
  {
    hide Exec, ValidRun, Accepted, Cancelled, Count;
    DueReached(lag, clock, steps);
    PostedExactly(lag, clock, steps);
    var s := Exec(lag, Init(clock), steps);
    assert id in s.retired ==> StayedUnless(s, id);
    TimesMember(s.retired, id);
    assert Places(s, id) == 1;
  }

  lemma {:induction false} RequeuedHas(batch: seq<Task>, now: real, j: nat)
    requires j < |batch| && batch[j].Repeated()
    ensures batch[j].(runat := now + batch[j].duration as real) in Requeued(batch, now)
    decreases |batch|
  {
    if j < |batch| - 1 {
      RequeuedHas(batch[..|batch| - 1], now, j);
    }
  }

  lemma {:induction false} FinishedHas(batch: seq<Task>, j: nat)
    requires j < |batch| && !batch[j].Repeated()
    ensures batch[j].id in Finished(batch)
    decreases |batch|
  {
    if j < |batch| - 1 {
      FinishedHas(batch[..|batch| - 1], j);
    }
  }

  /** Settling queues every repeated task of the batch again, due its duration
      from now, and retires every other one. */
  lemma SettleRequeues(lag: real, s: State, k: nat, j: nat)
    requires Enabled(lag, s, Settle(k)) && j < |s.phase.drain.batch|
    ensures var s', t := Apply(lag, s, Settle(k)), s.phase.drain.batch[j];
            if t.kind % 0x100 == 1 then t.(runat := s.clock + t.duration as real) in s'.heap
            else t.id in s'.retired && t.id !in s'.marks
  {
    hide Requeued, Finished, ResetMs, Truncate;
    var t := s.phase.drain.batch[j];
    if t.Repeated() {
      RequeuedHas(s.phase.drain.batch, s.clock, j);
    } else {
      FinishedHas(s.phase.drain.batch, j);
    }
  }

  /* ---- how the timer is set ---- */

  /** The whole milliseconds left do not wrap, and lose less than one. */
  lemma TruncateExact(x: real)
    requires 0.0 <= x < 4294967296.0
    ensures Truncate(x) as real <= x < Truncate(x) as real + 1.0
  {
    assert 0 <= x.Floor < 0x1_0000_0000;
  }

  /** The plan made for a heap at instant `clock`: wake at once, or wait for the
      earliest due time, to the millisecond. */
  ghost predicate PlanFits(heap: seq<Task>, clock: real, plan: Plan) {
    match plan
    case Wake => exists t :: t in heap && t.runat < clock + 10.0
    case Arm(at, ms) =>
      && at == clock
      && (forall t :: t in heap ==> clock + 10.0 <= t.runat && ms as real <= t.runat - clock)
      && (exists t :: t in heap && t.runat - clock < ms as real + 1.0)
  }

  lemma PlanMade(heap: seq<Task>, clock: real, k: nat)
    requires TopAt(heap, k) && heap[k].runat <= clock + heap[k].duration as real
    ensures heap[k].runat < clock + 10.0 ==> PlanFits(heap, clock, Wake)
    ensures heap[k].runat >= clock + 10.0 ==> PlanFits(heap, clock, Arm(clock, Truncate(heap[k].runat - clock)))
  {
    hide Truncate;
    assert heap[k] in heap;
    if heap[k].runat >= clock + 10.0 {
      TruncateExact(heap[k].runat - clock);
    }
  }

  /** Settling with nothing queued goes idle and disarms the timer. Otherwise the
      runner wakes itself exactly if a queued task is due within the least
      duration, and else plans the earliest due time, to the millisecond. */
  lemma SettleExactly(lag: real, s: State, k: nat)
    requires Reachable(lag, s) && Enabled(lag, s, Settle(k))
    ensures var s' := Apply(lag, s, Settle(k));
            if s'.heap == [] then s'.phase == Waiting && s'.mode == Idle && s'.timer == Disarmed
            else s'.mode == s.mode && s'.timer == s.timer && s'.phase.Rearming? && PlanFits(s'.heap, s.clock, s'.phase.plan)
  {
    hide Requeued, Finished, ResetMs, Truncate, Reachable, PlanFits, Conserved, Marked, RunsFit, DrainSound;
    ReachableInv(lag, s);
    GenuineSettle(s, k);
    ResetMsExact(0, s.clock);
    var s' := ApplySettle(s, k);
    if s'.heap != [] {
      assert Genuine(s', s'.heap[k]);
      PlanMade(s'.heap, s.clock, k);
    }
  }

  /** A post arms the timer for exactly its duration if the task is long and the
      runner is idle or nothing queued is due sooner, and else leaves it alone; a
      short or empty post notifies. */
  lemma PostArmsExactly(lag: real, s: State, callable: bool, born: real, duration: u32, kind: int)
    requires Enabled(lag, s, Post(callable, born, duration, kind))
    ensures var s' := Apply(lag, s, Post(callable, born, duration, kind));
            var first := forall t :: t in s.heap ==> born + duration as real <= t.runat;
            && s'.timer == (if callable && duration >= 10 && (s.mode == Idle || first)
                            then Armed(s.clock + duration as real) else s.timer)
            && s'.mode == (if callable && duration >= 10 && s.mode == Idle then Work else s.mode)
            && s'.count == (if callable && duration >= 10 then s.count else s.count + 1)
            && s'.heap == s.heap + PostedBy(Post(callable, born, duration, kind), s.lastId)
            && s'.phase == s.phase
  {
    ResetMsExact(duration, s.clock);
    hide ResetMs;
    if callable {
      var task := Task(s.lastId + 1, born + duration as real, duration, kind);
      assert forall t :: t in s.heap + [task] <==> t in s.heap || t == task;
    } else {
      assert s.heap + [] == s.heap;
    }
  }

  /** Re-arming notifies, or arms the timer for exactly the planned time. */
  lemma RearmArmsExactly(lag: real, s: State)
    requires s.phase.Rearming?
    ensures var s' := Apply(lag, s, Commit);
            && s'.phase == Waiting && s'.heap == s.heap && s'.mode == s.mode
            && (s.phase.plan == Wake ==> s'.count == s.count + 1 && s'.timer == s.timer)
            && (s.phase.plan.Arm? ==>
                  s'.count == s.count &&
                  s'.timer == if s.phase.plan.ms == 0 then Disarmed else Armed(s.clock + s.phase.plan.ms as real))
  {
    if s.phase.plan.Arm? {
      ResetMsExact(s.phase.plan.ms, s.clock);
      hide ResetMs;
    }
  }

  /* ---- notifications ---- */

  /** What a step adds to the eventfd. */
  function NotesBy(s: State, step: Step): nat {
    match step
    case Post(callable, _, duration, _) => if callable && duration >= 10 then 0 else 1
    case PollNotify => 1
    case Stop => 0x1_ffff_ffff
    case Commit => if s.phase == Rearming(Wake) then 1 else 0
    case _ => 0
  }

  /** The sum of the notifications since the last retrieval. */
  ghost function NotesSince(lag: real, s: State, steps: seq<Step>, n: nat): nat
    requires ValidRun(lag, s, steps)
    decreases |steps|
  {
    if steps == [] then n
    else NotesSince(lag, Apply(lag, s, steps[0]), steps[1..], if steps[0].Retrieve? then 0 else n + NotesBy(s, steps[0]))
  }

  lemma NotesStep(lag: real, s: State, step: Step)
    requires Enabled(lag, s, step)
    ensures Apply(lag, s, step).count == if step.Retrieve? then 0 else s.count + NotesBy(s, step)
  {
    hide ResetMs, Requeued, Finished, Without, Truncate, NextHeap;
  }

  /** The counter shows exactly the notifications since it was last read. */
  lemma {:induction false} CounterExactly(lag: real, s: State, steps: seq<Step>)
    requires ValidRun(lag, s, steps)
    ensures Exec(lag, s, steps).count == NotesSince(lag, s, steps, s.count)
    decreases |steps|
  {
    hide Apply, Enabled, NotesBy;
    if steps != [] {
      NotesStep(lag, s, steps[0]);
      CounterExactly(lag, Apply(lag, s, steps[0]), steps[1..]);
    }
  }

  /** What the listener does to the timer and the relays. */
  lemma ListenerStep(lag: real, s: State, step: Step)
    requires Enabled(lag, s, step)
    ensures var s' := Apply(lag, s, step);
            && s'.relaying + (if step.PollNotify? then 1 else 0) == s.relaying + (if step.PollRead? then 1 else 0)
            && (s'.timer.Expired? <==> step.Expire? || (s.timer.Expired? && s'.timer == s.timer))
            && (step.PollRead? ==> !s'.timer.Expired?)
            && (step.Expire? ==> !s.timer.Expired?)
  {
    hide Requeued, Finished, Without, Truncate, NextHeap;
  }

  function Relays(steps: seq<Step>): int
    decreases |steps|
  {
    if steps == [] then 0
    else Relays(steps[1..]) + if steps[0].PollRead? then 1 else if steps[0].PollNotify? then -1 else 0
  }

  /** Every timer read by the listener is relayed once: those not yet relayed are
      the reads less the notifications. */
  lemma {:induction false} RelaysExactly(lag: real, s: State, steps: seq<Step>)
    requires ValidRun(lag, s, steps)
    ensures Exec(lag, s, steps).relaying == s.relaying + Relays(steps)
    decreases |steps|
  {
    if steps != [] {
      ListenerStep(lag, s, steps[0]);
      hide Apply, Enabled;
      RelaysExactly(lag, Apply(lag, s, steps[0]), steps[1..]);
    }
  }

  function Expirations(steps: seq<Step>): nat
    decreases |steps|
  {
    if steps == [] then 0 else Expirations(steps[1..]) + if steps[0].Expire? then 1 else 0
  }

  /** How often the listener read a timer that had expired. */
  ghost function ExpiredReads(lag: real, s: State, steps: seq<Step>): nat
    requires ValidRun(lag, s, steps)
    decreases |steps|
  {
    if steps == [] then 0
    else ExpiredReads(lag, Apply(lag, s, steps[0]), steps[1..]) + if steps[0].PollRead? && s.timer.Expired? then 1 else 0
  }

  function Unread(s: State): nat { if s.timer.Expired? then 1 else 0 }

  /** No expiration is read twice. */
  lemma {:induction false} ExpirationsReadOnce(lag: real, s: State, steps: seq<Step>)
    requires ValidRun(lag, s, steps)
    ensures ExpiredReads(lag, s, steps) + Unread(Exec(lag, s, steps)) <= Expirations(steps) + Unread(s)
    decreases |steps|
  {
    if steps != [] {
      ListenerStep(lag, s, steps[0]);
      hide Apply, Enabled;
      ExpirationsReadOnce(lag, Apply(lag, s, steps[0]), steps[1..]);
    }
  }
}

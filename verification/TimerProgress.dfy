/** The timer scheduler gets on: every live queued task can start in time, by the
    steps of the listener and the runner alone. */
module TimerProgress {
  import opened Notifier
  import opened TimerFd
  import opened TimerScheduler
  import opened TimerTheorems
  import opened TimerRunner
  import opened Tally

  /** A position at which the heap may yield its top. */
  lemma {:induction false} TopExists(heap: seq<Task>) returns (k: nat)
    requires heap != []
    ensures TopAt(heap, k)
    decreases |heap|
  {
    var e := |heap| - 1;
    if e == 0 {
      k := 0;
    } else {
      var j := TopExists(heap[..e]);
      k := if heap[j].runat <= heap[e].runat then j else e;
      assert forall t :: t in heap ==> t in heap[..e] || t == heap[e];
      assert heap[..e][j] == heap[j];
    }
  }

  lemma Reaches(lag: real, s: State, steps: seq<Step>, mid: State, step: Step, end: State)
    requires Leads(lag, s, steps, mid) && Enabled(lag, mid, step) && Apply(lag, mid, step) == end
    ensures Leads(lag, s, steps + [step], end)
  {
    hide Enabled, Apply, Leads;
    LeadsTo(lag, s, steps, mid, step);
  }

  /* ---- draining and running ---- */

  lemma CanPop(lag: real, s: State, k: nat)
    requires s.phase.Draining? && TopAt(s.heap, k) && s.phase.drain.Ready(s.heap[k])
    ensures Enabled(lag, s, Pop(k)) && Apply(lag, s, Pop(k)) == ApplyPop(s, k)
  {
  }

  lemma CanEndDrain(lag: real, s: State)
    requires s.phase.Draining? && forall t :: t in s.heap ==> !s.phase.drain.Ready(t)
    ensures Enabled(lag, s, EndDrain) && Apply(lag, s, EndDrain) == s.(phase := Running(s.phase.drain, 0))
  {
  }

  lemma PopKeepsTask(s: State, k: nat, t: Task)
    requires s.phase.Draining? && k < |s.heap| && t.id in s.marks && (t in s.heap || t in s.phase.drain.batch)
    ensures var s' := ApplyPop(s, k);
            && (t in s'.heap || t in s'.phase.drain.batch)
            && |s'.heap| < |s.heap| && s'.marks == s.marks && s'.ran == s.ran && s'.clock == s.clock
            && s'.phase.Draining? && s'.phase.drain.at == s.phase.drain.at
  {
    if t in s.heap {
      var j :| 0 <= j < |s.heap| && s.heap[j] == t;
      assert j < k ==> Without(s.heap, k)[j] == t;
      assert j > k ==> Without(s.heap, k)[j - 1] == t;
    }
  }

  /** A drain can be completed, and then the batch holds every marked task that
      was due. */
  lemma {:induction false} DrainRuns(lag: real, s: State, t: Task) returns (steps: seq<Step>, end: State)
    requires s.phase.Draining? && s.phase.drain.Ready(t) && t.id in s.marks && (t in s.heap || t in s.phase.drain.batch)
    ensures Leads(lag, s, steps, end)
    ensures end.phase.Running? && end.phase.next == 0 && t in end.phase.drain.batch
    ensures end.ran == s.ran && end.clock == s.clock
    decreases |s.heap|
  {
    hide Leads, Enabled, Apply, ApplyPop;
    LeadsNowhere(lag, s);
    if s.heap != [] {
      var k := TopExists(s.heap);
      if s.phase.drain.Ready(s.heap[k]) {
        CanPop(lag, s, k);
        PopKeepsTask(s, k, t);
        var s' := ApplyPop(s, k);
        var rest;
        rest, end := DrainRuns(lag, s', t);
        Reaches(lag, s, [], s, Pop(k), s');
        LeadsOn(lag, s, [] + [Pop(k)], s', rest, end);
        steps := [] + [Pop(k)] + rest;
        return;
      }
    }
    end := s.(phase := Running(s.phase.drain, 0));
    CanEndDrain(lag, s);
    Reaches(lag, s, [], s, EndDrain, end);
    steps := [] + [EndDrain];
  }

  lemma CanRunNext(lag: real, s: State)
    requires s.phase.Running? && s.phase.next < |s.phase.drain.batch|
    ensures Enabled(lag, s, RunNext)
    ensures Apply(lag, s, RunNext) ==
            s.(ran := s.ran + [s.phase.drain.batch[s.phase.next].id], phase := Running(s.phase.drain, s.phase.next + 1))
  {
  }

  /** The batch can be run up to and with its j-th task. */
  lemma {:induction false} BatchRuns(lag: real, s: State, j: nat) returns (steps: seq<Step>, end: State)
    requires s.phase.Running? && s.phase.next <= j < |s.phase.drain.batch|
    ensures Leads(lag, s, steps, end) && end.clock == s.clock
    ensures s.ran < end.ran && end.ran[|end.ran| - 1] == s.phase.drain.batch[j].id
    decreases j - s.phase.next
  {
    hide Leads, Enabled, Apply;
    LeadsNowhere(lag, s);
    CanRunNext(lag, s);
    var s' := Apply(lag, s, RunNext);
    Reaches(lag, s, [], s, RunNext, s');
    if j == s.phase.next {
      steps, end := [] + [RunNext], s';
    } else {
      var rest;
      rest, end := BatchRuns(lag, s', j);
      LeadsOn(lag, s, [] + [RunNext], s', rest, end);
      steps := [] + [RunNext] + rest;
    }
  }

  /* ---- getting the runner going ---- */

  /** The same tasks, marks and runs, on a runner that still waits. */
  predicate Same(s: State, s': State) {
    s'.heap == s.heap && s'.marks == s.marks && s'.ran == s.ran && s'.phase == s.phase && s'.clock == s.clock
  }

  /** With a timer that covers the heap and has come due, the listener reads and
      relays it. */
  lemma TimerRelayed(lag: real, s: State) returns (steps: seq<Step>, end: State)
    requires s.mode == Work && s.count == 0
    requires s.timer.Expired? || (s.timer.Armed? && s.timer.at <= s.clock)
    ensures Leads(lag, s, steps, end) && Same(s, end) && end.count == 1
  {
    hide Leads;
    LeadsNowhere(lag, s);
    var s1 := if s.timer.Armed? then s.(timer := Expired(s.timer.at)) else s;
    steps := [];
    if s.timer.Armed? {
      Reaches(lag, s, [], s, Expire, s1);
      steps := [] + [Expire];
    }
    var s2 := s1.(timer := Disarmed, relaying := s1.relaying + 1);
    Reaches(lag, s, steps, s1, PollRead, s2);
    steps := steps + [PollRead];
    end := s2.(relaying := s1.relaying, count := 1);
    Reaches(lag, s, steps, s2, PollNotify, end);
    steps := steps + [PollNotify];
  }

  /** A runner with a wakeup under way can be notified. */
  lemma Notified(lag: real, s: State) returns (steps: seq<Step>, end: State)
    requires s.count < NOTIFY_QUIT
    requires || s.count > 0 || s.relaying > 0
             || (s.mode == Work && (s.timer.Expired? || (s.timer.Armed? && s.timer.at <= s.clock)))
    ensures Leads(lag, s, steps, end) && Same(s, end) && 0 < end.count < NOTIFY_QUIT
  {
    hide Leads;
    LeadsNowhere(lag, s);
    if s.count > 0 {
      steps, end := [], s;
    } else if s.relaying > 0 {
      end := s.(relaying := s.relaying - 1, count := 1);
      Reaches(lag, s, [], s, PollNotify, end);
      steps := [] + [PollNotify];
    } else {
      steps, end := TimerRelayed(lag, s);
    }
  }

  lemma CanRetrieve(lag: real, s: State)
    requires s.phase.Waiting? && 0 < s.count < NOTIFY_QUIT
    ensures Enabled(lag, s, Retrieve)
    ensures Apply(lag, s, Retrieve) == s.(count := 0, phase := Draining(Drain(s.clock, s.heap, s.cancelled, [], [])))
  {
  }

  /** From a notified runner, a due and marked task can be drained and started. */
  lemma NotifiedStarts(lag: real, s: State, t: Task) returns (steps: seq<Step>, end: State)
    requires s.phase.Waiting? && 0 < s.count < NOTIFY_QUIT
    requires t in s.heap && t.id in s.marks && t.runat < s.clock + 10.0
    ensures Leads(lag, s, steps, end) && end.clock == s.clock
    ensures s.ran < end.ran && end.ran[|end.ran| - 1] == t.id
  {
    hide Leads, Enabled, Apply;
    LeadsNowhere(lag, s);
    CanRetrieve(lag, s);
    var s1 := Apply(lag, s, Retrieve);
    Reaches(lag, s, [], s, Retrieve, s1);
    var a, s2 := DrainRuns(lag, s1, t);
    LeadsOn(lag, s, [] + [Retrieve], s1, a, s2);
    var j :| 0 <= j < |s2.phase.drain.batch| && s2.phase.drain.batch[j] == t;
    var b;
    b, end := BatchRuns(lag, s2, j);
    LeadsOn(lag, s, [] + [Retrieve] + a, s2, b, end);
    steps := [] + [Retrieve] + a + b;
  }

  function Later(a: real, b: real): real { if a <= b then b else a }

  /** Every live queued task can start no later than the lag after it is due, or
      at once if that has passed, without any further post. */
  lemma LiveTaskCanStart(lag: real, s: State, t: Task) returns (steps: seq<Step>, end: State)
    requires 0.0 <= lag && ReachedInTime(lag, s) && s.phase.Waiting? && s.count < NOTIFY_QUIT
    requires t in s.heap && t.id !in s.cancelled
    ensures ValidRun(lag, s, steps) && Exec(lag, s, steps) == end
    ensures s.ran < end.ran && end.ran[|end.ran| - 1] == t.id
    ensures end.clock == Later(s.clock, t.runat + lag)
  {
    ReachedInTimeWakes(lag, s);
    ReachableInv(lag, s);
    CountMember(s.heap, t);
    assert t.id in s.marks;
    assert QuitPending(s);
    hide ReachedInTime, Reachable, Inv, Count;
    var s1 := s.(clock := Later(s.clock, t.runat + lag));
    LeadsNowhere(lag, s);
    CanAdvance(lag, s, s1.clock);
    Reaches(lag, s, [], s, Advance(s1.clock), s1);
    hide Leads;
    var a, s2 := Notified(lag, s1);
    LeadsOn(lag, s, [] + [Advance(s1.clock)], s1, a, s2);
    var b;
    b, end := NotifiedStarts(lag, s2, t);
    LeadsOn(lag, s, [] + [Advance(s1.clock)] + a, s2, b, end);
    steps := [] + [Advance(s1.clock)] + a + b;
    LeadsMeans(lag, s, steps, end);
  }

  lemma LeadsMeans(lag: real, s: State, steps: seq<Step>, end: State)
    requires Leads(lag, s, steps, end)
    ensures ValidRun(lag, s, steps) && Exec(lag, s, steps) == end
  {
  }
}

/** `tRunner` of socket/monitor/runner.cpp in its own form: an object whose
    methods update the heap, the marks, the timer and the eventfd counter. Each
    method is proved to take the step system from its old state to its new one,
    so everything proved of all runs holds of this object. */
module TimerRunner {
  import opened Notifier
  import opened TimerFd
  import opened TimerScheduler

  lemma RunSnoc(lag: real, s: State, steps: seq<Step>, step: Step)
    requires ValidRun(lag, s, steps) && Enabled(lag, Exec(lag, s, steps), step)
    ensures ValidRun(lag, s, steps + [step])
    ensures Exec(lag, s, steps + [step]) == Apply(lag, Exec(lag, s, steps), step)
  {
    assert [step][1..] == [];
    ExecAppend(lag, s, steps, [step]);
  }

  /** The steps lead from one state to the other. */
  ghost predicate Leads(lag: real, s: State, steps: seq<Step>, s': State) {
    ValidRun(lag, s, steps) && Exec(lag, s, steps) == s'
  }

  lemma LeadsOn(lag: real, s: State, a: seq<Step>, s': State, b: seq<Step>, s'': State)
    requires Leads(lag, s, a, s') && Leads(lag, s', b, s'')
    ensures Leads(lag, s, a + b, s'')
  {
    ExecAppend(lag, s, a, b);
  }

  lemma LeadsNowhere(lag: real, s: State)
    ensures Leads(lag, s, [], s)
  {
  }

  lemma LeadsTo(lag: real, s: State, steps: seq<Step>, mid: State, step: Step)
    requires Leads(lag, s, steps, mid) && Enabled(lag, mid, step)
    ensures Leads(lag, s, steps + [step], Apply(lag, mid, step))
  {
    hide Enabled, Apply;
    RunSnoc(lag, s, steps, step);
  }

  lemma CanAdvance(lag: real, s: State, t: real)
    requires s.clock <= t && !s.phase.Rearming?
    ensures Enabled(lag, s, Advance(t)) && Apply(lag, s, Advance(t)) == s.(clock := t)
  {
  }

  lemma CanCommit(lag: real, s: State)
    requires s.phase.Rearming?
    ensures Enabled(lag, s, Commit)
  {
  }

  method Top(heap: seq<Task>) returns (k: nat)
    requires heap != []
    ensures TopAt(heap, k)
  {
    k := 0;
    for i := 1 to |heap|
      invariant k < i
      invariant forall j :: 0 <= j < i ==> heap[k].runat <= heap[j].runat
    {
      if heap[i].runat < heap[k].runat {
        k := i;
      }
    }
  }

  class Runner {
    ghost const lag: real
    var heap: seq<Task>
    var marks: set<int>
    var lastId: nat
    var timer: Descriptor
    var count: nat
    var mode: Mode
    // the callbacks made so far
    var ran: seq<int>
    var retired: seq<int>
    ghost var clock: real
    ghost var phase: Phase
    ghost var relaying: nat
    ghost var posted: seq<Task>
    ghost var cancelled: set<int>

    ghost function Abs(): State
      reads this
    {
      State(clock, heap, marks, lastId, timer, count, mode, phase, relaying, posted, cancelled, ran, retired)
    }

    constructor (now: real, ghost lag: real)
      ensures this.lag == lag
      ensures Abs() == Init(now)
    {
      this.lag := lag;
      heap, marks, lastId, timer, count, mode, ran, retired := [], {}, 0, Disarmed, 0, Idle, [], [];
      clock, phase, relaying, posted, cancelled := now, Waiting, 0, [], {};
    }

    method Post(callable: bool, born: real, duration: u32, kind: int, now: real) returns (id: int)
      requires now == clock
      requires Enabled(lag, Abs(), Step.Post(callable, born, duration, kind))
      modifies this
      ensures Abs() == ApplyPost(old(Abs()), callable, born, duration, kind)
      ensures id == if callable then lastId else -1
    {
      hide ResetMs;
      if callable {
        id := lastId + 1;
        lastId := id;
        marks := marks + {id};
        var task := Task(id, born + duration as real, duration, kind);
        heap := heap + [task];
        posted := posted + [task];
        if duration < LEAST_DURATION {
          count := count + 1;
        } else if mode == Idle {
          timer := ResetMs(duration, now);
          mode := Work;
        } else {
          var k := Top(heap);
          assert task in heap;
          if heap[k].runat == task.runat {
            timer := ResetMs(duration, now);
          }
        }
      } else {
        count := count + 1;
        id := -1;
      }
    }

    method Cancel(id: int)
      modifies this
      ensures Abs() == Apply(lag, old(Abs()), Step.Cancel(id))
    {
      if 0 < id < lastId {
        marks := marks - {id};
        cancelled := cancelled + {id};
      }
    }

    method Retrieve() returns (e: nat)
      requires Enabled(lag, Abs(), Step.Retrieve)
      modifies this
      ensures Abs() == Apply(lag, old(Abs()), Step.Retrieve)
      ensures e == old(count)
    {
      e := count;
      count := 0;
      phase := if e >= NOTIFY_QUIT then Stopped else Draining(Drain(clock, heap, cancelled, [], []));
    }

    /** One turn of the draining loop: the top task is due. */
    method PopTop(k: nat, batch: seq<Task>) returns (batch': seq<Task>)
      requires phase.Draining? && phase.drain.batch == batch && k < |heap|
      modifies this
      ensures Abs() == ApplyPop(old(Abs()), k)
      ensures phase.Draining? && phase.drain.batch == batch'
    {
      var top := heap[k];
      batch' := batch;
      if top.id in marks {
        batch' := batch + [top];
        phase := Draining(phase.drain.(batch := batch'));
      } else {
        retired := retired + [top.id];
        phase := Draining(phase.drain.(dropped := phase.drain.dropped + [top]));
      }
      heap := Without(heap, k);
    }

    /** The loop that pops every due task, up to the release of the lock. */
    method DrainHeap(now: real) returns (batch: seq<Task>, ghost steps: seq<Step>)
      requires phase.Draining? && phase.drain.at == now && phase.drain.batch == []
      modifies this
      ensures Leads(lag, old(Abs()), steps, Abs())
      ensures phase.Running? && phase.next == 0 && phase.drain.batch == batch && phase.drain.at == now
      ensures phase.drain.from == old(phase.drain.from) && phase.drain.barred == old(phase.drain.barred)
      ensures clock == old(clock)
    {
      hide Leads;
      batch, steps := [], [];
      ghost var s0 := Abs();
      LeadsNowhere(lag, s0);
      var more := true;
      while more && heap != []
        invariant Leads(lag, s0, steps, Abs())
        invariant phase.Draining? && phase.drain.batch == batch && phase.drain.at == now
        invariant phase.drain.from == old(phase.drain.from) && phase.drain.barred == old(phase.drain.barred)
        invariant clock == old(clock)
        invariant !more ==> forall t :: t in heap ==> !phase.drain.Ready(t)
        decreases more, |heap|
      {
        var k := Top(heap);
        if heap[k].runat < now + LEAST_DURATION as real {
          LeadsTo(lag, s0, steps, Abs(), Pop(k));
          batch := PopTop(k, batch);
          steps := steps + [Pop(k)];
        } else {
          more := false;
        }
      }
      LeadsTo(lag, s0, steps, Abs(), EndDrain);
      phase := Running(phase.drain, 0);
      steps := steps + [EndDrain];
    }

    /** The loop that runs the batch, without interference. */
    method RunBatch(batch: seq<Task>) returns (ghost steps: seq<Step>)
      requires phase.Running? && phase.next == 0 && phase.drain.batch == batch
      modifies this
      ensures Leads(lag, old(Abs()), steps, Abs())
      ensures phase == Running(old(phase).drain, |batch|)
      ensures clock == old(clock)
    {
      hide Leads;
      steps := [];
      ghost var s0 := Abs();
      LeadsNowhere(lag, s0);
      for i := 0 to |batch|
        invariant Leads(lag, s0, steps, Abs())
        invariant phase == Running(old(phase).drain, i)
        invariant clock == old(clock)
      {
        LeadsTo(lag, s0, steps, Abs(), RunNext);
        ran := ran + [batch[i].id];
        phase := Running(phase.drain, i + 1);
        steps := steps + [RunNext];
      }
    }

    /** The loop that puts repeated tasks back and disposes the others. */
    method Requeue(batch: seq<Task>, now: real)
      modifies this`heap, this`retired, this`marks
      ensures heap == old(heap) + Requeued(batch, now)
      ensures retired == old(retired) + Finished(batch)
      ensures marks == old(marks) - (set id | id in Finished(batch))
    {
      for i := 0 to |batch|
        invariant heap == old(heap) + Requeued(batch[..i], now)
        invariant retired == old(retired) + Finished(batch[..i])
        invariant marks == old(marks) - (set id | id in Finished(batch[..i]))
      {
        var task := batch[i];
        assert batch[..i + 1][..i] == batch[..i];
        if task.kind % 0x100 == 1 {
          heap := heap + [task.(runat := now + task.duration as real)];
        } else {
          retired := retired + [task.id];
          marks := marks - {task.id};
        }
      }
      assert batch[..|batch|] == batch;
    }

    /** Settling the batch and deciding how to re-arm. */
    method SettleBatch(batch: seq<Task>, now: real) returns (idle: bool, plan: Plan, ghost k: nat)
      requires phase.Running? && phase.next == |batch| && phase.drain.batch == batch && now == clock
      modifies this
      ensures Enabled(lag, old(Abs()), Settle(k)) && Abs() == Apply(lag, old(Abs()), Settle(k))
      ensures phase == (if idle then Waiting else Rearming(plan)) && clock == old(clock)
    {
      hide Requeued, Finished, ResetMs, Truncate;
      Requeue(batch, now);
      idle, plan, k := heap == [], Wake, 0;
      if idle {
        timer := ResetMs(0, now);
        mode := Idle;
        phase := Waiting;
      } else {
        var top := Top(heap);
        k := top;
        plan := if heap[top].runat < now + LEAST_DURATION as real then Wake
                else Arm(now, Truncate(heap[top].runat - now));
        phase := Rearming(plan);
      }
    }

    method Rearm(plan: Plan, now: real)
      requires phase == Rearming(plan) && now == clock
      modifies this
      ensures Abs() == Apply(lag, old(Abs()), Commit) && phase == Waiting
    {
      match plan {
        case Wake => count := count + 1;
        case Arm(_, ms) => timer := ResetMs(ms, now);
      }
      phase := Waiting;
    }

    /** The clock moves while tasks run. */
    ghost method Elapse(t: real)
      requires Enabled(lag, Abs(), Advance(t))
      modifies this`clock
      ensures Abs() == Apply(lag, old(Abs()), Advance(t))
    {
      clock := t;
    }

    /** From the reading of the clock after the batch to the end of the turn. */
    method Finish(batch: seq<Task>, later: real) returns (ghost steps: seq<Step>)
      requires phase.Running? && phase.next == |batch| && phase.drain.batch == batch && clock <= later
      modifies this
      ensures Leads(lag, old(Abs()), steps, Abs())
      ensures phase == Waiting
    {
      hide Enabled, Apply, Leads;
      ghost var s0 := Abs();
      LeadsNowhere(lag, s0);
      CanAdvance(lag, s0, later);
      LeadsTo(lag, s0, [], s0, Advance(later));
      Elapse(later);
      steps := [] + [Advance(later)];
      ghost var s1 := Abs();
      var idle, plan, k := SettleBatch(batch, later);
      LeadsTo(lag, s0, steps, s1, Settle(k));
      steps := steps + [Settle(k)];
      if !idle {
        ghost var s2 := Abs();
        CanCommit(lag, s2);
        Rearm(plan, later);
        LeadsTo(lag, s0, steps, s2, Commit);
        steps := steps + [Commit];
      }
    }

    /** One turn of `Run`, started by a notification at `now`, with the batch
        done at `later`. */
    method Iterate(now: real, later: real) returns (quit: bool, ghost steps: seq<Step>)
      requires phase == Waiting && count > 0 && clock == now <= later
      modifies this
      ensures Leads(lag, old(Abs()), steps, Abs())
      ensures quit == (old(count) >= NOTIFY_QUIT)
      ensures phase == if quit then Stopped else Waiting
    {
      hide Leads;
      ghost var s0 := Abs();
      var e := Retrieve();
      LeadsNowhere(lag, s0);
      LeadsTo(lag, s0, [], s0, Step.Retrieve);
      steps := [] + [Step.Retrieve];
      quit := e >= NOTIFY_QUIT;
      if !quit {
        ghost var s1 := Abs();
        var batch, drained := DrainHeap(now);
        LeadsOn(lag, s0, steps, s1, drained, Abs());
        steps := steps + drained;
        s1 := Abs();
        ghost var run := RunBatch(batch);
        LeadsOn(lag, s0, steps, s1, run, Abs());
        steps := steps + run;
        s1 := Abs();
        ghost var rest := Finish(batch, later);
        LeadsOn(lag, s0, steps, s1, rest, Abs());
        steps := steps + rest;
      }
    }
  }
}

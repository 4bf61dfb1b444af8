/** What every run of the timer scheduler keeps: tasks are conserved, run and
    retired as promised, batches are exact, and no wakeup is lost. */
module TimerTheorems {
  import opened Notifier
  import opened TimerFd
  import opened TimerScheduler
  import opened Tally

  /* ---- counting ---- */

  /** How often a task with this id occurs. */
  function Count(ts: seq<Task>, id: int): nat {
    if ts == [] then 0 else Count(ts[..|ts| - 1], id) + (if ts[|ts| - 1].id == id then 1 else 0)
  }

  lemma {:induction false} CountConcat(a: seq<Task>, b: seq<Task>, id: int)
    ensures Count(a + b, id) == Count(a, id) + Count(b, id)
    decreases |b|
  {
    if b == [] {
      assert a + b == a;
    } else {
      assert (a + b)[..|a + b| - 1] == a + b[..|b| - 1];
      CountConcat(a, b[..|b| - 1], id);
    }
  }

  lemma CountPush(ts: seq<Task>, t: Task, id: int)
    ensures Count(ts + [t], id) == Count(ts, id) + if t.id == id then 1 else 0
  {
    assert (ts + [t])[..|ts|] == ts;
  }

  lemma CountWithout(ts: seq<Task>, k: nat, id: int)
    requires k < |ts|
    ensures Count(ts, id) == Count(Without(ts, k), id) + if ts[k].id == id then 1 else 0
  {
    assert ts == ts[..k] + [ts[k]] + ts[k + 1..];
    CountConcat(ts[..k] + [ts[k]], ts[k + 1..], id);
    CountPush(ts[..k], ts[k], id);
    CountConcat(ts[..k], ts[k + 1..], id);
  }

  lemma CountMember(ts: seq<Task>, t: Task)
    requires t in ts
    ensures Count(ts, t.id) > 0
  {
    var k :| 0 <= k < |ts| && ts[k] == t;
    CountWithout(ts, k, t.id);
  }

  /** Two places that hold the same id count twice. */
  lemma CountTwice(ts: seq<Task>, i: nat, j: nat)
    requires i < j < |ts| && ts[i].id == ts[j].id
    ensures Count(ts, ts[i].id) >= 2
  {
    CountWithout(ts, j, ts[i].id);
    assert Without(ts, j)[i] == ts[i];
    CountMember(Without(ts, j), ts[i]);
  }

  lemma {:induction false} CountDomain(ts: seq<Task>, id: int) returns (t: Task)
    requires Count(ts, id) > 0
    ensures t in ts && t.id == id
    decreases |ts|
  {
    if ts[|ts| - 1].id == id {
      t := ts[|ts| - 1];
    } else {
      t := CountDomain(ts[..|ts| - 1], id);
    }
  }

  /* ---- settling a batch ---- */

  /** Re-queueing and finishing split a batch. */
  lemma {:induction false} SettleSplits(batch: seq<Task>, now: real, id: int)
    ensures Count(Requeued(batch, now), id) + Times(Finished(batch), id) == Count(batch, id)
    decreases |batch|
  {
    if batch != [] {
      var init, t := batch[..|batch| - 1], batch[|batch| - 1];
      SettleSplits(init, now, id);
      if t.Repeated() {
        CountPush(Requeued(init, now), t.(runat := now + t.duration as real), id);
      } else {
        TimesPush(Finished(init), t.id, id);
      }
    }
  }

  /** What is re-queued is a repeated task of the batch with a new due time. */
  lemma {:induction false} RequeuedFrom(batch: seq<Task>, now: real, u: Task) returns (j: nat)
    requires u in Requeued(batch, now)
    ensures j < |batch| && batch[j].Repeated() && u == batch[j].(runat := now + u.duration as real)
    decreases |batch|
  {
    var init, t := batch[..|batch| - 1], batch[|batch| - 1];
    if u in Requeued(init, now) {
      j := RequeuedFrom(init, now, u);
    } else {
      j := |batch| - 1;
    }
  }

  lemma {:induction false} FinishedFrom(batch: seq<Task>, id: int) returns (j: nat)
    requires id in Finished(batch)
    ensures j < |batch| && !batch[j].Repeated() && batch[j].id == id
    decreases |batch|
  {
    var init, t := batch[..|batch| - 1], batch[|batch| - 1];
    if id in Finished(init) {
      j := FinishedFrom(init, id);
    } else {
      j := |batch| - 1;
    }
  }

  /* ---- conservation ---- */

  function Active(s: State): seq<Task> {
    if s.phase.Draining? || s.phase.Running? then s.phase.drain.batch else []
  }

  /** In how many places the id is: queued, in the batch, or retired. */
  function Places(s: State, id: int): nat {
    Count(s.heap, id) + Count(Active(s), id) + Times(s.retired, id)
  }

  /** Every id handed out is in exactly one place, every other id in none. */
  ghost predicate Conserved(s: State) {
    forall id {:trigger Places(s, id)} :: Places(s, id) == if 1 <= id <= s.lastId then 1 else 0
  }

  lemma PlacesPop(s: State, k: nat, id: int)
    requires s.phase.Draining? && k < |s.heap|
    ensures Places(ApplyPop(s, k), id) == Places(s, id)
  {
    CountWithout(s.heap, k, id);
    CountPush(s.phase.drain.batch, s.heap[k], id);
    TimesPush(s.retired, s.heap[k].id, id);
  }

  lemma PlacesSettle(s: State, k: nat, id: int)
    requires s.phase.Running? && (NextHeap(s) != [] ==> k < |NextHeap(s)|)
    ensures Places(ApplySettle(s, k), id) == Places(s, id)
  {
    hide Times, ResetMs, Requeued, Finished;
    var batch := s.phase.drain.batch;
    CountConcat(s.heap, Requeued(batch, s.clock), id);
    TimesConcat(s.retired, Finished(batch), id);
    SettleSplits(batch, s.clock, id);
  }

  lemma PlacesPost(s: State, callable: bool, born: real, duration: u32, kind: int, id: int)
    ensures Places(ApplyPost(s, callable, born, duration, kind), id) ==
            Places(s, id) + if callable && id == s.lastId + 1 then 1 else 0
  {
    hide Count, Times, ResetMs;
    CountPush(s.heap, Task(s.lastId + 1, born + duration as real, duration, kind), id);
  }

  lemma ConservedKept(lag: real, s: State, step: Step)
    requires Enabled(lag, s, step) && Conserved(s)
    ensures Conserved(Apply(lag, s, step))
  {
    var s' := Apply(lag, s, step);
    forall id ensures Places(s', id) == if 1 <= id <= s'.lastId then 1 else 0 {
      assert Places(s, id) == if 1 <= id <= s.lastId then 1 else 0;
      match step
      case Post(callable, born, duration, kind) => PlacesPost(s, callable, born, duration, kind, id);
      case Pop(k) => PlacesPop(s, k, id);
      case Settle(k) => PlacesSettle(s, k, id);
      case _ =>
    }
  }

  /** No two places in the system hold the same id. */
  ghost predicate Distinct(ts: seq<Task>) {
    forall i, j :: 0 <= i < j < |ts| ==> ts[i].id != ts[j].id
  }

  lemma CountedOnce(ts: seq<Task>)
    requires forall id {:trigger Count(ts, id)} :: Count(ts, id) <= 1
    ensures Distinct(ts)
  {
    forall i, j | 0 <= i < j < |ts| ensures ts[i].id != ts[j].id {
      if ts[i].id == ts[j].id {
        CountTwice(ts, i, j);
        assert false;
      }
    }
  }

  lemma QueuedDistinct(s: State)
    requires Conserved(s)
    ensures Distinct(s.heap + Active(s))
  {
    forall id ensures Count(s.heap + Active(s), id) <= 1 {
      CountConcat(s.heap, Active(s), id);
      assert Places(s, id) <= 1;
    }
    CountedOnce(s.heap + Active(s));
  }

  lemma QueuedNotRetired(s: State, t: Task)
    requires Conserved(s) && (t in s.heap || t in Active(s))
    ensures 1 <= t.id <= s.lastId && t.id !in s.retired
  {
    if t in s.heap { CountMember(s.heap, t); } else { CountMember(Active(s), t); }
    TimesMember(s.retired, t.id);
    assert Places(s, t.id) == 1;
  }

  /* ---- tasks are the ones that were posted ---- */

  /** A task in the system is the one posted under its id, due within its duration. */
  predicate Genuine(s: State, t: Task) {
    && 1 <= t.id <= |s.posted|
    && t.duration == s.posted[t.id - 1].duration
    && t.kind == s.posted[t.id - 1].kind
    && t.runat <= s.clock + t.duration as real
  }

  ghost predicate AllGenuine(s: State) {
    && s.lastId == |s.posted|
    && (forall t :: t in s.heap ==> Genuine(s, t))
    && (forall t :: t in Active(s) ==> Genuine(s, t))
  }

  lemma GenuineSettle(s: State, k: nat)
    requires s.phase.Running? && (NextHeap(s) != [] ==> k < |NextHeap(s)|) && AllGenuine(s)
    ensures AllGenuine(ApplySettle(s, k))
  {
    var s' := ApplySettle(s, k);
    forall u | u in s'.heap ensures Genuine(s', u) {
      if u in s.heap {
        assert Genuine(s, u);
      } else {
        var j := RequeuedFrom(s.phase.drain.batch, s.clock, u);
        assert Genuine(s, s.phase.drain.batch[j]);
      }
    }
  }

  lemma GenuinePost(s: State, callable: bool, born: real, duration: u32, kind: int)
    requires born <= s.clock && AllGenuine(s)
    ensures AllGenuine(ApplyPost(s, callable, born, duration, kind))
  {
    var s' := ApplyPost(s, callable, born, duration, kind);
    assert forall t :: t in s'.heap ==> t in s.heap || t == Task(s.lastId + 1, born + duration as real, duration, kind);
    forall t | t in s.heap || t in Active(s) ensures Genuine(s', t) { assert Genuine(s, t); }
  }

  lemma GenuineKept(lag: real, s: State, step: Step)
    requires Enabled(lag, s, step) && AllGenuine(s)
    ensures AllGenuine(Apply(lag, s, step))
  {
    var s' := Apply(lag, s, step);
    match step
    case Advance(t) => forall t | t in s.heap || t in Active(s) ensures Genuine(s', t) { assert Genuine(s, t); }
    case Post(callable, born, duration, kind) => GenuinePost(s, callable, born, duration, kind);
    case Pop(k) => forall t | t in s.heap || t in Active(s) ensures Genuine(s', t) { assert Genuine(s, t); }
    case Settle(k) => GenuineSettle(s, k);
    case _ => forall t | t in s.heap || t in Active(s) ensures Genuine(s', t) { assert Genuine(s, t); }
  }

  /* ---- marks ---- */

  /** The marks are exactly the tasks in the system that were not cancelled. */
  ghost predicate Marked(s: State) {
    && (forall id {:trigger id in s.marks} ::
          id in s.marks <==> Count(s.heap, id) + Count(Active(s), id) > 0 && id !in s.cancelled)
    && (forall id :: id in s.cancelled ==> 1 <= id <= s.lastId)
  }

  lemma MarkedPop(s: State, k: nat)
    requires s.phase.Draining? && k < |s.heap| && Conserved(s) && Marked(s)
    ensures Marked(ApplyPop(s, k))
  {
    var s' := ApplyPop(s, k);
    forall id ensures id in s'.marks <==> Count(s'.heap, id) + Count(Active(s'), id) > 0 && id !in s'.cancelled {
      MarkedPopAt(s, k, id);
    }
  }

  lemma MarkedPopAt(s: State, k: nat, id: int)
    requires s.phase.Draining? && k < |s.heap| && Conserved(s) && Marked(s)
    ensures var s' := ApplyPop(s, k);
            id in s'.marks <==> Count(s'.heap, id) + Count(Active(s'), id) > 0 && id !in s'.cancelled
  {
    hide Count, Times, Without;
    CountWithout(s.heap, k, id);
    CountPush(s.phase.drain.batch, s.heap[k], id);
    assert Places(s, id) <= 1 && Places(s, s.heap[k].id) <= 1;
    assert id in s.marks <==> Count(s.heap, id) + Count(Active(s), id) > 0 && id !in s.cancelled;
  }

  lemma MarkedSettle(s: State, k: nat)
    requires s.phase.Running? && (NextHeap(s) != [] ==> k < |NextHeap(s)|) && Conserved(s) && Marked(s)
    ensures Marked(ApplySettle(s, k))
  {
    var s', batch := ApplySettle(s, k), s.phase.drain.batch;
    forall id ensures id in s'.marks <==> Count(s'.heap, id) + Count(Active(s'), id) > 0 && id !in s'.cancelled {
      CountConcat(s.heap, Requeued(batch, s.clock), id);
      SettleSplits(batch, s.clock, id);
      TimesMember(Finished(batch), id);
      assert Places(s, id) <= 1;
      assert id in s.marks <==> Count(s.heap, id) + Count(Active(s), id) > 0 && id !in s.cancelled;
    }
  }

  lemma MarkedPost(s: State, callable: bool, born: real, duration: u32, kind: int)
    requires Conserved(s) && Marked(s)
    ensures Marked(ApplyPost(s, callable, born, duration, kind))
  {
    hide Count, Times, ResetMs;
    var s' := ApplyPost(s, callable, born, duration, kind);
    forall id ensures id in s'.marks <==> Count(s'.heap, id) + Count(Active(s'), id) > 0 && id !in s'.cancelled {
      CountPush(s.heap, Task(s.lastId + 1, born + duration as real, duration, kind), id);
      assert Places(s, id) <= 1;
      assert id in s.marks <==> Count(s.heap, id) + Count(Active(s), id) > 0 && id !in s.cancelled;
    }
  }

  lemma MarkedKept(lag: real, s: State, step: Step)
    requires Enabled(lag, s, step) && Conserved(s) && Marked(s)
    ensures Marked(Apply(lag, s, step))
  {
    var s' := Apply(lag, s, step);
    match step
    case Post(callable, born, duration, kind) => MarkedPost(s, callable, born, duration, kind);
    case Pop(k) => MarkedPop(s, k);
    case Settle(k) => MarkedSettle(s, k);
    case _ =>
  }

  /* ---- runs and retirements ---- */

  /** How many runs an id may have had, given where it is. */
  ghost predicate RunsFit(s: State) {
    && (forall t :: t in s.heap && !t.Repeated() ==> Times(s.ran, t.id) == 0)
    && (s.phase.Draining? ==> forall t :: t in s.phase.drain.batch && !t.Repeated() ==> Times(s.ran, t.id) == 0)
    && (s.phase.Running? ==>
          && s.phase.next <= |s.phase.drain.batch|
          && (forall j :: 0 <= j < s.phase.next ==> RanAtLeastOnce(s, s.phase.drain.batch[j]))
          && (forall j :: s.phase.next <= j < |s.phase.drain.batch| && !s.phase.drain.batch[j].Repeated() ==>
                Times(s.ran, s.phase.drain.batch[j].id) == 0))
    && (forall id :: id in s.ran ==> 1 <= id <= s.lastId)
    && (forall id :: id in s.retired ==> RetiredRight(s, id))
  }

  predicate RanAtLeastOnce(s: State, t: Task) {
    Times(s.ran, t.id) >= 1 && (!t.Repeated() ==> Times(s.ran, t.id) == 1)
  }

  /** A retired task that ran once ran at most once, and one that did not run
      at all was cancelled. */
  predicate RetiredRight(s: State, id: int) {
    && 1 <= id <= |s.posted|
    && (!s.posted[id - 1].Repeated() ==> Times(s.ran, id) <= 1)
    && (Times(s.ran, id) == 0 ==> id in s.cancelled)
  }

  lemma RunsFitPost(s: State, callable: bool, born: real, duration: u32, kind: int)
    requires AllGenuine(s) && RunsFit(s)
    ensures RunsFit(ApplyPost(s, callable, born, duration, kind))
  {
    var s' := ApplyPost(s, callable, born, duration, kind);
    TimesMember(s.ran, s.lastId + 1);
    forall id | id in s'.retired ensures RetiredRight(s', id) { assert RetiredRight(s, id); }
    assert forall t :: t in s'.heap ==> t in s.heap || t.id == s.lastId + 1;
    if s.phase.Running? {
      forall j | 0 <= j < s.phase.next ensures RanAtLeastOnce(s', s.phase.drain.batch[j]) {
        assert RanAtLeastOnce(s, s.phase.drain.batch[j]);
      }
    }
  }

  lemma RunsFitPop(s: State, k: nat)
    requires s.phase.Draining? && k < |s.heap| && AllGenuine(s) && Marked(s) && RunsFit(s)
    ensures RunsFit(ApplyPop(s, k))
  {
    var s', t := ApplyPop(s, k), s.heap[k];
    assert Genuine(s, t);
    CountMember(s.heap, t);
    TimesMember(s.ran, t.id);
    forall id | id in s'.retired ensures RetiredRight(s', id) {
      if id in s.retired { assert RetiredRight(s, id); }
    }
  }

  lemma RunsFitRunNext(s: State)
    requires s.phase.Running? && s.phase.next < |s.phase.drain.batch|
    requires Conserved(s) && AllGenuine(s) && RunsFit(s)
    ensures RunsFit(Apply(0.0, s, RunNext))
  {
    var s', batch, i := Apply(0.0, s, RunNext), s.phase.drain.batch, s.phase.next;
    var x := batch[i].id;
    assert Genuine(s, batch[i]);
    QueuedDistinct(s);
    var q := s.heap + batch;
    assert q[|s.heap| + i] == batch[i];
    forall t | t in s.heap ensures Times(s'.ran, t.id) == Times(s.ran, t.id) {
      var j :| 0 <= j < |s.heap| && s.heap[j] == t;
      assert q[j] == t;
      TimesPush(s.ran, x, t.id);
    }
    forall j | 0 <= j < |batch| && j != i ensures Times(s'.ran, batch[j].id) == Times(s.ran, batch[j].id) {
      assert q[|s.heap| + j] == batch[j];
      TimesPush(s.ran, x, batch[j].id);
    }
    TimesPush(s.ran, x, x);
    forall j | 0 <= j < i ensures RanAtLeastOnce(s', batch[j]) { assert RanAtLeastOnce(s, batch[j]); }
    forall id | id in s'.retired ensures RetiredRight(s', id) {
      assert RetiredRight(s, id);
      QueuedNotRetired(s, batch[i]);
      TimesPush(s.ran, x, id);
    }
  }

  lemma RunsFitSettle(s: State, k: nat)
    requires s.phase.Running? && s.phase.next == |s.phase.drain.batch|
    requires NextHeap(s) != [] ==> k < |NextHeap(s)|
    requires AllGenuine(s) && RunsFit(s)
    ensures RunsFit(ApplySettle(s, k))
  {
    var s', batch := ApplySettle(s, k), s.phase.drain.batch;
    forall t | t in s'.heap && !t.Repeated() ensures Times(s'.ran, t.id) == 0 {
      if t !in s.heap {
        var j := RequeuedFrom(batch, s.clock, t);
        assert false;
      }
    }
    forall id | id in s'.retired ensures RetiredRight(s', id) {
      if id in s.retired {
        assert RetiredRight(s, id);
      } else {
        var j := FinishedFrom(batch, id);
        assert RanAtLeastOnce(s, batch[j]);
        assert Genuine(s, batch[j]);
      }
    }
  }

  lemma RunsFitKept(lag: real, s: State, step: Step)
    requires Enabled(lag, s, step) && Conserved(s) && AllGenuine(s) && Marked(s) && RunsFit(s)
    ensures RunsFit(Apply(lag, s, step))
  {
    var s' := Apply(lag, s, step);
    if step.Post? {
      RunsFitPost(s, step.callable, step.born, step.duration, step.kind);
    } else if step.Pop? {
      RunsFitPop(s, step.k);
    } else if step.RunNext? {
      RunsFitRunNext(s);
    } else if step.Settle? {
      RunsFitSettle(s, step.k);
    } else {
      forall id | id in s'.retired ensures RetiredRight(s', id) { assert RetiredRight(s, id); }
      if s.phase.Running? {
        forall j | 0 <= j < s.phase.next ensures RanAtLeastOnce(s', s.phase.drain.batch[j]) {
          assert RanAtLeastOnce(s, s.phase.drain.batch[j]);
        }
      }
    }
  }

  /* ---- batches ---- */

  ghost predicate Sorted(ts: seq<Task>) {
    forall i, j :: 0 <= i < j < |ts| ==> ts[i].runat <= ts[j].runat
  }

  /** Every task popped so far was due, and none still queued is due before it. */
  ghost predicate PoppedInOrder(d: Drain, heap: seq<Task>) {
    && Sorted(d.batch)
    && (forall t :: t in d.batch || t in d.dropped ==> d.Ready(t))
    && (forall t, u :: (t in d.batch || t in d.dropped) && u in heap ==> t.runat <= u.runat)
  }

  /** The popped tasks are, copy for copy, the due tasks of the drained heap. */
  ghost predicate TookExactlyDue(d: Drain) {
    forall t :: multiset(d.batch)[t] + multiset(d.dropped)[t] == if d.Ready(t) then multiset(d.from)[t] else 0
  }

  /** Who was taken: nobody cancelled before the drain began, and everybody
      dropped had been cancelled. */
  ghost predicate TookLive(s: State, d: Drain) {
    && d.at <= s.clock
    && d.barred <= s.cancelled
    && (forall t :: t in d.batch ==> t.id !in d.barred)
    && (forall t :: t in d.dropped ==> t.id in s.cancelled)
  }

  ghost predicate DrainSound(s: State) {
    && (s.phase.Draining? ==>
          && TookLive(s, s.phase.drain)
          && PoppedInOrder(s.phase.drain, s.heap)
          && multiset(s.phase.drain.from) ==
             multiset(s.phase.drain.batch) + multiset(s.phase.drain.dropped) + multiset(s.heap))
    && (s.phase.Running? ==>
          && TookLive(s, s.phase.drain)
          && Sorted(s.phase.drain.batch)
          && TookExactlyDue(s.phase.drain))
  }

  lemma MultisetWithout(heap: seq<Task>, k: nat)
    requires k < |heap|
    ensures multiset(heap) == multiset(Without(heap, k)) + multiset{heap[k]}
  {
    assert heap == heap[..k] + [heap[k]] + heap[k + 1..];
  }

  lemma OrderedPop(d: Drain, heap: seq<Task>, k: nat)
    requires PoppedInOrder(d, heap) && TopAt(heap, k) && d.Ready(heap[k])
    ensures PoppedInOrder(d.(batch := d.batch + [heap[k]]), Without(heap, k))
    ensures PoppedInOrder(d.(dropped := d.dropped + [heap[k]]), Without(heap, k))
  {
    assert heap[k] in heap;
    assert forall u :: u in Without(heap, k) ==> u in heap;
  }

  lemma PopMoves(d: Drain, heap: seq<Task>, k: nat)
    requires k < |heap| && multiset(d.from) == multiset(d.batch) + multiset(d.dropped) + multiset(heap)
    ensures multiset(d.from) == multiset(d.batch + [heap[k]]) + multiset(d.dropped) + multiset(Without(heap, k))
    ensures multiset(d.from) == multiset(d.batch) + multiset(d.dropped + [heap[k]]) + multiset(Without(heap, k))
  {
    MultisetWithout(heap, k);
  }

  lemma SoundPop(s: State, k: nat)
    requires s.phase.Draining? && TopAt(s.heap, k) && s.phase.drain.Ready(s.heap[k])
    requires Marked(s) && DrainSound(s)
    ensures DrainSound(ApplyPop(s, k))
  {
    var d, t := s.phase.drain, s.heap[k];
    OrderedPop(d, s.heap, k);
    PopMoves(d, s.heap, k);
    CountMember(s.heap, t);
    assert t.id in s.marks <==> t.id !in s.cancelled;
  }

  lemma SoundEndDrain(s: State)
    requires s.phase.Draining? && (forall t :: t in s.heap ==> !s.phase.drain.Ready(t))
    requires DrainSound(s)
    ensures DrainSound(s.(phase := Running(s.phase.drain, 0)))
  {
    var d := s.phase.drain;
    forall t ensures multiset(d.batch)[t] + multiset(d.dropped)[t] == if d.Ready(t) then multiset(d.from)[t] else 0 {
      assert multiset(d.from)[t] == multiset(d.batch)[t] + multiset(d.dropped)[t] + multiset(s.heap)[t];
      if d.Ready(t) {
        assert t !in s.heap;
      } else {
        assert t !in d.batch && t !in d.dropped;
      }
    }
  }

  lemma SoundRetrieve(s: State)
    ensures DrainSound(s.(count := 0, phase := Draining(Drain(s.clock, s.heap, s.cancelled, [], []))))
  {
  }

  /** A drain stays sound while its heap is left alone. */
  lemma SoundFrame(s: State, s': State)
    requires DrainSound(s) && s.clock <= s'.clock && s.cancelled <= s'.cancelled
    requires s'.phase.Draining? ==> s'.phase == s.phase && s'.heap == s.heap
    requires s'.phase.Running? ==> s.phase.Running? && s'.phase.drain == s.phase.drain
    ensures DrainSound(s')
  {
    hide PoppedInOrder, TookExactlyDue, Sorted;
  }

  lemma DrainSoundKept(lag: real, s: State, step: Step)
    requires Enabled(lag, s, step) && Marked(s) && DrainSound(s)
    ensures DrainSound(Apply(lag, s, step))
  {
    hide PoppedInOrder, TookExactlyDue, Sorted, TookLive, Requeued, Finished, Without;
    if step.Pop? {
      SoundPop(s, step.k);
    } else if step.EndDrain? {
      SoundEndDrain(s);
    } else if step.Retrieve? {
      SoundRetrieve(s);
    } else {
      SoundFrame(s, Apply(lag, s, step));
    }
  }

  /* ---- wakeups ---- */

  /** The timer will fire, or has fired unread, no more than `lag` after the
      earliest queued task is due. */
  predicate TimerCovers(lag: real, s: State) {
    (s.timer.Armed? || s.timer.Expired?) && forall t :: t in s.heap ==> s.timer.at <= t.runat + lag
  }

  /** An idle runner holds only tasks that are run on notification. */
  ghost predicate IdleIsShort(s: State) {
    s.mode == Idle ==> (forall t :: t in s.heap ==> t.Short()) && (forall t :: t in Active(s) ==> t.Short())
  }

  ghost predicate QuitPending(s: State) {
    s.mode == Terminated ==> s.count >= NOTIFY_QUIT || s.phase.Stopped?
  }

  /** A planned deadline does not disarm the timer, and the listener watches it. */
  ghost predicate PlanSound(s: State) {
    s.phase.Rearming? && s.phase.plan.Arm? ==> s.phase.plan.ms >= LEAST_DURATION && (s.count > 0 || s.mode == Work)
  }

  ghost predicate Awake(lag: real, s: State) {
    s.phase.Waiting? && s.heap != [] ==> s.count > 0 || s.relaying > 0 || (s.mode == Work && TimerCovers(lag, s))
  }

  ghost predicate WakeInv(lag: real, s: State) {
    IdleIsShort(s) && QuitPending(s) && PlanSound(s) && Awake(lag, s)
  }

  /** A re-arming is in time if a notification is under way anyhow, or the deadline
      it sets comes soon enough for every queued task. Any other step is. */
  ghost predicate InTime(lag: real, s: State, step: Step) {
    step.Commit? && s.phase.Rearming? && s.phase.plan.Arm? ==>
      || s.count > 0 || s.relaying > 0
      || forall t :: t in s.heap ==> s.clock + s.phase.plan.ms as real <= t.runat + lag
  }

  lemma IdleKeptSettle(s: State, k: nat)
    requires s.phase.Running? && (NextHeap(s) != [] ==> k < |NextHeap(s)|) && IdleIsShort(s)
    ensures IdleIsShort(ApplySettle(s, k))
  {
    forall u | u in NextHeap(s) && u !in s.heap && s.mode == Idle ensures u.Short() {
      var j := RequeuedFrom(s.phase.drain.batch, s.clock, u);
      assert s.phase.drain.batch[j] in Active(s);
    }
  }

  /** The remaining time is cut to whole milliseconds without wrapping. */
  lemma TruncateFits(x: real, duration: u32)
    requires LEAST_DURATION as real <= x <= duration as real
    ensures LEAST_DURATION <= Truncate(x) && Truncate(x) as real <= x
  {
    assert LEAST_DURATION <= x.Floor <= duration;
  }

  lemma WakeSettle(lag: real, s: State, k: nat)
    requires 0.0 <= lag && Enabled(lag, s, Settle(k)) && AllGenuine(s) && WakeInv(lag, s)
    ensures WakeInv(lag, ApplySettle(s, k))
  {
    hide Requeued, Finished;
    var s' := ApplySettle(s, k);
    IdleKeptSettle(s, k);
    if s'.phase.Rearming? && s'.phase.plan.Arm? {
      GenuineSettle(s, k);
      var top := s'.heap[k];
      assert Genuine(s', top);
      TruncateFits(top.runat - s.clock, top.duration);
      assert !top.Short();
    }
  }

  lemma AwakePost(lag: real, s: State, born: real, duration: u32, kind: int)
    requires 0.0 <= lag && Enabled(lag, s, Post(true, born, duration, kind)) && IdleIsShort(s) && Awake(lag, s)
    requires QuitPending(s)
    ensures Awake(lag, ApplyPost(s, true, born, duration, kind))
  {
    ResetMsExact(duration, s.clock);
    hide ResetMs;
    var s' := ApplyPost(s, true, born, duration, kind);
    var task := Task(s.lastId + 1, born + duration as real, duration, kind);
    assert forall t :: t in s'.heap ==> t in s.heap || t == task;
    assert task in s'.heap;
  }

  lemma WakePost(lag: real, s: State, callable: bool, born: real, duration: u32, kind: int)
    requires 0.0 <= lag && Enabled(lag, s, Post(callable, born, duration, kind)) && WakeInv(lag, s)
    ensures WakeInv(lag, ApplyPost(s, callable, born, duration, kind))
  {
    if callable {
      AwakePost(lag, s, born, duration, kind);
      hide ResetMs, Awake;
      var s' := ApplyPost(s, callable, born, duration, kind);
      var task := Task(s.lastId + 1, born + duration as real, duration, kind);
      assert forall t :: t in s'.heap ==> t in s.heap || t == task;
    }
  }

  /** Re-arming wakes the runner exactly when it is in time. */
  lemma WakeCommit(lag: real, s: State)
    requires 0.0 <= lag && s.phase.Rearming? && WakeInv(lag, s)
    ensures WakeInv(lag, ApplyCommit(s)) <==> InTime(lag, s, Commit)
    ensures Awake(lag, ApplyCommit(s)) <==> InTime(lag, s, Commit)
  {
    if s.phase.plan.Arm? {
      ResetMsExact(s.phase.plan.ms, s.clock);
      hide ResetMs;
    }
  }

  lemma WakePop(lag: real, s: State, k: nat)
    requires s.phase.Draining? && k < |s.heap| && WakeInv(lag, s)
    ensures WakeInv(lag, ApplyPop(s, k))
  {
    assert forall u :: u in Without(s.heap, k) ==> u in s.heap;
  }

  lemma WakeOther(lag: real, s: State, step: Step)
    requires Enabled(lag, s, step) && WakeInv(lag, s)
    requires !step.Post? && !step.Settle? && !step.Commit? && !step.Pop?
    ensures WakeInv(lag, Apply(lag, s, step))
  {
    hide Requeued, Finished, ResetMs;
  }

  lemma WakeKept(lag: real, s: State, step: Step)
    requires 0.0 <= lag && Enabled(lag, s, step) && AllGenuine(s) && WakeInv(lag, s) && InTime(lag, s, step)
    ensures WakeInv(lag, Apply(lag, s, step))
  {
    if step.Post? {
      WakePost(lag, s, step.callable, step.born, step.duration, step.kind);
    } else if step.Settle? {
      WakeSettle(lag, s, step.k);
    } else if step.Commit? {
      WakeCommit(lag, s);
    } else if step.Pop? {
      WakePop(lag, s, step.k);
    } else {
      WakeOther(lag, s, step);
    }
  }

  /* ---- every reachable state ---- */

  ghost predicate Inv(s: State) {
    Conserved(s) && AllGenuine(s) && Marked(s) && RunsFit(s) && DrainSound(s)
  }

  lemma InvKept(lag: real, s: State, step: Step)
    requires Enabled(lag, s, step) && Inv(s)
    ensures Inv(Apply(lag, s, step))
  {
    hide Conserved, AllGenuine, Marked, RunsFit, DrainSound, Apply, Enabled;
    ConservedKept(lag, s, step);
    GenuineKept(lag, s, step);
    MarkedKept(lag, s, step);
    RunsFitKept(lag, s, step);
    DrainSoundKept(lag, s, step);
  }

  lemma {:induction false} InvHolds(lag: real, s: State, steps: seq<Step>)
    requires Inv(s) && ValidRun(lag, s, steps)
    ensures Inv(Exec(lag, s, steps))
    decreases |steps|
  {
    hide Inv, Apply, Enabled;
    if steps != [] {
      InvKept(lag, s, steps[0]);
      InvHolds(lag, Apply(lag, s, steps[0]), steps[1..]);
    }
  }

  lemma ReachableInv(lag: real, s: State)
    requires Reachable(lag, s)
    ensures Inv(s)
  {
    var clock: real, steps: seq<Step> :|
      ValidRun(lag, Init(clock), steps) && Exec(lag, Init(clock), steps) == s;
    InvHolds(lag, Init(clock), steps);
  }

  /* ---- runs that re-arm in time ---- */

  ghost predicate AllInTime(lag: real, s: State, steps: seq<Step>)
    requires ValidRun(lag, s, steps)
    decreases |steps|
  {
    steps != [] ==> InTime(lag, s, steps[0]) && AllInTime(lag, Apply(lag, s, steps[0]), steps[1..])
  }

  /** Reached by a run in which every re-arming was in time. */
  ghost predicate ReachedInTime(lag: real, s: State) {
    exists clock: real, steps: seq<Step> ::
      ValidRun(lag, Init(clock), steps) && AllInTime(lag, Init(clock), steps) && Exec(lag, Init(clock), steps) == s
  }

  lemma {:induction false} WakeHolds(lag: real, s: State, steps: seq<Step>)
    requires 0.0 <= lag && Inv(s) && WakeInv(lag, s) && ValidRun(lag, s, steps) && AllInTime(lag, s, steps)
    ensures WakeInv(lag, Exec(lag, s, steps))
    decreases |steps|
  {
    hide WakeInv, InTime, Apply, Enabled;
    if steps != [] {
      WakeKept(lag, s, steps[0]);
      InvKept(lag, s, steps[0]);
      WakeHolds(lag, Apply(lag, s, steps[0]), steps[1..]);
    }
  }

  lemma ReachedInTimeWakes(lag: real, s: State)
    requires 0.0 <= lag && ReachedInTime(lag, s)
    ensures Reachable(lag, s) && WakeInv(lag, s)
  {
    var clock: real, steps: seq<Step> :|
      ValidRun(lag, Init(clock), steps) && AllInTime(lag, Init(clock), steps) && Exec(lag, Init(clock), steps) == s;
    WakeHolds(lag, Init(clock), steps);
  }

  /** No lost wakeup: whenever the runner sleeps on queued tasks, a notification
      is on its way or the listener will see the timer, in time for the earliest
      of them. */
  lemma NoLostWakeup(lag: real, s: State)
    requires 0.0 <= lag && ReachedInTime(lag, s)
    ensures s.heap != [] && s.phase.Waiting? ==>
              s.count > 0 || s.relaying > 0 || (s.mode == Work && TimerCovers(lag, s))
    ensures s.mode == Idle ==> forall t :: t in s.heap ==> t.duration < LEAST_DURATION
    ensures s.phase.Rearming? && s.phase.plan.Arm? ==> ResetMs(s.phase.plan.ms, s.clock) != Disarmed
  {
    ReachedInTimeWakes(lag, s);
    if s.phase.Rearming? && s.phase.plan.Arm? {
      ResetMsExact(s.phase.plan.ms, s.clock);
    }
  }

  /** The condition is exact: after a run that was in time so far, a re-arming
      leaves the runner with a wakeup if and only if it is in time as well. */
  lemma RearmExactly(lag: real, s: State)
    requires 0.0 <= lag && ReachedInTime(lag, s) && s.phase.Rearming?
    ensures Awake(lag, ApplyCommit(s)) <==> InTime(lag, s, Commit)
  {
    ReachedInTimeWakes(lag, s);
    WakeCommit(lag, s);
  }

  /** A runner at rest, with no notification under way and the timer not gone
      off, has no task overdue by more than the lag. */
  lemma NothingOverdueAtRest(lag: real, s: State, t: Task)
    requires 0.0 <= lag && ReachedInTime(lag, s)
    requires s.phase.Waiting? && s.count == 0 && s.relaying == 0
    requires !Enabled(lag, s, Expire) && !s.timer.Expired?
    requires t in s.heap
    ensures s.clock < t.runat + lag
  {
    ReachedInTimeWakes(lag, s);
  }

  /* ---- posts that keep a re-arming in time ---- */

  /** A post between the decision to re-arm and the re-arming does no harm if a
      notification is pending, the task is short, or it is due no sooner than the
      planned deadline. */
  predicate Lands(s: State, step: Step) {
    step.Post? && step.callable && s.phase.Rearming? && s.phase.plan.Arm? && s.count == 0 ==>
      || step.duration < LEAST_DURATION
      || s.phase.plan.at + s.phase.plan.ms as real <= step.born + step.duration as real
  }

  predicate AllLand(lag: real, s: State, steps: seq<Step>)
    requires ValidRun(lag, s, steps)
    decreases |steps|
  {
    steps != [] ==> Lands(s, steps[0]) && AllLand(lag, Apply(lag, s, steps[0]), steps[1..])
  }

  /** The planned deadline covers the heap, and time has not outrun it. */
  ghost predicate PlanCovers(lag: real, s: State) {
    s.phase.Rearming? && s.phase.plan.Arm? ==>
      && s.clock <= s.phase.plan.at + lag
      && (s.count > 0 || forall t :: t in s.heap ==> s.phase.plan.at + s.phase.plan.ms as real <= t.runat)
  }

  lemma PlanSettle(lag: real, s: State, k: nat)
    requires 0.0 <= lag && Enabled(lag, s, Settle(k)) && AllGenuine(s)
    ensures PlanCovers(lag, ApplySettle(s, k))
  {
    hide Requeued, Finished;
    var s' := ApplySettle(s, k);
    if s'.phase.Rearming? && s'.phase.plan.Arm? {
      GenuineSettle(s, k);
      var top := s'.heap[k];
      assert Genuine(s', top);
      TruncateFits(top.runat - s.clock, top.duration);
    }
  }

  lemma PlanPost(lag: real, s: State, step: Step)
    requires step.Post? && Enabled(lag, s, step) && PlanCovers(lag, s) && Lands(s, step)
    ensures PlanCovers(lag, Apply(lag, s, step))
  {
    hide ResetMs;
    var s' := Apply(lag, s, step);
    if step.callable {
      var task := Task(s.lastId + 1, step.born + step.duration as real, step.duration, step.kind);
      assert forall t :: t in s'.heap ==> t in s.heap || t == task;
    }
  }

  lemma PlanKept(lag: real, s: State, step: Step)
    requires 0.0 <= lag && Enabled(lag, s, step) && AllGenuine(s) && PlanCovers(lag, s) && Lands(s, step)
    ensures PlanCovers(lag, Apply(lag, s, step))
    ensures InTime(lag, s, step)
  {
    hide Requeued, Finished, ResetMs, AllGenuine;
    if step.Settle? {
      PlanSettle(lag, s, step.k);
    } else if step.Post? {
      PlanPost(lag, s, step);
    }
  }

  /** Runs whose posts all land so re-arm in time, and so lose no wakeup. */
  lemma {:induction false} LandingRunsInTime(lag: real, s: State, steps: seq<Step>)
    requires 0.0 <= lag && Inv(s) && PlanCovers(lag, s) && ValidRun(lag, s, steps) && AllLand(lag, s, steps)
    ensures AllInTime(lag, s, steps)
    decreases |steps|
  {
    hide PlanCovers, InTime, Apply, Enabled, Lands;
    if steps != [] {
      PlanKept(lag, s, steps[0]);
      InvKept(lag, s, steps[0]);
      LandingRunsInTime(lag, Apply(lag, s, steps[0]), steps[1..]);
    }
  }

  lemma LandingPostsKeepWakeups(lag: real, clock: real, steps: seq<Step>)
    requires 0.0 <= lag && ValidRun(lag, Init(clock), steps) && AllLand(lag, Init(clock), steps)
    ensures ReachedInTime(lag, Exec(lag, Init(clock), steps))
  {
    LandingRunsInTime(lag, Init(clock), steps);
  }

  /* ---- what holds of every run ---- */

  /** Ids are unique in the system; every id handed out is queued, in the batch
      or retired, exactly one of them and once. */
  lemma TasksConserved(lag: real, s: State, id: int)
    requires Reachable(lag, s)
    ensures Distinct(s.heap + Active(s))
    ensures Count(s.heap, id) + Count(Active(s), id) + Times(s.retired, id) == if 1 <= id <= |s.posted| then 1 else 0
  {
    ReachableInv(lag, s);
    QueuedDistinct(s);
    assert Places(s, id) == if 1 <= id <= s.lastId then 1 else 0;
  }

  /** A once-task runs at most once; a task is retired without having run only
      if it was cancelled, so a retired once-task that was not cancelled ran
      exactly once. */
  lemma RunsAtMostOnce(lag: real, s: State, id: int)
    requires Reachable(lag, s)
    requires 1 <= id <= |s.posted|
    ensures !s.posted[id - 1].Repeated() ==> Times(s.ran, id) <= 1
    ensures id in s.retired && id !in s.cancelled ==> Times(s.ran, id) >= 1
  {
    ReachableInv(lag, s);
    assert Places(s, id) == 1;
    TimesMember(s.retired, id);
    if id in s.retired {
      assert RetiredRight(s, id);
    } else if Count(s.heap, id) > 0 {
      var t := CountDomain(s.heap, id);
      assert Genuine(s, t);
    } else {
      var t := CountDomain(Active(s), id);
      assert Genuine(s, t);
      if s.phase.Running? {
        var j :| 0 <= j < |s.phase.drain.batch| && s.phase.drain.batch[j] == t;
        assert j < s.phase.next ==> RanAtLeastOnce(s, s.phase.drain.batch[j]);
      }
    }
  }

  /** What the runner is about to start has not been retired, was not cancelled
      before its drain began, and is due within the least duration. */
  lemma StartsOnlyDueAndLive(lag: real, s: State)
    requires Reachable(lag, s) && Enabled(lag, s, RunNext)
    ensures var t := s.phase.drain.batch[s.phase.next];
            && t.id !in s.retired
            && t.id !in s.phase.drain.barred
            && t.runat < s.clock + LEAST_DURATION as real
  {
    ReachableInv(lag, s);
    var d, t := s.phase.drain, s.phase.drain.batch[s.phase.next];
    QueuedNotRetired(s, t);
    assert multiset(d.batch)[t] > 0;
    assert d.Ready(t);
  }

  /** Every batch is in order of due time and holds, of the tasks queued when the
      drain began, exactly the due ones, except those cancelled by then. */
  lemma BatchExact(lag: real, s: State, t: Task)
    requires Reachable(lag, s) && s.phase.Running?
    ensures Sorted(s.phase.drain.batch)
    ensures t in s.phase.drain.batch ==>
              t in s.phase.drain.from && s.phase.drain.Ready(t) && t.id !in s.phase.drain.barred
    ensures t in s.phase.drain.from && s.phase.drain.Ready(t) && t.id !in s.cancelled ==> t in s.phase.drain.batch
    ensures multiset(s.phase.drain.batch)[t] <= multiset(s.phase.drain.from)[t]
  {
    ReachableInv(lag, s);
    var d := s.phase.drain;
    assert multiset(d.batch)[t] + multiset(d.dropped)[t] == if d.Ready(t) then multiset(d.from)[t] else 0;
    assert t in d.dropped <==> multiset(d.dropped)[t] > 0;
  }

  /** From a state in which the id is cancelled and no batch is under way, no
      later step starts it. */
  ghost predicate Shut(s: State, id: int) {
    id in s.cancelled && (s.phase.Draining? || s.phase.Running? ==> id in s.phase.drain.barred)
  }

  lemma ShutKept(lag: real, s: State, step: Step, id: int)
    requires Enabled(lag, s, step) && Shut(s, id)
    ensures Shut(Apply(lag, s, step), id)
  {
  }

  lemma {:induction false} CancelledNeverStarts(lag: real, s: State, steps: seq<Step>, id: int)
    requires Reachable(lag, s) && Shut(s, id) && ValidRun(lag, s, steps)
    ensures Times(Exec(lag, s, steps).ran, id) == Times(s.ran, id)
    decreases |steps|
  {
    if steps != [] {
      var s' := Apply(lag, s, steps[0]);
      ReachableStep(lag, s, steps[0]);
      ShutKept(lag, s, steps[0], id);
      if steps[0].RunNext? {
        StartsOnlyDueAndLive(lag, s);
        TimesPush(s.ran, s.phase.drain.batch[s.phase.next].id, id);
      }
      CancelledNeverStarts(lag, s', steps[1..], id);
    }
  }

  /** An accepted cancel followed by the start of a drain shuts the task out. */
  lemma AcceptedCancelShuts(lag: real, s: State, id: int, steps: seq<Step>)
    requires 0 < id < s.lastId
    requires ValidRun(lag, Apply(lag, s, Cancel(id)), steps)
    requires Enabled(lag, Exec(lag, Apply(lag, s, Cancel(id)), steps), Retrieve)
    ensures Shut(Apply(lag, Exec(lag, Apply(lag, s, Cancel(id)), steps), Retrieve), id)
  {
    StaysCancelled(lag, Apply(lag, s, Cancel(id)), steps, id);
  }

  lemma {:induction false} StaysCancelled(lag: real, s: State, steps: seq<Step>, id: int)
    requires id in s.cancelled && ValidRun(lag, s, steps)
    ensures id in Exec(lag, s, steps).cancelled
    decreases |steps|
  {
    if steps != [] {
      StaysCancelled(lag, Apply(lag, s, steps[0]), steps[1..], id);
    }
  }

  lemma ReachableStep(lag: real, s: State, step: Step)
    requires Reachable(lag, s) && Enabled(lag, s, step)
    ensures Reachable(lag, Apply(lag, s, step))
  {
    var clock: real, steps: seq<Step> :|
      ValidRun(lag, Init(clock), steps) && Exec(lag, Init(clock), steps) == s;
    assert [step][1..] == [];
    ExecAppend(lag, Init(clock), steps, [step]);
  }

  /** A cancel takes a marked task off the marks exactly when a newer id has been
      handed out; of the newest task it changes nothing. */
  lemma CancelExactly(lag: real, s: State, id: int)
    requires Reachable(lag, s) && id in s.marks
    ensures id !in Apply(lag, s, Cancel(id)).marks <==> id < s.lastId
    ensures id == s.lastId ==> Apply(lag, s, Cancel(id)) == s
  {
    ReachableInv(lag, s);
    assert Places(s, id) == if 1 <= id <= s.lastId then 1 else 0;
  }

  lemma NewestPosted() returns (s: State)
    ensures Reachable(0.0, s) && s.lastId == 1 && s.marks == {1}
    ensures s.heap == [Task(1, 5.0, 5, 0)] && s.phase == Waiting && s.count == 1 && s.clock == 0.0 && s.ran == []
  {
    var s0, post := Init(0.0), Post(true, 0.0, 5, 0);
    assert Reachable(0.0, s0) by { assert ValidRun(0.0, s0, []) && Exec(0.0, s0, []) == s0; }
    ReachableStep(0.0, s0, post);
    s := Apply(0.0, s0, post);
    assert s.heap == [Task(1, 5.0, 5, 0)];
  }

  lemma RunOf(lag: real, s: State, steps: seq<Step>, next: State, end: State)
    requires steps != [] && Enabled(lag, s, steps[0]) && Apply(lag, s, steps[0]) == next
    requires ValidRun(lag, next, steps[1..]) && Exec(lag, next, steps[1..]) == end
    ensures ValidRun(lag, s, steps) && Exec(lag, s, steps) == end
  {
    hide Apply, Enabled;
  }

  /** The cancel changes nothing, and the task is drained ... */
  lemma NewestDrained(s: State) returns (s2: State, s3: State)
    requires s.lastId == 1 && s.marks == {1} && s.phase == Waiting && s.count == 1 && s.clock == 0.0
    requires s.heap == [Task(1, 5.0, 5, 0)]
    ensures Apply(0.0, s, Cancel(1)) == s
    ensures Enabled(0.0, s, Retrieve) && Apply(0.0, s, Retrieve) == s2
    ensures Enabled(0.0, s2, Pop(0)) && Apply(0.0, s2, Pop(0)) == s3
    ensures s3.heap == [] && s3.phase.Draining? && s3.phase.drain.batch == s.heap && s3.ran == s.ran
  {
    s2 := s.(count := 0, phase := Draining(Drain(0.0, s.heap, s.cancelled, [], [])));
    s3 := ApplyPop(s2, 0);
    assert s3.heap == [] && s3.phase.drain.batch == s.heap;
  }

  /** ... and run. */
  lemma BatchOfOneRuns(s: State, t: Task) returns (s2: State, end: State)
    requires s.heap == [] && s.phase.Draining? && s.phase.drain.batch == [t]
    ensures Enabled(0.0, s, EndDrain) && Apply(0.0, s, EndDrain) == s2
    ensures Enabled(0.0, s2, RunNext) && Apply(0.0, s2, RunNext) == end && end.ran == s.ran + [t.id]
  {
    s2 := s.(phase := Running(s.phase.drain, 0));
    end := s2.(ran := s.ran + [t.id], phase := Running(s.phase.drain, 1));
  }

  /** A task is posted, cancelled while it is the newest, and started all the same. */
  lemma NewestStartsAnyway() returns (s: State)
    ensures Reachable(0.0, s) && s.lastId == 1 && 1 in s.marks
    ensures var steps := [Cancel(1), Retrieve, Pop(0), EndDrain, RunNext];
            ValidRun(0.0, s, steps) && Exec(0.0, s, steps).ran == [1]
  {
    hide Reachable, ValidRun, Exec, Apply;
    s := NewestPosted();
    var s2, s3 := NewestDrained(s);
    var s4, end := BatchOfOneRuns(s3, Task(1, 5.0, 5, 0));
    var a, b, c, d, e: seq<Step> := [RunNext], [EndDrain, RunNext], [Pop(0), EndDrain, RunNext],
      [Retrieve, Pop(0), EndDrain, RunNext], [Cancel(1), Retrieve, Pop(0), EndDrain, RunNext];
    assert a[1..] == [] && b[1..] == a && c[1..] == b && d[1..] == c && e[1..] == d;
    NoSteps(0.0, end);
    RunOf(0.0, s4, a, end, end);
    RunOf(0.0, s3, b, s4, end);
    RunOf(0.0, s2, c, s3, end);
    RunOf(0.0, s, d, s2, end);
    RunOf(0.0, s, e, s, end);
  }

  lemma NoSteps(lag: real, s: State)
    ensures ValidRun(lag, s, []) && Exec(lag, s, []) == s
  {
  }

  /* ---- the window between deciding and re-arming ---- */

  /** A long task posted inside the window, when re-arming would be in time and no
      notification is under way, keeps its wakeup exactly when the deadline set
      does not come too late for it. */
  lemma WindowExact(lag: real, s: State, born: real, duration: u32, kind: int)
    requires 0.0 <= lag && ReachedInTime(lag, s)
    requires s.phase.Rearming? && s.phase.plan.Arm? && s.count == 0 && s.relaying == 0
    requires InTime(lag, s, Commit)
    requires born <= s.clock <= born + lag && duration >= LEAST_DURATION
    ensures var s1 := ApplyPost(s, true, born, duration, kind);
            s1.phase == s.phase &&
            (Awake(lag, ApplyCommit(s1)) <==>
             s.clock + s.phase.plan.ms as real <= born + duration as real + lag)
  {
    ReachedInTimeWakes(lag, s);
    WakePost(lag, s, true, born, duration, kind);
    var s1 := ApplyPost(s, true, born, duration, kind);
    WakeCommit(lag, s1);
    hide ResetMs, WakeInv, Awake;
    var task := Task(s.lastId + 1, born + duration as real, duration, kind);
    assert task in s1.heap;
    assert forall t :: t in s1.heap <==> t in s.heap || t == task;
  }

  lemma InTimeStep(lag: real, s: State, step: Step)
    requires ReachedInTime(lag, s) && Enabled(lag, s, step) && InTime(lag, s, step)
    ensures ReachedInTime(lag, Apply(lag, s, step))
  {
    hide Apply, Enabled, InTime;
    var clock: real, steps: seq<Step> :|
      ValidRun(lag, Init(clock), steps) && AllInTime(lag, Init(clock), steps) && Exec(lag, Init(clock), steps) == s;
    InTimeSnoc(lag, Init(clock), steps, step);
  }

  lemma {:induction false} InTimeSnoc(lag: real, s: State, steps: seq<Step>, step: Step)
    requires ValidRun(lag, s, steps) && AllInTime(lag, s, steps)
    requires Enabled(lag, Exec(lag, s, steps), step) && InTime(lag, Exec(lag, s, steps), step)
    ensures ValidRun(lag, s, steps + [step]) && AllInTime(lag, s, steps + [step])
    ensures Exec(lag, s, steps + [step]) == Apply(lag, Exec(lag, s, steps), step)
    decreases |steps|
  {
    hide Apply, Enabled, InTime;
    if steps == [] {
      assert steps + [step] == [step] && [step][1..] == [];
    } else {
      assert (steps + [step])[0] == steps[0] && (steps + [step])[1..] == steps[1..] + [step];
      InTimeSnoc(lag, Apply(lag, s, steps[0]), steps[1..], step);
    }
  }

  lemma FirstTaskPosted() returns (s: State)
    ensures ReachedInTime(0.0, s) && s.phase == Waiting && s.mode == Work
    ensures s.heap == [Task(1, 1000.0, 1000, 0)]
    ensures s.count == 0 && s.relaying == 0 && s.clock == 0.0
  {
    var s0, post := Init(0.0), Post(true, 0.0, 1000, 0);
    assert ReachedInTime(0.0, s0) by {
      assert ValidRun(0.0, s0, []) && AllInTime(0.0, s0, []) && Exec(0.0, s0, []) == s0;
    }
    s := Apply(0.0, s0, post);
    InTimeStep(0.0, s0, post);
    assert s.heap == [Task(1, 1000.0, 1000, 0)];
  }

  lemma WindowReached() returns (s: State)
    ensures ReachedInTime(0.0, s) && s.phase == Rearming(Arm(0.0, 1000))
    ensures s.heap == [Task(1, 1000.0, 1000, 0)]
    ensures s.count == 0 && s.relaying == 0 && s.clock == 0.0
  {
    var s1 := FirstTaskPosted();
    var nudge := Post(false, 0.0, 0, 0);
    var s2 := Apply(0.0, s1, nudge);
    var s3 := Apply(0.0, s2, Retrieve);
    var s4 := Apply(0.0, s3, EndDrain);
    assert Requeued([], 0.0) == [];
    assert NextHeap(s4) == s1.heap;
    s := Apply(0.0, s4, Settle(0));
    hide ReachedInTime;
    InTimeStep(0.0, s1, nudge);
    InTimeStep(0.0, s2, Retrieve);
    InTimeStep(0.0, s3, EndDrain);
    InTimeStep(0.0, s4, Settle(0));
  }

  /** The window is real: a run reaches it, and there a task due after 100 ms
      is left waiting for a timer set to 1000 ms. */
  lemma WindowLosesWakeup()
    ensures exists s: State ::
              && ReachedInTime(0.0, s) && s.phase.Rearming?
              && Enabled(0.0, s, Post(true, 0.0, 100, 0))
              && !Awake(0.0, ApplyCommit(ApplyPost(s, true, 0.0, 100, 0)))
  {
    var s := WindowReached();
    WindowExact(0.0, s, 0.0, 100, 0);
  }
}

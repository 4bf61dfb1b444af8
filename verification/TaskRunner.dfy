/** `TaskRunner` of socket/monitor/runner.cpp: posters push a task under the lock
    and then add one to an eventfd; the runner reads the counter and pops that
    many tasks. A ticket is the position of a task among all accepted posts. */
module TaskRunner {
  import opened Notifier
  import opened Tally

  datatype Phase = Polling | Retrieved(e: nat) | Running(batch: seq<nat>, next: nat) | Stopped

  datatype State = State(
    deque: seq<nat>,
    count: nat,
    posters: nat,
    phase: Phase,
    stops: nat,
    posted: nat,
    ran: seq<nat>)

  datatype Step = Push(callable: bool) | Notify | Stop | Retrieve | PopAll | RunNext | Finish

  const INIT: State := State([], 0, 0, Polling, 0, 0, [])

  /** A step needs only what its thread has reached. Popping asks for nothing:
      that there is enough to pop is a theorem. */
  predicate Enabled(s: State, step: Step) {
    match step
    case Push(_) => true
    case Notify => s.posters > 0
    case Stop => true
    case Retrieve => s.phase.Polling? && s.count > 0
    case PopAll => s.phase.Retrieved?
    case RunNext => s.phase.Running? && s.phase.next < |s.phase.batch|
    case Finish => s.phase.Running? && s.phase.next == |s.phase.batch|
  }

  /** The pops of `while (e--)`, with nothing to pop once the deque is empty. */
  function Taken(s: State): nat
    requires s.phase.Retrieved?
  {
    if s.phase.e <= |s.deque| then s.phase.e else |s.deque|
  }

  function Apply(s: State, step: Step): State
    requires Enabled(s, step)
  {
    match step
    case Push(callable) =>
      if callable then s.(deque := [s.posted] + s.deque, posted := s.posted + 1, posters := s.posters + 1) else s
    case Notify => s.(posters := s.posters - 1, count := s.count + 1)
    case Stop => s.(count := s.count + NOTIFY_QUIT, stops := s.stops + 1)
    case Retrieve =>
      if s.count >= NOTIFY_QUIT then s.(count := 0, phase := Stopped)
      else s.(count := 0, phase := Retrieved(s.count))
    case PopAll =>
      s.(phase := Running(s.deque[..Taken(s)], 0), deque := s.deque[Taken(s)..])
    case RunNext =>
      s.(ran := s.ran + [s.phase.batch[s.phase.next]], phase := Running(s.phase.batch, s.phase.next + 1))
    case Finish => s.(phase := Polling)
  }

  predicate ValidRun(s: State, steps: seq<Step>)
    decreases |steps|
  {
    steps != [] ==> Enabled(s, steps[0]) && ValidRun(Apply(s, steps[0]), steps[1..])
  }

  function Exec(s: State, steps: seq<Step>): State
    requires ValidRun(s, steps)
    decreases |steps|
  {
    if steps == [] then s else Exec(Apply(s, steps[0]), steps[1..])
  }

  /* ---- invariants ---- */

  function InHand(s: State): nat {
    if s.phase.Retrieved? then s.phase.e else 0
  }

  function Pending(s: State): seq<nat> {
    if s.phase.Running? && s.phase.next <= |s.phase.batch| then s.phase.batch[s.phase.next..] else []
  }

  /** The deque matches the counter, the posters that have yet to notify, and
      what was read off the counter but not popped. */
  predicate Balanced(s: State) {
    !s.phase.Stopped? ==>
      && s.count >= s.stops * NOTIFY_QUIT
      && |s.deque| == s.count - s.stops * NOTIFY_QUIT + s.posters + InHand(s)
  }

  function Places(s: State, ticket: nat): nat {
    Times(s.deque, ticket) + Times(Pending(s), ticket) + Times(s.ran, ticket)
  }

  ghost predicate Conserved(s: State) {
    && (s.phase.Running? ==> s.phase.next <= |s.phase.batch|)
    && forall ticket: nat {:trigger Places(s, ticket)} :: Places(s, ticket) == if ticket < s.posted then 1 else 0
  }

  predicate NewestFirst(tickets: seq<nat>, bound: nat) {
    && (forall i, j :: 0 <= i < j < |tickets| ==> tickets[i] > tickets[j])
    && (forall i :: 0 <= i < |tickets| ==> tickets[i] < bound)
  }

  ghost predicate Inv(s: State) {
    && Balanced(s)
    && Conserved(s)
    && NewestFirst(s.deque, s.posted)
    && (s.phase.Running? ==> NewestFirst(s.phase.batch, s.posted))
  }

  lemma PlacesKept(s: State, step: Step, ticket: nat)
    requires Enabled(s, step) && (s.phase.Running? ==> s.phase.next <= |s.phase.batch|)
    ensures Places(Apply(s, step), ticket) ==
            Places(s, ticket) + if step == Push(true) && ticket == s.posted then 1 else 0
  {
    if step == Push(true) {
      TimesFront(s.deque, s.posted, ticket);
    } else if step.PopAll? {
      assert s.deque == s.deque[..Taken(s)] + s.deque[Taken(s)..];
      TimesConcat(s.deque[..Taken(s)], s.deque[Taken(s)..], ticket);
      assert s.deque[..Taken(s)][0..] == s.deque[..Taken(s)];
    } else if step.RunNext? {
      var b, i := s.phase.batch, s.phase.next;
      assert b[i..] == [b[i]] + b[i + 1..];
      TimesFront(b[i + 1..], b[i], ticket);
      TimesPush(s.ran, b[i], ticket);
    }
  }

  lemma InvKept(s: State, step: Step)
    requires Enabled(s, step) && Inv(s)
    ensures Inv(Apply(s, step))
  {
    hide Times, Places, Pending;
    var s' := Apply(s, step);
    forall ticket: nat ensures Places(s', ticket) == if ticket < s'.posted then 1 else 0 {
      PlacesKept(s, step, ticket);
      assert Places(s, ticket) == if ticket < s.posted then 1 else 0;
    }
    assert s.stops > 0 ==> s.stops * NOTIFY_QUIT >= NOTIFY_QUIT;
  }

  lemma {:induction false} InvHolds(s: State, steps: seq<Step>)
    requires Inv(s) && ValidRun(s, steps)
    ensures Inv(Exec(s, steps))
    decreases |steps|
  {
    if steps != [] {
      InvKept(s, steps[0]);
      InvHolds(Apply(s, steps[0]), steps[1..]);
    }
  }

  /* ---- theorems ---- */

  /** Until the runner has stopped, the deque holds one task for each notification
      counted, each poster between push and notify, and each notification read but
      not popped. So the runner never pops an empty deque, and what it pops are the
      newest tasks, newest first. */
  lemma NeverPopsEmpty(steps: seq<Step>)
    requires ValidRun(INIT, steps)
    ensures var s := Exec(INIT, steps);
            && (!s.phase.Stopped? ==>
                  && s.stops * NOTIFY_QUIT <= s.count
                  && |s.deque| == s.count - s.stops * NOTIFY_QUIT + s.posters + InHand(s))
            && (s.phase.Retrieved? ==> s.phase.e <= |s.deque|)
            && NewestFirst(s.deque, s.posted)
            && (s.phase.Running? ==> NewestFirst(s.phase.batch, s.posted))
  {
    InvHolds(INIT, steps);
  }

  /** Every accepted task is in the deque, in the batch, or has run, and that
      exactly once; so none runs twice. */
  lemma RunsAtMostOnce(steps: seq<Step>, ticket: nat)
    requires ValidRun(INIT, steps)
    ensures var s := Exec(INIT, steps);
            Times(s.deque, ticket) + Times(Pending(s), ticket) + Times(s.ran, ticket) ==
            if ticket < s.posted then 1 else 0
  {
    InvHolds(INIT, steps);
    var s := Exec(INIT, steps);
    assert Places(s, ticket) == if ticket < s.posted then 1 else 0;
  }

  /** When the runner sleeps on a zero counter and no poster is between push and
      notify, every accepted task has run. */
  lemma QuiescentAllRan(steps: seq<Step>, ticket: nat)
    requires ValidRun(INIT, steps)
    requires var s := Exec(INIT, steps); s.phase.Polling? && s.count == 0 && s.posters == 0 && ticket < s.posted
    ensures Exec(INIT, steps).deque == []
    ensures Times(Exec(INIT, steps).ran, ticket) == 1
  {
    InvHolds(INIT, steps);
    RunsAtMostOnce(steps, ticket);
  }

  /** The runner takes a counter for the signal to quit exactly when `stop` was
      called or at least NOTIFY_QUIT tasks are waiting. */
  lemma QuitsExactly(steps: seq<Step>)
    requires ValidRun(INIT, steps) && Enabled(Exec(INIT, steps), Retrieve)
    ensures var s := Exec(INIT, steps);
            Apply(s, Retrieve).phase.Stopped? <==> s.stops > 0 || |s.deque| - s.posters >= NOTIFY_QUIT
  {
    InvHolds(INIT, steps);
    var s := Exec(INIT, steps);
    assert s.stops > 0 ==> s.stops * NOTIFY_QUIT >= NOTIFY_QUIT;
  }

  /* ---- the steps of a run ---- */

  lemma {:induction false} HistoryFrom(s: State, steps: seq<Step>)
    requires ValidRun(s, steps)
    ensures var e := Exec(s, steps);
            && e.posted == s.posted + Times(steps, Push(true))
            && e.posters + Times(steps, Notify) == s.posters + Times(steps, Push(true))
            && e.stops == s.stops + Times(steps, Stop)
    decreases |steps|
  {
    hide Times;
    if steps == [] {
      NoneOf(Push(true));
      NoneOf(Notify);
      NoneOf(Stop);
    } else {
      var step, rest := steps[0], steps[1..];
      assert steps == [step] + rest;
      TimesFront(rest, step, Push(true));
      TimesFront(rest, step, Notify);
      TimesFront(rest, step, Stop);
      HistoryFrom(Apply(s, step), rest);
    }
  }

  lemma NoneOf(step: Step)
    ensures Times([], step) == 0
  {
  }

  /** One ticket for each callable post, one notification owed for each that has
      not made it, one stop for each stop. */
  lemma HistoryExactly(steps: seq<Step>)
    requires ValidRun(INIT, steps)
    ensures var s := Exec(INIT, steps);
            && s.posted == Times(steps, Push(true))
            && s.posters + Times(steps, Notify) == s.posted
            && s.stops == Times(steps, Stop)
  {
    HistoryFrom(INIT, steps);
  }

  /* ---- progress ---- */

  ghost predicate Reaches(s: State, steps: seq<Step>, end: State) {
    ValidRun(s, steps) && Exec(s, steps) == end
  }

  lemma ReachesSelf(s: State)
    ensures Reaches(s, [], s)
  {
  }

  lemma {:induction false} ReachesThen(s: State, a: seq<Step>, mid: State, b: seq<Step>, end: State)
    requires Reaches(s, a, mid) && Reaches(mid, b, end)
    ensures Reaches(s, a + b, end)
    decreases |a|
  {
    hide Enabled, Apply;
    if a == [] {
      assert a + b == b;
    } else {
      assert (a + b)[0] == a[0] && (a + b)[1..] == a[1..] + b;
      ReachesThen(Apply(s, a[0]), a[1..], mid, b, end);
    }
  }

  lemma ReachesBy(s: State, steps: seq<Step>, mid: State, step: Step, end: State)
    requires Reaches(s, steps, mid) && Enabled(mid, step) && Apply(mid, step) == end
    ensures Reaches(s, steps + [step], end)
  {
    hide Enabled, Apply;
    assert [step][1..] == [];
    ReachesSelf(end);
    assert ValidRun(mid, [step]) && Exec(mid, [step]) == end;
    ReachesThen(s, steps, mid, [step], end);
  }

  /** The batch can be run to its end. */
  lemma {:induction false} BatchEnds(s: State) returns (steps: seq<Step>, end: State)
    requires s.phase.Running? && s.phase.next <= |s.phase.batch|
    ensures Reaches(s, steps, end)
    ensures end == s.(phase := Polling, ran := s.ran + s.phase.batch[s.phase.next..])
    decreases |s.phase.batch| - s.phase.next
  {
    hide Reaches;
    ReachesSelf(s);
    var b, i := s.phase.batch, s.phase.next;
    if i == |b| {
      end := s.(phase := Polling);
      ReachesBy(s, [], s, Finish, end);
      steps := [] + [Finish];
      assert b[i..] == [] && s.ran + [] == s.ran;
    } else {
      var s' := Apply(s, RunNext);
      ReachesBy(s, [], s, RunNext, s');
      var rest;
      rest, end := BatchEnds(s');
      ReachesThen(s, [] + [RunNext], s', rest, end);
      steps := [] + [RunNext] + rest;
      assert s.ran + [b[i]] + b[i + 1..] == s.ran + b[i..];
    }
  }

  /** The runner gets back to its poll. */
  lemma GetsToPoll(s: State) returns (steps: seq<Step>, end: State)
    requires !s.phase.Stopped? && (s.phase.Running? ==> s.phase.next <= |s.phase.batch|)
    ensures Reaches(s, steps, end)
    ensures end.phase == Polling && end.count == s.count && end.posters == s.posters && end.posted == s.posted
    ensures end.stops == s.stops
  {
    hide Reaches;
    ReachesSelf(s);
    steps, end := [], s;
    if s.phase.Retrieved? {
      end := Apply(s, PopAll);
      ReachesBy(s, [], s, PopAll, end);
      steps := [] + [PopAll];
    }
    if end.phase.Running? {
      var rest, last := BatchEnds(end);
      ReachesThen(s, steps, end, rest, last);
      steps, end := steps + rest, last;
    }
  }

  /** The posters can make the notifications they owe. */
  lemma {:induction false} AllNotify(s: State) returns (steps: seq<Step>, end: State)
    ensures Reaches(s, steps, end) && end == s.(posters := 0, count := s.count + s.posters)
    decreases s.posters
  {
    hide Reaches;
    ReachesSelf(s);
    steps, end := [], s;
    if s.posters > 0 {
      var s' := Apply(s, Notify);
      ReachesBy(s, [], s, Notify, s');
      var rest;
      rest, end := AllNotify(s');
      ReachesThen(s, [] + [Notify], s', rest, end);
      steps := [] + [Notify] + rest;
    }
  }

  /** A polling runner with everything notified gets to rest. */
  lemma GetsToRest(s: State) returns (steps: seq<Step>, end: State)
    requires s.phase.Polling? && s.posters == 0 && s.count < NOTIFY_QUIT
    ensures Reaches(s, steps, end)
    ensures end.phase == Polling && end.posters == 0 && end.count == 0 && end.posted == s.posted
  {
    hide Reaches;
    ReachesSelf(s);
    steps, end := [], s;
    if s.count > 0 {
      var s1 := Apply(s, Retrieve);
      ReachesBy(s, [], s, Retrieve, s1);
      var rest;
      rest, end := GetsToPoll(s1);
      ReachesThen(s, [] + [Retrieve], s1, rest, end);
      steps := [] + [Retrieve] + rest;
    }
  }

  /** Unless it has been told to quit, the runner can run everything: the
      notifications that posters owe and its own steps lead to a state in which
      every accepted task has run exactly once. */
  lemma CanRunAll(run: seq<Step>) returns (steps: seq<Step>)
    requires ValidRun(INIT, run)
    requires var s := Exec(INIT, run); !s.phase.Stopped? && s.count + s.posters < NOTIFY_QUIT
    ensures var s := Exec(INIT, run);
            && ValidRun(s, steps) && Exec(s, steps).posted == s.posted
            && forall ticket: nat :: ticket < s.posted ==> Times(Exec(s, steps).ran, ticket) == 1
  {
    InvHolds(INIT, run);
    var s := Exec(INIT, run);
    assert Reaches(INIT, run, s);
    hide Times;
    var a, s1 := GetsToPoll(s);
    var b, s2 := AllNotify(s1);
    var c, end := GetsToRest(s2);
    ReachesThen(s, a, s1, b, s2);
    ReachesThen(s, a + b, s2, c, end);
    steps := a + b + c;
    ReachesThen(INIT, run, s, steps, end);
    forall ticket: nat | ticket < s.posted
      ensures Times(end.ran, ticket) == 1
    {
      QuiescentAllRan(run + steps, ticket);
    }
  }

  /* ---- the object ---- */

  /** The runner in its own form; every method takes one step, the two loops
      of `Run` one or several. */
  class Runner {
    var deque: seq<nat>
    var count: nat
    var posted: nat
    var ran: seq<nat>
    ghost var posters: nat
    ghost var phase: Phase
    ghost var stops: nat

    ghost function Abs(): State
      reads this
    {
      State(deque, count, posters, phase, stops, posted, ran)
    }

    constructor ()
      ensures Abs() == INIT
    {
      deque, count, posted, ran := [], 0, 0, [];
      posters, phase, stops := 0, Polling, 0;
    }

    /** The part of `post` under the lock. */
    method PushTask(callable: bool)
      modifies this
      ensures Abs() == Apply(old(Abs()), Push(callable))
    {
      if callable {
        deque := [posted] + deque;
        posted := posted + 1;
        posters := posters + 1;
      }
    }

    method NotifyOne()
      requires posters > 0
      modifies this
      ensures Abs() == Apply(old(Abs()), Notify)
    {
      count := count + 1;
      posters := posters - 1;
    }

    method ReadCounter() returns (e: nat)
      requires Enabled(Abs(), Retrieve)
      modifies this
      ensures Abs() == Apply(old(Abs()), Retrieve)
      ensures e == old(count) && (e < NOTIFY_QUIT ==> phase == Retrieved(e))
    {
      e := count;
      count := 0;
      phase := if e >= NOTIFY_QUIT then Stopped else Retrieved(e);
    }

    /** The loop `while (e--)`. Every pop finds a task. */
    method PopBatch(e: nat) returns (batch: seq<nat>)
      requires Inv(Abs()) && phase == Retrieved(e)
      modifies this
      ensures Inv(Abs()) && Abs() == Apply(old(Abs()), PopAll)
      ensures phase == Running(batch, 0) && |batch| == e
    {
      batch := [];
      InvKept(Abs(), PopAll);
      var left := e;
      while left > 0
        invariant 0 <= left <= e <= |old(deque)|
        invariant batch == old(deque)[..e - left] && deque == old(deque)[e - left..]
        invariant Abs() == old(Abs()).(deque := deque)
      {
        batch := batch + [deque[0]];
        deque := deque[1..];
        left := left - 1;
      }
      phase := Running(batch, 0);
    }

    /** Running the batch in order. */
    method RunBatch(batch: seq<nat>)
      requires phase == Running(batch, 0)
      modifies this
      ensures Abs() == old(Abs()).(ran := old(ran) + batch, phase := Polling)
    {
      for i := 0 to |batch|
        invariant Abs() == old(Abs()).(ran := old(ran) + batch[..i], phase := Running(batch, i))
      {
        ran := ran + [batch[i]];
        phase := Running(batch, i + 1);
      }
      phase := Polling;
    }
  }
}

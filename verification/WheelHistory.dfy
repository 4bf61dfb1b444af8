/** The heartbeat wheel on steps alone: who was accepted and heard from, and when,
    decides who is listed. */
module WheelHistory {
  import opened Tally
  import opened HeartbeatWheel

  /* ---- the steps of a run ---- */

  function TicksIn(steps: seq<Step>): nat {
    if steps == [] then 0 else (if steps[0].Tick? then 1 else 0) + TicksIn(steps[1..])
  }

  /** The descriptors accepted, in order: the i-th is that of record i. */
  function AcceptsIn(steps: seq<Step>): seq<int> {
    if steps == [] then []
    else if steps[0].Accept? then [steps[0].fd] + AcceptsIn(steps[1..])
    else AcceptsIn(steps[1..])
  }

  /** The last place of fd; |handlers| if it has none. */
  function Latest(handlers: seq<int>, fd: int): nat
    decreases |handlers|
  {
    if handlers == [] then 0
    else if handlers[|handlers| - 1] == fd then |handlers| - 1
    else
      var r := Latest(handlers[..|handlers| - 1], fd);
      if r == |handlers| - 1 then |handlers| else r
  }

  /** The references a run pushes: for an accept that of the new record, for a
      heartbeat that of the record its descriptor was last accepted for. */
  function PushesIn(steps: seq<Step>, handlers: seq<int>, ticks: nat): seq<Push>
    decreases |steps|
  {
    if steps == [] then []
    else
      match steps[0]
      case Accept(fd) => [Push(|handlers|, ticks)] + PushesIn(steps[1..], handlers + [fd], ticks)
      case Beat(fd) => [Push(Latest(handlers, fd), ticks)] + PushesIn(steps[1..], handlers, ticks)
      case Tick => PushesIn(steps[1..], handlers, ticks + 1)
  }

  lemma LatestPush(handlers: seq<int>, x: int, fd: int)
    ensures x == fd ==> Latest(handlers + [x], fd) == |handlers|
    ensures x != fd && Latest(handlers, fd) < |handlers| ==> Latest(handlers + [x], fd) == Latest(handlers, fd)
  {
    assert (handlers + [x])[..|handlers|] == handlers;
  }

  /** A listed descriptor is listed with its latest record. */
  ghost predicate ListsLatest(s: State) {
    forall fd :: fd in s.table ==> s.table[fd] == Latest(s.handlers, fd) < |s.handlers|
  }

  lemma ListsLatestKept(s: State, step: Step)
    requires Inv(s) && Enabled(s, step) && ListsLatest(s)
    ensures ListsLatest(Apply(s, step))
  {
    hide Latest, Sweep, Logged, Tallied, Kept, Ordered;
    var s' := Apply(s, step);
    forall fd | fd in s'.table
      ensures s'.table[fd] == Latest(s'.handlers, fd) < |s'.handlers|
    {
      if step.Accept? {
        LatestPush(s.handlers, step.fd, fd);
      } else if step.Tick? {
        KeptTick(s, fd);
      }
    }
  }

  lemma StepHistory(s: State, step: Step)
    requires Enabled(s, step) && ListsLatest(s)
    ensures var s' := Apply(s, step);
            && s'.ticks == s.ticks + (if step.Tick? then 1 else 0)
            && s'.handlers == s.handlers + (if step.Accept? then [step.fd] else [])
            && s'.pushes == s.pushes + (match step
                                        case Accept(_) => [Push(|s.handlers|, s.ticks)]
                                        case Beat(fd) => [Push(Latest(s.handlers, fd), s.ticks)]
                                        case Tick => [])
  {
    hide Latest, Sweep;
    assert s.handlers + [] == s.handlers && s.pushes + [] == s.pushes;
  }

  lemma {:induction false} HistoryFrom(s: State, steps: seq<Step>)
    requires Inv(s) && ListsLatest(s) && ValidRun(s, steps)
    ensures var e := Exec(s, steps);
            && e.ticks == s.ticks + TicksIn(steps)
            && e.handlers == s.handlers + AcceptsIn(steps)
            && e.pushes == s.pushes + PushesIn(steps, s.handlers, s.ticks)
            && ListsLatest(e)
    decreases |steps|
  {
    hide Apply, Enabled, Inv, ListsLatest, Latest;
    if steps == [] {
      assert s.handlers + [] == s.handlers && s.pushes + [] == s.pushes;
    } else {
      var step, s' := steps[0], Apply(s, steps[0]);
      StepHistory(s, step);
      ListsLatestKept(s, step);
      InvKept(s, step);
      HistoryFrom(s', steps[1..]);
      var more := PushesIn(steps[1..], s'.handlers, s'.ticks);
      assert s.handlers + [] == s.handlers && s.pushes + [] == s.pushes;
      match step
      case Accept(fd) =>
        assert (s.handlers + [fd]) + AcceptsIn(steps[1..]) == s.handlers + ([fd] + AcceptsIn(steps[1..]));
        assert (s.pushes + [Push(|s.handlers|, s.ticks)]) + more == s.pushes + ([Push(|s.handlers|, s.ticks)] + more);
      case Beat(fd) =>
        var p := Push(Latest(s.handlers, fd), s.ticks);
        assert (s.pushes + [p]) + more == s.pushes + ([p] + more);
      case Tick =>
    }
  }

  /** Ticks, records and pushes of a run are those of its steps. */
  lemma HistoryExactly(n: nat, steps: seq<Step>)
    requires Sized(n) && ValidRun(Init(n), steps)
    ensures var s := Exec(Init(n), steps);
            && s.ticks == TicksIn(steps) && s.handlers == AcceptsIn(steps) && s.pushes == PushesIn(steps, [], 0)
            && (forall fd :: fd in s.table ==> s.table[fd] == Latest(s.handlers, fd))
  {
    hide Exec, PushesIn, AcceptsIn, TicksIn;
    ReachableInv(n, []);
    NoSteps(Init(n));
    HistoryFrom(Init(n), steps);
    assert [] + AcceptsIn(steps) == AcceptsIn(steps) && [] + PushesIn(steps, [], 0) == PushesIn(steps, [], 0);
  }

  lemma NoSteps(s: State)
    ensures ValidRun(s, []) && Exec(s, []) == s
  {
  }

  /* ---- when a worker was heard from ---- */

  /** The ticks before each accept of fd or heartbeat on it. */
  function Heard(steps: seq<Step>, fd: int, ticks: nat): seq<nat>
    decreases |steps|
  {
    if steps == [] then []
    else if steps[0].Tick? then Heard(steps[1..], fd, ticks + 1)
    else if steps[0].fd == fd then [ticks] + Heard(steps[1..], fd, ticks)
    else Heard(steps[1..], fd, ticks)
  }

  /** The intervals in which a record was pushed. */
  function TimesOf(pushes: seq<Push>, r: nat): seq<nat>
    decreases |pushes|
  {
    if pushes == [] then []
    else if pushes[0].record == r then [pushes[0].at] + TimesOf(pushes[1..], r)
    else TimesOf(pushes[1..], r)
  }

  lemma {:induction false} TimesOfConcat(a: seq<Push>, b: seq<Push>, r: nat)
    ensures TimesOf(a + b, r) == TimesOf(a, r) + TimesOf(b, r)
    decreases |a|
  {
    if a == [] {
      assert a + b == b;
    } else {
      assert (a + b)[1..] == a[1..] + b;
      TimesOfConcat(a[1..], b, r);
    }
  }

  lemma TimesOfPush(pushes: seq<Push>, p: Push, r: nat)
    ensures TimesOf(pushes + [p], r) == TimesOf(pushes, r) + if p.record == r then [p.at] else []
  {
    TimesOfConcat(pushes, [p], r);
    assert [p][1..] == [];
  }

  function LastOf(times: seq<nat>): int {
    if times == [] then -1 else times[|times| - 1]
  }

  /** Counting a record's pushes by their intervals. */
  lemma {:induction false} TimesOfExact(pushes: seq<Push>, r: nat, at: nat)
    ensures Times(PushedAt(pushes, at), r) == Times<nat>(TimesOf(pushes, r), at)
    decreases |pushes|
  {
    if pushes != [] {
      var init, p := pushes[..|pushes| - 1], pushes[|pushes| - 1];
      assert pushes == init + [p];
      hide TimesOf, PushedAt, Times;
      TimesOfExact(init, r, at);
      TimesOfPush(init, p, r);
      PushedAtPush(init, p, at);
      TimesPush<nat>(TimesOf(init, r), p.at, at);
      TimesPush(PushedAt(init, at), p.record, r);
      assert PushedAt(init, at) + [] == PushedAt(init, at) && TimesOf(init, r) + [] == TimesOf(init, r);
    }
  }

  lemma {:induction false} LastOfExact(pushes: seq<Push>, r: nat)
    ensures LastPush(pushes, r) == LastOf(TimesOf(pushes, r))
    decreases |pushes|
  {
    if pushes != [] {
      var init, p := pushes[..|pushes| - 1], pushes[|pushes| - 1];
      assert pushes == init + [p];
      hide TimesOf, LastPush;
      LastOfExact(init, r);
      TimesOfPush(init, p, r);
      LastPushPush(init, p, r);
      assert TimesOf(init, r) + [] == TimesOf(init, r);
    }
  }

  lemma {:induction false} LatestIs(handlers: seq<int>, fd: int)
    ensures Latest(handlers, fd) <= |handlers|
    ensures Latest(handlers, fd) < |handlers| ==> handlers[Latest(handlers, fd)] == fd
    decreases |handlers|
  {
    if handlers != [] {
      LatestIs(handlers[..|handlers| - 1], fd);
    }
  }

  /** The pushes of a worker's record are the heartbeats on its descriptor. */
  lemma {:induction false} HeardPushes(steps: seq<Step>, handlers: seq<int>, ticks: nat, fd: int)
    requires Accept(fd) !in steps && Latest(handlers, fd) < |handlers|
    ensures TimesOf(PushesIn(steps, handlers, ticks), Latest(handlers, fd)) == Heard(steps, fd, ticks)
    decreases |steps|
  {
    if steps != [] {
      var step, rest, r := steps[0], steps[1..], Latest(handlers, fd);
      hide Latest;
      LatestIs(handlers, fd);
      match step
      case Accept(x) =>
        LatestPush(handlers, x, fd);
        var p, more := Push(|handlers|, ticks), PushesIn(rest, handlers + [x], ticks);
        assert PushesIn(steps, handlers, ticks) == [p] + more;
        assert ([p] + more)[1..] == more;
        HeardPushes(rest, handlers + [x], ticks, fd);
      case Beat(x) =>
        LatestIs(handlers, x);
        var p, more := Push(Latest(handlers, x), ticks), PushesIn(rest, handlers, ticks);
        assert PushesIn(steps, handlers, ticks) == [p] + more;
        assert ([p] + more)[1..] == more;
        HeardPushes(rest, handlers, ticks, fd);
      case Tick => HeardPushes(rest, handlers, ticks + 1, fd);
    }
  }

  lemma {:induction false} NotYetPushed(pushes: seq<Push>, r: nat)
    requires forall a :: 0 <= a < |pushes| ==> pushes[a].record < r
    ensures TimesOf(pushes, r) == []
    decreases |pushes|
  {
    if pushes != [] {
      NotYetPushed(pushes[1..], r);
    }
  }

  /** A run that accepts fd after the steps a and then takes the steps b. */
  ghost predicate AcceptedIn(n: nat, a: seq<Step>, b: seq<Step>, fd: int) {
    && Sized(n) && ValidRun(Init(n), a) && Enabled(Exec(Init(n), a), Accept(fd))
    && ValidRun(Apply(Exec(Init(n), a), Accept(fd)), b) && Accept(fd) !in b
  }

  /** When the worker accepted then was heard from, the accept included. */
  function HeardFrom(a: seq<Step>, b: seq<Step>, fd: int): seq<nat> {
    [TicksIn(a)] + Heard(b, fd, TicksIn(a))
  }

  /** The pushes of the record accepted after a are, interval by interval, as many
      as the accept of and the heartbeats on its descriptor. */
  lemma HeardExactly(n: nat, a: seq<Step>, b: seq<Step>, fd: int)
    requires AcceptedIn(n, a, b, fd)
    ensures var s := Exec(Apply(Exec(Init(n), a), Accept(fd)), b);
            TimesOf(s.pushes, |AcceptsIn(a)|) == HeardFrom(a, b, fd) && s.ticks == TicksIn(a) + TicksIn(b)
  {
    hide Exec, ValidRun, PushesIn, AcceptsIn, TicksIn, Heard, TimesOf, Latest, Sweep, Logged, Tallied, Kept, Ordered;
    var s0 := Exec(Init(n), a);
    var s1, r := Apply(s0, Accept(fd)), |s0.handlers|;
    ReachableInv(n, a);
    InvKept(s0, Accept(fd));
    HistoryExactly(n, a);
    HistoryLatest(n, a);
    ListsLatestKept(s0, Accept(fd));
    HistoryFrom(s1, b);
    LatestPush(s0.handlers, fd, fd);
    HeardPushes(b, s1.handlers, s1.ticks, fd);
    NotYetPushed(s0.pushes, r);
    TimesOfPush(s0.pushes, Push(r, s0.ticks), r);
    TimesOfConcat(s1.pushes, PushesIn(b, s1.handlers, s1.ticks), r);
    assert [] + [s0.ticks] == [s0.ticks];
  }

  lemma HistoryLatest(n: nat, steps: seq<Step>)
    requires Sized(n) && ValidRun(Init(n), steps)
    ensures ListsLatest(Exec(Init(n), steps))
  {
    hide Latest;
    ReachableInv(n, []);
    NoSteps(Init(n));
    HistoryFrom(Init(n), steps);
  }

  /** On steps alone: n ticks have not passed since the worker was last heard from,
      or that interval heard from it twice. */
  predicate KeptBySteps(n: nat, a: seq<Step>, b: seq<Step>, fd: int) {
    var heard := HeardFrom(a, b, fd);
    var last := heard[|heard| - 1];
    TicksIn(a) + TicksIn(b) < last + n || Times<nat>(heard, last) >= 2
  }

  /** A worker is listed exactly when it was heard from within n ticks, or twice in
      the last interval it was heard from at all, and no earlier record of its
      descriptor has done harm. */
  lemma WorkerListedExactly(n: nat, a: seq<Step>, b: seq<Step>, fd: int)
    requires AcceptedIn(n, a, b, fd)
    ensures var s := Exec(Init(n), a); var s' := Exec(Apply(s, Accept(fd)), b);
            fd in s'.table <==>
            KeptBySteps(n, a, b, fd) && !Harmed(s, fd, |AcceptsIn(a)|, TicksIn(a), TicksIn(a) + TicksIn(b))
  {
    hide Exec, ValidRun, AcceptsIn, TicksIn, Heard, TimesOf, Latest, Sweep, Harmed, PushedAt, LastPush, Times;
    HeardExactly(n, a, b, fd);
    HistoryExactly(n, a);
    DroppedEarlyExactly(n, a, b, fd);
    var s' := Exec(Apply(Exec(Init(n), a), Accept(fd)), b);
    var heard := HeardFrom(a, b, fd);
    var r, last := |AcceptsIn(a)|, heard[|heard| - 1];
    TimesOfExact(s'.pushes, r, last);
    LastOfExact(s'.pushes, r);
    assert LastPush(s'.pushes, r) == last;
    assert StillListed(s'.ticks, n, s'.pushes, r) <==> KeptBySteps(n, a, b, fd);
  }

  lemma {:induction false} AcceptsAre(steps: seq<Step>, fd: int)
    ensures fd in AcceptsIn(steps) <==> Accept(fd) in steps
    decreases |steps|
  {
    if steps != [] {
      AcceptsAre(steps[1..], fd);
      assert steps == [steps[0]] + steps[1..];
    }
  }

  /** Without an earlier accept of the descriptor the steps alone decide. */
  lemma FirstWorkerListedExactly(n: nat, a: seq<Step>, b: seq<Step>, fd: int)
    requires AcceptedIn(n, a, b, fd) && Accept(fd) !in a
    ensures fd in Exec(Apply(Exec(Init(n), a), Accept(fd)), b).table <==> KeptBySteps(n, a, b, fd)
  {
    hide Exec, ValidRun, TicksIn, Heard, AcceptsIn, KeptBySteps, Harms;
    WorkerListedExactly(n, a, b, fd);
    HistoryExactly(n, a);
    AcceptsAre(a, fd);
    var s := Exec(Init(n), a);
    assert forall q: nat :: q < |s.handlers| ==> s.handlers[q] != fd;
  }

  lemma {:induction false} SilentHears(steps: seq<Step>, fd: int, ticks: nat)
    requires Silent(steps, fd)
    ensures Heard(steps, fd, ticks) == []
    decreases |steps|
  {
    if steps != [] {
      SilentHears(steps[1..], fd, if steps[0].Tick? then ticks + 1 else ticks);
    }
  }

  /** A beat before the next tick falls into the interval of the accept. */
  lemma {:induction false} LastHeard(u: seq<Step>, c: seq<Step>, fd: int, ticks: nat)
    requires Tick !in u && Silent(c, fd)
    ensures var heard := Heard(u + [Beat(fd)] + c, fd, ticks); heard != [] && heard[|heard| - 1] == ticks
    decreases |u|
  {
    var b := u + [Beat(fd)] + c;
    if u == [] {
      assert b == [Beat(fd)] + c && b[1..] == c;
      SilentHears(c, fd, ticks);
    } else {
      assert b[1..] == u[1..] + [Beat(fd)] + c && b[0] == u[0];
      LastHeard(u[1..], c, fd, ticks);
    }
  }

  /** A worker accepted and last heard from in one interval and silent ever after
      stays listed, however many ticks pass. */
  lemma HeardTwiceStays(n: nat, a: seq<Step>, u: seq<Step>, c: seq<Step>, fd: int)
    requires AcceptedIn(n, a, u + [Beat(fd)] + c, fd) && Accept(fd) !in a
    requires Tick !in u && Silent(c, fd)
    ensures fd in Exec(Apply(Exec(Init(n), a), Accept(fd)), u + [Beat(fd)] + c).table
  {
    var b := u + [Beat(fd)] + c;
    hide Exec, ValidRun, Heard;
    LastHeard(u, c, fd, TicksIn(a));
    var heard := HeardFrom(a, b, fd);
    TimesTwice<nat>(heard, 0, |heard| - 1);
    FirstWorkerListedExactly(n, a, b, fd);
  }
}

/** Heartbeat eviction in socket/monitor/examples/coordinator.cpp on the time
    wheel of socket/monitor/time_wheel.h. A record is one accepted worker
    connection, named by its number; the wheel, the slot taken by a tick and the
    table of workers hold counted references to it. */
module HeartbeatWheel {
  import opened Tally

  /** A reference pushed into the wheel between tick `at` and the next one. */
  datatype Push = Push(record: nat, at: nat)

  datatype State = State(
    wheel: seq<seq<nat>>,
    i: nat,
    table: map<int, nat>,
    handlers: seq<int>,
    ticks: nat,
    pushes: seq<Push>)

  datatype Step = Accept(fd: int) | Beat(fd: int) | Tick

  predicate Sized(n: nat) { 3 < n < 100 }

  function Init(n: nat): State
    requires Sized(n)
  {
    State(seq(n, _ => []), n - 1, map[], [], 0, [])
  }

  /* ---- reference counts ---- */

  function WheelTimes(wheel: seq<seq<nat>>, r: nat): nat {
    if wheel == [] then 0 else WheelTimes(wheel[..|wheel| - 1], r) + Times(wheel[|wheel| - 1], r)
  }

  function Owners(table: map<int, nat>, r: nat): set<int> {
    set fd | fd in table && table[fd] == r
  }

  /** `use_count()` while a tick holds `slot`. */
  function UseCount(slot: seq<nat>, wheel: seq<seq<nat>>, table: map<int, nat>, r: nat): nat {
    Times(slot, r) + WheelTimes(wheel, r) + |Owners(table, r)|
  }

  /** The loop of `OnWheelTick` from position j on. */
  function Sweep(slot: seq<nat>, j: nat, wheel: seq<seq<nat>>, handlers: seq<int>, table: map<int, nat>): map<int, nat>
    requires j <= |slot| && forall k :: 0 <= k < |slot| ==> slot[k] < |handlers|
    decreases |slot| - j
  {
    if j == |slot| then table
    else if UseCount(slot, wheel, table, slot[j]) == 2 then
      Sweep(slot, j + 1, wheel, handlers, table - {handlers[slot[j]]})
    else
      Sweep(slot, j + 1, wheel, handlers, table)
  }

  /* ---- steps ---- */

  predicate WellFormed(s: State) {
    && s.i < |s.wheel|
    && (forall j, k :: 0 <= j < |s.wheel| && 0 <= k < |s.wheel[j]| ==> s.wheel[j][k] < |s.handlers|)
    && (forall fd :: fd in s.table ==> s.table[fd] < |s.handlers|)
  }

  function NextIndex(s: State): nat
    requires WellFormed(s)
  {
    if s.i == 0 then |s.wheel| - 1 else s.i - 1
  }

  /** A descriptor may be given out again at any time; heartbeats come from
      listed workers. */
  predicate Enabled(s: State, step: Step) {
    && WellFormed(s)
    && match step
       case Accept(_) => true
       case Beat(fd) => fd in s.table
       case Tick => true
  }

  function PushInto(s: State, r: nat): State
    requires s.i < |s.wheel|
  {
    s.(wheel := s.wheel[s.i := s.wheel[s.i] + [r]], pushes := s.pushes + [Push(r, s.ticks)])
  }

  function Apply(s: State, step: Step): State
    requires Enabled(s, step)
  {
    match step
    case Accept(fd) =>
      var r := |s.handlers|;
      PushInto(s.(handlers := s.handlers + [fd], table := s.table[fd := r]), r)
    case Beat(fd) => PushInto(s, s.table[fd])
    case Tick =>
      var k := NextIndex(s);
      var rest := s.wheel[k := []];
      s.(wheel := rest, i := k, ticks := s.ticks + 1,
         table := Sweep(s.wheel[k], 0, rest, s.handlers, s.table))
  }

  predicate ValidRun(s: State, steps: seq<Step>)
    decreases |steps|
  {
    steps != [] ==> Enabled(s, steps[0]) && ValidRun(Apply(s, steps[0]), steps[1..])
  }

  function Exec(s: State, steps: seq<Step>): State
    requires ValidRun(s, steps)
    decreases |steps|
  {
    if steps == [] then s else Exec(Apply(s, steps[0]), steps[1..])
  }

  /* ---- what the sweep removes ---- */

  predicate TableAgrees(table: map<int, nat>, handlers: seq<int>) {
    forall fd :: fd in table ==> table[fd] < |handlers| && handlers[table[fd]] == fd
  }

  predicate Lists(table: map<int, nat>, fd: int, r: nat) {
    fd in table && table[fd] == r
  }

  /** A record is owned by its own descriptor or not at all. */
  lemma OwnersAre(table: map<int, nat>, handlers: seq<int>, r: nat)
    requires TableAgrees(table, handlers) && r < |handlers|
    ensures |Owners(table, r)| == if Lists(table, handlers[r], r) then 1 else 0
  {
    assert forall fd :: fd in Owners(table, r) ==> fd == handlers[r];
    if Lists(table, handlers[r], r) {
      assert Owners(table, r) == {handlers[r]};
    } else {
      assert Owners(table, r) == {};
    }
  }

  lemma OwnersWithout(table: map<int, nat>, handlers: seq<int>, fd: int, r: nat)
    requires TableAgrees(table, handlers) && r < |handlers| && handlers[r] != fd
    ensures Owners(table - {fd}, r) == Owners(table, r)
  {
  }

  /** The sweep drops a descriptor exactly when one of the slot's records of that
      descriptor, listed or not, is counted twice. */
  lemma {:induction false} SweepExact(
    slot: seq<nat>, j: nat, wheel: seq<seq<nat>>, handlers: seq<int>, table: map<int, nat>, fd: int)
    requires j <= |slot| && (forall k :: 0 <= k < |slot| ==> slot[k] < |handlers|)
    requires TableAgrees(table, handlers)
    ensures var out := Sweep(slot, j, wheel, handlers, table);
            && (fd in out <==>
                && fd in table
                && forall k :: j <= k < |slot| && handlers[slot[k]] == fd ==> UseCount(slot, wheel, table, slot[k]) != 2)
            && (fd in out ==> out[fd] == table[fd])
    decreases |slot| - j
  {
    if j < |slot| {
      var x := handlers[slot[j]];
      if UseCount(slot, wheel, table, slot[j]) == 2 {
        SweepExact(slot, j + 1, wheel, handlers, table - {x}, fd);
        forall k | j < k < |slot| && handlers[slot[k]] == fd != x
          ensures UseCount(slot, wheel, table - {x}, slot[k]) == UseCount(slot, wheel, table, slot[k])
        {
          OwnersWithout(table, handlers, x, slot[k]);
        }
      } else {
        SweepExact(slot, j + 1, wheel, handlers, table, fd);
      }
    }
  }

  /* ---- the wheel as a log ---- */

  /** The references pushed between tick `at` and the next one, in order. */
  function PushedAt(pushes: seq<Push>, at: int): seq<nat> {
    if pushes == [] then []
    else
      var rest, p := PushedAt(pushes[..|pushes| - 1], at), pushes[|pushes| - 1];
      if p.at == at then rest + [p.record] else rest
  }

  /** How often the record was pushed at `at` or later. */
  function Since(pushes: seq<Push>, r: nat, at: int): nat {
    if pushes == [] then 0
    else
      var p := pushes[|pushes| - 1];
      Since(pushes[..|pushes| - 1], r, at) + if p.record == r && p.at >= at then 1 else 0
  }

  /** The tick before the record's last push, or -1. */
  function LastPush(pushes: seq<Push>, r: nat): int {
    if pushes == [] then -1
    else if pushes[|pushes| - 1].record == r then pushes[|pushes| - 1].at
    else LastPush(pushes[..|pushes| - 1], r)
  }

  predicate Ordered(pushes: seq<Push>, ticks: nat) {
    && (forall a, b :: 0 <= a < b < |pushes| ==> pushes[a].at <= pushes[b].at)
    && (forall a :: 0 <= a < |pushes| ==> pushes[a].at <= ticks)
  }

  lemma PushedAtPush(pushes: seq<Push>, p: Push, at: int)
    ensures PushedAt(pushes + [p], at) == PushedAt(pushes, at) + if p.at == at then [p.record] else []
  {
    assert (pushes + [p])[..|pushes|] == pushes;
  }

  lemma SincePush(pushes: seq<Push>, p: Push, r: nat, at: int)
    ensures Since(pushes + [p], r, at) == Since(pushes, r, at) + if p.record == r && p.at >= at then 1 else 0
  {
    assert (pushes + [p])[..|pushes|] == pushes;
  }

  lemma LastPushPush(pushes: seq<Push>, p: Push, r: nat)
    ensures LastPush(pushes + [p], r) == if p.record == r then p.at else LastPush(pushes, r)
  {
    assert (pushes + [p])[..|pushes|] == pushes;
  }

  /** A record's pushes from `at` on are those of that interval and the later ones. */
  lemma {:induction false} SinceSplits(pushes: seq<Push>, r: nat, at: int)
    ensures Since(pushes, r, at) == Times(PushedAt(pushes, at), r) + Since(pushes, r, at + 1)
    decreases |pushes|
  {
    if pushes != [] {
      var init, p := pushes[..|pushes| - 1], pushes[|pushes| - 1];
      SinceSplits(init, r, at);
      if p.at == at {
        TimesPush(PushedAt(init, at), p.record, r);
      }
    }
  }

  lemma {:induction false} LastBound(pushes: seq<Push>, r: nat, bound: nat)
    requires forall a :: 0 <= a < |pushes| ==> pushes[a].at <= bound
    ensures -1 <= LastPush(pushes, r) <= bound
    decreases |pushes|
  {
    if pushes != [] && pushes[|pushes| - 1].record != r {
      LastBound(pushes[..|pushes| - 1], r, bound);
    }
  }

  /** Nothing was pushed since `at` exactly when the last push was before. */
  lemma {:induction false} SinceZero(pushes: seq<Push>, ticks: nat, r: nat, at: nat)
    requires Ordered(pushes, ticks)
    ensures Since(pushes, r, at) == 0 <==> LastPush(pushes, r) < at
    decreases |pushes|
  {
    if pushes != [] {
      var init, p := pushes[..|pushes| - 1], pushes[|pushes| - 1];
      SinceZero(init, ticks, r, at);
      if p.record == r {
        LastBound(init, r, p.at);
      }
    }
  }

  lemma {:induction false} SinceFalls(pushes: seq<Push>, r: nat, at: int, later: int)
    requires at <= later
    ensures Since(pushes, r, later) <= Since(pushes, r, at)
    decreases |pushes|
  {
    if pushes != [] {
      SinceFalls(pushes[..|pushes| - 1], r, at, later);
    }
  }

  lemma {:induction false} PushedWithin(pushes: seq<Push>, ticks: nat, r: nat, at: int)
    requires Ordered(pushes, ticks) && r in PushedAt(pushes, at)
    ensures 0 <= at <= ticks && exists a :: 0 <= a < |pushes| && pushes[a].record == r
    decreases |pushes|
  {
    var init, p := pushes[..|pushes| - 1], pushes[|pushes| - 1];
    if p.at != at || p.record != r {
      PushedWithin(init, ticks, r, at);
      var a :| 0 <= a < |init| && init[a].record == r;
      assert pushes[a].record == r;
    }
  }

  lemma {:induction false} NothingPushedLater(pushes: seq<Push>, ticks: nat, at: int)
    requires Ordered(pushes, ticks) && at > ticks
    ensures PushedAt(pushes, at) == []
    decreases |pushes|
  {
    if pushes != [] {
      NothingPushedLater(pushes[..|pushes| - 1], ticks, at);
    }
  }

  /** The record's last reference is the only one of interval `at`: it was pushed
      there once, and not since. */
  lemma {:induction false} LastReference(pushes: seq<Push>, ticks: nat, r: nat, at: int)
    requires Ordered(pushes, ticks)
    ensures r in PushedAt(pushes, at) && Since(pushes, r, at) == 1 <==>
            LastPush(pushes, r) == at >= 0 && Times(PushedAt(pushes, at), r) == 1
  {
    hide LastPush, Since, PushedAt, Ordered;
    SinceSplits(pushes, r, at);
    TimesMember(PushedAt(pushes, at), r);
    if at >= 0 {
      SinceZero(pushes, ticks, r, at);
      SinceZero(pushes, ticks, r, at + 1);
    } else if r in PushedAt(pushes, at) {
      PushedWithin(pushes, ticks, r, at);
    }
  }

  /* ---- the wheel holds the last n intervals ---- */

  /** How many ticks ago slot j was the current one. */
  function Age(n: nat, i: nat, j: nat): nat
    requires i < n && j < n
  {
    if j >= i then j - i else j + n - i
  }

  /** Every slot holds exactly the pushes of its interval. */
  predicate Logged(s: State)
    requires s.i < |s.wheel|
  {
    forall j :: 0 <= j < |s.wheel| ==> s.wheel[j] == PushedAt(s.pushes, s.ticks - Age(|s.wheel|, s.i, j))
  }

  /** The interval whose references the next tick takes out. */
  function Oldest(s: State): int {
    s.ticks + 1 - |s.wheel|
  }

  /** The references in the wheel are the pushes of the last n intervals. */
  ghost predicate Tallied(s: State) {
    forall r: nat :: WheelTimes(s.wheel, r) == Since(s.pushes, r, Oldest(s))
  }

  lemma {:induction false} WheelUpdate(wheel: seq<seq<nat>>, k: nat, slot: seq<nat>, r: nat)
    requires k < |wheel|
    ensures WheelTimes(wheel[k := slot], r) + Times(wheel[k], r) == WheelTimes(wheel, r) + Times(slot, r)
    decreases |wheel|
  {
    var e := |wheel| - 1;
    if k < e {
      WheelUpdate(wheel[..e], k, slot, r);
      assert wheel[k := slot][..e] == wheel[..e][k := slot];
    } else {
      assert wheel[k := slot][..e] == wheel[..e];
    }
  }

  /** A worker whose last interval saw several pushes is not swept out for its own
      record; any other is listed at most until n ticks after its last push. */
  predicate StillListed(ticks: nat, n: nat, pushes: seq<Push>, r: nat) {
    ticks < LastPush(pushes, r) + n || Times(PushedAt(pushes, LastPush(pushes, r)), r) >= 2
  }

  predicate Kept(s: State, r: nat) {
    0 <= LastPush(s.pushes, r) && StillListed(s.ticks, |s.wheel|, s.pushes, r)
  }

  predicate Recorded(s: State) {
    forall a :: 0 <= a < |s.pushes| ==> s.pushes[a].record < |s.handlers|
  }

  /** What every callback keeps, whether or not descriptors are reused. */
  ghost predicate Inv(s: State) {
    && WellFormed(s) && Sized(|s.wheel|)
    && Ordered(s.pushes, s.ticks)
    && Logged(s)
    && Tallied(s)
    && TableAgrees(s.table, s.handlers)
    && (forall fd :: fd in s.table ==> Kept(s, s.table[fd]))
    && Recorded(s)
  }

  /* ---- eviction, tick by tick ---- */

  lemma OldestSlot(s: State)
    requires WellFormed(s) && Logged(s)
    ensures s.wheel[NextIndex(s)] == PushedAt(s.pushes, Oldest(s))
  {
  }

  /** `use_count()` in a tick: the pushes of the last n intervals, and one for a
      record that is listed. */
  lemma UseCountExact(s: State, r: nat)
    requires Inv(s) && r < |s.handlers|
    ensures var k := NextIndex(s);
            UseCount(s.wheel[k], s.wheel[k := []], s.table, r) ==
            Since(s.pushes, r, Oldest(s)) + if Lists(s.table, s.handlers[r], r) then 1 else 0
  {
    hide Logged, Kept, Since, PushedAt, WheelTimes, Recorded, Owners;
    var k := NextIndex(s);
    WheelUpdate(s.wheel, k, [], r);
    OwnersAre(s.table, s.handlers, r);
    assert WheelTimes(s.wheel, r) == Since(s.pushes, r, Oldest(s));
  }

  /** An unlisted record that is pushed in interval `at` and once more in it or
      later: the tick that takes the interval out finds its count at two. */
  predicate Harms(pushes: seq<Push>, q: nat, at: int) {
    q in PushedAt(pushes, at) && Since(pushes, q, at) == 2
  }

  /** An earlier record of fd than r does harm in interval `at`. */
  ghost predicate HarmedAt(s: State, fd: int, r: nat, at: int) {
    exists q: nat :: q < |s.handlers| && q != r && s.handlers[q] == fd && Harms(s.pushes, q, at)
  }

  /** Which record makes this tick drop fd. */
  lemma DroppedBy(s: State, fd: int)
    requires Inv(s) && fd in s.table
    ensures fd !in Apply(s, Tick).table <==>
            || (s.table[fd] in PushedAt(s.pushes, Oldest(s)) && Since(s.pushes, s.table[fd], Oldest(s)) == 1)
            || HarmedAt(s, fd, s.table[fd], Oldest(s))
    ensures fd in Apply(s, Tick).table ==> Apply(s, Tick).table[fd] == s.table[fd]
  {
    var k, r, h := NextIndex(s), s.table[fd], Oldest(s);
    var slot, rest := s.wheel[k], s.wheel[k := []];
    OldestSlot(s);
    SweepExact(slot, 0, rest, s.handlers, s.table, fd);
    hide Since, PushedAt, Sweep, UseCount, Logged, Kept, Tallied, Ordered, Recorded;
    forall q | q in slot && s.handlers[q] == fd
      ensures UseCount(slot, rest, s.table, q) == Since(s.pushes, q, h) + if q == r then 1 else 0
    {
      UseCountExact(s, q);
    }
    if fd !in Apply(s, Tick).table {
      var a :| 0 <= a < |slot| && s.handlers[slot[a]] == fd && UseCount(slot, rest, s.table, slot[a]) == 2;
      assert slot[a] in slot;
      if slot[a] != r {
        assert Harms(s.pushes, slot[a], h);
      }
    }
    if r in slot && Since(s.pushes, r, h) == 1 {
      var a :| 0 <= a < |slot| && slot[a] == r;
      assert UseCount(slot, rest, s.table, slot[a]) == 2;
    }
    if HarmedAt(s, fd, r, h) {
      var q: nat :| q < |s.handlers| && q != r && s.handlers[q] == fd && Harms(s.pushes, q, h);
      var a :| 0 <= a < |slot| && slot[a] == q;
      assert UseCount(slot, rest, s.table, slot[a]) == 2;
    }
  }

  /** A tick drops a listed worker exactly when it is the n-th after the worker's
      last push and that interval saw just one push of it, or when an earlier
      record of the same descriptor has its last two references from the slot on. */
  lemma DroppedExactly(s: State, fd: int)
    requires Inv(s) && fd in s.table
    ensures var r := s.table[fd]; var last := LastPush(s.pushes, r); var s' := Apply(s, Tick);
            && (fd !in s'.table <==>
                || (last + |s.wheel| == s.ticks + 1 && Times(PushedAt(s.pushes, last), r) == 1)
                || HarmedAt(s, fd, r, Oldest(s)))
            && (fd in s'.table ==> s'.table[fd] == r)
  {
    hide Since, PushedAt, LastPush, Logged, Tallied, HarmedAt, Sweep;
    DroppedBy(s, fd);
    LastReference(s.pushes, s.ticks, s.table[fd], Oldest(s));
    assert Kept(s, s.table[fd]);
  }

  /* ---- the invariant over runs ---- */

  lemma {:induction false} LastWasPushed(pushes: seq<Push>, r: nat)
    requires LastPush(pushes, r) >= 0
    ensures r in PushedAt(pushes, LastPush(pushes, r))
    decreases |pushes|
  {
    var init, p := pushes[..|pushes| - 1], pushes[|pushes| - 1];
    if p.record != r {
      LastWasPushed(init, r);
    }
  }

  lemma LoggedTick(s: State, s': State)
    requires WellFormed(s) && Ordered(s.pushes, s.ticks) && Logged(s)
    requires s'.i == NextIndex(s) && s'.wheel == s.wheel[s'.i := []]
    requires s'.ticks == s.ticks + 1 && s'.pushes == s.pushes
    ensures Logged(s')
  {
    hide PushedAt, Ordered;
    NothingPushedLater(s.pushes, s.ticks, s.ticks + 1);
    assert forall j :: 0 <= j < |s.wheel| && j != s'.i ==> Age(|s.wheel|, s'.i, j) == Age(|s.wheel|, s.i, j) + 1;
  }

  lemma TalliedTick(s: State, s': State)
    requires WellFormed(s) && Logged(s) && Tallied(s)
    requires s'.wheel == s.wheel[NextIndex(s) := []] && s'.ticks == s.ticks + 1 && s'.pushes == s.pushes
    ensures Tallied(s')
  {
    OldestSlot(s);
    hide PushedAt, Since, WheelTimes, Logged;
    forall r: nat
      ensures WheelTimes(s'.wheel, r) == Since(s'.pushes, r, Oldest(s'))
    {
      WheelUpdate(s.wheel, NextIndex(s), [], r);
      SinceSplits(s.pushes, r, Oldest(s));
    }
  }

  lemma KeptTick(s: State, fd: int)
    requires Inv(s) && fd in Apply(s, Tick).table
    ensures fd in s.table && Apply(s, Tick).table[fd] == s.table[fd] && Kept(Apply(s, Tick), s.table[fd])
  {
    var k := NextIndex(s);
    SweepExact(s.wheel[k], 0, s.wheel[k := []], s.handlers, s.table, fd);
    var r := s.table[fd];
    DroppedExactly(s, fd);
    assert Kept(s, r);
    hide PushedAt, LastPush, HarmedAt, Sweep, Logged, Tallied, Ordered;
    LastWasPushed(s.pushes, r);
    TimesMember(PushedAt(s.pushes, LastPush(s.pushes, r)), r);
  }

  lemma InvTick(s: State)
    requires Inv(s)
    ensures Inv(Apply(s, Tick))
  {
    hide PushedAt, LastPush, Sweep, Logged, Tallied, Kept, Since;
    var s' := Apply(s, Tick);
    LoggedTick(s, s');
    TalliedTick(s, s');
    forall fd | fd in s'.table
      ensures fd in s.table && s'.table[fd] == s.table[fd] && Kept(s', s.table[fd])
    {
      KeptTick(s, fd);
    }
  }

  lemma LoggedPush(s: State, s': State, r: nat)
    requires s.i < |s.wheel| && Ordered(s.pushes, s.ticks) && Logged(s)
    requires s'.i == s.i && s'.wheel == s.wheel[s.i := s.wheel[s.i] + [r]]
    requires s'.ticks == s.ticks && s'.pushes == s.pushes + [Push(r, s.ticks)]
    ensures Ordered(s'.pushes, s.ticks) && Logged(s')
  {
    hide PushedAt;
    forall j | 0 <= j < |s.wheel|
      ensures s'.wheel[j] == PushedAt(s'.pushes, s.ticks - Age(|s.wheel|, s.i, j))
    {
      PushedAtPush(s.pushes, Push(r, s.ticks), s.ticks - Age(|s.wheel|, s.i, j));
    }
  }

  lemma TalliedPush(s: State, s': State, r: nat)
    requires s.i < |s.wheel| && Tallied(s)
    requires s'.wheel == s.wheel[s.i := s.wheel[s.i] + [r]]
    requires s'.ticks == s.ticks && s'.pushes == s.pushes + [Push(r, s.ticks)]
    ensures Tallied(s')
  {
    hide Since, WheelTimes;
    forall q: nat
      ensures WheelTimes(s'.wheel, q) == Since(s'.pushes, q, Oldest(s'))
    {
      WheelUpdate(s.wheel, s.i, s'.wheel[s.i], q);
      TimesPush(s.wheel[s.i], r, q);
      SincePush(s.pushes, Push(r, s.ticks), q, Oldest(s));
    }
  }

  /** A push leaves the last interval of any other record as it was. */
  lemma OtherPush(pushes: seq<Push>, p: Push, q: nat)
    requires p.record != q
    ensures LastPush(pushes + [p], q) == LastPush(pushes, q)
    ensures forall at: int :: Times(PushedAt(pushes + [p], at), q) == Times(PushedAt(pushes, at), q)
    ensures forall at: int :: Since(pushes + [p], q, at) == Since(pushes, q, at)
  {
    LastPushPush(pushes, p, q);
    hide PushedAt, LastPush, Since;
    forall at: int
      ensures Times(PushedAt(pushes + [p], at), q) == Times(PushedAt(pushes, at), q)
    {
      PushedAtPush(pushes, p, at);
      if p.at == at {
        TimesPush(PushedAt(pushes, at), p.record, q);
      } else {
        assert PushedAt(pushes, at) + [] == PushedAt(pushes, at);
      }
    }
    forall at: int
      ensures Since(pushes + [p], q, at) == Since(pushes, q, at)
    {
      SincePush(pushes, p, q, at);
    }
  }

  lemma KeptPush(s: State, s': State, p: Push, q: nat)
    requires s'.pushes == s.pushes + [p] && p.at == s.ticks == s'.ticks && |s'.wheel| == |s.wheel| > 0
    requires p.record == q || Kept(s, q)
    ensures Kept(s', q)
  {
    hide PushedAt, LastPush, Since;
    if p.record == q {
      LastPushPush(s.pushes, p, q);
    } else {
      OtherPush(s.pushes, p, q);
    }
  }

  lemma InvPush(s: State, step: Step, r: nat)
    requires Inv(s) && Enabled(s, step) && !step.Tick?
    requires r == if step.Accept? then |s.handlers| else s.table[step.fd]
    ensures Inv(Apply(s, step))
  {
    hide PushedAt, LastPush, Logged, Tallied, Kept, Since, Ordered;
    var s' := Apply(s, step);
    LoggedPush(s, s', r);
    TalliedPush(s, s', r);
    forall fd | fd in s'.table
      ensures Kept(s', s'.table[fd])
    {
      assert s'.table[fd] == r || Kept(s, s.table[fd]);
      KeptPush(s, s', Push(r, s.ticks), s'.table[fd]);
    }
  }

  lemma InvKept(s: State, step: Step)
    requires Inv(s) && Enabled(s, step)
    ensures Inv(Apply(s, step))
  {
    hide Inv;
    match step
    case Accept(_) => InvPush(s, step, |s.handlers|);
    case Beat(fd) => InvPush(s, step, s.table[fd]);
    case Tick => InvTick(s);
  }

  lemma {:induction false} InvHolds(s: State, steps: seq<Step>)
    requires Inv(s) && ValidRun(s, steps)
    ensures Inv(Exec(s, steps)) && |Exec(s, steps).wheel| == |s.wheel|
    decreases |steps|
  {
    hide Inv, Sweep;
    if steps != [] {
      InvKept(s, steps[0]);
      InvHolds(Apply(s, steps[0]), steps[1..]);
    }
  }

  lemma {:induction false} NoReferences(wheel: seq<seq<nat>>, r: nat)
    requires forall j :: 0 <= j < |wheel| ==> wheel[j] == []
    ensures WheelTimes(wheel, r) == 0
    decreases |wheel|
  {
    if wheel != [] {
      NoReferences(wheel[..|wheel| - 1], r);
    }
  }

  lemma ReachableInv(n: nat, steps: seq<Step>)
    requires Sized(n) && ValidRun(Init(n), steps)
    ensures Inv(Exec(Init(n), steps)) && |Exec(Init(n), steps).wheel| == n
  {
    forall r: nat
      ensures WheelTimes(Init(n).wheel, r) == 0
    {
      NoReferences(Init(n).wheel, r);
    }
    InvHolds(Init(n), steps);
  }

  /** After any run, with descriptors reused as may be, the next tick drops a listed
      worker exactly when it is the n-th after the worker's last push, one of its
      interval, or an earlier record of the descriptor does harm. */
  lemma EvictedExactly(n: nat, steps: seq<Step>, fd: int)
    requires Sized(n) && ValidRun(Init(n), steps) && fd in Exec(Init(n), steps).table
    ensures var s := Exec(Init(n), steps); var r := s.table[fd]; var last := LastPush(s.pushes, r);
            && Enabled(s, Tick)
            && (fd !in Apply(s, Tick).table <==>
                || (last + n == s.ticks + 1 && Times(PushedAt(s.pushes, last), r) == 1)
                || HarmedAt(s, fd, r, s.ticks + 1 - n))
  {
    hide Exec, ValidRun, Sweep, PushedAt, LastPush, HarmedAt;
    ReachableInv(n, steps);
    DroppedExactly(Exec(Init(n), steps), fd);
  }

  /* ---- eviction over runs ---- */

  predicate NotReaccepted(steps: seq<Step>, fd: int) {
    Accept(fd) !in steps
  }

  /** An earlier record of fd than r does harm at a tick after `from` and up to `to`. */
  ghost predicate Harmed(s: State, fd: int, r: nat, from: int, to: int) {
    exists at: int :: from < at + |s.wheel| <= to && HarmedAt(s, fd, r, at)
  }

  /** Steps other than accepting fd again leave the earlier records of fd alone. */
  lemma HarmPersists(s: State, step: Step, fd: int, r: nat, at: int)
    requires Inv(s) && Enabled(s, step) && step != Accept(fd)
    requires fd in s.table ==> s.table[fd] == r
    ensures HarmedAt(Apply(s, step), fd, r, at) <==> HarmedAt(s, fd, r, at)
  {
    hide PushedAt, Since, LastPush, Sweep, Logged, Tallied, Kept;
    var s' := Apply(s, step);
    if !step.Tick? {
      var p := Push(if step.Accept? then |s.handlers| else s.table[step.fd], s.ticks);
      forall q: nat | q < |s.handlers| && q != r && s.handlers[q] == fd
        ensures Harms(s'.pushes, q, at) <==> Harms(s.pushes, q, at)
      {
        OtherPush(s.pushes, p, q);
        TimesMember(PushedAt(s'.pushes, at), q);
        TimesMember(PushedAt(s.pushes, at), q);
      }
      hide Harms;
      assert forall q: nat :: q < |s'.handlers| && s'.handlers[q] == fd ==> q < |s.handlers| && s.handlers[q] == fd;
      assert forall q: nat :: q < |s.handlers| ==> s'.handlers[q] == s.handlers[q];
    }
  }

  /** A worker on fd with record r is the only one that may be listed there; `hit`
      says that an earlier record has done harm. */
  ghost predicate Stands(s: State, fd: int, r: nat, hit: bool) {
    && r < |s.handlers| && s.handlers[r] == fd && 0 <= LastPush(s.pushes, r)
    && (fd in s.table ==> s.table[fd] == r)
    && (fd in s.table <==> StillListed(s.ticks, |s.wheel|, s.pushes, r) && !hit)
  }

  lemma StandsTick(s: State, fd: int, r: nat, hit: bool)
    requires Inv(s) && Stands(s, fd, r, hit)
    ensures Stands(Apply(s, Tick), fd, r, hit || HarmedAt(s, fd, r, Oldest(s)))
  {
    hide PushedAt, LastPush, Sweep, HarmedAt, Logged, Tallied, Ordered, Kept;
    var s', last := Apply(s, Tick), LastPush(s.pushes, r);
    LastWasPushed(s.pushes, r);
    TimesMember(PushedAt(s.pushes, last), r);
    if fd in s.table {
      DroppedExactly(s, fd);
    } else if fd in s'.table {
      KeptTick(s, fd);
    }
  }

  lemma StandsPush(s: State, step: Step, fd: int, r: nat, hit: bool)
    requires Inv(s) && Stands(s, fd, r, hit) && Enabled(s, step) && !step.Tick? && step != Accept(fd)
    ensures Stands(Apply(s, step), fd, r, hit)
  {
    hide PushedAt, LastPush, Since, Logged, Tallied, Ordered, Kept;
    var p := Push(if step.Accept? then |s.handlers| else s.table[step.fd], s.ticks);
    if step == Beat(fd) {
      LastPushPush(s.pushes, p, r);
    } else {
      OtherPush(s.pushes, p, r);
    }
  }

  lemma {:induction false} TicksGrow(s: State, steps: seq<Step>)
    requires ValidRun(s, steps)
    ensures s.ticks <= Exec(s, steps).ticks
    decreases |steps|
  {
    hide Sweep;
    if steps != [] {
      TicksGrow(Apply(s, steps[0]), steps[1..]);
    }
  }

  /** Harm up to `to` is done at this tick or after it. */
  lemma HarmUnfolds(s: State, step: Step, fd: int, r: nat, to: int)
    requires Inv(s) && Enabled(s, step) && step != Accept(fd) && Apply(s, step).ticks <= to
    requires fd in s.table ==> s.table[fd] == r
    ensures var s' := Apply(s, step);
            Harmed(s, fd, r, s.ticks, to) <==>
            (step.Tick? && HarmedAt(s, fd, r, Oldest(s))) || Harmed(s', fd, r, s'.ticks, to)
  {
    hide HarmedAt, Sweep, Inv;
    var s' := Apply(s, step);
    forall at: int
      ensures HarmedAt(s', fd, r, at) <==> HarmedAt(s, fd, r, at)
    {
      HarmPersists(s, step, fd, r, at);
    }
  }

  lemma {:induction false} StandsOn(s: State, steps: seq<Step>, fd: int, r: nat, hit: bool)
    requires Inv(s) && ValidRun(s, steps) && NotReaccepted(steps, fd) && Stands(s, fd, r, hit)
    ensures Stands(Exec(s, steps), fd, r, hit || Harmed(s, fd, r, s.ticks, Exec(s, steps).ticks))
    decreases |steps|
  {
    hide Inv, HarmedAt, Sweep, StillListed, LastPush;
    if steps != [] {
      var step, s' := steps[0], Apply(s, steps[0]);
      var hit' := hit || (step.Tick? && HarmedAt(s, fd, r, Oldest(s)));
      if step.Tick? {
        StandsTick(s, fd, r, hit);
      } else {
        StandsPush(s, step, fd, r, hit);
      }
      InvKept(s, step);
      TicksGrow(s', steps[1..]);
      HarmUnfolds(s, step, fd, r, Exec(s, steps).ticks);
      StandsOn(s', steps[1..], fd, r, hit');
    }
  }

  /** Eviction over whole runs. A listed worker whose descriptor is not accepted
      again is still listed exactly when its own record lets it be (n ticks have
      not passed since its last push, or that interval saw two) and no earlier
      record of the descriptor, as the wheel held it, has done harm. */
  lemma ListedExactly(n: nat, before: seq<Step>, after: seq<Step>, fd: int)
    requires Sized(n) && ValidRun(Init(n), before) && fd in Exec(Init(n), before).table
    requires ValidRun(Exec(Init(n), before), after) && NotReaccepted(after, fd)
    ensures var s := Exec(Init(n), before); var s' := Exec(s, after); var r := s.table[fd];
            && (fd in s'.table ==> s'.table[fd] == r)
            && (fd in s'.table <==>
                StillListed(s'.ticks, n, s'.pushes, r) && !Harmed(s, fd, r, s.ticks, s'.ticks))
  {
    hide Sweep, Harmed, StillListed, PushedAt, LastPush, Logged, Tallied;
    var s := Exec(Init(n), before);
    ReachableInv(n, before);
    assert Kept(s, s.table[fd]);
    InvHolds(s, after);
    StandsOn(s, after, fd, s.table[fd], false);
  }

  /** Steps that neither accept nor hear from the worker on this descriptor. */
  predicate Silent(steps: seq<Step>, fd: int) {
    Accept(fd) !in steps && Beat(fd) !in steps
  }

  lemma {:induction false} SilentPushes(s: State, steps: seq<Step>, fd: int, r: nat)
    requires Inv(s) && ValidRun(s, steps) && Silent(steps, fd) && r < |s.handlers| && s.handlers[r] == fd
    ensures LastPush(Exec(s, steps).pushes, r) == LastPush(s.pushes, r)
    ensures forall at: int :: Times(PushedAt(Exec(s, steps).pushes, at), r) == Times(PushedAt(s.pushes, at), r)
    decreases |steps|
  {
    hide Sweep, PushedAt, LastPush, Since, Logged, Tallied, Kept, Ordered;
    if steps != [] {
      var step := steps[0];
      if !step.Tick? {
        OtherPush(s.pushes, Push(if step.Accept? then |s.handlers| else s.table[step.fd], s.ticks), r);
      }
      InvKept(s, step);
      SilentPushes(Apply(s, step), steps[1..], fd, r);
    }
  }

  /** Where no earlier record of the descriptor has two references left in the
      wheel, none does harm. */
  lemma OneReferenceHarmless(s: State, fd: int, r: nat, to: int)
    requires Inv(s)
    requires forall q: nat :: q < |s.handlers| && q != r && s.handlers[q] == fd ==> WheelTimes(s.wheel, q) <= 1
    ensures !Harmed(s, fd, r, s.ticks, to)
  {
    hide WheelTimes, Since, PushedAt, Logged, Kept, Ordered;
    forall q: nat, at: int | q < |s.handlers| && q != r && s.handlers[q] == fd && s.ticks < at + |s.wheel|
      ensures !Harms(s.pushes, q, at)
    {
      SinceFalls(s.pushes, q, Oldest(s), at);
      assert WheelTimes(s.wheel, q) == Since(s.pushes, q, Oldest(s));
    }
  }

  /** Where descriptors are not reused early, a worker that falls silent stays listed
      until the n-th tick after its last push and is gone from that tick on, unless
      that last interval saw it pushed more than once: then it stays for good. */
  lemma SilentWorkerEvicted(n: nat, before: seq<Step>, after: seq<Step>, fd: int)
    requires Sized(n) && ValidRun(Init(n), before) && fd in Exec(Init(n), before).table
    requires var s := Exec(Init(n), before);
             forall q: nat :: q < |s.handlers| && q != s.table[fd] && s.handlers[q] == fd ==> WheelTimes(s.wheel, q) <= 1
    requires ValidRun(Exec(Init(n), before), after) && Silent(after, fd)
    ensures var s := Exec(Init(n), before); var s' := Exec(s, after); var r := s.table[fd];
            fd in s'.table <==>
            s'.ticks < LastPush(s.pushes, r) + n || Times(PushedAt(s.pushes, LastPush(s.pushes, r)), r) >= 2
  {
    hide Sweep, Harmed, PushedAt, LastPush, WheelTimes, Logged, Tallied, Kept;
    var s := Exec(Init(n), before);
    ReachableInv(n, before);
    ListedExactly(n, before, after, fd);
    SilentPushes(s, after, fd, s.table[fd]);
    OneReferenceHarmless(s, fd, s.table[fd], Exec(s, after).ticks);
  }

  lemma {:induction false} RunSplits(s: State, a: seq<Step>, b: seq<Step>)
    requires ValidRun(s, a) && ValidRun(Exec(s, a), b)
    ensures ValidRun(s, a + b) && Exec(s, a + b) == Exec(Exec(s, a), b)
    decreases |a|
  {
    if a == [] {
      assert a + b == b;
    } else {
      assert (a + b)[0] == a[0] && (a + b)[1..] == a[1..] + b;
      RunSplits(Apply(s, a[0]), a[1..], b);
    }
  }

  /** When accepting a descriptor does harm: a new worker is still listed exactly if
      its own record would keep it and no tick has come that takes out an interval
      from which on, at the accept, an earlier record of the descriptor had its
      last two references. */
  lemma DroppedEarlyExactly(n: nat, before: seq<Step>, after: seq<Step>, fd: int)
    requires Sized(n) && ValidRun(Init(n), before) && Enabled(Exec(Init(n), before), Accept(fd))
    requires ValidRun(Apply(Exec(Init(n), before), Accept(fd)), after) && NotReaccepted(after, fd)
    ensures var s := Exec(Init(n), before); var s' := Exec(Apply(s, Accept(fd)), after); var r := |s.handlers|;
            fd in s'.table <==> StillListed(s'.ticks, n, s'.pushes, r) && !Harmed(s, fd, r, s.ticks, s'.ticks)
  {
    hide Sweep, StillListed, PushedAt, LastPush, Inv;
    var s := Exec(Init(n), before);
    var s1, r, steps := Apply(s, Accept(fd)), |s.handlers|, before + [Accept(fd)];
    ReachableInv(n, before);
    OneStep(s, Accept(fd));
    RunSplits(Init(n), before, [Accept(fd)]);
    ListedExactly(n, steps, after, fd);
    forall at: int
      ensures HarmedAt(s1, fd, r, at) <==> HarmedAt(s, fd, r, at)
    {
      AcceptHarm(s, fd, at);
    }
  }

  lemma OneStep(s: State, step: Step)
    requires Enabled(s, step)
    ensures ValidRun(s, [step]) && Exec(s, [step]) == Apply(s, step)
  {
    assert [step][1..] == [];
  }

  lemma AcceptHarm(s: State, fd: int, at: int)
    requires Inv(s) && Enabled(s, Accept(fd))
    ensures HarmedAt(Apply(s, Accept(fd)), fd, |s.handlers|, at) <==> HarmedAt(s, fd, |s.handlers|, at)
  {
    hide PushedAt, Since, LastPush, Sweep, Logged, Tallied, Kept;
    var s', r := Apply(s, Accept(fd)), |s.handlers|;
    forall q: nat | q < r
      ensures Harms(s'.pushes, q, at) <==> Harms(s.pushes, q, at)
    {
      OtherPush(s.pushes, Push(r, s.ticks), q);
      TimesMember(PushedAt(s'.pushes, at), q);
      TimesMember(PushedAt(s.pushes, at), q);
    }
    hide Harms;
    assert forall q: nat :: q < r ==> s'.handlers[q] == s.handlers[q];
  }

  /** Descriptor 7 is accepted, heard from in the next interval, closed, and
      accepted again while both references to its first record are in the wheel. */
  const REUSE: seq<Step> := [Accept(7), Tick, Beat(7), Tick, Accept(7), Tick]

  ghost predicate Reaches(s: State, steps: seq<Step>, end: State) {
    ValidRun(s, steps) && Exec(s, steps) == end
  }

  lemma ReachesOn(s: State, steps: seq<Step>, mid: State, step: Step, end: State)
    requires Reaches(s, steps, mid) && Enabled(mid, step) && Apply(mid, step) == end
    ensures Reaches(s, steps + [step], end)
  {
    OneStep(mid, step);
    RunSplits(s, steps, [step]);
  }

  lemma QuietTick(s: State)
    requires WellFormed(s) && s.wheel[NextIndex(s)] == []
    ensures Apply(s, Tick) == s.(i := NextIndex(s), ticks := s.ticks + 1)
  {
    assert s.wheel[NextIndex(s) := []] == s.wheel;
  }

  const USED: State := State([[], [], [0], [0]], 2, map[7 := 0], [7], 1, [Push(0, 0), Push(0, 1)])
  const REUSED: State :=
    State([[], [1], [0], [0]], 0, map[7 := 1], [7, 7], 3, [Push(0, 0), Push(0, 1), Push(1, 2)])

  lemma FirstUse()
    ensures Reaches(Init(4), [Accept(7), Tick, Beat(7)], USED)
  {
    hide Sweep;
    var s0 := Init(4);
    var s1 := State([[], [], [], [0]], 3, map[7 := 0], [7], 0, [Push(0, 0)]);
    var s2 := s1.(i := 2, ticks := 1);
    assert s0.wheel[3] + [0] == [0] && s1.wheel[2] + [0] == [0];
    assert s0.wheel[3 := s0.wheel[3] + [0]] == s1.wheel && [] + [7] == s1.handlers && [] + [Push(0, 0)] == s1.pushes;
    QuietTick(s1);
    assert s2.wheel[2 := s2.wheel[2] + [0]] == USED.wheel && s2.pushes + [Push(0, 1)] == USED.pushes;
    OneStep(s0, Accept(7));
    hide ValidRun, Exec;
    ReachesOn(s0, [Accept(7)], s1, Tick, s2);
    assert [Accept(7)] + [Tick] == [Accept(7), Tick];
    ReachesOn(s0, [Accept(7), Tick], s2, Beat(7), USED);
    assert [Accept(7), Tick] + [Beat(7)] == [Accept(7), Tick, Beat(7)];
  }

  lemma SecondUse()
    ensures Reaches(Init(4), REUSE, REUSED)
  {
    hide Sweep, ValidRun, Exec;
    var s0, a, s4, s5 := Init(4), [Accept(7), Tick, Beat(7)], USED.(i := 1, ticks := 2), REUSED.(i := 1, ticks := 2);
    FirstUse();
    QuietTick(USED);
    ReachesOn(s0, a, USED, Tick, s4);
    assert s4.wheel[1] + [1] == [1];
    assert s4.wheel[1 := s4.wheel[1] + [1]] == s5.wheel && s4.handlers + [7] == s5.handlers;
    assert s4.pushes + [Push(1, 2)] == s5.pushes && s4.table[7 := 1] == s5.table;
    ReachesOn(s0, a + [Tick], s4, Accept(7), s5);
    QuietTick(s5);
    ReachesOn(s0, a + [Tick] + [Accept(7)], s5, Tick, REUSED);
    assert a + [Tick] + [Accept(7)] + [Tick] == REUSE;
  }

  /** A run in which the next tick drops the new worker two ticks after its last
      push, not four: its own record would keep it, the earlier one does harm. */
  lemma ReuseEvictsEarly()
    ensures ValidRun(Init(4), REUSE)
    ensures var s := Exec(Init(4), REUSE);
            && 7 in s.table && Enabled(s, Tick) && 7 !in Apply(s, Tick).table
            && StillListed(s.ticks + 1, 4, s.pushes, s.table[7])
  {
    hide PushedAt, Since, LastPush, Sweep, Exec, ValidRun, Inv;
    SecondUse();
    var s := Exec(Init(4), REUSE);
    ReusePushes();
    assert HarmedAt(s, 7, 1, Oldest(s)) by {
      assert s.handlers[0] == 7;
    }
    EvictedExactly(4, REUSE, 7);
  }

  lemma ReusePushes()
    ensures var pushes := [Push(0, 0), Push(0, 1), Push(1, 2)];
            Harms(pushes, 0, 0) && LastPush(pushes, 1) == 2
  {
    hide PushedAt, Since, LastPush;
    var a, b, c := Push(0, 0), Push(0, 1), Push(1, 2);
    assert [] + [a] == [a] && [a] + [b] == [a, b] && [a, b] + [c] == [a, b, c];
    PushedAtPush([], a, 0);
    PushedAtPush([a], b, 0);
    PushedAtPush([a, b], c, 0);
    SincePush([], a, 0, 0);
    SincePush([a], b, 0, 0);
    SincePush([a, b], c, 0, 0);
    LastPushPush([a, b], c, 1);
    EmptyPushes();
  }

  lemma EmptyPushes()
    ensures PushedAt([], 0) == [] && Since([], 0, 0) == 0
  {
  }

  /* ---- the object ---- */

  /** The wheel and the table as the callbacks update them. */
  class Coordinator {
    const wheel: array<seq<nat>>
    var i: nat
    var table: map<int, nat>
    var handlers: seq<int>
    ghost var ticks: nat
    ghost var pushes: seq<Push>

    ghost function Abs(): State
      reads this, wheel
    {
      State(wheel[..], i, table, handlers, ticks, pushes)
    }

    constructor (n: nat)
      requires Sized(n)
      ensures Abs() == Init(n) && fresh(wheel)
    {
      wheel := new seq<nat>[n](_ => []);
      i := n - 1;
      table, handlers, ticks, pushes := map[], [], 0, [];
      new;
      assert wheel[..] == Init(n).wheel;
    }

    method AcceptWorkerConnection(sock: int)
      requires Enabled(Abs(), Accept(sock))
      modifies this, wheel
      ensures Abs() == Apply(old(Abs()), Accept(sock))
    {
      var info := |handlers|;
      handlers := handlers + [sock];
      table := table[sock := info];
      wheel[i] := wheel[i] + [info];
      pushes := pushes + [Push(info, ticks)];
    }

    method OnRecvHeartBeat(fd: int)
      requires Enabled(Abs(), Beat(fd))
      modifies this, wheel
      ensures Abs() == Apply(old(Abs()), Beat(fd))
    {
      wheel[i] := wheel[i] + [table[fd]];
      pushes := pushes + [Push(table[fd], ticks)];
    }

    /** `TimeWheel::tick`: turn back one slot and take its contents. */
    method TakeSlot() returns (slot: seq<nat>)
      requires WellFormed(Abs())
      modifies this`i, wheel
      ensures i == NextIndex(old(Abs())) && slot == old(wheel[..])[i]
      ensures wheel[..] == old(wheel[..])[i := []]
    {
      if i == 0 {
        i := wheel.Length;
      }
      i := i - 1;
      slot := wheel[i];
      wheel[i] := [];
    }

    method OnWheelTick()
      requires WellFormed(Abs())
      modifies this, wheel
      ensures Abs() == Apply(old(Abs()), Tick)
    {
      var slot := TakeSlot();
      ghost var rest := wheel[..];
      for j := 0 to |slot|
        invariant wheel[..] == rest && handlers == old(handlers) && i == NextIndex(old(Abs()))
        invariant pushes == old(pushes) && ticks == old(ticks)
        invariant forall k :: 0 <= k < |slot| ==> slot[k] < |handlers|
        invariant Sweep(slot, j, rest, handlers, table) == Sweep(slot, 0, rest, handlers, old(table))
      {
        if UseCount(slot, wheel[..], table, slot[j]) == 2 {
          table := table - {handlers[slot[j]]};
        }
      }
      ticks := ticks + 1;
    }
  }
}

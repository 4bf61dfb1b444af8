/** The double buffer of socket/collector.h: producers append a payload to `pv`
    under a spinlock and then write one ready byte to a socket pair; the consumer
    reads a byte, swaps `pv` for its own empty `cv` under the lock, and sends. */
module Collector {
  import opened Tally

  const READY_CHAR: char := 'R'
  const QUIT_BYTES: seq<char> := ['Q', 'U', 'I', 'T', '\0']

  type Payload = string

  datatype Link = Ready | Disconnected | Done

  /** Where the consumer is: at the top of its loop, before the blocking read,
      between a ready byte and the swap, or sending `cv` from `next` on. */
  datatype Phase = Looping | Reading | Woken | Sending(next: nat) | Stopped

  datatype State = State(
    pv: seq<Payload>,
    cv: seq<Payload>,
    pipe: seq<char>,
    writers: nat,
    link: Link,
    phase: Phase,
    pushed: seq<Payload>,
    taken: seq<Payload>,
    sent: seq<Payload>)

  datatype Step =
    | Push(p: Payload) | WriteReady | Quit | SetLink(to: Link)
    | Check | ReadByte | Swap | SendNext | Clear

  const INIT: State := State([], [], [], 0, Ready, Looping, [], [], [])

  predicate Enabled(s: State, step: Step) {
    match step
    case Push(_) => true
    case WriteReady => s.writers > 0
    case Quit => true
    case SetLink(_) => true
    case Check => s.phase.Looping?
    case ReadByte => s.phase.Reading? && s.pipe != []
    case Swap => s.phase.Woken?
    case SendNext => s.phase.Sending? && s.phase.next < |s.cv|
    case Clear => s.phase.Sending? && s.phase.next == |s.cv|
  }

  function Apply(s: State, step: Step): State
    requires Enabled(s, step)
  {
    match step
    case Push(p) => s.(pv := s.pv + [p], pushed := s.pushed + [p], writers := s.writers + 1)
    case WriteReady => s.(writers := s.writers - 1, pipe := s.pipe + [READY_CHAR])
    case Quit => s.(pipe := s.pipe + QUIT_BYTES)
    case SetLink(to) => s.(link := to)
    case Check => s.(phase := if s.link.Done? then Stopped else Reading)
    case ReadByte => s.(pipe := s.pipe[1..], phase := if s.pipe[0] == READY_CHAR then Woken else Stopped)
    case Swap => s.(cv := s.pv, pv := s.cv, taken := s.taken + s.pv, phase := if s.pv == [] then Looping else Sending(0))
    case SendNext =>
      s.(sent := if s.link.Ready? then s.sent + [s.cv[s.phase.next]] else s.sent, phase := Sending(s.phase.next + 1))
    case Clear => s.(cv := [], phase := Looping)
  }

  predicate ValidRun(s: State, steps: seq<Step>)
    decreases |steps|
  {
    steps != [] ==> Enabled(s, steps[0]) && ValidRun(Apply(s, steps[0]), steps[1..])
  }

  function Exec(s: State, steps: seq<Step>): State
    requires ValidRun(s, steps)
    decreases |steps|
  {
    if steps == [] then s else Exec(Apply(s, steps[0]), steps[1..])
  }

  /* ---- invariants ---- */

  function Wakeups(s: State): nat {
    Times(s.pipe, READY_CHAR) + s.writers + if s.phase.Woken? then 1 else 0
  }

  function Unsent(s: State): seq<Payload> {
    if s.phase.Sending? && s.phase.next <= |s.cv| then s.cv[s.phase.next..] else []
  }

  /** `cv` is empty outside the sending loop; every payload is in the producers'
      buffer or was taken, in order; and there are at least as many wakeups
      under way as payloads waiting. */
  predicate Inv(s: State) {
    && (!s.phase.Sending? ==> s.cv == [])
    && (s.phase.Sending? ==> s.phase.next <= |s.cv|)
    && s.taken + s.pv == s.pushed
    && |s.pv| <= Wakeups(s)
  }

  lemma {:induction false} QuitHasNoReady(pipe: seq<char>)
    ensures Times(pipe + QUIT_BYTES, READY_CHAR) == Times(pipe, READY_CHAR)
  {
    TimesConcat(pipe, QUIT_BYTES, READY_CHAR);
    TimesMember(QUIT_BYTES, READY_CHAR);
  }

  lemma InvKept(s: State, step: Step)
    requires Enabled(s, step) && Inv(s)
    ensures Inv(Apply(s, step))
  {
    match step
    case Push(p) => assert s.taken + (s.pv + [p]) == (s.taken + s.pv) + [p];
    case WriteReady => TimesPush(s.pipe, READY_CHAR, READY_CHAR);
    case Quit => QuitHasNoReady(s.pipe);
    case ReadByte =>
      assert s.pipe == [s.pipe[0]] + s.pipe[1..];
      TimesFront(s.pipe[1..], s.pipe[0], READY_CHAR);
    case _ =>
  }

  lemma {:induction false} InvHolds(s: State, steps: seq<Step>)
    requires Inv(s) && ValidRun(s, steps)
    ensures Inv(Exec(s, steps))
    decreases |steps|
  {
    if steps != [] {
      InvKept(s, steps[0]);
      InvHolds(Apply(s, steps[0]), steps[1..]);
    }
  }

  /* ---- theorems ---- */

  /** Under every interleaving, what the consumer has taken is a prefix of what
      was pushed, in order and without repetition, and the rest is waiting. */
  lemma TakenIsPrefix(steps: seq<Step>)
    requires ValidRun(INIT, steps)
    ensures var s := Exec(INIT, steps); s.taken <= s.pushed && s.pv == s.pushed[|s.taken|..]
  {
    InvHolds(INIT, steps);
    var s := Exec(INIT, steps);
    assert s.pushed == s.taken + s.pv;
  }

  /** A waiting payload always has a wakeup under way: an unread ready byte, a
      producer about to write one, or a consumer about to swap. */
  lemma NoLostWakeup(steps: seq<Step>)
    requires ValidRun(INIT, steps)
    ensures var s := Exec(INIT, steps);
            s.pv != [] ==> READY_CHAR in s.pipe || s.writers > 0 || s.phase.Woken?
  {
    InvHolds(INIT, steps);
    TimesMember(Exec(INIT, steps).pipe, READY_CHAR);
  }

  /** A consumer blocked on an empty pipe with no producer under way has taken
      everything. */
  lemma BlockedMeansDrained(steps: seq<Step>)
    requires ValidRun(INIT, steps)
    requires var s := Exec(INIT, steps); s.phase.Reading? && s.pipe == [] && s.writers == 0
    ensures Exec(INIT, steps).taken == Exec(INIT, steps).pushed
  {
    InvHolds(INIT, steps);
  }

  predicate LinkUp(steps: seq<Step>) {
    forall k :: 0 <= k < |steps| ==> !steps[k].SetLink?
  }

  lemma {:induction false} SentSoFar(s: State, steps: seq<Step>)
    requires Inv(s) && ValidRun(s, steps) && LinkUp(steps)
    requires s.link.Ready? && s.sent + Unsent(s) == s.taken
    ensures Exec(s, steps).sent + Unsent(Exec(s, steps)) == Exec(s, steps).taken
    decreases |steps|
  {
    hide Apply, Enabled, Inv, Unsent;
    if steps != [] {
      InvKept(s, steps[0]);
      SentStep(s, steps[0]);
      SentSoFar(Apply(s, steps[0]), steps[1..]);
    }
  }

  lemma SentStep(s: State, step: Step)
    requires Inv(s) && Enabled(s, step) && !step.SetLink?
    requires s.link.Ready? && s.sent + Unsent(s) == s.taken
    ensures var s' := Apply(s, step); s'.link.Ready? && s'.sent + Unsent(s') == s'.taken
  {
    if step.SendNext? {
      assert s.cv[s.phase.next..] == [s.cv[s.phase.next]] + s.cv[s.phase.next + 1..];
    } else if step.Swap? {
      assert s.pv[0..] == s.pv && s.sent + [] == s.sent;
    } else if step.Clear? {
      assert s.cv[s.phase.next..] == [];
    }
  }

  /** While the link stays up, what was sent is a prefix of what was pushed. */
  lemma SentIsPrefix(steps: seq<Step>)
    requires ValidRun(INIT, steps) && LinkUp(steps)
    ensures Exec(INIT, steps).sent <= Exec(INIT, steps).pushed
  {
    SentSoFar(INIT, steps);
    InvHolds(INIT, steps);
    var s := Exec(INIT, steps);
    assert s.pushed == s.sent + (Unsent(s) + s.pv);
  }

  /** Between two rounds, while the link stays up, everything taken has been sent. */
  lemma SentExactly(steps: seq<Step>)
    requires ValidRun(INIT, steps) && LinkUp(steps)
    ensures var s := Exec(INIT, steps); !s.phase.Sending? ==> s.sent == s.taken
  {
    SentSoFar(INIT, steps);
    var s := Exec(INIT, steps);
    assert s.sent + [] == s.sent;
  }

  /* ---- the steps of a run ---- */

  function PayloadOf(step: Step): seq<Payload> {
    if step.Push? then [step.p] else []
  }

  function PayloadsIn(steps: seq<Step>): seq<Payload> {
    if steps == [] then [] else PayloadOf(steps[0]) + PayloadsIn(steps[1..])
  }

  function LinkAfter(link: Link, steps: seq<Step>): Link
    decreases |steps|
  {
    if steps == [] then link else LinkAfter(if steps[0].SetLink? then steps[0].to else link, steps[1..])
  }

  /** The bytes that a step writes to the pipe. */
  function BytesOf(step: Step): seq<char> {
    match step
    case WriteReady => ['R']
    case Quit => "QUIT\0"
    case _ => []
  }

  function BytesIn(steps: seq<Step>): seq<char> {
    if steps == [] then [] else BytesOf(steps[0]) + BytesIn(steps[1..])
  }

  lemma {:induction false} HistoryFrom(s: State, steps: seq<Step>)
    requires ValidRun(s, steps)
    ensures Exec(s, steps).pushed == s.pushed + PayloadsIn(steps)
    ensures Exec(s, steps).link == LinkAfter(s.link, steps)
    decreases |steps|
  {
    hide Apply, Enabled, PayloadOf;
    if steps == [] {
      assert s.pushed + [] == s.pushed;
    } else {
      StepHistory(s, steps[0]);
      HistoryFrom(Apply(s, steps[0]), steps[1..]);
      assert s.pushed + PayloadOf(steps[0]) + PayloadsIn(steps[1..]) == s.pushed + PayloadsIn(steps);
    }
  }

  lemma StepHistory(s: State, step: Step)
    requires Enabled(s, step)
    ensures Apply(s, step).pushed == s.pushed + PayloadOf(step)
    ensures Apply(s, step).link == if step.SetLink? then step.to else s.link
  {
    assert s.pushed + [] == s.pushed;
  }

  lemma StepPipe(s: State, step: Step)
    requires Enabled(s, step)
    ensures var s' := Apply(s, step);
            && (step.ReadByte? ==> s.pipe != [] && s'.pipe == s.pipe[1..])
            && (!step.ReadByte? ==> s'.pipe == s.pipe + BytesOf(step))
            && s'.writers + (if step.WriteReady? then 1 else 0) == s.writers + |PayloadOf(step)|
  {
    assert s.pipe + [] == s.pipe;
  }

  lemma Slides(pipe: seq<char>, more: seq<char>, n: nat)
    requires pipe != [] && n <= |pipe[1..] + more|
    ensures (pipe + more)[1 + n..] == (pipe[1..] + more)[n..]
  {
    assert pipe + more == [pipe[0]] + (pipe[1..] + more);
  }

  lemma {:induction false} PipeFrom(s: State, steps: seq<Step>)
    requires ValidRun(s, steps)
    ensures var read := Times(steps, ReadByte); var all := s.pipe + BytesIn(steps);
            read <= |all| && Exec(s, steps).pipe == all[read..]
    ensures Exec(s, steps).writers + Times(steps, WriteReady) == s.writers + |PayloadsIn(steps)|
    decreases |steps|
  {
    hide Apply, Enabled, BytesOf, PayloadOf;
    if steps == [] {
      assert s.pipe + [] == s.pipe;
    } else {
      var step, s', more := steps[0], Apply(s, steps[0]), BytesIn(steps[1..]);
      StepPipe(s, step);
      PipeFrom(s', steps[1..]);
      assert steps == [step] + steps[1..];
      TimesFront(steps[1..], step, ReadByte);
      TimesFront(steps[1..], step, WriteReady);
      hide Times;
      if step.ReadByte? {
        NoBytes();
        assert BytesIn(steps) == more;
        Slides(s.pipe, more, Times(steps[1..], ReadByte));
      } else {
        assert (s.pipe + BytesOf(step)) + more == s.pipe + BytesIn(steps);
      }
    }
  }

  lemma NoBytes()
    ensures BytesOf(ReadByte) == []
  {
  }

  /** What was pushed, how the link stands, what is in the pipe and who has yet to
      write is what the steps say. */
  lemma HistoryExactly(steps: seq<Step>)
    requires ValidRun(INIT, steps)
    ensures var s := Exec(INIT, steps);
            && s.pushed == PayloadsIn(steps)
            && s.link == LinkAfter(Ready, steps)
            && s.writers + Times(steps, WriteReady) == |PayloadsIn(steps)|
            && Times(steps, ReadByte) <= |BytesIn(steps)|
            && s.pipe == BytesIn(steps)[Times(steps, ReadByte)..]
  {
    hide Exec, ValidRun, Times, BytesIn, PayloadsIn;
    HistoryFrom(INIT, steps);
    PipeFrom(INIT, steps);
    assert [] + PayloadsIn(steps) == PayloadsIn(steps) && [] + BytesIn(steps) == BytesIn(steps);
  }

  /* ---- when the consumer stops ---- */

  /** A check that finds the collector done, or a byte that is not the ready byte. */
  predicate Stops(s: State, step: Step)
    requires Enabled(s, step)
  {
    (step.Check? && s.link.Done?) || (step.ReadByte? && s.pipe[0] != READY_CHAR)
  }

  ghost predicate StoppedBy(s: State, steps: seq<Step>)
    requires ValidRun(s, steps)
    decreases |steps|
  {
    steps != [] && (Stops(s, steps[0]) || StoppedBy(Apply(s, steps[0]), steps[1..]))
  }

  lemma {:induction false} StoppedFrom(s: State, steps: seq<Step>)
    requires ValidRun(s, steps)
    ensures Exec(s, steps).phase.Stopped? <==> s.phase.Stopped? || StoppedBy(s, steps)
    decreases |steps|
  {
    if steps != [] {
      StoppedFrom(Apply(s, steps[0]), steps[1..]);
    }
  }

  /** The consumer has stopped exactly if a check found the collector done or
      another byte than the ready byte was read; any other check goes on to read,
      and a ready byte to the swap. */
  lemma StopsExactly(steps: seq<Step>)
    requires ValidRun(INIT, steps)
    ensures var s := Exec(INIT, steps);
            && (s.phase.Stopped? <==> StoppedBy(INIT, steps))
            && (s.phase.Looping? && !s.link.Done? ==> Apply(s, Check) == s.(phase := Reading))
            && (s.phase.Reading? && s.pipe != [] && s.pipe[0] == READY_CHAR ==>
                  Apply(s, ReadByte) == s.(pipe := s.pipe[1..], phase := Woken))
  {
    StoppedFrom(INIT, steps);
  }

  predicate AllReady(pipe: seq<char>) {
    forall i :: 0 <= i < |pipe| ==> pipe[i] == READY_CHAR
  }

  lemma {:induction false} OnlyWhenTold(s: State, steps: seq<Step>)
    requires ValidRun(s, steps) && Quit !in steps && SetLink(Done) !in steps
    requires AllReady(s.pipe) && !s.link.Done? && !s.phase.Stopped?
    ensures !Exec(s, steps).phase.Stopped? && AllReady(Exec(s, steps).pipe)
    decreases |steps|
  {
    if steps != [] {
      var s' := Apply(s, steps[0]);
      assert steps[0] in steps;
      assert AllReady(s'.pipe);
      OnlyWhenTold(s', steps[1..]);
    }
  }

  /** Until the collector is told to quit, the consumer does not stop. */
  lemma StopsOnlyWhenTold(steps: seq<Step>)
    requires ValidRun(INIT, steps) && Exec(INIT, steps).phase.Stopped?
    ensures Quit in steps || SetLink(Done) in steps
  {
    if Quit !in steps && SetLink(Done) !in steps {
      OnlyWhenTold(INIT, steps);
    }
  }

  /* ---- progress ---- */

  ghost predicate Reaches(s: State, steps: seq<Step>, end: State) {
    ValidRun(s, steps) && Exec(s, steps) == end
  }

  lemma ReachesSelf(s: State)
    ensures Reaches(s, [], s)
  {
  }

  lemma ReachesBy(s: State, steps: seq<Step>, mid: State, step: Step, end: State)
    requires Reaches(s, steps, mid) && Enabled(mid, step) && Apply(mid, step) == end
    ensures Reaches(s, steps + [step], end)
  {
    assert [step][1..] == [];
    ReachesSelf(end);
    assert ValidRun(mid, [step]) && Exec(mid, [step]) == end;
    ReachesThen(s, steps, mid, [step], end);
  }

  lemma {:induction false} ReachesThen(s: State, a: seq<Step>, mid: State, b: seq<Step>, end: State)
    requires Reaches(s, a, mid) && Reaches(mid, b, end)
    ensures Reaches(s, a + b, end)
    decreases |a|
  {
    hide Enabled, Apply;
    if a == [] {
      assert a + b == b;
    } else {
      assert (a + b)[0] == a[0] && (a + b)[1..] == a[1..] + b;
      ReachesThen(Apply(s, a[0]), a[1..], mid, b, end);
    }
  }

  /** The same but for where the consumer is and what it has sent. */
  predicate SameBuffers(s: State, s': State) {
    s'.pv == s.pv && s'.pipe == s.pipe && s'.writers == s.writers && s'.link == s.link &&
    s'.pushed == s.pushed && s'.taken == s.taken
  }

  /** The sending loop ends. */
  lemma {:induction false} SendingEnds(s: State) returns (steps: seq<Step>, end: State)
    requires s.phase.Sending? && s.phase.next <= |s.cv|
    ensures Reaches(s, steps, end) && SameBuffers(s, end) && end.phase == Looping && end.cv == []
    decreases |s.cv| - s.phase.next
  {
    hide Reaches;
    ReachesSelf(s);
    if s.phase.next == |s.cv| {
      end := Apply(s, Clear);
      ReachesBy(s, [], s, Clear, end);
      steps := [] + [Clear];
    } else {
      var s', rest := Apply(s, SendNext), [];
      ReachesBy(s, [], s, SendNext, s');
      rest, end := SendingEnds(s');
      ReachesThen(s, [] + [SendNext], s', rest, end);
      steps := [] + [SendNext] + rest;
    }
  }

  /** The consumer gets to its blocking read. */
  lemma GetsToRead(s: State) returns (steps: seq<Step>, end: State)
    requires !s.phase.Stopped? && !s.phase.Woken? && !s.link.Done? && Inv(s)
    ensures Reaches(s, steps, end) && SameBuffers(s, end) && end.phase == Reading && end.cv == []
  {
    hide Reaches;
    ReachesSelf(s);
    steps, end := [], s;
    if s.phase.Sending? {
      steps, end := SendingEnds(s);
    }
    if end.phase.Looping? {
      var next := Apply(end, Check);
      ReachesBy(s, steps, end, Check, next);
      steps, end := steps + [Check], next;
    }
  }

  /** A consumer at its read, with a payload waiting, takes everything. */
  lemma ReadTakes(s: State) returns (steps: seq<Step>, end: State)
    requires s.phase.Reading? && s.cv == [] && AllReady(s.pipe) && (s.pipe != [] || s.writers > 0)
    requires s.taken + s.pv == s.pushed
    ensures Reaches(s, steps, end) && end.taken == s.pushed == end.pushed
  {
    hide Reaches;
    ReachesSelf(s);
    steps := [];
    var s1 := s;
    if s.pipe == [] {
      s1 := Apply(s, WriteReady);
      ReachesBy(s, [], s, WriteReady, s1);
      steps := [] + [WriteReady];
    }
    var s2 := Apply(s1, ReadByte);
    ReachesBy(s, steps, s1, ReadByte, s2);
    steps := steps + [ReadByte];
    end := Apply(s2, Swap);
    ReachesBy(s, steps, s2, Swap, end);
    steps := steps + [Swap];
  }

  /** The consumer can always catch up: unless it has stopped, the collector is
      done or quit bytes are under way, the writes that producers owe and its own
      steps lead to a state in which everything pushed has been taken. */
  lemma CanCatchUp(run: seq<Step>) returns (steps: seq<Step>)
    requires ValidRun(INIT, run)
    requires var s := Exec(INIT, run); !s.phase.Stopped? && !s.link.Done? && AllReady(s.pipe)
    ensures var s := Exec(INIT, run);
            ValidRun(s, steps) && Exec(s, steps).taken == s.pushed == Exec(s, steps).pushed
  {
    InvHolds(INIT, run);
    var s := Exec(INIT, run);
    ReachesSelf(s);
    if s.pv == [] {
      steps := [];
      assert s.taken + [] == s.taken;
    } else if s.phase.Woken? {
      ReachesBy(s, [], s, Swap, Apply(s, Swap));
      steps := [] + [Swap];
    } else {
      var a, s1 := GetsToRead(s);
      TimesMember(s.pipe, READY_CHAR);
      var b, end := ReadTakes(s1);
      ReachesThen(s, a, s1, b, end);
      steps := a + b;
    }
  }

  /* ---- the object ---- */

  class Buffers {
    var pv: seq<Payload>
    var cv: seq<Payload>
    var pipe: seq<char>
    var link: Link
    var sent: seq<Payload>
    ghost var writers: nat
    ghost var phase: Phase
    ghost var pushed: seq<Payload>
    ghost var taken: seq<Payload>

    ghost function Abs(): State
      reads this
    {
      State(pv, cv, pipe, writers, link, phase, pushed, taken, sent)
    }

    constructor ()
      ensures Abs() == INIT
    {
      pv, cv, pipe, link, sent := [], [], [], Ready, [];
      writers, phase, pushed, taken := 0, Looping, [], [];
    }

    /** The part of `addPayload` under the lock. */
    method PushPayload(p: Payload)
      modifies this
      ensures Abs() == Apply(old(Abs()), Push(p))
    {
      pv := pv + [p];
      pushed := pushed + [p];
      writers := writers + 1;
    }

    method WriteReadyByte()
      requires writers > 0
      modifies this
      ensures Abs() == Apply(old(Abs()), WriteReady)
    {
      pipe := pipe + [READY_CHAR];
      writers := writers - 1;
    }

    /** One turn of `Consume` after the check, with a byte to read and no
        interference while it sends. */
    method ConsumeOne() returns (more: bool)
      requires Inv(Abs()) && Enabled(Abs(), ReadByte)
      modifies this
      ensures more == (old(pipe)[0] == READY_CHAR) && pipe == old(pipe)[1..]
      ensures Inv(Abs()) && phase == if more then Looping else Stopped
      ensures taken == old(taken) + if more then old(pv) else []
      ensures pv == if more then [] else old(pv)
      ensures sent == old(sent) + if more && link.Ready? then old(pv) else []
      ensures link == old(link) && pushed == old(pushed) && writers == old(writers)
    {
      InvKept(Abs(), ReadByte);
      var c := pipe[0];
      pipe := pipe[1..];
      more := c == READY_CHAR;
      if !more {
        phase := Stopped;
        return;
      }
      phase := Woken;
      InvKept(Abs(), Swap);
      cv, pv := pv, cv;
      taken := taken + cv;
      phase := Looping;
      if cv == [] {
        return;
      }
      SendAll();
      cv := [];
    }

    /** The loop that sends the taken payloads, each if the link is up. */
    method SendAll()
      modifies `sent
      ensures sent == old(sent) + if link.Ready? then cv else []
    {
      for i := 0 to |cv|
        invariant sent == old(sent) + if link.Ready? then cv[..i] else []
      {
        if link.Ready? {
          sent := sent + [cv[i]];
        }
      }
      assert cv[..|cv|] == cv;
    }
  }
}

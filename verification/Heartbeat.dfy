/** The retry budget of `Heartbeat` in socket/monitor/listener.cpp. Instants and
    round-trip times are milliseconds, as reals. */
module Heartbeat {

  const MAXRETRY: int := 5
  const DURATION: real := 5000.0

  /** The heartbeat fields, the reader's `lastest_readts`, and the number of pings
      sent since the last pong or session reset. */
  datatype State = State(
    pingts: real,
    pongts: real,
    rtt: real,
    minrtt: real,
    maxrtt: real,
    retry: int,
    readts: real,
    sent: nat)

  datatype Event = Ping(now: real) | Pong(now: real, timestamp: real) | Request(now: real) | Reset

  const INIT: State := State(-1.0, -1.0, -1.0, DURATION, -DURATION, MAXRETRY, -1.0, 0)

  /** The peer has not answered: no pong yet, or too long ago. */
  predicate Overdue(s: State, now: real) {
    s.pingts > 0.0 && (s.rtt < 0.0 || now - s.pongts > DURATION + 10.0 * s.maxrtt)
  }

  predicate PingFails(s: State, now: real) {
    now - s.readts >= DURATION && s.retry == 0
  }

  function PingState(s: State, now: real): State {
    if now - s.readts < DURATION || s.retry == 0 then s
    else s.(retry := if Overdue(s, now) then s.retry - 1 else s.retry, pingts := now, sent := s.sent + 1)
  }

  function UpdateRtt(s: State, d: real): State {
    s.(rtt := d,
       minrtt := if s.minrtt > d then d else s.minrtt,
       maxrtt := if s.maxrtt < d && d < DURATION / 20.0 then d else s.maxrtt,
       retry := MAXRETRY)
  }

  function Apply(s: State, e: Event): State {
    match e
    case Ping(now) => PingState(s, now)
    case Pong(now, timestamp) => UpdateRtt(s.(pongts := now, sent := 0), now - timestamp)
    case Request(now) => s.(readts := now)
    case Reset => INIT
  }

  function Exec(s: State, events: seq<Event>): State
    decreases |events|
  {
    if events == [] then s else Exec(Apply(s, events[0]), events[1..])
  }

  /* ---- invariants ---- */

  /** Every retry spent was spent on a ping that was sent. */
  predicate Inv(s: State) {
    && 0 <= s.retry <= MAXRETRY
    && s.retry + s.sent >= MAXRETRY
    && s.maxrtt < DURATION / 20.0
  }

  lemma {:induction false} InvHolds(s: State, events: seq<Event>)
    requires Inv(s)
    ensures Inv(Exec(s, events))
    decreases |events|
  {
    if events != [] {
      InvHolds(Apply(s, events[0]), events[1..]);
    }
  }

  /** A ping fails only after at least five pings have been sent since the last
      pong or the start of the session. */
  lemma FailsOnlyAfterFivePings(events: seq<Event>, now: real)
    requires PingFails(Exec(INIT, events), now)
    ensures Exec(INIT, events).sent >= MAXRETRY
  {
    InvHolds(INIT, events);
  }

  /** Five is tight: after a slow pong the sixth call already fails. */
  lemma FiveIsTight()
    ensures var s := Exec(INIT, [Ping(10000.0), Pong(11000.0, 10000.0), Ping(15000.0), Ping(20000.0),
                                 Ping(25000.0), Ping(30000.0), Ping(35000.0)]);
            PingFails(s, 40000.0) && s.sent == 5
  {
    var s2 := Apply(Apply(INIT, Ping(10000.0)), Pong(11000.0, 10000.0));
    assert s2 == State(10000.0, 11000.0, 1000.0, 1000.0, -5000.0, 5, -1.0, 0);
    var s3 := Apply(s2, Ping(15000.0));
    var s4 := Apply(s3, Ping(20000.0));
    var s5 := Apply(s4, Ping(25000.0));
    var s6 := Apply(s5, Ping(30000.0));
    var s7 := Apply(s6, Ping(35000.0));
    assert s7.retry == 0 && s7.sent == 5;
    var e := [Ping(10000.0), Pong(11000.0, 10000.0), Ping(15000.0), Ping(20000.0),
              Ping(25000.0), Ping(30000.0), Ping(35000.0)];
    assert e[1..][1..] == e[2..] && e[2..][1..] == e[3..] && e[3..][1..] == e[4..];
    assert e[4..][1..] == e[5..] && e[5..][1..] == e[6..] && e[6..][1..] == [];
    assert Exec(s7, []) == s7;
    assert Exec(s6, e[6..]) == s7;
    assert Exec(s5, e[5..]) == s7;
    assert Exec(s4, e[4..]) == s7;
    assert Exec(s3, e[3..]) == s7;
    assert Exec(s2, e[2..]) == s7;
  }

  /* ---- the fields on the history ---- */

  lemma {:induction false} ExecSnoc(s: State, events: seq<Event>, e: Event)
    ensures Exec(s, events + [e]) == Apply(Exec(s, events), e)
    decreases |events|
  {
    if events == [] {
      assert [] + [e] == [e] && [e][1..] == [];
    } else {
      assert (events + [e])[0] == events[0] && (events + [e])[1..] == events[1..] + [e];
      ExecSnoc(Apply(s, events[0]), events[1..], e);
    }
  }

  /** The last pong of the session, if any: when it came and its round trip. */
  datatype Answer = None | Ponged(at: real, trip: real)

  function LastAnswer(events: seq<Event>): Answer {
    if events == [] then None
    else
      match events[|events| - 1]
      case Reset => None
      case Pong(now, timestamp) => Ponged(now, now - timestamp)
      case _ => LastAnswer(events[..|events| - 1])
  }

  /** The largest round trip of the session below 250 ms, or -5000. */
  function LargestTrip(events: seq<Event>): real {
    if events == [] then -5000.0
    else
      var rest := LargestTrip(events[..|events| - 1]);
      match events[|events| - 1]
      case Reset => -5000.0
      case Pong(now, timestamp) => if rest < now - timestamp < 250.0 then now - timestamp else rest
      case _ => rest
  }

  /** The smallest round trip of the session, or 5000. */
  function SmallestTrip(events: seq<Event>): real {
    if events == [] then 5000.0
    else
      var rest := SmallestTrip(events[..|events| - 1]);
      match events[|events| - 1]
      case Reset => 5000.0
      case Pong(now, timestamp) => if now - timestamp < rest then now - timestamp else rest
      case _ => rest
  }

  /** When the last request of the session came, or -1. */
  function LastRequest(events: seq<Event>): real {
    if events == [] then -1.0
    else
      match events[|events| - 1]
      case Reset => -1.0
      case Request(now) => now
      case _ => LastRequest(events[..|events| - 1])
  }

  /** A call at `now` sends a ping: no request is recent and a retry is left. */
  predicate Sends(events: seq<Event>, now: real)
    decreases |events|, 2
  {
    now - LastRequest(events) >= 5000.0 && Retries(events) > 0
  }

  /** A ping sent at `now` is overdue: one was sent before in the session, and the
      last pong is missing, of a negative round trip, or too old. */
  predicate Costs(events: seq<Event>, now: real)
    decreases |events|, 2
  {
    && LastPing(events) > 0.0
    && (LastAnswer(events) == None || LastAnswer(events).trip < 0.0 ||
        now - LastAnswer(events).at > 5000.0 + 10.0 * LargestTrip(events))
  }

  /** When the last ping of the session was sent, or -1. */
  function LastPing(events: seq<Event>): real
    decreases |events|, 0
  {
    if events == [] then -1.0
    else
      var init := events[..|events| - 1];
      match events[|events| - 1]
      case Reset => -1.0
      case Ping(now) => if Sends(init, now) then now else LastPing(init)
      case _ => LastPing(init)
  }

  /** The retries left: five after a pong or reset, one less for each ping sent
      that was overdue. */
  function Retries(events: seq<Event>): int
    decreases |events|, 1
  {
    if events == [] then 5
    else
      var init := events[..|events| - 1];
      match events[|events| - 1]
      case Reset => 5
      case Pong(_, _) => 5
      case Ping(now) => if Sends(init, now) && Costs(init, now) then Retries(init) - 1 else Retries(init)
      case _ => Retries(init)
  }

  /** The pings sent since the last pong or reset. */
  function PingsSent(events: seq<Event>): nat
    decreases |events|
  {
    if events == [] then 0
    else
      var init := events[..|events| - 1];
      match events[|events| - 1]
      case Reset => 0
      case Pong(_, _) => 0
      case Ping(now) => if Sends(init, now) then PingsSent(init) + 1 else PingsSent(init)
      case _ => PingsSent(init)
  }

  /** Every field is what the history says. */
  ghost predicate Records(s: State, events: seq<Event>) {
    && s.retry == Retries(events) && s.retry >= 0
    && s.pingts == LastPing(events)
    && s.readts == LastRequest(events)
    && s.maxrtt == LargestTrip(events) && s.minrtt == SmallestTrip(events)
    && s.sent == PingsSent(events)
    && (match LastAnswer(events)
        case None => s.rtt == -1.0 && s.pongts == -1.0
        case Ponged(at, trip) => s.rtt == trip && s.pongts == at)
  }

  lemma {:induction false} RecordsHold(events: seq<Event>)
    ensures Records(Exec(INIT, events), events)
    decreases |events|
  {
    if events != [] {
      var init, e := events[..|events| - 1], events[|events| - 1];
      assert events == init + [e];
      RecordsHold(init);
      ExecSnoc(INIT, init, e);
      hide Exec;
      if e.Ping? {
        SendsAndCosts(Exec(INIT, init), init, e.now);
      }
    }
  }

  /** The source's tests of the fields are those of the history. */
  lemma SendsAndCosts(s: State, events: seq<Event>, now: real)
    requires Records(s, events)
    ensures Sends(events, now) <==> now - s.readts >= DURATION && s.retry != 0
    ensures Costs(events, now) <==> Overdue(s, now)
  {
    hide Retries, LastPing, LastRequest, LargestTrip, LastAnswer, SmallestTrip, PingsSent;
  }

  /** A ping that is sent costs a retry exactly when one was sent before in the
      session and no pong has answered in time; a call that sends none changes
      nothing. */
  lemma CostExactly(events: seq<Event>, now: real)
    ensures var s := Exec(INIT, events); var s' := Exec(INIT, events + [Ping(now)]);
            && (Sends(events, now) ==> s'.pingts == now && s'.retry == s.retry - if Costs(events, now) then 1 else 0)
            && (!Sends(events, now) ==> s' == s)
            && (PingFails(s, now) <==> now - LastRequest(events) >= 5000.0 && Retries(events) == 0)
  {
    RecordsHold(events);
    ExecSnoc(INIT, events, Ping(now));
    hide Exec, Retries, LastPing, LastRequest, LargestTrip, LastAnswer;
    SendsAndCosts(Exec(INIT, events), events, now);
  }

  /** Whenever a ping is sent after another one, a pong of the session is recent
      enough. */
  ghost predicate Punctual(events: seq<Event>) {
    forall i :: 0 <= i < |events| && events[i].Ping? ==> !Costs(events[..i], events[i].now)
  }

  /** A peer that answers in time loses no retry and is never dropped. */
  lemma {:induction false} PunctualPeerKept(events: seq<Event>, now: real)
    requires Punctual(events)
    ensures Retries(events) == 5 && !PingFails(Exec(INIT, events), now)
    decreases |events|
  {
    if events != [] {
      var init, e := events[..|events| - 1], events[|events| - 1];
      forall i | 0 <= i < |init| && init[i].Ping?
        ensures !Costs(init[..i], init[i].now)
      {
        assert init[..i] == events[..i] && init[i] == events[i];
      }
      PunctualPeerKept(init, now);
      assert e.Ping? ==> !Costs(init, e.now);
    }
    RecordsHold(events);
  }

  /* ---- a silent peer ---- */

  /** Silence as the state records it, at instant `now`. */
  predicate Silence(s: State, now: real) {
    && now - s.readts >= DURATION
    && (s.rtt < 0.0 || now - s.pongts >= 7500.0)
  }

  function PingAll(s: State, times: seq<real>): State
    decreases |times|
  {
    if times == [] then s else PingAll(PingState(s, times[0]), times[1..])
  }

  /** Every call but the last succeeds, the last one fails. */
  predicate FailsAtLast(s: State, times: seq<real>)
    decreases |times|
  {
    times != [] &&
    if |times| == 1 then PingFails(s, times[0])
    else !PingFails(s, times[0]) && FailsAtLast(PingState(s, times[0]), times[1..])
  }

  predicate Later(times: seq<real>, start: real) {
    && (forall i :: 0 <= i < |times| ==> start <= times[i])
    && (forall i, j :: 0 <= i < j < |times| ==> times[i] <= times[j])
  }

  /** How many calls a silent peer survives: one per retry left, one more for the
      very first ping, and the one that fails. */
  function CallsLeft(s: State): int {
    s.retry + 1 + if s.pingts > 0.0 || s.retry == 0 then 0 else 1
  }

  /** Without pong or request, exactly the predicted call fails. */
  lemma {:induction false} DroppedExactly(s: State, times: seq<real>, start: real)
    requires Inv(s) && start > 0.0 && Silence(s, start) && Later(times, start)
    requires |times| == CallsLeft(s)
    ensures FailsAtLast(s, times)
    decreases |times|
  {
    if |times| > 1 {
      assert start <= times[0];
      DroppedExactly(PingState(s, times[0]), times[1..], start);
    }
  }

  predicate NothingSince(events: seq<Event>, now: real) {
    forall i :: 0 <= i < |events| ==>
      && (events[i].Pong? ==> now - events[i].now >= 7500.0)
      && (events[i].Request? ==> now - events[i].now >= DURATION)
  }

  lemma {:induction false} SilenceRecorded(s: State, events: seq<Event>, now: real)
    requires Silence(s, now) && now >= DURATION && NothingSince(events, now)
    ensures Silence(Exec(s, events), now)
    decreases |events|
  {
    if events != [] {
      assert events[0].Pong? ==> now - events[0].now >= 7500.0;
      assert events[0].Request? ==> now - events[0].now >= DURATION;
      SilenceRecorded(Apply(s, events[0]), events[1..], now);
    }
  }

  /** Over every session: with no pong in the last 7500 ms and no request in the
      last 5000 ms, and none arriving later, the calls succeed up to a definite
      one, at the latest the seventh, and that one fails. */
  lemma SilentPeerDropped(events: seq<Event>, times: seq<real>, start: real)
    requires start >= DURATION && NothingSince(events, start) && Later(times, start)
    requires |times| == CallsLeft(Exec(INIT, events))
    ensures FailsAtLast(Exec(INIT, events), times)
    ensures |times| <= 7
  {
    SilenceRecorded(INIT, events, start);
    InvHolds(INIT, events);
    DroppedExactly(Exec(INIT, events), times, start);
  }

  /* ---- the object ---- */

  class Monitor {
    var pingts: real
    var pongts: real
    var rtt: real
    var minrtt: real
    var maxrtt: real
    var retry: int
    var readts: real
    ghost var sent: nat

    ghost function Abs(): State
      reads this
    {
      State(pingts, pongts, rtt, minrtt, maxrtt, retry, readts, sent)
    }

    constructor ()
      ensures Abs() == INIT
    {
      pingts, pongts, rtt, minrtt, maxrtt := -1.0, -1.0, -1.0, DURATION, -DURATION;
      retry, readts, sent := MAXRETRY, -1.0, 0;
    }

    method PingPeer(now: real) returns (ok: bool)
      modifies this
      ensures ok == !PingFails(old(Abs()), now)
      ensures Abs() == Apply(old(Abs()), Ping(now))
    {
      if now - readts < DURATION {
        return true;
      }
      if retry == 0 {
        return false;
      }
      if pingts > 0.0 && (rtt < 0.0 || now - pongts > DURATION + 10.0 * maxrtt) {
        retry := retry - 1;
      }
      pingts := now;
      sent := sent + 1;
      return true;
    }

    method ReceivePong(now: real, timestamp: real)
      modifies this
      ensures Abs() == Apply(old(Abs()), Pong(now, timestamp))
    {
      pongts := now;
      var d := now - timestamp;
      rtt := d;
      if minrtt > d {
        minrtt := d;
      }
      if maxrtt < d && d < DURATION / 20.0 {
        maxrtt := d;
      }
      retry := MAXRETRY;
      sent := 0;
    }

    method ResetSession()
      modifies this
      ensures Abs() == Apply(old(Abs()), Reset)
    {
      readts := -1.0;
      pingts, pongts, rtt, minrtt, maxrtt := -1.0, -1.0, -1.0, DURATION, -DURATION;
      retry, sent := MAXRETRY, 0;
    }
  }
}

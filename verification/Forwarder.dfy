/** The rendezvous of socket/monitor/examples/forwarder.cpp: a client connection
    and a follower that announces its dialogue meet whichever comes first. Clients
    are numbered as they arrive, followers as they are accepted; a list iterator
    is the number of the node it points to. */
module Forwarder {

  const EXPIRED_THRESHOLD: real := 5000.0

  datatype Client = Client(key: nat, fd: int, dialogue: int, timestamp: real)

  datatype Follower = Follower(node: nat, pid: int, fd: int, dialogue: int, timestamp: real)

  datatype Event = Announce(node: nat, dialogue: int) | Publish(client: Client, node: nat, at: real)

  datatype Option<T> = None | Some(value: T)

  datatype State = State(
    clients: seq<Client>,
    followers: seq<Follower>,
    index: map<int, nat>,
    nextKey: nat,
    nextNode: nat,
    log: seq<Event>)

  /** `pick` is the pid at which the walk over the map stops. */
  datatype Step =
    | Follow(pid: int, fd: int, now: real)
    | Quit(fd: int)
    | Notify(pid: int, dialogue: int, now: real)
    | Peek(fd: int, dialogue: int, now: real, pick: int)

  const INIT: State := State([], [], map[], 0, 0, [])

  /* ---- the lists ---- */

  predicate Expired(c: Client, now: real) {
    now - c.timestamp > EXPIRED_THRESHOLD
  }

  function Pos(followers: seq<Follower>, node: nat): (k: nat)
    ensures k <= |followers|
    ensures k < |followers| ==> followers[k].node == node
    ensures forall j :: 0 <= j < k ==> followers[j].node != node
  {
    if followers == [] || followers[0].node == node then 0 else 1 + Pos(followers[1..], node)
  }

  function PosFd(followers: seq<Follower>, fd: int): (k: nat)
    ensures k <= |followers|
    ensures k < |followers| ==> followers[k].fd == fd
    ensures forall j :: 0 <= j < k ==> followers[j].fd != fd
  {
    if followers == [] || followers[0].fd == fd then 0 else 1 + PosFd(followers[1..], fd)
  }

  /** The walk of `handle_notify` over the clients: expired ones on the way are
      discarded, the first live one of the dialogue ends it. */
  function Scan(clients: seq<Client>, dialogue: int, now: real): (r: (seq<Client>, Option<Client>)) {
    if clients == [] then ([], None)
    else if Expired(clients[0], now) then Scan(clients[1..], dialogue, now)
    else if clients[0].dialogue == dialogue then (clients[1..], Some(clients[0]))
    else
      var (rest, hit) := Scan(clients[1..], dialogue, now);
      ([clients[0]] + rest, hit)
  }

  /* ---- steps ---- */

  predicate WellFormed(s: State) {
    forall pid :: pid in s.index ==> Pos(s.followers, s.index[pid]) < |s.followers|
  }

  function At(s: State, pid: int): (k: nat)
    requires WellFormed(s) && pid in s.index
    ensures k < |s.followers| && s.followers[k].node == s.index[pid]
  {
    Pos(s.followers, s.index[pid])
  }

  predicate Waits(s: State, dialogue: int)
    requires WellFormed(s)
  {
    exists pid :: pid in s.index && s.followers[At(s, pid)].dialogue == dialogue
  }

  predicate Enabled(s: State, step: Step) {
    && WellFormed(s)
    && match step
       case Follow(pid, fd, _) => pid !in s.index && forall f :: f in s.followers ==> f.fd != fd
       case Quit(_) => true
       case Notify(_, _, _) => true
       case Peek(_, dialogue, _, pick) =>
         dialogue != -1 &&
         (Waits(s, dialogue) ==> pick in s.index && s.followers[At(s, pick)].dialogue == dialogue)
  }

  /** `accept_follower`; inserting into the map leaves an entry already there. */
  function ApplyFollow(s: State, pid: int, fd: int, now: real): State {
    s.(followers := [Follower(s.nextNode, pid, fd, -1, now)] + s.followers,
       index := if pid in s.index then s.index else s.index[pid := s.nextNode],
       nextNode := s.nextNode + 1)
  }

  function ApplyQuit(s: State, fd: int): State {
    var k := PosFd(s.followers, fd);
    if k == |s.followers| then s
    else s.(followers := s.followers[..k] + s.followers[k + 1..], index := s.index - {s.followers[k].pid})
  }

  function ApplyNotify(s: State, pid: int, dialogue: int, now: real): State
    requires WellFormed(s)
  {
    if pid !in s.index then s
    else
      var k := At(s, pid);
      var node := s.index[pid];
      var (kept, hit) := Scan(s.clients, dialogue, now);
      match hit
      case None =>
        s.(clients := kept, log := s.log + [Announce(node, dialogue)],
           followers := s.followers[k := s.followers[k].(dialogue := dialogue)])
      case Some(c) =>
        s.(clients := kept, log := s.log + [Announce(node, dialogue), Publish(c, node, now)],
           followers := s.followers[k := s.followers[k].(dialogue := -1, timestamp := now)])
  }

  function ApplyPeek(s: State, fd: int, dialogue: int, now: real, pick: int): State
    requires WellFormed(s) && (Waits(s, dialogue) ==> pick in s.index)
  {
    var c := Client(s.nextKey, fd, dialogue, now);
    if Waits(s, dialogue) then
      var k := At(s, pick);
      s.(nextKey := s.nextKey + 1, log := s.log + [Publish(c, s.index[pick], now)],
         followers := s.followers[k := s.followers[k].(dialogue := -1, timestamp := now)])
    else
      s.(nextKey := s.nextKey + 1, clients := [c] + s.clients)
  }

  function Apply(s: State, step: Step): State
    requires Enabled(s, step)
  {
    match step
    case Follow(pid, fd, now) => ApplyFollow(s, pid, fd, now)
    case Quit(fd) => ApplyQuit(s, fd)
    case Notify(pid, dialogue, now) => ApplyNotify(s, pid, dialogue, now)
    case Peek(fd, dialogue, now, pick) => ApplyPeek(s, fd, dialogue, now, pick)
  }

  predicate ValidRun(s: State, steps: seq<Step>)
    decreases |steps|
  {
    steps != [] ==> Enabled(s, steps[0]) && ValidRun(Apply(s, steps[0]), steps[1..])
  }

  function Exec(s: State, steps: seq<Step>): State
    requires ValidRun(s, steps)
    decreases |steps|
  {
    if steps == [] then s else Exec(Apply(s, steps[0]), steps[1..])
  }

  /* ---- the index ---- */

  predicate Distinct(followers: seq<Follower>) {
    forall i, j :: 0 <= i < j < |followers| ==>
      && followers[i].node != followers[j].node
      && followers[i].pid != followers[j].pid
      && followers[i].fd != followers[j].fd
  }

  function Pids(followers: seq<Follower>): set<int> {
    set f | f in followers :: f.pid
  }

  /** The map sends exactly the pids of the listed followers to their nodes. */
  predicate IndexExact(s: State) {
    && Distinct(s.followers)
    && s.index.Keys == Pids(s.followers)
    && (forall f :: f in s.followers ==> f.node < s.nextNode && f.pid in s.index && s.index[f.pid] == f.node)
  }

  lemma IndexedIsListed(s: State, pid: int)
    requires IndexExact(s) && pid in s.index
    ensures var k := Pos(s.followers, s.index[pid]); k < |s.followers| && s.followers[k].pid == pid
  {
    assert pid in Pids(s.followers);
    var f :| f in s.followers && f.pid == pid;
    var i :| 0 <= i < |s.followers| && s.followers[i] == f;
  }

  lemma IndexFollow(s: State, pid: int, fd: int, now: real)
    requires IndexExact(s) && pid !in s.index && (forall f :: f in s.followers ==> f.fd != fd)
    ensures IndexExact(ApplyFollow(s, pid, fd, now))
  {
    var s', f0 := ApplyFollow(s, pid, fd, now), Follower(s.nextNode, pid, fd, -1, now);
    assert forall f :: f in s'.followers <==> f == f0 || f in s.followers;
    DistinctFront(f0, s.followers);
    PidsFront(f0, s.followers);
  }

  lemma DistinctFront(f0: Follower, followers: seq<Follower>)
    requires Distinct(followers)
    requires forall f :: f in followers ==> f.node != f0.node && f.pid != f0.pid && f.fd != f0.fd
    ensures Distinct([f0] + followers)
  {
  }

  lemma PidsFront(f0: Follower, followers: seq<Follower>)
    ensures Pids([f0] + followers) == {f0.pid} + Pids(followers)
  {
    assert forall f :: f in [f0] + followers <==> f == f0 || f in followers;
  }

  lemma IndexQuit(s: State, fd: int)
    requires IndexExact(s)
    ensures IndexExact(ApplyQuit(s, fd))
  {
    hide Distinct, Pids;
    var q := PosFd(s.followers, fd);
    if q < |s.followers| {
      QuitFollower(s.followers, q);
      PidsSplit(s.followers, q);
    }
  }

  /** Without the follower at q the others stay distinct, from it as well. */
  lemma QuitFollower(followers: seq<Follower>, q: nat)
    requires q < |followers| && Distinct(followers)
    ensures var rest := followers[..q] + followers[q + 1..];
            && Distinct(rest)
            && (forall f :: f in rest ==> f in followers && f.pid != followers[q].pid)
            && followers[q].pid !in Pids(rest)
  {
    var rest := followers[..q] + followers[q + 1..];
    forall f | f in rest
      ensures f in followers && f.pid != followers[q].pid
    {
      var i :| 0 <= i < |rest| && rest[i] == f;
      assert f == followers[if i < q then i else i + 1];
    }
  }

  lemma PidsSplit(followers: seq<Follower>, q: nat)
    requires q < |followers|
    ensures Pids(followers) == Pids(followers[..q] + followers[q + 1..]) + {followers[q].pid}
  {
    var rest := followers[..q] + followers[q + 1..];
    assert followers == followers[..q] + [followers[q]] + followers[q + 1..];
    assert forall f :: f in followers <==> f in rest || f == followers[q];
  }

  /** Changing what a follower waits for moves nothing. */
  lemma IndexTouch(s: State, s': State, k: nat, dialogue: int, timestamp: real)
    requires IndexExact(s) && k < |s.followers|
    requires s'.followers == s.followers[k := s.followers[k].(dialogue := dialogue, timestamp := timestamp)]
    requires s'.index == s.index && s'.nextNode == s.nextNode
    ensures IndexExact(s')
  {
    assert forall i :: 0 <= i < |s.followers| ==> s'.followers[i].pid == s.followers[i].pid;
    assert Pids(s'.followers) == Pids(s.followers) by { PidsByPosition(s.followers, s'.followers); }
  }

  lemma PidsByPosition(a: seq<Follower>, b: seq<Follower>)
    requires |a| == |b| && forall i :: 0 <= i < |a| ==> a[i].pid == b[i].pid
    ensures Pids(a) == Pids(b)
  {
    forall pid ensures pid in Pids(a) <==> pid in Pids(b) {
      if pid in Pids(a) {
        var i :| 0 <= i < |a| && a[i].pid == pid;
        assert b[i] in b;
      }
      if pid in Pids(b) {
        var i :| 0 <= i < |b| && b[i].pid == pid;
        assert a[i] in a;
      }
    }
  }

  lemma IndexKept(s: State, step: Step)
    requires Enabled(s, step) && IndexExact(s)
    ensures IndexExact(Apply(s, step))
  {
    var s' := Apply(s, step);
    match step
    case Follow(pid, fd, now) => IndexFollow(s, pid, fd, now);
    case Quit(fd) => IndexQuit(s, fd);
    case Notify(pid, dialogue, now) =>
      if pid in s.index {
        var k := At(s, pid);
        IndexTouch(s, s', k, s'.followers[k].dialogue, s'.followers[k].timestamp);
      }
    case Peek(fd, dialogue, now, pick) =>
      if Waits(s, dialogue) {
        IndexTouch(s, s', At(s, pick), -1, now);
      }
  }

  /** Accepting a follower keeps the index exact exactly when its pid is not
      already in use. */
  lemma AcceptKeepsIndexExactly(s: State, pid: int, fd: int, now: real)
    requires IndexExact(s) && forall f :: f in s.followers ==> f.fd != fd
    ensures IndexExact(ApplyFollow(s, pid, fd, now)) <==> pid !in s.index
  {
    if pid !in s.index {
      IndexFollow(s, pid, fd, now);
    } else {
      var s' := ApplyFollow(s, pid, fd, now);
      IndexedIsListed(s, pid);
      assert s'.followers[0] in s'.followers;
    }
  }

  /* ---- the walk over the clients ---- */

  predicate DistinctKeys(clients: seq<Client>) {
    forall i, j :: 0 <= i < j < |clients| ==> clients[i].key != clients[j].key
  }

  /** A hit is the first live client of the dialogue; without one there is no
      live client of it, and nothing of it is left waiting. */
  lemma {:induction false} ScanFinds(clients: seq<Client>, dialogue: int, now: real)
    ensures var (kept, hit) := Scan(clients, dialogue, now);
            && (hit.Some? <==> exists c :: c in clients && c.dialogue == dialogue && !Expired(c, now))
            && (hit.Some? ==> hit.value in clients && hit.value.dialogue == dialogue && !Expired(hit.value, now))
            && (hit.None? ==> forall c :: c in kept ==> c.dialogue != dialogue && !Expired(c, now))
    decreases |clients|
  {
    if clients != [] {
      ScanFinds(clients[1..], dialogue, now);
      assert clients == [clients[0]] + clients[1..];
      assert forall c :: c in clients <==> c == clients[0] || c in clients[1..];
    }
  }

  /** What is kept was there, in the old order, once each, without the hit; and
      only an expired client or the hit goes. */
  lemma {:induction false} ScanKeeps(clients: seq<Client>, dialogue: int, now: real)
    requires DistinctKeys(clients)
    ensures var (kept, hit) := Scan(clients, dialogue, now);
            && DistinctKeys(kept)
            && (forall c :: c in kept ==> c in clients && (hit.Some? ==> c.key != hit.value.key))
            && (forall c :: c in clients && c !in kept ==> Expired(c, now) || hit == Some(c))
    decreases |clients|
  {
    if clients != [] {
      var c0, rest := clients[0], clients[1..];
      ScanKeeps(rest, dialogue, now);
      ScanFinds(rest, dialogue, now);
      assert forall c :: c in clients <==> c == c0 || c in rest;
      assert forall c :: c in rest ==> c.key != c0.key;
    }
  }

  /* ---- no missed rendezvous ---- */

  /** No waiting client shares its dialogue with a listed follower. */
  predicate NoneMissed(s: State) {
    forall c, f :: c in s.clients && f in s.followers ==> c.dialogue != f.dialogue
  }

  predicate ClientsSound(s: State) {
    && DistinctKeys(s.clients)
    && (forall c :: c in s.clients ==> c.key < s.nextKey && c.dialogue != -1)
  }

  ghost predicate MeetInv(s: State) {
    IndexExact(s) && ClientsSound(s) && NoneMissed(s)
  }

  lemma TouchedFollowers(followers: seq<Follower>, k: nat, f': Follower)
    requires k < |followers|
    ensures forall f :: f in followers[k := f'] ==> f == f' || f in followers
  {
  }

  lemma MeetNotify(s: State, pid: int, dialogue: int, now: real)
    requires WellFormed(s) && pid in s.index && ClientsSound(s) && NoneMissed(s)
    ensures var s' := ApplyNotify(s, pid, dialogue, now); ClientsSound(s') && NoneMissed(s')
  {
    var s', k := ApplyNotify(s, pid, dialogue, now), At(s, pid);
    ScanFinds(s.clients, dialogue, now);
    ScanKeeps(s.clients, dialogue, now);
    TouchedFollowers(s.followers, k, s'.followers[k]);
  }

  lemma WaitsExactly(s: State, dialogue: int)
    requires WellFormed(s) && IndexExact(s)
    ensures Waits(s, dialogue) <==> exists f :: f in s.followers && f.dialogue == dialogue
  {
    if f :| f in s.followers && f.dialogue == dialogue {
      var i :| 0 <= i < |s.followers| && s.followers[i] == f;
      assert At(s, f.pid) == i;
    }
  }

  lemma MeetPeek(s: State, fd: int, dialogue: int, now: real, pick: int)
    requires WellFormed(s) && dialogue != -1 && (Waits(s, dialogue) ==> pick in s.index)
    requires MeetInv(s)
    ensures var s' := ApplyPeek(s, fd, dialogue, now, pick); ClientsSound(s') && NoneMissed(s')
  {
    var s' := ApplyPeek(s, fd, dialogue, now, pick);
    WaitsExactly(s, dialogue);
    if Waits(s, dialogue) {
      TouchedFollowers(s.followers, At(s, pick), s'.followers[At(s, pick)]);
    } else {
      assert forall c :: c in s'.clients <==> c == s'.clients[0] || c in s.clients;
      assert DistinctKeys(s'.clients) by { DistinctKeysFront(s'.clients[0], s.clients); }
    }
  }

  lemma DistinctKeysFront(c0: Client, clients: seq<Client>)
    requires DistinctKeys(clients) && forall c :: c in clients ==> c.key != c0.key
    ensures DistinctKeys([c0] + clients)
  {
  }

  lemma MeetFollow(s: State, pid: int, fd: int, now: real)
    requires ClientsSound(s) && NoneMissed(s)
    ensures var s' := ApplyFollow(s, pid, fd, now); ClientsSound(s') && NoneMissed(s')
  {
    assert forall f :: f in ApplyFollow(s, pid, fd, now).followers ==> f.dialogue == -1 || f in s.followers;
  }

  lemma MeetQuit(s: State, fd: int)
    requires ClientsSound(s) && NoneMissed(s)
    ensures var s' := ApplyQuit(s, fd); ClientsSound(s') && NoneMissed(s')
  {
    assert forall f :: f in ApplyQuit(s, fd).followers ==> f in s.followers;
  }

  lemma MeetKept(s: State, step: Step)
    requires Enabled(s, step) && MeetInv(s)
    ensures MeetInv(Apply(s, step))
  {
    IndexKept(s, step);
    hide IndexExact, ClientsSound, NoneMissed, ApplyFollow, ApplyQuit, ApplyPeek, Scan;
    match step
    case Follow(pid, fd, now) => MeetFollow(s, pid, fd, now);
    case Quit(fd) => MeetQuit(s, fd);
    case Notify(pid, dialogue, now) =>
      if pid in s.index { MeetNotify(s, pid, dialogue, now); }
    case Peek(fd, dialogue, now, pick) => MeetPeek(s, fd, dialogue, now, pick);
  }

  /* ---- the log of announcements and publications ---- */

  /** The announcement of the node not yet answered, or -1. */
  function Standing(log: seq<Event>, node: nat): int {
    if log == [] then -1
    else
      var e := log[|log| - 1];
      if e.node != node then Standing(log[..|log| - 1], node)
      else match e case Announce(_, dialogue) => dialogue case Publish(_, _, _) => -1
  }

  /** A publication answers a standing announcement of the client's dialogue and
      comes before the client has expired. */
  predicate Rightful(log: seq<Event>, j: nat)
    requires j < |log| && log[j].Publish?
  {
    && log[j].client.dialogue == Standing(log[..j], log[j].node) != -1
    && !Expired(log[j].client, log[j].at)
  }

  predicate PublishedKey(log: seq<Event>, key: nat) {
    exists j :: 0 <= j < |log| && log[j].Publish? && log[j].client.key == key
  }

  /** Every publication is rightful, and no client is published twice. */
  ghost predicate LogRightful(log: seq<Event>, nextKey: nat, nextNode: nat) {
    && (forall j :: 0 <= j < |log| ==> log[j].node < nextNode)
    && (forall j :: 0 <= j < |log| && log[j].Publish? ==> Rightful(log, j) && log[j].client.key < nextKey)
    && (forall i, j :: 0 <= i < j < |log| && log[i].Publish? && log[j].Publish? ==>
          log[i].client.key != log[j].client.key)
  }

  ghost predicate LogSound(s: State) {
    && LogRightful(s.log, s.nextKey, s.nextNode)
    && (forall f :: f in s.followers ==> f.dialogue == Standing(s.log, f.node))
    && (forall c :: c in s.clients ==> !PublishedKey(s.log, c.key))
  }

  lemma StandingPush(log: seq<Event>, e: Event, node: nat)
    ensures Standing(log + [e], node) ==
            if e.node != node then Standing(log, node) else if e.Announce? then e.dialogue else -1
  {
    assert (log + [e])[..|log|] == log;
  }

  lemma {:induction false} StandingFresh(log: seq<Event>, node: nat)
    requires forall j :: 0 <= j < |log| ==> log[j].node != node
    ensures Standing(log, node) == -1
    decreases |log|
  {
    if log != [] {
      StandingFresh(log[..|log| - 1], node);
    }
  }

  lemma PublishedPush(log: seq<Event>, e: Event, key: nat)
    ensures PublishedKey(log + [e], key) <==> PublishedKey(log, key) || (e.Publish? && e.client.key == key)
  {
    var l := log + [e];
    if PublishedKey(log, key) {
      var j :| 0 <= j < |log| && log[j].Publish? && log[j].client.key == key;
      assert l[j] == log[j];
    }
    if e.Publish? && e.client.key == key {
      assert l[|log|] == e;
    }
  }

  lemma LogPush(log: seq<Event>, e: Event, nextKey: nat, nextNode: nat)
    requires LogRightful(log, nextKey, nextNode) && e.node < nextNode
    requires e.Publish? ==>
               && e.client.dialogue == Standing(log, e.node) != -1 && !Expired(e.client, e.at)
               && e.client.key < nextKey && !PublishedKey(log, e.client.key)
    ensures LogRightful(log + [e], nextKey, nextNode)
  {
    var l := log + [e];
    forall j | 0 <= j < |l| && l[j].Publish? ensures Rightful(l, j) {
      assert l[..j] == log[..j];
      if j == |log| {
        assert log[..j] == log;
      } else {
        assert Rightful(log, j);
      }
    }
    forall i, j | 0 <= i < j < |l| && l[i].Publish? && l[j].Publish? ensures l[i].client.key != l[j].client.key {
      if j == |log| {
        assert !PublishedKey(log, e.client.key);
      }
    }
  }

  /** One follower announces, or answers; the standings of the others stay. */
  lemma StandingsTouched(s: State, s': State, e: Event, k: nat)
    requires Distinct(s.followers) && k < |s.followers| && e.node == s.followers[k].node
    requires forall f :: f in s.followers ==> f.dialogue == Standing(s.log, f.node)
    requires s'.log == s.log + [e]
    requires |s'.followers| == |s.followers|
    requires s'.followers == s.followers[k := s'.followers[k]] && s'.followers[k].node == e.node
    requires s'.followers[k].dialogue == if e.Announce? then e.dialogue else -1
    ensures forall f :: f in s'.followers ==> f.dialogue == Standing(s'.log, f.node)
  {
    forall f | f in s'.followers ensures f.dialogue == Standing(s'.log, f.node) {
      var i :| 0 <= i < |s'.followers| && s'.followers[i] == f;
      StandingPush(s.log, e, f.node);
      assert i != k ==> s'.followers[i] == s.followers[i] && s.followers[i] in s.followers;
    }
  }

  lemma LogFollow(s: State, pid: int, fd: int, now: real)
    requires LogSound(s)
    ensures LogSound(ApplyFollow(s, pid, fd, now))
  {
    var s' := ApplyFollow(s, pid, fd, now);
    StandingFresh(s.log, s.nextNode);
    assert forall f :: f in s'.followers ==> f == s'.followers[0] || f in s.followers;
  }

  /** The state after the announcement alone. */
  function Announced(s: State, k: nat, dialogue: int): State
    requires k < |s.followers|
  {
    s.(log := s.log + [Announce(s.followers[k].node, dialogue)],
       followers := s.followers[k := s.followers[k].(dialogue := dialogue)])
  }

  /** The state after the follower at k has been sent client c. */
  function Answered(s: State, k: nat, c: Client, now: real): State
    requires k < |s.followers|
  {
    s.(log := s.log + [Publish(c, s.followers[k].node, now)],
       followers := s.followers[k := s.followers[k].(dialogue := -1, timestamp := now)])
  }

  lemma LogAnnounced(s: State, k: nat, dialogue: int)
    requires IndexExact(s) && LogSound(s) && k < |s.followers|
    ensures LogSound(Announced(s, k, dialogue)) && Distinct(Announced(s, k, dialogue).followers)
  {
    var s', e := Announced(s, k, dialogue), Announce(s.followers[k].node, dialogue);
    assert s.followers[k] in s.followers;
    LogPush(s.log, e, s.nextKey, s.nextNode);
    StandingsTouched(s, s', e, k);
    forall c | c in s.clients ensures !PublishedKey(s'.log, c.key) { PublishedPush(s.log, e, c.key); }
  }

  lemma LogAnswered(s: State, k: nat, c: Client, now: real)
    requires Distinct(s.followers) && LogSound(s) && k < |s.followers|
    requires s.followers[k].node < s.nextNode && s.followers[k].dialogue == c.dialogue != -1
    requires !Expired(c, now) && c.key < s.nextKey && !PublishedKey(s.log, c.key)
    requires forall d :: d in s.clients ==> d.key != c.key
    ensures LogSound(Answered(s, k, c, now))
  {
    var s', e := Answered(s, k, c, now), Publish(c, s.followers[k].node, now);
    assert s.followers[k] in s.followers;
    LogPush(s.log, e, s.nextKey, s.nextNode);
    StandingsTouched(s, s', e, k);
    forall d | d in s.clients ensures !PublishedKey(s'.log, d.key) { PublishedPush(s.log, e, d.key); }
  }

  lemma LogFewer(s: State, kept: seq<Client>)
    requires LogSound(s) && forall c :: c in kept ==> c in s.clients
    ensures LogSound(s.(clients := kept))
  {
  }

  lemma LogClient(s: State, k: nat, dialogue: int, c: Client)
    requires LogSound(s) && k < |s.followers| && c in s.clients
    ensures !PublishedKey(Announced(s, k, dialogue).log, c.key)
  {
    assert !PublishedKey(s.log, c.key);
    PublishedPush(s.log, Announce(s.followers[k].node, dialogue), c.key);
  }

  lemma LogNotify(s: State, pid: int, dialogue: int, now: real)
    requires WellFormed(s) && pid in s.index && MeetInv(s) && LogSound(s)
    ensures LogSound(ApplyNotify(s, pid, dialogue, now))
  {
    hide LogSound, Scan, PublishedKey, NoneMissed, DistinctKeys, Distinct, Pids;
    var k := At(s, pid);
    var (kept, hit) := Scan(s.clients, dialogue, now);
    var s1 := Announced(s, k, dialogue).(clients := kept);
    assert s.followers[k] in s.followers;
    ScanFinds(s.clients, dialogue, now);
    ScanKeeps(s.clients, dialogue, now);
    LogAnnounced(s, k, dialogue);
    LogFewer(Announced(s, k, dialogue), kept);
    if hit.Some? {
      LogClient(s, k, dialogue, hit.value);
      LogAnswered(s1, k, hit.value, now);
      var e1, e2 := Announce(s.index[pid], dialogue), Publish(hit.value, s.index[pid], now);
      assert s.log + [e1] + [e2] == s.log + [e1, e2];
      assert s1.followers[k := s1.followers[k].(dialogue := -1, timestamp := now)] ==
             s.followers[k := s.followers[k].(dialogue := -1, timestamp := now)];
    }
  }

  lemma LogPeek(s: State, fd: int, dialogue: int, now: real, pick: int)
    requires Enabled(s, Peek(fd, dialogue, now, pick)) && MeetInv(s) && LogSound(s)
    ensures LogSound(ApplyPeek(s, fd, dialogue, now, pick))
  {
    var c := Client(s.nextKey, fd, dialogue, now);
    var s1 := s.(nextKey := s.nextKey + 1);
    assert !PublishedKey(s.log, s.nextKey);
    if Waits(s, dialogue) {
      assert s.followers[At(s, pick)] in s.followers;
      LogAnswered(s1, At(s, pick), c, now);
    } else {
      assert forall d :: d in ApplyPeek(s, fd, dialogue, now, pick).clients ==> d == c || d in s.clients;
    }
  }

  lemma LogKept(s: State, step: Step)
    requires Enabled(s, step) && MeetInv(s) && LogSound(s)
    ensures LogSound(Apply(s, step))
  {
    match step
    case Follow(pid, fd, now) => LogFollow(s, pid, fd, now);
    case Quit(fd) => assert forall f :: f in Apply(s, step).followers ==> f in s.followers;
    case Notify(pid, dialogue, now) => if pid in s.index { LogNotify(s, pid, dialogue, now); }
    case Peek(fd, dialogue, now, pick) => LogPeek(s, fd, dialogue, now, pick);
  }

  /* ---- theorems over runs ---- */

  lemma {:induction false} InvHolds(s: State, steps: seq<Step>)
    requires MeetInv(s) && LogSound(s) && ValidRun(s, steps)
    ensures MeetInv(Exec(s, steps)) && LogSound(Exec(s, steps))
    decreases |steps|
  {
    if steps != [] {
      MeetKept(s, steps[0]);
      LogKept(s, steps[0]);
      InvHolds(Apply(s, steps[0]), steps[1..]);
    }
  }

  /** After every callback no waiting client has a follower waiting for it, and
      the map is exactly an index of the follower list. */
  lemma NoMissedRendezvous(steps: seq<Step>)
    requires ValidRun(INIT, steps)
    ensures NoneMissed(Exec(INIT, steps))
    ensures IndexExact(Exec(INIT, steps)) && WellFormed(Exec(INIT, steps))
  {
    InvHolds(INIT, steps);
    var s := Exec(INIT, steps);
    forall pid | pid in s.index ensures Pos(s.followers, s.index[pid]) < |s.followers| { IndexedIsListed(s, pid); }
  }

  /** A publication answers an announcement of that dialogue which its follower
      made and which had not been answered, and the client had not expired. */
  lemma PublishedRightfully(steps: seq<Step>, j: nat)
    requires ValidRun(INIT, steps)
    requires j < |Exec(INIT, steps).log| && Exec(INIT, steps).log[j].Publish?
    ensures var log := Exec(INIT, steps).log;
            && log[j].client.dialogue == Standing(log[..j], log[j].node) != -1
            && log[j].at - log[j].client.timestamp <= EXPIRED_THRESHOLD
  {
    InvHolds(INIT, steps);
    assert Rightful(Exec(INIT, steps).log, j);
  }

  /** No client is published twice, and none is published and still waiting. */
  lemma PublishedOnce(steps: seq<Step>, i: nat, j: nat)
    requires ValidRun(INIT, steps)
    requires i < j < |Exec(INIT, steps).log|
    requires Exec(INIT, steps).log[i].Publish? && Exec(INIT, steps).log[j].Publish?
    ensures Exec(INIT, steps).log[i].client.key != Exec(INIT, steps).log[j].client.key
    ensures forall c :: c in Exec(INIT, steps).clients ==> c.key != Exec(INIT, steps).log[i].client.key
  {
    InvHolds(INIT, steps);
  }

  /** A notification from a listed follower publishes a client exactly when a
      live one of the dialogue waits. */
  lemma NotifyMeetsExactly(s: State, pid: int, dialogue: int, now: real)
    requires WellFormed(s) && pid in s.index
    ensures var s' := ApplyNotify(s, pid, dialogue, now);
            s'.log[|s'.log| - 1].Publish? <==>
            exists c :: c in s.clients && c.dialogue == dialogue && !Expired(c, now)
  {
    ScanFinds(s.clients, dialogue, now);
    var s', hit := ApplyNotify(s, pid, dialogue, now), Scan(s.clients, dialogue, now).1;
    if hit.Some? {
      assert s'.log[|s'.log| - 1] == Publish(hit.value, s.index[pid], now);
    } else {
      assert s'.log[|s'.log| - 1] == Announce(s.index[pid], dialogue);
    }
  }

  /** A new client is kept waiting exactly when no listed follower waits for it. */
  lemma PeekMeetsExactly(steps: seq<Step>, fd: int, dialogue: int, now: real, pick: int)
    requires ValidRun(INIT, steps) && Enabled(Exec(INIT, steps), Peek(fd, dialogue, now, pick))
    ensures var s := Exec(INIT, steps);
            |ApplyPeek(s, fd, dialogue, now, pick).clients| == |s.clients| <==>
            exists f :: f in s.followers && f.dialogue == dialogue
  {
    InvHolds(INIT, steps);
    WaitsExactly(Exec(INIT, steps), dialogue);
  }

  /* ---- the object ---- */

  function LiveOnly(clients: seq<Client>, now: real): seq<Client> {
    if clients == [] then []
    else if Expired(clients[0], now) then LiveOnly(clients[1..], now)
    else [clients[0]] + LiveOnly(clients[1..], now)
  }

  function ExpiredKeys(clients: seq<Client>, now: real): seq<nat> {
    if clients == [] then []
    else if Expired(clients[0], now) then [clients[0].key] + ExpiredKeys(clients[1..], now)
    else ExpiredKeys(clients[1..], now)
  }

  /** Erasing the list node with this key. */
  function Erase(clients: seq<Client>, key: nat): seq<Client> {
    if clients == [] then [] else if clients[0].key == key then clients[1..] else [clients[0]] + Erase(clients[1..], key)
  }

  function EraseAll(clients: seq<Client>, keys: seq<nat>): seq<Client>
    decreases |keys|
  {
    if keys == [] then clients else EraseAll(Erase(clients, keys[0]), keys[1..])
  }

  lemma {:induction false} EraseAllSnoc(clients: seq<Client>, keys: seq<nat>, key: nat)
    ensures EraseAll(clients, keys + [key]) == Erase(EraseAll(clients, keys), key)
    decreases |keys|
  {
    if keys == [] {
      assert EraseAll(Erase(clients, key), []) == Erase(clients, key);
      assert [key][1..] == [];
    } else {
      assert (keys + [key])[1..] == keys[1..] + [key];
      EraseAllSnoc(Erase(clients, keys[0]), keys[1..], key);
    }
  }

  lemma {:induction false} EraseSkips(c: Client, clients: seq<Client>, keys: seq<nat>)
    requires c.key !in keys
    ensures EraseAll([c] + clients, keys) == [c] + EraseAll(clients, keys)
    decreases |keys|
  {
    if keys != [] {
      assert ([c] + clients)[1..] == clients;
      EraseSkips(c, Erase(clients, keys[0]), keys[1..]);
    }
  }

  lemma {:induction false} KeysOfExpired(clients: seq<Client>, now: real, key: nat)
    requires key in ExpiredKeys(clients, now)
    ensures exists c :: c in clients && c.key == key
    decreases |clients|
  {
    if !(Expired(clients[0], now) && clients[0].key == key) {
      KeysOfExpired(clients[1..], now, key);
    }
  }

  /** Erasing the expired nodes of the walked part leaves the live ones. */
  lemma {:induction false} ErasedIsLive(walked: seq<Client>, rest: seq<Client>, now: real)
    requires DistinctKeys(walked + rest)
    ensures EraseAll(walked + rest, ExpiredKeys(walked, now)) == LiveOnly(walked, now) + rest
    decreases |walked|
  {
    if walked == [] {
      assert walked + rest == rest;
    } else {
      var c, w := walked[0], walked[1..];
      assert walked + rest == [c] + (w + rest);
      assert DistinctKeys(w + rest) by { assert w + rest == (walked + rest)[1..]; }
      ErasedIsLive(w, rest, now);
      if Expired(c, now) {
        var keys := ExpiredKeys(w, now);
        assert ([c.key] + keys)[1..] == keys && ([c] + (w + rest))[1..] == w + rest;
      } else {
        assert (walked + rest)[0] == c;
        forall key | key in ExpiredKeys(w, now) ensures key != c.key {
          KeysOfExpired(w, now, key);
          var d :| d in w && d.key == key;
          var i :| 0 <= i < |w| && w[i] == d;
          assert (walked + rest)[i + 1] == d;
        }
        EraseSkips(c, w + rest, ExpiredKeys(w, now));
        assert [c] + (LiveOnly(w, now) + rest) == [c] + LiveOnly(w, now) + rest;
      }
    }
  }

  /** The walk, seen from the part already walked. */
  lemma {:induction false} ScanSplit(walked: seq<Client>, rest: seq<Client>, dialogue: int, now: real)
    requires forall c :: c in walked && !Expired(c, now) ==> c.dialogue != dialogue
    ensures Scan(walked + rest, dialogue, now) ==
            (LiveOnly(walked, now) + Scan(rest, dialogue, now).0, Scan(rest, dialogue, now).1)
    decreases |walked|
  {
    if walked == [] {
      assert walked + rest == rest;
      assert [] + Scan(rest, dialogue, now).0 == Scan(rest, dialogue, now).0;
    } else {
      assert (walked + rest)[1..] == walked[1..] + rest;
      assert walked[0] in walked;
      ScanSplit(walked[1..], rest, dialogue, now);
      assert [walked[0]] + (LiveOnly(walked[1..], now) + Scan(rest, dialogue, now).0) ==
             [walked[0]] + LiveOnly(walked[1..], now) + Scan(rest, dialogue, now).0;
    }
  }

  lemma {:induction false} ExpiredKeysSnoc(clients: seq<Client>, c: Client, now: real)
    ensures ExpiredKeys(clients + [c], now) == ExpiredKeys(clients, now) + if Expired(c, now) then [c.key] else []
    decreases |clients|
  {
    if clients != [] {
      assert (clients + [c])[1..] == clients[1..] + [c];
      ExpiredKeysSnoc(clients[1..], c, now);
    }
  }

  /** The loop of `handle_notify` over the client list: the first j clients are
      expired, and remembered, or wait for something else. */
  method FindClient(clients: seq<Client>, dialogue: int, now: real) returns (j: nat, found: bool, invalid: seq<nat>)
    ensures j <= |clients| && invalid == ExpiredKeys(clients[..j], now)
    ensures forall c :: c in clients[..j] && !Expired(c, now) ==> c.dialogue != dialogue
    ensures found <==> j < |clients|
    ensures found ==> !Expired(clients[j], now) && clients[j].dialogue == dialogue
  {
    j, found, invalid := 0, false, [];
    while j < |clients| && !found
      invariant j <= |clients| && invalid == ExpiredKeys(clients[..j], now)
      invariant forall c :: c in clients[..j] && !Expired(c, now) ==> c.dialogue != dialogue
      invariant found ==> j < |clients| && !Expired(clients[j], now) && clients[j].dialogue == dialogue
      decreases |clients| - j, !found
    {
      assert clients[..j + 1] == clients[..j] + [clients[j]];
      ExpiredKeysSnoc(clients[..j], clients[j], now);
      if Expired(clients[j], now) {
        invalid := invalid + [clients[j].key];
        j := j + 1;
      } else if clients[j].dialogue == dialogue {
        found := true;
      } else {
        j := j + 1;
      }
    }
  }

  /** The loop that erases the remembered clients. */
  method EraseInvalid(clients: seq<Client>, invalid: seq<nat>) returns (kept: seq<Client>)
    ensures kept == EraseAll(clients, invalid)
  {
    kept := clients;
    for m := 0 to |invalid|
      invariant kept == EraseAll(clients, invalid[..m])
    {
      assert invalid[..m + 1] == invalid[..m] + [invalid[m]];
      EraseAllSnoc(clients, invalid[..m], invalid[m]);
      kept := Erase(kept, invalid[m]);
    }
    assert invalid[..|invalid|] == invalid;
  }

  /** What `handle_notify` does to the client list. */
  method WalkClients(clients: seq<Client>, dialogue: int, now: real) returns (kept: seq<Client>, hit: Option<Client>)
    requires DistinctKeys(clients)
    ensures (kept, hit) == Scan(clients, dialogue, now)
  {
    var j, found, invalid := FindClient(clients, dialogue, now);
    hit := if found then Some(clients[j]) else None;
    kept := if found then clients[..j] + clients[j + 1..] else clients;
    assert clients == clients[..j] + clients[j..];
    ScanSplit(clients[..j], clients[j..], dialogue, now);
    ghost var rest := if found then clients[j + 1..] else [];
    ScanFrom(clients[j..], found, dialogue, now);
    assert kept == clients[..j] + rest;
    hide Scan, EraseAll;
    FewerDistinct(clients, j, found);
    ErasedIsLive(clients[..j], rest, now);
    kept := EraseInvalid(kept, invalid);
  }

  lemma ScanFrom(rest: seq<Client>, found: bool, dialogue: int, now: real)
    requires found <==> rest != []
    requires found ==> !Expired(rest[0], now) && rest[0].dialogue == dialogue
    ensures Scan(rest, dialogue, now) == if found then (rest[1..], Some(rest[0])) else ([], None)
  {
  }

  lemma FewerDistinct(clients: seq<Client>, j: nat, found: bool)
    requires DistinctKeys(clients) && j <= |clients| && (found <==> j < |clients|)
    ensures DistinctKeys(clients[..j] + if found then clients[j + 1..] else [])
  {
  }

  class Server {
    var clients: seq<Client>
    var followers: seq<Follower>
    var index: map<int, nat>
    var nextKey: nat
    var nextNode: nat
    ghost var log: seq<Event>

    ghost function Abs(): State
      reads this
    {
      State(clients, followers, index, nextKey, nextNode, log)
    }

    constructor ()
      ensures Abs() == INIT
    {
      clients, followers, index, nextKey, nextNode, log := [], [], map[], 0, 0, [];
    }

    method AcceptFollower(pid: int, sock: int, now: real)
      modifies this
      ensures Abs() == ApplyFollow(old(Abs()), pid, sock, now)
    {
      followers := [Follower(nextNode, pid, sock, -1, now)] + followers;
      if pid !in index {
        index := index[pid := nextNode];
      }
      nextNode := nextNode + 1;
    }

    /** The walk of the quit callback, which stops at the first descriptor. */
    method FollowerQuit(fd: int)
      modifies this
      ensures Abs() == ApplyQuit(old(Abs()), fd)
    {
      var k := 0;
      while k < |followers| && followers[k].fd != fd
        invariant 0 <= k <= |followers| && forall j :: 0 <= j < k ==> followers[j].fd != fd
      {
        k := k + 1;
      }
      if k < |followers| {
        var pid := followers[k].pid;
        followers := followers[..k] + followers[k + 1..];
        index := index - {pid};
      }
    }

    method HandleNotify(pid: int, dialogue: int, now: real)
      requires WellFormed(Abs()) && DistinctKeys(clients)
      modifies this
      ensures Abs() == ApplyNotify(old(Abs()), pid, dialogue, now)
    {
      if pid in index {
        var k := Pos(followers, index[pid]);
        followers := followers[k := followers[k].(dialogue := dialogue)];
        log := log + [Announce(index[pid], dialogue)];
        var kept, hit := WalkClients(clients, dialogue, now);
        clients := kept;
        if hit.Some? {
          followers := followers[k := followers[k].(dialogue := -1, timestamp := now)];
          log := log + [Publish(hit.value, index[pid], now)];
        }
      }
    }

    /** `peek_header`: the map is walked, in whatever order it keeps its keys,
        until a follower waits for the new client's dialogue. */
    method PeekHeader(fd: int, dialogue: int, now: real, order: seq<int>) returns (ghost pick: int)
      requires WellFormed(Abs()) && dialogue != -1
      requires forall pid :: pid in index <==> pid in order
      modifies this
      ensures Enabled(old(Abs()), Peek(fd, dialogue, now, pick))
      ensures Abs() == ApplyPeek(old(Abs()), fd, dialogue, now, pick)
    {
      pick := 0;
      var c := Client(nextKey, fd, dialogue, now);
      nextKey := nextKey + 1;
      clients := [c] + clients;
      for j := 0 to |order|
        invariant Abs() == old(Abs()).(nextKey := old(nextKey) + 1, clients := [c] + old(clients))
        invariant forall i :: 0 <= i < j ==> followers[At(old(Abs()), order[i])].dialogue != dialogue
      {
        var pid := order[j];
        var k := Pos(followers, index[pid]);
        if followers[k].dialogue == dialogue {
          pick := pid;
          assert Waits(old(Abs()), dialogue) by { assert At(old(Abs()), pid) == k; }
          followers := followers[k := followers[k].(dialogue := -1, timestamp := now)];
          log := log + [Publish(c, index[pid], now)];
          clients := clients[1..];
          return;
        }
      }
    }
  }
}

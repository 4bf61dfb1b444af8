/** The forwarder on steps alone: which followers are listed, what they announced,
    which connections the clients are, and where every client has gone. */
module ForwarderHistory {
  import opened Forwarder

  /* ---- followers ---- */

  /** Who a follower is: its node, process and connection. */
  datatype Name = Name(node: nat, pid: int, fd: int)

  function NameOf(f: Follower): Name { Name(f.node, f.pid, f.fd) }

  function Names(followers: seq<Follower>): seq<Name> {
    if followers == [] then [] else [NameOf(followers[0])] + Names(followers[1..])
  }

  /** The followers on another connection, in order. */
  function Others(followers: seq<Follower>, fd: int): seq<Follower> {
    if followers == [] then []
    else if followers[0].fd == fd then Others(followers[1..], fd)
    else [followers[0]] + Others(followers[1..], fd)
  }

  function NamesWithout(names: seq<Name>, fd: int): seq<Name> {
    if names == [] then []
    else if names[0].fd == fd then NamesWithout(names[1..], fd)
    else [names[0]] + NamesWithout(names[1..], fd)
  }

  /** One step on the list of names: a follower comes in front, or leaves. */
  function NamesStep(names: seq<Name>, next: nat, step: Step): seq<Name> {
    match step
    case Follow(pid, fd, _) => [Name(next, pid, fd)] + names
    case Quit(fd) => NamesWithout(names, fd)
    case _ => names
  }

  function NamesIn(steps: seq<Step>, names: seq<Name>, next: nat): seq<Name>
    decreases |steps|
  {
    if steps == [] then names
    else NamesIn(steps[1..], NamesStep(names, next, steps[0]), if steps[0].Follow? then next + 1 else next)
  }

  lemma {:induction false} NamesSame(a: seq<Follower>, b: seq<Follower>)
    requires |a| == |b| && forall i :: 0 <= i < |a| ==> NameOf(a[i]) == NameOf(b[i])
    ensures Names(a) == Names(b)
    decreases |a|
  {
    if a != [] {
      assert NameOf(a[0]) == NameOf(b[0]);
      forall i | 0 <= i < |a| - 1
        ensures NameOf(a[1..][i]) == NameOf(b[1..][i])
      {
        assert NameOf(a[i + 1]) == NameOf(b[i + 1]);
      }
      NamesSame(a[1..], b[1..]);
    }
  }

  lemma {:induction false} OthersNames(followers: seq<Follower>, fd: int)
    ensures Names(Others(followers, fd)) == NamesWithout(Names(followers), fd)
    decreases |followers|
  {
    if followers != [] {
      OthersNames(followers[1..], fd);
      assert Names(followers)[1..] == Names(followers[1..]);
      if followers[0].fd != fd {
        assert Others(followers, fd)[1..] == Others(followers[1..], fd);
      }
    }
  }

  lemma {:induction false} OthersAll(followers: seq<Follower>, fd: int)
    requires forall i :: 0 <= i < |followers| ==> followers[i].fd != fd
    ensures Others(followers, fd) == followers
    decreases |followers|
  {
    if followers != [] {
      OthersAll(followers[1..], fd);
    }
  }

  lemma CutBehind(followers: seq<Follower>, k: nat)
    requires 1 <= k < |followers|
    ensures followers[..k] + followers[k + 1..] == [followers[0]] + (followers[1..][..k - 1] + followers[1..][k..])
  {
  }

  lemma DistinctTail(followers: seq<Follower>)
    requires followers != [] && Distinct(followers)
    ensures Distinct(followers[1..])
    ensures forall i :: 0 <= i < |followers[1..]| ==> followers[1..][i].fd != followers[0].fd
  {
    assert forall i :: 0 <= i < |followers[1..]| ==> followers[1..][i] == followers[i + 1];
  }

  /** With distinct connections, taking out the first follower on fd takes out all. */
  lemma {:induction false} OthersWithoutFirst(followers: seq<Follower>, fd: int)
    requires Distinct(followers)
    ensures var k := PosFd(followers, fd);
            Others(followers, fd) == if k == |followers| then followers else followers[..k] + followers[k + 1..]
    decreases |followers|
  {
    hide PosFd, Others, Distinct;
    OthersUnfold(followers, fd);
    if followers != [] {
      var k, rest := PosFd(followers, fd), followers[1..];
      DistinctTail(followers);
      if followers[0].fd == fd {
        OthersAll(rest, fd);
        assert followers[..0] + followers[1..] == rest;
      } else {
        OthersWithoutFirst(rest, fd);
        if k < |followers| {
          CutBehind(followers, k);
        } else {
          assert followers == [followers[0]] + rest;
        }
      }
    }
  }

  lemma OthersUnfold(followers: seq<Follower>, fd: int)
    ensures followers == [] ==> PosFd(followers, fd) == 0 && Others(followers, fd) == []
    ensures followers != [] && followers[0].fd == fd ==>
              PosFd(followers, fd) == 0 && Others(followers, fd) == Others(followers[1..], fd)
    ensures followers != [] && followers[0].fd != fd ==>
              && PosFd(followers, fd) == 1 + PosFd(followers[1..], fd)
              && Others(followers, fd) == [followers[0]] + Others(followers[1..], fd)
  {
  }

  /** A follower that quits is unlisted and unmapped, and nothing else changes. */
  lemma QuitExactly(steps: seq<Step>, fd: int)
    requires ValidRun(INIT, steps)
    ensures var s := Exec(INIT, steps); var s' := ApplyQuit(s, fd);
            && s'.followers == Others(s.followers, fd)
            && s'.index.Keys == (set f | f in s.followers && f.fd != fd :: f.pid)
            && (forall pid :: pid in s'.index ==> pid in s.index && s'.index[pid] == s.index[pid])
            && s'.clients == s.clients && s'.log == s.log
  {
    NoMissedRendezvous(steps);
    var s := Exec(INIT, steps);
    hide Exec, ValidRun, NoneMissed, WellFormed;
    OthersWithoutFirst(s.followers, fd);
    IndexQuit(s, fd);
    OthersPids(s.followers, fd);
  }

  lemma {:induction false} OthersPids(followers: seq<Follower>, fd: int)
    ensures forall f :: f in Others(followers, fd) <==> f in followers && f.fd != fd
    ensures Pids(Others(followers, fd)) == (set f | f in followers && f.fd != fd :: f.pid)
    decreases |followers|
  {
    if followers != [] {
      OthersPids(followers[1..], fd);
      assert followers == [followers[0]] + followers[1..];
    }
    assert forall f :: f in Others(followers, fd) <==> f in followers && f.fd != fd;
  }

  lemma {:induction false} TouchNames(followers: seq<Follower>, k: nat, dialogue: int, timestamp: real)
    requires k < |followers|
    ensures Names(followers[k := followers[k].(dialogue := dialogue, timestamp := timestamp)]) == Names(followers)
  {
    NamesSame(followers[k := followers[k].(dialogue := dialogue, timestamp := timestamp)], followers);
  }

  lemma StepNames(s: State, step: Step)
    requires Enabled(s, step) && IndexExact(s)
    ensures Names(Apply(s, step).followers) == NamesStep(Names(s.followers), s.nextNode, step)
    ensures Apply(s, step).nextNode == if step.Follow? then s.nextNode + 1 else s.nextNode
  {
    hide Scan, Pids, NamesWithout, Others;
    match step
    case Follow(pid, fd, now) =>
      assert Apply(s, step).followers[1..] == s.followers;
    case Quit(fd) =>
      OthersWithoutFirst(s.followers, fd);
      OthersNames(s.followers, fd);
    case Notify(pid, dialogue, now) =>
      if pid in s.index {
        var k := At(s, pid);
        TouchNames(s.followers, k, dialogue, s.followers[k].timestamp);
        TouchNames(s.followers, k, -1, now);
      }
    case Peek(fd, dialogue, now, pick) =>
      if Waits(s, dialogue) {
        TouchNames(s.followers, At(s, pick), -1, now);
      }
  }

  lemma {:induction false} NamesFrom(s: State, steps: seq<Step>)
    requires MeetInv(s) && ValidRun(s, steps)
    ensures Names(Exec(s, steps).followers) == NamesIn(steps, Names(s.followers), s.nextNode)
    decreases |steps|
  {
    hide Apply, Enabled, Names, NamesStep, IndexExact, ClientsSound, NoneMissed;
    if steps != [] {
      StepNames(s, steps[0]);
      MeetKept(s, steps[0]);
      NamesFrom(Apply(s, steps[0]), steps[1..]);
    }
  }

  /** The listed followers are those accepted and not gone, the latest in front. */
  lemma FollowersExactly(steps: seq<Step>)
    requires ValidRun(INIT, steps)
    ensures Names(Exec(INIT, steps).followers) == NamesIn(steps, [], 0)
  {
    hide Exec, NamesIn;
    NamesFrom(INIT, steps);
  }

  /* ---- announcements ---- */

  /** The node listed for a process, if any. */
  function NodeOf(names: seq<Name>, pid: int): seq<nat> {
    if names == [] then [] else if names[0].pid == pid then [names[0].node] else NodeOf(names[1..], pid)
  }

  /** What a notification announces: its dialogue, if the process is listed. */
  function AnnouncedBy(step: Step, names: seq<Name>): seq<Event> {
    if step.Notify? && NodeOf(names, step.pid) != [] then [Announce(NodeOf(names, step.pid)[0], step.dialogue)] else []
  }

  function AnnouncementsIn(steps: seq<Step>, names: seq<Name>, next: nat): seq<Event>
    decreases |steps|
  {
    if steps == [] then []
    else
      AnnouncedBy(steps[0], names) +
      AnnouncementsIn(steps[1..], NamesStep(names, next, steps[0]), if steps[0].Follow? then next + 1 else next)
  }

  /** The announcements of a log. */
  function Announces(log: seq<Event>): seq<Event> {
    if log == [] then []
    else
      var rest := Announces(log[..|log| - 1]);
      if log[|log| - 1].Announce? then rest + [log[|log| - 1]] else rest
  }

  lemma AnnouncesPush(log: seq<Event>, e: Event)
    ensures Announces(log + [e]) == if e.Announce? then Announces(log) + [e] else Announces(log)
  {
    assert (log + [e])[..|log|] == log;
  }

  lemma {:induction false} NodeOfNames(followers: seq<Follower>, pid: int)
    ensures var n := NodeOf(Names(followers), pid);
            && (n == [] <==> forall f :: f in followers ==> f.pid != pid)
            && (n != [] ==> |n| == 1 && exists f :: f in followers && f.pid == pid && f.node == n[0])
    decreases |followers|
  {
    if followers != [] {
      NodeOfNames(followers[1..], pid);
      assert Names(followers)[1..] == Names(followers[1..]);
      assert followers == [followers[0]] + followers[1..];
    }
  }

  lemma IndexedNode(s: State, pid: int)
    requires IndexExact(s)
    ensures NodeOf(Names(s.followers), pid) == if pid in s.index then [s.index[pid]] else []
  {
    hide NodeOf, Names, Distinct;
    NodeOfNames(s.followers, pid);
    if pid in s.index {
      assert pid in Pids(s.followers);
    }
  }

  lemma StepAnnounces(s: State, step: Step)
    requires Enabled(s, step) && IndexExact(s)
    ensures Announces(Apply(s, step).log) == Announces(s.log) + AnnouncedBy(step, Names(s.followers))
  {
    hide Scan, NodeOf, Names, Announces, IndexExact;
    assert Announces(s.log) + [] == Announces(s.log);
    if step.Notify? {
      IndexedNode(s, step.pid);
      if step.pid in s.index {
        var e := Announce(s.index[step.pid], step.dialogue);
        AnnouncesPush(s.log, e);
        var hit := Scan(s.clients, step.dialogue, step.now).1;
        if hit.Some? {
          var p := Publish(hit.value, s.index[step.pid], step.now);
          AnnouncesPush(s.log + [e], p);
          assert s.log + [e] + [p] == s.log + [e, p];
        }
      }
    } else if step.Peek? && Waits(s, step.dialogue) {
      AnnouncesPush(s.log, Publish(Client(s.nextKey, step.fd, step.dialogue, step.now), s.index[step.pick], step.now));
    }
  }

  lemma {:induction false} AnnouncesFrom(s: State, steps: seq<Step>)
    requires MeetInv(s) && ValidRun(s, steps)
    ensures Announces(Exec(s, steps).log) == Announces(s.log) + AnnouncementsIn(steps, Names(s.followers), s.nextNode)
    decreases |steps|
  {
    hide Apply, Enabled, Names, NamesStep, IndexExact, ClientsSound, NoneMissed, AnnouncedBy, Announces;
    if steps == [] {
      assert Announces(s.log) + [] == Announces(s.log);
    } else {
      var s' := Apply(s, steps[0]);
      StepNames(s, steps[0]);
      StepAnnounces(s, steps[0]);
      MeetKept(s, steps[0]);
      AnnouncesFrom(s', steps[1..]);
      var a, b := AnnouncedBy(steps[0], Names(s.followers)), AnnouncementsIn(steps[1..], Names(s'.followers), s'.nextNode);
      assert Announces(s.log) + a + b == Announces(s.log) + (a + b);
    }
  }

  /** The announcements made are those of the notifications from listed processes. */
  lemma AnnouncementsExactly(steps: seq<Step>)
    requires ValidRun(INIT, steps)
    ensures Announces(Exec(INIT, steps).log) == AnnouncementsIn(steps, [], 0)
  {
    hide Exec, AnnouncementsIn;
    AnnouncesFrom(INIT, steps);
    assert [] + AnnouncementsIn(steps, [], 0) == AnnouncementsIn(steps, [], 0);
  }

  /* ---- clients ---- */

  function PeekedBy(step: Step, n: nat): seq<Client> {
    if step.Peek? then [Client(n, step.fd, step.dialogue, step.now)] else []
  }

  /** The clients that came, numbered in order. */
  function PeeksIn(steps: seq<Step>, n: nat): seq<Client>
    decreases |steps|
  {
    if steps == [] then [] else PeekedBy(steps[0], n) + PeeksIn(steps[1..], n + |PeekedBy(steps[0], n)|)
  }

  predicate Among(c: Client, peeks: seq<Client>) {
    c.key < |peeks| && peeks[c.key] == c
  }

  /** Every client waiting or published is one that came. */
  ghost predicate FromPeeks(s: State, peeks: seq<Client>) {
    && s.nextKey == |peeks|
    && (forall c :: c in s.clients ==> Among(c, peeks))
    && (forall j :: 0 <= j < |s.log| && s.log[j].Publish? ==> Among(s.log[j].client, peeks))
  }

  lemma AmongGrows(c: Client, peeks: seq<Client>, more: seq<Client>)
    requires Among(c, peeks)
    ensures Among(c, peeks + more)
  {
  }

  lemma StepPeeks(s: State, step: Step, peeks: seq<Client>)
    requires Enabled(s, step) && ClientsSound(s) && FromPeeks(s, peeks)
    ensures FromPeeks(Apply(s, step), peeks + PeekedBy(step, s.nextKey))
  {
    hide Scan, Among;
    var s', all := Apply(s, step), peeks + PeekedBy(step, s.nextKey);
    forall c | Among(c, peeks)
      ensures Among(c, all)
    {
      AmongGrows(c, peeks, PeekedBy(step, s.nextKey));
    }
    if step.Peek? {
      var c := Client(s.nextKey, step.fd, step.dialogue, step.now);
      NewAmong(c, peeks);
      assert Among(c, all);
    } else {
      assert all == peeks;
      if step.Notify? && step.pid in s.index {
        ScanFinds(s.clients, step.dialogue, step.now);
        ScanKeeps(s.clients, step.dialogue, step.now);
        var (kept, hit) := Scan(s.clients, step.dialogue, step.now);
        assert s'.clients == kept;
        assert forall j :: 0 <= j < |s'.log| && s'.log[j].Publish? ==>
                 (j < |s.log| && s'.log[j] == s.log[j]) || (hit.Some? && s'.log[j].client == hit.value);
      }
    }
  }

  lemma NewAmong(c: Client, peeks: seq<Client>)
    requires c.key == |peeks|
    ensures Among(c, peeks + [c])
  {
  }

  lemma {:induction false} PeeksFrom(s: State, steps: seq<Step>, peeks: seq<Client>)
    requires MeetInv(s) && ValidRun(s, steps) && FromPeeks(s, peeks)
    ensures FromPeeks(Exec(s, steps), peeks + PeeksIn(steps, s.nextKey))
    decreases |steps|
  {
    hide Apply, Enabled, IndexExact, ClientsSound, NoneMissed, PeekedBy, Among;
    if steps == [] {
      assert peeks + [] == peeks;
    } else {
      var come := PeekedBy(steps[0], s.nextKey);
      StepPeeks(s, steps[0], peeks);
      MeetKept(s, steps[0]);
      PeeksFrom(Apply(s, steps[0]), steps[1..], peeks + come);
      assert peeks + come + PeeksIn(steps[1..], s.nextKey + |come|) == peeks + PeeksIn(steps, s.nextKey);
    }
  }

  /** Every client waiting or published has the connection, dialogue and time of
      the arrival it is numbered after. */
  lemma ClientsExactly(steps: seq<Step>)
    requires ValidRun(INIT, steps)
    ensures var s := Exec(INIT, steps); var peeks := PeeksIn(steps, 0);
            && s.nextKey == |peeks|
            && (forall c :: c in s.clients ==> c.key < |peeks| && peeks[c.key] == c)
            && (forall j :: 0 <= j < |s.log| && s.log[j].Publish? ==>
                  s.log[j].client.key < |peeks| && peeks[s.log[j].client.key] == s.log[j].client)
  {
    hide Exec, PeeksIn;
    PeeksFrom(INIT, steps, []);
    assert [] + PeeksIn(steps, 0) == PeeksIn(steps, 0);
  }

  /* ---- what single callbacks do ---- */

  /** An unexpired client waits for the dialogue. */
  ghost predicate LiveClient(s: State, dialogue: int, now: real) {
    exists c :: c in s.clients && c.dialogue == dialogue && !Expired(c, now)
  }

  /** A notification from a listed process changes its follower alone: it stands
      for the dialogue, or has just been handed a client of it. The log grows by the
      announcement and that hand-over, now. */
  lemma NotifyExactly(s: State, pid: int, dialogue: int, now: real)
    requires WellFormed(s) && IndexExact(s) && pid in s.index
    ensures var s' := ApplyNotify(s, pid, dialogue, now); var met := LiveClient(s, dialogue, now);
            && |s'.followers| == |s.followers|
            && (forall i :: 0 <= i < |s.followers| ==>
                  s'.followers[i] ==
                  if s.followers[i].pid != pid then s.followers[i]
                  else if met then s.followers[i].(dialogue := -1, timestamp := now)
                  else s.followers[i].(dialogue := dialogue))
            && |s'.log| == |s.log| + (if met then 2 else 1) && s'.log[..|s.log|] == s.log
            && s'.log[|s.log|] == Announce(s.index[pid], dialogue)
            && (met ==> s'.log[|s.log| + 1].Publish? && s'.log[|s.log| + 1].at == now
                        && s'.log[|s.log| + 1].node == s.index[pid] && s'.log[|s.log| + 1].client in s.clients)
            && s'.index == s.index && s'.nextKey == s.nextKey
  {
    hide Scan;
    ScanFinds(s.clients, dialogue, now);
    var (kept, hit) := Scan(s.clients, dialogue, now);
    assert hit.Some? <==> LiveClient(s, dialogue, now);
    OneOfPid(s, pid);
    hide IndexExact, WellFormed, LiveClient;
    var s' := ApplyNotify(s, pid, dialogue, now);
    if hit.Some? {
      assert s'.log == s.log + [Announce(s.index[pid], dialogue), Publish(hit.value, s.index[pid], now)];
    } else {
      assert s'.log == s.log + [Announce(s.index[pid], dialogue)];
    }
  }

  /** A new client is handed to a waiting follower, which then stands for nothing,
      or comes in front of the waiting ones. */
  lemma PeekExactly(s: State, fd: int, dialogue: int, now: real, pick: int)
    requires Enabled(s, Peek(fd, dialogue, now, pick)) && IndexExact(s)
    ensures var s' := ApplyPeek(s, fd, dialogue, now, pick); var c := Client(s.nextKey, fd, dialogue, now);
            && s'.index == s.index && s'.nextKey == s.nextKey + 1
            && (if exists f :: f in s.followers && f.dialogue == dialogue then
                  && s'.clients == s.clients && s'.log == s.log + [Publish(c, s.index[pick], now)]
                  && |s'.followers| == |s.followers|
                  && (forall i :: 0 <= i < |s.followers| ==>
                        s'.followers[i] == if s.followers[i].pid != pick then s.followers[i]
                                           else s.followers[i].(dialogue := -1, timestamp := now))
                else s'.clients == [c] + s.clients && s'.log == s.log && s'.followers == s.followers)
  {
    WaitsExactly(s, dialogue);
    if Waits(s, dialogue) {
      OneOfPid(s, pick);
      hide IndexExact, WellFormed, Waits;
    }
  }

  lemma OneOfPid(s: State, pid: int)
    requires WellFormed(s) && IndexExact(s) && pid in s.index
    ensures forall i :: 0 <= i < |s.followers| ==> (s.followers[i].pid == pid <==> i == At(s, pid))
  {
    IndexedIsListed(s, pid);
    hide Pids;
  }

  /** After the only follower that stood for a dialogue has quit, a client of the
      dialogue is kept waiting. */
  lemma ClientWaitsAfterQuit(steps: seq<Step>, gone: int, fd: int, dialogue: int, now: real, pick: int)
    requires ValidRun(INIT, steps) && dialogue != -1
    requires forall f :: f in Exec(INIT, steps).followers && f.dialogue == dialogue ==> f.fd == gone
    ensures var s := Exec(INIT, steps); var s' := ApplyQuit(s, gone);
            && Enabled(s', Peek(fd, dialogue, now, pick))
            && ApplyPeek(s', fd, dialogue, now, pick).clients == [Client(s.nextKey, fd, dialogue, now)] + s.clients
  {
    NoMissedRendezvous(steps);
    var s := Exec(INIT, steps);
    hide Exec, ValidRun, NoneMissed;
    var s' := ApplyQuit(s, gone);
    QuitExactly(steps, gone);
    OthersPids(s.followers, gone);
    IndexQuit(s, gone);
    hide Others;
    QuitWellFormed(s');
    WaitsExactly(s', dialogue);
    PeekExactly(s', fd, dialogue, now, pick);
  }

  lemma QuitWellFormed(s: State)
    requires IndexExact(s)
    ensures WellFormed(s)
  {
    forall pid | pid in s.index
      ensures Pos(s.followers, s.index[pid]) < |s.followers|
    {
      IndexedIsListed(s, pid);
    }
  }

  /* ---- nobody is forgotten ---- */

  /** A notification came when the client had expired. */
  predicate Lapses(steps: seq<Step>, c: Client) {
    exists i :: 0 <= i < |steps| && steps[i].Notify? && Expired(c, steps[i].now)
  }

  predicate Settled(s: State, steps: seq<Step>, c: Client) {
    c in s.clients || PublishedKey(s.log, c.key) || Lapses(steps, c)
  }

  lemma StepKeeps(s: State, step: Step, c: Client)
    requires Enabled(s, step) && ClientsSound(s) && c in s.clients
    ensures var s' := Apply(s, step);
            c in s'.clients || PublishedKey(s'.log, c.key) || (step.Notify? && Expired(c, step.now))
  {
    hide Scan;
    if step.Notify? {
      ScanKeeps(s.clients, step.dialogue, step.now);
      var s', hit := Apply(s, step), Scan(s.clients, step.dialogue, step.now).1;
      if step.pid in s.index && hit == Some(c) {
        assert s'.log[|s.log| + 1] == Publish(c, s.index[step.pid], step.now);
      }
    }
  }

  lemma StepLogs(s: State, step: Step, key: nat)
    requires Enabled(s, step) && PublishedKey(s.log, key)
    ensures PublishedKey(Apply(s, step).log, key)
  {
    hide Scan;
    var s' := Apply(s, step);
    var j :| 0 <= j < |s.log| && s.log[j].Publish? && s.log[j].client.key == key;
    assert s'.log[j] == s.log[j];
  }

  lemma {:induction false} StaysPublished(s: State, steps: seq<Step>, key: nat)
    requires ValidRun(s, steps) && PublishedKey(s.log, key)
    ensures PublishedKey(Exec(s, steps).log, key)
    decreases |steps|
  {
    hide Apply, Enabled, PublishedKey;
    if steps != [] {
      StepLogs(s, steps[0], key);
      StaysPublished(Apply(s, steps[0]), steps[1..], key);
    }
  }

  lemma {:induction false} KeptFrom(s: State, steps: seq<Step>, c: Client)
    requires MeetInv(s) && ValidRun(s, steps) && c in s.clients
    ensures Settled(Exec(s, steps), steps, c)
    decreases |steps|
  {
    hide Apply, Enabled, PublishedKey, IndexExact, ClientsSound, NoneMissed, Expired;
    if steps != [] {
      var s' := Apply(s, steps[0]);
      StepKeeps(s, steps[0], c);
      MeetKept(s, steps[0]);
      if c in s'.clients {
        KeptFrom(s', steps[1..], c);
        if i :| 0 <= i < |steps[1..]| && steps[1..][i].Notify? && Expired(c, steps[1..][i].now) {
          assert steps[i + 1] == steps[1..][i];
        }
      } else if PublishedKey(s'.log, c.key) {
        StaysPublished(s', steps[1..], c.key);
      }
    }
  }

  /** A client that came is waiting, or was handed over, or a notification came
      after it had expired. */
  lemma NobodyForgotten(before: seq<Step>, fd: int, dialogue: int, now: real, pick: int, after: seq<Step>)
    requires ValidRun(INIT, before) && Enabled(Exec(INIT, before), Peek(fd, dialogue, now, pick))
    requires ValidRun(Apply(Exec(INIT, before), Peek(fd, dialogue, now, pick)), after)
    ensures var s := Exec(INIT, before); var e := Exec(Apply(s, Peek(fd, dialogue, now, pick)), after);
            Settled(e, after, Client(s.nextKey, fd, dialogue, now))
  {
    InvHolds(INIT, before);
    var s, step := Exec(INIT, before), Peek(fd, dialogue, now, pick);
    hide Exec, ValidRun, NoneMissed;
    var s', c := Apply(s, step), Client(s.nextKey, fd, dialogue, now);
    MeetKept(s, step);
    if Waits(s, dialogue) {
      assert s'.log[|s.log|] == Publish(c, s.index[pick], now);
      assert PublishedKey(s'.log, c.key);
      StaysPublished(s', after, c.key);
    } else {
      KeptFrom(s', after, c);
    }
  }
}

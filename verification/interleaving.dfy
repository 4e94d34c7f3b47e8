/**
  Sightings, operator verifications and sweeps of one node, interleaved at the
  points where the program takes and drops its two locks
  (crates/intraweb-net/src/node.rs:225-288, crates/intraweb-cli/src/api.rs:120-142).
 */
module Interleaving {
  import opened Wrappers
  import opened Bytes
  import opened Peers
  import opened Registry
  import opened Store
  import opened Node

  /** Where one task stands; `now` is the clock it read when it began. */
  datatype Task =
    | Fresh(s: Sighted, now: nat)                                        // about to read the cache
    | Writing(s: Sighted, now: nat)                                      // about to lock the store
    | Marking(s: Sighted, now: nat, trust: TrustState)                   // has the keyring's verdict
    | Recording(s: Sighted, now: nat, trust: TrustState, wrote: bool)    // about to fold into the roster
    | Vouching(id: PeerId)                                               // a verification, about to lock the store
    | Telling(id: PeerId)                                                // keyring updated, store still locked
  {
    predicate Sighting() { !Vouching? && !Telling? }

    function Key(): PeerId {
      if Sighting() then s.p.peerId else id
    }

    /** The verdict this task is still going to write, if it has one. */
    predicate Holds(id: PeerId) {
      (Marking? || Recording?) && Key() == id
    }
  }

  datatype System = System(node: Node, tasks: map<nat, Task>)

  datatype Label =
    | Begin(t: nat, task: Task) | Read(t: nat) | Write(t: nat) | Mark(t: nat) | Finish(t: nat)
    | Vouch(t: nat) | Tell(t: nat) | SweepAt(now: nat)

  predicate StoreFree(y: System) {
    forall t :: t in y.tasks ==> !y.tasks[t].Telling?
  }

  predicate Enabled(y: System, l: Label) {
    match l
    case Begin(t, task) =>
      t !in y.tasks && (task.Vouching? || (task.Fresh? && task.Key() != y.node.roster.selfId))
    case Read(t) => t in y.tasks && y.tasks[t].Fresh?
    case Write(t) => t in y.tasks && y.tasks[t].Writing? && StoreFree(y)
    case Mark(t) => t in y.tasks && y.tasks[t].Marking?
    case Finish(t) => t in y.tasks && y.tasks[t].Recording?
    case Vouch(t) => t in y.tasks && y.tasks[t].Vouching? && StoreFree(y)
    case Tell(t) => t in y.tasks && y.tasks[t].Telling?
    case SweepAt(_) => true
  }

  function WithRoster(y: System, r: Roster): System {
    y.(node := y.node.(roster := r))
  }

  function Next(y: System, l: Label): System
    requires Enabled(y, l)
  {
    var n := y.node;
    match l
    case Begin(t, task) => y.(tasks := y.tasks[t := task])
    case Read(t) =>
      var task := y.tasks[t];
      (match CachedTrust(n.roster, task.Key(), task.s.p.nickname, task.now)
       case Some(trust) => y.(tasks := y.tasks[t := Recording(task.s, task.now, trust, false)])
       case None => y.(tasks := y.tasks[t := Writing(task.s, task.now)]))
    case Write(t) =>
      var task := y.tasks[t];
      System(n.(known := Observe(n.known, task.Key(), task.s.p.nickname, task.now)),
             y.tasks[t := Marking(task.s, task.now, Verdict(n.known, task.Key(), task.s.p.nickname))])
    case Mark(t) =>
      var task := y.tasks[t];
      WithRoster(y.(tasks := y.tasks[t := Recording(task.s, task.now, task.trust, true)]),
                 MarkPersisted(n.roster, task.Key(), task.s.p.nickname, task.now))
    case Finish(t) =>
      var task := y.tasks[t];
      WithRoster(y.(tasks := y.tasks - {t}),
                 Record(n.roster, task.s.p, task.s.addrs, task.s.source, task.trust, task.now))
    case Vouch(t) =>
      var id := y.tasks[t].id;
      if id in n.known then System(n.(known := MarkVerified(n.known, id)), y.tasks[t := Telling(id)])
      else y.(tasks := y.tasks - {t})
    case Tell(t) => WithRoster(y.(tasks := y.tasks - {t}), SetTrust(n.roster, y.tasks[t].id, Verified))
    case SweepAt(now) => WithRoster(y, Sweep(n.roster, now))
  }

  predicate Runnable(y: System, labels: seq<Label>)
    decreases |labels|
  {
    labels == [] || (Enabled(y, labels[0]) && Runnable(Next(y, labels[0]), labels[1..]))
  }

  function Exec(y: System, labels: seq<Label>): System
    requires Runnable(y, labels)
    decreases |labels|
  {
    if labels == [] then y else Exec(Next(y, labels[0]), labels[1..])
  }

  function Start(self: PeerId, timeout: nat, known: Keyring): System {
    System(Node(Roster(self, timeout, map[], map[]), known), map[])
  }

  // ---- the invariant of every interleaving ----

  ghost predicate OnItsWay(y: System, id: PeerId) {
    exists t :: t in y.tasks && y.tasks[t].Recording? && y.tasks[t].wrote && y.tasks[t].Key() == id
  }

  ghost predicate TaskSound(n: Node, task: Task) {
    && (task.Sighting() ==> task.Key() != n.roster.selfId)
    && (task.Marking? || task.Recording? ==> task.Key() in n.known)
    && (task.Telling? ==> task.id in n.known && n.known[task.id].verified)
  }

  ghost predicate Inv(y: System) {
    var r := y.node.roster;
    && r.selfId !in r.peers && r.selfId !in y.node.known
    && r.KeyedById()
    && (forall id :: id in r.peers ==> id in y.node.known)
    && (forall id :: id in r.persisted ==> id in r.peers || OnItsWay(y, id))
    && (forall t :: t in y.tasks ==> TaskSound(y.node, y.tasks[t]))
    && (forall t, u :: t in y.tasks && u in y.tasks && y.tasks[t].Telling? && y.tasks[u].Telling? ==> t == u)
  }

  lemma KeyringOnlyGrows(y: System, l: Label)
    requires Enabled(y, l)
    ensures Grows(y.node.known, Next(y, l).node.known)
  {
  }

  lemma OthersOnTheirWay(y: System, z: System, t: nat, id: PeerId)
    requires OnItsWay(y, id)
    requires forall u :: u in y.tasks && u != t ==> u in z.tasks && z.tasks[u] == y.tasks[u]
    requires t in y.tasks ==> !(y.tasks[t].Recording? && y.tasks[t].wrote && y.tasks[t].Key() == id)
    ensures OnItsWay(z, id)
  {
    var u :| u in y.tasks && y.tasks[u].Recording? && y.tasks[u].wrote && y.tasks[u].Key() == id;
    assert u in z.tasks;
  }

  lemma PersistedIsAccountedFor(y: System, l: Label)
    requires Inv(y) && Enabled(y, l)
    ensures forall id :: id in Next(y, l).node.roster.persisted ==>
              id in Next(y, l).node.roster.peers || OnItsWay(Next(y, l), id)
  {
    var z := Next(y, l);
    forall id | id in z.node.roster.persisted ensures id in z.node.roster.peers || OnItsWay(z, id) {
      if l.Mark? && id == y.tasks[l.t].Key() {
        assert z.tasks[l.t].Recording? && z.tasks[l.t].Key() == id;
      } else {
        assert id in y.node.roster.persisted;
        if l.SweepAt? {
          assert z.tasks == y.tasks;
        } else if id !in y.node.roster.peers && !(l.Finish? && id == y.tasks[l.t].Key()) {
          OthersOnTheirWay(y, z, l.t, id);
        }
      }
    }
  }

  lemma TasksStaySound(y: System, l: Label)
    requires Inv(y) && Enabled(y, l)
    ensures forall t :: t in Next(y, l).tasks ==> TaskSound(Next(y, l).node, Next(y, l).tasks[t])
  {
    var z := Next(y, l);
    KeyringOnlyGrows(y, l);
    forall t | t in z.tasks ensures TaskSound(z.node, z.tasks[t]) {
      if t in y.tasks && z.tasks[t] == y.tasks[t] {
        assert TaskSound(y.node, y.tasks[t]);
      } else if !l.Begin? {
        assert TaskSound(y.node, y.tasks[l.t]);
      }
    }
  }

  lemma RosterStaysSound(y: System, l: Label)
    requires Inv(y) && Enabled(y, l)
    ensures var r, k := Next(y, l).node.roster, Next(y, l).node.known;
            r.selfId !in r.peers && r.selfId !in k && r.KeyedById() && forall id :: id in r.peers ==> id in k
  {
    KeyringOnlyGrows(y, l);
    if !l.Begin? && !l.SweepAt? {
      assert TaskSound(y.node, y.tasks[l.t]);
    }
  }

  lemma InvHolds(y: System, l: Label)
    requires Inv(y) && Enabled(y, l)
    ensures Inv(Next(y, l))
  {
    RosterStaysSound(y, l);
    PersistedIsAccountedFor(y, l);
    TasksStaySound(y, l);
  }

  /** In every reachable state of every interleaving the invariant holds and the keyring has only grown. */
  lemma {:induction false} InvAlways(y: System, labels: seq<Label>)
    requires Inv(y) && Runnable(y, labels)
    ensures Inv(Exec(y, labels)) && Grows(y.node.known, Exec(y, labels).node.known)
    decreases |labels|
  {
    if labels != [] {
      InvHolds(y, labels[0]);
      KeyringOnlyGrows(y, labels[0]);
      InvAlways(Next(y, labels[0]), labels[1..]);
    }
  }

  lemma InvFromStart(self: PeerId, timeout: nat, known: Keyring, labels: seq<Label>)
    requires self !in known && Runnable(Start(self, timeout, known), labels)
    ensures Inv(Exec(Start(self, timeout, known), labels))
  {
    InvAlways(Start(self, timeout, known), labels);
  }

  // ---- conflicts: found once, shown until swept ----

  /** The verdict the keyring gives in this step, if the step asks it about `id`. */
  function VerdictGiven(y: System, l: Label, id: PeerId): Option<TrustState>
    requires Enabled(y, l)
  {
    if l.Write? && y.tasks[l.t].Key() == id
    then Some(Verdict(y.node.known, id, y.tasks[l.t].s.p.nickname))
    else None
  }

  /** How often the keyring says in a run that it never saw `id` before, and how often that its name is taken. */
  function FirstMeetings(y: System, labels: seq<Label>, id: PeerId): nat
    requires Runnable(y, labels)
    decreases |labels|
  {
    if labels == [] then 0
    else
      var met := VerdictGiven(y, labels[0], id) in {Some(New), Some(NicknameConflict)};
      (if met then 1 else 0) + FirstMeetings(Next(y, labels[0]), labels[1..], id)
  }

  function Conflicts(y: System, labels: seq<Label>, id: PeerId): nat
    requires Runnable(y, labels)
    decreases |labels|
  {
    if labels == [] then 0
    else
      var taken := VerdictGiven(y, labels[0], id) == Some(NicknameConflict);
      (if taken then 1 else 0) + Conflicts(Next(y, labels[0]), labels[1..], id)
  }

  lemma StepMeets(y: System, l: Label, id: PeerId)
    requires Enabled(y, l)
    ensures id in Next(y, l).node.known
       <==> id in y.node.known || VerdictGiven(y, l, id) in {Some(New), Some(NicknameConflict)}
    ensures id in y.node.known ==> VerdictGiven(y, l, id) !in {Some(New), Some(NicknameConflict)}
  {
  }

  /** A key is met for the first time at most once ever: exactly in the runs that add it to the keyring. */
  lemma {:induction false} MetOnce(y: System, labels: seq<Label>, id: PeerId)
    requires Runnable(y, labels)
    ensures FirstMeetings(y, labels, id)
         == if id !in y.node.known && id in Exec(y, labels).node.known then 1 else 0
    ensures id in y.node.known ==> id in Exec(y, labels).node.known
    ensures Conflicts(y, labels, id) <= FirstMeetings(y, labels, id)
    decreases |labels|
  {
    if labels != [] {
      StepMeets(y, labels[0], id);
      MetOnce(Next(y, labels[0]), labels[1..], id);
    }
  }

  predicate ShowsConflict(y: System, id: PeerId) {
    id in y.node.roster.peers && y.node.roster.peers[id].trust == NicknameConflict
  }

  predicate SweptAway(y: System, l: Label, id: PeerId) {
    l.SweepAt? && id in StaleIds(y.node.roster, l.now)
  }

  lemma ConflictStays(y: System, l: Label, id: PeerId)
    requires Enabled(y, l) && ShowsConflict(y, id) && !SweptAway(y, l, id)
    ensures ShowsConflict(Next(y, l), id)
  {
  }

  lemma RecordedConflictShows(y: System, t: nat)
    requires Inv(y) && t in y.tasks && y.tasks[t].Recording? && y.tasks[t].trust == NicknameConflict
    ensures ShowsConflict(Next(y, Finish(t)), y.tasks[t].Key())
  {
    assert TaskSound(y.node, y.tasks[t]);
  }

  predicate NeverSweptAway(y: System, labels: seq<Label>, id: PeerId)
    requires Runnable(y, labels)
    decreases |labels|
  {
    labels == [] || (!SweptAway(y, labels[0], id) && NeverSweptAway(Next(y, labels[0]), labels[1..], id))
  }

  /** Whatever other tasks and the operator write meanwhile, a warning stays until a sweep removes its peer. */
  lemma {:induction false} ConflictShownUntilSwept(y: System, labels: seq<Label>, id: PeerId)
    requires Runnable(y, labels) && ShowsConflict(y, id) && NeverSweptAway(y, labels, id)
    ensures ShowsConflict(Exec(y, labels), id)
    decreases |labels|
  {
    if labels != [] {
      ConflictStays(y, labels[0], id);
      ConflictShownUntilSwept(Next(y, labels[0]), labels[1..], id);
    }
  }

  /** Some task or the roster carries a conflict verdict about `id`. */
  ghost predicate CarriesConflict(y: System, id: PeerId) {
    ShowsConflict(y, id) || exists t :: t in y.tasks && y.tasks[t].Holds(id) && y.tasks[t].trust == NicknameConflict
  }

  lemma ConflictComesFromKeyring(y: System, l: Label, id: PeerId)
    requires Enabled(y, l) && !CarriesConflict(y, id) && VerdictGiven(y, l, id) != Some(NicknameConflict)
    ensures !CarriesConflict(Next(y, l), id)
  {
    var z := Next(y, l);
    forall t | t in z.tasks && z.tasks[t].Holds(id) ensures z.tasks[t].trust != NicknameConflict {
      if t in y.tasks && z.tasks[t] == y.tasks[t] {
      } else if l.Mark? {
        assert y.tasks[t].Holds(id);
      }
    }
    if l.Finish? && y.tasks[l.t].Key() == id {
      assert y.tasks[l.t].Holds(id);
    }
  }

  /** No false alarms: a warning is shown only if the keyring gave that verdict in this run. */
  lemma {:induction false} NoFalseAlarm(y: System, labels: seq<Label>, id: PeerId)
    requires Runnable(y, labels) && !CarriesConflict(y, id) && Conflicts(y, labels, id) == 0
    ensures !CarriesConflict(Exec(y, labels), id)
    decreases |labels|
  {
    if labels != [] {
      ConflictComesFromKeyring(y, labels[0], id);
      NoFalseAlarm(Next(y, labels[0]), labels[1..], id);
    }
  }

  // ---- verification: when it shows at once, and for good ----

  predicate ShowsVerified(y: System, id: PeerId) {
    id in y.node.roster.peers ==> y.node.roster.peers[id].trust in {Verified, NicknameConflict}
  }

  /** No task is still holding an older verdict about `id`. */
  predicate NothingStale(y: System, id: PeerId) {
    forall t :: t in y.tasks && y.tasks[t].Holds(id) ==> y.tasks[t].trust in {Verified, NicknameConflict}
  }

  predicate VerifiedInKeyring(y: System, id: PeerId) {
    id in y.node.known && y.node.known[id].verified
  }

  lemma SettledStays(y: System, l: Label, id: PeerId)
    requires Enabled(y, l) && VerifiedInKeyring(y, id) && ShowsVerified(y, id) && NothingStale(y, id)
    ensures VerifiedInKeyring(Next(y, l), id) && ShowsVerified(Next(y, l), id) && NothingStale(Next(y, l), id)
  {
    var z := Next(y, l);
    forall t | t in z.tasks && z.tasks[t].Holds(id) ensures z.tasks[t].trust in {Verified, NicknameConflict} {
      if t in y.tasks && z.tasks[t] == y.tasks[t] {
      } else if l.Mark? {
        assert y.tasks[t].Holds(id);
      }
    }
    if l.Finish? && y.tasks[l.t].Key() == id {
      assert y.tasks[l.t].Holds(id);
    }
  }

  lemma {:induction false} SettledForever(y: System, labels: seq<Label>, id: PeerId)
    requires Runnable(y, labels) && VerifiedInKeyring(y, id) && ShowsVerified(y, id) && NothingStale(y, id)
    ensures ShowsVerified(Exec(y, labels), id)
    decreases |labels|
  {
    if labels != [] {
      SettledStays(y, labels[0], id);
      SettledForever(Next(y, labels[0]), labels[1..], id);
    }
  }

  lemma ExecCons(y: System, l: Label, rest: seq<Label>)
    requires Enabled(y, l) && Runnable(Next(y, l), rest)
    ensures Runnable(y, [l] + rest) && Exec(y, [l] + rest) == Exec(Next(y, l), rest)
  {
    assert ([l] + rest)[1..] == rest;
  }

  lemma StaleRecordSurfaces(y: System, t: nat, id: PeerId)
    requires t in y.tasks && y.tasks[t].Recording? && y.tasks[t].Holds(id)
    requires y.tasks[t].trust !in {Verified, NicknameConflict}
    requires id !in y.node.roster.peers && id != y.node.roster.selfId
    ensures Runnable(y, [Finish(t)]) && !ShowsVerified(Exec(y, [Finish(t)]), id)
  {
    ExecCons(y, Finish(t), []);
    assert [Finish(t)] + [] == [Finish(t)];
  }

  /** A continuation in which the stale verdict of task `t` ends up on the roster. */
  lemma StaleVerdictSurfaces(y: System, t: nat, id: PeerId) returns (labels: seq<Label>)
    requires Inv(y) && t in y.tasks && y.tasks[t].Holds(id) && y.tasks[t].trust !in {Verified, NicknameConflict}
    ensures Runnable(y, labels) && !ShowsVerified(Exec(y, labels), id)
  {
    assert TaskSound(y.node, y.tasks[t]);
    var late := if id in y.node.roster.peers
                then y.node.roster.peers[id].lastSeen + y.node.roster.timeout + 1 else 0;
    var swept := Next(y, SweepAt(late));
    labels := [Finish(t)];
    if y.tasks[t].Recording? {
      StaleRecordSurfaces(swept, t, id);
    } else {
      var marked := Next(swept, Mark(t));
      StaleRecordSurfaces(marked, t, id);
      ExecCons(swept, Mark(t), labels);
      labels := [Mark(t)] + labels;
    }
    ExecCons(y, SweepAt(late), labels);
    labels := [SweepAt(late)] + labels;
  }

  /**
    The dashboard is meant to show a verification at once rather than up to a
    minute later. When `note_verified` returns, that holds from then on, in every
    continuation, exactly when no sighting of the key is holding an older verdict.
   */
  lemma VerifiedForGoodIff(y: System, t: nat, id: PeerId)
    requires Inv(y) && t in y.tasks && y.tasks[t] == Telling(id)
    ensures var z := Next(y, Tell(t));
            NothingStale(z, id)
            <==> forall labels :: Runnable(z, labels) ==> ShowsVerified(Exec(z, labels), id)
  {
    var z := Next(y, Tell(t));
    InvHolds(y, Tell(t));
    assert TaskSound(y.node, y.tasks[t]);
    if NothingStale(z, id) {
      forall labels | Runnable(z, labels) ensures ShowsVerified(Exec(z, labels), id) {
        SettledForever(z, labels, id);
      }
    } else {
      var u :| u in z.tasks && z.tasks[u].Holds(id) && z.tasks[u].trust !in {Verified, NicknameConflict};
      var labels := StaleVerdictSurfaces(z, u, id);
    }
  }

  /** The first half of a run in which a verification is overtaken: the operator acts
      between the keyring's answer to a sighting and what that sighting does with it. */
  lemma OvertakenVerification(self: PeerId, timeout: nat, s: Sighted, now: nat)
      returns (labels: seq<Label>, z: System)
    requires s.p.peerId != self
    ensures Runnable(Start(self, timeout, map[]), labels) && z == Exec(Start(self, timeout, map[]), labels)
    ensures VerifiedInKeyring(z, s.p.peerId) && z.tasks == map[0 := Marking(s, now, New)]
    ensures z.node.roster == Start(self, timeout, map[]).node.roster
  {
    var id := s.p.peerId;
    var y0 := Start(self, timeout, map[]);
    ExecThree(y0, Begin(0, Fresh(s, now)), Read(0), Write(0));
    var y1 := Next(Next(Next(y0, Begin(0, Fresh(s, now))), Read(0)), Write(0));
    assert y1.tasks[0] == Marking(s, now, New) && id in y1.node.known;
    ExecThree(y1, Begin(1, Vouching(id)), Vouch(1), Tell(1));
    z := Next(Next(Next(y1, Begin(1, Vouching(id))), Vouch(1)), Tell(1));
    labels := [Begin(0, Fresh(s, now)), Read(0), Write(0)] + [Begin(1, Vouching(id)), Vouch(1), Tell(1)];
    ExecConcat(y0, [Begin(0, Fresh(s, now)), Read(0), Write(0)], [Begin(1, Vouching(id)), Vouch(1), Tell(1)]);
    assert z.tasks == map[0 := Marking(s, now, New)];
  }

  /**
    It does fail: after this run the keyring says verified, the roster says New,
    and the throttle would serve that answer again without asking the keyring.
   */
  lemma StaleVerdictIsReachable(self: PeerId, timeout: nat, s: Sighted, now: nat) returns (labels: seq<Label>)
    requires s.p.peerId != self
    ensures Runnable(Start(self, timeout, map[]), labels)
    ensures var z := Exec(Start(self, timeout, map[]), labels);
            VerifiedInKeyring(z, s.p.peerId) && !ShowsVerified(z, s.p.peerId) && z.tasks == map[]
            && CachedTrust(z.node.roster, s.p.peerId, s.p.nickname, now) == Some(New)
  {
    var first, z := OvertakenVerification(self, timeout, s, now);
    var marked := Next(z, Mark(0));
    ExecCons(marked, Finish(0), []);
    ExecCons(z, Mark(0), [Finish(0)] + []);
    labels := first + ([Mark(0)] + ([Finish(0)] + []));
    ExecConcat(Start(self, timeout, map[]), first, [Mark(0)] + ([Finish(0)] + []));
    assert Next(marked, Finish(0)).tasks == map[];
  }

  lemma ExecThree(y: System, a: Label, b: Label, c: Label)
    requires Enabled(y, a) && Enabled(Next(y, a), b) && Enabled(Next(Next(y, a), b), c)
    ensures Runnable(y, [a, b, c]) && Exec(y, [a, b, c]) == Next(Next(Next(y, a), b), c)
  {
    ExecCons(Next(Next(y, a), b), c, []);
    ExecCons(Next(y, a), b, [c] + []);
    ExecCons(y, a, [b] + ([c] + []));
    assert [a] + ([b] + ([c] + [])) == [a, b, c];
  }

  lemma {:induction false} ExecConcat(y: System, a: seq<Label>, b: seq<Label>)
    requires Runnable(y, a) && Runnable(Exec(y, a), b)
    ensures Runnable(y, a + b) && Exec(y, a + b) == Exec(Exec(y, a), b)
    decreases |a|
  {
    if a == [] {
      assert a + b == b;
    } else {
      ExecConcat(Next(y, a[0]), a[1..], b);
      ExecCons(y, a[0], a[1..] + b);
      assert [a[0]] + (a[1..] + b) == a + b;
    }
  }

  // ---- the atomic model is one of the schedules ----

  function WholeAbsorb(y: System, t: nat, s: Sighted, now: nat): seq<Label> {
    if CachedTrust(y.node.roster, s.p.peerId, s.p.nickname, now).Some?
    then [Begin(t, Fresh(s, now)), Read(t), Finish(t)]
    else [Begin(t, Fresh(s, now)), Read(t), Write(t), Mark(t), Finish(t)]
  }

  /** Run without interruption, the locked sections of `absorb` do what the atomic step does. */
  lemma WholeAbsorbIsAtomic(y: System, t: nat, s: Sighted, now: nat)
    requires t !in y.tasks && StoreFree(y) && s.p.peerId != y.node.roster.selfId
    ensures var labels := WholeAbsorb(y, t, s, now);
            Runnable(y, labels) && Exec(y, labels) == System(Absorbed(y.node, s, now), y.tasks)
  {
    var begun := Next(y, Begin(t, Fresh(s, now)));
    if CachedTrust(y.node.roster, s.p.peerId, s.p.nickname, now).Some? {
      CachedAbsorb(y, begun, t, s, now);
      ExecThree(y, Begin(t, Fresh(s, now)), Read(t), Finish(t));
    } else {
      var read := Next(begun, Read(t));
      UncachedAbsorb(read, t, s, now);
      var tail := [Write(t), Mark(t), Finish(t)];
      ExecThree(read, Write(t), Mark(t), Finish(t));
      ExecCons(begun, Read(t), tail);
      ExecCons(y, Begin(t, Fresh(s, now)), [Read(t)] + tail);
      assert [Begin(t, Fresh(s, now))] + ([Read(t)] + tail) == WholeAbsorb(y, t, s, now);
      assert read.tasks - {t} == y.tasks;
    }
  }

  lemma CachedAbsorb(y: System, begun: System, t: nat, s: Sighted, now: nat)
    requires t !in y.tasks && s.p.peerId != y.node.roster.selfId
    requires begun == y.(tasks := y.tasks[t := Fresh(s, now)])
    requires CachedTrust(y.node.roster, s.p.peerId, s.p.nickname, now).Some?
    ensures Enabled(Next(begun, Read(t)), Finish(t))
    ensures Next(Next(begun, Read(t)), Finish(t)) == System(Absorbed(y.node, s, now), y.tasks)
  {
    assert Next(Next(begun, Read(t)), Finish(t)).tasks == y.tasks;
  }

  lemma UncachedAbsorb(y: System, t: nat, s: Sighted, now: nat)
    requires t in y.tasks && y.tasks[t] == Writing(s, now) && StoreFree(y) && s.p.peerId != y.node.roster.selfId
    ensures var w := Next(y, Write(t));
            Enabled(w, Mark(t)) && Enabled(Next(w, Mark(t)), Finish(t))
            && Next(Next(w, Mark(t)), Finish(t)) == System(WriteThrough(y.node, s, now), y.tasks - {t})
  {
    var z := Next(Next(Next(y, Write(t)), Mark(t)), Finish(t));
    assert z.tasks == y.tasks - {t};
  }

  /** So are those of a verification. */
  lemma WholeVerifyIsAtomic(y: System, t: nat, id: PeerId)
    requires t !in y.tasks && StoreFree(y)
    ensures var labels := if id in y.node.known then [Begin(t, Vouching(id)), Vouch(t), Tell(t)]
                          else [Begin(t, Vouching(id)), Vouch(t)];
            Runnable(y, labels) && Exec(y, labels) == System(VerifiedBy(y.node, id), y.tasks)
  {
    var begun := Next(y, Begin(t, Vouching(id)));
    if id in y.node.known {
      ExecThree(y, Begin(t, Vouching(id)), Vouch(t), Tell(t));
      assert Next(Next(begun, Vouch(t)), Tell(t)).tasks == y.tasks;
    } else {
      ExecCons(begun, Vouch(t), []);
      ExecCons(y, Begin(t, Vouching(id)), [Vouch(t)] + []);
      assert [Begin(t, Vouching(id))] + ([Vouch(t)] + []) == [Begin(t, Vouching(id)), Vouch(t)];
      assert Next(begun, Vouch(t)).tasks == y.tasks;
    }
  }

  /** A verification that was overtaken shows again, and then for good, with the first sighting
      a minute after the last write, provided no older verdict is still under way. */
  lemma StaleVerdictHeals(y: System, t: nat, s: Sighted, now: nat, labels: seq<Label>)
    requires t !in y.tasks && StoreFree(y) && s.p.peerId != y.node.roster.selfId
    requires VerifiedInKeyring(y, s.p.peerId) && NothingStale(y, s.p.peerId)
    requires var r := y.node.roster;
             s.p.peerId in r.persisted ==> now >= r.persisted[s.p.peerId].1 + PERSIST_INTERVAL_SECS
    ensures var whole := WholeAbsorb(y, t, s, now);
            Runnable(y, whole)
            && (Runnable(Exec(y, whole), labels) ==> ShowsVerified(Exec(Exec(y, whole), labels), s.p.peerId))
  {
    WholeAbsorbIsAtomic(y, t, s, now);
    var z := Exec(y, WholeAbsorb(y, t, s, now));
    assert z == System(WriteThrough(y.node, s, now), y.tasks);
    if Runnable(z, labels) {
      SettledForever(z, labels, s.p.peerId);
    }
  }
}

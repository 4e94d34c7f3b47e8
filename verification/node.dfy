/**
  A node taking in sightings, verifications and sweeps one after another
  (crates/intraweb-net/src/node.rs): the write-through throttle, and the system
  it must be indistinguishable from, which writes on every sighting.
 */
module Node {
  import opened Wrappers
  import opened Bytes
  import opened Identity
  import opened Peers
  import opened Registry
  import opened Store
  import Presence

  /** A node between two events. */
  datatype Node = Node(roster: Roster, known: Keyring)

  datatype Sighted = Sighted(p: Presence.Record, addrs: seq<Addr>, source: DiscoverySource)

  datatype Event =
    | Sight(s: Sighted, now: nat)      // a record that passed its signature and freshness checks
    | OperatorVerifies(id: PeerId, now: nat)
    | SweepDue(now: nat)

  datatype Reply =
    | SightingReply(sighting: Sighting)
    | VerifyReply(found: bool)
    | DepartedReply(ids: set<PeerId>)

  /** What every sighting would do if each reached the keyring. */
  function WriteThrough(n: Node, s: Sighted, now: nat): Node {
    var id := s.p.peerId;
    Node(Record(MarkPersisted(n.roster, id, s.p.nickname, now), s.p, s.addrs, s.source,
                Verdict(n.known, id, s.p.nickname), now),
         Observe(n.known, id, s.p.nickname, now))
  }

  function Absorbed(n: Node, s: Sighted, now: nat): Node {
    var id := s.p.peerId;
    if id == n.roster.selfId then n
    else
      match CachedTrust(n.roster, id, s.p.nickname, now)
      case Some(trust) => n.(roster := Record(n.roster, s.p, s.addrs, s.source, trust, now))
      case None => WriteThrough(n, s, now)
  }

  /** The same node without a throttle. */
  function AbsorbedAlways(n: Node, s: Sighted, now: nat): Node {
    if s.p.peerId == n.roster.selfId then n else WriteThrough(n, s, now)
  }

  function VerifiedBy(n: Node, id: PeerId): Node {
    if id in n.known then Node(SetTrust(n.roster, id, Verified), MarkVerified(n.known, id)) else n
  }

  function ReplyTo(n: Node, e: Event): Reply {
    match e
    case Sight(s, _) => SightingReply(SightingOf(n.roster, s.p.peerId))
    case OperatorVerifies(id, _) => VerifyReply(id in n.known)
    case SweepDue(now) => DepartedReply(StaleIds(n.roster, now))
  }

  function Step(n: Node, e: Event, throttled: bool): Node {
    match e
    case Sight(s, now) => if throttled then Absorbed(n, s, now) else AbsorbedAlways(n, s, now)
    case OperatorVerifies(id, _) => VerifiedBy(n, id)
    case SweepDue(now) => n.(roster := Sweep(n.roster, now))
  }

  function Run(n: Node, events: seq<Event>, throttled: bool): Node
    decreases |events|
  {
    if events == [] then n else Run(Step(n, events[0], throttled), events[1..], throttled)
  }

  function Replies(n: Node, events: seq<Event>, throttled: bool): seq<Reply>
    decreases |events|
  {
    if events == [] then []
    else [ReplyTo(n, events[0])] + Replies(Step(n, events[0], throttled), events[1..], throttled)
  }

  /** The clock never runs backwards, from `now` on. */
  predicate Clocked(events: seq<Event>, now: nat) {
    events == [] || (now <= events[0].now && Clocked(events[1..], events[0].now))
  }

  // ---- the objects ----

  method Absorb(registry: PeerRegistry, store: Store, scheme: Scheme, s: Sighted, signature: seq<byte>, now: nat)
    modifies registry, store`known
    ensures var before := Node(old(registry.View()), old(store.known));
            Node(registry.View(), store.known)
              == if Presence.Genuine(scheme, s.p, signature, now) then Absorbed(before, s, now) else before
  {
    Presence.VerifyIff(scheme, s.p, signature, now);
    if s.p.peerId == registry.selfId {
      return;
    }
    if Presence.Verify(scheme, s.p, signature, now).Err? {
      return;
    }
    var cached := registry.Cached(s.p.peerId, s.p.nickname, now);
    var trust;
    if cached.Some? {
      trust := cached.value;
    } else {
      trust := store.ObservePeer(s.p.peerId, s.p.nickname, now);
      registry.NotePersisted(s.p.peerId, s.p.nickname, now);
    }
    var _ := registry.RecordSighting(s.p, s.addrs, s.source, trust, now);
  }

  method VerifyPeer(registry: PeerRegistry, store: Store, id: PeerId) returns (found: bool)
    modifies registry, store`known
    ensures var before := Node(old(registry.View()), old(store.known));
            Node(registry.View(), store.known) == VerifiedBy(before, id) && found == (id in old(store.known))
  {
    found := store.SetVerified(id);
    if found {
      var _ := registry.ApplyTrust(id, Verified);
    }
  }

  // ---- the throttle refines writing every time ----

  /** What the bookkeeping of the throttled node promises about one key at time `now`. */
  ghost predicate SoundAt(n: Node, id: PeerId, now: nat) {
    && (id in n.roster.persisted ==>
          id in n.roster.peers && id in n.known
          && n.known[id].nickname == n.roster.persisted[id].0
          && n.known[id].lastSeen == n.roster.persisted[id].1 <= now)
    && (id in n.roster.peers ==> id in n.known && n.roster.peers[id].peerId == id)
    && (id in n.roster.peers && n.roster.peers[id].trust != NicknameConflict ==>
          (n.roster.peers[id].trust == Verified <==> n.known[id].verified))
    && (id in n.roster.peers && n.roster.peers[id].trust == New ==>
          id in n.roster.persisted && n.roster.persisted[id].1 == n.roster.peers[id].firstSeen)
  }

  /** The throttled node `f` and the write-every-time node `s`, compared at one key. */
  ghost predicate AgreeAt(f: Node, s: Node, id: PeerId) {
    && (id in f.known <==> id in s.known)
    && (id in f.known ==>
          && f.known[id].(lastSeen := 0) == s.known[id].(lastSeen := 0)
          && f.known[id].lastSeen <= s.known[id].lastSeen < f.known[id].lastSeen + PERSIST_INTERVAL_SECS)
    && (id in f.roster.peers <==> id in s.roster.peers)
    && (id in f.roster.peers ==>
          && f.roster.peers[id].(trust := New) == s.roster.peers[id].(trust := New)
          && SameTrust(f.roster.peers[id], s.roster.peers[id]))
  }

  /** Trust differs only as New for Known, and only in the first minute after an arrival. */
  predicate SameTrust(f: Peer, s: Peer) {
    f.trust == s.trust
    || (f.trust == New && s.trust == Known && s.lastSeen < s.firstSeen + PERSIST_INTERVAL_SECS)
  }

  ghost predicate Sound(n: Node, now: nat) {
    forall id: PeerId :: SoundAt(n, id, now)
  }

  ghost predicate Agree(f: Node, s: Node) {
    && f.roster.selfId == s.roster.selfId && f.roster.timeout == s.roster.timeout
    && forall id: PeerId :: AgreeAt(f, s, id)
  }

  lemma SightSound(n: Node, s: Sighted, now: nat, id: PeerId)
    requires SoundAt(n, id, now) && SoundAt(n, s.p.peerId, now)
    ensures SoundAt(Absorbed(n, s, now), id, now)
  {
    if id != s.p.peerId {
      SightFrame(n, s, now, id);
    }
  }

  lemma SoundLater(n: Node, id: PeerId, now: nat, later: nat)
    requires SoundAt(n, id, now) && now <= later
    ensures SoundAt(n, id, later)
  {
  }

  lemma StepSound(n: Node, e: Event, now: nat)
    requires Sound(n, now) && now <= e.now
    ensures Sound(Step(n, e, true), e.now)
  {
    forall id: PeerId ensures SoundAt(Step(n, e, true), id, e.now) {
      assert SoundAt(n, id, now);
      SoundLater(n, id, now, e.now);
      if e.Sight? {
        assert SoundAt(n, e.s.p.peerId, now);
        SoundLater(n, e.s.p.peerId, now, e.now);
        SightSound(n, e.s, e.now, id);
      }
    }
  }

  lemma SameVerdict(f: Node, s: Node, id: PeerId, nickname: seq<byte>)
    requires Agree(f, s)
    ensures Verdict(f.known, id, nickname) == Verdict(s.known, id, nickname)
  {
    assert AgreeAt(f, s, id);
    forall other: PeerId
      ensures (other in f.known && f.known[other].nickname == nickname)
         <==> (other in s.known && s.known[other].nickname == nickname)
    {
      assert AgreeAt(f, s, other);
    }
    if other :| other in f.known && other != id && f.known[other].nickname == nickname {
      assert other in s.known;
    }
    if other :| other in s.known && other != id && s.known[other].nickname == nickname {
      assert other in f.known;
    }
  }

  lemma CachedSightAgrees(f: Node, s: Node, e: Sighted, now: nat)
    requires var id := e.p.peerId;
             SoundAt(f, id, now) && AgreeAt(f, s, id) && f.roster.selfId == s.roster.selfId && id != f.roster.selfId
             && CachedTrust(f.roster, id, e.p.nickname, now).Some?
    ensures AgreeAt(Absorbed(f, e, now), AbsorbedAlways(s, e, now), e.p.peerId)
  {
  }

  lemma WrittenSightAgrees(f: Node, s: Node, e: Sighted, now: nat)
    requires var id := e.p.peerId;
             AgreeAt(f, s, id) && f.roster.selfId == s.roster.selfId && id != f.roster.selfId
             && Verdict(f.known, id, e.p.nickname) == Verdict(s.known, id, e.p.nickname)
    ensures AgreeAt(WriteThrough(f, e, now), WriteThrough(s, e, now), e.p.peerId)
  {
  }

  /** Nothing is different at one key. */
  ghost predicate SameAt(n: Node, m: Node, id: PeerId) {
    && (id in n.known <==> id in m.known) && (id in n.known ==> n.known[id] == m.known[id])
    && (id in n.roster.peers <==> id in m.roster.peers)
    && (id in n.roster.peers ==> n.roster.peers[id] == m.roster.peers[id])
    && (id in n.roster.persisted <==> id in m.roster.persisted)
    && (id in n.roster.persisted ==> n.roster.persisted[id] == m.roster.persisted[id])
  }

  lemma SightFrame(n: Node, s: Sighted, now: nat, id: PeerId)
    requires id != s.p.peerId
    ensures SameAt(n, WriteThrough(n, s, now), id)
    ensures SameAt(n, Absorbed(n, s, now), id)
  {
  }

  lemma SightAgrees(f: Node, s: Node, e: Sighted, now: nat)
    requires Sound(f, now) && Agree(f, s)
    ensures Agree(Absorbed(f, e, now), AbsorbedAlways(s, e, now))
  {
    var key := e.p.peerId;
    forall id: PeerId ensures AgreeAt(Absorbed(f, e, now), AbsorbedAlways(s, e, now), id) {
      assert AgreeAt(f, s, id);
      if id != key {
        SightFrame(f, e, now, id);
        SightFrame(s, e, now, id);
      } else if key != f.roster.selfId {
        assert SoundAt(f, key, now);
        SameVerdict(f, s, key, e.p.nickname);
        if CachedTrust(f.roster, key, e.p.nickname, now).Some? {
          CachedSightAgrees(f, s, e, now);
        } else {
          WrittenSightAgrees(f, s, e, now);
        }
      }
    }
  }

  lemma StepAgrees(f: Node, s: Node, e: Event, now: nat)
    requires Sound(f, now) && Agree(f, s) && now <= e.now
    ensures Agree(Step(f, e, true), Step(s, e, false))
    ensures ReplyTo(f, e) == ReplyTo(s, e)
  {
    match e
    case Sight(sighted, at) =>
      forall id: PeerId ensures SoundAt(f, id, at) {
        assert SoundAt(f, id, now);
      }
      assert AgreeAt(f, s, sighted.p.peerId);
      SightAgrees(f, s, sighted, at);
    case OperatorVerifies(key, _) =>
      assert AgreeAt(f, s, key);
      forall id: PeerId ensures AgreeAt(Step(f, e, true), Step(s, e, false), id) {
        assert AgreeAt(f, s, id);
      }
    case SweepDue(at) =>
      forall id: PeerId
        ensures id in StaleIds(f.roster, at) <==> id in StaleIds(s.roster, at)
        ensures AgreeAt(Step(f, e, true), Step(s, e, false), id)
      {
        assert AgreeAt(f, s, id);
      }
  }

  /**
    The throttle cannot be told apart from writing every time: over any run of
    events, on a node started with any keyring, every reply is the same and the
    two nodes agree in everything but a bounded lag (see AgreeAt).
   */
  lemma {:induction false} ThrottleRefines(f: Node, s: Node, events: seq<Event>, now: nat)
    requires Sound(f, now) && Agree(f, s) && Clocked(events, now)
    ensures Agree(Run(f, events, true), Run(s, events, false))
    ensures Replies(f, events, true) == Replies(s, events, false)
    decreases |events|
  {
    if events != [] {
      StepAgrees(f, s, events[0], now);
      StepSound(f, events[0], now);
      ThrottleRefines(Step(f, events[0], true), Step(s, events[0], false), events[1..], events[0].now);
    }
  }

  lemma ThrottleRefinesFromStart(self: PeerId, timeout: nat, known: Keyring, events: seq<Event>, now: nat)
    requires Clocked(events, now)
    ensures var start := Node(Roster(self, timeout, map[], map[]), known);
            Agree(Run(start, events, true), Run(start, events, false))
            && Replies(start, events, true) == Replies(start, events, false)
  {
    var start := Node(Roster(self, timeout, map[], map[]), known);
    forall id: PeerId ensures SoundAt(start, id, now) && AgreeAt(start, start, id) {
    }
    ThrottleRefines(start, start, events, now);
  }

  /** A sighting of a listed peer is written through only for a reason:
      a new name, a minute gone by, or bookkeeping an operator's decision dropped. */
  lemma WritesOnlyWhenDue(n: Node, s: Sighted, now: nat)
    requires Sound(n, now) && s.p.peerId in n.roster.persisted
    ensures var id := s.p.peerId;
            id in n.known
            && (CachedTrust(n.roster, id, s.p.nickname, now) == None
                <==> n.known[id].nickname != s.p.nickname || now - n.known[id].lastSeen >= PERSIST_INTERVAL_SECS)
  {
    assert SoundAt(n, s.p.peerId, now);
  }
}

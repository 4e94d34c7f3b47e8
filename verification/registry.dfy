/** The live roster (crates/intraweb-net/src/registry.rs). */
module Registry {
  import opened Wrappers
  import opened Bytes
  import opened Peers
  import opened Sorting
  import Presence

  const PERSIST_INTERVAL_SECS := 60

  datatype Sighting = Arrived | Refreshed | SelfEcho

  /** The value of a registry: what its fields hold at one moment. */
  datatype Roster = Roster(
    selfId: PeerId,
    timeout: nat,
    peers: map<PeerId, Peer>,
    persisted: map<PeerId, (seq<byte>, nat)>)
  {
    predicate KeyedById() {
      forall id :: id in peers ==> peers[id].peerId == id
    }
  }

  function CachedTrust(r: Roster, id: PeerId, nickname: seq<byte>, now: nat): Option<TrustState> {
    if id !in r.peers || id !in r.persisted then None
    else if r.persisted[id].0 != nickname then None
    else if SaturatingSub(now, r.persisted[id].1) >= PERSIST_INTERVAL_SECS then None
    else Some(r.peers[id].trust)
  }

  /** A raised conflict outranks every other judgement. */
  function Judge(held: TrustState, judged: TrustState): TrustState {
    if held == NicknameConflict then held else judged
  }

  function SetTrust(r: Roster, id: PeerId, trust: TrustState): Roster {
    if id !in r.peers then r
    else r.(peers := r.peers[id := r.peers[id].(trust := Judge(r.peers[id].trust, trust))],
            persisted := r.persisted - {id})
  }

  /** A verdict of the operator shows at once unless a conflict is shown, and makes the next sighting ask
      the keyring again; nothing else changes. */
  lemma SetTrustExact(r: Roster, id: PeerId, trust: TrustState, nickname: seq<byte>, now: nat)
    requires id in r.peers
    ensures var after := SetTrust(r, id, trust);
            && after.peers.Keys == r.peers.Keys && CachedTrust(after, id, nickname, now) == None
            && after.peers[id] == r.peers[id].(trust := after.peers[id].trust)
            && after.peers[id].trust == (if r.peers[id].trust == NicknameConflict then NicknameConflict else trust)
            && forall other :: other in r.peers && other != id ==>
                 after.peers[other] == r.peers[other]
                 && CachedTrust(after, other, nickname, now) == CachedTrust(r, other, nickname, now)
  {
  }

  /** A sweep takes away exactly those not seen within the timeout, with their bookkeeping. */
  lemma SweepExact(r: Roster, now: nat)
    ensures var after := Sweep(r, now);
            && (forall id :: id in after.peers <==> id in r.peers && now <= r.peers[id].lastSeen + r.timeout)
            && (forall id :: id in after.peers ==> after.peers[id] == r.peers[id])
            && (forall id :: id in r.peers && id !in after.peers ==> id !in after.persisted)
            && (forall id :: id in after.peers && id in r.persisted ==>
                  id in after.persisted && after.persisted[id] == r.persisted[id])
  {
  }

  function MarkPersisted(r: Roster, id: PeerId, nickname: seq<byte>, now: nat): Roster {
    r.(persisted := r.persisted[id := (nickname, now)])
  }

  function AddAddrs(have: seq<Addr>, more: seq<Addr>): seq<Addr>
    decreases |more|
  {
    if more == [] then have
    else AddAddrs(if more[0] in have then have else have + [more[0]], more[1..])
  }

  function HubName(p: Presence.Record): Option<seq<byte>> {
    if p.isHub then Some(p.hubName) else None
  }

  function NewPeer(p: Presence.Record, addrs: seq<Addr>, source: DiscoverySource, trust: TrustState, now: nat): Peer {
    Peer(p.peerId, p.nickname, addrs, p.apiPort, p.isHub, HubName(p), source, trust, now, now)
  }

  function RefreshedPeer(was: Peer, p: Presence.Record, addrs: seq<Addr>, source: DiscoverySource,
                         trust: TrustState, now: nat): Peer {
    was.(nickname := p.nickname, apiPort := p.apiPort, isHub := p.isHub, hubName := HubName(p),
         source := was.source.Merge(source), lastSeen := now,
         trust := Judge(was.trust, trust), addrs := AddAddrs(was.addrs, addrs))
  }

  function SightingOf(r: Roster, id: PeerId): Sighting {
    if id == r.selfId then SelfEcho else if id in r.peers then Refreshed else Arrived
  }

  function Record(r: Roster, p: Presence.Record, addrs: seq<Addr>, source: DiscoverySource,
                  trust: TrustState, now: nat): Roster {
    match SightingOf(r, p.peerId)
    case SelfEcho => r
    case Refreshed => r.(peers := r.peers[p.peerId := RefreshedPeer(r.peers[p.peerId], p, addrs, source, trust, now)])
    case Arrived => r.(peers := r.peers[p.peerId := NewPeer(p, addrs, source, trust, now)])
  }

  function StaleIds(r: Roster, now: nat): set<PeerId> {
    set id | id in r.peers && r.peers[id].IsStale(now, r.timeout)
  }

  function Sweep(r: Roster, now: nat): Roster {
    r.(peers := r.peers - StaleIds(r, now), persisted := r.persisted - StaleIds(r, now))
  }

  // ---- listing ----

  predicate PeerLe(a: Peer, b: Peer) {
    if a.isHub != b.isHub then a.isHub
    else if a.nickname != b.nickname then LexLe(a.nickname, b.nickname)
    else LexLe(a.peerId, b.peerId)
  }

  lemma PeerLeTotal(a: Peer, b: Peer)
    ensures PeerLe(a, b) || PeerLe(b, a)
  {
    LexTotal(a.nickname, b.nickname);
    LexTotal(a.peerId, b.peerId);
  }

  lemma PeerLeTransitive(a: Peer, b: Peer, c: Peer)
    requires PeerLe(a, b) && PeerLe(b, c)
    ensures PeerLe(a, c)
  {
    if a.isHub == b.isHub == c.isHub {
      if a.nickname != b.nickname && b.nickname != c.nickname {
        LexTransitive(a.nickname, b.nickname, c.nickname);
        if a.nickname == c.nickname {
          LexAntisymmetric(a.nickname, b.nickname);
        }
      } else if a.nickname == b.nickname == c.nickname {
        LexTransitive(a.peerId, b.peerId, c.peerId);
      }
    }
  }

  lemma PeerLeIsOrder()
    ensures TotalOrder(PeerLe)
  {
    forall a, b ensures PeerLe(a, b) || PeerLe(b, a) {
      PeerLeTotal(a, b);
    }
    forall a, b, c | PeerLe(a, b) && PeerLe(b, c) ensures PeerLe(a, c) {
      PeerLeTransitive(a, b, c);
    }
  }

  lemma PeerLeSeparatesKeys(a: Peer, b: Peer)
    requires PeerLe(a, b) && PeerLe(b, a)
    ensures a.peerId == b.peerId
  {
    if a.nickname != b.nickname {
      LexAntisymmetric(a.nickname, b.nickname);
    } else {
      LexAntisymmetric(a.peerId, b.peerId);
    }
  }

  /** `list` names every peer of the map exactly once, in some order. */
  ghost predicate Enumerates(list: seq<Peer>, peers: map<PeerId, Peer>) {
    && (forall i :: 0 <= i < |list| ==> list[i].peerId in peers && peers[list[i].peerId] == list[i])
    && (forall i, j :: 0 <= i < j < |list| ==> list[i].peerId != list[j].peerId)
    && (forall id :: id in peers ==> peers[id] in list)
  }

  lemma EnumerationsPermute(a: seq<Peer>, b: seq<Peer>, peers: map<PeerId, Peer>)
    requires Enumerates(a, peers) && Enumerates(b, peers)
    ensures multiset(a) == multiset(b)
  {
    forall x ensures x in a <==> x in b {
    }
    SameSetPermutes(a, b);
  }

  lemma EnumerationAntisymmetric(a: seq<Peer>, peers: map<PeerId, Peer>)
    requires Enumerates(a, peers)
    ensures Antisymmetric(PeerLe, a)
  {
    forall i, j | 0 <= i < |a| && 0 <= j < |a| && PeerLe(a[i], a[j]) && PeerLe(a[j], a[i])
      ensures a[i] == a[j]
    {
      PeerLeSeparatesKeys(a[i], a[j]);
    }
  }

  lemma SortEnumerates(list: seq<Peer>, peers: map<PeerId, Peer>)
    requires Enumerates(list, peers)
    ensures Enumerates(Sort(PeerLe, list), peers)
  {
    var s := Sort(PeerLe, list);
    SortPermutes(PeerLe, list);
    forall i | 0 <= i < |s| ensures s[i] in list {
      SameElements(s, list, s[i]);
    }
    forall id | id in peers ensures peers[id] in s {
      SameElements(s, list, peers[id]);
    }
    PermutationNoRepeats(list, s);
    forall i, j | 0 <= i < j < |s| ensures s[i].peerId != s[j].peerId {
      assert s[i] != s[j];
    }
  }

  /** There is only one sorted listing of a roster, so every refresh reads the same. */
  lemma SnapshotUnique(a: seq<Peer>, b: seq<Peer>, peers: map<PeerId, Peer>)
    requires Enumerates(a, peers) && Enumerates(b, peers) && Sorted(PeerLe, a) && Sorted(PeerLe, b)
    ensures a == b
  {
    PeerLeIsOrder();
    EnumerationsPermute(a, b, peers);
    EnumerationAntisymmetric(a, peers);
    SortedUnique(PeerLe, a, b);
  }

  /** The order of the listing: hubs before others, then by name, then by key. */
  lemma SortedReads(list: seq<Peer>, i: nat, j: nat)
    requires Sorted(PeerLe, list) && i < j < |list|
    ensures var a, b := list[i], list[j];
            && (b.isHub ==> a.isHub)
            && (a.isHub == b.isHub ==> LexLe(a.nickname, b.nickname))
            && (a.isHub == b.isHub && a.nickname == b.nickname ==> LexLe(a.peerId, b.peerId))
  {
    assert PeerLe(list[i], list[j]);
    LexTotal(list[i].nickname, list[i].nickname);
  }

  predicate IsHub(p: Peer) {
    p.isHub
  }

  function HubsIn(list: seq<Peer>): seq<Peer> {
    Filter(IsHub, list)
  }

  lemma OneMoreHub(first: Peer, rest: seq<Peer>, hubs: seq<Peer>)
    requires |hubs| <= |rest| && hubs == rest[..|hubs|] && first.isHub
    requires forall i :: 0 <= i < |rest| ==> (rest[i].isHub <==> i < |hubs|)
    ensures [first] + hubs == ([first] + rest)[..|hubs| + 1]
    ensures forall i :: 0 <= i < |rest| + 1 ==> (([first] + rest)[i].isHub <==> i < |hubs| + 1)
  {
  }

  /** The hubs are exactly the leading segment of the sorted listing. */
  lemma {:induction false} HubsLead(list: seq<Peer>)
    requires Sorted(PeerLe, list)
    ensures |HubsIn(list)| <= |list| && HubsIn(list) == list[..|HubsIn(list)|]
    ensures forall i :: 0 <= i < |list| ==> (list[i].isHub <==> i < |HubsIn(list)|)
  {
    if list != [] {
      if list[0].isHub {
        var rest := list[1..];
        HubsLead(rest);
        FilterCons(IsHub, list[0], rest);
        assert list == [list[0]] + rest;
        OneMoreHub(list[0], rest, HubsIn(rest));
      } else {
        assert forall i :: 1 <= i < |list| ==> PeerLe(list[0], list[i]);
        FilterNone(IsHub, list);
      }
    }
  }

  // ---- the registry object ----

  class PeerRegistry {
    const selfId: PeerId
    const timeout: nat
    var peers: map<PeerId, Peer>
    var persisted: map<PeerId, (seq<byte>, nat)>

    ghost function View(): Roster
      reads this
    {
      Roster(selfId, timeout, peers, persisted)
    }

    constructor (selfId: PeerId, timeout: nat)
      ensures View() == Roster(selfId, timeout, map[], map[])
    {
      this.selfId := selfId;
      this.timeout := timeout;
      peers := map[];
      persisted := map[];
    }

    method Cached(id: PeerId, nickname: seq<byte>, now: nat) returns (r: Option<TrustState>)
      ensures r == CachedTrust(View(), id, nickname, now)
    {
      if id !in peers || id !in persisted {
        return None;
      }
      var (persistedNick, persistedAt) := persisted[id];
      if persistedNick != nickname {
        return None;
      }
      if SaturatingSub(now, persistedAt) >= PERSIST_INTERVAL_SECS {
        return None;
      }
      return Some(peers[id].trust);
    }

    method ApplyTrust(id: PeerId, trust: TrustState) returns (found: bool)
      modifies this
      ensures View() == SetTrust(old(View()), id, trust) && found == (id in old(peers))
    {
      if id !in peers {
        return false;
      }
      if peers[id].trust != NicknameConflict {
        peers := peers[id := peers[id].(trust := trust)];
      }
      assert peers == old(peers)[id := old(peers)[id].(trust := Judge(old(peers)[id].trust, trust))];
      persisted := persisted - {id};
      return true;
    }

    method NotePersisted(id: PeerId, nickname: seq<byte>, now: nat)
      modifies this
      ensures View() == MarkPersisted(old(View()), id, nickname, now)
    {
      persisted := persisted[id := (nickname, now)];
    }

    method RecordSighting(p: Presence.Record, addrs: seq<Addr>, source: DiscoverySource, trust: TrustState, now: nat)
      returns (s: Sighting)
      modifies this
      ensures View() == Record(old(View()), p, addrs, source, trust, now)
      ensures s == SightingOf(old(View()), p.peerId)
    {
      if p.peerId == selfId {
        return SelfEcho;
      }
      if p.peerId in peers {
        var existing := peers[p.peerId];
        ghost var was := existing;
        existing := existing.(nickname := p.nickname, apiPort := p.apiPort, isHub := p.isHub, hubName := HubName(p));
        existing := existing.(source := existing.source.Merge(source), lastSeen := now);
        if existing.trust != NicknameConflict {
          existing := existing.(trust := trust);
        }
        ghost var before := existing;
        for i := 0 to |addrs|
          invariant existing == before.(addrs := existing.addrs)
          invariant AddAddrs(existing.addrs, addrs[i..]) == AddAddrs(was.addrs, addrs)
        {
          assert addrs[i..][1..] == addrs[i + 1..];
          if addrs[i] !in existing.addrs {
            existing := existing.(addrs := existing.addrs + [addrs[i]]);
          }
        }
        assert addrs[|addrs|..] == [];
        peers := peers[p.peerId := existing];
        return Refreshed;
      }
      peers := peers[p.peerId := NewPeer(p, addrs, source, trust, now)];
      return Arrived;
    }

    /** The map's values, in whatever order the map yields them. */
    method Values() returns (list: seq<Peer>)
      requires View().KeyedById()
      ensures Enumerates(list, peers)
    {
      list := [];
      var todo := peers.Keys;
      while todo != {}
        invariant todo <= peers.Keys
        invariant forall i :: 0 <= i < |list| ==>
                    list[i].peerId in peers && peers[list[i].peerId] == list[i] && list[i].peerId !in todo
        invariant forall i, j :: 0 <= i < j < |list| ==> list[i].peerId != list[j].peerId
        invariant forall id :: id in peers && id !in todo ==> peers[id] in list
      {
        var id :| id in todo;
        list := list + [peers[id]];
        todo := todo - {id};
      }
    }

    method SweepStale(now: nat) returns (departed: seq<Peer>)
      requires View().KeyedById()
      modifies this
      ensures View() == Sweep(old(View()), now)
      ensures forall id :: id in peers <==> id in old(peers) && !old(peers)[id].IsStale(now, timeout)
      ensures Enumerates(departed, old(peers) - (old(peers).Keys - StaleIds(old(View()), now)))
    {
      departed := [];
      var ids := StaleIds(Roster(selfId, timeout, peers, persisted), now);
      var todo := ids;
      while todo != {}
        invariant todo <= ids
        invariant peers == old(peers) - (ids - todo)
        invariant persisted == old(persisted) - (ids - todo)
        invariant forall i :: 0 <= i < |departed| ==>
                    departed[i].peerId in ids - todo && old(peers)[departed[i].peerId] == departed[i]
        invariant forall i, j :: 0 <= i < j < |departed| ==> departed[i].peerId != departed[j].peerId
        invariant forall id :: id in ids - todo ==> old(peers)[id] in departed
      {
        var id :| id in todo;
        departed := departed + [peers[id]];
        peers := peers - {id};
        persisted := persisted - {id};
        todo := todo - {id};
      }
    }

    method Snapshot() returns (list: seq<Peer>)
      requires View().KeyedById()
      ensures Enumerates(list, peers) && Sorted(PeerLe, list)
      ensures forall i, j :: 0 <= i < j < |list| ==>
                && (list[j].isHub ==> list[i].isHub)
                && (list[i].isHub == list[j].isHub ==> LexLe(list[i].nickname, list[j].nickname))
    {
      list := Values();
      SortEnumerates(list, peers);
      PeerLeIsOrder();
      SortSorted(PeerLe, list);
      list := Sort(PeerLe, list);
      forall i, j | 0 <= i < j < |list|
        ensures (list[j].isHub ==> list[i].isHub)
                && (list[i].isHub == list[j].isHub ==> LexLe(list[i].nickname, list[j].nickname))
      {
        SortedReads(list, i, j);
      }
    }

    method Hubs() returns (list: seq<Peer>)
      requires View().KeyedById()
      ensures forall all: seq<Peer> :: Enumerates(all, peers) && Sorted(PeerLe, all) ==>
                |list| <= |all| && list == all[..|list|]
                && forall i :: 0 <= i < |all| ==> (all[i].isHub <==> i < |list|)
    {
      var all := Snapshot();
      list := HubsIn(all);
      HubsLead(all);
      forall other | Enumerates(other, peers) && Sorted(PeerLe, other) ensures other == all {
        SnapshotUnique(all, other, peers);
      }
    }
  }
}

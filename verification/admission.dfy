/**
  What a node may come to believe about others from what reaches it: any records, under any
  signatures, from anybody (crates/intraweb-net/src/node.rs:220-288).
 */
module Admission {
  import opened Wrappers
  import opened Bytes
  import opened Identity
  import opened Peers
  import opened Registry
  import opened Store
  import opened Node
  import opened Liveness
  import Presence

  datatype Happening =
    | Received(s: Sighted, signature: seq<byte>, now: nat)   // by mDNS or beacon, from wherever
    | Vouched(id: PeerId)                                    // by the operator
    | Swept(now: nat)

  function After(scheme: Scheme, n: Node, h: Happening): Node {
    match h
    case Received(s, signature, now) =>
      if Presence.Verify(scheme, s.p, signature, now).Ok? then Absorbed(n, s, now) else n
    case Vouched(id) => VerifiedBy(n, id)
    case Swept(now) => n.(roster := Sweep(n.roster, now))
  }

  function AfterAll(scheme: Scheme, n: Node, hs: seq<Happening>): Node
    decreases |hs|
  {
    if hs == [] then n else AfterAll(scheme, After(scheme, n, hs[0]), hs[1..])
  }

  ghost predicate GenuineOf(scheme: Scheme, h: Happening, id: PeerId) {
    h.Received? && h.s.p.peerId == id && Presence.Genuine(scheme, h.s.p, h.signature, h.now)
  }

  /** A record of that key, genuine when it came, announced what the roster shows. */
  ghost predicate Backed(scheme: Scheme, hs: seq<Happening>, peer: Peer) {
    exists i :: 0 <= i < |hs| && GenuineOf(scheme, hs[i], peer.peerId) && Advertises(peer, hs[i].s.p)
  }

  /** One such record bore the name that the keyring holds. */
  ghost predicate Named(scheme: Scheme, hs: seq<Happening>, id: PeerId, nickname: seq<byte>) {
    exists i :: 0 <= i < |hs| && GenuineOf(scheme, hs[i], id) && hs[i].s.p.nickname == nickname
  }

  /** What can have changed about one key, and on whose word. */
  ghost predicate OnItsWord(scheme: Scheme, n: Node, m: Node, hs: seq<Happening>, id: PeerId) {
    && (id in m.roster.peers ==>
          || (id in n.roster.peers && SameAdvertised(n.roster.peers[id], m.roster.peers[id]))
          || (m.roster.peers[id].peerId == id && Backed(scheme, hs, m.roster.peers[id])))
    && (id in m.known ==>
          || (id in n.known && m.known[id].nickname == n.known[id].nickname)
          || Named(scheme, hs, id, m.known[id].nickname))
  }

  lemma OneOnItsWord(scheme: Scheme, n: Node, h: Happening, id: PeerId)
    requires n.roster.KeyedById()
    ensures OnItsWord(scheme, n, After(scheme, n, h), [h], id) && After(scheme, n, h).roster.KeyedById()
  {
    var hs, m := [h], After(scheme, n, h);
    assert hs[0] == h;
    if h.Received? {
      Presence.VerifyIff(scheme, h.s.p, h.signature, h.now);
    }
  }

  lemma WordCarries(scheme: Scheme, h: Happening, rest: seq<Happening>, peer: Peer, id: PeerId, name: seq<byte>)
    ensures Backed(scheme, [h], peer) || Backed(scheme, rest, peer) ==> Backed(scheme, [h] + rest, peer)
    ensures Named(scheme, [h], id, name) || Named(scheme, rest, id, name) ==> Named(scheme, [h] + rest, id, name)
  {
    var all := [h] + rest;
    assert all[0] == [h][0];
    assert forall i :: 0 <= i < |rest| ==> all[i + 1] == rest[i];
  }

  lemma BackedAlike(scheme: Scheme, hs: seq<Happening>, a: Peer, b: Peer)
    requires Backed(scheme, hs, a) && SameAdvertised(a, b)
    ensures Backed(scheme, hs, b)
  {
    var i :| 0 <= i < |hs| && GenuineOf(scheme, hs[i], a.peerId) && Advertises(a, hs[i].s.p);
    assert Advertises(b, hs[i].s.p);
  }

  /**
    Nothing is taken on another's word: whatever reaches a node, what its roster shows of a
    peer, and the name its keyring holds for a key, are as they were or were announced by a
    record of that very key with a good signature. In particular a key that joins either has
    sent such a record.
   */
  lemma {:induction false} NothingForged(scheme: Scheme, n: Node, hs: seq<Happening>, id: PeerId)
    requires n.roster.KeyedById()
    ensures OnItsWord(scheme, n, AfterAll(scheme, n, hs), hs, id)
    decreases |hs|
  {
    if hs != [] {
      var h, rest, m := hs[0], hs[1..], After(scheme, n, hs[0]);
      OneOnItsWord(scheme, n, h, id);
      NothingForged(scheme, m, rest, id);
      assert [h] + rest == hs;
      CarriesOver(scheme, n, m, AfterAll(scheme, m, rest), h, rest, id);
    }
  }

  lemma CarriesOver(scheme: Scheme, n: Node, m: Node, k: Node, h: Happening, rest: seq<Happening>, id: PeerId)
    requires OnItsWord(scheme, n, m, [h], id) && OnItsWord(scheme, m, k, rest, id)
    ensures OnItsWord(scheme, n, k, [h] + rest, id)
  {
    if id in k.roster.peers {
      WordCarries(scheme, h, rest, k.roster.peers[id], id, []);
      if id in m.roster.peers && Backed(scheme, [h], m.roster.peers[id])
         && SameAdvertised(m.roster.peers[id], k.roster.peers[id]) {
        BackedAlike(scheme, [h], m.roster.peers[id], k.roster.peers[id]);
      }
    }
    if id in k.known {
      WordCarries(scheme, h, rest, Peer(id, [], [], 0, false, None, Mdns, New, 0, 0), id, k.known[id].nickname);
    }
  }

  /** A node's own record, which comes back to it and is genuine, changes nothing. */
  lemma OwnEchoIgnored(n: Node, s: Sighted, now: nat)
    requires s.p.peerId == n.roster.selfId
    ensures Absorbed(n, s, now) == n
  {
  }

  /** The trust that a sighting is answered with when the keyring is asked. */
  function Judged(n: Node, id: PeerId, nickname: seq<byte>): TrustState {
    if id in n.known then (if n.known[id].verified then Verified else Known)
    else if exists other :: other in n.known && other != id && n.known[other].nickname == nickname
    then NicknameConflict
    else New
  }

  /** The keyring has been told of this key under this name within the last minute. */
  predicate ToldLately(r: Roster, id: PeerId, nickname: seq<byte>, now: nat) {
    id in r.peers && id in r.persisted && r.persisted[id].0 == nickname && now < r.persisted[id].1 + 60
  }

  /**
    What a sighting shows: the record as announced, seen now; a conflict once raised, and else
    the keyring's judgement, or the one shown so far if the keyring was told less than a minute ago.
   */
  lemma SightingShows(n: Node, s: Sighted, now: nat)
    requires s.p.peerId != n.roster.selfId
    ensures var id, m := s.p.peerId, Absorbed(n, s, now);
            id in m.roster.peers
            && var peer := m.roster.peers[id];
               && (id !in n.roster.peers ==> Advertises(peer, s.p) && peer.firstSeen == now && peer.addrs == s.addrs)
               && peer.nickname == s.p.nickname && peer.apiPort == s.p.apiPort && peer.lastSeen == now
               && peer.trust == (if id in n.roster.peers && n.roster.peers[id].trust == NicknameConflict
                                 then NicknameConflict
                                 else if ToldLately(n.roster, id, s.p.nickname, now) then n.roster.peers[id].trust
                                 else Judged(n, id, s.p.nickname))
  {
  }
}

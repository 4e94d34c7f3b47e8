/** Who stays on the roster over a timed run, and what a peer that stays accumulates. */
module Liveness {
  import opened Wrappers
  import opened Bytes
  import opened Peers
  import opened Registry
  import opened Store
  import opened Node
  import opened Sorting
  import Presence

  predicate SightsKey(e: Event, id: PeerId) {
    e.Sight? && e.s.p.peerId == id
  }

  /** Every sweep comes within the timeout of the last sighting of `id` before it. */
  predicate SweepsInTime(events: seq<Event>, id: PeerId, last: nat, timeout: nat) {
    events == [] ||
    (var e := events[0];
     (e.SweepDue? ==> e.now <= last + timeout)
     && SweepsInTime(events[1..], id, if SightsKey(e, id) then e.now else last, timeout))
  }

  ghost predicate NeverDeparts(replies: seq<Reply>, id: PeerId) {
    forall k :: 0 <= k < |replies| && replies[k].DepartedReply? ==> id !in replies[k].ids
  }

  /** The sightings of one key, in order. */
  function SightingsOf(events: seq<Event>, id: PeerId): seq<Sighted> {
    if events == [] then []
    else (if SightsKey(events[0], id) then [events[0].s] else []) + SightingsOf(events[1..], id)
  }

  function AllAddrs(sightings: seq<Sighted>): seq<Addr> {
    if sightings == [] then [] else sightings[0].addrs + AllAddrs(sightings[1..])
  }

  function LastSeen(events: seq<Event>, id: PeerId, last: nat): nat {
    if events == [] then last
    else LastSeen(events[1..], id, if SightsKey(events[0], id) then events[0].now else last)
  }

  /** A source is the join of others: that source if they are all the same, Both otherwise. */
  ghost predicate IsJoin(source: DiscoverySource, first: DiscoverySource, rest: seq<Sighted>) {
    source == if forall i :: 0 <= i < |rest| ==> rest[i].source == first then first else Both
  }

  /** Each element once, where it first occurs. */
  function FirstOccurrences(s: seq<Addr>): seq<Addr> {
    if s == [] then []
    else
      var (init, last) := (s[..|s| - 1], s[|s| - 1]);
      FirstOccurrences(init) + if last in init then [] else [last]
  }

  lemma {:induction false} FirstOccurrencesShape(s: seq<Addr>)
    ensures NoRepeats(FirstOccurrences(s))
    ensures forall x :: x in FirstOccurrences(s) <==> x in s
    ensures NoRepeats(s) <==> FirstOccurrences(s) == s
  {
    if s != [] {
      var init, last := s[..|s| - 1], s[|s| - 1];
      FirstOccurrencesShape(init);
      assert s == init + [last];
      assert |FirstOccurrences(init)| <= |init| by {
        FirstOccurrencesLength(init);
      }
      if NoRepeats(s) {
        assert forall i :: 0 <= i < |init| ==> init[i] == s[i];
      }
    }
  }

  lemma {:induction false} FirstOccurrencesLength(s: seq<Addr>)
    ensures |FirstOccurrences(s)| <= |s|
  {
    if s != [] {
      FirstOccurrencesLength(s[..|s| - 1]);
    }
  }

  lemma {:induction false} AddAddrsContinues(have: seq<Addr>, more: seq<Addr>)
    ensures AddAddrs(FirstOccurrences(have), more) == FirstOccurrences(have + more)
    decreases |more|
  {
    if more == [] {
      assert have + more == have;
    } else {
      FirstOccurrencesShape(have);
      var next := have + [more[0]];
      assert next[..|next| - 1] == have;
      assert next + more[1..] == have + more;
      assert FirstOccurrences(next)
          == if more[0] in have then FirstOccurrences(have) else FirstOccurrences(have) + [more[0]];
      AddAddrsContinues(next, more[1..]);
    }
  }

  lemma {:induction false} AddAddrsExtends(have: seq<Addr>, more: seq<Addr>)
    ensures have <= AddAddrs(have, more)
    decreases |more|
  {
    if more != [] {
      AddAddrsExtends(if more[0] in have then have else have + [more[0]], more[1..]);
    }
  }

  lemma {:induction false} AddAddrsTwice(have: seq<Addr>, a: seq<Addr>, b: seq<Addr>)
    ensures AddAddrs(AddAddrs(have, a), b) == AddAddrs(have, a + b)
    decreases |a|
  {
    if a == [] {
      assert a + b == b;
    } else {
      assert (a + b)[1..] == a[1..] + b;
      AddAddrsTwice(if a[0] in have then have else have + [a[0]], a[1..], b);
    }
  }

  /** The addresses of a peer are the first occurrences of all it was seen at,
      exactly when the list it arrived with had no address twice. */
  lemma AddressesAreFirstOccurrences(first: seq<Addr>, later: seq<Addr>)
    ensures AddAddrs(first, later) == FirstOccurrences(first + later) <==> NoRepeats(first)
  {
    FirstOccurrencesShape(first);
    FirstOccurrencesShape(first + later);
    if NoRepeats(first) {
      AddAddrsContinues(first, later);
    } else {
      AddAddrsExtends(first, later);
      var i, j :| 0 <= i < j < |first| && first[i] == first[j];
      var all := AddAddrs(first, later);
      assert all[i] == first[i] && all[j] == first[j];
    }
  }

  /** One event that does not sweep `id` away: what happens to its entry. */
  lemma StepKeeps(n: Node, e: Event, throttled: bool, id: PeerId)
    requires id in n.roster.peers && id != n.roster.selfId && n.roster.peers[id].peerId == id
    requires e.SweepDue? ==> id !in StaleIds(n.roster, e.now)
    ensures var m := Step(n, e, throttled);
            m.roster.selfId == n.roster.selfId && m.roster.timeout == n.roster.timeout && id in m.roster.peers
            && m.roster.peers[id].peerId == id && Kept(n.roster.peers[id], m.roster.peers[id], e, id)
  {
  }

  /** A peer is never dropped exactly when no sweep runs later than a timeout after it was last seen. */
  lemma {:induction false} NeverSweptIff(n: Node, events: seq<Event>, throttled: bool, id: PeerId)
    requires id in n.roster.peers && id != n.roster.selfId && n.roster.peers[id].peerId == id
    ensures NeverDeparts(Replies(n, events, throttled), id)
       <==> SweepsInTime(events, id, n.roster.peers[id].lastSeen, n.roster.timeout)
    decreases |events|
  {
    if events != [] {
      var e, r := events[0], Replies(n, events, throttled);
      assert r[0] == ReplyTo(n, e);
      if e.SweepDue? && id in StaleIds(n.roster, e.now) {
        assert id in r[0].ids;
      } else {
        StepKeeps(n, e, throttled, id);
        var m := Step(n, e, throttled);
        NeverSweptIff(m, events[1..], throttled, id);
        var rest := Replies(m, events[1..], throttled);
        assert r[1..] == rest;
        assert NeverDeparts(r, id) <==> NeverDeparts(rest, id) by {
          assert forall k :: 0 <= k < |rest| ==> rest[k] == r[k + 1];
          assert forall k :: 1 <= k < |r| ==> r[k] == rest[k - 1];
        }
      }
    }
  }

  /** The roster shows what this record announced. */
  ghost predicate Advertises(peer: Peer, p: Presence.Record) {
    && peer.peerId == p.peerId && peer.nickname == p.nickname && peer.apiPort == p.apiPort && peer.isHub == p.isHub
    && peer.hubName == if p.isHub then Some(p.hubName) else None
  }

  ghost predicate SameAdvertised(a: Peer, b: Peer) {
    && a.peerId == b.peerId && a.nickname == b.nickname && a.apiPort == b.apiPort && a.isHub == b.isHub
    && a.hubName == b.hubName
  }

  /** What a peer that stays on the roster through some events holds afterwards. */
  ghost predicate Accumulated(was: Peer, after: Peer, events: seq<Event>, id: PeerId) {
    AccumulatedBy(was, after, SightingsOf(events, id), LastSeen(events, id, was.lastSeen))
  }

  ghost predicate AccumulatedBy(was: Peer, after: Peer, seen: seq<Sighted>, last: nat) {
    && after.firstSeen == was.firstSeen && after.lastSeen == last
    && after.addrs == AddAddrs(was.addrs, AllAddrs(seen)) && IsJoin(after.source, was.source, seen)
    && if seen == [] then SameAdvertised(after, was) else Advertises(after, seen[|seen| - 1].p)
  }

  /** The effect of one event that does not sweep the peer away. */
  ghost predicate Kept(was: Peer, after: Peer, e: Event, id: PeerId) {
    && after.firstSeen == was.firstSeen
    && if SightsKey(e, id)
       then after.lastSeen == e.now && after.source == was.source.Merge(e.s.source)
            && after.addrs == AddAddrs(was.addrs, e.s.addrs) && Advertises(after, e.s.p)
       else after == was.(trust := after.trust)
  }

  lemma JoinOne(first: DiscoverySource, s: Sighted, rest: seq<Sighted>, source: DiscoverySource)
    requires IsJoin(source, first.Merge(s.source), rest)
    ensures IsJoin(source, first, [s] + rest)
  {
    var all := [s] + rest;
    assert all[0] == s;
    if s.source == first {
      assert forall i :: 1 <= i < |all| ==> all[i] == rest[i - 1];
      assert forall i :: 0 <= i < |rest| ==> rest[i] == all[i + 1];
    }
  }

  lemma KeptAccumulates(was: Peer, mid: Peer, after: Peer, events: seq<Event>, id: PeerId)
    requires events != [] && Kept(was, mid, events[0], id) && Accumulated(mid, after, events[1..], id)
    ensures Accumulated(was, after, events, id)
  {
    if SightsKey(events[0], id) {
      SightingAccumulates(was, mid, after, events, id);
    } else {
      OtherAccumulates(was, mid, after, events, id);
    }
  }

  lemma OtherAccumulates(was: Peer, mid: Peer, after: Peer, events: seq<Event>, id: PeerId)
    requires events != [] && Kept(was, mid, events[0], id) && Accumulated(mid, after, events[1..], id)
    requires !SightsKey(events[0], id)
    ensures Accumulated(was, after, events, id)
  {
    NoSighting(events, id, was.lastSeen);
    AccumulatedAlike(was, mid, after, SightingsOf(events[1..], id), LastSeen(events[1..], id, was.lastSeen));
  }

  lemma AccumulatedAlike(was: Peer, mid: Peer, after: Peer, seen: seq<Sighted>, last: nat)
    requires mid == was.(trust := mid.trust) && AccumulatedBy(mid, after, seen, last)
    ensures AccumulatedBy(was, after, seen, last)
  {
  }

  lemma NoSighting(events: seq<Event>, id: PeerId, last: nat)
    requires events != [] && !SightsKey(events[0], id)
    ensures SightingsOf(events, id) == SightingsOf(events[1..], id)
    ensures LastSeen(events, id, last) == LastSeen(events[1..], id, last)
  {
  }

  lemma SightingAccumulates(was: Peer, mid: Peer, after: Peer, events: seq<Event>, id: PeerId)
    requires events != [] && Kept(was, mid, events[0], id) && Accumulated(mid, after, events[1..], id)
    requires SightsKey(events[0], id)
    ensures Accumulated(was, after, events, id)
  {
    var e, seen := events[0], SightingsOf(events[1..], id);
    AddAddrsTwice(was.addrs, e.s.addrs, AllAddrs(seen));
    JoinOne(was.source, e.s, seen, after.source);
    var all := [e.s] + seen;
    assert SightingsOf(events, id) == all && all[1..] == seen;
    assert AllAddrs(all) == e.s.addrs + AllAddrs(seen);
    assert all[|all| - 1] == if seen == [] then e.s else seen[|seen| - 1];
  }

  /** A peer sighted often enough keeps its place, its first-seen time and everything it was seen with. */
  lemma {:induction false} PresentPeerAccumulates(n: Node, events: seq<Event>, throttled: bool, id: PeerId)
    requires id in n.roster.peers && id != n.roster.selfId && n.roster.peers[id].peerId == id
    requires SweepsInTime(events, id, n.roster.peers[id].lastSeen, n.roster.timeout)
    ensures id in Run(n, events, throttled).roster.peers
    ensures Accumulated(n.roster.peers[id], Run(n, events, throttled).roster.peers[id], events, id)
    decreases |events|
  {
    if events != [] {
      var e := events[0];
      StepKeeps(n, e, throttled, id);
      var m := Step(n, e, throttled);
      PresentPeerAccumulates(m, events[1..], throttled, id);
      KeptAccumulates(n.roster.peers[id], m.roster.peers[id], Run(n, events, throttled).roster.peers[id], events, id);
    }
  }

  /** From its arrival on, a peer that no sweep catches is on the roster with everything it was
      sighted with: arrival time, last time and record, joined source, accumulated addresses. */
  lemma ArrivedPeerAccumulates(n: Node, s: Sighted, now: nat, events: seq<Event>, throttled: bool)
    requires s.p.peerId !in n.roster.peers && s.p.peerId != n.roster.selfId
    requires SweepsInTime(events, s.p.peerId, now, n.roster.timeout)
    ensures var m, seen := Run(n, [Sight(s, now)] + events, throttled), SightingsOf(events, s.p.peerId);
            s.p.peerId in m.roster.peers
            && var after := m.roster.peers[s.p.peerId];
               after.firstSeen == now && after.lastSeen == LastSeen(events, s.p.peerId, now)
               && after.addrs == AddAddrs(s.addrs, AllAddrs(seen)) && IsJoin(after.source, s.source, seen)
               && Advertises(after, if seen == [] then s.p else seen[|seen| - 1].p)
  {
    var all := [Sight(s, now)] + events;
    assert all[1..] == events;
    PresentPeerAccumulates(Step(n, all[0], throttled), events, throttled, s.p.peerId);
  }

  // ---- which address a peer is dialled at ----

  lemma {:induction false} FirstV4OfConcat(a: seq<Addr>, b: seq<Addr>)
    ensures FirstV4(a + b) == if FirstV4(a).Some? then FirstV4(a) else FirstV4(b)
  {
    if a == [] {
      assert a + b == b;
    } else {
      FirstV4OfConcat(a[1..], b);
      assert (a + b)[1..] == a[1..] + b;
    }
  }

  /** Leaving out an address that is held already does not change which one comes first. */
  lemma {:induction false} PreferredOfAdded(have: seq<Addr>, more: seq<Addr>)
    ensures Preferred(AddAddrs(have, more)) == Preferred(have + more)
    decreases |more|
  {
    if more == [] {
      assert have + more == have;
    } else {
      var next := if more[0] in have then have else have + [more[0]];
      PreferredOfAdded(next, more[1..]);
      FirstV4OfConcat(have, more);
      FirstV4OfConcat(next, more[1..]);
      FirstV4OfConcat(have, [more[0]]);
      FirstV4Exact(have);
      assert [more[0]][1..] == [];
    }
  }

  /**
    As long as no sweep catches it, a peer is dialled at the first IPv4 address it was ever
    seen at, and so still at its old one after it has moved: the address it was dialled at
    is replaced exactly if it was none, or none of IPv4 and one of IPv4 has been seen since.
   */
  lemma DialsFirstSeen(n: Node, events: seq<Event>, throttled: bool, id: PeerId)
    requires id in n.roster.peers && id != n.roster.selfId && n.roster.peers[id].peerId == id
    requires SweepsInTime(events, id, n.roster.peers[id].lastSeen, n.roster.timeout)
    ensures id in Run(n, events, throttled).roster.peers
    ensures var was, after := n.roster.peers[id], Run(n, events, throttled).roster.peers[id];
            var later := AllAddrs(SightingsOf(events, id));
            && after.PreferredAddr() == Preferred(was.addrs + later)
            && (after.PreferredAddr() != was.PreferredAddr()
                <==> (was.addrs == [] && later != []) || (FirstV4(was.addrs).None? && FirstV4(later).Some?))
  {
    PresentPeerAccumulates(n, events, throttled, id);
    var was, later := n.roster.peers[id], AllAddrs(SightingsOf(events, id));
    PreferredOfAdded(was.addrs, later);
    FirstV4OfConcat(was.addrs, later);
    FirstV4Exact(was.addrs);
    FirstV4Exact(later);
    assert was.addrs == [] ==> was.addrs + later == later;
  }

  /** On the roster, a peer's addresses hold one twice exactly if the list it arrived with does. */
  lemma RepeatsStay(n: Node, s: Sighted, now: nat, events: seq<Event>, throttled: bool)
    requires s.p.peerId !in n.roster.peers && s.p.peerId != n.roster.selfId
    requires SweepsInTime(events, s.p.peerId, now, n.roster.timeout)
    ensures s.p.peerId in Run(n, [Sight(s, now)] + events, throttled).roster.peers
    ensures NoRepeats(Run(n, [Sight(s, now)] + events, throttled).roster.peers[s.p.peerId].addrs)
       <==> NoRepeats(s.addrs)
  {
    ArrivedPeerAccumulates(n, s, now, events, throttled);
    var later := AllAddrs(SightingsOf(events, s.p.peerId));
    AddressesAreFirstOccurrences(s.addrs, later);
    FirstOccurrencesShape(s.addrs + later);
    AddAddrsExtends(s.addrs, later);
    var all := AddAddrs(s.addrs, later);
    assert forall i :: 0 <= i < |s.addrs| ==> all[i] == s.addrs[i];
  }
}

/**
  Who is on the list of a keyring that is cut to its most recently seen keys, and
  when a name held by two keys resolves after all (crates/intraweb-core/src/db.rs:132-146,
  crates/intraweb-cli/src/mail.rs:4-6, 165-202).
 */
module Recency {
  import opened Wrappers
  import opened Bytes
  import opened Identity
  import opened Peers
  import opened Sorting
  import opened Store
  import opened Text
  import opened Recipients
  import Hex

  const ADDRESS_LIMIT := 500

  /** The keys seen after `id` was. */
  function Newer(k: Keyring, id: PeerId): set<PeerId>
    requires id in k
  {
    set other | other in k && k[other].lastSeen > k[id].lastSeen
  }

  /** The keys outside `ids` that were seen no earlier than any of them. */
  function AsNew(k: Keyring, ids: set<PeerId>): set<PeerId>
    requires ids <= k.Keys
  {
    set other | other in k && other !in ids && forall id :: id in ids ==> k[id].lastSeen <= k[other].lastSeen
  }

  lemma {:induction false} SubsetSize<T>(a: set<T>, b: set<T>)
    requires a <= b
    ensures |a| <= |b|
  {
    if a != {} {
      var x :| x in a;
      SubsetSize(a - {x}, b - {x});
    }
  }

  function Elements<T>(s: seq<T>): set<T> {
    set x | x in s
  }

  lemma {:induction false} ElementsSize<T>(s: seq<T>)
    ensures |Elements(s)| <= |s|
    ensures NoRepeats(s) ==> |Elements(s)| == |s|
  {
    if s != [] {
      ElementsSize(s[1..]);
      assert Elements(s) == {s[0]} + Elements(s[1..]);
    }
  }

  function KeysOn(list: seq<KnownPeer>): seq<PeerId> {
    seq(|list|, i requires 0 <= i < |list| => list[i].peerId)
  }

  lemma ListedKeys(list: seq<KnownPeer>, k: Keyring, limit: nat)
    requires ListsRecent(list, k, limit)
    ensures |Elements(KeysOn(list))| == |list|
    ensures forall id :: id in Elements(KeysOn(list)) <==> Lists(list, k, id)
  {
    var keys := KeysOn(list);
    ElementsSize(keys);
    forall id ensures id in keys <==> Lists(list, k, id) {
      if Lists(list, k, id) {
        var i :| 0 <= i < |list| && list[i] == EntryOf(k, id);
        assert keys[i] == id;
      }
    }
  }

  /** Any listing leaves out all of `ids` only if it is full of keys as new as they. */
  lemma AsNewFillTheList(list: seq<KnownPeer>, k: Keyring, limit: nat, ids: set<PeerId>)
    requires ListsRecent(list, k, limit) && ids <= k.Keys && ids != {}
    requires forall id :: id in ids ==> !Lists(list, k, id)
    ensures |AsNew(k, ids)| >= limit
  {
    var listed := Elements(KeysOn(list));
    ListedKeys(list, k, limit);
    forall other | other in listed ensures other in AsNew(k, ids) {
      var i :| 0 <= i < |list| && list[i].peerId == other;
      assert list[i].peerId in k;
    }
    SubsetSize(listed, AsNew(k, ids));
    var id :| id in ids;
    assert |k| > limit;
  }

  /** A listing with `id` on it has all that are newer on it too. */
  lemma NewerAreListed(list: seq<KnownPeer>, k: Keyring, limit: nat, id: PeerId)
    requires ListsRecent(list, k, limit) && Lists(list, k, id)
    ensures |Newer(k, id)| < limit
  {
    var listed := Elements(KeysOn(list));
    ListedKeys(list, k, limit);
    var i :| 0 <= i < |list| && list[i] == EntryOf(k, id);
    forall other | other in Newer(k, id) ensures other in listed {
      assert k[list[i].peerId].lastSeen < k[other].lastSeen;
    }
    assert id in listed && id !in Newer(k, id);
    SubsetSize(Newer(k, id) + {id}, listed);
  }

  // ---- a listing that goes as far as the rows' times allow ----

  /** The key to be listed if possible first, the keys to be left out if possible last. */
  function Favour(first: PeerId, last: set<PeerId>, id: PeerId): nat {
    if id == first then 0 else if id in last then 2 else 1
  }

  function Favours(first: PeerId, last: set<PeerId>): (PeerId, PeerId) -> bool {
    (a: PeerId, b: PeerId) => Favour(first, last, a) <= Favour(first, last, b)
  }

  function Recent(k: Keyring): (PeerId, PeerId) -> bool {
    (a: PeerId, b: PeerId) => RecentFirst(k, a, b)
  }

  lemma {:induction false} Enumerated(ids: set<PeerId>) returns (s: seq<PeerId>)
    ensures NoRepeats(s) && forall id :: id in s <==> id in ids
  {
    if ids == {} {
      s := [];
    } else {
      var id :| id in ids;
      s := Enumerated(ids - {id});
      s := s + [id];
    }
  }

  /** All keys, the recent first, and where times tie those that are favoured. */
  lemma FavouredOrder(k: Keyring, first: PeerId, last: set<PeerId>) returns (s: seq<PeerId>)
    ensures |s| == |k| && NoRepeats(s) && forall id :: id in s <==> id in k
    ensures Sorted(Recent(k), s) && Sorted(Ties(Recent(k), Favours(first, last)), s)
  {
    var favours, recent := Favours(first, last), Recent(k);
    var keys := Enumerated(k.Keys);
    assert TotalOrder(favours) && TotalOrder(recent);
    var favoured := Sort(favours, keys);
    SortSorted(favours, keys);
    SortPermutes(favours, keys);
    s := Sort(recent, favoured);
    SortStable(recent, favours, favoured);
    SortSorted(recent, favoured);
    SortPermutes(recent, favoured);
    PermutationNoRepeats(keys, s);
    forall id ensures id in s <==> id in k {
      SameElements(keys, s, id);
    }
    ElementsSize(s);
    assert Elements(s) == k.Keys;
  }

  function FirstOf(k: Keyring, s: seq<PeerId>, limit: nat): seq<KnownPeer>
    requires forall id :: id in s ==> id in k
  {
    var n := if |s| < limit then |s| else limit;
    seq(n, i requires 0 <= i < n => EntryOf(k, s[i]))
  }

  lemma FavouredListing(k: Keyring, limit: nat, first: PeerId, last: set<PeerId>)
      returns (s: seq<PeerId>, list: seq<KnownPeer>)
    ensures |s| == |k| && NoRepeats(s) && forall id :: id in s <==> id in k
    ensures Sorted(Ties(Recent(k), Favours(first, last)), s)
    ensures list == FirstOf(k, s, limit) && ListsRecent(list, k, limit)
  {
    s := FavouredOrder(k, first, last);
    list := FirstOf(k, s, limit);
    assert forall i, j :: 0 <= i < j < |s| ==> Recent(k)(s[i], s[j]);
    FirstOfSorted(k, s, limit, list);
  }

  lemma PlaceDecides(k: Keyring, s: seq<PeerId>, limit: nat, i: nat)
    requires NoRepeats(s) && (forall id :: id in s ==> id in k) && i < |s|
    ensures Lists(FirstOf(k, s, limit), k, s[i]) <==> i < limit
  {
    var list := FirstOf(k, s, limit);
    if i < limit {
      assert list[i] == EntryOf(k, s[i]);
    }
    if Lists(list, k, s[i]) {
      var j :| 0 <= j < |list| && list[j] == EntryOf(k, s[i]);
      assert s[j] == s[i];
    }
  }

  /** In the favoured order only newer keys stand before the first one. */
  lemma BeforeFirst(k: Keyring, s: seq<PeerId>, first: PeerId, last: set<PeerId>, i: nat)
    requires NoRepeats(s) && (forall id :: id in s <==> id in k) && i < |s| && s[i] == first
    requires Sorted(Ties(Recent(k), Favours(first, last)), s)
    ensures i <= |Newer(k, first)|
  {
    var before := Elements(s[..i]);
    ElementsSize(s[..i]);
    forall other | other in before ensures other in Newer(k, first) {
      var j :| 0 <= j < i && s[j] == other;
      assert Ties(Recent(k), Favours(first, last))(s[j], s[i]);
    }
    SubsetSize(before, Newer(k, first));
  }

  /** And before the last ones all that are as new as they. */
  lemma BeforeLast(k: Keyring, s: seq<PeerId>, first: PeerId, last: set<PeerId>, i: nat)
    requires NoRepeats(s) && (forall id :: id in s <==> id in k) && i < |s|
    requires last <= k.Keys && first !in last && s[i] in last
    requires Sorted(Ties(Recent(k), Favours(first, last)), s)
    ensures |AsNew(k, last)| <= i
  {
    var before := Elements(s[..i]);
    ElementsSize(s[..i]);
    forall j | i < j < |s| ensures s[j] !in AsNew(k, last) {
      assert Ties(Recent(k), Favours(first, last))(s[i], s[j]);
    }
    forall other | other in AsNew(k, last) ensures other in before {
      var j :| 0 <= j < |s| && s[j] == other;
      assert s[..i][j] == other;
    }
    SubsetSize(AsNew(k, last), before);
  }

  /** There is a listing with `first` and without any of `last`, if each by itself is possible. */
  lemma FavouredIsListed(k: Keyring, limit: nat, first: PeerId, last: set<PeerId>) returns (list: seq<KnownPeer>)
    requires last <= k.Keys && first !in last && (last != {} ==> |AsNew(k, last)| >= limit)
    ensures ListsRecent(list, k, limit) && forall id :: id in last ==> !Lists(list, k, id)
    ensures first in k && |Newer(k, first)| < limit ==> Lists(list, k, first)
  {
    var s;
    s, list := FavouredListing(k, limit, first, last);
    forall id | id in last ensures !Lists(list, k, id) {
      var i :| 0 <= i < |s| && s[i] == id;
      BeforeLast(k, s, first, last, i);
      PlaceDecides(k, s, limit, i);
    }
    if first in k && |Newer(k, first)| < limit {
      var i :| 0 <= i < |s| && s[i] == first;
      BeforeFirst(k, s, first, last, i);
      PlaceDecides(k, s, limit, i);
    }
  }

  // ---- who can be addressed ----

  lemma ListedIff(live: seq<Peer>, k: Keyring, known: seq<KnownPeer>, id: PeerId)
    requires DistinctKeys(live) && ListsRecent(known, k, ADDRESS_LIMIT)
    ensures Listed(AddKnown(live, known), id) <==> Listed(live, id) || Lists(known, k, id)
  {
    AddKnownExact(live, known);
    if Listed(AddKnown(live, known), id) {
      var p :| p in AddKnown(live, known) && p.peerId == id;
      if p !in live {
        var e :| e in known && p == KeyringPeer(e);
      }
    }
  }

  /** A key of the keyring can be addressed, however rows of one time are ordered, exactly when it
      is in range or fewer than 500 others were seen no earlier. */
  lemma AlwaysListedIff(live: seq<Peer>, k: Keyring, id: PeerId)
    requires DistinctKeys(live) && id in k
    ensures (forall known :: ListsRecent(known, k, ADDRESS_LIMIT) ==> Listed(AddKnown(live, known), id))
       <==> Listed(live, id) || |AsNew(k, {id})| < ADDRESS_LIMIT
  {
    forall known | ListsRecent(known, k, ADDRESS_LIMIT)
      ensures Listed(AddKnown(live, known), id) <==> Listed(live, id) || Lists(known, k, id)
      ensures |AsNew(k, {id})| < ADDRESS_LIMIT ==> Lists(known, k, id)
    {
      ListedIff(live, k, known, id);
      if !Lists(known, k, id) {
        AsNewFillTheList(known, k, ADDRESS_LIMIT, {id});
      }
    }
    if |AsNew(k, {id})| >= ADDRESS_LIMIT {
      var other: PeerId :| other != id;
      var known := FavouredIsListed(k, ADDRESS_LIMIT, other, {id});
    }
  }

  /** It cannot be, in any such order, exactly when it is not in range and at least 500 others were
      seen later. */
  lemma NeverListedIff(live: seq<Peer>, k: Keyring, id: PeerId)
    requires DistinctKeys(live) && id in k
    ensures (forall known :: ListsRecent(known, k, ADDRESS_LIMIT) ==> !Listed(AddKnown(live, known), id))
       <==> !Listed(live, id) && |Newer(k, id)| >= ADDRESS_LIMIT
  {
    forall known | ListsRecent(known, k, ADDRESS_LIMIT)
      ensures Listed(AddKnown(live, known), id) <==> Listed(live, id) || Lists(known, k, id)
      ensures |Newer(k, id)| >= ADDRESS_LIMIT ==> !Lists(known, k, id)
    {
      ListedIff(live, k, known, id);
      if Lists(known, k, id) {
        NewerAreListed(known, k, ADDRESS_LIMIT, id);
      }
    }
    var known := FavouredIsListed(k, ADDRESS_LIMIT, id, {});
  }

  /** A keyring of at most 500 keys is listed whole, so no key it holds can be overlooked. */
  lemma SmallKeyringIsListed(live: seq<Peer>, k: Keyring, known: seq<KnownPeer>, id: PeerId)
    requires DistinctKeys(live) && ListsRecent(known, k, ADDRESS_LIMIT) && |k| <= ADDRESS_LIMIT && id in k
    ensures Listed(AddKnown(live, known), id)
  {
    AddKnownExact(live, known);
    assert Lists(known, k, id);
  }

  /** Of one that holds over 500 keys that are not in range, some key is missing from every list. */
  lemma LargeKeyringIsCut(live: seq<Peer>, k: Keyring, known: seq<KnownPeer>) returns (omitted: PeerId)
    requires DistinctKeys(live) && ListsRecent(known, k, ADDRESS_LIMIT)
    requires |set id | id in k && !Listed(live, id)| > ADDRESS_LIMIT
    ensures omitted in k && !Listed(AddKnown(live, known), omitted)
  {
    var away := set id | id in k && !Listed(live, id);
    var listed := Elements(KeysOn(known));
    ListedKeys(known, k, ADDRESS_LIMIT);
    if away <= listed {
      SubsetSize(away, listed);
      assert false;
    }
    omitted :| omitted in away && omitted !in listed;
    ListedIff(live, k, known, omitted);
  }

  // ---- names held by several keys ----

  /** The keys of the keyring that hold a name and are not in range. */
  function Holders(live: seq<Peer>, k: Keyring, name: seq<byte>): set<PeerId> {
    set id | id in k && k[id].nickname == name && !Listed(live, id)
  }

  lemma BearersOfList(live: seq<Peer>, k: Keyring, known: seq<KnownPeer>, name: seq<byte>, p: Peer)
    requires DistinctKeys(live) && ListsRecent(known, k, ADDRESS_LIMIT)
    ensures p in AddKnown(live, known) && Bears(p, name)
       <==> (p in live && Bears(p, name))
            || (p.peerId in Holders(live, k, name) && Lists(known, k, p.peerId)
                && p == KeyringPeer(EntryOf(k, p.peerId)))
  {
    var all := AddKnown(live, known);
    AddKnownExact(live, known);
    if p in all && p !in live {
      var e :| e in known && p == KeyringPeer(e);
      NotLiveToo(live, all, p);
    }
    if p.peerId in Holders(live, k, name) && Lists(known, k, p.peerId) {
      var q := ListedFromKeyring(live, k, known, p.peerId);
    }
  }

  lemma NotLiveToo(live: seq<Peer>, all: seq<Peer>, p: Peer)
    requires live <= all && DistinctKeys(all) && p in all && p !in live
    ensures !Listed(live, p.peerId)
  {
    forall q | q in live ensures q in all && q.peerId != p.peerId {
      assert q in all;
    }
  }

  lemma ListedFromKeyring(live: seq<Peer>, k: Keyring, known: seq<KnownPeer>, id: PeerId) returns (q: Peer)
    requires DistinctKeys(live) && ListsRecent(known, k, ADDRESS_LIMIT) && id in k
    requires !Listed(live, id) && Lists(known, k, id)
    ensures q in AddKnown(live, known) && q == KeyringPeer(EntryOf(k, id))
  {
    ListedIff(live, k, known, id);
    q :| q in AddKnown(live, known) && q.peerId == id;
    AddKnownOnlyAdds(live, known, q);
    var e :| e in known && q == KeyringPeer(e);
    assert e == EntryOf(k, id);
  }

  /** No key that could be listed is written as this text. */
  ghost predicate NoKeyText(live: seq<Peer>, k: Keyring, needle: seq<byte>) {
    forall id :: Hex.ParseKey(needle) == Some(id) ==> !Listed(live, id) && id !in k
  }

  lemma ResolvesByName(scheme: Scheme, lower: seq<byte> -> seq<byte>, live: seq<Peer>, k: Keyring,
                       known: seq<KnownPeer>, query: seq<byte>, p: Peer)
    requires DistinctKeys(live) && ListsRecent(known, k, ADDRESS_LIMIT) && NoKeyText(live, k, lower(Trim(query)))
    ensures var all, name := AddKnown(live, known), lower(Trim(query));
            Resolve(scheme, lower, all, query) == One(p) && Bears(p, name)
            <==> p in all && Bears(p, name) && forall q :: q in all && Bears(q, name) ==> q == p
  {
    var all, name := AddKnown(live, known), lower(Trim(query));
    AddKnownDistinct(live, known);
    ResolveNeverGuesses(scheme, lower, all, query);
    forall q | q in all ensures !HasKey(q, name) {
      ListedIff(live, k, known, q.peerId);
    }
    forall q ensures p in all && Bears(p, name) ==> (Answers(scheme, all, q, name) <==> q in all && Bears(q, name)) {
    }
  }

  predicate LiveBears(live: seq<Peer>, id: PeerId, name: seq<byte>) {
    exists p :: p in live && p.peerId == id && Bears(p, name)
  }

  /** That the key alone of all that hold the name can be on the list: from the rows' times. */
  ghost predicate CanStandAlone(live: seq<Peer>, k: Keyring, name: seq<byte>, id: PeerId) {
    var others := Holders(live, k, name) - {id};
    && (LiveBears(live, id, name) || (id in Holders(live, k, name) && |Newer(k, id)| < ADDRESS_LIMIT))
    && (forall other :: LiveBears(live, other, name) ==> other == id)
    && (others != {} ==> |AsNew(k, others)| >= ADDRESS_LIMIT)
  }

  /** That a name is resolved to a key by some listing. */
  ghost predicate MayResolve(scheme: Scheme, lower: seq<byte> -> seq<byte>, live: seq<Peer>, k: Keyring,
                             query: seq<byte>, id: PeerId) {
    exists known, p: Peer :: ListsRecent(known, k, ADDRESS_LIMIT) && p.peerId == id && Bears(p, lower(Trim(query)))
                       && Resolve(scheme, lower, AddKnown(live, known), query) == One(p)
  }

  lemma ResolvedStandsAlone(scheme: Scheme, lower: seq<byte> -> seq<byte>, live: seq<Peer>, k: Keyring,
                            known: seq<KnownPeer>, query: seq<byte>, p: Peer)
    requires DistinctKeys(live) && ListsRecent(known, k, ADDRESS_LIMIT) && NoKeyText(live, k, lower(Trim(query)))
    requires Bears(p, lower(Trim(query))) && Resolve(scheme, lower, AddKnown(live, known), query) == One(p)
    ensures CanStandAlone(live, k, lower(Trim(query)), p.peerId)
  {
    var all, name, id := AddKnown(live, known), lower(Trim(query)), p.peerId;
    ResolvesByName(scheme, lower, live, k, known, query, p);
    BearersOfList(live, k, known, name, p);
    forall q: Peer | q in live && Bears(q, name) ensures q.peerId == id {
      BearersOfList(live, k, known, name, q);
    }
    var others := Holders(live, k, name) - {id};
    forall other | other in others ensures !Lists(known, k, other) {
      BearersOfList(live, k, known, name, KeyringPeer(EntryOf(k, other)));
    }
    if others != {} {
      AsNewFillTheList(known, k, ADDRESS_LIMIT, others);
    }
    if Lists(known, k, id) {
      NewerAreListed(known, k, ADDRESS_LIMIT, id);
    }
  }

  lemma OnlyBearer(live: seq<Peer>, k: Keyring, known: seq<KnownPeer>, name: seq<byte>, id: PeerId, q: Peer)
    requires DistinctKeys(live) && ListsRecent(known, k, ADDRESS_LIMIT) && CanStandAlone(live, k, name, id)
    requires forall other :: other in Holders(live, k, name) - {id} ==> !Lists(known, k, other)
    requires q in AddKnown(live, known) && Bears(q, name)
    ensures q.peerId == id
  {
    BearersOfList(live, k, known, name, q);
    assert q in live ==> LiveBears(live, q.peerId, name);
  }

  lemma OneOfEachKey(peers: seq<Peer>, p: Peer, q: Peer)
    requires DistinctKeys(peers) && p in peers && q in peers && p.peerId == q.peerId
    ensures p == q
  {
  }

  lemma StandsAloneResolves(scheme: Scheme, lower: seq<byte> -> seq<byte>, live: seq<Peer>, k: Keyring,
                            query: seq<byte>, id: PeerId)
    requires DistinctKeys(live) && NoKeyText(live, k, lower(Trim(query)))
    requires CanStandAlone(live, k, lower(Trim(query)), id)
    ensures MayResolve(scheme, lower, live, k, query, id)
  {
    var name := lower(Trim(query));
    var known := FavouredIsListed(k, ADDRESS_LIMIT, id, Holders(live, k, name) - {id});
    var p;
    if LiveBears(live, id, name) {
      p :| p in live && p.peerId == id && Bears(p, name);
    } else {
      p := KeyringPeer(EntryOf(k, id));
    }
    BearersOfList(live, k, known, name, p);
    AddKnownDistinct(live, known);
    forall q: Peer | q in AddKnown(live, known) && Bears(q, name) ensures q == p {
      OnlyBearer(live, k, known, name, id, q);
      OneOfEachKey(AddKnown(live, known), p, q);
    }
    ResolvesByName(scheme, lower, live, k, known, query, p);
  }

  /**
    A name is resolved to a key, by some order of rows of one time, exactly when that key
    can stand on the list with no other that holds the name: the others are not in range,
    and 500 keys other than those were seen no earlier than any of them.
   */
  lemma NameResolvesIff(scheme: Scheme, lower: seq<byte> -> seq<byte>, live: seq<Peer>, k: Keyring,
                        query: seq<byte>, id: PeerId)
    requires DistinctKeys(live) && NoKeyText(live, k, lower(Trim(query)))
    ensures MayResolve(scheme, lower, live, k, query, id) <==> CanStandAlone(live, k, lower(Trim(query)), id)
  {
    if MayResolve(scheme, lower, live, k, query, id) {
      var known, p: Peer :| ListsRecent(known, k, ADDRESS_LIMIT) && p.peerId == id && Bears(p, lower(Trim(query)))
                            && Resolve(scheme, lower, AddKnown(live, known), query) == One(p);
      ResolvedStandsAlone(scheme, lower, live, k, known, query, p);
    }
    if CanStandAlone(live, k, lower(Trim(query)), id) {
      StandsAloneResolves(scheme, lower, live, k, query, id);
    }
  }

  // ---- a keyring in which it happens ----

  /** A key written with a number. */
  function NumberedKey(n: u16): PeerId {
    [n / 0x100, n % 0x100] + seq(KEY_LEN - 2, _ => 0)
  }

  function NumberOf(id: PeerId): u16 {
    (id[0] as int) * 0x100 + id[1]
  }

  function KeysBelow(n: u16): set<PeerId> {
    if n == 0 then {} else KeysBelow(n - 1) + {NumberedKey(n - 1)}
  }

  lemma {:induction false} InKeysBelow(n: u16, id: PeerId)
    ensures id in KeysBelow(n) <==> NumberOf(id) < n && id == NumberedKey(NumberOf(id))
  {
    if n > 0 {
      InKeysBelow(n - 1, id);
      assert NumberOf(NumberedKey(n - 1)) == n - 1;
    }
  }

  lemma {:induction false} KeysBelowSize(n: u16)
    ensures |KeysBelow(n)| == n
  {
    if n > 0 {
      KeysBelowSize(n - 1);
      InKeysBelow(n - 1, NumberedKey(n - 1));
      assert NumberOf(NumberedKey(n - 1)) == n - 1;
    }
  }

  /** So many keys, seen one after another; the first and the last hold the name. */
  function NamesakesFarApart(n: u16, name: seq<byte>, others: seq<byte>): Keyring {
    map id | id in KeysBelow(n) ::
      KnownRow(if NumberOf(id) in {0, n - 1} then name else others, NumberOf(id), NumberOf(id), false)
  }

  lemma FarApartHolders(n: u16, name: seq<byte>, others: seq<byte>)
    requires name != others && n > 0
    ensures Holders([], NamesakesFarApart(n, name, others), name) == {NumberedKey(0), NumberedKey(n - 1)}
  {
    var k, first, last := NamesakesFarApart(n, name, others), NumberedKey(0), NumberedKey(n - 1);
    assert NumberOf(first) == 0 && NumberOf(last) == n - 1;
    forall id: PeerId ensures id in Holders([], k, name) <==> id in {first, last} {
      InKeysBelow(n, id);
    }
  }

  lemma FarApartOldest(n: u16, name: seq<byte>, others: seq<byte>)
    requires n > 0
    ensures var k := NamesakesFarApart(n, name, others);
            NumberedKey(0) in k && |Newer(k, NumberedKey(0))| == n - 1
  {
    var k, oldest := NamesakesFarApart(n, name, others), NumberedKey(0);
    KeysBelowSize(n);
    assert NumberOf(oldest) == 0;
    forall id: PeerId ensures id in KeysBelow(n) <==> NumberOf(id) < n && id == NumberedKey(NumberOf(id)) {
      InKeysBelow(n, id);
    }
    assert Newer(k, oldest) == KeysBelow(n) - {oldest};
  }

  lemma FarApartNewest(n: u16, name: seq<byte>, others: seq<byte>)
    requires n > 0
    ensures var k := NamesakesFarApart(n, name, others);
            NumberedKey(n - 1) in k && AsNew(k, {NumberedKey(n - 1)}) == {}
  {
    var k, newest := NamesakesFarApart(n, name, others), NumberedKey(n - 1);
    assert NumberOf(newest) == n - 1;
    InKeysBelow(n, newest);
    forall id: PeerId ensures id !in AsNew(k, {newest}) {
      InKeysBelow(n, id);
    }
  }

  lemma OnlyNewestBears(k: Keyring, known: seq<KnownPeer>, name: seq<byte>, older: PeerId, newest: PeerId, q: Peer)
    requires ListsRecent(known, k, ADDRESS_LIMIT) && older in k && newest in k
    requires Holders([], k, name) == {older, newest} && !Lists(known, k, older)
    requires q in AddKnown([], known) && Bears(q, name)
    ensures q == KeyringPeer(EntryOf(k, newest))
  {
    BearersOfList([], k, known, name, q);
    assert q.peerId in {older, newest};
  }

  lemma NewestResolves(scheme: Scheme, lower: seq<byte> -> seq<byte>, k: Keyring, known: seq<KnownPeer>,
                       query: seq<byte>, older: PeerId, newest: PeerId)
    requires ListsRecent(known, k, ADDRESS_LIMIT) && NoKeyText([], k, lower(Trim(query)))
    requires Holders([], k, lower(Trim(query))) == {older, newest} && older in k && newest in k
    requires |Newer(k, older)| >= ADDRESS_LIMIT && |AsNew(k, {newest})| < ADDRESS_LIMIT
    ensures Resolve(scheme, lower, AddKnown([], known), query) == One(KeyringPeer(EntryOf(k, newest)))
  {
    var name, p := lower(Trim(query)), KeyringPeer(EntryOf(k, newest));
    if Lists(known, k, older) {
      NewerAreListed(known, k, ADDRESS_LIMIT, older);
    }
    if !Lists(known, k, newest) {
      AsNewFillTheList(known, k, ADDRESS_LIMIT, {newest});
    }
    BearersOfList([], k, known, name, p);
    forall q: Peer | q in AddKnown([], known) && Bears(q, name) ensures q == p {
      OnlyNewestBears(k, known, name, older, newest, q);
    }
    ResolvesByName(scheme, lower, [], k, known, query, p);
  }

  /** In a keyring of any size over 500: a name that two of its keys hold, and that always
      resolves, to the one seen later. */
  lemma SharedNameResolves(scheme: Scheme, lower: seq<byte> -> seq<byte>, n: u16, query: seq<byte>,
                           others: seq<byte>, known: seq<KnownPeer>)
    requires n > ADDRESS_LIMIT && lower(Trim(query)) != others && Hex.ParseKey(lower(Trim(query))) == None
    requires ListsRecent(known, NamesakesFarApart(n, lower(Trim(query)), others), ADDRESS_LIMIT)
    ensures var k, last := NamesakesFarApart(n, lower(Trim(query)), others), NumberedKey(n - 1);
            && |k| == n && Holders([], k, lower(Trim(query))) == {NumberedKey(0), last}
            && NumberedKey(0) != last && last in k
            && Resolve(scheme, lower, AddKnown([], known), query) == One(KeyringPeer(EntryOf(k, last)))
  {
    var name := lower(Trim(query));
    var k := NamesakesFarApart(n, name, others);
    KeysBelowSize(n);
    assert k.Keys == KeysBelow(n);
    assert NumberOf(NumberedKey(n - 1)) == n - 1 && NumberOf(NumberedKey(0)) == 0;
    FarApartHolders(n, name, others);
    FarApartOldest(n, name, others);
    FarApartNewest(n, name, others);
    NewestResolves(scheme, lower, k, known, query, NumberedKey(0), NumberedKey(n - 1));
  }
}

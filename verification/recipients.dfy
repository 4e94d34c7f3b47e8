/** What a typed recipient means (crates/intraweb-cli/src/mail.rs:38-78, 165-254). */
module Recipients {
  import opened Wrappers
  import opened Bytes
  import opened Identity
  import opened Peers
  import opened Sorting
  import opened Store
  import opened Text
  import Hex
  import Presence
  import Utf8

  datatype Recipient = One(peer: Peer) | Unknown | Ambiguous(peers: seq<Peer>)

  predicate HasKey(p: Peer, needle: seq<byte>) {
    Hex.ParseKey(needle) == Some(p.peerId)
  }

  predicate Bears(p: Peer, needle: seq<byte>) {
    p.nickname == needle
  }

  /** The fingerprint starts with what was typed, hyphens aside, and that is at least four digits. */
  predicate Prefixes(scheme: Scheme, p: Peer, needle: seq<byte>) {
    var bare := WithoutHyphens(needle);
    |bare| >= 4 && bare <= WithoutHyphens(scheme.Fingerprint(p.peerId))
  }

  function Pick(matches: seq<Peer>): Recipient
    requires matches != []
  {
    if |matches| == 1 then One(matches[0]) else Ambiguous(matches)
  }

  /** `lower` is `to_lowercase`, of which only its effect on ASCII is ever used. */
  ghost predicate LowersAscii(lower: seq<byte> -> seq<byte>) {
    forall s {:trigger lower(s)} :: Plain(s) ==> lower(s) == Lower(s)
  }

  function Resolve(scheme: Scheme, lower: seq<byte> -> seq<byte>, peers: seq<Peer>, query: seq<byte>): Recipient {
    var needle := lower(Trim(query));
    var byKey := Filter(p => HasKey(p, needle), peers);
    var byNickname := Filter(p => Bears(p, needle), peers);
    var byFingerprint := Filter(p => Prefixes(scheme, p, needle), peers);
    if byKey != [] then One(byKey[0])
    else if byNickname != [] then Pick(byNickname)
    else if byFingerprint != [] then Pick(byFingerprint)
    else Unknown
  }

  ghost predicate DistinctKeys(peers: seq<Peer>) {
    forall i, j :: 0 <= i < j < |peers| ==> peers[i].peerId != peers[j].peerId
  }

  /** The rule that decides: a full key, else a nickname, else a fingerprint. */
  ghost predicate Answers(scheme: Scheme, peers: seq<Peer>, p: Peer, needle: seq<byte>) {
    p in peers &&
    if exists q :: q in peers && HasKey(q, needle) then HasKey(p, needle)
    else if exists q :: q in peers && Bears(q, needle) then Bears(p, needle)
    else Prefixes(scheme, p, needle)
  }

  /** What it is to answer: by the digits of the key, by the name, or by the start of the fingerprint's
      sixteen digits, of which at least four must be given. */
  lemma AnswersIff(scheme: Scheme, p: Peer, needle: seq<byte>)
    ensures HasKey(p, needle) <==> Lower(needle) == Hex.Encoded(p.peerId)
    ensures Bears(p, needle) <==> p.nickname == needle
    ensures var bare := Filter((c: byte) => c != 0x2D, needle);
            Prefixes(scheme, p, needle) <==> 4 <= |bare| && bare <= Hex.Encoded(scheme.digest(p.peerId)[..8])
  {
    Hex.DecodesIffEncodes(needle, p.peerId);
    Hex.EncodedShape(p.peerId);
    WithoutHyphensExact(needle);
    HyphenatedIsHex(scheme.digest(p.peerId)[..8], 0);
  }

  lemma {:induction false} FilterDistinct(keep: Peer -> bool, peers: seq<Peer>)
    requires DistinctKeys(peers)
    ensures DistinctKeys(Filter(keep, peers))
  {
    if peers != [] {
      FilterDistinct(keep, peers[1..]);
      var rest := Filter(keep, peers[1..]);
      assert forall i :: 0 <= i < |rest| ==> rest[i] in peers[1..];
    }
  }

  lemma PickExact(matches: seq<Peer>)
    requires matches != [] && DistinctKeys(matches)
    ensures forall p :: Pick(matches) == One(p) <==> p in matches && forall q :: q in matches ==> q == p
    ensures Pick(matches).Ambiguous? ==> Pick(matches).peers == matches && |matches| >= 2
  {
    if |matches| > 1 {
      assert matches[0] in matches && matches[1] in matches && matches[0] != matches[1];
    }
  }

  lemma {:induction false} OneKeyMatch(peers: seq<Peer>, needle: seq<byte>)
    requires DistinctKeys(peers)
    ensures |Filter(p => HasKey(p, needle), peers)| <= 1
  {
    if peers != [] {
      OneKeyMatch(peers[1..], needle);
      if HasKey(peers[0], needle) {
        FilterNone(p => HasKey(p, needle), peers[1..]);
      }
    }
  }

  /** Everybody a query could mean, in the order of the list. */
  function Answering(scheme: Scheme, peers: seq<Peer>, needle: seq<byte>): seq<Peer> {
    var byKey := Filter(p => HasKey(p, needle), peers);
    var byNickname := Filter(p => Bears(p, needle), peers);
    if byKey != [] then byKey
    else if byNickname != [] then byNickname
    else Filter(p => Prefixes(scheme, p, needle), peers)
  }

  lemma AnsweringIsExact(scheme: Scheme, peers: seq<Peer>, needle: seq<byte>)
    ensures forall p :: p in Answering(scheme, peers, needle) <==> Answers(scheme, peers, p, needle)
  {
    var byKey := Filter(p => HasKey(p, needle), peers);
    var byNickname := Filter(p => Bears(p, needle), peers);
    assert byKey != [] <==> exists q :: q in peers && HasKey(q, needle) by {
      if byKey != [] { assert byKey[0] in byKey; }
    }
    assert byNickname != [] <==> exists q :: q in peers && Bears(q, needle) by {
      if byNickname != [] { assert byNickname[0] in byNickname; }
    }
  }

  /** One key is returned only if nobody else answers; otherwise all who answer are shown, at least two. */
  lemma ResolveNeverGuesses(scheme: Scheme, lower: seq<byte> -> seq<byte>, peers: seq<Peer>, query: seq<byte>)
    requires DistinctKeys(peers)
    ensures var needle, r := lower(Trim(query)), Resolve(scheme, lower, peers, query);
            && (forall p :: r == One(p) <==> Answers(scheme, peers, p, needle)
                                             && forall q :: Answers(scheme, peers, q, needle) ==> q == p)
            && (r == Unknown <==> forall p :: !Answers(scheme, peers, p, needle))
            && (r.Ambiguous? ==> |r.peers| >= 2 && DistinctKeys(r.peers)
                                 && forall p :: p in r.peers <==> Answers(scheme, peers, p, needle))
  {
    var needle := lower(Trim(query));
    var all := Answering(scheme, peers, needle);
    AnsweringIsExact(scheme, peers, needle);
    OneKeyMatch(peers, needle);
    FilterDistinct(p => HasKey(p, needle), peers);
    FilterDistinct(p => Bears(p, needle), peers);
    FilterDistinct(p => Prefixes(scheme, p, needle), peers);
    if all != [] {
      PickExact(all);
      assert all[0] in all;
    }
  }

  // ---- who can be addressed ----

  function KeyringPeer(e: KnownPeer): Peer {
    Peer(e.peerId, e.nickname, [], 0, false, None, Mdns, if e.verified then Verified else Known, 0, 0)
  }

  predicate Listed(peers: seq<Peer>, id: PeerId) {
    exists p :: p in peers && p.peerId == id
  }

  function AddOne(peers: seq<Peer>, e: KnownPeer): seq<Peer> {
    if Listed(peers, e.peerId) then peers else peers + [KeyringPeer(e)]
  }

  function AddKnown(peers: seq<Peer>, known: seq<KnownPeer>): seq<Peer>
    decreases |known|
  {
    if known == [] then peers else AddKnown(AddOne(peers, known[0]), known[1..])
  }

  method Addressable(live: seq<Peer>, store: Store) returns (peers: seq<Peer>)
    ensures exists known :: ListsRecent(known, store.known, 500) && peers == AddKnown(live, known)
  {
    peers := live;
    var known := store.KnownPeers(500);
    for i := 0 to |known|
      invariant AddKnown(peers, known[i..]) == AddKnown(live, known)
    {
      assert known[i..][1..] == known[i + 1..];
      if Listed(peers, known[i].peerId) {
        continue;
      }
      peers := peers + [KeyringPeer(known[i])];
    }
    assert known[|known|..] == [];
  }

  /** Somebody known from the keyring only: no address, and the trust the operator gave. */
  lemma KeyringPeerExact(k: Keyring, id: PeerId)
    requires id in k
    ensures KeyringPeer(EntryOf(k, id))
         == Peer(id, k[id].nickname, [], 0, false, None, Mdns, if k[id].verified then Verified else Known, 0, 0)
  {
  }

  lemma AddOneExact(peers: seq<Peer>, e: KnownPeer)
    requires DistinctKeys(peers)
    ensures peers <= AddOne(peers, e) && DistinctKeys(AddOne(peers, e)) && Listed(AddOne(peers, e), e.peerId)
    ensures forall p :: p in AddOne(peers, e) ==> p in peers || p == KeyringPeer(e)
  {
    if !Listed(peers, e.peerId) {
      assert KeyringPeer(e) in AddOne(peers, e);
      assert forall i :: 0 <= i < |peers| ==> peers[i] in peers;
    }
  }

  lemma ListedStays(peers: seq<Peer>, more: seq<Peer>, id: PeerId)
    requires peers <= more && Listed(peers, id)
    ensures Listed(more, id)
  {
  }

  lemma {:induction false} AddKnownDistinct(peers: seq<Peer>, known: seq<KnownPeer>)
    requires DistinctKeys(peers)
    ensures peers <= AddKnown(peers, known) && DistinctKeys(AddKnown(peers, known))
    decreases |known|
  {
    if known != [] {
      AddOneExact(peers, known[0]);
      AddKnownDistinct(AddOne(peers, known[0]), known[1..]);
    }
  }

  lemma {:induction false} AddKnownLists(peers: seq<Peer>, known: seq<KnownPeer>, i: nat)
    requires DistinctKeys(peers) && i < |known|
    ensures Listed(AddKnown(peers, known), known[i].peerId)
    decreases |known|
  {
    if i == 0 {
      FirstIsListed(peers, known);
    } else {
      var rest := known[1..];
      AddOneExact(peers, known[0]);
      assert rest[i - 1] == known[i];
      AddKnownLists(AddOne(peers, known[0]), rest, i - 1);
    }
  }

  lemma FirstIsListed(peers: seq<Peer>, known: seq<KnownPeer>)
    requires DistinctKeys(peers) && known != []
    ensures Listed(AddKnown(peers, known), known[0].peerId)
  {
    var next := AddOne(peers, known[0]);
    AddOneExact(peers, known[0]);
    AddKnownDistinct(next, known[1..]);
    ListedStays(next, AddKnown(peers, known), known[0].peerId);
  }

  lemma {:induction false} AddKnownOnlyAdds(peers: seq<Peer>, known: seq<KnownPeer>, p: Peer)
    requires DistinctKeys(peers) && p in AddKnown(peers, known)
    ensures p in peers || exists e :: e in known && p == KeyringPeer(e)
    decreases |known|
  {
    if known != [] {
      AddOneExact(peers, known[0]);
      AddKnownOnlyAdds(AddOne(peers, known[0]), known[1..], p);
      assert known[0] in known && forall e :: e in known[1..] ==> e in known;
    }
  }

  /** Live peers come first and unchanged; a key is listed once; every key offered is listed, and no other. */
  lemma AddKnownExact(peers: seq<Peer>, known: seq<KnownPeer>)
    requires DistinctKeys(peers)
    ensures peers <= AddKnown(peers, known) && DistinctKeys(AddKnown(peers, known))
    ensures forall i :: 0 <= i < |known| ==> Listed(AddKnown(peers, known), known[i].peerId)
    ensures forall p :: p in AddKnown(peers, known) ==> p in peers || exists e :: e in known && p == KeyringPeer(e)
  {
    AddKnownDistinct(peers, known);
    forall i | 0 <= i < |known| ensures Listed(AddKnown(peers, known), known[i].peerId) {
      AddKnownLists(peers, known, i);
    }
    forall p | p in AddKnown(peers, known) ensures p in peers || exists e :: e in known && p == KeyringPeer(e) {
      AddKnownOnlyAdds(peers, known, p);
    }
  }

  /** A nickname two keys bear on that list is never resolved to either. */
  lemma SharedNameNeverResolves(scheme: Scheme, lower: seq<byte> -> seq<byte>, live: seq<Peer>,
                                known: seq<KnownPeer>, p: Peer, q: Peer, query: seq<byte>)
    requires DistinctKeys(live)
    requires var all, needle := AddKnown(live, known), lower(Trim(query));
             p in all && q in all && p != q && Bears(p, needle) && Bears(q, needle)
             && !exists r :: r in all && HasKey(r, needle)
    ensures var r := Resolve(scheme, lower, AddKnown(live, known), query);
            r.Ambiguous? && p in r.peers && q in r.peers
  {
    var all, needle := AddKnown(live, known), lower(Trim(query));
    AddKnownExact(live, known);
    ResolveNeverGuesses(scheme, lower, all, query);
    assert Answers(scheme, all, p, needle) && Answers(scheme, all, q, needle);
  }

  // ---- a key from paper ----

  /** `resolve_or_explain`: a full key needs nobody to know it. None stands for the explanation. */
  function ResolveOrKey(scheme: Scheme, lower: seq<byte> -> seq<byte>, peers: seq<Peer>, query: seq<byte>)
    : Option<Peer>
  {
    match Resolve(scheme, lower, peers, query)
    case One(p) => Some(p)
    case Ambiguous(_) => None
    case Unknown =>
      match Hex.ParseKey(Trim(query))
      case None => None
      case Some(id) => Some(Peer(id, scheme.Fingerprint(id), [], 0, false, None, Mdns, New, 0, 0))
  }

  /** A key from paper that nobody listed answers to: no address, no trust yet, and its fingerprint for a name. */
  lemma PaperKeyExact(scheme: Scheme, lower: seq<byte> -> seq<byte>, peers: seq<Peer>, query: seq<byte>, id: PeerId)
    requires Hex.ParseKey(Trim(query)) == Some(id) && Resolve(scheme, lower, peers, query) == Unknown
    ensures ResolveOrKey(scheme, lower, peers, query)
         == Some(Peer(id, scheme.Fingerprint(id), [], 0, false, None, Mdns, New, 0, 0))
  {
  }

  /** With several who answer there is no answer, and with one it is that one. */
  lemma OthersAreExplained(scheme: Scheme, lower: seq<byte> -> seq<byte>, peers: seq<Peer>, query: seq<byte>)
    ensures Resolve(scheme, lower, peers, query).Ambiguous? ==> ResolveOrKey(scheme, lower, peers, query) == None
    ensures forall p :: Resolve(scheme, lower, peers, query) == One(p) ==>
              ResolveOrKey(scheme, lower, peers, query) == Some(p)
    ensures Resolve(scheme, lower, peers, query).Unknown? && Hex.ParseKey(Trim(query)) == None ==>
              ResolveOrKey(scheme, lower, peers, query) == None
  {
  }

  lemma ParseKeyIgnoresCase(s: seq<byte>)
    ensures Hex.ParseKey(Lower(s)) == Hex.ParseKey(s)
  {
    assert Lower(Lower(s)) == Lower(s);
    if Hex.Decoded(s).Some? {
      Hex.DecodesIffEncodes(s, Hex.Decoded(s).value);
      Hex.DecodesIffEncodes(Lower(s), Hex.Decoded(s).value);
    }
    if Hex.Decoded(Lower(s)).Some? {
      Hex.DecodesIffEncodes(s, Hex.Decoded(Lower(s)).value);
      Hex.DecodesIffEncodes(Lower(s), Hex.Decoded(Lower(s)).value);
    }
  }

  /** A full key always reaches that key, except that for a key not on the list a peer
      whose nickname is that very text is taken instead. */
  lemma KeyReachesItsOwner(scheme: Scheme, lower: seq<byte> -> seq<byte>, peers: seq<Peer>,
                           query: seq<byte>, id: PeerId)
    requires LowersAscii(lower) && DistinctKeys(peers) && Hex.ParseKey(Trim(query)) == Some(id)
    ensures var r := ResolveOrKey(scheme, lower, peers, query);
            r.Some? && r.value.peerId == id
            <==> Listed(peers, id) || !exists p :: p in peers && Bears(p, lower(Trim(query)))
  {
    var needle := lower(Trim(query));
    ParseKeyIgnoresCase(Trim(query));
    KeyTextIsPlain(Trim(query), id);
    ResolveNeverGuesses(scheme, lower, peers, query);
    assert forall p :: HasKey(p, needle) <==> p.peerId == id;
    KeyIsNoFingerprint(scheme, needle, id);
  }

  lemma KeyTextIsPlain(s: seq<byte>, id: PeerId)
    requires Hex.ParseKey(s) == Some(id)
    ensures Plain(s) && Lower(s) == Hex.Encoded(id)
  {
    Hex.DecodesIffEncodes(s, id);
    Hex.EncodedShape(id);
    assert forall i :: 0 <= i < |s| ==> LowerByte(s[i]) == Hex.Encoded(id)[i];
  }

  /** A full key is longer than any fingerprint, so it is never taken for the start of one. */
  lemma KeyIsNoFingerprint(scheme: Scheme, needle: seq<byte>, id: PeerId)
    requires Hex.ParseKey(needle) == Some(id)
    ensures forall p :: !Prefixes(scheme, p, needle)
  {
    Hex.DecodesIffEncodes(needle, id);
    Hex.EncodedShape(id);
    assert |needle| == |Lower(needle)| == 64;
    NoHyphensInHex(needle);
    forall p: Peer ensures !Prefixes(scheme, p, needle) {
      HyphenatedIsHex(scheme.digest(p.peerId)[..FINGERPRINT_BYTES], 0);
      Hex.EncodedShape(scheme.digest(p.peerId)[..FINGERPRINT_BYTES]);
    }
  }

  lemma {:induction false} NoHyphensInHex(s: seq<byte>)
    requires Hex.Decoded(s).Some?
    ensures WithoutHyphens(s) == s
  {
    if s != [] {
      NoHyphensInHex(s[2..]);
      assert s[1..][1..] == s[2..];
      assert WithoutHyphens(s[1..]) == [s[1]] + s[2..] == s[1..];
    }
  }

  /** Such a nickname can arrive: a beacon may carry any separator-free text, and so the digits of another key. */
  lemma KeyTextArrivesAsNickname(scheme: Scheme, sk: Secret, p: Presence.Record, other: PeerId, now: nat)
    requires scheme.Sound() && p.peerId == scheme.publicKey(sk) && p.nickname == Hex.Encoded(other)
    requires p.version == Presence.PROTOCOL_VERSION && Presence.AbsDiff(now, p.timestamp) <= 300
    requires SeparatorFree(p.hubName) && Utf8.Valid(p.hubName) && |p.hubName| <= 700
    ensures var signature := scheme.signer(sk, Presence.SigningBytes(p));
            var sent := Presence.Beacon(p, signature);
            sent.Ok? && Presence.FromBeacon(sent.value) == Ok((p, signature))
            && Presence.Verify(scheme, p, signature, now).Ok?
  {
    var signature := scheme.signer(sk, Presence.SigningBytes(p));
    Hex.EncodedShape(other);
    Utf8.ValidAscii(p.nickname);
    Presence.LengthByNames(p);
    Presence.DatagramParts(p, signature);
    Presence.BeaconBijection(Presence.Datagram(p, signature), p, signature);
  }

  /** Once listed, and while the other key is not, its bearer is who that key reaches. */
  lemma KeyTextReachesItsBearer(scheme: Scheme, lower: seq<byte> -> seq<byte>, peers: seq<Peer>,
                                query: seq<byte>, other: PeerId, q: Peer)
    requires LowersAscii(lower) && DistinctKeys(peers) && Hex.ParseKey(Trim(query)) == Some(other)
    requires !Listed(peers, other) && q in peers && q.nickname == Hex.Encoded(other)
    requires forall p :: p in peers && p.nickname == Hex.Encoded(other) ==> p == q
    ensures ResolveOrKey(scheme, lower, peers, query) == Some(q)
  {
    ParseKeyIgnoresCase(Trim(query));
    KeyTextIsPlain(Trim(query), other);
    ResolveNeverGuesses(scheme, lower, peers, query);
    assert Answers(scheme, peers, q, Hex.Encoded(other));
  }
}

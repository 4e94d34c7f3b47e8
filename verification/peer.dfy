/** Peers as seen on the network (crates/intraweb-core/src/peer.rs). */
module Peers {
  import opened Wrappers
  import opened Bytes

  datatype Addr = V4(bits: nat) | V6(bits: nat)

  datatype DiscoverySource = Mdns | Beacon | Both {
    function Merge(other: DiscoverySource): DiscoverySource {
      if this == other then this else Both
    }
  }

  datatype TrustState = New | Known | Verified | NicknameConflict

  /** The fingerprint the program stores with a peer is always that of its key, so it is left out here. */
  datatype Peer = Peer(
    peerId: PeerId,
    nickname: seq<byte>,
    addrs: seq<Addr>,
    apiPort: u16,
    isHub: bool,
    hubName: Option<seq<byte>>,
    source: DiscoverySource,
    trust: TrustState,
    firstSeen: nat,
    lastSeen: nat)
  {
    predicate IsStale(now: nat, timeout: nat) {
      SaturatingSub(now, lastSeen) > timeout
    }

    function PreferredAddr(): Option<Addr> {
      Preferred(addrs)
    }
  }

  /** The first IPv4 address of a list, else its first. */
  function Preferred(addrs: seq<Addr>): Option<Addr> {
    match FirstV4(addrs)
    case Some(a) => Some(a)
    case None => if addrs == [] then None else Some(addrs[0])
  }

  function FirstV4(addrs: seq<Addr>): Option<Addr> {
    if addrs == [] then None
    else if addrs[0].V4? then Some(addrs[0])
    else FirstV4(addrs[1..])
  }

  function SaturatingSub(a: nat, b: nat): nat {
    if a >= b then a - b else 0
  }

  /** There is an address to dial whenever there is any, and it is an IPv4 one if there is one. */
  lemma {:induction false} FirstV4Exact(addrs: seq<Addr>)
    ensures match FirstV4(addrs)
            case Some(a) => a in addrs && a.V4?
            case None => forall a :: a in addrs ==> a.V6?
  {
    if addrs != [] && addrs[0].V6? {
      FirstV4Exact(addrs[1..]);
      assert addrs == [addrs[0]] + addrs[1..];
    }
  }

  lemma PreferredAddrExact(p: Peer)
    ensures p.PreferredAddr().Some? <==> p.addrs != []
    ensures p.PreferredAddr().Some? ==>
              p.PreferredAddr().value in p.addrs
              && (p.PreferredAddr().value.V4? <==> exists a :: a in p.addrs && a.V4?)
  {
    FirstV4Exact(p.addrs);
  }

  /** The address dialled: the first of IPv4, else the first of all. */
  lemma {:induction false} PreferredIsFirst(addrs: seq<Addr>)
    ensures forall i :: 0 <= i < |addrs| && addrs[i].V4? && (forall j :: 0 <= j < i ==> addrs[j].V6?) ==>
              Preferred(addrs) == Some(addrs[i])
    ensures addrs != [] && (forall j :: 0 <= j < |addrs| ==> addrs[j].V6?) ==> Preferred(addrs) == Some(addrs[0])
    ensures addrs == [] ==> Preferred(addrs) == None
  {
    if addrs != [] && addrs[0].V6? {
      var rest := addrs[1..];
      PreferredIsFirst(rest);
      FirstV4Exact(addrs);
      forall i | 0 <= i < |addrs| && addrs[i].V4? && (forall j :: 0 <= j < i ==> addrs[j].V6?)
        ensures Preferred(addrs) == Some(addrs[i])
      {
        assert rest[i - 1] == addrs[i] && forall j :: 0 <= j < i - 1 ==> rest[j] == addrs[j + 1];
        FirstV4Exact(rest);
        assert rest[i - 1] in rest;
      }
    }
  }

  /** Stale is who was last seen more than the timeout ago. */
  lemma StaleIff(p: Peer, now: nat, timeout: nat)
    ensures p.IsStale(now, timeout) <==> p.lastSeen + timeout < now
  {
  }
}

/** One pass over the outbox (crates/intraweb-cli/src/mail.rs:99-163). */
module Outbox {
  import opened Wrappers
  import opened Bytes
  import opened Identity
  import opened Peers
  import opened Sorting
  import opened Store
  import Letter

  /** The mail a stored row stands for, on the node whose key is `me`. */
  function LetterOf(row: Row, me: PeerId): Letter.Mail
  {
    if row.direction == Out then Letter.New(me, row.peer, row.subject, row.body, FromI64(row.createdAt))
    else Letter.New(row.peer, me, row.subject, row.body, FromI64(row.createdAt))
  }

  function FindPeer(peers: seq<Peer>, id: PeerId): Option<Peer> {
    if peers == [] then None
    else if peers[0].peerId == id then Some(peers[0])
    else FindPeer(peers[1..], id)
  }

  /** The first peer of that key, whenever there is one. */
  lemma {:induction false} FindPeerExact(peers: seq<Peer>, id: PeerId)
    ensures FindPeer(peers, id).Some? <==> exists i :: 0 <= i < |peers| && peers[i].peerId == id
    ensures FindPeer(peers, id).Some? ==>
              exists i :: 0 <= i < |peers| && peers[i].peerId == id && FindPeer(peers, id).value == peers[i]
                          && forall j :: 0 <= j < i ==> peers[j].peerId != id
  {
    if peers != [] && peers[0].peerId != id {
      FindPeerExact(peers[1..], id);
      if FindPeer(peers, id).Some? {
        var k :| 0 <= k < |peers[1..]| && peers[1..][k].peerId == id && FindPeer(peers[1..], id).value == peers[1..][k]
                 && forall j :: 0 <= j < k ==> peers[1..][j].peerId != id;
        assert forall j :: 1 <= j < k + 1 ==> peers[j] == peers[1..][j - 1];
        assert peers[k + 1].peerId == id;
      } else {
        assert forall j :: 1 <= j < |peers| ==> peers[j] == peers[1..][j - 1];
      }
    }
  }

  /** One pass: who is in range, whose outbox it is, and for the exchange about each row, by the
      row's id, whether it is answered with success and what time it is then. */
  datatype Pass = Pass(peers: seq<Peer>, scheme: Scheme, sk: Secret, answers: nat -> bool, clock: nat -> nat) {
    /** Whether the pass delivers this row: it waits in the outbox, and gets through. */
    predicate Delivers(row: Row) {
      row.direction == Out && row.deliveredAt == None && GetsThrough(row)
    }

    /** Its recipient is in range with an address, the letter is within limits, and the node at
        that address answers. */
    predicate GetsThrough(row: Row) {
      InRange(row.peer) && |row.subject| <= 200 && |row.body| <= 65536 && answers(row.id)
    }

    /** The first peer listed under that key has an address. */
    predicate InRange(id: PeerId) {
      exists i :: 0 <= i < |peers| && peers[i].peerId == id && peers[i].addrs != []
                  && forall j :: 0 <= j < i ==> peers[j].peerId != id
    }

    ghost function Ids(rows: seq<Row>): set<nat> {
      set r | r in rows && Delivers(r) :: r.id
    }
  }

  lemma PendingDistinct(rows: seq<Row>, nextId: nat)
    requires ValidTable(rows, nextId)
    ensures forall i, j :: 0 <= i < j < |Pending(rows)| ==> Pending(rows)[i].id != Pending(rows)[j].id
  {
    PendingIsExact(rows);
    FilterNoRepeats(IsPending, rows);
    SortPermutes(OlderFirst, Filter(IsPending, rows));
    PermutationNoRepeats(Filter(IsPending, rows), Pending(rows));
    forall i, j | 0 <= i < j < |Pending(rows)| ensures Pending(rows)[i].id != Pending(rows)[j].id {
      assert Pending(rows)[i] in rows && Pending(rows)[j] in rows;
    }
  }

  /** The ids of the rows a pass took from waiting to delivered. */
  function NewlyDelivered(before: seq<Row>, after: seq<Row>): set<nat> {
    set i | 0 <= i < |before| && i < |after| && before[i].deliveredAt.None? && after[i].deliveredAt.Some?
      :: before[i].id
  }

  /** Trying row `i` extends what the pass got through by that row, or by nothing. */
  lemma OneMoreRow(p: Pass, pending: seq<Row>, i: nat)
    requires i < |pending| && forall j, k :: 0 <= j < k < |pending| ==> pending[j].id != pending[k].id
    ensures var done, id := p.Ids(pending[..i]), pending[i].id;
            if p.Delivers(pending[i])
            then p.Ids(pending[..i + 1]) == done + {id} && id !in done
            else p.Ids(pending[..i + 1]) == done
  {
    assert pending[..i + 1] == pending[..i] + [pending[i]];
    if p.Delivers(pending[i]) {
      assert p.Ids(pending[..i + 1]) == p.Ids(pending[..i]) + {pending[i].id};
    } else {
      assert p.Ids(pending[..i + 1]) == p.Ids(pending[..i]);
    }
  }

  /** One row's turn in the pass: find its recipient, seal it, hand it over. */
  method TryRow(p: Pass, queued: Row) returns (ok: bool)
    ensures ok == p.GetsThrough(queued)
  {
    FindPeerExact(p.peers, queued.peer);
    var peer := FindPeer(p.peers, queued.peer);
    if peer.None? {
      return false;
    }
    var sealed := Letter.Seal(p.scheme, LetterOf(queued, p.scheme.publicKey(p.sk)), p.sk);
    if sealed.Err? {
      return false;
    }
    return peer.value.PreferredAddr().Some? && p.answers(queued.id);
  }

  /** On a roster, which lists no key twice, whoever is listed with an address is in range. */
  lemma InRangeIff(p: Pass, id: PeerId)
    requires forall i, j :: 0 <= i < j < |p.peers| ==> p.peers[i].peerId != p.peers[j].peerId
    ensures p.InRange(id) <==> exists q :: q in p.peers && q.peerId == id && q.addrs != []
  {
    forall q | q in p.peers && q.peerId == id && q.addrs != [] ensures p.InRange(id) {
      var i :| 0 <= i < |p.peers| && p.peers[i] == q;
    }
  }

  /** What a pass changes: exactly the rows it delivers, in one field; and what it counts. */
  ghost predicate PassedOver(before: seq<Row>, after: seq<Row>, p: Pass, delivered: nat) {
    && |after| == |before|
    && (forall i :: 0 <= i < |before| ==>
          var row := before[i];
          after[i] == if p.Delivers(row) then row.(deliveredAt := Some(p.clock(row.id))) else row)
    && delivered == |NewlyDelivered(before, after)|
  }

  // ---- the same while other tasks use the store ----

  datatype Table = Table(rows: seq<Row>, nextId: nat)

  /** What another task may do to the mail table while it holds the store. */
  datatype Change =
    | Queue(mail: Letter.Mail) | Receive(sealed: Letter.SignedMail, now: nat) | ReadAll(now: nat)
    | Deliver(id: nat, now: nat)

  function Changed(t: Table, c: Change): Table {
    match c
    case Queue(m) => if Letter.CheckLimits(m).Ok? then Table(t.rows + [OutRow(t.nextId, m)], t.nextId + 1) else t
    case Receive(sealed, now) =>
      Table(Filed(t.rows, t.nextId, sealed, now), t.nextId + if AlreadyHeld(t.rows, sealed.signature) then 0 else 1)
    case ReadAll(now) => t.(rows := AllRead(t.rows, now))
    case Deliver(id, now) => t.(rows := Delivered(t.rows, id, now))
  }

  function AllChanged(t: Table, changes: seq<Change>): Table
    decreases |changes|
  {
    if changes == [] then t else AllChanged(Changed(t, changes[0]), changes[1..])
  }

  /** Everything other tasks did up to the pass's turn for row `n`. */
  function Meanwhile(others: nat -> seq<Change>, n: nat): seq<Change> {
    if n == 0 then [] else Meanwhile(others, n - 1) + others(n - 1)
  }

  predicate AlsoDelivers(changes: seq<Change>, id: nat) {
    exists c :: c in changes && c.Deliver? && c.id == id
  }

  /**
    The table as other tasks would have left it alone, and with a pass beside them: the pass
    took nothing from their work and added no more than its stamps.
   */
  ghost predicate Beside(alone: Table, shared: Table, ids: set<nat>, changes: seq<Change>, clock: nat -> nat) {
    && shared.nextId == alone.nextId && |shared.rows| == |alone.rows|
    && (forall id :: id in ids ==> id < alone.nextId)
    && (forall k :: 0 <= k < |alone.rows| ==>
          && shared.rows[k] == alone.rows[k].(deliveredAt := shared.rows[k].deliveredAt)
          && (alone.rows[k].id !in ids ==> shared.rows[k] == alone.rows[k])
          && (alone.rows[k].id in ids ==> StampedBy(shared.rows[k], changes, clock)))
  }

  /** Delivered, and at the pass's time unless somebody else delivered it too. */
  ghost predicate StampedBy(row: Row, changes: seq<Change>, clock: nat -> nat) {
    row.deliveredAt.Some? && (row.deliveredAt == Some(clock(row.id)) || AlsoDelivers(changes, row.id))
  }

  lemma StampStays(row: Row, changes: seq<Change>, c: Change, clock: nat -> nat)
    requires StampedBy(row, changes, clock)
    ensures StampedBy(row, changes + [c], clock)
  {
    if o :| o in changes && o.Deliver? && o.id == row.id {
      assert o in changes + [c];
    }
  }

  lemma AddedBeside(alone: Table, shared: Table, ids: set<nat>, changes: seq<Change>, c: Change,
                    clock: nat -> nat, row: Row)
    requires Beside(alone, shared, ids, changes, clock) && row.id == alone.nextId
    ensures Beside(Table(alone.rows + [row], alone.nextId + 1), Table(shared.rows + [row], shared.nextId + 1),
                   ids, changes + [c], clock)
  {
    forall k | 0 <= k < |alone.rows| && alone.rows[k].id in ids
      ensures StampedBy(shared.rows[k], changes + [c], clock)
    {
      StampStays(shared.rows[k], changes, c, clock);
    }
  }

  lemma SameBeside(alone: Table, shared: Table, ids: set<nat>, changes: seq<Change>, c: Change, clock: nat -> nat)
    requires Beside(alone, shared, ids, changes, clock)
    ensures Beside(alone, shared, ids, changes + [c], clock)
  {
    forall k | 0 <= k < |alone.rows| && alone.rows[k].id in ids
      ensures StampedBy(shared.rows[k], changes + [c], clock)
    {
      StampStays(shared.rows[k], changes, c, clock);
    }
  }

  lemma ReadBeside(alone: Table, shared: Table, ids: set<nat>, changes: seq<Change>, clock: nat -> nat, now: nat)
    requires Beside(alone, shared, ids, changes, clock)
    ensures Beside(Changed(alone, ReadAll(now)), Changed(shared, ReadAll(now)), ids, changes + [ReadAll(now)], clock)
  {
    forall k | 0 <= k < |alone.rows| && alone.rows[k].id in ids
      ensures StampedBy(Changed(shared, ReadAll(now)).rows[k], changes + [ReadAll(now)], clock)
    {
      StampStays(shared.rows[k], changes, ReadAll(now), clock);
    }
  }

  lemma DeliveredBeside(alone: Table, shared: Table, ids: set<nat>, changes: seq<Change>, clock: nat -> nat,
                        id: nat, now: nat)
    requires Beside(alone, shared, ids, changes, clock)
    ensures var c := Deliver(id, now);
            Beside(Changed(alone, c), Changed(shared, c), ids, changes + [c], clock)
  {
    var c := Deliver(id, now);
    assert c in changes + [c];
    forall k | 0 <= k < |alone.rows| && alone.rows[k].id in ids
      ensures StampedBy(Changed(shared, c).rows[k], changes + [c], clock)
    {
      if alone.rows[k].id == id {
        assert AlsoDelivers(changes + [c], id);
      } else {
        StampStays(shared.rows[k], changes, c, clock);
      }
    }
  }

  lemma HeldAlike(alone: Table, shared: Table, ids: set<nat>, changes: seq<Change>, clock: nat -> nat, sig: seq<byte>)
    requires Beside(alone, shared, ids, changes, clock)
    ensures AlreadyHeld(alone.rows, sig) <==> AlreadyHeld(shared.rows, sig)
  {
    assert forall k :: 0 <= k < |alone.rows| ==>
        alone.rows[k].direction == shared.rows[k].direction && alone.rows[k].signature == shared.rows[k].signature;
  }

  lemma ChangedBeside(alone: Table, shared: Table, ids: set<nat>, changes: seq<Change>, c: Change, clock: nat -> nat)
    requires Beside(alone, shared, ids, changes, clock)
    ensures Beside(Changed(alone, c), Changed(shared, c), ids, changes + [c], clock)
  {
    match c
    case Queue(m) =>
      AddedBeside(alone, shared, ids, changes, c, clock, OutRow(alone.nextId, m));
      SameBeside(alone, shared, ids, changes, c, clock);
    case Receive(sealed, now) =>
      HeldAlike(alone, shared, ids, changes, clock, sealed.signature);
      AddedBeside(alone, shared, ids, changes, c, clock, InRow(alone.nextId, sealed, now));
      SameBeside(alone, shared, ids, changes, c, clock);
    case ReadAll(now) => ReadBeside(alone, shared, ids, changes, clock, now);
    case Deliver(id, now) => DeliveredBeside(alone, shared, ids, changes, clock, id, now);
  }

  lemma {:induction false} AllChangedBeside(alone: Table, shared: Table, ids: set<nat>, changes: seq<Change>,
                                            more: seq<Change>, clock: nat -> nat)
    requires Beside(alone, shared, ids, changes, clock)
    ensures Beside(AllChanged(alone, more), AllChanged(shared, more), ids, changes + more, clock)
    decreases |more|
  {
    if more == [] {
      assert changes + more == changes;
    } else {
      ChangedBeside(alone, shared, ids, changes, more[0], clock);
      AllChangedBeside(Changed(alone, more[0]), Changed(shared, more[0]), ids, changes + [more[0]], more[1..], clock);
      assert changes + [more[0]] + more[1..] == changes + more;
    }
  }

  lemma {:induction false} AllChangedConcat(t: Table, a: seq<Change>, b: seq<Change>)
    ensures AllChanged(t, a + b) == AllChanged(AllChanged(t, a), b)
    decreases |a|
  {
    if a == [] {
      assert a + b == b;
    } else {
      AllChangedConcat(Changed(t, a[0]), a[1..], b);
      assert (a + b)[1..] == a[1..] + b;
    }
  }

  /** The pass stamps one more row. */
  lemma MarkedBeside(alone: Table, shared: Table, ids: set<nat>, changes: seq<Change>, clock: nat -> nat, id: nat)
    requires Beside(alone, shared, ids, changes, clock) && id < alone.nextId
    ensures Beside(alone, shared.(rows := Delivered(shared.rows, id, clock(id))), ids + {id}, changes, clock)
  {
    var after := Delivered(shared.rows, id, clock(id));
    forall k | 0 <= k < |alone.rows| && alone.rows[k].id in ids + {id} ensures StampedBy(after[k], changes, clock) {
      if alone.rows[k].id != id {
        assert StampedBy(shared.rows[k], changes, clock);
      }
    }
  }

  /** Other tasks take their turns at the store. */
  method TakeTurns(store: Store, changes: seq<Change>)
    modifies store`mail, store`nextId
    ensures Table(store.mail, store.nextId) == AllChanged(old(Table(store.mail, store.nextId)), changes)
  {
    ghost var start := Table(store.mail, store.nextId);
    for i := 0 to |changes|
      invariant AllChanged(start, changes) == AllChanged(Table(store.mail, store.nextId), changes[i..])
    {
      assert changes[i..][1..] == changes[i + 1..];
      match changes[i] {
        case Queue(m) => var _ := store.QueueOutgoing(m);
        case Receive(sealed, now) => var _ := store.StoreIncoming(sealed, now);
        case ReadAll(now) => var _ := store.MarkAllRead(now);
        case Deliver(id, now) => store.MarkDelivered(id, now);
      }
    }
    assert changes[|changes|..] == [];
  }

  /** After `turns` of the others and the rows up to `i`. */
  ghost predicate InStep(before: Table, now: Table, p: Pass, pending: seq<Row>, i: nat,
                         others: nat -> seq<Change>, turns: nat)
    requires i <= |pending|
  {
    Beside(AllChanged(before, Meanwhile(others, turns)), now, p.Ids(pending[..i]), Meanwhile(others, turns), p.clock)
    && before.nextId <= now.nextId
  }

  lemma TurnsTaken(before: Table, now: Table, p: Pass, pending: seq<Row>, i: nat, others: nat -> seq<Change>)
    requires i <= |pending| && InStep(before, now, p, pending, i, others, i)
    ensures InStep(before, AllChanged(now, others(i)), p, pending, i, others, i + 1)
  {
    AllChangedConcat(before, Meanwhile(others, i), others(i));
    AllChangedBeside(AllChanged(before, Meanwhile(others, i)), now, p.Ids(pending[..i]),
                     Meanwhile(others, i), others(i), p.clock);
    IdsNeverShrink(now, others(i));
  }

  lemma RowTried(before: Table, now: Table, p: Pass, pending: seq<Row>, i: nat, others: nat -> seq<Change>)
    requires ValidTable(before.rows, before.nextId) && pending == Pending(before.rows) && i < |pending|
    requires InStep(before, now, p, pending, i, others, i + 1)
    ensures var id := pending[i].id;
            if p.GetsThrough(pending[i])
            then InStep(before, now.(rows := Delivered(now.rows, id, p.clock(id))), p, pending, i + 1, others, i + 1)
                 && |p.Ids(pending[..i + 1])| == |p.Ids(pending[..i])| + 1
            else InStep(before, now, p, pending, i + 1, others, i + 1) && p.Ids(pending[..i + 1]) == p.Ids(pending[..i])
  {
    PendingDistinct(before.rows, before.nextId);
    OneMoreRow(p, pending, i);
    PendingIsOld(before, pending, i);
    if p.GetsThrough(pending[i]) {
      MarkedBeside(AllChanged(before, Meanwhile(others, i + 1)), now, p.Ids(pending[..i]),
                   Meanwhile(others, i + 1), p.clock, pending[i].id);
    }
  }

  /**
    The pass. It locks the store to list what waits and again for each stamp; `others` is what
    other tasks do before the turn of each row.
   */
  method DeliverPending(store: Store, p: Pass, others: nat -> seq<Change>) returns (delivered: nat)
    requires ValidTable(store.mail, store.nextId)
    modifies store`mail, store`nextId
    ensures var before, ids := old(Table(store.mail, store.nextId)), p.Ids(old(store.mail));
            var changes := Meanwhile(others, |Pending(before.rows)|);
            Beside(AllChanged(before, changes), Table(store.mail, store.nextId), ids, changes, p.clock)
            && delivered == |ids|
            && (changes == [] ==> PassedOver(before.rows, store.mail, p, delivered))
  {
    ghost var before := Table(store.mail, store.nextId);
    var pending := Pending(store.mail);
    delivered := 0;
    for i := 0 to |pending|
      invariant InStep(before, Table(store.mail, store.nextId), p, pending, i, others, i)
      invariant delivered == |p.Ids(pending[..i])|
    {
      TurnsTaken(before, Table(store.mail, store.nextId), p, pending, i, others);
      TakeTurns(store, others(i));
      RowTried(before, Table(store.mail, store.nextId), p, pending, i, others);
      var ok := TryRow(p, pending[i]);
      if ok {
        store.MarkDelivered(pending[i].id, p.clock(pending[i].id));
        delivered := delivered + 1;
      }
    }
    assert pending[..|pending|] == pending;
    IdsOfPending(p, before.rows);
    QuietPass(before, Table(store.mail, store.nextId), p, Meanwhile(others, |pending|));
  }

  /** A letter to somebody who is not listed is left as it is, whoever answers. */
  lemma AbsentIsLeftAlone(before: Table, alone: Table, shared: Table, p: Pass, changes: seq<Change>, k: nat, j: nat)
    requires ValidTable(before.rows, before.nextId) && k < |before.rows| && j < |alone.rows|
    requires Beside(alone, shared, p.Ids(before.rows), changes, p.clock)
    requires alone.rows[j].id == before.rows[k].id
    requires forall q :: q in p.peers ==> q.peerId != before.rows[k].peer
    ensures shared.rows[j] == alone.rows[j]
  {
    assert forall i :: 0 <= i < |before.rows| && before.rows[i].id == before.rows[k].id ==> i == k;
  }

  lemma {:induction false} IdsNeverShrink(t: Table, changes: seq<Change>)
    ensures AllChanged(t, changes).nextId >= t.nextId
    decreases |changes|
  {
    if changes != [] {
      IdsNeverShrink(Changed(t, changes[0]), changes[1..]);
    }
  }

  lemma PendingIsOld(t: Table, pending: seq<Row>, i: nat)
    requires ValidTable(t.rows, t.nextId) && pending == Pending(t.rows) && i < |pending|
    ensures pending[i].id < t.nextId && IsPending(pending[i])
  {
    PendingIsExact(t.rows);
    assert pending[i] in pending;
  }

  lemma IdsOfPending(p: Pass, rows: seq<Row>)
    ensures p.Ids(Pending(rows)) == p.Ids(rows)
  {
    PendingIsExact(rows);
  }

  /** With nothing done by others, the pass changes exactly the rows it gets through. */
  lemma QuietPass(before: Table, after: Table, p: Pass, changes: seq<Change>)
    requires ValidTable(before.rows, before.nextId)
    requires Beside(AllChanged(before, changes), after, p.Ids(before.rows), changes, p.clock)
    ensures changes == [] ==> PassedOver(before.rows, after.rows, p, |p.Ids(before.rows)|)
  {
    if changes == [] {
      var ids, rows := p.Ids(before.rows), before.rows;
      forall i | 0 <= i < |rows| ensures rows[i].id in ids <==> p.Delivers(rows[i]) {
        assert rows[i] in rows;
      }
      QuietCount(before, after, p);
    }
  }

  lemma QuietCount(before: Table, after: Table, p: Pass)
    requires ValidTable(before.rows, before.nextId) && Beside(before, after, p.Ids(before.rows), [], p.clock)
    ensures NewlyDelivered(before.rows, after.rows) == p.Ids(before.rows)
  {
    var ids, rows := p.Ids(before.rows), before.rows;
    forall id | id in ids ensures id in NewlyDelivered(rows, after.rows) {
      var r :| r in rows && p.Delivers(r) && r.id == id;
      var i :| 0 <= i < |rows| && rows[i] == r;
      assert StampedBy(after.rows[i], [], p.clock);
    }
  }

  /** A row holds everything of the letter it was queued for. */
  lemma LetterOfQueued(id: nat, m: Letter.Mail)
    requires m.version == Letter.MAIL_VERSION
    ensures LetterOf(OutRow(id, m), m.from) == m
  {
    TimesSurviveStorage(m.createdAt);
  }

  lemma LetterOfFiled(id: nat, sealed: Letter.SignedMail, now: nat)
    requires sealed.mail.version == Letter.MAIL_VERSION
    ensures LetterOf(InRow(id, sealed, now), sealed.mail.to) == sealed.mail
  {
    TimesSurviveStorage(sealed.mail.createdAt);
  }

  /** No queued letter is ever refused for its signature, version, recipient or size:
      what the outbox accepts, sealing accepts, and so does the recipient. */
  lemma QueuedIsAccepted(scheme: Scheme, sk: Secret, to: PeerId, subject: seq<byte>, body: seq<byte>, at: u64, id: nat)
    requires scheme.Sound()
    ensures var m := Letter.New(scheme.publicKey(sk), to, subject, body, at);
            Letter.CheckLimits(m).Ok? ==>
              var sealed := Letter.Seal(scheme, LetterOf(OutRow(id, m), m.from), sk);
              sealed.Ok? && Letter.Accept(scheme, sealed.value, to).Ok? && sealed.value.mail == m
  {
    var m := Letter.New(scheme.publicKey(sk), to, subject, body, at);
    LetterOfQueued(id, m);
    Letter.SealedIsAccepted(scheme, m, sk);
  }
}

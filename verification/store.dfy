/**
  One node's database: the trust-on-first-use keyring and the mail table
  (crates/intraweb-core/src/db.rs). Tables are maps and sequences; the unique
  index on inbound signatures is the check that StoreIncoming makes.
 */
module Store {
  import opened Wrappers
  import opened Bytes
  import opened Peers
  import opened Sorting
  import Letter

  // ---- the keyring ----

  datatype KnownRow = KnownRow(nickname: seq<byte>, firstSeen: nat, lastSeen: nat, verified: bool)

  type Keyring = map<PeerId, KnownRow>

  predicate NameTaken(k: Keyring, id: PeerId, nickname: seq<byte>) {
    exists other :: other in k && other != id && k[other].nickname == nickname
  }

  function Verdict(k: Keyring, id: PeerId, nickname: seq<byte>): TrustState {
    if id in k then (if k[id].verified then Verified else Known)
    else if NameTaken(k, id, nickname) then NicknameConflict
    else New
  }

  function Observe(k: Keyring, id: PeerId, nickname: seq<byte>, now: nat): Keyring {
    k[id := if id in k then k[id].(nickname := nickname, lastSeen := now) else KnownRow(nickname, now, now, false)]
  }

  /** One write: the row that changes, field by field, and no other. */
  lemma ObserveExact(k: Keyring, id: PeerId, nickname: seq<byte>, now: nat)
    ensures var after := Observe(k, id, nickname, now);
            && id in after && after[id].nickname == nickname && after[id].lastSeen == now
            && after[id].firstSeen == (if id in k then k[id].firstSeen else now)
            && after[id].verified == (id in k && k[id].verified)
            && after.Keys == k.Keys + {id} && forall other :: other in k && other != id ==> after[other] == k[other]
    ensures Verdict(k, id, nickname)
         == (if id in k && k[id].verified then Verified
             else if id in k then Known
             else if exists other :: other in k && other != id && k[other].nickname == nickname then NicknameConflict
             else New)
  {
  }

  function MarkVerified(k: Keyring, id: PeerId): Keyring {
    if id in k then k[id := k[id].(verified := true)] else k
  }

  /** What no later event may undo: keys stay, with their first-seen times, and stay verified. */
  ghost predicate Grows(before: Keyring, after: Keyring) {
    forall id :: id in before ==>
      id in after && after[id].firstSeen == before[id].firstSeen && (before[id].verified ==> after[id].verified)
  }

  /** Somebody this node has met before, as addressing sees them. */
  datatype KnownPeer = KnownPeer(peerId: PeerId, nickname: seq<byte>, verified: bool)

  function EntryOf(k: Keyring, id: PeerId): KnownPeer
    requires id in k
  {
    KnownPeer(id, k[id].nickname, k[id].verified)
  }

  predicate RecentFirst(k: Keyring, a: PeerId, b: PeerId) {
    (if a in k then k[a].lastSeen else 0) >= (if b in k then k[b].lastSeen else 0)
  }

  // ---- the mail table ----

  datatype Direction = In | Out

  datatype Row = Row(
    id: nat,
    direction: Direction,
    peer: PeerId,
    subject: seq<byte>,
    body: seq<byte>,
    createdAt: int,
    deliveredAt: Option<nat>,
    signature: Option<seq<byte>>,
    readAt: Option<nat>)

  /** `u64 as i64` and back. */
  function ToI64(n: u64): int {
    if n < 0x8000_0000_0000_0000 then n else n - 0x1_0000_0000_0000_0000
  }

  function FromI64(n: int): u64 {
    n % 0x1_0000_0000_0000_0000
  }

  /** The cast keeps the bits: the number modulo 2^64, in the range of the signed column. */
  lemma CastKeepsBits(n: u64)
    ensures -0x8000_0000_0000_0000 <= ToI64(n) < 0x8000_0000_0000_0000
    ensures ToI64(n) == n || ToI64(n) == n - 0x1_0000_0000_0000_0000
  {
  }

  lemma TimesSurviveStorage(n: u64)
    ensures FromI64(ToI64(n)) == n
  {
  }

  /** Row ids increase from insert to insert and are never reused (AUTOINCREMENT). */
  ghost predicate ValidTable(rows: seq<Row>, nextId: nat) {
    && (forall i :: 0 <= i < |rows| ==> rows[i].id < nextId)
    && (forall i, j :: 0 <= i < j < |rows| ==> rows[i].id < rows[j].id)
  }

  /** The unique index: no signature is on two inbound rows. */
  ghost predicate InboundUnique(rows: seq<Row>) {
    forall i, j :: 0 <= i < j < |rows| && rows[i].direction == In && rows[j].direction == In ==>
      rows[i].signature == None || rows[i].signature != rows[j].signature
  }

  function OutRow(id: nat, mail: Letter.Mail): Row {
    Row(id, Out, mail.to, mail.subject, mail.body, ToI64(mail.createdAt), None, None, None)
  }

  function InRow(id: nat, sealed: Letter.SignedMail, now: nat): Row {
    Row(id, In, sealed.mail.from, sealed.mail.subject, sealed.mail.body, ToI64(sealed.mail.createdAt),
        Some(now), Some(sealed.signature), None)
  }

  predicate AlreadyHeld(rows: seq<Row>, signature: seq<byte>) {
    exists i :: 0 <= i < |rows| && rows[i].direction == In && rows[i].signature == Some(signature)
  }

  function Filed(rows: seq<Row>, nextId: nat, sealed: Letter.SignedMail, now: nat): seq<Row> {
    if AlreadyHeld(rows, sealed.signature) then rows else rows + [InRow(nextId, sealed, now)]
  }

  function Delivered(rows: seq<Row>, id: nat, now: nat): seq<Row> {
    seq(|rows|, i requires 0 <= i < |rows| =>
      if rows[i].id == id then rows[i].(deliveredAt := Some(now)) else rows[i])
  }

  predicate IsPending(row: Row) {
    row.direction == Out && row.deliveredAt == None
  }

  predicate IsUnread(row: Row) {
    row.direction == In && row.readAt == None
  }

  function AllRead(rows: seq<Row>, now: nat): seq<Row> {
    seq(|rows|, i requires 0 <= i < |rows| =>
      if IsUnread(rows[i]) then rows[i].(readAt := Some(now)) else rows[i])
  }

  predicate OlderFirst(a: Row, b: Row) {
    a.createdAt <= b.createdAt
  }

  /** The rows still waiting for their recipient, oldest first. */
  function Pending(rows: seq<Row>): seq<Row> {
    Sort(OlderFirst, Filter(IsPending, rows))
  }

  lemma PendingIsExact(rows: seq<Row>)
    ensures forall r :: r in Pending(rows) <==> r in rows && r.direction == Out && r.deliveredAt == None
    ensures forall i, j :: 0 <= i < j < |Pending(rows)| ==> Pending(rows)[i].createdAt <= Pending(rows)[j].createdAt
  {
    var waiting := Filter(IsPending, rows);
    SortPermutes(OlderFirst, waiting);
    forall r ensures r in Pending(rows) <==> r in rows && IsPending(r) {
      SameElements(Pending(rows), waiting, r);
    }
    assert TotalOrder(OlderFirst);
    SortSorted(OlderFirst, waiting);
  }

  function OtherThan(id: nat): Row -> bool {
    (row: Row) => row.id != id
  }

  lemma {:induction false} DeliveredStillWaiting(rows: seq<Row>, id: nat, now: nat)
    ensures Filter(IsPending, Delivered(rows, id, now)) == Filter(OtherThan(id), Filter(IsPending, rows))
  {
    if rows != [] {
      DeliveredStillWaiting(rows[1..], id, now);
      StillWaitingCons(rows[0], rows[1..], id, now);
      assert rows == [rows[0]] + rows[1..];
    }
  }

  lemma StillWaitingCons(row: Row, rest: seq<Row>, id: nat, now: nat)
    requires Filter(IsPending, Delivered(rest, id, now)) == Filter(OtherThan(id), Filter(IsPending, rest))
    ensures Filter(IsPending, Delivered([row] + rest, id, now))
         == Filter(OtherThan(id), Filter(IsPending, [row] + rest))
  {
    var stamped := if row.id == id then row.(deliveredAt := Some(now)) else row;
    StampedCons(row, rest, id, now, stamped);
    FilterCons(IsPending, stamped, Delivered(rest, id, now));
    FilterCons(IsPending, row, rest);
    if IsPending(row) {
      FilterCons(OtherThan(id), row, Filter(IsPending, rest));
    }
  }

  lemma StampedCons(row: Row, rest: seq<Row>, id: nat, now: nat, stamped: Row)
    requires stamped == if row.id == id then row.(deliveredAt := Some(now)) else row
    ensures Delivered([row] + rest, id, now) == [stamped] + Delivered(rest, id, now)
  {
  }

  /** After a delivery the outbox waits for the same letters in the same order, without that one. */
  lemma DeliveredLeavesPending(rows: seq<Row>, id: nat, now: nat)
    ensures Pending(Delivered(rows, id, now)) == Filter(OtherThan(id), Pending(rows))
  {
    DeliveredStillWaiting(rows, id, now);
    assert TotalOrder(OlderFirst);
    FilterSort(OlderFirst, OtherThan(id), Filter(IsPending, rows));
  }

  /** In a table with increasing ids a delivery stamps one row, and keeps what the table promises. */
  lemma DeliveredIsOneRow(rows: seq<Row>, nextId: nat, i: nat, now: nat)
    requires ValidTable(rows, nextId) && InboundUnique(rows) && i < |rows|
    ensures var after := Delivered(rows, rows[i].id, now);
            after == rows[i := rows[i].(deliveredAt := Some(now))]
            && ValidTable(after, nextId) && InboundUnique(after)
  {
    forall j | 0 <= j < |rows| && j != i ensures rows[j].id != rows[i].id {
      assert if j < i then rows[j].id < rows[i].id else rows[i].id < rows[j].id;
    }
    var after := Delivered(rows, rows[i].id, now);
    assert forall j :: 0 <= j < |rows| ==>
        after[j].id == rows[j].id && after[j].direction == rows[j].direction && after[j].signature == rows[j].signature;
  }

  /** A letter is filed when and only when its signature is not held yet, and at most once then. */
  lemma FilingKeepsUnique(rows: seq<Row>, nextId: nat, sealed: Letter.SignedMail, now: nat)
    requires ValidTable(rows, nextId) && InboundUnique(rows)
    ensures var after := Filed(rows, nextId, sealed, now);
            ValidTable(after, nextId + 1) && InboundUnique(after) && AlreadyHeld(after, sealed.signature)
            && Filed(after, nextId + 1, sealed, now) == after
  {
    var after := Filed(rows, nextId, sealed, now);
    if !AlreadyHeld(rows, sealed.signature) {
      assert after[|rows|] == InRow(nextId, sealed, now);
    }
  }

  /** A letter that is filed is unread, received now, and shows what the envelope says; it is the one
      letter that there is more to read. */
  lemma FiledIsUnread(rows: seq<Row>, nextId: nat, sealed: Letter.SignedMail, now: nat)
    requires !AlreadyHeld(rows, sealed.signature)
    ensures var after := Filed(rows, nextId, sealed, now);
            && |after| == |rows| + 1 && after[..|rows|] == rows
            && var row := after[|rows|];
               && row.id == nextId && row.direction == In && row.peer == sealed.mail.from
               && row.subject == sealed.mail.subject && row.body == sealed.mail.body
               && row.signature == Some(sealed.signature) && row.deliveredAt == Some(now) && row.readAt == None
               && Filter(IsUnread, after) == Filter(IsUnread, rows) + [row]
               && Filter(IsPending, after) == Filter(IsPending, rows)
  {
    var row := InRow(nextId, sealed, now);
    FilterSnoc(IsUnread, rows, row);
    FilterSnoc(IsPending, rows, row);
  }

  /** A letter that is queued waits for its recipient, and adds nothing to read. */
  lemma QueuedIsWaiting(rows: seq<Row>, id: nat, m: Letter.Mail)
    ensures var row, after := OutRow(id, m), rows + [OutRow(id, m)];
            && row.id == id && row.direction == Out && row.peer == m.to && row.subject == m.subject
            && row.body == m.body && row.deliveredAt == None && row.readAt == None && row.signature == None
            && Filter(IsPending, after) == Filter(IsPending, rows) + [row]
            && Filter(IsUnread, after) == Filter(IsUnread, rows)
  {
    var row := OutRow(id, m);
    FilterSnoc(IsUnread, rows, row);
    FilterSnoc(IsPending, rows, row);
  }

  /** The table tells copies of a letter apart by signature alone: a second copy is filed
      exactly when it was signed anew, which honest signing, being deterministic, never does. */
  lemma SecondCopyFiledIff(rows: seq<Row>, nextId: nat, first: Letter.SignedMail, second: Letter.SignedMail, now: nat)
    requires !AlreadyHeld(rows, second.signature)
    ensures var once := Filed(rows, nextId, first, now);
            Filed(once, nextId + 1, second, now) == once + [InRow(nextId + 1, second, now)]
            <==> second.signature != first.signature
  {
    var once := Filed(rows, nextId, first, now);
    if second.signature == first.signature {
      assert once[|rows|] == InRow(nextId, first, now);
      assert AlreadyHeld(once, second.signature);
      assert |Filed(once, nextId + 1, second, now)| == |once|;
    } else {
      assert !AlreadyHeld(once, second.signature);
    }
  }

  // ---- the store object ----

  class Store {
    var known: Keyring
    var mail: seq<Row>
    var nextId: nat

    constructor ()
      ensures known == map[] && mail == [] && nextId == 1
    {
      known := map[];
      mail := [];
      nextId := 1;
    }

    method ObservePeer(id: PeerId, nickname: seq<byte>, now: nat) returns (trust: TrustState)
      modifies this`known
      ensures known == Observe(old(known), id, nickname, now)
      ensures trust == Verdict(old(known), id, nickname)
      ensures id !in old(known) ==> known[id] == KnownRow(nickname, now, now, false) && trust in {New, NicknameConflict}
      ensures id in old(known) ==> known[id].verified == old(known)[id].verified
                                   && trust == if old(known)[id].verified then Verified else Known
    {
      if id in known {
        var verified := known[id].verified;
        known := known[id := known[id].(nickname := nickname, lastSeen := now)];
        return if verified then Verified else Known;
      }
      var impostor := NameTaken(known, id, nickname);
      known := known[id := KnownRow(nickname, now, now, false)];
      return if impostor then NicknameConflict else New;
    }

    method SetVerified(id: PeerId) returns (changed: bool)
      modifies this`known
      ensures known == MarkVerified(old(known), id) && changed == (id in old(known))
    {
      changed := id in known;
      if changed {
        known := known[id := known[id].(verified := true)];
      }
    }

    method QueueOutgoing(m: Letter.Mail) returns (r: Result<nat, Letter.Error>)
      modifies this`mail, this`nextId
      ensures r.Ok? <==> Letter.CheckLimits(m).Ok?
      ensures r.Ok? ==> r.value == old(nextId) && mail == old(mail) + [OutRow(r.value, m)] && nextId == r.value + 1
      ensures r.Err? ==> mail == old(mail) && nextId == old(nextId)
    {
      var limits := Letter.CheckLimits(m);
      if limits.Err? {
        return Err(limits.error);
      }
      var id := nextId;
      mail := mail + [OutRow(id, m)];
      nextId := nextId + 1;
      return Ok(id);
    }

    method StoreIncoming(sealed: Letter.SignedMail, now: nat) returns (filed: bool)
      modifies this`mail, this`nextId
      ensures mail == Filed(old(mail), old(nextId), sealed, now)
      ensures filed == !AlreadyHeld(old(mail), sealed.signature)
      ensures filed ==> Filter(IsUnread, mail) == Filter(IsUnread, old(mail)) + [mail[|mail| - 1]]
      ensures nextId == old(nextId) + if filed then 1 else 0
    {
      filed := !AlreadyHeld(mail, sealed.signature);
      if filed {
        FiledIsUnread(mail, nextId, sealed, now);
        mail := mail + [InRow(nextId, sealed, now)];
        nextId := nextId + 1;
      }
    }

    method MarkDelivered(id: nat, now: nat)
      modifies this`mail
      ensures mail == Delivered(old(mail), id, now)
      ensures Pending(mail) == Filter(OtherThan(id), Pending(old(mail)))
      ensures forall i :: 0 <= i < |mail| && old(mail)[i].id == id ==> mail[i].deliveredAt == Some(now)
      ensures forall i :: 0 <= i < |mail| && old(mail)[i].id != id ==> mail[i] == old(mail)[i]
    {
      DeliveredLeavesPending(mail, id, now);
      mail := Delivered(mail, id, now);
    }

    method MarkAllRead(now: nat) returns (changed: nat)
      modifies this`mail
      ensures mail == AllRead(old(mail), now)
      ensures changed == |Filter(IsUnread, old(mail))| && Filter(IsUnread, mail) == []
      ensures forall i :: 0 <= i < |mail| && old(mail)[i].direction == In && old(mail)[i].readAt == None ==>
                mail[i] == old(mail)[i].(readAt := Some(now))
      ensures forall i :: 0 <= i < |mail| && (old(mail)[i].direction == Out || old(mail)[i].readAt != None) ==>
                mail[i] == old(mail)[i]
    {
      changed := |Filter(IsUnread, mail)|;
      mail := AllRead(mail, now);
      FilterNone(IsUnread, mail);
    }

    /** `ORDER BY last_seen DESC LIMIT limit`. */
    method KnownPeers(limit: nat) returns (list: seq<KnownPeer>)
      ensures ListsRecent(list, known, limit)
    {
      var ids := Keys();
      var k := known;
      var sorted := Sort((a: PeerId, b: PeerId) => RecentFirst(k, a, b), ids);
      SortedKeys(k, ids);
      var n := if |sorted| < limit then |sorted| else limit;
      list := seq(n, i requires 0 <= i < n => EntryOf(k, sorted[i]));
      FirstOfSorted(k, sorted, limit, list);
    }

    /** The keys of the table, in whatever order they are stored. */
    method Keys() returns (ids: seq<PeerId>)
      ensures NoRepeats(ids) && |ids| == |known| && forall id :: id in ids <==> id in known
    {
      ids := [];
      var todo: set<PeerId> := known.Keys;
      while todo != {}
        invariant todo <= known.Keys && |ids| + |todo| == |known|
        invariant forall id :: id in ids <==> id in known && id !in todo
        invariant NoRepeats(ids)
      {
        var id: PeerId :| id in todo;
        ids := ids + [id];
        todo := todo - {id};
      }
    }
  }

  ghost predicate Lists(list: seq<KnownPeer>, k: Keyring, id: PeerId) {
    id in k && EntryOf(k, id) in list
  }

  /** Entries of the keyring, no key twice; all of them if they fit, else the most recently seen. */
  ghost predicate ListsRecent(list: seq<KnownPeer>, k: Keyring, limit: nat) {
    && (forall i :: 0 <= i < |list| ==> list[i].peerId in k && list[i] == EntryOf(k, list[i].peerId))
    && (forall i, j :: 0 <= i < j < |list| ==> list[i].peerId != list[j].peerId)
    && (forall i, j :: 0 <= i < j < |list| && list[i].peerId in k && list[j].peerId in k ==>
          k[list[i].peerId].lastSeen >= k[list[j].peerId].lastSeen)
    && |list| == (if |k| < limit then |k| else limit)
    && (|k| <= limit ==> forall id :: id in k ==> Lists(list, k, id))
    && (forall id, i :: id in k && !Lists(list, k, id) && 0 <= i < |list| && list[i].peerId in k ==>
          k[id].lastSeen <= k[list[i].peerId].lastSeen)
  }

  lemma FirstOfSorted(k: Keyring, sorted: seq<PeerId>, limit: nat, list: seq<KnownPeer>)
    requires |sorted| == |k| && NoRepeats(sorted) && forall id :: id in sorted <==> id in k
    requires forall i, j :: 0 <= i < j < |sorted| ==> RecentFirst(k, sorted[i], sorted[j])
    requires |list| == (if |k| < limit then |k| else limit)
    requires forall i :: 0 <= i < |list| ==> sorted[i] in k && list[i] == EntryOf(k, sorted[i])
    ensures ListsRecent(list, k, limit)
  {
    forall id | id in k && |k| <= limit ensures Lists(list, k, id) {
      var i :| 0 <= i < |sorted| && sorted[i] == id;
      assert list[i] == EntryOf(k, id);
    }
    forall id, j | id in k && !Lists(list, k, id) && 0 <= j < |list|
      ensures k[id].lastSeen <= k[list[j].peerId].lastSeen
    {
      var i :| 0 <= i < |sorted| && sorted[i] == id;
      if i < |list| {
        assert false;
      }
      assert RecentFirst(k, sorted[j], sorted[i]);
    }
  }

  lemma SortedKeys(k: Keyring, ids: seq<PeerId>)
    requires NoRepeats(ids) && forall id :: id in ids <==> id in k
    ensures var recent := (a: PeerId, b: PeerId) => RecentFirst(k, a, b);
            var sorted := Sort(recent, ids);
            NoRepeats(sorted) && |sorted| == |ids| && Sorted(recent, sorted) && forall id :: id in sorted <==> id in k
  {
    var recent := (a: PeerId, b: PeerId) => RecentFirst(k, a, b);
    assert TotalOrder(recent);
    SortPermutes(recent, ids);
    SortSorted(recent, ids);
    PermutationNoRepeats(ids, Sort(recent, ids));
    forall id ensures id in Sort(recent, ids) <==> id in ids {
      SameElements(Sort(recent, ids), ids, id);
    }
  }
}

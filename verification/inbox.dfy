/** When a letter counts as unread, over every run of the mail network (crates/intraweb-core/src/db.rs:220-283). */
module Inbox {
  import opened Wrappers
  import opened Bytes
  import opened Identity
  import opened Store
  import opened MailNetwork
  import Letter

  /** The clock of the first step of a run that marks everything on a node read. */
  function FirstRead(labels: seq<Label>, d: PeerId): Option<nat> {
    if labels == [] then None
    else if labels[0].ReadAll? && labels[0].a == d then Some(labels[0].now)
    else FirstRead(labels[1..], d)
  }

  ghost predicate InboxRow(n: Net, d: PeerId, i: nat) {
    d in n.hosts && i < |n.hosts[d].rows| && n.hosts[d].rows[i].direction == In
  }

  lemma ReadInOneStep(scheme: Scheme, n: Net, l: Label, d: PeerId, i: nat)
    requires Enabled(scheme, n, l) && InboxRow(n, d, i)
    ensures InboxRow(Next(scheme, n, l), d, i)
    ensures var was, after := n.hosts[d].rows[i].readAt, Next(scheme, n, l).hosts[d].rows[i].readAt;
            after == if was.None? && l.ReadAll? && l.a == d then Some(l.now) else was
  {
    NextGrows(scheme, n, l);
    assert RowGrows(n.hosts[d].rows[i], Next(scheme, n, l).hosts[d].rows[i]);
  }

  /** Whatever else happens, a letter is unread until everything is marked read, and then for ever
      read at the time of the first such mark. */
  lemma {:induction false} ReadExactlyOnce(scheme: Scheme, n: Net, labels: seq<Label>, d: PeerId, i: nat)
    requires Runnable(scheme, n, labels) && InboxRow(n, d, i)
    ensures InboxRow(Exec(scheme, n, labels), d, i)
    ensures var was, after := n.hosts[d].rows[i].readAt, Exec(scheme, n, labels).hosts[d].rows[i].readAt;
            after == if was.Some? then was else FirstRead(labels, d)
    decreases |labels|
  {
    if labels != [] {
      ReadInOneStep(scheme, n, labels[0], d, i);
      ReadExactlyOnce(scheme, Next(scheme, n, labels[0]), labels[1..], d, i);
    }
  }

  /** A letter that is accepted and not held yet arrives as one more row: unread, and received now. */
  lemma ArrivesUnread(scheme: Scheme, n: Net, dst: PeerId, sealed: Letter.SignedMail, now: nat)
    requires dst in n.hosts && Letter.Accept(scheme, sealed, dst).Ok?
    requires !AlreadyHeld(n.hosts[dst].rows, sealed.signature)
    ensures var before, after := n.hosts[dst].rows, Received(scheme, n, dst, sealed, now).hosts[dst].rows;
            && |after| == |before| + 1 && after[..|before|] == before
            && after[|before|].direction == In && after[|before|].peer == sealed.mail.from
            && after[|before|].deliveredAt == Some(now) && after[|before|].readAt == None
  {
    FiledIsUnread(n.hosts[dst].rows, n.hosts[dst].nextId, sealed, now);
  }

  /** What is refused, or held already, changes no table. */
  lemma RefusedChangesNothing(scheme: Scheme, n: Net, dst: PeerId, sealed: Letter.SignedMail, now: nat)
    requires dst in n.hosts
    requires Letter.Accept(scheme, sealed, dst).Err? || AlreadyHeld(n.hosts[dst].rows, sealed.signature)
    ensures Received(scheme, n, dst, sealed, now).hosts == n.hosts
  {
    var k := Received(scheme, n, dst, sealed, now);
    assert k.hosts[dst] == n.hosts[dst];
  }
}

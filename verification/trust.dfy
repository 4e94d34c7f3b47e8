/**
  What the keyring holds of a key after any run, over every interleaving of one node's tasks
  (crates/intraweb-core/src/db.rs:70-125): when it was first seen, what it was last called,
  and whether the operator vouched for it.
 */
module Trust {
  import opened Wrappers
  import opened Bytes
  import opened Peers
  import opened Store
  import opened Node
  import opened Interleaving

  predicate Writes(y: System, l: Label, id: PeerId)
    requires Enabled(y, l)
  {
    l.Write? && y.tasks[l.t].s.p.peerId == id
  }

  /** The step in which the operator's verification of a key reaches a keyring that holds it. */
  predicate Vouches(y: System, l: Label, id: PeerId)
    requires Enabled(y, l)
  {
    l.Vouch? && y.tasks[l.t].id == id && id in y.node.known
  }

  predicate EverVouched(y: System, labels: seq<Label>, id: PeerId)
    requires Runnable(y, labels)
    decreases |labels|
  {
    labels != [] && (Vouches(y, labels[0], id) || EverVouched(Next(y, labels[0]), labels[1..], id))
  }

  /** A name and the clock of the task that wrote it. */
  datatype Mention = Mention(nickname: seq<byte>, at: nat)

  /** What a run writes of a key, in order. */
  function Mentions(y: System, labels: seq<Label>, id: PeerId): seq<Mention>
    requires Runnable(y, labels)
    decreases |labels|
  {
    if labels == [] then []
    else
      var l := labels[0];
      (if Writes(y, l, id) then [Mention(y.tasks[l.t].s.p.nickname, y.tasks[l.t].now)] else [])
      + Mentions(Next(y, l), labels[1..], id)
  }

  /** A key's flag is set by the operator, and by nothing that arrives. */
  lemma VerifiedOnlyByVouching(y: System, l: Label, id: PeerId)
    requires Enabled(y, l)
    ensures VerifiedInKeyring(Next(y, l), id) <==> VerifiedInKeyring(y, id) || Vouches(y, l, id)
  {
  }

  lemma {:induction false} VerifiedIffVouched(y: System, labels: seq<Label>, id: PeerId)
    requires Runnable(y, labels)
    ensures VerifiedInKeyring(Exec(y, labels), id) <==> VerifiedInKeyring(y, id) || EverVouched(y, labels, id)
    decreases |labels|
  {
    if labels != [] {
      VerifiedOnlyByVouching(y, labels[0], id);
      VerifiedIffVouched(Next(y, labels[0]), labels[1..], id);
    }
  }

  /** A key's row after it was mentioned so, having been `was` before. */
  ghost predicate Tells(row: KnownRow, was: Option<KnownRow>, said: seq<Mention>) {
    && row.firstSeen == (if was.Some? then was.value.firstSeen else if said != [] then said[0].at else row.firstSeen)
    && (said != [] ==> row.nickname == said[|said| - 1].nickname && row.lastSeen == said[|said| - 1].at)
    && (said == [] && was.Some? ==> row.nickname == was.value.nickname && row.lastSeen == was.value.lastSeen)
  }

  function RowOf(y: System, id: PeerId): Option<KnownRow> {
    if id in y.node.known then Some(y.node.known[id]) else None
  }

  lemma OneMention(y: System, l: Label, id: PeerId)
    requires Enabled(y, l)
    ensures var z := Next(y, l);
            && (id in z.node.known <==> id in y.node.known || Writes(y, l, id))
            && (id in z.node.known ==>
                  Tells(z.node.known[id], RowOf(y, id),
                        if Writes(y, l, id) then [Mention(y.tasks[l.t].s.p.nickname, y.tasks[l.t].now)] else []))
  {
  }

  lemma TellsOn(row: KnownRow, mid: Option<KnownRow>, was: Option<KnownRow>, first: seq<Mention>, rest: seq<Mention>)
    requires mid.Some? ==> Tells(mid.value, was, first)
    requires mid.Some? <==> was.Some? || first != []
    requires Tells(row, mid, rest)
    ensures Tells(row, was, first + rest)
  {
    var all := first + rest;
    assert rest != [] ==> all[|all| - 1] == rest[|rest| - 1];
    assert rest == [] ==> all == first;
    assert first == [] ==> all == rest;
  }

  /**
    After any run of any schedule the keyring holds a key exactly if it held it before or the run
    wrote it; first seen when it was first written, and called what it was called last.
   */
  lemma {:induction false} KeyringTellsRun(y: System, labels: seq<Label>, id: PeerId)
    requires Runnable(y, labels)
    ensures var z, said := Exec(y, labels), Mentions(y, labels, id);
            && (id in z.node.known <==> id in y.node.known || said != [])
            && (id in z.node.known ==> Tells(z.node.known[id], RowOf(y, id), said))
    decreases |labels|
  {
    if labels != [] {
      var z := Next(y, labels[0]);
      OneMention(y, labels[0], id);
      KeyringTellsRun(z, labels[1..], id);
      if id in Exec(y, labels).node.known {
        var l := labels[0];
        var first := if Writes(y, l, id) then [Mention(y.tasks[l.t].s.p.nickname, y.tasks[l.t].now)] else [];
        TellsOn(Exec(y, labels).node.known[id], RowOf(z, id), RowOf(y, id), first, Mentions(z, labels[1..], id));
      }
    }
  }
}

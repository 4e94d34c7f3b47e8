/** When the mark "delivered" on a letter can be relied on, now and in every later state. */
module Delivery {
  import opened Wrappers
  import opened Bytes
  import opened Identity
  import opened Store
  import opened Outbox
  import opened MailNetwork

  /** In these steps nobody but the recipient answers for that row. */
  predicate OnlyRecipientAnswers(labels: seq<Label>, a: PeerId, id: nat) {
    forall j :: 0 <= j < |labels| && labels[j].WrongAnswer? ==> !(labels[j].post.src == a && labels[j].post.rowId == id)
  }

  /** The row, if it is marked, is so because its letter is in the recipient's inbox. */
  ghost predicate MarkIsTrue(n: Net, a: PeerId, i: nat) {
    a in n.hosts && i < |n.hosts[a].rows|
    && (n.hosts[a].rows[i].deliveredAt.Some? ==> HasIn(n, n.hosts[a].rows[i].peer, LetterOf(n.hosts[a].rows[i], a)))
  }

  lemma {:induction false} StaysUnmisled(scheme: Scheme, n: Net, labels: seq<Label>, a: PeerId, id: nat)
    requires Runnable(scheme, n, labels) && OnlyRecipientAnswers(labels, a, id) && !Misled(n, a, id)
    ensures !Misled(Exec(scheme, n, labels), a, id)
    decreases |labels|
  {
    if labels != [] {
      var k := Next(scheme, n, labels[0]);
      assert forall post :: post in k.wrong && post !in n.wrong ==> labels[0] == WrongAnswer(post);
      StaysUnmisled(scheme, k, labels[1..], a, id);
    }
  }

  /** Rows of one id in one outbox are one row. */
  lemma SameRow(scheme: Scheme, n: Net, post: Post, i: nat)
    requires Inv(scheme, n) && post in n.posts && i < |n.hosts[post.src].rows|
    requires post.src in n.hosts && n.hosts[post.src].rows[i].id == post.rowId
    ensures PostOf(n.hosts[post.src].rows[i], post)
  {
    assert PostSound(n, post) && HostSound(scheme, post.src, n.hosts[post.src]);
    var j :| 0 <= j < |n.hosts[post.src].rows| && PostOf(n.hosts[post.src].rows[j], post);
    assert i == j;
  }

  lemma ConfirmingMisleads(scheme: Scheme, n: Net, post: Post, i: nat) returns (labels: seq<Label>)
    requires Inv(scheme, n) && post in n.wrong && post.src in n.hosts && i < |n.hosts[post.src].rows|
    requires n.hosts[post.src].rows[i].id == post.rowId && !HasIn(n, post.dst, post.sealed.mail)
    ensures Runnable(scheme, n, labels) && OnlyRecipientAnswers(labels, post.src, post.rowId)
    ensures !MarkIsTrue(Exec(scheme, n, labels), post.src, i)
  {
    assert AckSound(n, post);
    SameRow(scheme, n, post, i);
    labels := [Confirm(post, 0)];
    var k := Next(scheme, n, labels[0]);
    assert labels[1..] == [] && Exec(scheme, k, []) == k;
    NotFiledByConfirm(scheme, n, post, 0);
    assert LetterOf(k.hosts[post.src].rows[i], post.src) == post.sealed.mail;
  }

  lemma UnmisledStaysTrue(scheme: Scheme, n: Net, labels: seq<Label>, a: PeerId, i: nat)
    requires Inv(scheme, n) && Runnable(scheme, n, labels) && a in n.hosts && i < |n.hosts[a].rows|
    requires n.hosts[a].rows[i].direction == Out && n.hosts[a].rows[i].peer in n.hosts
    requires OnlyRecipientAnswers(labels, a, n.hosts[a].rows[i].id) && !Misled(n, a, n.hosts[a].rows[i].id)
    ensures MarkIsTrue(Exec(scheme, n, labels), a, i)
  {
    var k, before := Exec(scheme, n, labels), n.hosts[a].rows[i];
    InvAlways(scheme, n, labels);
    NothingIsLost(scheme, n, labels);
    StaysUnmisled(scheme, n, labels, a, before.id);
    assert RowGrows(before, k.hosts[a].rows[i]);
    assert OutSound(k, a, k.hosts[a].rows[i]);
    forall post | post in k.took ensures post in k.wrong {
      assert TookSound(k, post);
    }
  }

  lemma FiledStaysTrue(scheme: Scheme, n: Net, labels: seq<Label>, a: PeerId, i: nat)
    requires Runnable(scheme, n, labels) && a in n.hosts && i < |n.hosts[a].rows|
    requires HasIn(n, n.hosts[a].rows[i].peer, LetterOf(n.hosts[a].rows[i], a))
    ensures MarkIsTrue(Exec(scheme, n, labels), a, i)
  {
    var k, before := Exec(scheme, n, labels), n.hosts[a].rows[i];
    NothingIsLost(scheme, n, labels);
    assert RowGrows(before, k.hosts[a].rows[i]);
    HasInStays(n, k, before.peer, LetterOf(before, a));
  }

  /**
    In any state: as long as from then on only the recipient answers for a letter, its mark
    is true in every later state, exactly if the letter is in the recipient's inbox already,
    or is not marked and nobody else has answered for it.
   */
  lemma MarkIsTrueIff(scheme: Scheme, n: Net, a: PeerId, i: nat)
    requires Inv(scheme, n) && a in n.hosts && i < |n.hosts[a].rows|
    requires n.hosts[a].rows[i].direction == Out && n.hosts[a].rows[i].peer in n.hosts
    ensures var row := n.hosts[a].rows[i];
            (forall labels :: Runnable(scheme, n, labels) && OnlyRecipientAnswers(labels, a, row.id) ==>
               MarkIsTrue(Exec(scheme, n, labels), a, i))
            <==> HasIn(n, row.peer, LetterOf(row, a)) || (row.deliveredAt.None? && !Misled(n, a, row.id))
  {
    var row := n.hosts[a].rows[i];
    if HasIn(n, row.peer, LetterOf(row, a)) {
      forall labels | Runnable(scheme, n, labels) ensures MarkIsTrue(Exec(scheme, n, labels), a, i) {
        FiledStaysTrue(scheme, n, labels, a, i);
      }
    } else if row.deliveredAt.Some? {
      var labels: seq<Label> := [];
      assert OnlyRecipientAnswers(labels, a, row.id) && Exec(scheme, n, labels) == n;
      assert !MarkIsTrue(Exec(scheme, n, labels), a, i);
    } else if post :| post in n.wrong && post.src == a && post.rowId == row.id {
      assert AckSound(n, post);
      SameRow(scheme, n, post, i);
      var labels := ConfirmingMisleads(scheme, n, post, i);
    } else {
      forall labels | Runnable(scheme, n, labels) && OnlyRecipientAnswers(labels, a, row.id)
        ensures MarkIsTrue(Exec(scheme, n, labels), a, i)
      {
        UnmisledStaysTrue(scheme, n, labels, a, i);
      }
    }
  }
}

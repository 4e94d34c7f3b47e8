/** A run of the mail network in which two different letters are delivered, so that what is
    assumed of signatures there can be met by more than one. */
module MailRun {
  import opened Wrappers
  import opened Bytes
  import opened Identity
  import opened Store
  import opened Outbox
  import opened MailNetwork
  import Base64
  import Letter

  /** Attempt, arrival and answer for one waiting row, one after another. */
  function Exchange(scheme: Scheme, n: Net, a: PeerId, i: nat, now: nat): seq<Label>
    requires a in n.hosts && i < |n.hosts[a].rows|
  {
    var row := n.hosts[a].rows[i];
    var post := Post(a, row.id, row.peer, SealedRow(scheme, n.hosts[a], a, row));
    [Attempt(a, i), Arrive(post, now), Confirm(post, now)]
  }

  function TextOf(n: Net, a: PeerId, i: nat): seq<byte>
    requires a in n.hosts && i < |n.hosts[a].rows|
  {
    Letter.SigningBytes(LetterOf(n.hosts[a].rows[i], a))
  }

  /** No signature already met is the one this letter would get, unless for the same letter. */
  ghost predicate Unmet(scheme: Scheme, n: Net, a: PeerId, text: seq<byte>)
    requires a in n.hosts
  {
    forall t :: t in n.accepted && t.2 == scheme.signer(n.hosts[a].sk, text) ==> t.0 == a && t.1 == text
  }

  lemma ThreeSteps(scheme: Scheme, n: Net, a: Label, b: Label, c: Label)
    requires Enabled(scheme, n, a) && Enabled(scheme, Next(scheme, n, a), b)
    requires Enabled(scheme, Next(scheme, Next(scheme, n, a), b), c)
    ensures Runnable(scheme, n, [a, b, c])
    ensures Exec(scheme, n, [a, b, c]) == Next(scheme, Next(scheme, Next(scheme, n, a), b), c)
  {
    var second := Next(scheme, n, a);
    StepThen(scheme, Next(scheme, second, b), c, []);
    StepThen(scheme, second, b, [c] + []);
    StepThen(scheme, n, a, [b] + ([c] + []));
    assert [a] + ([b] + ([c] + [])) == [a, b, c];
  }

  lemma StepThen(scheme: Scheme, n: Net, l: Label, rest: seq<Label>)
    requires Enabled(scheme, n, l) && Runnable(scheme, Next(scheme, n, l), rest)
    ensures Runnable(scheme, n, [l] + rest) && Exec(scheme, n, [l] + rest) == Exec(scheme, Next(scheme, n, l), rest)
  {
    assert ([l] + rest)[1..] == rest;
  }

  lemma {:induction false} RunThen(scheme: Scheme, n: Net, a: seq<Label>, b: seq<Label>)
    requires Runnable(scheme, n, a) && Runnable(scheme, Exec(scheme, n, a), b)
    ensures Runnable(scheme, n, a + b) && Exec(scheme, n, a + b) == Exec(scheme, Exec(scheme, n, a), b)
    decreases |a|
  {
    if a == [] {
      assert a + b == b;
    } else {
      RunThen(scheme, Next(scheme, n, a[0]), a[1..], b);
      assert (a + b)[1..] == a[1..] + b;
    }
  }

  /** What an exchange changes: one row is delivered and filed; at most one signature is met. */
  lemma ExchangeDelivers(scheme: Scheme, n: Net, a: PeerId, i: nat, now: nat)
    requires scheme.Sound() && Inv(scheme, n) && Enabled(scheme, n, Attempt(a, i))
    requires n.hosts[a].rows[i].peer in n.hosts && Unmet(scheme, n, a, TextOf(n, a, i))
    ensures var labels := Exchange(scheme, n, a, i, now);
            Runnable(scheme, n, labels)
            && var k := Exec(scheme, n, labels);
               NetGrows(n, k) && k.hosts[a].rows[i].deliveredAt == Some(now)
               && HasIn(k, n.hosts[a].rows[i].peer, LetterOf(n.hosts[a].rows[i], a))
  {
    var row := n.hosts[a].rows[i];
    var post := Post(a, row.id, row.peer, SealedRow(scheme, n.hosts[a], a, row));
    OneExchangeDelivers(scheme, n, a, i, now);
    ThreeSteps(scheme, n, Attempt(a, i), Arrive(post, now), Confirm(post, now));
    var filed := Next(scheme, Next(scheme, n, Attempt(a, i)), Arrive(post, now));
    NothingIsLost(scheme, n, Exchange(scheme, n, a, i, now));
    NextGrows(scheme, filed, Confirm(post, now));
    HasInStays(filed, Next(scheme, filed, Confirm(post, now)), row.peer, LetterOf(row, a));
  }

  lemma ExchangeMeetsOne(scheme: Scheme, n: Net, a: PeerId, i: nat, now: nat)
    requires a in n.hosts && i < |n.hosts[a].rows| && Runnable(scheme, n, Exchange(scheme, n, a, i, now))
    requires |scheme.signer(n.hosts[a].sk, TextOf(n, a, i))| == SIG_LEN
    ensures forall t :: t in Exec(scheme, n, Exchange(scheme, n, a, i, now)).accepted && t !in n.accepted ==>
              t == (a, TextOf(n, a, i), scheme.signer(n.hosts[a].sk, TextOf(n, a, i)))
  {
    var row, labels := n.hosts[a].rows[i], Exchange(scheme, n, a, i, now);
    var post := Post(a, row.id, row.peer, SealedRow(scheme, n.hosts[a], a, row));
    StepsInTurn(scheme, n, labels);
    var sig := scheme.signer(n.hosts[a].sk, TextOf(n, a, i));
    Base64.DecodesIffEncodes(Base64.Encode(sig), sig);
  }

  lemma StepsInTurn(scheme: Scheme, n: Net, labels: seq<Label>)
    requires |labels| == 3 && Runnable(scheme, n, labels)
    ensures Enabled(scheme, n, labels[0]) && Enabled(scheme, Next(scheme, n, labels[0]), labels[1])
    ensures var z := Next(scheme, Next(scheme, n, labels[0]), labels[1]);
            Enabled(scheme, z, labels[2]) && Exec(scheme, n, labels) == Next(scheme, z, labels[2])
  {
    var two, one := labels[1..], labels[2..];
    assert two[1..] == one && one[1..] == [];
    assert Runnable(scheme, Next(scheme, n, labels[0]), two);
    assert Runnable(scheme, Next(scheme, Next(scheme, n, labels[0]), labels[1]), one);
    ThreeSteps(scheme, n, labels[0], labels[1], labels[2]);
    assert labels == [labels[0], labels[1], labels[2]];
  }

  lemma OthersWait(scheme: Scheme, n: Net, a: PeerId, i: nat, now: nat, j: nat)
    requires a in n.hosts && i < |n.hosts[a].rows| && Runnable(scheme, n, Exchange(scheme, n, a, i, now))
    requires j < |n.hosts[a].rows| && n.hosts[a].rows[j].id != n.hosts[a].rows[i].id
    ensures var k := Exec(scheme, n, Exchange(scheme, n, a, i, now));
            a in k.hosts && j < |k.hosts[a].rows|
            && k.hosts[a].rows[j].deliveredAt == n.hosts[a].rows[j].deliveredAt
  {
    var labels := Exchange(scheme, n, a, i, now);
    StepsInTurn(scheme, n, labels);
    var sent := Next(scheme, n, labels[0]);
    var filed := Next(scheme, sent, labels[1]);
    NextGrows(scheme, n, labels[0]);
    NextGrows(scheme, sent, labels[1]);
    NextGrows(scheme, filed, labels[2]);
    DeliveredOnlyByConfirm(scheme, n, labels[0], a, j);
    DeliveredOnlyByConfirm(scheme, sent, labels[1], a, j);
    assert RowGrows(n.hosts[a].rows[j], sent.hosts[a].rows[j]);
    assert RowGrows(sent.hosts[a].rows[j], filed.hosts[a].rows[j]);
    DeliveredOnlyByConfirm(scheme, filed, labels[2], a, j);
  }

  /** Signing with two signatures: one for a chosen text, one for every other. */
  function TwoSignatures(text: seq<byte>): Scheme {
    var sign := (m: seq<byte>) => if m == text then seq(SIG_LEN, _ => 1 as byte) else seq(SIG_LEN, _ => 0 as byte);
    Scheme((sk: Secret) => sk, (sk: Secret, m: seq<byte>) => sign(m),
           (id: PeerId, m: seq<byte>, s: seq<byte>) => s == sign(m), (id: PeerId) => seq(32, _ => 0 as byte))
  }

  /** Two nodes with empty tables. */
  function TwoHosts(a: PeerId, b: PeerId): Net {
    Net(map[a := Host(a, [], 1), b := Host(b, [], 1)], {}, {}, {}, {}, {}, {})
  }

  function FirstLetter(a: PeerId, b: PeerId): Letter.Mail { Letter.New(a, b, [], [], 1) }

  function SecondLetter(a: PeerId, b: PeerId): Letter.Mail { Letter.New(a, b, [], [], 2) }

  lemma SchemeIsSound(text: seq<byte>)
    ensures TwoSignatures(text).Sound()
  {
  }

  lemma LettersDiffer(a: PeerId, b: PeerId)
    ensures Letter.SigningBytes(FirstLetter(a, b)) != Letter.SigningBytes(SecondLetter(a, b))
  {
    if Letter.SigningBytes(FirstLetter(a, b)) == Letter.SigningBytes(SecondLetter(a, b)) {
      Letter.SigningBytesInjective(FirstLetter(a, b), SecondLetter(a, b));
    }
  }

  ghost predicate Queued(n: Net, a: PeerId, b: PeerId) {
    && n.hosts == map[a := Host(a, [OutRow(1, FirstLetter(a, b)), OutRow(2, SecondLetter(a, b))], 3),
                      b := Host(b, [], 1)]
    && n.accepted == {}
  }

  ghost predicate BothArrived(n: Net, a: PeerId, b: PeerId) {
    && HasIn(n, b, FirstLetter(a, b)) && HasIn(n, b, SecondLetter(a, b))
    && a in n.hosts && |n.hosts[a].rows| >= 2
    && n.hosts[a].rows[0].deliveredAt.Some? && n.hosts[a].rows[1].deliveredAt.Some?
  }

  lemma QueueBoth(scheme: Scheme, a: PeerId, b: PeerId) returns (labels: seq<Label>)
    requires a != b && scheme.publicKey(a) == a && scheme.publicKey(b) == b
    ensures Runnable(scheme, TwoHosts(a, b), labels)
    ensures Queued(Exec(scheme, TwoHosts(a, b), labels), a, b)
  {
    var start := TwoHosts(a, b);
    var first, second := Compose(a, b, [], [], 1), Compose(a, b, [], [], 2);
    var one := Next(scheme, start, first);
    labels := [first, second];
    assert labels[1..] == [second] && [second][1..] == [];
    assert one.hosts[a] == Host(a, [OutRow(1, FirstLetter(a, b))], 2);
    assert Runnable(scheme, one, [second]);
    var two := Next(scheme, one, second);
    assert two.hosts[a] == Host(a, [OutRow(1, FirstLetter(a, b)), OutRow(2, SecondLetter(a, b))], 3);
    assert Exec(scheme, one, [second]) == two;
    assert two.hosts == map[a := two.hosts[a], b := Host(b, [], 1)];
  }

  lemma QueuedSoundly(scheme: Scheme, a: PeerId, b: PeerId) returns (labels: seq<Label>)
    requires a != b && scheme.publicKey(a) == a && scheme.publicKey(b) == b
    ensures Initial(scheme, TwoHosts(a, b)) && Runnable(scheme, TwoHosts(a, b), labels)
    ensures Queued(Exec(scheme, TwoHosts(a, b), labels), a, b) && Inv(scheme, Exec(scheme, TwoHosts(a, b), labels))
  {
    labels := QueueBoth(scheme, a, b);
    InvAlways(scheme, TwoHosts(a, b), labels);
  }

  lemma FirstExchange(scheme: Scheme, n: Net, a: PeerId, b: PeerId)
    requires a != b && scheme.Sound() && Inv(scheme, n) && Queued(n, a, b)
    ensures var labels := Exchange(scheme, n, a, 0, 0);
            Runnable(scheme, n, labels)
            && var k := Exec(scheme, n, labels);
               && NetGrows(n, k) && k.hosts[a].rows[0].deliveredAt.Some? && HasIn(k, b, FirstLetter(a, b))
               && IsPending(k.hosts[a].rows[1])
  {
    LetterOfQueued(1, FirstLetter(a, b));
    ExchangeDelivers(scheme, n, a, 0, 0);
    OthersWait(scheme, n, a, 0, 0, 1);
    assert RowGrows(n.hosts[a].rows[1], Exec(scheme, n, Exchange(scheme, n, a, 0, 0)).hosts[a].rows[1]);
  }

  lemma SecondIsUnmet(scheme: Scheme, n: Net, a: PeerId, b: PeerId)
    requires a != b && scheme == TwoSignatures(Letter.SigningBytes(FirstLetter(a, b))) && Queued(n, a, b)
    requires Runnable(scheme, n, Exchange(scheme, n, a, 0, 0))
    ensures var k := Exec(scheme, n, Exchange(scheme, n, a, 0, 0));
            a in k.hosts && Unmet(scheme, k, a, Letter.SigningBytes(SecondLetter(a, b)))
  {
    LetterOfQueued(1, FirstLetter(a, b));
    ExchangeMeetsOne(scheme, n, a, 0, 0);
    NothingIsLost(scheme, n, Exchange(scheme, n, a, 0, 0));
    SignaturesDiffer(a, b);
  }

  lemma SignaturesDiffer(a: PeerId, b: PeerId)
    ensures var scheme := TwoSignatures(Letter.SigningBytes(FirstLetter(a, b)));
            scheme.signer(a, Letter.SigningBytes(FirstLetter(a, b)))
            != scheme.signer(a, Letter.SigningBytes(SecondLetter(a, b)))
  {
    LettersDiffer(a, b);
    var scheme := TwoSignatures(Letter.SigningBytes(FirstLetter(a, b)));
    assert scheme.signer(a, Letter.SigningBytes(FirstLetter(a, b)))[0] == 1;
    assert scheme.signer(a, Letter.SigningBytes(SecondLetter(a, b)))[0] == 0;
  }

  lemma SecondExchange(scheme: Scheme, start: Net, n: Net, a: PeerId, b: PeerId)
    requires a in start.hosts && |start.hosts[a].rows| == 2
    requires start.hosts[a].rows[1] == OutRow(2, SecondLetter(a, b)) && NetGrows(start, n) && b in n.hosts
    requires scheme.Sound() && Inv(scheme, n) && IsPending(n.hosts[a].rows[1])
    requires Unmet(scheme, n, a, Letter.SigningBytes(SecondLetter(a, b)))
    ensures var labels := Exchange(scheme, n, a, 1, 0);
            Runnable(scheme, n, labels)
            && var k := Exec(scheme, n, labels);
               NetGrows(n, k) && k.hosts[a].rows[1].deliveredAt.Some? && HasIn(k, b, SecondLetter(a, b))
  {
    assert RowGrows(start.hosts[a].rows[1], n.hosts[a].rows[1]);
    LetterOfQueued(2, SecondLetter(a, b));
    ExchangeDelivers(scheme, n, a, 1, 0);
  }

  lemma BothExchanges(scheme: Scheme, n: Net, a: PeerId, b: PeerId) returns (labels: seq<Label>)
    requires a != b && scheme == TwoSignatures(Letter.SigningBytes(FirstLetter(a, b)))
    requires Inv(scheme, n) && Queued(n, a, b)
    ensures Runnable(scheme, n, labels) && BothArrived(Exec(scheme, n, labels), a, b)
  {
    SchemeIsSound(Letter.SigningBytes(FirstLetter(a, b)));
    FirstExchange(scheme, n, a, b);
    SecondIsUnmet(scheme, n, a, b);
    var first := Exchange(scheme, n, a, 0, 0);
    var k := Exec(scheme, n, first);
    InvAlways(scheme, n, first);
    SecondExchange(scheme, n, k, a, b);
    var second := Exchange(scheme, k, a, 1, 0);
    HasInStays(k, Exec(scheme, k, second), b, FirstLetter(a, b));
    assert RowGrows(k.hosts[a].rows[0], Exec(scheme, k, second).hosts[a].rows[0]);
    RunThen(scheme, n, first, second);
    labels := first + second;
  }

  /** Two different letters, each with its own signature, go from one outbox to one inbox in one run. */
  lemma TwoLettersArrive(a: PeerId, b: PeerId) returns (labels: seq<Label>)
    requires a != b
    ensures FirstLetter(a, b) != SecondLetter(a, b)
    ensures var scheme, start := TwoSignatures(Letter.SigningBytes(FirstLetter(a, b))), TwoHosts(a, b);
            scheme.Sound() && Initial(scheme, start) && Runnable(scheme, start, labels)
            && BothArrived(Exec(scheme, start, labels), a, b)
  {
    var start, scheme := TwoHosts(a, b), TwoSignatures(Letter.SigningBytes(FirstLetter(a, b)));
    SchemeIsSound(Letter.SigningBytes(FirstLetter(a, b)));
    var queue := QueuedSoundly(scheme, a, b);
    labels := BothExchanges(scheme, Exec(scheme, start, queue), a, b);
    RunThen(scheme, start, queue, labels);
    labels := queue + labels;
  }

  lemma WrongAnswerAfterQueueing(scheme: Scheme, n: Net, a: PeerId, b: PeerId) returns (labels: seq<Label>)
    requires a != b && scheme.Sound() && Inv(scheme, n) && Queued(n, a, b)
    ensures Runnable(scheme, n, labels)
    ensures var k := Exec(scheme, n, labels);
            a in k.hosts && |k.hosts[a].rows| >= 1 && LetterOf(k.hosts[a].rows[0], a) == FirstLetter(a, b)
            && k.hosts[a].rows[0].deliveredAt.Some? && b in k.hosts && !HasIn(k, b, FirstLetter(a, b))
  {
    LetterOfQueued(1, FirstLetter(a, b));
    AttemptPosts(scheme, n, a, 0);
    InvHolds(scheme, n, Attempt(a, 0));
    var row, sent := n.hosts[a].rows[0], Next(scheme, n, Attempt(a, 0));
    var post := Post(a, row.id, row.peer, SealedRow(scheme, n.hosts[a], a, row));
    var i := WrongAnswerMisleads(scheme, sent, post, 0);
    ThreeSteps(scheme, n, Attempt(a, 0), WrongAnswer(post), Confirm(post, 0));
    labels := [Attempt(a, 0), WrongAnswer(post), Confirm(post, 0)];
  }

  /** A run from the start that ends with a letter marked delivered which its recipient, an honest
      node, never got: all it takes is one answer from another node at the address dialled. */
  lemma WrongAnswerIsReachable(a: PeerId, b: PeerId) returns (labels: seq<Label>)
    requires a != b
    ensures var scheme, start := TwoSignatures(Letter.SigningBytes(FirstLetter(a, b))), TwoHosts(a, b);
            scheme.Sound() && Initial(scheme, start) && Runnable(scheme, start, labels)
            && var k := Exec(scheme, start, labels);
               a in k.hosts && |k.hosts[a].rows| >= 1 && LetterOf(k.hosts[a].rows[0], a) == FirstLetter(a, b)
               && k.hosts[a].rows[0].deliveredAt.Some? && b in k.hosts && !HasIn(k, b, FirstLetter(a, b))
  {
    var start, scheme := TwoHosts(a, b), TwoSignatures(Letter.SigningBytes(FirstLetter(a, b)));
    SchemeIsSound(Letter.SigningBytes(FirstLetter(a, b)));
    var queue := QueuedSoundly(scheme, a, b);
    labels := WrongAnswerAfterQueueing(scheme, Exec(scheme, start, queue), a, b);
    RunThen(scheme, start, queue, labels);
    labels := queue + labels;
  }
}

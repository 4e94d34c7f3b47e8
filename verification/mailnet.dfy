/**
  Store-and-forward mail between nodes, end to end, over a network that loses,
  duplicates and delays requests and acknowledgements, among strangers who may
  post anything (crates/intraweb-cli/src/mail.rs:99-163,
  crates/intraweb-cli/src/api.rs:161-201).

  A post, once made, may arrive never, once or many times, at any later moment;
  so may its acknowledgement. What is assumed of signatures is stated by Honest.
 */
module MailNetwork {
  import opened Wrappers
  import opened Bytes
  import opened Identity
  import opened Store
  import opened Outbox
  import Base64
  import Letter
  import Presence

  datatype Host = Host(sk: Secret, rows: seq<Row>, nextId: nat)

  /** One POST of one outbox row to its recipient's node. */
  datatype Post = Post(src: PeerId, rowId: nat, dst: PeerId, sealed: Letter.SignedMail)

  datatype Net = Net(
    hosts: map<PeerId, Host>,                             // the honest nodes
    posts: set<Post>,                                     // every request ever made
    acks: set<Post>,                                      // every request ever answered with success
    wrong: set<Post>,                                     // those answered so by somebody else than the recipient
    took: set<Post>,                                      // of those, the ones that misled the sender
    signed: set<(PeerId, seq<byte>)>,                     // what each honest key has signed
    accepted: set<(PeerId, seq<byte>, seq<byte>)>)        // every signature found good: key, message, signature

  datatype Label =
    | Compose(a: PeerId, to: PeerId, subject: seq<byte>, body: seq<byte>, at: u64)
    | Announce(a: PeerId, p: Presence.Record)
    | Attempt(a: PeerId, i: nat)                          // an outbox pass reaches row i, maybe delivered meanwhile
    | Arrive(post: Post, now: nat)                        // a request arrives, again or for the first time
    | Inject(dst: PeerId, sealed: Letter.SignedMail, now: nat)
    | WrongAnswer(post: Post)                             // another node has the recipient's address, or it lies
    | Confirm(post: Post, now: nat)                       // an answer reaches the sender
    | ReadAll(a: PeerId, now: nat)

  /**
    What is assumed of a signature that checks out: under an honest key it is the
    one that key's owner made for that message, and it is not also the signature
    of something else met in this run.
   */
  ghost predicate Honest(scheme: Scheme, n: Net, sealed: Letter.SignedMail) {
    match Base64.Decode(sealed.signature)
    case None => true
    case Some(sig) =>
      var from, text := sealed.mail.from, Letter.SigningBytes(sealed.mail);
      scheme.Verify(from, text, sig) ==>
        && (from in n.hosts ==> (from, text) in n.signed && sig == scheme.signer(n.hosts[from].sk, text))
        && (forall t :: t in n.accepted && t.2 == sig ==> t.0 == from && t.1 == text)
  }

  ghost predicate Enabled(scheme: Scheme, n: Net, l: Label) {
    match l
    case Compose(a, _, _, _, _) => a in n.hosts
    case Announce(a, _) => a in n.hosts
    case Attempt(a, i) => a in n.hosts && i < |n.hosts[a].rows| && n.hosts[a].rows[i].direction == Out
    case Arrive(post, _) => post in n.posts && post.dst in n.hosts && Honest(scheme, n, post.sealed)
    case Inject(dst, sealed, _) => dst in n.hosts && Honest(scheme, n, sealed)
    case WrongAnswer(post) => post in n.posts
    case Confirm(post, _) => post in n.acks && post.src in n.hosts
    case ReadAll(a, _) => a in n.hosts
  }

  function WithRows(n: Net, a: PeerId, rows: seq<Row>, nextId: nat): Net
    requires a in n.hosts
  {
    n.(hosts := n.hosts[a := n.hosts[a].(rows := rows, nextId := nextId)])
  }

  /** `receive_mail`: check, then file unless already held. */
  function Received(scheme: Scheme, n: Net, dst: PeerId, sealed: Letter.SignedMail, now: nat): Net
    requires dst in n.hosts
  {
    if Letter.Accept(scheme, sealed, dst).Err? then n
    else
      var h, sig := n.hosts[dst], Base64.Decode(sealed.signature).value;
      var nextId := if AlreadyHeld(h.rows, sealed.signature) then h.nextId else h.nextId + 1;
      WithRows(n, dst, Filed(h.rows, h.nextId, sealed, now), nextId)
        .(accepted := n.accepted + {(sealed.mail.from, Letter.SigningBytes(sealed.mail), sig)})
  }

  function SealedRow(scheme: Scheme, h: Host, a: PeerId, row: Row): Letter.SignedMail {
    var m := LetterOf(row, a);
    Letter.SignedMail(m, Base64.Encode(scheme.signer(h.sk, Letter.SigningBytes(m))))
  }

  ghost function Next(scheme: Scheme, n: Net, l: Label): Net
    requires Enabled(scheme, n, l)
  {
    match l
    case Compose(a, to, subject, body, at) =>
      var m, h := Letter.New(a, to, subject, body, at), n.hosts[a];
      if Letter.CheckLimits(m).Err? then n else WithRows(n, a, h.rows + [OutRow(h.nextId, m)], h.nextId + 1)
    case Announce(a, p) => n.(signed := n.signed + {(a, Presence.SigningBytes(p))})
    case Attempt(a, i) =>
      var h, row := n.hosts[a], n.hosts[a].rows[i];
      if Letter.Seal(scheme, LetterOf(row, a), h.sk).Err? then n
      else
        var sealed := Letter.Seal(scheme, LetterOf(row, a), h.sk).value;
        n.(posts := n.posts + {Post(a, row.id, row.peer, sealed)},
           signed := n.signed + {(a, Letter.SigningBytes(LetterOf(row, a)))})
    case Arrive(post, now) =>
      var m := Received(scheme, n, post.dst, post.sealed, now);
      if Letter.Accept(scheme, post.sealed, post.dst).Ok? then m.(acks := m.acks + {post}) else m
    case Inject(dst, sealed, now) => Received(scheme, n, dst, sealed, now)
    case WrongAnswer(post) => n.(acks := n.acks + {post}, wrong := n.wrong + {post})
    case Confirm(post, now) =>
      var h := n.hosts[post.src];
      WithRows(n, post.src, Delivered(h.rows, post.rowId, now), h.nextId)
        .(took := if post in n.wrong && !HasIn(n, post.dst, post.sealed.mail) then n.took + {post} else n.took)
    case ReadAll(a, now) => WithRows(n, a, AllRead(n.hosts[a].rows, now), n.hosts[a].nextId)
  }

  // ---- nothing is lost ----

  /** A row keeps everything but its two time stamps, and does not become undelivered. */
  ghost predicate RowGrows(before: Row, after: Row) {
    && after == before.(deliveredAt := after.deliveredAt, readAt := after.readAt)
    && (before.deliveredAt.Some? ==> after.deliveredAt.Some?)
  }

  ghost predicate RowsGrow(before: seq<Row>, after: seq<Row>) {
    |before| <= |after| && forall i :: 0 <= i < |before| ==> RowGrows(before[i], after[i])
  }

  ghost predicate NetGrows(n: Net, m: Net) {
    && n.hosts.Keys == m.hosts.Keys
    && (forall a :: a in n.hosts ==>
          n.hosts[a].sk == m.hosts[a].sk && RowsGrow(n.hosts[a].rows, m.hosts[a].rows))
    && n.posts <= m.posts && n.acks <= m.acks && n.wrong <= m.wrong && n.took <= m.took
    && n.signed <= m.signed && n.accepted <= m.accepted
  }

  lemma RowsGrowInPlace(rows: seq<Row>, id: nat, now: nat)
    ensures RowsGrow(rows, rows) && RowsGrow(rows, Delivered(rows, id, now)) && RowsGrow(rows, AllRead(rows, now))
  {
  }

  lemma RowsGrowAtEnd(rows: seq<Row>, row: Row)
    ensures RowsGrow(rows, rows + [row])
  {
  }

  lemma WithRowsGrows(n: Net, a: PeerId, rows: seq<Row>, nextId: nat)
    requires a in n.hosts && RowsGrow(n.hosts[a].rows, rows)
    ensures NetGrows(n, WithRows(n, a, rows, nextId))
  {
    forall b | b in n.hosts ensures RowsGrow(n.hosts[b].rows, WithRows(n, a, rows, nextId).hosts[b].rows) {
      RowsGrowInPlace(n.hosts[b].rows, 0, 0);
    }
  }

  lemma ReceivedGrows(scheme: Scheme, n: Net, dst: PeerId, sealed: Letter.SignedMail, now: nat)
    requires dst in n.hosts
    ensures NetGrows(n, Received(scheme, n, dst, sealed, now))
  {
    var h := n.hosts[dst];
    RowsGrowInPlace(h.rows, 0, 0);
    RowsGrowAtEnd(h.rows, InRow(h.nextId, sealed, now));
    SelfGrows(n);
    WithRowsGrows(n, dst, h.rows, h.nextId);
    WithRowsGrows(n, dst, Filed(h.rows, h.nextId, sealed, now), h.nextId + 1);
  }

  lemma NextGrows(scheme: Scheme, n: Net, l: Label)
    requires Enabled(scheme, n, l)
    ensures NetGrows(n, Next(scheme, n, l))
  {
    match l
    case Compose(a, to, subject, body, at) =>
      var h := n.hosts[a];
      var row := OutRow(h.nextId, Letter.New(a, to, subject, body, at));
      RowsGrowAtEnd(h.rows, row);
      WithRowsGrows(n, a, h.rows + [row], h.nextId + 1);
      SelfGrows(n);
    case Arrive(post, now) => ReceivedGrows(scheme, n, post.dst, post.sealed, now);
    case Inject(dst, sealed, now) => ReceivedGrows(scheme, n, dst, sealed, now);
    case Confirm(post, now) =>
      var h := n.hosts[post.src];
      RowsGrowInPlace(h.rows, post.rowId, now);
      WithRowsGrows(n, post.src, Delivered(h.rows, post.rowId, now), h.nextId);
    case ReadAll(a, now) =>
      RowsGrowInPlace(n.hosts[a].rows, 0, now);
      WithRowsGrows(n, a, AllRead(n.hosts[a].rows, now), n.hosts[a].nextId);
    case _ => SelfGrows(n);
  }

  lemma SelfGrows(n: Net)
    ensures NetGrows(n, n)
  {
    forall b | b in n.hosts ensures RowsGrow(n.hosts[b].rows, n.hosts[b].rows) {
      RowsGrowInPlace(n.hosts[b].rows, 0, 0);
    }
  }

  ghost predicate HasOut(n: Net, a: PeerId, m: Letter.Mail) {
    a in n.hosts && exists i :: 0 <= i < |n.hosts[a].rows| && n.hosts[a].rows[i].direction == Out
                                && LetterOf(n.hosts[a].rows[i], a) == m
  }

  ghost predicate HasIn(n: Net, d: PeerId, m: Letter.Mail) {
    d in n.hosts && exists i :: 0 <= i < |n.hosts[d].rows| && n.hosts[d].rows[i].direction == In
                                && LetterOf(n.hosts[d].rows[i], d) == m
  }

  lemma HasInStays(n: Net, k: Net, d: PeerId, m: Letter.Mail)
    requires NetGrows(n, k) && HasIn(n, d, m)
    ensures HasIn(k, d, m)
  {
    var i :| 0 <= i < |n.hosts[d].rows| && n.hosts[d].rows[i].direction == In && LetterOf(n.hosts[d].rows[i], d) == m;
    assert RowGrows(n.hosts[d].rows[i], k.hosts[d].rows[i]);
  }

  lemma HasOutStays(n: Net, k: Net, a: PeerId, m: Letter.Mail)
    requires NetGrows(n, k) && HasOut(n, a, m)
    ensures HasOut(k, a, m)
  {
    var i :| 0 <= i < |n.hosts[a].rows| && n.hosts[a].rows[i].direction == Out && LetterOf(n.hosts[a].rows[i], a) == m;
    assert RowGrows(n.hosts[a].rows[i], k.hosts[a].rows[i]);
  }

  // ---- the invariant ----

  ghost predicate HostSound(scheme: Scheme, a: PeerId, h: Host) {
    && scheme.publicKey(h.sk) == a
    && ValidTable(h.rows, h.nextId)
    && InboundUnique(h.rows)
    && (forall i :: 0 <= i < |h.rows| && h.rows[i].direction == Out ==> Letter.CheckLimits(LetterOf(h.rows[i], a)).Ok?)
  }

  /** An inbox row carries a good signature of exactly the letter it shows; of an honest
      sender, the one that sender made. */
  ghost predicate InSound(scheme: Scheme, n: Net, d: PeerId, row: Row) {
    row.direction == In ==>
      && row.signature.Some?
      && Base64.Decode(row.signature.value).Some?
      && var text, sig := Letter.SigningBytes(LetterOf(row, d)), Base64.Decode(row.signature.value).value;
         && (row.peer, text, sig) in n.accepted
         && (row.peer in n.hosts ==> (row.peer, text) in n.signed && sig == scheme.signer(n.hosts[row.peer].sk, text))
  }

  /** Some post of this row was answered by another than its recipient. */
  ghost predicate Misled(n: Net, a: PeerId, id: nat) {
    exists post :: post in n.wrong && post.src == a && post.rowId == id
  }

  /** Such an answer reached the sender before the letter reached its recipient. */
  ghost predicate Took(n: Net, a: PeerId, id: nat) {
    exists post :: post in n.took && post.src == a && post.rowId == id
  }

  /** An outbox row is marked delivered only when its letter is in the recipient's inbox, or
      the sender took somebody else's answer for the recipient's. */
  ghost predicate OutSound(n: Net, a: PeerId, row: Row) {
    row.direction == Out && row.deliveredAt.Some? && row.peer in n.hosts ==>
      HasIn(n, row.peer, LetterOf(row, a)) || Took(n, a, row.id)
  }

  ghost predicate SignedSound(n: Net, a: PeerId, text: seq<byte>) {
    || (exists p :: text == Presence.SigningBytes(p))
    || (exists m :: HasOut(n, a, m) && text == Letter.SigningBytes(m))
  }

  ghost predicate PostSound(n: Net, post: Post) {
    post.src in n.hosts && exists i :: 0 <= i < |n.hosts[post.src].rows| && PostOf(n.hosts[post.src].rows[i], post)
  }

  ghost predicate PostOf(row: Row, post: Post) {
    row.id == post.rowId && row.direction == Out && row.peer == post.dst && LetterOf(row, post.src) == post.sealed.mail
  }

  ghost predicate AckSound(n: Net, post: Post) {
    post in n.posts && (post.dst in n.hosts ==> HasIn(n, post.dst, post.sealed.mail) || post in n.wrong)
  }

  /** A wrong answer that was taken has marked its row. */
  ghost predicate TookSound(n: Net, post: Post) {
    post in n.wrong && post.src in n.hosts
    && exists i :: 0 <= i < |n.hosts[post.src].rows|
                   && PostOf(n.hosts[post.src].rows[i], post) && n.hosts[post.src].rows[i].deliveredAt.Some?
  }

  ghost predicate RowsSound(scheme: Scheme, n: Net) {
    forall a, i :: a in n.hosts && 0 <= i < |n.hosts[a].rows| ==>
      InSound(scheme, n, a, n.hosts[a].rows[i]) && OutSound(n, a, n.hosts[a].rows[i])
  }

  ghost predicate Inv(scheme: Scheme, n: Net) {
    && (forall a :: a in n.hosts ==> HostSound(scheme, a, n.hosts[a]))
    && RowsSound(scheme, n)
    && (forall s :: s in n.signed ==> SignedSound(n, s.0, s.1))
    && (forall post :: post in n.posts ==> PostSound(n, post))
    && (forall post :: post in n.acks ==> AckSound(n, post))
    && n.wrong <= n.acks
    && (forall post :: post in n.took ==> TookSound(n, post))
  }

  lemma OldFactsStay(scheme: Scheme, n: Net, k: Net)
    requires Inv(scheme, n) && NetGrows(n, k)
    ensures forall s :: s in n.signed ==> SignedSound(k, s.0, s.1)
    ensures forall post :: post in n.posts ==> PostSound(k, post)
    ensures forall post :: post in n.acks ==> AckSound(k, post)
    ensures forall post :: post in n.took ==> TookSound(k, post)
  {
    forall post | post in n.took ensures TookSound(k, post) {
      assert TookSound(n, post);
      var i :| 0 <= i < |n.hosts[post.src].rows|
               && PostOf(n.hosts[post.src].rows[i], post) && n.hosts[post.src].rows[i].deliveredAt.Some?;
      assert RowGrows(n.hosts[post.src].rows[i], k.hosts[post.src].rows[i]);
      assert PostOf(k.hosts[post.src].rows[i], post);
    }
    forall s | s in n.signed ensures SignedSound(k, s.0, s.1) {
      assert SignedSound(n, s.0, s.1);
      if m :| HasOut(n, s.0, m) && s.1 == Letter.SigningBytes(m) {
        HasOutStays(n, k, s.0, m);
      }
    }
    forall post | post in n.posts ensures PostSound(k, post) {
      assert PostSound(n, post);
      var i :| 0 <= i < |n.hosts[post.src].rows| && PostOf(n.hosts[post.src].rows[i], post);
      assert RowGrows(n.hosts[post.src].rows[i], k.hosts[post.src].rows[i]);
      assert PostOf(k.hosts[post.src].rows[i], post);
    }
    forall post | post in n.acks ensures AckSound(k, post) {
      assert AckSound(n, post);
      if post.dst in n.hosts && post !in n.wrong {
        HasInStays(n, k, post.dst, post.sealed.mail);
      }
    }
  }

  lemma InSoundStays(scheme: Scheme, n: Net, k: Net, d: PeerId, before: Row, after: Row)
    requires NetGrows(n, k) && RowGrows(before, after) && InSound(scheme, n, d, before)
    ensures InSound(scheme, k, d, after)
  {
    assert LetterOf(after, d) == LetterOf(before, d);
  }

  lemma OutSoundStays(n: Net, k: Net, a: PeerId, before: Row, after: Row)
    requires NetGrows(n, k) && RowGrows(before, after) && OutSound(n, a, before)
    requires after.deliveredAt.Some? ==> before.deliveredAt.Some?
    ensures OutSound(k, a, after)
  {
    if after.direction == Out && after.deliveredAt.Some? && after.peer in k.hosts && !Took(n, a, before.id) {
      HasInStays(n, k, after.peer, LetterOf(before, a));
    }
  }

  /** A row that has just become delivered answers to an acknowledged post of that very row. */
  lemma ConfirmedIsFiled(scheme: Scheme, n: Net, post: Post, now: nat, i: nat)
    requires Inv(scheme, n) && Enabled(scheme, n, Confirm(post, now)) && i < |n.hosts[post.src].rows|
    requires n.hosts[post.src].rows[i].id == post.rowId
    ensures n.hosts[post.src].rows[i].peer in n.hosts ==>
              HasIn(n, n.hosts[post.src].rows[i].peer, LetterOf(n.hosts[post.src].rows[i], post.src))
              || Took(Next(scheme, n, Confirm(post, now)), post.src, post.rowId)
  {
    assert AckSound(n, post) && PostSound(n, post);
    var rows := n.hosts[post.src].rows;
    var j :| 0 <= j < |rows| && PostOf(rows[j], post);
    assert HostSound(scheme, post.src, n.hosts[post.src]);
    assert i == j;
  }

  lemma DeliveredOnlyByConfirm(scheme: Scheme, n: Net, l: Label, a: PeerId, i: nat)
    requires Enabled(scheme, n, l) && a in n.hosts && i < |n.hosts[a].rows|
    requires NetGrows(n, Next(scheme, n, l))
    requires l.Confirm? && l.post.src == a ==> n.hosts[a].rows[i].id != l.post.rowId
    ensures Next(scheme, n, l).hosts[a].rows[i].deliveredAt == n.hosts[a].rows[i].deliveredAt
  {
  }

  lemma OldRowStaysSound(scheme: Scheme, n: Net, l: Label, a: PeerId, i: nat)
    requires Inv(scheme, n) && Enabled(scheme, n, l) && a in n.hosts && i < |n.hosts[a].rows|
    requires NetGrows(n, Next(scheme, n, l))
    ensures var k := Next(scheme, n, l);
            InSound(scheme, k, a, k.hosts[a].rows[i]) && OutSound(k, a, k.hosts[a].rows[i])
  {
    var k := Next(scheme, n, l);
    var before, after := n.hosts[a].rows[i], k.hosts[a].rows[i];
    assert RowGrows(before, after);
    InSoundStays(scheme, n, k, a, before, after);
    if l.Confirm? && l.post.src == a && before.id == l.post.rowId {
      ConfirmedIsFiled(scheme, n, l.post, l.now, i);
      if before.peer in n.hosts && !Took(k, a, before.id) {
        HasInStays(n, k, before.peer, LetterOf(before, a));
      }
    } else {
      DeliveredOnlyByConfirm(scheme, n, l, a, i);
      OutSoundStays(n, k, a, before, after);
    }
  }

  /** What acceptance establishes about an envelope, on top of what is assumed of signatures. */
  lemma AcceptedIsGenuine(scheme: Scheme, n: Net, dst: PeerId, sealed: Letter.SignedMail)
    requires Honest(scheme, n, sealed) && Letter.Accept(scheme, sealed, dst).Ok?
    ensures Base64.Decode(sealed.signature).Some? && sealed.mail.to == dst && sealed.mail.version == Letter.MAIL_VERSION
    ensures var from, text := sealed.mail.from, Letter.SigningBytes(sealed.mail);
            var sig := Base64.Decode(sealed.signature).value;
            (from in n.hosts ==> (from, text) in n.signed && sig == scheme.signer(n.hosts[from].sk, text))
            && forall t :: t in n.accepted && t.2 == sig ==> t.0 == from && t.1 == text
  {
    Letter.AcceptIff(scheme, sealed, dst);
  }

  /** Answering "already held" is truthful: the row with that signature is this letter. */
  lemma HeldIsSame(scheme: Scheme, n: Net, dst: PeerId, sealed: Letter.SignedMail)
    requires Inv(scheme, n) && dst in n.hosts && Honest(scheme, n, sealed) && Letter.Accept(scheme, sealed, dst).Ok?
    requires AlreadyHeld(n.hosts[dst].rows, sealed.signature)
    ensures HasIn(n, dst, sealed.mail)
  {
    AcceptedIsGenuine(scheme, n, dst, sealed);
    var rows := n.hosts[dst].rows;
    var i :| 0 <= i < |rows| && rows[i].direction == In && rows[i].signature == Some(sealed.signature);
    assert InSound(scheme, n, dst, rows[i]);
    Letter.SigningBytesInjective(LetterOf(rows[i], dst), sealed.mail);
  }

  lemma ReceivedIsFiled(scheme: Scheme, n: Net, dst: PeerId, sealed: Letter.SignedMail, now: nat)
    requires Inv(scheme, n) && dst in n.hosts && Honest(scheme, n, sealed) && Letter.Accept(scheme, sealed, dst).Ok?
    ensures var k := Received(scheme, n, dst, sealed, now);
            HasIn(k, dst, sealed.mail)
            && (!AlreadyHeld(n.hosts[dst].rows, sealed.signature) ==>
                  InSound(scheme, k, dst, InRow(n.hosts[dst].nextId, sealed, now)))
  {
    var k, h := Received(scheme, n, dst, sealed, now), n.hosts[dst];
    if AlreadyHeld(h.rows, sealed.signature) {
      HeldIsSame(scheme, n, dst, sealed);
      ReceivedGrows(scheme, n, dst, sealed, now);
      HasInStays(n, k, dst, sealed.mail);
    } else {
      AcceptedIsGenuine(scheme, n, dst, sealed);
      LetterOfFiled(h.nextId, sealed, now);
      assert k.hosts[dst].rows[|h.rows|] == InRow(h.nextId, sealed, now);
    }
  }

  lemma AcksGrow(n: Net, post: Post)
    ensures NetGrows(n, n.(acks := n.acks + {post}))
  {
    SelfGrows(n);
  }

  lemma NewReceivedRow(scheme: Scheme, n: Net, dst: PeerId, sealed: Letter.SignedMail, now: nat, a: PeerId, i: nat)
    requires Inv(scheme, n) && dst in n.hosts && a in n.hosts && Honest(scheme, n, sealed)
    requires |n.hosts[a].rows| <= i < |Received(scheme, n, dst, sealed, now).hosts[a].rows|
    ensures var k := Received(scheme, n, dst, sealed, now);
            k.hosts[a].rows[i].direction == In && InSound(scheme, k, a, k.hosts[a].rows[i])
  {
    if Letter.Accept(scheme, sealed, dst).Ok? {
      ReceivedIsFiled(scheme, n, dst, sealed, now);
    }
  }

  lemma NewComposedRow(scheme: Scheme, n: Net, l: Label, a: PeerId, i: nat)
    requires Enabled(scheme, n, l) && l.Compose? && a in n.hosts
    requires |n.hosts[a].rows| <= i < |Next(scheme, n, l).hosts[a].rows|
    ensures Next(scheme, n, l).hosts[a].rows[i].direction == Out
    ensures Next(scheme, n, l).hosts[a].rows[i].deliveredAt.None?
  {
  }

  /** Only composing and receiving add rows. */
  lemma OthersAddNoRows(scheme: Scheme, n: Net, l: Label, a: PeerId)
    requires Enabled(scheme, n, l) && a in n.hosts && !l.Compose? && !l.Arrive? && !l.Inject?
    ensures a in Next(scheme, n, l).hosts && |Next(scheme, n, l).hosts[a].rows| == |n.hosts[a].rows|
  {
  }

  /** A row that a step adds: a letter just queued, or one just received. */
  lemma NewRowIsSound(scheme: Scheme, n: Net, l: Label, k: Net, a: PeerId, i: nat)
    requires Inv(scheme, n) && Enabled(scheme, n, l) && k == Next(scheme, n, l) && a in n.hosts && a in k.hosts
    requires |n.hosts[a].rows| <= i < |k.hosts[a].rows|
    ensures InSound(scheme, k, a, k.hosts[a].rows[i]) && OutSound(k, a, k.hosts[a].rows[i])
  {
    if l.Compose? {
      NewComposedRow(scheme, n, l, a, i);
    } else if l.Arrive? {
      var m := Received(scheme, n, l.post.dst, l.post.sealed, l.now);
      assert k.hosts == m.hosts;
      NewReceivedRow(scheme, n, l.post.dst, l.post.sealed, l.now, a, i);
      AcksGrow(m, l.post);
      SelfGrows(m);
      RowsGrowInPlace([m.hosts[a].rows[i]], 0, 0);
      InSoundStays(scheme, m, k, a, m.hosts[a].rows[i], k.hosts[a].rows[i]);
    } else if l.Inject? {
      NewReceivedRow(scheme, n, l.dst, l.sealed, l.now, a, i);
    } else {
      OthersAddNoRows(scheme, n, l, a);
    }
  }

  lemma RowsStaySound(scheme: Scheme, n: Net, l: Label)
    requires Inv(scheme, n) && Enabled(scheme, n, l)
    ensures RowsSound(scheme, Next(scheme, n, l))
  {
    var k := Next(scheme, n, l);
    NextGrows(scheme, n, l);
    forall a, i | a in k.hosts && 0 <= i < |k.hosts[a].rows|
      ensures InSound(scheme, k, a, k.hosts[a].rows[i]) && OutSound(k, a, k.hosts[a].rows[i])
    {
      if i < |n.hosts[a].rows| {
        OldRowStaysSound(scheme, n, l, a, i);
      } else {
        NewRowIsSound(scheme, n, l, k, a, i);
      }
    }
  }

  lemma SameRowsSound(scheme: Scheme, a: PeerId, h: Host, g: Host)
    requires HostSound(scheme, a, h) && g.sk == h.sk && g.nextId >= h.nextId
    requires RowsGrow(h.rows, g.rows) && |g.rows| == |h.rows|
    ensures HostSound(scheme, a, g)
  {
    forall i | 0 <= i < |g.rows|
      ensures LetterOf(g.rows[i], a) == LetterOf(h.rows[i], a) && g.rows[i].id == h.rows[i].id
    {
      assert RowGrows(h.rows[i], g.rows[i]);
    }
    assert forall i :: 0 <= i < |g.rows| ==> g.rows[i].direction == h.rows[i].direction;
    assert forall i :: 0 <= i < |g.rows| ==> g.rows[i].signature == h.rows[i].signature;
  }

  lemma QueuedHostSound(scheme: Scheme, a: PeerId, h: Host, m: Letter.Mail)
    requires HostSound(scheme, a, h) && m.from == a && m.version == Letter.MAIL_VERSION && Letter.CheckLimits(m).Ok?
    ensures HostSound(scheme, a, h.(rows := h.rows + [OutRow(h.nextId, m)], nextId := h.nextId + 1))
  {
    LetterOfQueued(h.nextId, m);
  }

  lemma ReceivingHostSound(scheme: Scheme, n: Net, dst: PeerId, sealed: Letter.SignedMail, now: nat, a: PeerId)
    requires dst in n.hosts && a in n.hosts && HostSound(scheme, a, n.hosts[a])
    ensures HostSound(scheme, a, Received(scheme, n, dst, sealed, now).hosts[a])
  {
    var h := n.hosts[a];
    FilingKeepsUnique(h.rows, h.nextId, sealed, now);
    var g := h.(rows := Filed(h.rows, h.nextId, sealed, now), nextId := h.nextId + 1);
    assert HostSound(scheme, a, g);
    assert Received(scheme, n, dst, sealed, now).hosts[a] in {h, g};
  }

  lemma ComposingHostSound(scheme: Scheme, n: Net, l: Label, a: PeerId)
    requires Enabled(scheme, n, l) && l.Compose? && a in n.hosts && HostSound(scheme, a, n.hosts[a])
    ensures HostSound(scheme, a, Next(scheme, n, l).hosts[a])
  {
    var m := Letter.New(l.a, l.to, l.subject, l.body, l.at);
    if l.a == a && Letter.CheckLimits(m).Ok? {
      QueuedHostSound(scheme, a, n.hosts[a], m);
    }
  }

  lemma HostsStaySound(scheme: Scheme, n: Net, l: Label, k: Net, a: PeerId)
    requires Inv(scheme, n) && Enabled(scheme, n, l) && k == Next(scheme, n, l) && NetGrows(n, k) && a in n.hosts
    ensures HostSound(scheme, a, k.hosts[a])
  {
    assert HostSound(scheme, a, n.hosts[a]);
    if l.Compose? {
      ComposingHostSound(scheme, n, l, a);
    } else if l.Arrive? {
      ReceivingHostSound(scheme, n, l.post.dst, l.post.sealed, l.now, a);
    } else if l.Inject? {
      ReceivingHostSound(scheme, n, l.dst, l.sealed, l.now, a);
    } else {
      OthersAddNoRows(scheme, n, l, a);
      assert k.hosts[a].nextId == n.hosts[a].nextId;
      SameRowsSound(scheme, a, n.hosts[a], k.hosts[a]);
    }
  }

  lemma NewFactsHold(scheme: Scheme, n: Net, l: Label, k: Net)
    requires Inv(scheme, n) && Enabled(scheme, n, l) && k == Next(scheme, n, l)
    ensures forall s :: s in k.signed && s !in n.signed ==> SignedSound(k, s.0, s.1)
    ensures forall post :: post in k.posts && post !in n.posts ==> PostSound(k, post)
    ensures forall post :: post in k.acks && post !in n.acks ==> AckSound(k, post)
  {
    if l.Announce? {
      assert SignedSound(k, l.a, Presence.SigningBytes(l.p));
    } else if l.Attempt? {
      AttemptFacts(scheme, n, l.a, l.i);
    } else if l.Arrive? {
      ArriveFacts(scheme, n, l.post, l.now);
    }
  }

  lemma ArriveFacts(scheme: Scheme, n: Net, post: Post, now: nat)
    requires Inv(scheme, n) && Enabled(scheme, n, Arrive(post, now))
    ensures var k := Next(scheme, n, Arrive(post, now));
            k.signed == n.signed && k.posts == n.posts
            && forall p :: p in k.acks && p !in n.acks ==> AckSound(k, p)
  {
    if Letter.Accept(scheme, post.sealed, post.dst).Ok? {
      ReceivedIsFiled(scheme, n, post.dst, post.sealed, now);
      var m := Received(scheme, n, post.dst, post.sealed, now);
      AcksGrow(m, post);
      HasInStays(m, m.(acks := m.acks + {post}), post.dst, post.sealed.mail);
    }
  }

  lemma AttemptFacts(scheme: Scheme, n: Net, a: PeerId, i: nat)
    requires Inv(scheme, n) && Enabled(scheme, n, Attempt(a, i))
    ensures var k, row := Next(scheme, n, Attempt(a, i)), n.hosts[a].rows[i];
            SignedSound(k, a, Letter.SigningBytes(LetterOf(row, a)))
            && forall sealed: Letter.SignedMail :: sealed.mail == LetterOf(row, a) ==>
                 PostSound(k, Post(a, row.id, row.peer, sealed))
  {
    var k, row := Next(scheme, n, Attempt(a, i)), n.hosts[a].rows[i];
    assert k.hosts == n.hosts && k.hosts[a].rows[i] == row;
    assert HasOut(k, a, LetterOf(row, a));
    forall sealed: Letter.SignedMail | sealed.mail == LetterOf(row, a)
      ensures PostSound(k, Post(a, row.id, row.peer, sealed))
    {
      assert PostOf(k.hosts[a].rows[i], Post(a, row.id, row.peer, sealed));
    }
  }

  lemma TakenFacts(scheme: Scheme, n: Net, l: Label)
    requires Inv(scheme, n) && Enabled(scheme, n, l)
    ensures forall post :: post in Next(scheme, n, l).took && post !in n.took ==> TookSound(Next(scheme, n, l), post)
  {
    if l.Confirm? {
      assert AckSound(n, l.post) && PostSound(n, l.post);
      var rows, k := n.hosts[l.post.src].rows, Next(scheme, n, l);
      var i :| 0 <= i < |rows| && PostOf(rows[i], l.post);
      assert PostOf(k.hosts[l.post.src].rows[i], l.post);
    }
  }

  lemma WrongIsAnswered(scheme: Scheme, n: Net, l: Label)
    requires n.wrong <= n.acks && Enabled(scheme, n, l)
    ensures Next(scheme, n, l).wrong <= Next(scheme, n, l).acks
  {
  }

  lemma InvHolds(scheme: Scheme, n: Net, l: Label)
    requires Inv(scheme, n) && Enabled(scheme, n, l)
    ensures Inv(scheme, Next(scheme, n, l))
  {
    var k := Next(scheme, n, l);
    NextGrows(scheme, n, l);
    RowsStaySound(scheme, n, l);
    OldFactsStay(scheme, n, k);
    NewFactsHold(scheme, n, l, k);
    TakenFacts(scheme, n, l);
    WrongIsAnswered(scheme, n, l);
    forall a | a in k.hosts ensures HostSound(scheme, a, k.hosts[a]) {
      HostsStaySound(scheme, n, l, k, a);
    }
  }

  // ---- whole runs ----

  ghost predicate Runnable(scheme: Scheme, n: Net, labels: seq<Label>)
    decreases |labels|
  {
    labels == [] || (Enabled(scheme, n, labels[0]) && Runnable(scheme, Next(scheme, n, labels[0]), labels[1..]))
  }

  ghost function Exec(scheme: Scheme, n: Net, labels: seq<Label>): Net
    requires Runnable(scheme, n, labels)
    decreases |labels|
  {
    if labels == [] then n else Exec(scheme, Next(scheme, n, labels[0]), labels[1..])
  }

  /** Honest nodes with their keys and empty mail tables; nothing sent or signed yet. */
  ghost predicate Initial(scheme: Scheme, n: Net) {
    && (forall a :: a in n.hosts ==> scheme.publicKey(n.hosts[a].sk) == a && n.hosts[a].rows == [])
    && n.posts == {} && n.acks == {} && n.wrong == {} && n.took == {} && n.signed == {} && n.accepted == {}
  }

  lemma {:induction false} InvAlways(scheme: Scheme, n: Net, labels: seq<Label>)
    requires Inv(scheme, n) && Runnable(scheme, n, labels)
    ensures Inv(scheme, Exec(scheme, n, labels))
    decreases |labels|
  {
    if labels != [] {
      InvHolds(scheme, n, labels[0]);
      InvAlways(scheme, Next(scheme, n, labels[0]), labels[1..]);
    }
  }

  lemma RowsGrowTransitive(a: seq<Row>, b: seq<Row>, c: seq<Row>)
    requires RowsGrow(a, b) && RowsGrow(b, c)
    ensures RowsGrow(a, c)
  {
    forall i | 0 <= i < |a| ensures RowGrows(a[i], c[i]) {
      assert RowGrows(a[i], b[i]) && RowGrows(b[i], c[i]);
    }
  }

  /** No letter, queued or received, is ever lost, altered or taken back. */
  lemma {:induction false} NothingIsLost(scheme: Scheme, n: Net, labels: seq<Label>)
    requires Runnable(scheme, n, labels)
    ensures NetGrows(n, Exec(scheme, n, labels))
    decreases |labels|
  {
    SelfGrows(n);
    if labels != [] {
      var k := Next(scheme, n, labels[0]);
      NextGrows(scheme, n, labels[0]);
      NothingIsLost(scheme, k, labels[1..]);
      var e := Exec(scheme, n, labels);
      forall a | a in n.hosts ensures RowsGrow(n.hosts[a].rows, e.hosts[a].rows) {
        RowsGrowTransitive(n.hosts[a].rows, k.hosts[a].rows, e.hosts[a].rows);
      }
    }
  }

  /** However often it is retried, an honest sender's letter is filed at most once. */
  lemma FiledAtMostOnce(scheme: Scheme, n: Net, d: PeerId, i: nat, j: nat)
    requires Inv(scheme, n) && d in n.hosts && i < j < |n.hosts[d].rows|
    requires n.hosts[d].rows[i].direction == In && n.hosts[d].rows[j].direction == In
    requires n.hosts[d].rows[i].peer in n.hosts
    ensures LetterOf(n.hosts[d].rows[i], d) != LetterOf(n.hosts[d].rows[j], d)
  {
    var r, s := n.hosts[d].rows[i], n.hosts[d].rows[j];
    assert HostSound(scheme, d, n.hosts[d]) && InSound(scheme, n, d, r) && InSound(scheme, n, d, s);
    if LetterOf(r, d) == LetterOf(s, d) {
      var sig := Base64.Decode(r.signature.value).value;
      assert r.peer == s.peer && sig == Base64.Decode(s.signature.value).value;
      Base64.DecodesIffEncodes(r.signature.value, sig);
      Base64.DecodesIffEncodes(s.signature.value, sig);
    }
  }

  /** A letter in an inbox naming an honest sender is one that sender wrote to this node. */
  lemma InboxIsAuthentic(scheme: Scheme, n: Net, d: PeerId, i: nat)
    requires Inv(scheme, n) && d in n.hosts && i < |n.hosts[d].rows|
    requires n.hosts[d].rows[i].direction == In && n.hosts[d].rows[i].peer in n.hosts
    ensures HasOut(n, n.hosts[d].rows[i].peer, LetterOf(n.hosts[d].rows[i], d))
  {
    var row := n.hosts[d].rows[i];
    var m := LetterOf(row, d);
    assert InSound(scheme, n, d, row);
    assert SignedSound(n, row.peer, Letter.SigningBytes(m));
    if p :| Letter.SigningBytes(m) == Presence.SigningBytes(p) {
      Letter.DomainsSeparate(m, p);
    } else {
      var q :| HasOut(n, row.peer, q) && Letter.SigningBytes(m) == Letter.SigningBytes(q);
      Letter.SigningBytesInjective(m, q);
    }
  }

  /** As long as a letter is not in its recipient's inbox, its row is marked exactly by wrong answers. */
  ghost predicate MarkedExactly(n: Net, a: PeerId, row: Row) {
    row.direction == Out && row.peer in n.hosts && !HasIn(n, row.peer, LetterOf(row, a)) ==>
      (row.deliveredAt.Some? <==> Took(n, a, row.id))
  }

  lemma RowsAreMarkedExactly(scheme: Scheme, n: Net, a: PeerId, i: nat)
    requires Inv(scheme, n) && a in n.hosts && i < |n.hosts[a].rows|
    ensures MarkedExactly(n, a, n.hosts[a].rows[i])
  {
    var rows := n.hosts[a].rows;
    assert OutSound(n, a, rows[i]) && HostSound(scheme, a, n.hosts[a]);
    if post :| post in n.took && post.src == a && post.rowId == rows[i].id {
      assert TookSound(n, post);
      var j :| 0 <= j < |rows| && PostOf(rows[j], post) && rows[j].deliveredAt.Some?;
      assert i == j;
    }
  }

  /**
    End to end, in every state any run can reach: a letter that is not in its
    recipient's inbox is marked delivered exactly if the sender took another's answer
    for the recipient's; no honest sender's letter is there twice; and whatever is
    there was written by whom it names.
   */
  lemma MailEndToEnd(scheme: Scheme, start: Net, labels: seq<Label>)
    requires Initial(scheme, start) && Runnable(scheme, start, labels)
    ensures var n := Exec(scheme, start, labels);
            && (forall a, i :: a in n.hosts && 0 <= i < |n.hosts[a].rows| ==> MarkedExactly(n, a, n.hosts[a].rows[i]))
            && (forall d, i, j :: d in n.hosts && 0 <= i < j < |n.hosts[d].rows|
                  && n.hosts[d].rows[i].direction == In && n.hosts[d].rows[j].direction == In
                  && n.hosts[d].rows[i].peer in n.hosts
                  ==> LetterOf(n.hosts[d].rows[i], d) != LetterOf(n.hosts[d].rows[j], d))
            && (forall d, i :: d in n.hosts && 0 <= i < |n.hosts[d].rows|
                  && n.hosts[d].rows[i].direction == In && n.hosts[d].rows[i].peer in n.hosts
                  ==> HasOut(n, n.hosts[d].rows[i].peer, LetterOf(n.hosts[d].rows[i], d)))
  {
    InvAlways(scheme, start, labels);
    var n := Exec(scheme, start, labels);
    forall a, i | a in n.hosts && 0 <= i < |n.hosts[a].rows| ensures MarkedExactly(n, a, n.hosts[a].rows[i]) {
      RowsAreMarkedExactly(scheme, n, a, i);
    }
    forall d, i, j | d in n.hosts && 0 <= i < j < |n.hosts[d].rows|
      && n.hosts[d].rows[i].direction == In && n.hosts[d].rows[j].direction == In && n.hosts[d].rows[i].peer in n.hosts
      ensures LetterOf(n.hosts[d].rows[i], d) != LetterOf(n.hosts[d].rows[j], d)
    {
      FiledAtMostOnce(scheme, n, d, i, j);
    }
    forall d, i | d in n.hosts && 0 <= i < |n.hosts[d].rows|
      && n.hosts[d].rows[i].direction == In && n.hosts[d].rows[i].peer in n.hosts
      ensures HasOut(n, n.hosts[d].rows[i].peer, LetterOf(n.hosts[d].rows[i], d))
    {
      InboxIsAuthentic(scheme, n, d, i);
    }
  }

  /** That exception is real: a wrong answer marks a letter delivered that is not there. */
  lemma WrongAnswerMisleads(scheme: Scheme, n: Net, post: Post, now: nat) returns (i: nat)
    requires Inv(scheme, n) && post in n.posts && !HasIn(n, post.dst, post.sealed.mail)
    ensures Enabled(scheme, n, WrongAnswer(post))
    ensures var answered := Next(scheme, n, WrongAnswer(post));
            Enabled(scheme, answered, Confirm(post, now))
            && var k := Next(scheme, answered, Confirm(post, now));
               i < |k.hosts[post.src].rows| && PostOf(k.hosts[post.src].rows[i], post)
               && k.hosts[post.src].rows[i].deliveredAt == Some(now) && !HasIn(k, post.dst, post.sealed.mail)
  {
    assert PostSound(n, post);
    i :| 0 <= i < |n.hosts[post.src].rows| && PostOf(n.hosts[post.src].rows[i], post);
    var answered := Next(scheme, n, WrongAnswer(post));
    var k := Next(scheme, answered, Confirm(post, now));
    if HasIn(k, post.dst, post.sealed.mail) {
      NotFiledByConfirm(scheme, answered, post, now);
    }
  }

  lemma NotFiledByConfirm(scheme: Scheme, n: Net, post: Post, now: nat)
    requires post in n.acks && post.src in n.hosts
    ensures forall d, m :: HasIn(Next(scheme, n, Confirm(post, now)), d, m) ==> HasIn(n, d, m)
  {
    var k := Next(scheme, n, Confirm(post, now));
    forall d, m | HasIn(k, d, m) ensures HasIn(n, d, m) {
      var i :| 0 <= i < |k.hosts[d].rows| && k.hosts[d].rows[i].direction == In && LetterOf(k.hosts[d].rows[i], d) == m;
      assert n.hosts[d].rows[i].direction == In && LetterOf(n.hosts[d].rows[i], d) == m;
    }
  }

  lemma AttemptPosts(scheme: Scheme, n: Net, a: PeerId, i: nat)
    requires scheme.Sound() && Inv(scheme, n) && Enabled(scheme, n, Attempt(a, i))
    ensures var row, sealed := n.hosts[a].rows[i], SealedRow(scheme, n.hosts[a], a, n.hosts[a].rows[i]);
            Post(a, row.id, row.peer, sealed) in Next(scheme, n, Attempt(a, i)).posts
            && Next(scheme, n, Attempt(a, i)).hosts == n.hosts && Next(scheme, n, Attempt(a, i)).accepted == n.accepted
            && (a, Letter.SigningBytes(LetterOf(row, a))) in Next(scheme, n, Attempt(a, i)).signed
            && Letter.Accept(scheme, sealed, row.peer).Ok?
  {
    assert HostSound(scheme, a, n.hosts[a]);
    Letter.SealedIsAccepted(scheme, LetterOf(n.hosts[a].rows[i], a), n.hosts[a].sk);
  }

  lemma ArriveAnswers(scheme: Scheme, n: Net, post: Post, now: nat)
    requires Inv(scheme, n) && Enabled(scheme, n, Arrive(post, now)) && Letter.Accept(scheme, post.sealed, post.dst).Ok?
    ensures var k := Next(scheme, n, Arrive(post, now));
            post in k.acks && HasIn(k, post.dst, post.sealed.mail)
  {
    ReceivedIsFiled(scheme, n, post.dst, post.sealed, now);
    var m := Received(scheme, n, post.dst, post.sealed, now);
    AcksGrow(m, post);
    HasInStays(m, m.(acks := m.acks + {post}), post.dst, post.sealed.mail);
  }

  /** A letter an honest outbox posts meets what is assumed of signatures, unless its
      signature happens to be that of something else already met. */
  lemma PostedIsHonest(scheme: Scheme, n: Net, a: PeerId, row: Row)
    requires a in n.hosts && (a, Letter.SigningBytes(LetterOf(row, a))) in n.signed
    requires row.direction == Out
    requires var text := Letter.SigningBytes(LetterOf(row, a));
             forall t :: t in n.accepted && t.2 == scheme.signer(n.hosts[a].sk, text) ==> t.0 == a && t.1 == text
    ensures Honest(scheme, n, SealedRow(scheme, n.hosts[a], a, row))
  {
    var sig := scheme.signer(n.hosts[a].sk, Letter.SigningBytes(LetterOf(row, a)));
    Base64.DecodesIffEncodes(Base64.Encode(sig), sig);
  }

  /** One exchange that is not lost is enough: the waiting letter is filed and marked delivered. */
  lemma OneExchangeDelivers(scheme: Scheme, n: Net, a: PeerId, i: nat, now: nat)
    requires scheme.Sound() && Inv(scheme, n) && Enabled(scheme, n, Attempt(a, i)) && n.hosts[a].rows[i].peer in n.hosts
    requires var text := Letter.SigningBytes(LetterOf(n.hosts[a].rows[i], a));
             forall t :: t in n.accepted && t.2 == scheme.signer(n.hosts[a].sk, text) ==> t.0 == a && t.1 == text
    ensures var sent, row := Next(scheme, n, Attempt(a, i)), n.hosts[a].rows[i];
            var post := Post(a, row.id, row.peer, SealedRow(scheme, n.hosts[a], a, row));
            Enabled(scheme, sent, Arrive(post, now))
            && var filed := Next(scheme, sent, Arrive(post, now));
               Enabled(scheme, filed, Confirm(post, now)) && HasIn(filed, row.peer, LetterOf(row, a))
               && Next(scheme, filed, Confirm(post, now)).hosts[a].rows[i].deliveredAt == Some(now)
  {
    AttemptPosts(scheme, n, a, i);
    InvHolds(scheme, n, Attempt(a, i));
    var sent, row := Next(scheme, n, Attempt(a, i)), n.hosts[a].rows[i];
    var post := Post(a, row.id, row.peer, SealedRow(scheme, n.hosts[a], a, row));
    PostedIsHonest(scheme, sent, a, row);
    ArriveAnswers(scheme, sent, post, now);
    NextGrows(scheme, sent, Arrive(post, now));
    ConfirmMarks(scheme, sent, Next(scheme, sent, Arrive(post, now)), post, i, now);
  }

  lemma ConfirmMarks(scheme: Scheme, n: Net, k: Net, post: Post, i: nat, now: nat)
    requires NetGrows(n, k) && post in k.acks && post.src in n.hosts
    requires i < |n.hosts[post.src].rows| && n.hosts[post.src].rows[i].id == post.rowId
    ensures Next(scheme, k, Confirm(post, now)).hosts[post.src].rows[i].deliveredAt == Some(now)
  {
    assert RowGrows(n.hosts[post.src].rows[i], k.hosts[post.src].rows[i]);
  }
}

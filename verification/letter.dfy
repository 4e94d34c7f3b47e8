/** Signed mail: its encoding, its limits and its envelope (crates/intraweb-core/src/mail.rs). */
module Letter {
  import opened Wrappers
  import opened Bytes
  import opened Identity
  import Base64
  import Decimal
  import Hex
  import Presence

  const MAIL_VERSION: u16 := 1
  const MAX_SUBJECT_BYTES := 200
  const MAX_BODY_BYTES := 64 * 1024

  function SigningDomain(): seq<byte> { Ascii("intraweb-mail-v1") }

  datatype Mail = Mail(
    version: u16,
    from: PeerId,
    to: PeerId,
    subject: seq<byte>,
    body: seq<byte>,
    createdAt: u64)

  /** An envelope; the signature travels as base64 text. */
  datatype SignedMail = SignedMail(mail: Mail, signature: seq<byte>)

  datatype Error =
    | SubjectTooLong | BodyTooLong | NotForUs | BadEncoding | UnsupportedVersion | BadSignature

  function New(from: PeerId, to: PeerId, subject: seq<byte>, body: seq<byte>, createdAt: u64): Mail {
    Mail(MAIL_VERSION, from, to, subject, body, createdAt)
  }

  function Fields(m: Mail): (fields: seq<seq<byte>>)
    ensures |fields| == 7
  {
    [SigningDomain(), Decimal.Print(m.version), Hex.Encoded(m.from), Hex.Encoded(m.to),
     Decimal.Print(m.createdAt), Base64.Encode(m.subject), Base64.Encode(m.body)]
  }

  function SigningBytes(m: Mail): seq<byte> {
    Join(Fields(m))
  }

  function CheckLimits(m: Mail): Result<(), Error> {
    if |m.subject| > MAX_SUBJECT_BYTES then Err(SubjectTooLong)
    else if |m.body| > MAX_BODY_BYTES then Err(BodyTooLong)
    else Ok(())
  }

  function Verify(scheme: Scheme, m: Mail, signature: seq<byte>): Result<(), Error> {
    if m.version != MAIL_VERSION then Err(UnsupportedVersion)
    else
      var _ :- CheckLimits(m);
      if scheme.Verify(m.from, SigningBytes(m), signature) then Ok(()) else Err(BadSignature)
  }

  function Seal(scheme: Scheme, m: Mail, sk: Secret): Result<SignedMail, Error> {
    var _ :- CheckLimits(m);
    Ok(SignedMail(m, Base64.Encode(scheme.signer(sk, SigningBytes(m)))))
  }

  function Accept(scheme: Scheme, sealed: SignedMail, me: PeerId): Result<(), Error> {
    if sealed.mail.to != me then Err(NotForUs)
    else
      match Base64.Decode(sealed.signature)
      case None => Err(BadEncoding)
      case Some(signature) => Verify(scheme, sealed.mail, signature)
  }

  lemma FieldsSeparatorFree(m: Mail)
    ensures AllSeparatorFree(Fields(m))
  {
    Decimal.PrintSeparatorFree(m.version);
    Decimal.PrintSeparatorFree(m.createdAt);
    Hex.EncodedShape(m.from);
    Hex.EncodedShape(m.to);
    Base64.SymbolsShape(Base64.Sextets(m.subject));
    Base64.SymbolsShape(Base64.Sextets(m.body));
  }

  /** What is signed, byte for byte; subject and body in base64. */
  lemma SigningLayout(m: Mail)
    ensures SigningBytes(m)
         == Ascii("intraweb-mail-v1") + (Presence.BAR + (Decimal.Print(m.version) + (Presence.BAR
            + (Hex.Encoded(m.from) + (Presence.BAR + (Hex.Encoded(m.to) + (Presence.BAR
            + (Decimal.Print(m.createdAt) + (Presence.BAR + (Base64.Encode(m.subject)
            + (Presence.BAR + Base64.Encode(m.body))))))))))))
  {
    var f := Fields(m);
    assert f == [f[0]] + f[1..] && f[1..] == [f[1]] + f[2..] && f[2..] == [f[2]] + f[3..];
    assert f[3..] == [f[3]] + f[4..] && f[4..] == [f[4]] + f[5..] && f[5..] == [f[5]] + f[6..] && f[6..] == [f[6]];
    JoinCons(f[0], f[1..]);
    JoinCons(f[1], f[2..]);
    JoinCons(f[2], f[3..]);
    JoinCons(f[3], f[4..]);
    JoinCons(f[4], f[5..]);
    JoinCons(f[5], f[6..]);
  }

  /** Different mails are signed as different bytes, whatever text they carry. */
  lemma SigningBytesInjective(a: Mail, b: Mail)
    requires SigningBytes(a) == SigningBytes(b)
    ensures a == b
  {
    FieldsSeparatorFree(a);
    FieldsSeparatorFree(b);
    JoinInjective(Fields(a), Fields(b));
    FieldsInjective(Fields(a), a, Fields(b), b);
  }

  lemma FieldsInjective(f: seq<seq<byte>>, a: Mail, g: seq<seq<byte>>, b: Mail)
    requires f == Fields(a) && g == Fields(b) && f == g
    ensures a == b
  {
    assert f[1] == g[1] && f[2] == g[2] && f[3] == g[3] && f[4] == g[4] && f[5] == g[5] && f[6] == g[6];
    Decimal.PrintInjective(a.version, b.version);
    Hex.EncodedInjective(a.from, b.from);
    Hex.EncodedInjective(a.to, b.to);
    Decimal.PrintInjective(a.createdAt, b.createdAt);
    Base64.EncodeInjective(a.subject, b.subject);
    Base64.EncodeInjective(a.body, b.body);
  }

  lemma FirstField(f: seq<seq<byte>>)
    requires |f| >= 2 && SeparatorFree(f[0])
    ensures Split(Join(f))[0] == f[0]
  {
    SplitPrefix(f[0], Join(f[1..]));
  }

  /** A mail signature can never pass for a presence signature: the signed bytes differ,
      even for a record whose names would make its own encoding ambiguous. */
  lemma DomainsSeparate(m: Mail, p: Presence.Record)
    ensures SigningBytes(m) != Presence.SigningBytes(p)
  {
    FirstField(Fields(m));
    FirstField(Presence.Fields(p));
    assert |SigningDomain()| != |Presence.SigningDomain()|;
  }

  /** What makes an envelope acceptable, in full. */
  ghost predicate Acceptable(scheme: Scheme, sealed: SignedMail, me: PeerId, signature: seq<byte>) {
    && sealed.mail.to == me
    && sealed.mail.version == 1
    && |sealed.mail.subject| <= 200
    && |sealed.mail.body| <= 65536
    && sealed.signature == Base64.Encode(signature)
    && |signature| == 64 && scheme.checker(sealed.mail.from, SigningBytes(sealed.mail), signature)
  }

  lemma AcceptIff(scheme: Scheme, sealed: SignedMail, me: PeerId)
    ensures Accept(scheme, sealed, me).Ok? <==> exists signature :: Acceptable(scheme, sealed, me, signature)
    ensures Accept(scheme, sealed, me).Ok? ==>
              Base64.Decode(sealed.signature).Some?
              && Acceptable(scheme, sealed, me, Base64.Decode(sealed.signature).value)
  {
    if Accept(scheme, sealed, me).Ok? {
      var signature := Base64.Decode(sealed.signature).value;
      Base64.DecodesIffEncodes(sealed.signature, signature);
      assert Acceptable(scheme, sealed, me, signature);
    }
    forall signature | Acceptable(scheme, sealed, me, signature)
      ensures Accept(scheme, sealed, me).Ok?
    {
      Base64.DecodesIffEncodes(sealed.signature, signature);
    }
  }

  /** A letter the sender can seal is never refused by the node it is addressed to. */
  lemma SealedIsAccepted(scheme: Scheme, m: Mail, sk: Secret)
    requires scheme.Sound() && m.version == MAIL_VERSION && m.from == scheme.publicKey(sk)
    ensures Seal(scheme, m, sk).Ok? <==> |m.subject| <= 200 && |m.body| <= 65536
    ensures Seal(scheme, m, sk).Ok? <==> CheckLimits(m).Ok?
    ensures Seal(scheme, m, sk).Ok? ==> Accept(scheme, Seal(scheme, m, sk).value, m.to).Ok?
  {
    var signature := scheme.signer(sk, SigningBytes(m));
    Base64.DecodesIffEncodes(Base64.Encode(signature), signature);
  }
}

/**
  The signed presence record and its two encodings
  (crates/intraweb-net/src/presence.rs).
 */
module Presence {
  import opened Wrappers
  import opened Bytes
  import opened Identity
  import opened Sorting
  import Base64
  import Decimal
  import Hex
  import Utf8

  const PROTOCOL_VERSION: u16 := 2
  const MAX_BEACON_BYTES := 1024
  const MAX_CLOCK_SKEW_SECS := 300

  function BeaconMagic(): seq<byte> { [0x49, 0x57, 0x42, 0x31] }  // IWB1

  function SigningDomain(): seq<byte> { Ascii("intraweb-presence-v1") }

  datatype Record = Record(
    version: u16,
    peerId: PeerId,
    nickname: seq<byte>,
    apiPort: u16,
    isHub: bool,
    hubName: seq<byte>,
    timestamp: u64)

  datatype Error =
    | WrongFieldCount | UnexpectedDomain | BadHubFlag | BadVersion | BadPublicKey | BadApiPort | BadTimestamp
    | Missing(key: string) | BadSignatureEncoding
    | WrongSignatureLength | TooLarge | TooShort | NotABeacon | LengthMismatch | NotUtf8 | NotCanonical
    | UnsupportedVersion | OutOfDate | BadSignature

  // ---- the signed text ----

  function Flag(b: bool): seq<byte> { [if b then 0x31 else 0x30] }

  function Fields(p: Record): (fields: seq<seq<byte>>)
    ensures |fields| == 8
  {
    [SigningDomain(), Decimal.Print(p.version), Hex.Encoded(p.peerId), p.nickname,
     Decimal.Print(p.apiPort), Flag(p.isHub), p.hubName, Decimal.Print(p.timestamp)]
  }

  function SigningBytes(p: Record): seq<byte> {
    Join(Fields(p))
  }

  function FromSigningText(body: seq<byte>): Result<Record, Error> {
    var parts := Split(body);
    if |parts| != 8 then Err(WrongFieldCount)
    else if parts[0] != SigningDomain() then Err(UnexpectedDomain)
    else if parts[5] != Flag(false) && parts[5] != Flag(true) then Err(BadHubFlag)
    else
      match Decimal.Parse(parts[1], 0x1_0000)
      case None => Err(BadVersion)
      case Some(version) =>
        match Hex.ParseKey(parts[2])
        case None => Err(BadPublicKey)
        case Some(peerId) =>
          match Decimal.Parse(parts[4], 0x1_0000)
          case None => Err(BadApiPort)
          case Some(apiPort) =>
            match Decimal.Parse(parts[7], 0x1_0000_0000_0000_0000)
            case None => Err(BadTimestamp)
            case Some(timestamp) =>
              Ok(Record(version, peerId, parts[3], apiPort, parts[5] == Flag(true), parts[6], timestamp))
  }

  /** The two free-text fields hold no separator. */
  predicate Unambiguous(p: Record) {
    SeparatorFree(p.nickname) && SeparatorFree(p.hubName)
  }

  predicate TextFields(p: Record) {
    Utf8.Valid(p.nickname) && Utf8.Valid(p.hubName)
  }

  lemma FieldsSeparatorFree(p: Record)
    requires Unambiguous(p)
    ensures AllSeparatorFree(Fields(p))
  {
    Decimal.PrintSeparatorFree(p.version);
    Decimal.PrintSeparatorFree(p.apiPort);
    Decimal.PrintSeparatorFree(p.timestamp);
    Hex.EncodedShape(p.peerId);
  }

  lemma SigningTextRoundTrip(p: Record)
    requires Unambiguous(p)
    ensures FromSigningText(SigningBytes(p)) == Ok(p)
  {
    FieldsSeparatorFree(p);
    SplitJoin(Fields(p));
    Decimal.RoundTrip(p.version, 0x1_0000);
    Decimal.RoundTrip(p.apiPort, 0x1_0000);
    Decimal.RoundTrip(p.timestamp, 0x1_0000_0000_0000_0000);
    Hex.RoundTrip(p.peerId);
    Hex.ParseKeyIffDecodedArray(Hex.Encoded(p.peerId));
  }

  const BAR: seq<byte> := [0x7C]

  /** What is signed, byte for byte. */
  lemma SigningLayout(p: Record)
    ensures SigningBytes(p)
         == Ascii("intraweb-presence-v1") + (BAR + (Decimal.Print(p.version) + (BAR + (Hex.Encoded(p.peerId)
            + (BAR + (p.nickname + (BAR + (Decimal.Print(p.apiPort) + (BAR + ((if p.isHub then [0x31] else [0x30])
            + (BAR + (p.hubName + (BAR + Decimal.Print(p.timestamp))))))))))))))
  {
    var f := Fields(p);
    assert f == [f[0]] + f[1..] && f[1..] == [f[1]] + f[2..] && f[2..] == [f[2]] + f[3..] && f[3..] == [f[3]] + f[4..];
    assert f[4..] == [f[4]] + f[5..] && f[5..] == [f[5]] + f[6..] && f[6..] == [f[6]] + f[7..] && f[7..] == [f[7]];
    JoinCons(f[0], f[1..]);
    JoinCons(f[1], f[2..]);
    JoinCons(f[2], f[3..]);
    JoinCons(f[3], f[4..]);
    JoinCons(f[4], f[5..]);
    JoinCons(f[5], f[6..]);
    JoinCons(f[6], f[7..]);
  }

  /** No two records that can be announced have the same signed bytes. */
  lemma SigningBytesInjective(p: Record, q: Record)
    requires Unambiguous(p) && Unambiguous(q)
    requires SigningBytes(p) == SigningBytes(q)
    ensures p == q
  {
    SigningTextRoundTrip(p);
    SigningTextRoundTrip(q);
  }

  lemma FixedFieldsPlain(p: Record)
    ensures var f := Fields(p);
            Plain(f[0]) && Plain(f[1]) && Plain(f[2]) && Plain(f[4]) && Plain(f[5]) && Plain(f[7])
  {
    Decimal.PrintSeparatorFree(p.version);
    Decimal.PrintSeparatorFree(p.apiPort);
    Decimal.PrintSeparatorFree(p.timestamp);
    Hex.EncodedShape(p.peerId);
  }

  /** Of eight fields only two are free text, so they decide whether the whole is valid. */
  lemma EightFieldsValid(f: seq<seq<byte>>)
    requires |f| == 8
    requires Plain(f[0]) && Plain(f[1]) && Plain(f[2]) && Plain(f[4]) && Plain(f[5]) && Plain(f[7])
    ensures Utf8.Valid(Join(f)) <==> Utf8.Valid(f[3]) && Utf8.Valid(f[6])
  {
    Utf8.ValidJoin(f);
    forall i | 0 <= i < 8 && i != 3 && i != 6 ensures Utf8.Valid(f[i]) {
      Utf8.ValidAscii(f[i]);
    }
  }

  lemma SigningTextValid(p: Record)
    ensures Utf8.Valid(SigningBytes(p)) <==> TextFields(p)
  {
    FixedFieldsPlain(p);
    EightFieldsValid(Fields(p));
  }

  // ---- the beacon datagram ----

  function BigEndian16(n: u16): seq<byte> { [n / 0x100, n % 0x100] }

  function Datagram(p: Record, signature: seq<byte>): seq<byte>
    requires |SigningBytes(p)| < 0x1_0000
  {
    BeaconMagic() + BigEndian16(|SigningBytes(p)|) + SigningBytes(p) + signature
  }

  function Beacon(p: Record, signature: seq<byte>): Result<seq<byte>, Error> {
    if |signature| != SIG_LEN then Err(WrongSignatureLength)
    else if |SigningBytes(p)| >= 0x1_0000 then Err(TooLarge)
    else if |Datagram(p, signature)| > MAX_BEACON_BYTES then Err(TooLarge)
    else Ok(Datagram(p, signature))
  }

  method ToBeacon(p: Record, signature: seq<byte>) returns (r: Result<seq<byte>, Error>)
    ensures r == Beacon(p, signature)
  {
    if |signature| != SIG_LEN {
      return Err(WrongSignatureLength);
    }
    var body := SigningBytes(p);
    if |body| >= 0x1_0000 {
      return Err(TooLarge);
    }
    var packet := [];
    packet := packet + BeaconMagic();
    packet := packet + BigEndian16(|body|);
    packet := packet + body;
    packet := packet + signature;
    assert packet == Datagram(p, signature);
    if |packet| > MAX_BEACON_BYTES {
      return Err(TooLarge);
    }
    return Ok(packet);
  }

  function FromBeacon(packet: seq<byte>): Result<(Record, seq<byte>), Error> {
    if |packet| > MAX_BEACON_BYTES then Err(TooLarge)
    else if |packet| <= 4 + 2 + SIG_LEN then Err(TooShort)
    else if packet[..4] != BeaconMagic() then Err(NotABeacon)
    else
      var bodyEnd := 6 + (packet[4] as int) * 0x100 + packet[5];
      if |packet| != bodyEnd + SIG_LEN then Err(LengthMismatch)
      else if !Utf8.Valid(packet[6..bodyEnd]) then Err(NotUtf8)
      else
        var p :- FromSigningText(packet[6..bodyEnd]);
        if SigningBytes(p) != packet[6..bodyEnd] then Err(NotCanonical)
        else Ok((p, packet[bodyEnd..]))
  }

  lemma DatagramParts(p: Record, signature: seq<byte>)
    requires |SigningBytes(p)| < 0x1_0000
    ensures var d, n := Datagram(p, signature), |SigningBytes(p)|;
            |d| == 6 + n + |signature| && d[..4] == BeaconMagic()
            && (d[4] as int) * 0x100 + d[5] == n && d[6..6 + n] == SigningBytes(p) && d[6 + n..] == signature
  {
  }

  /** What is sent: four marks, the length of what is signed, that, and the signature; in 1024 bytes. */
  lemma BeaconExact(p: Record, signature: seq<byte>, packet: seq<byte>)
    ensures var n := |SigningBytes(p)|;
            Beacon(p, signature) == Ok(packet)
            <==> |signature| == 64 && 6 + n + 64 <= 1024
                 && packet == [0x49, 0x57, 0x42, 0x31] + [n / 256, n % 256] + SigningBytes(p) + signature
  {
    if |SigningBytes(p)| < 0x1_0000 {
      DatagramParts(p, signature);
    }
  }

  /** A datagram is accepted as (p, signature) exactly when announcing p produces that datagram. */
  lemma BeaconBijection(packet: seq<byte>, p: Record, signature: seq<byte>)
    ensures FromBeacon(packet) == Ok((p, signature))
       <==> Unambiguous(p) && TextFields(p) && Beacon(p, signature) == Ok(packet)
  {
    if Unambiguous(p) && TextFields(p) && Beacon(p, signature) == Ok(packet) {
      DatagramParts(p, signature);
      SigningTextValid(p);
      SigningTextRoundTrip(p);
      SigningTextLength(p);
    }
    if FromBeacon(packet) == Ok((p, signature)) {
      AcceptedIsAnnounced(packet, p, signature);
    }
  }

  lemma SigningTextLength(p: Record)
    ensures |SigningBytes(p)| >= 1
  {
    JoinLength(Fields(p));
  }

  lemma ParsedIsUnambiguous(body: seq<byte>, p: Record)
    requires FromSigningText(body) == Ok(p)
    ensures Unambiguous(p)
  {
    var parts := Split(body);
    assert p.nickname == parts[3] && p.hubName == parts[6];
  }

  lemma DatagramFromParts(packet: seq<byte>, bodyEnd: nat)
    requires 6 <= bodyEnd <= |packet| && packet[..4] == BeaconMagic()
    requires bodyEnd == 6 + (packet[4] as int) * 0x100 + packet[5]
    ensures packet == BeaconMagic() + BigEndian16(bodyEnd - 6) + packet[6..bodyEnd] + packet[bodyEnd..]
  {
    assert packet[4..6] == [packet[4], packet[5]] == BigEndian16(bodyEnd - 6);
    assert packet == packet[..4] + packet[4..6] + packet[6..bodyEnd] + packet[bodyEnd..];
  }

  lemma AcceptedIsAnnounced(packet: seq<byte>, p: Record, signature: seq<byte>)
    requires FromBeacon(packet) == Ok((p, signature))
    ensures Unambiguous(p) && TextFields(p) && Beacon(p, signature) == Ok(packet)
  {
    var bodyEnd := 6 + (packet[4] as int) * 0x100 + packet[5];
    ParsedIsUnambiguous(packet[6..bodyEnd], p);
    SigningTextValid(p);
    DatagramFromParts(packet, bodyEnd);
  }

  // ---- names ----

  predicate NameByte(c: byte) {
    0x30 <= c <= 0x39 || 0x41 <= c <= 0x5A || 0x61 <= c <= 0x7A || c == 0x2D || c == 0x5F
  }

  function NameBytes(raw: seq<byte>): (s: seq<byte>)
    ensures forall i :: 0 <= i < |s| ==> NameByte(s[i])
  {
    if raw == [] then []
    else (if NameByte(raw[0]) then [raw[0]] else []) + NameBytes(raw[1..])
  }

  /** Letters, digits, hyphens and underscores, at most 32 of them, in lower case; a stand-in for none. */
  function Scrub(raw: seq<byte>): seq<byte> {
    var kept := NameBytes(raw);
    var cleaned := if |kept| > 32 then kept[..32] else kept;
    if cleaned == [] then Ascii("neighbor") else Lower(cleaned)
  }

  lemma {:induction false} NameBytesAreKept(raw: seq<byte>)
    ensures NameBytes(raw) == Filter(NameByte, raw)
  {
    if raw != [] {
      NameBytesAreKept(raw[1..]);
    }
  }

  predicate LetterOrDigit(c: byte) {
    'a' as int <= c <= 'z' as int || 'A' as int <= c <= 'Z' as int || '0' as int <= c <= '9' as int
  }

  /** What becomes of a name: of its letters, digits, hyphens and underscores the first 32, in lower
      case; and a stand-in if it has none. */
  lemma ScrubExact(raw: seq<byte>)
    ensures var kept := Filter(NameByte, raw);
            && |Scrub(raw)| == (if kept == [] then 8 else if |kept| > 32 then 32 else |kept|)
            && (kept == [] ==> Scrub(raw) == Ascii("neighbor"))
            && (kept != [] ==> forall i :: 0 <= i < |Scrub(raw)| ==>
                  Scrub(raw)[i] == if 'A' as int <= kept[i] <= 'Z' as int then kept[i] + 0x20 else kept[i])
    ensures forall c :: NameByte(c) <==> LetterOrDigit(c) || c == '-' as int || c == '_' as int
  {
    NameBytesAreKept(raw);
  }

  /** A name scrubbing leaves as it is. */
  predicate CleanName(s: seq<byte>) {
    1 <= |s| <= 32 && forall i :: 0 <= i < |s| ==> NameByte(s[i]) && LowerByte(s[i]) == s[i]
  }

  lemma {:induction false} NameBytesOfClean(s: seq<byte>)
    requires forall i :: 0 <= i < |s| ==> NameByte(s[i])
    ensures NameBytes(s) == s
  {
    if s != [] {
      NameBytesOfClean(s[1..]);
    }
  }

  lemma LowerIsClean(s: seq<byte>)
    requires 1 <= |s| <= 32 && forall i :: 0 <= i < |s| ==> NameByte(s[i])
    ensures CleanName(Lower(s))
  {
  }

  lemma ScrubFixesExactlyCleanNames(s: seq<byte>)
    ensures CleanName(Scrub(s))
    ensures Scrub(s) == s <==> CleanName(s)
  {
    var kept := NameBytes(s);
    var cleaned := if |kept| > 32 then kept[..32] else kept;
    if cleaned != [] {
      LowerIsClean(cleaned);
    }
    if CleanName(s) {
      NameBytesOfClean(s);
      assert Lower(s) == s;
    }
  }

  lemma CleanNameIsPlain(s: seq<byte>)
    requires CleanName(s)
    ensures SeparatorFree(s) && Utf8.Valid(s)
  {
    Utf8.ValidAscii(s);
  }

  // ---- TXT properties ----

  function ToTxt(p: Record, signature: seq<byte>): map<string, seq<byte>> {
    map["v" := Decimal.Print(p.version), "pk" := Hex.Encoded(p.peerId), "nick" := p.nickname,
        "api" := Decimal.Print(p.apiPort), "hub" := Flag(p.isHub), "hubname" := p.hubName,
        "ts" := Decimal.Print(p.timestamp), "sig" := Base64.Encode(signature)]
  }

  function Get(txt: map<string, seq<byte>>, key: string): Result<seq<byte>, Error> {
    if key in txt then Ok(txt[key]) else Err(Missing(key))
  }

  function OrElse<T>(o: Option<T>, error: Error): Result<T, Error> {
    match o case Some(v) => Ok(v) case None => Err(error)
  }

  function FromTxt(txt: map<string, seq<byte>>): Result<(Record, seq<byte>), Error> {
    var v :- Get(txt, "v");
    var version :- OrElse(Decimal.Parse(v, 0x1_0000), BadVersion);
    var pk :- Get(txt, "pk");
    var peerId :- OrElse(Hex.ParseKey(pk), BadPublicKey);
    var nick :- Get(txt, "nick");
    var api :- Get(txt, "api");
    var apiPort :- OrElse(Decimal.Parse(api, 0x1_0000), BadApiPort);
    var hub :- Get(txt, "hub");
    var hubName := if "hubname" in txt then txt["hubname"] else [];
    var ts :- Get(txt, "ts");
    var timestamp :- OrElse(Decimal.Parse(ts, 0x1_0000_0000_0000_0000), BadTimestamp);
    var sig :- Get(txt, "sig");
    var signature :- OrElse(Base64.Decode(sig), BadSignatureEncoding);
    Ok((Record(version, peerId, Scrub(nick), apiPort, hub == Flag(true), Scrub(hubName), timestamp), signature))
  }

  /** What is read from TXT properties: all of them but the hub's name must be there and readable. */
  lemma FromTxtIff(txt: map<string, seq<byte>>, p: Record, signature: seq<byte>)
    ensures FromTxt(txt) == Ok((p, signature))
       <==> && {"v", "pk", "nick", "api", "hub", "ts", "sig"} <= txt.Keys
            && Decimal.Parse(txt["v"], 0x1_0000) == Some(p.version) && Hex.ParseKey(txt["pk"]) == Some(p.peerId)
            && p.nickname == Scrub(txt["nick"]) && Decimal.Parse(txt["api"], 0x1_0000) == Some(p.apiPort)
            && p.isHub == (txt["hub"] == [0x31])
            && p.hubName == Scrub(if "hubname" in txt then txt["hubname"] else [])
            && Decimal.Parse(txt["ts"], 0x1_0000_0000_0000_0000) == Some(p.timestamp)
            && Base64.Decode(txt["sig"]) == Some(signature)
  {
  }

  /** The properties of one record, looked up one by one. */
  predicate Describes(txt: map<string, seq<byte>>, p: Record, signature: seq<byte>) {
    && "v" in txt && txt["v"] == Decimal.Print(p.version)
    && "pk" in txt && txt["pk"] == Hex.Encoded(p.peerId)
    && "nick" in txt && txt["nick"] == p.nickname
    && "api" in txt && txt["api"] == Decimal.Print(p.apiPort)
    && "hub" in txt && txt["hub"] == Flag(p.isHub)
    && "hubname" in txt && txt["hubname"] == p.hubName
    && "ts" in txt && txt["ts"] == Decimal.Print(p.timestamp)
    && "sig" in txt && txt["sig"] == Base64.Encode(signature)
  }

  lemma DescribedIsRead(txt: map<string, seq<byte>>, p: Record, signature: seq<byte>)
    requires Describes(txt, p, signature)
    ensures FromTxt(txt) == Ok((p.(nickname := Scrub(p.nickname), hubName := Scrub(p.hubName)), signature))
  {
    Decimal.RoundTrip(p.version, 0x1_0000);
    Decimal.RoundTrip(p.apiPort, 0x1_0000);
    Decimal.RoundTrip(p.timestamp, 0x1_0000_0000_0000_0000);
    Hex.RoundTrip(p.peerId);
    Hex.ParseKeyIffDecodedArray(Hex.Encoded(p.peerId));
    Base64.DecodesIffEncodes(Base64.Encode(signature), signature);
  }

  /** Through TXT properties every field survives, except that both names arrive scrubbed. */
  lemma TxtRoundTrip(p: Record, signature: seq<byte>)
    ensures FromTxt(ToTxt(p, signature))
         == Ok((p.(nickname := Scrub(p.nickname), hubName := Scrub(p.hubName)), signature))
    ensures FromTxt(ToTxt(p, signature)) == Ok((p, signature)) <==> CleanName(p.nickname) && CleanName(p.hubName)
  {
    var txt := ToTxt(p, signature);
    assert Describes(txt, p, signature);
    DescribedIsRead(txt, p, signature);
    ScrubFixesExactlyCleanNames(p.nickname);
    ScrubFixesExactlyCleanNames(p.hubName);
  }

  // ---- announcing ----

  function New(peerId: PeerId, nickname: seq<byte>, apiPort: u16, isHub: bool, hubName: seq<byte>, now: u64): Record {
    Record(PROTOCOL_VERSION, peerId, Scrub(nickname), apiPort, isHub, Scrub(hubName), now)
  }

  lemma NewIsClean(peerId: PeerId, nickname: seq<byte>, apiPort: u16, isHub: bool, hubName: seq<byte>, now: u64)
    ensures var p := New(peerId, nickname, apiPort, isHub, hubName, now);
            CleanName(p.nickname) && CleanName(p.hubName) && Unambiguous(p) && TextFields(p)
    ensures New(peerId, nickname, apiPort, isHub, hubName, now)
         == Record(2, peerId, Scrub(nickname), apiPort, isHub, Scrub(hubName), now)
  {
    ScrubFixesExactlyCleanNames(nickname);
    ScrubFixesExactlyCleanNames(hubName);
    CleanNameIsPlain(Scrub(nickname));
    CleanNameIsPlain(Scrub(hubName));
  }

  lemma LengthByNames(p: Record)
    requires p.version == PROTOCOL_VERSION
    ensures |SigningBytes(p)| <= 118 + |p.nickname| + |p.hubName|
  {
    Decimal.NumberLengths(p.apiPort, p.timestamp);
    Hex.EncodedShape(p.peerId);
    var f := Fields(p);
    JoinLength(f);
    TotalOfEight(f);
    assert |f[0]| == 20 && |f[1]| == 1 && |f[2]| == 64 && |f[5]| == 1;
  }

  lemma TotalOfEight(f: seq<seq<byte>>)
    requires |f| == 8
    ensures TotalLength(f) == |f[0]| + |f[1]| + |f[2]| + |f[3]| + |f[4]| + |f[5]| + |f[6]| + |f[7]|
  {
    TotalOfFour(f[..4]);
    TotalOfFour(f[4..]);
    assert f == f[..4] + f[4..];
    TotalConcat(f[..4], f[4..]);
  }

  lemma TotalOfFour(f: seq<seq<byte>>)
    requires |f| == 4
    ensures TotalLength(f) == |f[0]| + |f[1]| + |f[2]| + |f[3]|
  {
    var t1, t2, t3 := f[1..], f[2..], f[3..];
    assert t1[1..] == t2 && t2[1..] == t3 && t3[1..] == [];
    assert TotalLength(t3) == |f[3]|;
    assert TotalLength(t2) == |f[2]| + |f[3]|;
  }

  lemma {:induction false} TotalConcat(a: seq<seq<byte>>, b: seq<seq<byte>>)
    ensures TotalLength(a + b) == TotalLength(a) + TotalLength(b)
  {
    if a == [] {
      assert a + b == b;
    } else {
      assert (a + b)[1..] == a[1..] + b;
      TotalConcat(a[1..], b);
    }
  }

  /** Either way it is announced, a record arrives exactly as it was built and signed. */
  lemma BothPathsAgree(p: Record, signature: seq<byte>)
    requires p == New(p.peerId, p.nickname, p.apiPort, p.isHub, p.hubName, p.timestamp)
    requires |signature| == SIG_LEN
    ensures FromTxt(ToTxt(p, signature)) == Ok((p, signature))
    ensures Beacon(p, signature).Ok? && |Beacon(p, signature).value| <= 252
    ensures FromBeacon(Beacon(p, signature).value) == Ok((p, signature))
  {
    NewIsClean(p.peerId, p.nickname, p.apiPort, p.isHub, p.hubName, p.timestamp);
    TxtRoundTrip(p, signature);
    LengthByNames(p);
    DatagramParts(p, signature);
    BeaconBijection(Datagram(p, signature), p, signature);
  }

  function AbsDiff(a: nat, b: nat): nat {
    if a >= b then a - b else b - a
  }

  /** `Presence::verify`: version, then freshness, then signature. */
  function Verify(scheme: Scheme, p: Record, signature: seq<byte>, now: nat): Result<(), Error> {
    if p.version != PROTOCOL_VERSION then Err(UnsupportedVersion)
    else if AbsDiff(now, p.timestamp) > MAX_CLOCK_SKEW_SECS then Err(OutOfDate)
    else if !scheme.Verify(p.peerId, SigningBytes(p), signature) then Err(BadSignature)
    else Ok(())
  }

  /** A record of this version, at most five minutes off our clock, under a signature of its own key. */
  ghost predicate Genuine(scheme: Scheme, p: Record, signature: seq<byte>, now: nat) {
    && p.version == 2
    && p.timestamp <= now + 300 && now <= p.timestamp + 300
    && |signature| == 64 && scheme.checker(p.peerId, SigningBytes(p), signature)
  }

  lemma VerifyIff(scheme: Scheme, p: Record, signature: seq<byte>, now: nat)
    ensures Verify(scheme, p, signature, now).Ok? <==> Genuine(scheme, p, signature, now)
  {
  }

  /** What a node announces is taken by every node that receives it, over either path,
      exactly while their clocks are within the allowed drift. */
  lemma AnnouncementIsVerifiedIff(scheme: Scheme, sk: Secret, p: Record, now: nat)
    requires scheme.Sound() && p.peerId == scheme.publicKey(sk)
    requires p == New(p.peerId, p.nickname, p.apiPort, p.isHub, p.hubName, p.timestamp)
    ensures var signature := scheme.signer(sk, SigningBytes(p));
            FromTxt(ToTxt(p, signature)) == Ok((p, signature))
            && Beacon(p, signature).Ok? && FromBeacon(Beacon(p, signature).value) == Ok((p, signature))
            && (Verify(scheme, p, signature, now).Ok? <==> p.timestamp <= now + 300 && now <= p.timestamp + 300)
  {
    BothPathsAgree(p, scheme.signer(sk, SigningBytes(p)));
  }
}

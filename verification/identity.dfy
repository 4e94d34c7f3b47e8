/**
  Keys and signatures (crates/intraweb-core/src/identity.rs). Ed25519 and SHA-256
  are taken as given: a Scheme is any set of functions with the right shapes.
 */
module Identity {
  import opened Wrappers
  import opened Bytes
  import opened Sorting
  import Hex

  type Secret = s: seq<byte> | |s| == 32 witness seq(32, _ => 0)

  type Digest = d: seq<byte> | |d| == 32 witness seq(32, _ => 0)

  const FINGERPRINT_BYTES := 8
  const HYPHEN: byte := 0x2D

  datatype Scheme = Scheme(
    publicKey: Secret -> PeerId,
    signer: (Secret, seq<byte>) -> seq<byte>,
    checker: (PeerId, seq<byte>, seq<byte>) -> bool,
    digest: PeerId -> Digest)
  {
    /** Signing is a function of key and message, and what it makes is accepted
        (sections 5.1.6 and 5.1.7 of RFC 8032). */
    ghost predicate Sound() {
      forall sk, m {:trigger signer(sk, m)} ::
        |signer(sk, m)| == SIG_LEN && checker(publicKey(sk), m, signer(sk, m))
    }

    predicate Verify(id: PeerId, message: seq<byte>, signature: seq<byte>) {
      |signature| == SIG_LEN && checker(id, message, signature)
    }

    /** The short digest two people read to each other, such as a1b2-c3d4-e5f6-7890. */
    function Fingerprint(id: PeerId): seq<byte> {
      Hyphenated(digest(id)[..FINGERPRINT_BYTES], 0)
    }
  }

  /** Hex with a hyphen after every second byte; `i` counts the bytes already written. */
  function Hyphenated(bytes: seq<byte>, i: nat): seq<byte> {
    if bytes == [] then []
    else (if i > 0 && i % 2 == 0 then [HYPHEN] else []) + Hex.Encoded([bytes[0]]) + Hyphenated(bytes[1..], i + 1)
  }

  lemma OneMoreByte(out: seq<byte>, short: seq<byte>, i: nat)
    requires i < |short|
    ensures out + Hyphenated(short[i..], i)
         == (if i > 0 && i % 2 == 0 then out + [HYPHEN] else out) + Hex.Encoded([short[i]])
            + Hyphenated(short[i + 1..], i + 1)
  {
    var rest := short[i..];
    var mark := if i > 0 && i % 2 == 0 then [HYPHEN] else [];
    assert rest[1..] == short[i + 1..] && rest[0] == short[i];
    Regroup(out, mark, Hex.Encoded([short[i]]), Hyphenated(short[i + 1..], i + 1));
  }

  lemma Regroup(a: seq<byte>, b: seq<byte>, c: seq<byte>, d: seq<byte>)
    ensures a + (b + c + d) == ((a + b) + c) + d
    ensures b == [] ==> a + (b + c + d) == (a + c) + d
  {
  }

  method FormatFingerprint(digest: Digest) returns (out: seq<byte>)
    ensures out == Hyphenated(digest[..FINGERPRINT_BYTES], 0)
  {
    var short := digest[..FINGERPRINT_BYTES];
    out := [];
    assert short[0..] == short;
    for i := 0 to |short|
      invariant out + Hyphenated(short[i..], i) == Hyphenated(short, 0)
    {
      OneMoreByte(out, short, i);
      if i > 0 && i % 2 == 0 {
        out := out + [HYPHEN];
      }
      var digits := Hex.Encode([short[i]]);
      out := out + digits;
    }
    assert short[|short|..] == [] && out + [] == out;
  }

  /** `str::replace('-', "")`. */
  function WithoutHyphens(s: seq<byte>): seq<byte> {
    if s == [] then []
    else (if s[0] == HYPHEN then [] else [s[0]]) + WithoutHyphens(s[1..])
  }

  lemma {:induction false} WithoutHyphensConcat(a: seq<byte>, b: seq<byte>)
    ensures WithoutHyphens(a + b) == WithoutHyphens(a) + WithoutHyphens(b)
  {
    if a == [] {
      assert a + b == b;
    } else {
      assert (a + b)[1..] == a[1..] + b;
      WithoutHyphensConcat(a[1..], b);
    }
  }

  lemma TwoDigits(b: byte)
    ensures WithoutHyphens(Hex.Encoded([b])) == Hex.Encoded([b]) == [Hex.Digit(b / 16), Hex.Digit(b % 16)]
  {
    var one := [b];
    assert one[1..] == [];
    assert Hex.Encoded(one) == [Hex.Digit(b / 16), Hex.Digit(b % 16)] + Hex.Encoded(one[1..]);
    var digits := Hex.Encoded(one);
    var tail := digits[1..];
    assert tail == [digits[1]] && tail[1..] == [];
    assert WithoutHyphens(tail) == [digits[1]] + WithoutHyphens(tail[1..]) == tail;
    assert digits == [digits[0]] + tail;
  }

  /** Hyphens carry no information: stripped, a fingerprint is plain hex again. */
  lemma {:induction false} HyphenatedIsHex(bytes: seq<byte>, i: nat)
    ensures WithoutHyphens(Hyphenated(bytes, i)) == Hex.Encoded(bytes)
  {
    if bytes != [] {
      var mark := if i > 0 && i % 2 == 0 then [HYPHEN] else [];
      var digits := Hex.Encoded([bytes[0]]);
      var tail := Hyphenated(bytes[1..], i + 1);
      TwoDigits(bytes[0]);
      WithoutHyphensConcat(mark + digits, tail);
      WithoutHyphensConcat(mark, digits);
      HyphenatedIsHex(bytes[1..], i + 1);
      assert WithoutHyphens(mark) == [];
    }
  }

  /** Taking hyphens out leaves everything else, in order. */
  lemma {:induction false} WithoutHyphensExact(s: seq<byte>)
    ensures WithoutHyphens(s) == Filter((c: byte) => c != 0x2D, s)
  {
    if s != [] {
      WithoutHyphensExact(s[1..]);
    }
  }

  /** Such a group, with the hyphen in front of it. */
  function Group(b: seq<byte>): seq<byte> {
    [0x2D] + Hex.Encoded(b)
  }

  /** A fingerprint is four groups of four hex digits, of the digest's first eight bytes. */
  lemma FingerprintLayout(scheme: Scheme, id: PeerId)
    ensures var d := scheme.digest(id);
            scheme.Fingerprint(id) == Hex.Encoded(d[0..2]) + (Group(d[2..4]) + (Group(d[4..6]) + Group(d[6..8])))
  {
    var d := scheme.digest(id);
    var b := d[..8];
    FourPairs(b);
    assert b[0..2] == d[0..2] && b[2..4] == d[2..4] && b[4..6] == d[4..6] && b[6..8] == d[6..8];
  }

  lemma FourPairs(b: seq<byte>)
    requires |b| == 8
    ensures Hyphenated(b, 0) == Hex.Encoded(b[0..2]) + (Group(b[2..4]) + (Group(b[4..6]) + Group(b[6..8])))
  {
    HyphenatedPair(b, 0);
    assert b[0..] == b;
    HyphenatedPair(b, 2);
    HyphenatedPair(b, 4);
    LastPair(b);
  }

  lemma LastPair(b: seq<byte>)
    requires |b| == 8
    ensures Hyphenated(b[6..], 6) == Group(b[6..8])
  {
    HyphenatedPair(b, 6);
    assert b[8..] == [] && Hyphenated(b[8..], 8) == [];
    assert Group(b[6..8]) + [] == Group(b[6..8]);
  }

  lemma HyphenatedPair(b: seq<byte>, i: nat)
    requires i + 2 <= |b| && i % 2 == 0
    ensures Hyphenated(b[i..], i)
         == (if i > 0 then Group(b[i..i + 2]) else Hex.Encoded(b[i..i + 2])) + Hyphenated(b[i + 2..], i + 2)
  {
    var rest, two := b[i..], b[i..i + 2];
    assert rest[0] == two[0] == b[i] && rest[1..][0] == two[1] == b[i + 1] && rest[1..][1..] == b[i + 2..];
    assert two[1..] == [two[1]] && two[1..][1..] == [];
    TwoDigits(two[0]);
    TwoDigits(two[1]);
    assert Hex.Encoded(two) == Hex.Encoded([two[0]]) + Hex.Encoded([two[1]]);
  }
}

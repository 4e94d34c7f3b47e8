/** The hex codec keys are written with (crates/intraweb-core/src/hex.rs). */
module Hex {
  import opened Wrappers
  import opened Bytes

  function Digit(n: nat): byte
    requires n < 16
  {
    if n < 10 then 0x30 + n else 0x61 + (n - 10)
  }

  function Nibble(c: byte): Option<byte> {
    if 0x30 <= c <= 0x39 then Some(c - 0x30)
    else if 0x61 <= c <= 0x66 then Some(c - 0x61 + 10)
    else if 0x41 <= c <= 0x46 then Some(c - 0x41 + 10)
    else None
  }

  function Encoded(bytes: seq<byte>): seq<byte> {
    if bytes == [] then []
    else [Digit(bytes[0] / 16), Digit(bytes[0] % 16)] + Encoded(bytes[1..])
  }

  function Decoded(s: seq<byte>): Option<seq<byte>> {
    if s == [] then Some([])
    else if |s| == 1 then None
    else
      var hi :- Nibble(s[0]);
      var lo :- Nibble(s[1]);
      var rest :- Decoded(s[2..]);
      Some([hi * 16 + lo] + rest)
  }

  function DecodedArray(n: nat, s: seq<byte>): Option<seq<byte>> {
    if |s| != n * 2 then None else Decoded(s)
  }

  method Encode(bytes: seq<byte>) returns (out: seq<byte>)
    ensures out == Encoded(bytes)
  {
    out := [];
    for i := 0 to |bytes|
      invariant out + Encoded(bytes[i..]) == Encoded(bytes)
    {
      ghost var before := out;
      out := out + [Digit(bytes[i] / 16)];
      out := out + [Digit(bytes[i] % 16)];
      assert before + ([Digit(bytes[i] / 16), Digit(bytes[i] % 16)] + Encoded(bytes[i + 1..]))
          == out + Encoded(bytes[i + 1..]);
    }
  }

  method DecodeArray(n: nat, s: seq<byte>) returns (r: Option<seq<byte>>)
    ensures r == DecodedArray(n, s)
  {
    if |s| != n * 2 {
      return None;
    }
    var out := new byte[n];
    assert s[2 * 0..] == s && forall rest: seq<byte> :: out[..0] + rest == rest;
    for i := 0 to n
      invariant |s| == 2 * n
      invariant match Decoded(s[2 * i..])
                case Some(rest) => Decoded(s) == Some(out[..i] + rest)
                case None => Decoded(s) == None
    {
      assert s[2 * i..][2..] == s[2 * (i + 1)..];
      var hi, lo := Nibble(s[i * 2]), Nibble(s[i * 2 + 1]);
      if hi.None? || lo.None? {
        return None;
      }
      ghost var before := out[..i];
      out[i] := hi.value * 16 + lo.value;
      assert out[..i + 1] == before + [out[i]];
      assert forall rest :: before + ([out[i]] + rest) == out[..i + 1] + rest;
    }
    assert s[2 * n..] == [] && out[..] == out[..n] == out[..n] + [];
    r := Some(out[..]);
  }

  lemma {:induction false} EncodedShape(bytes: seq<byte>)
    ensures |Encoded(bytes)| == 2 * |bytes|
    ensures SeparatorFree(Encoded(bytes))
    ensures forall i :: 0 <= i < |Encoded(bytes)| ==> Nibble(Encoded(bytes)[i]).Some? && Encoded(bytes)[i] < 0x80
  {
    if bytes != [] {
      EncodedShape(bytes[1..]);
    }
  }

  /** A text decodes to `bytes` exactly when it is their encoding, up to letter case. */
  lemma {:induction false} DecodesIffEncodes(s: seq<byte>, bytes: seq<byte>)
    ensures Decoded(s) == Some(bytes) <==> Lower(s) == Encoded(bytes)
  {
    EncodedShape(bytes);
    if bytes == [] || |s| < 2 {
      if |s| >= 2 && Decoded(s).Some? {
        assert |Decoded(s).value| > 0;
      }
    } else {
      DecodesIffEncodes(s[2..], bytes[1..]);
      assert Lower(s) == [LowerByte(s[0]), LowerByte(s[1])] + Lower(s[2..]);
      assert bytes == [bytes[0]] + bytes[1..];
      assert Encoded(bytes)[..2] == [Digit(bytes[0] / 16), Digit(bytes[0] % 16)];
      assert Lower(s)[..2] == [LowerByte(s[0]), LowerByte(s[1])];
      assert Encoded(bytes)[2..] == Encoded(bytes[1..]) && Lower(s)[2..] == Lower(s[2..]);
      NibbleOfDigit(s[0], bytes[0] / 16);
      NibbleOfDigit(s[1], bytes[0] % 16);
      if Decoded(s) == Some(bytes) {
        var hi, lo := Nibble(s[0]).value, Nibble(s[1]).value;
        assert bytes[0] == hi * 16 + lo;
        assert [hi * 16 + lo] + Decoded(s[2..]).value == bytes;
        assert Decoded(s[2..]).value == bytes[1..];
      }
    }
  }

  lemma NibbleOfDigit(c: byte, n: nat)
    requires n < 16
    ensures Nibble(c) == Some(n) <==> LowerByte(c) == Digit(n)
  {
  }

  lemma RoundTrip(bytes: seq<byte>)
    ensures DecodedArray(|bytes|, Encoded(bytes)) == Some(bytes)
  {
    EncodedShape(bytes);
    EncodedLower(bytes);
    DecodesIffEncodes(Encoded(bytes), bytes);
  }

  lemma {:induction false} EncodedLower(bytes: seq<byte>)
    ensures Lower(Encoded(bytes)) == Encoded(bytes)
  {
    if bytes != [] {
      EncodedLower(bytes[1..]);
      assert Lower(Encoded(bytes)[2..]) == Encoded(bytes)[2..];
    }
  }

  lemma EncodedInjective(a: seq<byte>, b: seq<byte>)
    requires Encoded(a) == Encoded(b)
    ensures a == b
  {
    EncodedShape(a);
    EncodedShape(b);
    RoundTrip(a);
    RoundTrip(b);
  }

  function ParseKey(s: seq<byte>): (k: Option<PeerId>)
  {
    match Decoded(s)
    case Some(bytes) => if |bytes| == KEY_LEN then Some(bytes) else None
    case None => None
  }

  lemma ParseKeyIffDecodedArray(s: seq<byte>)
    ensures ParseKey(s) == DecodedArray(KEY_LEN, s)
  {
    if Decoded(s).Some? {
      DecodesIffEncodes(s, Decoded(s).value);
      EncodedShape(Decoded(s).value);
    }
  }
}

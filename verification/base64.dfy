/**
  Base64 with the standard alphabet, without padding and with canonical tail bits
  (sections 3.2, 3.5 and 4 of RFC 4648): the `STANDARD_NO_PAD` engine.
 */
module Base64 {
  import opened Wrappers
  import opened Bytes

  type sextet = n: int | 0 <= n < 64

  function Symbol(n: sextet): byte {
    if n < 26 then 0x41 + n
    else if n < 52 then 0x61 + (n - 26)
    else if n < 62 then 0x30 + (n - 52)
    else if n == 62 then 0x2B
    else 0x2F
  }

  function Bits(c: byte): Option<sextet> {
    if 0x41 <= c <= 0x5A then Some(c - 0x41)
    else if 0x61 <= c <= 0x7A then Some(c - 0x61 + 26)
    else if 0x30 <= c <= 0x39 then Some(c - 0x30 + 52)
    else if c == 0x2B then Some(62)
    else if c == 0x2F then Some(63)
    else None
  }

  function Symbols(ns: seq<sextet>): seq<byte> {
    if ns == [] then [] else [Symbol(ns[0])] + Symbols(ns[1..])
  }

  function AllBits(s: seq<byte>): Option<seq<sextet>> {
    if s == [] then Some([])
    else
      var n :- Bits(s[0]);
      var rest :- AllBits(s[1..]);
      Some([n] + rest)
  }

  /** Bytes regrouped by six bits, the last group filled up with zero bits. */
  function Sextets(b: seq<byte>): seq<sextet> {
    if b == [] then []
    else if |b| == 1 then [b[0] / 4, b[0] % 4 * 16]
    else if |b| == 2 then [b[0] / 4, b[0] % 4 * 16 + b[1] / 16, b[1] % 16 * 4]
    else [b[0] / 4, b[0] % 4 * 16 + b[1] / 16, b[1] % 16 * 4 + b[2] / 64, b[2] % 64] + Sextets(b[3..])
  }

  function First(n: seq<sextet>): byte
    requires |n| >= 2
  {
    (n[0] as int) * 4 + n[1] / 16
  }

  function Second(n: seq<sextet>): byte
    requires |n| >= 3
  {
    (n[1] as int) % 16 * 16 + n[2] / 4
  }

  function Third(n: seq<sextet>): byte
    requires |n| >= 4
  {
    (n[2] as int) % 4 * 64 + n[3]
  }

  /** The inverse regrouping; fill bits that are not zero are refused. */
  function Octets(n: seq<sextet>): Option<seq<byte>> {
    if n == [] then Some([])
    else if |n| == 1 then None
    else if |n| == 2 then if n[1] % 16 == 0 then Some([First(n)]) else None
    else if |n| == 3 then if n[2] % 4 == 0 then Some([First(n), Second(n)]) else None
    else
      var rest :- Octets(n[4..]);
      Some([First(n), Second(n), Third(n)] + rest)
  }

  function Encode(b: seq<byte>): seq<byte> {
    Symbols(Sextets(b))
  }

  function Decode(s: seq<byte>): Option<seq<byte>> {
    var n :- AllBits(s);
    Octets(n)
  }

  lemma BitsOfSymbol(c: byte, n: sextet)
    ensures Bits(c) == Some(n) <==> c == Symbol(n)
  {
  }

  lemma {:induction false} BitsIffSymbols(s: seq<byte>, ns: seq<sextet>)
    ensures AllBits(s) == Some(ns) <==> s == Symbols(ns)
  {
    if s != [] && ns != [] {
      BitsOfSymbol(s[0], ns[0]);
      BitsIffSymbols(s[1..], ns[1..]);
      assert s == [s[0]] + s[1..];
      assert ns == [ns[0]] + ns[1..];
      assert Symbols(ns)[1..] == Symbols(ns[1..]);
    }
  }

  lemma Pack(high: nat, low: nat, width: nat)
    requires width in {4, 16, 64} && low < width
    ensures (high * width + low) / width == high && (high * width + low) % width == low
  {
    if width == 4 {
      assert (high * 4 + low) / 4 == high;
    } else if width == 16 {
      assert (high * 16 + low) / 16 == high;
    } else {
      assert (high * 64 + low) / 64 == high;
    }
  }

  lemma Unpack(x: nat, width: nat)
    requires width > 0
    ensures x / width * width + x % width == x
  {
  }

  lemma BytesToBits(x: byte, y: byte, z: byte)
    ensures var q, r := x % 4 * 16 + y / 16, y % 16 * 4 + z / 64;
            x / 4 * 4 + q / 16 == x && q % 16 * 16 + r / 4 == y && r % 4 * 64 + z % 64 == z
  {
    Pack(x % 4, y / 16, 16);
    Pack(y % 16, z / 64, 4);
    Unpack(x, 4);
    Unpack(y, 16);
    Unpack(z, 64);
  }

  lemma BitsToBytes(p: sextet, q: sextet, r: sextet, t: sextet)
    ensures var x, y, z := p * 4 + q / 16, q % 16 * 16 + r / 4, r % 4 * 64 + t;
            x / 4 == p && x % 4 * 16 + y / 16 == q && y % 16 * 4 + z / 64 == r && z % 64 == t
  {
    Pack(p, q / 16, 4);
    Pack(q % 16, r / 4, 16);
    Pack(r % 4, t, 64);
    Unpack(q, 16);
    Unpack(r, 4);
  }

  lemma {:induction false} OctetsOfSextets(b: seq<byte>)
    ensures Octets(Sextets(b)) == Some(b)
  {
    if |b| < 3 {
      if |b| > 0 {
        BytesToBits(b[0], if |b| == 2 then b[1] else 0, 0);
        assert b == if |b| == 1 then [b[0]] else [b[0], b[1]];
      }
    } else {
      OctetsOfSextets(b[3..]);
      BytesToBits(b[0], b[1], b[2]);
      assert Sextets(b)[4..] == Sextets(b[3..]);
      assert b == [b[0], b[1], b[2]] + b[3..];
    }
  }

  lemma {:induction false} SextetsOfOctets(n: seq<sextet>)
    requires Octets(n).Some?
    ensures Sextets(Octets(n).value) == n
  {
    if |n| >= 4 {
      SextetsOfOctets(n[4..]);
      BitsToBytes(n[0], n[1], n[2], n[3]);
      assert Octets(n).value[3..] == Octets(n[4..]).value;
      assert n == [n[0], n[1], n[2], n[3]] + n[4..];
    } else if |n| > 0 {
      BitsToBytes(n[0], n[1], if |n| == 3 then n[2] else 0, 0);
    }
  }

  /** What decodes at all is the one canonical text of what it decodes to. */
  lemma DecodesIffEncodes(s: seq<byte>, b: seq<byte>)
    ensures Decode(s) == Some(b) <==> s == Encode(b)
  {
    OctetsOfSextets(b);
    BitsIffSymbols(s, Sextets(b));
    if Decode(s) == Some(b) {
      BitsIffSymbols(s, AllBits(s).value);
      SextetsOfOctets(AllBits(s).value);
    }
  }

  lemma {:induction false} SymbolsShape(ns: seq<sextet>)
    ensures SeparatorFree(Symbols(ns)) && forall i :: 0 <= i < |Symbols(ns)| ==> Symbols(ns)[i] < 0x80
  {
    if ns != [] {
      SymbolsShape(ns[1..]);
    }
  }

  lemma EncodeInjective(a: seq<byte>, b: seq<byte>)
    requires Encode(a) == Encode(b)
    ensures a == b
  {
    DecodesIffEncodes(Encode(a), a);
    DecodesIffEncodes(Encode(b), b);
  }

  /** One of the test vectors of section 10 of RFC 4648: "foobar". */
  lemma TestVector()
    ensures Encode(Ascii("foobar")) == Ascii("Zm9vYmFy")
  {
    var b := Ascii("foobar");
    assert b[3..][3..] == [];
    var ns := Sextets(b);
    assert ns == [25, 38, 61, 47] + [24, 38, 5, 50];
    assert Symbols(ns) == [Symbol(ns[0])] + Symbols(ns[1..]);
  }
}

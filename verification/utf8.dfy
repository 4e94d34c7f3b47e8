/** UTF-8 validity, as `str::from_utf8` checks it (section 4 of RFC 3629). */
module Utf8 {
  import opened Bytes

  predicate Tail(c: byte) {
    0x80 <= c < 0xC0
  }

  /** The length of the well-formed character that `s` starts with, or 0 when there is none. */
  function CharLength(s: seq<byte>): (n: nat)
    ensures n <= |s|
    ensures n > 0 ==> forall i :: 1 <= i < n ==> Tail(s[i])
    ensures |s| > 0 && s[0] < 0x80 ==> n == 1
  {
    if s == [] then 0
    else if s[0] < 0x80 then 1
    else if 0xC2 <= s[0] <= 0xDF && |s| >= 2 && Tail(s[1]) then 2
    else if |s| >= 3 && Tail(s[1]) && Tail(s[2])
         && ((s[0] == 0xE0 && s[1] >= 0xA0) || 0xE1 <= s[0] <= 0xEC
             || (s[0] == 0xED && s[1] < 0xA0) || 0xEE <= s[0] <= 0xEF) then 3
    else if |s| >= 4 && Tail(s[1]) && Tail(s[2]) && Tail(s[3])
         && ((s[0] == 0xF0 && s[1] >= 0x90) || 0xF1 <= s[0] <= 0xF3
             || (s[0] == 0xF4 && s[1] < 0x90)) then 4
    else 0
  }

  predicate Valid(s: seq<byte>) {
    s == [] || (var n := CharLength(s); n > 0 && Valid(s[n..]))
  }

  lemma CharLengthPrefix(a: seq<byte>, b: seq<byte>)
    ensures CharLength(a) > 0 ==> CharLength(a + b) == CharLength(a)
    ensures CharLength(a + b) <= |a| ==> CharLength(a + b) == CharLength(a)
  {
  }

  lemma {:induction false} ValidConcat(a: seq<byte>, b: seq<byte>)
    requires Valid(a)
    ensures Valid(a + b) <==> Valid(b)
  {
    if a == [] {
      assert a + b == b;
    } else {
      var n := CharLength(a);
      CharLengthPrefix(a, b);
      assert (a + b)[n..] == a[n..] + b;
      ValidConcat(a[n..], b);
    }
  }

  /** No character straddles an ASCII byte, so splitting at one keeps both halves valid. */
  lemma {:induction false} ValidBeforeAscii(a: seq<byte>, c: byte, b: seq<byte>)
    requires c < 0x80 && Valid(a + [c] + b)
    ensures Valid(a)
  {
    if a != [] {
      var s := a + [c] + b;
      var n := CharLength(s);
      assert s[|a|] == c;
      assert n <= |a|;
      assert s == a + ([c] + b);
      CharLengthPrefix(a, [c] + b);
      assert s[n..] == a[n..] + [c] + b;
      ValidBeforeAscii(a[n..], c, b);
    }
  }

  lemma ValidAroundAscii(a: seq<byte>, c: byte, b: seq<byte>)
    requires c < 0x80
    ensures Valid(a + [c] + b) <==> Valid(a) && Valid(b)
  {
    if Valid(a + [c] + b) {
      ValidBeforeAscii(a, c, b);
    }
    if Valid(a) {
      assert a + [c] + b == a + ([c] + b);
      ValidConcat(a, [c] + b);
      assert ([c] + b)[1..] == b;
    }
  }

  lemma {:induction false} ValidAscii(s: seq<byte>)
    requires forall i :: 0 <= i < |s| ==> s[i] < 0x80
    ensures Valid(s)
  {
    if s != [] {
      ValidAscii(s[1..]);
    }
  }

  /** A list of fields is valid text exactly when each field is. */
  lemma {:induction false} ValidJoin(parts: seq<seq<byte>>, sep: byte := SEPARATOR)
    requires |parts| >= 1 && sep < 0x80
    ensures Valid(Join(parts, sep)) <==> forall i :: 0 <= i < |parts| ==> Valid(parts[i])
  {
    if |parts| > 1 {
      ValidJoin(parts[1..], sep);
      ValidAroundAscii(parts[0], sep, Join(parts[1..], sep));
      assert forall i :: 1 <= i < |parts| ==> parts[i] == parts[1..][i - 1];
      assert forall i :: 0 <= i < |parts| - 1 ==> parts[1..][i] == parts[i + 1];
    }
  }

  // ---- which characters these are ----

  /** A Unicode scalar value: any code point that is no surrogate (section 3 of RFC 3629). */
  type Scalar = c: int | 0 <= c < 0xD800 || 0xE000 <= c < 0x11_0000

  /** Its UTF-8 octets. */
  function Octets(c: Scalar): seq<byte> {
    if c < 0x80 then [c]
    else if c < 0x800 then [0xC0 + c / 0x40, 0x80 + c % 0x40]
    else if c < 0x1_0000 then [0xE0 + c / 0x1000, 0x80 + c / 0x40 % 0x40, 0x80 + c % 0x40]
    else [0xF0 + c / 0x4_0000, 0x80 + c / 0x1000 % 0x40, 0x80 + c / 0x40 % 0x40, 0x80 + c % 0x40]
  }

  lemma OctetsAreRead(c: Scalar, rest: seq<byte>)
    ensures CharLength(Octets(c) + rest) == |Octets(c)|
  {
    var s := Octets(c) + rest;
    assert s[0] == Octets(c)[0];
    assert |Octets(c)| >= 2 ==> s[1] == Octets(c)[1];
    assert |Octets(c)| >= 3 ==> s[2] == Octets(c)[2];
    assert |Octets(c)| >= 4 ==> s[3] == Octets(c)[3];
  }

  lemma TwoOctets(a: byte, b: byte) returns (c: Scalar)
    requires 0xC2 <= a <= 0xDF && Tail(b)
    ensures Octets(c) == [a, b]
  {
    var hi: int, lo: int := a, b;
    c := (hi - 0xC0) * 0x40 + (lo - 0x80);
    assert c / 0x40 == hi - 0xC0 && c % 0x40 == lo - 0x80;
  }

  lemma ThreeOctets(a: byte, b: byte, d: byte) returns (c: Scalar)
    requires Tail(b) && Tail(d)
    requires (a == 0xE0 && b >= 0xA0) || 0xE1 <= a <= 0xEC || (a == 0xED && b < 0xA0) || 0xEE <= a <= 0xEF
    ensures Octets(c) == [a, b, d]
  {
    var hi: int, mid: int, lo: int := a, b, d;
    var v := (hi - 0xE0) * 0x40 + (mid - 0x80);
    c := v * 0x40 + (lo - 0x80);
    assert c / 0x40 == v && c % 0x40 == lo - 0x80;
    assert v / 0x40 == hi - 0xE0 && v % 0x40 == mid - 0x80;
    assert c / 0x1000 == v / 0x40;
  }

  lemma FourOctets(a: byte, b: byte, d: byte, e: byte) returns (c: Scalar)
    requires Tail(b) && Tail(d) && Tail(e)
    requires (a == 0xF0 && b >= 0x90) || 0xF1 <= a <= 0xF3 || (a == 0xF4 && b < 0x90)
    ensures Octets(c) == [a, b, d, e]
  {
    var hi: int, second: int, third: int, lo: int := a, b, d, e;
    var u := (hi - 0xF0) * 0x40 + (second - 0x80);
    var v := u * 0x40 + (third - 0x80);
    c := v * 0x40 + (lo - 0x80);
    assert c / 0x40 == v && c % 0x40 == lo - 0x80;
    assert v / 0x40 == u && v % 0x40 == third - 0x80;
    assert u / 0x40 == hi - 0xF0 && u % 0x40 == second - 0x80;
    assert c / 0x1000 == u && c / 0x4_0000 == u / 0x40;
  }

  lemma ReadAreOctets(s: seq<byte>) returns (c: Scalar)
    requires CharLength(s) > 0
    ensures s[..CharLength(s)] == Octets(c)
  {
    var n := CharLength(s);
    if n == 1 {
      c := s[0] as int;
    } else if n == 2 {
      c := TwoOctets(s[0], s[1]);
    } else if n == 3 {
      c := ThreeOctets(s[0], s[1], s[2]);
    } else {
      c := FourOctets(s[0], s[1], s[2], s[3]);
    }
  }

  function Text(cs: seq<Scalar>): seq<byte> {
    if cs == [] then [] else Octets(cs[0]) + Text(cs[1..])
  }

  lemma {:induction false} TextIsValid(cs: seq<Scalar>)
    ensures Valid(Text(cs))
  {
    if cs != [] {
      TextIsValid(cs[1..]);
      OctetsAreRead(cs[0], Text(cs[1..]));
      assert Text(cs)[|Octets(cs[0])|..] == Text(cs[1..]);
    }
  }

  /** Valid are exactly the texts written in scalar values. */
  lemma {:induction false} ValidIsText(s: seq<byte>) returns (cs: seq<Scalar>)
    requires Valid(s)
    ensures Text(cs) == s
  {
    cs := [];
    if s != [] {
      var n := CharLength(s);
      var c := ReadAreOctets(s);
      cs := ValidIsText(s[n..]);
      assert ([c] + cs)[1..] == cs;
      assert s == s[..n] + s[n..];
      cs := [c] + cs;
    }
  }

  lemma ValidIff(s: seq<byte>)
    ensures Valid(s) <==> exists cs :: Text(cs) == s
  {
    if Valid(s) {
      var cs := ValidIsText(s);
    }
    forall cs | Text(cs) == s ensures Valid(s) {
      TextIsValid(cs);
    }
  }
}

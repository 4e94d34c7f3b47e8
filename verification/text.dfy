/**
  White space in UTF-8 text, and the standard library's `trim` and
  `split_whitespace`, which go by the Unicode property White_Space.
 */
module Text {
  import opened Bytes
  import Utf8

  predicate SpaceByte(c: byte) {
    0x09 <= c <= 0x0D || c == 0x20
  }

  predicate SpacePair(c: byte, d: byte) {
    c == 0xC2 && (d == 0x85 || d == 0xA0)
  }

  predicate SpaceTriple(c: byte, d: byte, e: byte) {
    || (c == 0xE1 && d == 0x9A && e == 0x80)
    || (c == 0xE2 && d == 0x80 && (0x80 <= e <= 0x8A || e == 0xA8 || e == 0xA9 || e == 0xAF))
    || (c == 0xE2 && d == 0x81 && e == 0x9F)
    || (c == 0xE3 && d == 0x80 && e == 0x80)
  }

  /** The length of the white-space character that `s` starts with, or 0 when it starts with none. */
  function SpaceLength(s: seq<byte>): (n: nat)
    ensures n <= |s| && n <= 3
  {
    if |s| >= 1 && SpaceByte(s[0]) then 1
    else if |s| >= 2 && SpacePair(s[0], s[1]) then 2
    else if |s| >= 3 && SpaceTriple(s[0], s[1], s[2]) then 3
    else 0
  }

  /** The same for the character that `s` ends with. */
  function SpaceAtEnd(s: seq<byte>): (n: nat)
    ensures n <= |s| && n <= 3
  {
    var k := |s|;
    if k >= 1 && SpaceByte(s[k - 1]) then 1
    else if k >= 2 && SpacePair(s[k - 2], s[k - 1]) then 2
    else if k >= 3 && SpaceTriple(s[k - 3], s[k - 2], s[k - 1]) then 3
    else 0
  }

  /** The code points with the property White_Space. */
  predicate WhiteSpace(c: Utf8.Scalar) {
    || 0x09 <= c <= 0x0D || c == 0x20 || c == 0x85 || c == 0xA0 || c == 0x1680 || 0x2000 <= c <= 0x200A
    || c == 0x2028 || c == 0x2029 || c == 0x202F || c == 0x205F || c == 0x3000
  }

  /** A text starts with white space exactly if it starts with such a character. */
  lemma StartsWithSpaceIff(s: seq<byte>)
    ensures SpaceLength(s) > 0 <==> exists c :: WhiteSpace(c) && Utf8.Octets(c) <= s
    ensures forall c :: WhiteSpace(c) && Utf8.Octets(c) <= s ==> SpaceLength(s) == |Utf8.Octets(c)|
  {
    if SpaceLength(s) > 0 {
      var c := SpaceCharacter(s);
    }
    forall c | WhiteSpace(c) && Utf8.Octets(c) <= s ensures SpaceLength(s) == |Utf8.Octets(c)| {
      SpaceIsFound(c, s);
    }
  }

  lemma SpaceIsFound(c: Utf8.Scalar, s: seq<byte>)
    requires WhiteSpace(c) && Utf8.Octets(c) <= s
    ensures SpaceLength(s) == |Utf8.Octets(c)|
  {
    var o := Utf8.Octets(c);
    assert s[0] == o[0];
    assert |o| >= 2 ==> s[1] == o[1];
    assert |o| >= 3 ==> s[2] == o[2];
  }

  lemma SpaceCharacter(s: seq<byte>) returns (c: Utf8.Scalar)
    requires SpaceLength(s) > 0
    ensures WhiteSpace(c) && Utf8.Octets(c) <= s
  {
    var lead: int := s[0];
    if SpaceLength(s) == 1 {
      c := lead;
    } else {
      var second: int := s[1];
      if SpaceLength(s) == 2 {
        c := (lead - 0xC0) * 0x40 + (second - 0x80);
      } else {
        var third: int := s[2];
        c := (lead - 0xE0) * 0x1000 + (second - 0x80) * 0x40 + (third - 0x80);
      }
    }
  }

  /** And it ends with white space exactly if it ends with such a character. */
  lemma EndsWithSpaceIff(s: seq<byte>)
    ensures SpaceAtEnd(s) > 0 <==> exists c, init :: WhiteSpace(c) && s == init + Utf8.Octets(c)
  {
    if SpaceAtEnd(s) > 0 {
      var k := |s| - SpaceAtEnd(s);
      var last := s[k..];
      assert SpaceLength(last) == |last|;
      var c := SpaceCharacter(last);
      SpaceIsFound(c, last);
      assert last == Utf8.Octets(c);
      assert s == s[..k] + last;
    }
    forall c, init | WhiteSpace(c) && s == init + Utf8.Octets(c) ensures SpaceAtEnd(s) > 0 {
      SpaceIsLast(c, init);
    }
  }

  lemma SpaceIsLast(c: Utf8.Scalar, init: seq<byte>)
    requires WhiteSpace(c)
    ensures SpaceAtEnd(init + Utf8.Octets(c)) > 0
  {
    var s, o := init + Utf8.Octets(c), Utf8.Octets(c);
    assert s[|s| - 1] == o[|o| - 1];
    assert |o| >= 2 ==> s[|s| - 2] == o[|o| - 2];
    assert |o| >= 3 ==> s[|s| - 3] == o[|o| - 3];
  }

  /** White-space characters and nothing else. */
  predicate Blank(s: seq<byte>) {
    s == [] || (var n := SpaceLength(s); n > 0 && Blank(s[n..]))
  }

  function TrimStart(s: seq<byte>): seq<byte> {
    var n := SpaceLength(s);
    if n > 0 then TrimStart(s[n..]) else s
  }

  function TrimEnd(s: seq<byte>): seq<byte> {
    var n := SpaceAtEnd(s);
    if n > 0 then TrimEnd(s[..|s| - n]) else s
  }

  function Trim(s: seq<byte>): seq<byte> {
    TrimEnd(TrimStart(s))
  }

  lemma BlankCons(first: seq<byte>, rest: seq<byte>)
    requires first != [] && SpaceLength(first) == |first| && Blank(rest)
    ensures Blank(first + rest)
  {
    var s := first + rest;
    assert SpaceLength(s) == |first|;
    assert s[|first|..] == rest;
  }

  lemma SkipFirst(s: seq<byte>) returns (first: seq<byte>, rest: seq<byte>)
    requires SpaceLength(s) > 0
    ensures s == first + rest && |rest| < |s| && SpaceLength(first) == |first| && TrimStart(s) == TrimStart(rest)
  {
    first, rest := s[..SpaceLength(s)], s[SpaceLength(s)..];
  }

  lemma SkipLast(s: seq<byte>) returns (rest: seq<byte>, last: seq<byte>)
    requires SpaceAtEnd(s) > 0
    ensures s == rest + last && |rest| < |s| && SpaceLength(last) == |last| && TrimEnd(s) == TrimEnd(rest)
  {
    var k := |s| - SpaceAtEnd(s);
    rest, last := s[..k], s[k..];
  }

  lemma Regroup(a: seq<byte>, b: seq<byte>, c: seq<byte>)
    ensures (a + b) + c == a + (b + c)
  {
  }

  lemma {:induction false} TrimStartStops(s: seq<byte>)
    ensures SpaceLength(TrimStart(s)) == 0
    decreases |s|
  {
    if SpaceLength(s) > 0 {
      TrimStartStops(s[SpaceLength(s)..]);
    }
  }

  lemma {:induction false} TrimStartExact(s: seq<byte>) returns (cut: seq<byte>)
    ensures s == cut + TrimStart(s) && Blank(cut)
    decreases |s|
  {
    cut := [];
    if SpaceLength(s) > 0 {
      var first, rest := SkipFirst(s);
      cut := TrimStartExact(rest);
      BlankCons(first, cut);
      Regroup(first, cut, TrimStart(rest));
      cut := first + cut;
    }
  }

  lemma {:induction false} TrimEndStops(s: seq<byte>)
    ensures SpaceAtEnd(TrimEnd(s)) == 0
    decreases |s|
  {
    if SpaceAtEnd(s) > 0 {
      TrimEndStops(s[..|s| - SpaceAtEnd(s)]);
    }
  }

  lemma {:induction false} TrimEndExact(s: seq<byte>, behind: seq<byte>) returns (cut: seq<byte>)
    requires Blank(behind)
    ensures s + behind == TrimEnd(s) + cut && Blank(cut)
    decreases |s|
  {
    cut := behind;
    if SpaceAtEnd(s) > 0 {
      var rest, last := SkipLast(s);
      BlankCons(last, behind);
      cut := TrimEndExact(rest, last + behind);
      Regroup(rest, last, behind);
    }
  }

  /** What starts with no white space still does when its end is cut off. */
  lemma StartSurvives(a: seq<byte>, b: seq<byte>)
    requires SpaceLength(a + b) == 0
    ensures SpaceLength(a) == 0
  {
  }

  /** Trimming takes off the white space at both ends and nothing else. */
  lemma TrimExact(s: seq<byte>) returns (before: seq<byte>, after: seq<byte>)
    ensures s == before + (Trim(s) + after) && Blank(before) && Blank(after)
    ensures SpaceAtEnd(Trim(s)) == 0 && SpaceLength(Trim(s)) == 0
  {
    var rest := TrimStart(s);
    before := TrimStartExact(s);
    TrimStartStops(s);
    after := TrimEndExact(rest, []);
    assert rest + [] == rest;
    TrimEndStops(rest);
    StartSurvives(TrimEnd(rest), after);
  }

  // ---- words ----

  function SkipWord(s: seq<byte>): seq<byte> {
    if s != [] && SpaceLength(s) == 0 then SkipWord(s[1..]) else s
  }

  function Word(s: seq<byte>): seq<byte> {
    if s == [] || SpaceLength(s) > 0 then [] else [s[0]] + Word(s[1..])
  }

  predicate NoSpace(s: seq<byte>) {
    s == [] || (SpaceLength(s) == 0 && NoSpace(s[1..]))
  }

  /** A word is read up to the space or line end behind it. */
  lemma {:induction false} WordOf(w: seq<byte>, rest: seq<byte>)
    requires NoSpace(w) && (rest == [] || (rest[0] < 0x80 && SpaceLength(rest) > 0))
    ensures Word(w + rest) == w && SkipWord(w + rest) == rest
  {
    if w == [] {
      assert w + rest == rest;
    } else {
      assert (w + rest)[1..] == w[1..] + rest;
      WordOf(w[1..], rest);
    }
  }

  lemma {:induction false} NoSpaceBytes(w: seq<byte>)
    requires NoSpace(w)
    ensures forall i :: 0 <= i < |w| ==> !SpaceByte(w[i])
  {
    if w != [] {
      NoSpaceBytes(w[1..]);
      assert forall i :: 1 <= i < |w| ==> w[i] == w[1..][i - 1];
    }
  }

  lemma {:induction false} PlainWord(w: seq<byte>)
    requires forall i :: 0 <= i < |w| ==> 0x21 <= w[i] < 0x80
    ensures NoSpace(w)
  {
    if w != [] {
      PlainWord(w[1..]);
    }
  }

  // ---- padding ----

  /** Spaces, tabs and line ends of ASCII. */
  predicate Padding(s: seq<byte>) {
    forall i :: 0 <= i < |s| ==> SpaceByte(s[i])
  }

  /** Visible ASCII at both ends. */
  predicate Bounded(s: seq<byte>) {
    s != [] && 0x21 <= s[0] < 0x80 && 0x21 <= s[|s| - 1] < 0x80
  }

  lemma {:induction false} TrimStartPadded(pad: seq<byte>, s: seq<byte>)
    requires Padding(pad) && s != [] && 0x21 <= s[0] < 0x80
    ensures TrimStart(pad + s) == s
  {
    if pad == [] {
      assert pad + s == s;
    } else {
      assert (pad + s)[1..] == pad[1..] + s;
      TrimStartPadded(pad[1..], s);
    }
  }

  lemma DropLast(s: seq<byte>, c: byte)
    requires Padding([c])
    ensures TrimEnd(s + [c]) == TrimEnd(s)
  {
    var all := s + [c];
    assert SpaceByte([c][0]);
    assert all[..|all| - 1] == s;
  }

  lemma VisibleEnd(s: seq<byte>)
    requires Bounded(s)
    ensures TrimEnd(s) == s
  {
  }

  lemma {:induction false} TrimEndPadded(s: seq<byte>, pad: seq<byte>)
    requires Padding(pad) && Bounded(s)
    ensures TrimEnd(s + pad) == s
    decreases |pad|
  {
    if pad == [] {
      assert s + pad == s;
      VisibleEnd(s);
    } else {
      var most, c := pad[..|pad| - 1], pad[|pad| - 1];
      assert Padding(most) && Padding([c]);
      TrimEndPadded(s, most);
      DropLast(s + most, c);
      assert s + pad == (s + most) + [c];
    }
  }

  lemma TrimPadded(before: seq<byte>, s: seq<byte>, after: seq<byte>)
    requires Padding(before) && Padding(after) && Bounded(s)
    ensures Trim(before + s + after) == s
  {
    assert before + s + after == before + (s + after);
    TrimStartPadded(before, s + after);
    TrimEndPadded(s, after);
  }
}

/** Decimal integers, as `Display` writes them and `FromStr` for `uN` reads them. */
module Decimal {
  import opened Wrappers
  import opened Bytes

  function Print(n: nat): seq<byte> {
    if n < 10 then [0x30 + n] else Print(n / 10) + [0x30 + n % 10]
  }

  predicate IsDigit(c: byte) {
    0x30 <= c <= 0x39
  }

  predicate AllDigits(s: seq<byte>) {
    forall i :: 0 <= i < |s| ==> IsDigit(s[i])
  }

  function Value(s: seq<byte>): nat
    requires AllDigits(s)
  {
    if s == [] then 0 else 10 * Value(s[..|s| - 1]) + (s[|s| - 1] - 0x30)
  }

  /** One leading `+` is allowed, leading zeros are allowed, overflow is an error. */
  function Parse(s: seq<byte>, bound: nat): (r: Option<nat>)
    ensures r.Some? ==> r.value < bound
  {
    var digits := if s != [] && s[0] == 0x2B then s[1..] else s;
    if digits == [] || !AllDigits(digits) then None
    else
      var n := Value(digits);
      if n < bound then Some(n) else None
  }

  lemma {:induction false} PrintShape(n: nat)
    ensures |Print(n)| >= 1 && AllDigits(Print(n)) && Value(Print(n)) == n
  {
    if n >= 10 {
      PrintShape(n / 10);
      var s := Print(n);
      assert s[..|s| - 1] == Print(n / 10);
    }
  }

  /** Every number in range is read back from its own decimal form. */
  lemma RoundTrip(n: nat, bound: nat)
    ensures Parse(Print(n), bound) == if n < bound then Some(n) else None
  {
    PrintShape(n);
  }

  lemma PrintInjective(a: nat, b: nat)
    requires Print(a) == Print(b)
    ensures a == b
  {
    PrintShape(a);
    PrintShape(b);
  }

  lemma PrintSeparatorFree(n: nat)
    ensures SeparatorFree(Print(n)) && forall i :: 0 <= i < |Print(n)| ==> Print(n)[i] < 0x80
  {
    PrintShape(n);
  }

  function Power10(k: nat): nat {
    if k == 0 then 1 else 10 * Power10(k - 1)
  }

  lemma {:induction false} PrintLength(n: nat, k: nat)
    requires k >= 1 && n < Power10(k)
    ensures |Print(n)| <= k
  {
    if n >= 10 {
      PrintLength(n / 10, k - 1);
    }
  }

  lemma NumberLengths(port: u16, time: u64)
    ensures |Print(port)| <= 5 && |Print(time)| <= 20
  {
    assert Power10(5) == 1_00000;
    PrintLength(port, 5);
    assert Power10(20) == 1_00000_00000_00000_00000;
    PrintLength(time, 20);
  }

  /** Reading is not injective, which is why a record is re-encoded and compared. */
  lemma ParseIsNotCanonical()
    ensures Parse([0x37], 100) == Parse([0x2B, 0x37], 100) == Parse([0x30, 0x37], 100) == Some(7)
  {
    assert Value([0x37]) == 7;
    assert Value([0x30]) == 0;
    assert [0x30, 0x37][..1] == [0x30];
    assert [0x2B, 0x37][1..] == [0x37];
  }

  function Zeros(k: nat): seq<byte> {
    seq(k, _ => 0x30)
  }

  lemma {:induction false} DigitsAreZerosAndPrint(s: seq<byte>) returns (k: nat)
    requires s != [] && AllDigits(s)
    ensures s == Zeros(k) + Print(Value(s))
  {
    var init, last := s[..|s| - 1], s[|s| - 1];
    assert s == init + [last];
    if init == [] || Value(init) == 0 {
      k := |init|;
      if init != [] {
        ZeroIsZeros(init);
      }
      assert init == Zeros(k);
    } else {
      k := DigitsAreZerosAndPrint(init);
      assert Value(s) / 10 == Value(init) && Value(s) % 10 == last - 0x30;
      assert Print(Value(s)) == Print(Value(init)) + [last];
    }
  }

  lemma {:induction false} ZeroIsZeros(s: seq<byte>)
    requires AllDigits(s) && Value(s) == 0
    ensures s == Zeros(|s|)
  {
    if s != [] {
      ZeroIsZeros(s[..|s| - 1]);
    }
  }

  lemma {:induction false} ZerosValue(k: nat, s: seq<byte>)
    requires AllDigits(s)
    ensures AllDigits(Zeros(k) + s) && Value(Zeros(k) + s) == Value(s)
  {
    if s == [] {
      assert Zeros(k) + s == Zeros(k);
      if k > 0 {
        assert Zeros(k)[..k - 1] == Zeros(k - 1);
        ZerosValue(k - 1, []);
        assert Zeros(k - 1) + [] == Zeros(k - 1);
      }
    } else {
      var init := s[..|s| - 1];
      ZerosValue(k, init);
      assert (Zeros(k) + s)[..k + |s| - 1] == Zeros(k) + init;
    }
  }

  /** What is read as a number: its decimal form, behind any zeros and at most one plus sign. */
  lemma ParseIff(s: seq<byte>, bound: nat, n: nat)
    ensures Parse(s, bound) == Some(n)
       <==> n < bound && exists k :: s == Zeros(k) + Print(n) || s == [0x2B] + (Zeros(k) + Print(n))
  {
    if Parse(s, bound) == Some(n) {
      var digits := if s != [] && s[0] == 0x2B then s[1..] else s;
      var k := DigitsAreZerosAndPrint(digits);
      assert s[0] == 0x2B ==> s == [0x2B] + digits;
    }
    forall k | s == Zeros(k) + Print(n) || s == [0x2B] + (Zeros(k) + Print(n))
      ensures Parse(s, bound) == if n < bound then Some(n) else None
    {
      PrintShape(n);
      ZerosValue(k, Print(n));
      var digits := Zeros(k) + Print(n);
      assert digits[0] != 0x2B;
      assert s == digits || s[1..] == digits;
    }
  }
}

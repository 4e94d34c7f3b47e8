/**
  Bytes, machine integers and keys; and separated field lists, such as the
  `|`-separated ones that both signed encodings are written in.

  A Rust `String` is modelled by its UTF-8 bytes (see module Utf8), so every
  length is a byte length, as it is in the program.
 */
module Bytes {

  type byte = b: int | 0 <= b < 0x100
  type u16 = n: int | 0 <= n < 0x1_0000
  type u64 = n: int | 0 <= n < 0x1_0000_0000_0000_0000

  const KEY_LEN := 32
  const SIG_LEN := 64

  /** An Ed25519 public key in its 32 raw bytes, by which a peer is known. */
  type PeerId = k: seq<byte> | |k| == KEY_LEN witness seq(KEY_LEN, _ => 0)

  /** The bytes of an ASCII literal. */
  function Ascii(s: string): seq<byte>
    requires forall i :: 0 <= i < |s| ==> s[i] as int < 0x80
  {
    seq(|s|, i requires 0 <= i < |s| => s[i] as int)
  }

  /** ASCII and nothing else. */
  predicate Plain(s: seq<byte>) {
    forall i :: 0 <= i < |s| ==> s[i] < 0x80
  }

  const SEPARATOR: byte := 0x7C  // '|'

  predicate SeparatorFree(s: seq<byte>, sep: byte := SEPARATOR) {
    forall i :: 0 <= i < |s| ==> s[i] != sep
  }

  predicate AllSeparatorFree(parts: seq<seq<byte>>, sep: byte := SEPARATOR) {
    forall i :: 0 <= i < |parts| ==> SeparatorFree(parts[i], sep)
  }

  /** `str::split` at a character: always at least one part. */
  function Split(s: seq<byte>, sep: byte := SEPARATOR): (parts: seq<seq<byte>>)
    ensures |parts| >= 1 && AllSeparatorFree(parts, sep)
  {
    if s == [] then [[]]
    else
      var rest := Split(s[1..], sep);
      if s[0] == sep then [[]] + rest else [[s[0]] + rest[0]] + rest[1..]
  }

  /** What `format!("{}|{}|...")` writes for the given fields. */
  function Join(parts: seq<seq<byte>>, sep: byte := SEPARATOR): seq<byte>
    requires |parts| >= 1
  {
    if |parts| == 1 then parts[0] else parts[0] + [sep] + Join(parts[1..], sep)
  }

  lemma JoinCons(field: seq<byte>, rest: seq<seq<byte>>, sep: byte := SEPARATOR)
    requires rest != []
    ensures Join([field] + rest, sep) == field + ([sep] + Join(rest, sep))
  {
    assert ([field] + rest)[1..] == rest;
  }

  lemma {:induction false} JoinSplit(s: seq<byte>, sep: byte := SEPARATOR)
    ensures Join(Split(s, sep), sep) == s
  {
    if s != [] {
      JoinSplit(s[1..], sep);
      var rest := Split(s[1..], sep);
      if s[0] == sep {
        assert ([[]] + rest)[1..] == rest;
      } else {
        var parts := [[s[0]] + rest[0]] + rest[1..];
        assert parts[1..] == rest[1..];
        assert s == [s[0]] + s[1..];
      }
    }
  }

  lemma {:induction false} SplitSeparatorFree(s: seq<byte>, sep: byte := SEPARATOR)
    requires SeparatorFree(s, sep)
    ensures Split(s, sep) == [s]
  {
    if s != [] {
      SplitSeparatorFree(s[1..], sep);
      assert s == [s[0]] + s[1..];
    }
  }

  /** A field without separators in front of anything is split off again, whole. */
  lemma {:induction false} SplitPrefix(field: seq<byte>, rest: seq<byte>, sep: byte := SEPARATOR)
    requires SeparatorFree(field, sep)
    ensures Split(field + [sep] + rest, sep) == [field] + Split(rest, sep)
  {
    var s := field + [sep] + rest;
    if field == [] {
      assert s[1..] == rest;
    } else {
      assert s[1..] == field[1..] + [sep] + rest;
      SplitPrefix(field[1..], rest, sep);
      assert field == [field[0]] + field[1..];
      assert [field[1..]] + Split(rest, sep) == Split(s[1..], sep);
      assert ([field[1..]] + Split(rest, sep))[1..] == Split(rest, sep);
    }
  }

  lemma {:induction false} SplitJoin(parts: seq<seq<byte>>, sep: byte := SEPARATOR)
    requires |parts| >= 1 && AllSeparatorFree(parts, sep)
    ensures Split(Join(parts, sep), sep) == parts
  {
    if |parts| == 1 {
      SplitSeparatorFree(parts[0], sep);
    } else {
      SplitJoin(parts[1..], sep);
      SplitPrefix(parts[0], Join(parts[1..], sep), sep);
    }
  }

  /** Separator-free fields can be read back from what was written, so no two lists collide. */
  lemma JoinInjective(a: seq<seq<byte>>, b: seq<seq<byte>>, sep: byte := SEPARATOR)
    requires |a| >= 1 && |b| >= 1 && AllSeparatorFree(a, sep) && AllSeparatorFree(b, sep)
    requires Join(a, sep) == Join(b, sep)
    ensures a == b
  {
    SplitJoin(a, sep);
    SplitJoin(b, sep);
  }

  /** Total length of the fields, without the separators between them. */
  function TotalLength(parts: seq<seq<byte>>): nat {
    if parts == [] then 0 else |parts[0]| + TotalLength(parts[1..])
  }

  lemma {:induction false} JoinLength(parts: seq<seq<byte>>)
    requires |parts| >= 1
    ensures |Join(parts)| == TotalLength(parts) + |parts| - 1
  {
    if |parts| > 1 {
      JoinLength(parts[1..]);
    }
  }

  /** ASCII lower-casing of one byte; bytes of multi-byte characters are left alone. */
  function LowerByte(c: byte): byte {
    if 0x41 <= c <= 0x5A then c + 0x20 else c
  }

  function Lower(s: seq<byte>): seq<byte> {
    seq(|s|, i requires 0 <= i < |s| => LowerByte(s[i]))
  }

  lemma LowerKeeps(s: seq<byte>)
    requires forall i :: 0 <= i < |s| ==> !(0x41 <= s[i] <= 0x5A)
    ensures Lower(s) == s
  {
  }

  /** Lexicographic order on bytes: Rust's `Ord` on `String` and on `[u8; 32]`. */
  predicate LexLe(a: seq<byte>, b: seq<byte>) {
    a == [] || (b != [] && (a[0] < b[0] || (a[0] == b[0] && LexLe(a[1..], b[1..]))))
  }

  lemma {:induction false} LexTotal(a: seq<byte>, b: seq<byte>)
    ensures LexLe(a, b) || LexLe(b, a)
  {
    if a != [] && b != [] {
      LexTotal(a[1..], b[1..]);
    }
  }

  lemma {:induction false} LexAntisymmetric(a: seq<byte>, b: seq<byte>)
    requires LexLe(a, b) && LexLe(b, a)
    ensures a == b
  {
    if a != [] {
      LexAntisymmetric(a[1..], b[1..]);
      assert a == [a[0]] + a[1..] && b == [b[0]] + b[1..];
    }
  }

  lemma {:induction false} LexTransitive(a: seq<byte>, b: seq<byte>, c: seq<byte>)
    requires LexLe(a, b) && LexLe(b, c)
    ensures LexLe(a, c)
  {
    if a != [] && a[0] == b[0] == c[0] {
      LexTransitive(a[1..], b[1..], c[1..]);
    }
  }

  /** The texts agree before place `k`, and there the first has the smaller byte. */
  predicate LessAt(a: seq<byte>, b: seq<byte>, k: nat) {
    k < |a| && k < |b| && a[..k] == b[..k] && a[k] < b[k]
  }

  lemma LessAtCons(c: byte, a: seq<byte>, b: seq<byte>, k: nat)
    ensures LessAt([c] + a, [c] + b, k + 1) <==> LessAt(a, b, k)
  {
    if k < |a| && k < |b| {
      var p, q := ([c] + a)[..k + 1], ([c] + b)[..k + 1];
      assert p == [c] + a[..k] && q == [c] + b[..k];
      assert p[1..] == a[..k] && q[1..] == b[..k];
    }
  }

  lemma LessAtLater(a: seq<byte>, b: seq<byte>, k: nat)
    requires k > 0 && LessAt(a, b, k)
    ensures a[0] == b[0]
  {
    assert a[..k][0] == a[0] && b[..k][0] == b[0];
  }

  /** What the order is: a prefix comes first, and else the first byte that differs decides. */
  lemma {:induction false} LexLeIff(a: seq<byte>, b: seq<byte>)
    ensures LexLe(a, b) <==> a <= b || exists k: nat :: LessAt(a, b, k)
  {
    if a != [] && b != [] && a[0] == b[0] {
      var c, p, q := a[0], a[1..], b[1..];
      LexLeIff(p, q);
      assert a == [c] + p && b == [c] + q;
      assert a <= b <==> p <= q;
      if k: nat :| LessAt(p, q, k) {
        LessAtCons(c, p, q, k);
      }
      if k: nat :| LessAt(a, b, k) {
        LessAtCons(c, p, q, k - 1);
      }
    } else if a != [] && b != [] {
      assert a[..0] == b[..0];
      assert a[0] < b[0] <==> LessAt(a, b, 0);
      if k: nat :| k > 0 && LessAt(a, b, k) {
        LessAtLater(a, b, k);
      }
    }
  }
}

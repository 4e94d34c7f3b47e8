/** Filtering and stable sorting, and why a sorted list does not depend on the order of its input. */
module Sorting {

  function Filter<T(!new)>(keep: T -> bool, s: seq<T>): (kept: seq<T>)
    ensures forall x :: x in kept <==> x in s && keep(x)
  {
    if s == [] then [] else (if keep(s[0]) then [s[0]] else []) + Filter(keep, s[1..])
  }

  lemma {:induction false} FilterNone<T(!new)>(keep: T -> bool, s: seq<T>)
    requires forall i :: 0 <= i < |s| ==> !keep(s[i])
    ensures Filter(keep, s) == []
  {
    if s != [] {
      FilterNone(keep, s[1..]);
    }
  }

  lemma {:induction false} FilterNoRepeats<T(!new)>(keep: T -> bool, s: seq<T>)
    requires NoRepeats(s)
    ensures NoRepeats(Filter(keep, s))
  {
    if s != [] {
      FilterNoRepeats(keep, s[1..]);
      assert forall i :: 0 <= i < |Filter(keep, s[1..])| ==> Filter(keep, s[1..])[i] in s[1..];
    }
  }

  function Insert<T>(le: (T, T) -> bool, x: T, s: seq<T>): seq<T> {
    if s == [] then [x]
    else if le(x, s[0]) then [x] + s
    else [s[0]] + Insert(le, x, s[1..])
  }

  /** `slice::sort_by`: an element stays in front of the equal ones that followed it. */
  function Sort<T>(le: (T, T) -> bool, s: seq<T>): seq<T> {
    if s == [] then [] else Insert(le, s[0], Sort(le, s[1..]))
  }

  ghost predicate TotalOrder<T(!new)>(le: (T, T) -> bool) {
    && (forall x, y :: le(x, y) || le(y, x))
    && (forall x, y, z :: le(x, y) && le(y, z) ==> le(x, z))
  }

  ghost predicate Sorted<T>(le: (T, T) -> bool, s: seq<T>) {
    forall i, j :: 0 <= i < j < |s| ==> le(s[i], s[j])
  }

  lemma {:induction false} InsertPermutes<T>(le: (T, T) -> bool, x: T, s: seq<T>)
    ensures multiset(Insert(le, x, s)) == multiset(s) + multiset{x}
  {
    if s != [] && !le(x, s[0]) {
      InsertPermutes(le, x, s[1..]);
      assert s == [s[0]] + s[1..];
    }
  }

  lemma {:induction false} SortPermutes<T>(le: (T, T) -> bool, s: seq<T>)
    ensures multiset(Sort(le, s)) == multiset(s)
    ensures |Sort(le, s)| == |s|
  {
    if s != [] {
      SortPermutes(le, s[1..]);
      InsertPermutes(le, s[0], Sort(le, s[1..]));
      assert s == [s[0]] + s[1..];
    }
    assert |multiset(Sort(le, s))| == |multiset(s)|;
  }

  lemma {:induction false} InsertSorted<T(!new)>(le: (T, T) -> bool, x: T, s: seq<T>)
    requires TotalOrder(le) && Sorted(le, s)
    ensures Sorted(le, Insert(le, x, s))
  {
    if s != [] && !le(x, s[0]) {
      InsertSorted(le, x, s[1..]);
      InsertPermutes(le, x, s[1..]);
      var r := Insert(le, x, s[1..]);
      forall j | 0 <= j < |r| ensures le(s[0], r[j]) {
        assert r[j] in multiset(r);
        assert r[j] in multiset(s[1..]) + multiset{x};
        assert r[j] == x || r[j] in s[1..];
      }
    }
  }

  lemma {:induction false} SortSorted<T(!new)>(le: (T, T) -> bool, s: seq<T>)
    requires TotalOrder(le)
    ensures Sorted(le, Sort(le, s))
  {
    if s != [] {
      SortSorted(le, s[1..]);
      InsertSorted(le, s[0], Sort(le, s[1..]));
    }
  }

  lemma FilterCons<T(!new)>(keep: T -> bool, x: T, s: seq<T>)
    ensures Filter(keep, [x] + s) == if keep(x) then [x] + Filter(keep, s) else Filter(keep, s)
  {
    assert ([x] + s)[1..] == s;
    assert [] + Filter(keep, s) == Filter(keep, s);
  }

  lemma InsertCons<T>(le: (T, T) -> bool, x: T, y: T, s: seq<T>)
    ensures Insert(le, x, [y] + s) == if le(x, y) then [x] + ([y] + s) else [y] + Insert(le, x, s)
  {
    assert ([y] + s)[1..] == s;
  }

  lemma SortCons<T>(le: (T, T) -> bool, x: T, s: seq<T>)
    ensures Sort(le, [x] + s) == Insert(le, x, Sort(le, s))
  {
    assert ([x] + s)[1..] == s;
  }

  lemma InsertFirst<T(!new)>(le: (T, T) -> bool, x: T, s: seq<T>)
    requires forall y :: y in s ==> le(x, y)
    ensures Insert(le, x, s) == [x] + s
  {
    if s != [] {
      assert s[0] in s;
    }
  }

  lemma BeforeAll<T(!new)>(le: (T, T) -> bool, x: T, s: seq<T>)
    requires TotalOrder(le) && Sorted(le, s) && s != [] && le(x, s[0])
    ensures forall y :: y in s ==> le(x, y)
  {
    forall y | y in s ensures le(x, y) {
      var i :| 0 <= i < |s| && s[i] == y;
      assert i > 0 ==> le(s[0], s[i]);
    }
  }

  lemma FilterOne<T(!new)>(keep: T -> bool, x: T)
    ensures Filter(keep, [x]) == if keep(x) then [x] else []
  {
    assert [x][1..] == [];
  }

  function KeptIf<T>(keep: T -> bool, x: T): seq<T> {
    if keep(x) then [x] else []
  }

  lemma {:induction false} FilterSnoc<T(!new)>(keep: T -> bool, s: seq<T>, x: T)
    ensures Filter(keep, s + [x]) == Filter(keep, s) + KeptIf(keep, x)
  {
    if s == [] {
      assert s + [x] == [x];
      FilterOne(keep, x);
    } else {
      var y, rest := s[0], s[1..];
      FilterSnoc(keep, rest, x);
      assert s + [x] == [y] + (rest + [x]) && s == [y] + rest;
      FilterConsAlike(keep, y, rest + [x], rest, KeptIf(keep, x));
    }
  }

  lemma FilterConsAlike<T(!new)>(keep: T -> bool, y: T, a: seq<T>, b: seq<T>, more: seq<T>)
    requires Filter(keep, a) == Filter(keep, b) + more
    ensures Filter(keep, [y] + a) == Filter(keep, [y] + b) + more
  {
    FilterCons(keep, y, a);
    FilterCons(keep, y, b);
    Regroup([y], Filter(keep, b), more);
  }

  lemma Regroup<T>(a: seq<T>, b: seq<T>, c: seq<T>)
    ensures a + (b + c) == (a + b) + c
  {
  }

  /** Inserting and then filtering is filtering and then inserting what passes. */
  lemma {:induction false} FilterInsert<T(!new)>(le: (T, T) -> bool, keep: T -> bool, x: T, s: seq<T>)
    requires TotalOrder(le) && Sorted(le, s)
    ensures Filter(keep, Insert(le, x, s))
         == if keep(x) then Insert(le, x, Filter(keep, s)) else Filter(keep, s)
  {
    if s != [] && le(x, s[0]) {
      BeforeAll(le, x, s);
      FilterCons(keep, x, s);
      InsertFirst(le, x, Filter(keep, s));
    } else if s != [] {
      FilterInsert(le, keep, x, s[1..]);
      FilterInsertLater(le, keep, x, s[0], s[1..]);
      assert s == [s[0]] + s[1..];
    }
  }

  lemma FilterInsertLater<T(!new)>(le: (T, T) -> bool, keep: T -> bool, x: T, y: T, s: seq<T>)
    requires !le(x, y)
    requires Filter(keep, Insert(le, x, s)) == if keep(x) then Insert(le, x, Filter(keep, s)) else Filter(keep, s)
    ensures Filter(keep, Insert(le, x, [y] + s))
         == if keep(x) then Insert(le, x, Filter(keep, [y] + s)) else Filter(keep, [y] + s)
  {
    InsertCons(le, x, y, s);
    FilterCons(keep, y, Insert(le, x, s));
    FilterCons(keep, y, s);
    InsertCons(le, x, y, Filter(keep, s));
  }

  lemma {:induction false} FilterSort<T(!new)>(le: (T, T) -> bool, keep: T -> bool, s: seq<T>)
    requires TotalOrder(le)
    ensures Filter(keep, Sort(le, s)) == Sort(le, Filter(keep, s))
  {
    if s != [] {
      FilterSort(le, keep, s[1..]);
      SortSorted(le, s[1..]);
      FilterInsert(le, keep, s[0], Sort(le, s[1..]));
      FilterSortCons(le, keep, s[0], s[1..]);
      assert s == [s[0]] + s[1..];
    }
  }

  lemma FilterSortCons<T(!new)>(le: (T, T) -> bool, keep: T -> bool, x: T, s: seq<T>)
    requires Filter(keep, Sort(le, s)) == Sort(le, Filter(keep, s))
    requires Filter(keep, Insert(le, x, Sort(le, s)))
          == if keep(x) then Insert(le, x, Filter(keep, Sort(le, s))) else Filter(keep, Sort(le, s))
    ensures Filter(keep, Sort(le, [x] + s)) == Sort(le, Filter(keep, [x] + s))
  {
    SortCons(le, x, s);
    FilterCons(keep, x, s);
    SortCons(le, x, Filter(keep, s));
  }

  function Map<A, B>(f: A -> B, s: seq<A>): seq<B> {
    seq(|s|, i requires 0 <= i < |s| => f(s[i]))
  }

  lemma MapCons<A, B>(f: A -> B, x: A, s: seq<A>)
    ensures Map(f, [x] + s) == [f(x)] + Map(f, s)
  {
  }

  lemma MapSnoc<A, B>(f: A -> B, s: seq<A>, x: A)
    ensures Map(f, s + [x]) == Map(f, s) + [f(x)]
  {
  }

  lemma {:induction false} MapInsert<A(!new), B>(f: A -> B, le: (A, A) -> bool, leB: (B, B) -> bool, x: A, s: seq<A>)
    requires forall a, b :: le(a, b) <==> leB(f(a), f(b))
    ensures Insert(leB, f(x), Map(f, s)) == Map(f, Insert(le, x, s))
  {
    if s != [] {
      var y, rest := s[0], s[1..];
      assert s == [y] + rest;
      MapCons(f, y, rest);
      InsertCons(leB, f(x), f(y), Map(f, rest));
      if le(x, y) {
        MapCons(f, x, s);
      } else {
        MapInsert(f, le, leB, x, rest);
        MapCons(f, y, Insert(le, x, rest));
      }
    }
  }

  /** Sorting by a key commutes with keeping only what the key is read from. */
  lemma {:induction false} MapSort<A(!new), B>(f: A -> B, le: (A, A) -> bool, leB: (B, B) -> bool, s: seq<A>)
    requires forall a, b :: le(a, b) <==> leB(f(a), f(b))
    ensures Sort(leB, Map(f, s)) == Map(f, Sort(le, s))
  {
    if s != [] {
      assert Map(f, s)[1..] == Map(f, s[1..]);
      MapSort(f, le, leB, s[1..]);
      MapInsert(f, le, leB, s[0], Sort(le, s[1..]));
    }
  }

  /** Earlier under `le`, and where `le` ties the two, under `before`. */
  function Ties<T>(le: (T, T) -> bool, before: (T, T) -> bool): (T, T) -> bool {
    (x, y) => le(x, y) && (le(y, x) ==> before(x, y))
  }

  lemma {:induction false} InsertStable<T(!new)>(le: (T, T) -> bool, before: (T, T) -> bool, x: T, s: seq<T>)
    requires TotalOrder(le) && Sorted(le, s) && Sorted(Ties(le, before), s)
    requires forall y :: y in s ==> before(x, y)
    ensures Sorted(Ties(le, before), Insert(le, x, s))
  {
    if s != [] && le(x, s[0]) {
      BeforeAll(le, x, s);
    } else if s != [] {
      var rest := s[1..];
      InsertStable(le, before, x, rest);
      InsertPermutes(le, x, rest);
      var r := Insert(le, x, rest);
      forall j | 0 <= j < |r| ensures Ties(le, before)(s[0], r[j]) {
        assert r[j] in multiset(r);
        assert r[j] == x || r[j] in rest;
      }
    }
  }

  /** Sorting keeps the order of what it ties. */
  lemma {:induction false} SortStable<T(!new)>(le: (T, T) -> bool, before: (T, T) -> bool, s: seq<T>)
    requires TotalOrder(le) && Sorted(before, s)
    ensures Sorted(Ties(le, before), Sort(le, s))
  {
    if s != [] {
      var rest := s[1..];
      SortStable(le, before, rest);
      SortSorted(le, rest);
      SortPermutes(le, rest);
      forall y | y in Sort(le, rest) ensures before(s[0], y) {
        SameElements(Sort(le, rest), rest, y);
        var i :| 0 <= i < |rest| && rest[i] == y;
        assert s[i + 1] == y;
      }
      InsertStable(le, before, s[0], Sort(le, rest));
    }
  }

  lemma SortedConcat<T>(le: (T, T) -> bool, a: seq<T>, b: seq<T>)
    requires Sorted(le, a) && Sorted(le, b) && forall x, y :: x in a && y in b ==> le(x, y)
    ensures Sorted(le, a + b)
  {
  }

  /** On these elements the order never ties two different ones. */
  ghost predicate Antisymmetric<T>(le: (T, T) -> bool, s: seq<T>) {
    forall i, j :: 0 <= i < |s| && 0 <= j < |s| && le(s[i], s[j]) && le(s[j], s[i]) ==> s[i] == s[j]
  }

  lemma SameElements<T>(a: seq<T>, b: seq<T>, x: T)
    requires multiset(a) == multiset(b)
    ensures x in a <==> x in b
  {
    assert x in a <==> x in multiset(a);
    assert x in b <==> x in multiset(b);
  }

  lemma SameHead<T>(le: (T, T) -> bool, a: seq<T>, b: seq<T>)
    requires Antisymmetric(le, a) && Sorted(le, a) && Sorted(le, b)
    requires multiset(a) == multiset(b) && a != [] && b != []
    ensures a[0] == b[0]
  {
    SameElements(a, b, a[0]);
    SameElements(a, b, b[0]);
    var i :| 0 <= i < |b| && b[i] == a[0];
    var j :| 0 <= j < |a| && a[j] == b[0];
    assert j > 0 ==> le(a[0], a[j]);
    assert i > 0 ==> le(b[0], b[i]);
  }

  /** Sorted arrangements of the same elements are the same sequence. */
  lemma {:induction false} SortedUnique<T>(le: (T, T) -> bool, a: seq<T>, b: seq<T>)
    requires Antisymmetric(le, a) && Sorted(le, a) && Sorted(le, b)
    requires multiset(a) == multiset(b)
    ensures a == b
  {
    assert |multiset(a)| == |a| && |multiset(b)| == |b|;
    if a != [] {
      SameHead(le, a, b);
      HeadCounts(a);
      HeadCounts(b);
      Cancel(multiset{a[0]}, multiset(a[1..]), multiset(b[1..]));
      SortedUnique(le, a[1..], b[1..]);
    }
  }

  // ---- elements with their counts ----

  lemma HeadCounts<T>(s: seq<T>)
    requires s != []
    ensures multiset(s) == multiset{s[0]} + multiset(s[1..])
  {
    assert s == [s[0]] + s[1..];
  }

  lemma Cancel<T>(one: multiset<T>, a: multiset<T>, b: multiset<T>)
    requires one + a == one + b
    ensures a == b
  {
    forall x: T ensures a[x] == b[x] {
      assert (one + a)[x] == (one + b)[x];
    }
  }

  // ---- lists without repetition ----

  ghost predicate NoRepeats<T>(s: seq<T>) {
    forall i, j :: 0 <= i < j < |s| ==> s[i] != s[j]
  }

  lemma {:induction false} CountsOfNoRepeats<T>(s: seq<T>, x: T)
    requires NoRepeats(s)
    ensures multiset(s)[x] == if x in s then 1 else 0
  {
    if s != [] {
      CountsOfNoRepeats(s[1..], x);
      assert s == [s[0]] + s[1..];
    }
  }

  lemma RepeatCounts<T>(s: seq<T>, i: nat, j: nat)
    requires i < j < |s| && s[i] == s[j]
    ensures multiset(s)[s[i]] >= 2
  {
    assert s == s[..j] + [s[j]] + s[j + 1..];
    assert s[i] in s[..j] && multiset(s[..j])[s[i]] >= 1;
  }

  lemma PermutationNoRepeats<T>(a: seq<T>, b: seq<T>)
    requires NoRepeats(a) && multiset(a) == multiset(b)
    ensures NoRepeats(b)
  {
    forall i, j | 0 <= i < j < |b| ensures b[i] != b[j] {
      if b[i] == b[j] {
        RepeatCounts(b, i, j);
        CountsOfNoRepeats(a, b[i]);
      }
    }
  }

  lemma SameSetPermutes<T>(a: seq<T>, b: seq<T>)
    requires NoRepeats(a) && NoRepeats(b) && forall x :: x in a <==> x in b
    ensures multiset(a) == multiset(b)
  {
    forall x: T ensures multiset(a)[x] == multiset(b)[x] {
      CountsOfNoRepeats(a, x);
      CountsOfNoRepeats(b, x);
    }
  }
}

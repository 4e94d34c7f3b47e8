/** Words that commute, and why their concatenation does not depend on their order. */
module Words {
  import opened Sorting

  /** A word with the name it comes from. */
  datatype Named<K, T> = Named(name: K, word: seq<T>)

  function Forward<K, T>(ws: seq<Named<K, T>>): seq<T> {
    if ws == [] then [] else ws[0].word + Forward(ws[1..])
  }

  /** The last word first. */
  function Backward<K, T>(ws: seq<Named<K, T>>): seq<T> {
    if ws == [] then [] else Backward(ws[1..]) + ws[0].word
  }

  predicate Commute<T(==)>(u: seq<T>, v: seq<T>) {
    u + v == v + u
  }

  ghost predicate AllCommute<K, T>(ws: seq<Named<K, T>>) {
    forall x, y :: x in ws && y in ws ==> Commute(x.word, y.word)
  }

  lemma {:induction false} ForwardConcat<K, T>(a: seq<Named<K, T>>, b: seq<Named<K, T>>)
    ensures Forward(a + b) == Forward(a) + Forward(b)
  {
    if a == [] {
      assert a + b == b;
    } else {
      ForwardConcat(a[1..], b);
      assert (a + b)[1..] == a[1..] + b;
      Regroup(a[0].word, Forward(a[1..]), Forward(b));
    }
  }

  lemma Regroup<T>(a: seq<T>, b: seq<T>, c: seq<T>)
    ensures (a + b) + c == a + (b + c)
  {
  }

  lemma {:induction false} CommutesWithAll<K, T>(w: seq<T>, ws: seq<Named<K, T>>)
    requires forall x :: x in ws ==> Commute(w, x.word)
    ensures Commute(w, Forward(ws))
  {
    if ws != [] {
      var u, rest := ws[0].word, Forward(ws[1..]);
      CommutesWithAll(w, ws[1..]);
      assert ws[0] in ws;
      Regroup(w, u, rest);
      Regroup(u, w, rest);
      Regroup(u, rest, w);
    }
  }

  /** Words that commute can be put together backward as well. */
  lemma {:induction false} BackwardIsForward<K, T>(ws: seq<Named<K, T>>)
    requires AllCommute(ws)
    ensures Backward(ws) == Forward(ws)
  {
    if ws != [] {
      assert forall x :: x in ws[1..] ==> x in ws;
      BackwardIsForward(ws[1..]);
      assert ws[0] in ws;
      CommutesWithAll(ws[0].word, ws[1..]);
    }
  }

  /** They can be put together in any order. */
  lemma {:induction false} ForwardPermutes<K, T>(a: seq<Named<K, T>>, b: seq<Named<K, T>>)
    requires AllCommute(a) && multiset(a) == multiset(b)
    ensures Forward(a) == Forward(b)
    decreases |a|
  {
    assert |multiset(a)| == |a| && |multiset(b)| == |b|;
    if a != [] {
      var first, rest := a[0], a[1..];
      var x, y := SplitAt(b, first, a);
      assert forall e :: e in rest ==> e in a;
      assert AllCommute(rest);
      HeadCounts(a);
      Cancel(multiset{first}, multiset(rest), multiset(x + y));
      ForwardPermutes(rest, x + y);
      PulledOut(first, x, y, a, b);
    }
  }

  lemma SplitAt<T>(b: seq<T>, e: T, a: seq<T>) returns (x: seq<T>, y: seq<T>)
    requires multiset(a) == multiset(b) && e in a
    ensures b == x + [e] + y && multiset(b) == multiset{e} + multiset(x + y)
  {
    SameElements(a, b, e);
    var i :| 0 <= i < |b| && b[i] == e;
    x, y := b[..i], b[i + 1..];
    assert b == x + [e] + y;
  }

  lemma PulledOut<K, T>(first: Named<K, T>, x: seq<Named<K, T>>, y: seq<Named<K, T>>,
                        a: seq<Named<K, T>>, b: seq<Named<K, T>>)
    requires AllCommute(a) && first in a && b == x + [first] + y && multiset(a) == multiset(b)
    ensures Forward(b) == first.word + Forward(x + y)
  {
    forall e | e in x ensures Commute(first.word, e.word) {
      assert e in b;
      SameElements(a, b, e);
    }
    CommutesWithAll(first.word, x);
    ForwardConcat(x + [first], y);
    ForwardConcat(x, [first]);
    ForwardConcat(x, y);
    assert Forward([first]) == first.word;
    Regroup(first.word, Forward(x), Forward(y));
  }
}

/**
  When the listing as a peer is sent it, paths and sizes only, depends on the order in
  which directories yield their entries (crates/intraweb-cli/src/api.rs:308-341).
 */
module SentListing {
  import opened Wrappers
  import opened Bytes
  import opened Sorting
  import opened Words
  import opened Walk
  import opened Enumeration

  // ---- a sorted listing is determined by the sizes under each path ----

  function SizeIf(path: seq<byte>, f: SharedFile): seq<nat> {
    if f.path == path then [f.size] else []
  }

  /** The sizes listed under one path, in order. */
  function Sizes(path: seq<byte>, list: seq<SharedFile>): seq<nat> {
    if list == [] then [] else SizeIf(path, list[0]) + Sizes(path, list[1..])
  }

  lemma SizesCons(path: seq<byte>, f: SharedFile, rest: seq<SharedFile>)
    ensures Sizes(path, [f] + rest) == SizeIf(path, f) + Sizes(path, rest)
  {
    assert ([f] + rest)[1..] == rest;
  }

  lemma {:induction false} SizesConcat(path: seq<byte>, a: seq<SharedFile>, b: seq<SharedFile>)
    ensures Sizes(path, a + b) == Sizes(path, a) + Sizes(path, b)
  {
    if a == [] {
      assert a + b == b;
    } else {
      var f, rest := a[0], a[1..];
      SizesConcat(path, rest, b);
      SizesCons(path, f, rest + b);
      assert a + b == [f] + (rest + b);
      Words.Regroup(SizeIf(path, f), Sizes(path, rest), Sizes(path, b));
    }
  }

  lemma ByPathIsOrder()
    ensures TotalOrder(ByPath)
  {
    forall a, b ensures ByPath(a, b) || ByPath(b, a) {
      LexTotal(a.path, b.path);
    }
    forall a, b, c | ByPath(a, b) && ByPath(b, c) ensures ByPath(a, c) {
      LexTransitive(a.path, b.path, c.path);
    }
  }

  lemma SizesSwap(path: seq<byte>, f: SharedFile, g: SharedFile, rest: seq<SharedFile>)
    requires f.path != g.path
    ensures Sizes(path, [f] + ([g] + rest)) == SizeIf(path, g) + Sizes(path, [f] + rest)
  {
    SizesCons(path, f, [g] + rest);
    SizesCons(path, g, rest);
    SizesCons(path, f, rest);
    assert SizeIf(path, f) == [] || SizeIf(path, g) == [];
  }

  lemma {:induction false} SizesOfInsert(path: seq<byte>, f: SharedFile, list: seq<SharedFile>)
    ensures Sizes(path, Insert(ByPath, f, list)) == Sizes(path, [f] + list)
  {
    if list != [] && !ByPath(f, list[0]) {
      var g, rest := list[0], list[1..];
      LexTotal(f.path, f.path);
      SizesOfInsert(path, f, rest);
      SizesCons(path, g, Insert(ByPath, f, rest));
      SizesSwap(path, f, g, rest);
      assert list == [g] + rest;
    }
  }

  /** Sorting by path moves no two files of one path past each other. */
  lemma {:induction false} SizesOfSort(path: seq<byte>, list: seq<SharedFile>)
    ensures Sizes(path, Sort(ByPath, list)) == Sizes(path, list)
  {
    if list != [] {
      SizesOfSort(path, list[1..]);
      SizesOfInsert(path, list[0], Sort(ByPath, list[1..]));
      SizesCons(path, list[0], Sort(ByPath, list[1..]));
    }
  }

  lemma {:induction false} NoSizesOtherwise(path: seq<byte>, list: seq<SharedFile>)
    ensures Sizes(path, list) != [] <==> exists f :: f in list && f.path == path
  {
    if list != [] {
      NoSizesOtherwise(path, list[1..]);
      assert list == [list[0]] + list[1..];
    }
  }

  lemma FirstIsLeast(a: seq<SharedFile>, b: seq<SharedFile>)
    requires Sorted(ByPath, a) && a != [] && b != []
    requires Sizes(b[0].path, a) != []
    ensures LexLe(a[0].path, b[0].path)
  {
    NoSizesOtherwise(b[0].path, a);
    var f :| f in a && f.path == b[0].path;
    var i :| 0 <= i < |a| && a[i] == f;
    LexTotal(a[0].path, a[0].path);
    assert i > 0 ==> ByPath(a[0], a[i]);
  }

  ghost predicate SameSizes(a: seq<SharedFile>, b: seq<SharedFile>) {
    forall path :: Sizes(path, a) == Sizes(path, b)
  }

  lemma SameFirst(a: seq<SharedFile>, b: seq<SharedFile>)
    requires Sorted(ByPath, a) && Sorted(ByPath, b) && a != [] && b != []
    requires SameSizes(a, b)
    ensures a[0] == b[0]
  {
    assert Sizes(a[0].path, a) != [] && Sizes(b[0].path, b) != [];
    FirstIsLeast(a, b);
    FirstIsLeast(b, a);
    LexAntisymmetric(a[0].path, b[0].path);
    assert Sizes(a[0].path, a)[0] == a[0].size && Sizes(b[0].path, b)[0] == b[0].size;
  }

  lemma {:induction false} SizesDetermine(a: seq<SharedFile>, b: seq<SharedFile>)
    requires Sorted(ByPath, a) && Sorted(ByPath, b) && SameSizes(a, b)
    ensures a == b
    decreases |a|
  {
    if a != [] && b != [] {
      SameFirst(a, b);
      forall path ensures Sizes(path, a[1..]) == Sizes(path, b[1..]) {
        assert Sizes(path, a) == Sizes(path, b);
        var one := SizeIf(path, a[0]);
        assert one + Sizes(path, a[1..]) == one + Sizes(path, b[1..]);
        assert (one + Sizes(path, a[1..]))[|one|..] == (one + Sizes(path, b[1..]))[|one|..];
      }
      SizesDetermine(a[1..], b[1..]);
      assert a == [a[0]] + a[1..] && b == [b[0]] + b[1..];
    } else if a != [] {
      assert Sizes(a[0].path, a) != Sizes(a[0].path, b);
    } else if b != [] {
      assert Sizes(b[0].path, a) != Sizes(b[0].path, b);
    }
  }

  lemma SortKeepsSizes(list: seq<SharedFile>)
    ensures SameSizes(Sort(ByPath, list), list)
  {
    forall path ensures Sizes(path, Sort(ByPath, list)) == Sizes(path, list) {
      SizesOfSort(path, list);
    }
  }

  lemma SameSizesTransitive(a: seq<SharedFile>, b: seq<SharedFile>, c: seq<SharedFile>)
    requires SameSizes(a, b) && SameSizes(b, c)
    ensures SameSizes(a, c)
  {
  }

  lemma SameSizesSymmetric(a: seq<SharedFile>, b: seq<SharedFile>)
    requires SameSizes(a, b)
    ensures SameSizes(b, a)
  {
  }

  /** Two listings sort to the same exactly if each path is listed with the same sizes in the same order. */
  lemma SortedAlikeIff(a: seq<SharedFile>, b: seq<SharedFile>)
    ensures Sort(ByPath, a) == Sort(ByPath, b) <==> SameSizes(a, b)
  {
    var s, t := Sort(ByPath, a), Sort(ByPath, b);
    SortKeepsSizes(a);
    SortKeepsSizes(b);
    SameSizesSymmetric(s, a);
    SameSizesSymmetric(t, b);
    if s == t {
      SameSizesTransitive(a, s, b);
    }
    if SameSizes(a, b) {
      SameSizesTransitive(s, a, b);
      SameSizesTransitive(s, b, t);
      ByPathIsOrder();
      SortSorted(ByPath, a);
      SortSorted(ByPath, b);
      SizesDetermine(s, t);
    }
  }

  // ---- the sizes a tree puts under one path ----

  /** One path of the listing, and how paths are shown. */
  datatype View = View(lossy: seq<byte> -> seq<byte>, path: seq<byte>) {
    function Of(met: seq<Option<Found>>): seq<nat> {
      Sizes(path, Map(Show(lossy), Files(met)))
    }

    predicate Shows(dir: seq<Name>, e: Entry) {
      e.node.File? && Shown(lossy, dir + [e.name]) == path
    }

    /** What an entry itself adds, and what lies below it. */
    function Own(dir: seq<Name>, e: Entry): seq<nat> {
      if Shows(dir, e) then [e.node.size] else []
    }

    function Under(dir: seq<Name>, e: Entry): seq<nat> {
      Of(Met(dir + [e.name], e.node))
    }

    function OwnWords(dir: seq<Name>, entries: seq<Entry>): seq<Named<Name, nat>> {
      seq(|entries|, i requires 0 <= i < |entries| => Named(entries[i].name, Own(dir, entries[i])))
    }

    function UnderWords(dir: seq<Name>, entries: seq<Entry>): seq<Named<Name, nat>> {
      seq(|entries|, i requires 0 <= i < |entries| => Named(entries[i].name, Under(dir, entries[i])))
    }
  }

  lemma OfConcat(v: View, a: seq<Option<Found>>, b: seq<Option<Found>>)
    ensures v.Of(a + b) == v.Of(a) + v.Of(b)
  {
    var f := Show(v.lossy);
    FilesConcat(a, b);
    assert Map(f, Files(a) + Files(b)) == Map(f, Files(a)) + Map(f, Files(b));
    SizesConcat(v.path, Map(f, Files(a)), Map(f, Files(b)));
  }

  lemma OfOne(v: View, dir: seq<Name>, e: Entry)
    ensures v.Of(Here(dir, [e])) == v.Own(dir, e)
  {
    assert [e][1..] == [];
    var met := Here(dir, [e]);
    assert |met| == 1 && met[1..] == [];
    if e.node.File? {
      var files := [Found(dir + [e.name], e.node.size)];
      assert Files(met) == files;
      assert Map(Show(v.lossy), files) == [Show(v.lossy)(files[0])];
      SizesCons(v.path, Show(v.lossy)(files[0]), []);
      assert [Show(v.lossy)(files[0])] + [] == [Show(v.lossy)(files[0])];
    } else {
      assert Files(met) == [];
      assert Map(Show(v.lossy), Files(met)) == [];
    }
  }

  lemma {:induction false} HereIsForward(v: View, dir: seq<Name>, entries: seq<Entry>)
    ensures v.Of(Here(dir, entries)) == Forward(v.OwnWords(dir, entries))
  {
    if entries != [] {
      var e, rest := entries[0], entries[1..];
      HereIsForward(v, dir, rest);
      MetCons(dir, e, []);
      assert [e] + [] == [e];
      assert Here(dir, entries) == Here(dir, [e]) + Here(dir, rest);
      OfConcat(v, Here(dir, [e]), Here(dir, rest));
      OfOne(v, dir, e);
      assert v.OwnWords(dir, entries)[1..] == v.OwnWords(dir, rest);
    } else {
      assert Map(Show(v.lossy), Files([])) == [];
    }
  }

  lemma {:induction false} BelowIsBackward(v: View, dir: seq<Name>, entries: seq<Entry>)
    ensures v.Of(Below(dir, entries)) == Backward(v.UnderWords(dir, entries))
  {
    if entries != [] {
      var rest := entries[1..];
      BelowIsBackward(v, dir, rest);
      OfConcat(v, Below(dir, rest), Met(dir + [entries[0].name], entries[0].node));
      assert v.UnderWords(dir, entries)[1..] == v.UnderWords(dir, rest);
    } else {
      assert Map(Show(v.lossy), Files([])) == [];
    }
  }

  lemma DirIsWords(v: View, dir: seq<Name>, node: Directory)
    requires node.readable
    ensures v.Of(Met(dir, node))
         == Forward(v.OwnWords(dir, node.entries)) + Backward(v.UnderWords(dir, node.entries))
  {
    OfConcat(v, Here(dir, node.entries), Below(dir, node.entries));
    HereIsForward(v, dir, node.entries);
    BelowIsBackward(v, dir, node.entries);
  }

  // ---- when they do not depend on the order ----

  /**
    In every directory: its own files under this path have one size, and what its
    subdirectories put under it is the same in whichever order two of them follow
    each other.
   */
  ghost predicate Steady(v: View, dir: seq<Name>, node: Node)
    decreases node
  {
    node.Dir? && node.readable ==>
      && (forall i, j :: 0 <= i < |node.entries| && 0 <= j < |node.entries|
            && v.Shows(dir, node.entries[i]) && v.Shows(dir, node.entries[j])
            ==> node.entries[i].node.size == node.entries[j].node.size)
      && (forall i, j :: 0 <= i < |node.entries| && 0 <= j < |node.entries|
            ==> Commute(v.Under(dir, node.entries[i]), v.Under(dir, node.entries[j])))
      && (forall i :: 0 <= i < |node.entries| ==> Steady(v, dir + [node.entries[i].name], node.entries[i].node))
  }

  lemma OwnWordsCommute(v: View, dir: seq<Name>, node: Directory)
    requires node.readable && Steady(v, dir, node)
    ensures AllCommute(v.OwnWords(dir, node.entries))
  {
    var own := v.OwnWords(dir, node.entries);
    forall x, y | x in own && y in own ensures Commute(x.word, y.word) {
      var i :| 0 <= i < |own| && own[i] == x;
      var j :| 0 <= j < |own| && own[j] == y;
      if x.word != [] && y.word != [] {
        assert v.Shows(dir, node.entries[i]) && v.Shows(dir, node.entries[j]);
      }
    }
  }

  lemma UnderWordsCommute(v: View, dir: seq<Name>, node: Directory)
    requires node.readable && Steady(v, dir, node)
    ensures AllCommute(v.UnderWords(dir, node.entries))
  {
    var under := v.UnderWords(dir, node.entries);
    forall x, y | x in under && y in under ensures Commute(x.word, y.word) {
      var i :| 0 <= i < |under| && under[i] == x;
      var j :| 0 <= j < |under| && under[j] == y;
      assert Commute(v.Under(dir, node.entries[i]), v.Under(dir, node.entries[j]));
    }
  }

  lemma WordsAreDistinct(v: View, dir: seq<Name>, entries: seq<Entry>)
    requires DistinctEntries(entries)
    ensures NoRepeats(v.OwnWords(dir, entries)) && NoRepeats(v.UnderWords(dir, entries))
  {
  }

  lemma SameWords(v: View, dir: seq<Name>, a: Directory, b: Directory)
    requires DistinctNames(a) && DistinctNames(b) && SameTree(a, b)
    requires forall i :: 0 <= i < |a.entries| ==>
               var j := Index(b.entries, a.entries[i].name);
               j < |b.entries| && v.Under(dir, a.entries[i]) == v.Under(dir, b.entries[j])
    ensures multiset(v.OwnWords(dir, a.entries)) == multiset(v.OwnWords(dir, b.entries))
    ensures multiset(v.UnderWords(dir, a.entries)) == multiset(v.UnderWords(dir, b.entries))
  {
    WordsAreDistinct(v, dir, a.entries);
    WordsAreDistinct(v, dir, b.entries);
    forall x ensures x in v.OwnWords(dir, a.entries) <==> x in v.OwnWords(dir, b.entries) {
      InOwnWords(v, dir, a, b, x);
    }
    forall x ensures x in v.UnderWords(dir, a.entries) <==> x in v.UnderWords(dir, b.entries) {
      InUnderWords(v, dir, a, b, x);
    }
    SameSetPermutes(v.OwnWords(dir, a.entries), v.OwnWords(dir, b.entries));
    SameSetPermutes(v.UnderWords(dir, a.entries), v.UnderWords(dir, b.entries));
  }

  lemma Partner(a: Directory, b: Directory, j: nat) returns (i: nat)
    requires DistinctNames(b) && SameTree(a, b) && j < |b.entries|
    ensures i < |a.entries| && a.entries[i].name == b.entries[j].name && Index(b.entries, a.entries[i].name) == j
    ensures SameTree(a.entries[i].node, b.entries[j].node)
  {
    i := Index(a.entries, b.entries[j].name);
    IndexOfEntry(b.entries, j);
  }

  lemma SameOwn(v: View, dir: seq<Name>, e: Entry, f: Entry)
    requires e.name == f.name && SameTree(e.node, f.node)
    ensures v.Own(dir, e) == v.Own(dir, f)
  {
  }

  lemma InOwnWords(v: View, dir: seq<Name>, a: Directory, b: Directory, x: Named<Name, nat>)
    requires DistinctNames(a) && DistinctNames(b) && SameTree(a, b)
    ensures x in v.OwnWords(dir, a.entries) <==> x in v.OwnWords(dir, b.entries)
  {
    if x in v.OwnWords(dir, a.entries) {
      var i :| 0 <= i < |a.entries| && v.OwnWords(dir, a.entries)[i] == x;
      var j := Index(b.entries, a.entries[i].name);
      SameOwn(v, dir, a.entries[i], b.entries[j]);
      assert v.OwnWords(dir, b.entries)[j] == x;
    }
    if x in v.OwnWords(dir, b.entries) {
      var j :| 0 <= j < |b.entries| && v.OwnWords(dir, b.entries)[j] == x;
      var i := Partner(a, b, j);
      SameOwn(v, dir, a.entries[i], b.entries[j]);
      assert v.OwnWords(dir, a.entries)[i] == x;
    }
  }

  lemma InUnderWords(v: View, dir: seq<Name>, a: Directory, b: Directory, x: Named<Name, nat>)
    requires DistinctNames(a) && DistinctNames(b) && SameTree(a, b)
    requires forall i :: 0 <= i < |a.entries| ==>
               var j := Index(b.entries, a.entries[i].name);
               j < |b.entries| && v.Under(dir, a.entries[i]) == v.Under(dir, b.entries[j])
    ensures x in v.UnderWords(dir, a.entries) <==> x in v.UnderWords(dir, b.entries)
  {
    if x in v.UnderWords(dir, a.entries) {
      var i :| 0 <= i < |a.entries| && v.UnderWords(dir, a.entries)[i] == x;
      var j := Index(b.entries, a.entries[i].name);
      assert v.UnderWords(dir, b.entries)[j] == x;
    }
    if x in v.UnderWords(dir, b.entries) {
      var j :| 0 <= j < |b.entries| && v.UnderWords(dir, b.entries)[j] == x;
      var i := Partner(a, b, j);
      assert v.UnderWords(dir, a.entries)[i] == x;
    }
  }

  lemma PermutedAlike(a: seq<Named<Name, nat>>, b: seq<Named<Name, nat>>)
    requires AllCommute(a) && multiset(a) == multiset(b)
    ensures Forward(a) == Forward(b) && Backward(a) == Backward(b)
  {
    forall x ensures x in a <==> x in b {
      SameElements(a, b, x);
    }
    assert AllCommute(b);
    ForwardPermutes(a, b);
    BackwardIsForward(a);
    BackwardIsForward(b);
  }

  lemma {:induction false} SteadyIsFixed(v: View, dir: seq<Name>, a: Node, b: Node)
    requires DistinctNames(a) && DistinctNames(b) && SameTree(a, b) && Steady(v, dir, a)
    ensures v.Of(Met(dir, a)) == v.Of(Met(dir, b))
    decreases a
  {
    if a.Dir? && a.readable {
      forall i | 0 <= i < |a.entries|
        ensures var j := Index(b.entries, a.entries[i].name);
                j < |b.entries| && v.Under(dir, a.entries[i]) == v.Under(dir, b.entries[j])
      {
        var j := Index(b.entries, a.entries[i].name);
        SteadyIsFixed(v, dir + [a.entries[i].name], a.entries[i].node, b.entries[j].node);
      }
      OwnWordsCommute(v, dir, a);
      UnderWordsCommute(v, dir, a);
      SameWords(v, dir, a, b);
      PermutedAlike(v.OwnWords(dir, a.entries), v.OwnWords(dir, b.entries));
      PermutedAlike(v.UnderWords(dir, a.entries), v.UnderWords(dir, b.entries));
      DirIsWords(v, dir, a);
      DirIsWords(v, dir, b);
    }
  }

  // ---- and when they do ----

  lemma SameAsItself(node: Node)
    requires DistinctNames(node)
    ensures SameTree(node, node)
    decreases node
  {
    if node.Dir? {
      forall i | 0 <= i < |node.entries|
        ensures Index(node.entries, node.entries[i].name) == i && SameTree(node.entries[i].node, node.entries[i].node)
      {
        IndexOfEntry(node.entries, i);
        SameAsItself(node.entries[i].node);
      }
    }
  }

  /** Two entries that may stand for each other in two enumerations of one directory. */
  ghost predicate Stands(e: Entry, f: Entry) {
    e.name == f.name && DistinctNames(f.node) && SameTree(e.node, f.node)
  }

  /** Every entry of the first list has one in the second that stands for it. */
  ghost predicate StoodFor(a: seq<Entry>, b: seq<Entry>) {
    forall e :: e in a ==> exists f :: f in b && Stands(e, f)
  }

  /** Every entry of the second list stands for one of the first. */
  ghost predicate StandsFor(a: seq<Entry>, b: seq<Entry>) {
    forall f :: f in b ==> exists e :: e in a && Stands(e, f)
  }

  lemma MatchIsFound(a: seq<Entry>, b: seq<Entry>, i: nat)
    requires DistinctEntries(b) && StoodFor(a, b) && i < |a|
    ensures var j := Index(b, a[i].name); j < |b| && SameTree(a[i].node, b[j].node)
  {
    assert a[i] in a;
    var f :| f in b && Stands(a[i], f);
    var j :| 0 <= j < |b| && b[j] == f;
    IndexOfEntry(b, j);
  }

  lemma MatchIsKnown(a: seq<Entry>, b: seq<Entry>, j: nat)
    requires DistinctEntries(a) && StandsFor(a, b) && j < |b|
    ensures DistinctNames(b[j].node) && Index(a, b[j].name) < |a|
  {
    assert b[j] in b;
    var e :| e in a && Stands(e, b[j]);
    var i :| 0 <= i < |a| && a[i] == e;
    IndexOfEntry(a, i);
  }

  lemma MatchIsSameTree(a: Directory, b: Directory)
    requires DistinctNames(a) && DistinctEntries(b.entries) && a.readable == b.readable
    requires StoodFor(a.entries, b.entries) && StandsFor(a.entries, b.entries)
    ensures DistinctNames(b) && SameTree(a, b)
  {
    forall j | 0 <= j < |b.entries|
      ensures DistinctNames(b.entries[j].node) && Index(a.entries, b.entries[j].name) < |a.entries|
    {
      MatchIsKnown(a.entries, b.entries, j);
    }
    forall i | 0 <= i < |a.entries|
      ensures var j := Index(b.entries, a.entries[i].name);
              j < |b.entries| && SameTree(a.entries[i].node, b.entries[j].node)
    {
      MatchIsFound(a.entries, b.entries, i);
    }
  }

  /** An enumeration that moves one entry, or replaces it by one that stands for it. */
  lemma Moved(a: Directory, x: seq<Entry>, e: Entry, y: seq<Entry>, f: Entry, b: seq<Entry>)
    requires DistinctNames(a) && a.entries == x + [e] + y && Stands(e, f)
    requires b == [f] + (x + y) || b == x + y + [f]
    ensures DistinctNames(Dir(a.readable, b)) && SameTree(a, Dir(a.readable, b))
  {
    MovedIsDistinct(a, x, e, y, f, b);
    forall g | g in a.entries ensures Stands(g, g) {
      var i :| 0 <= i < |a.entries| && a.entries[i] == g;
      SameAsItself(g.node);
    }
    assert forall g :: g in a.entries <==> g in x || g == e || g in y;
    assert forall g :: g in b <==> g in x || g == f || g in y;
    MatchIsSameTree(a, Dir(a.readable, b));
  }

  function NamesOf(entries: seq<Entry>): seq<Name> {
    seq(|entries|, i requires 0 <= i < |entries| => entries[i].name)
  }

  lemma PermutedNames(a: seq<Entry>, b: seq<Entry>)
    requires DistinctEntries(a) && multiset(NamesOf(a)) == multiset(NamesOf(b))
    ensures DistinctEntries(b)
  {
    PermutationNoRepeats(NamesOf(a), NamesOf(b));
    assert forall i :: 0 <= i < |b| ==> NamesOf(b)[i] == b[i].name;
  }

  lemma MovedIsDistinct(a: Directory, x: seq<Entry>, e: Entry, y: seq<Entry>, f: Entry, b: seq<Entry>)
    requires DistinctNames(a) && a.entries == x + [e] + y && e.name == f.name
    requires b == [f] + (x + y) || b == x + y + [f]
    ensures DistinctEntries(b)
  {
    var p, q := NamesOf(x), NamesOf(y);
    assert NamesOf(a.entries) == p + [e.name] + q;
    assert NamesOf(b) == [e.name] + (p + q) || NamesOf(b) == p + q + [e.name];
    PermutedNames(a.entries, b);
  }

  lemma CutAt(entries: seq<Entry>, i: nat) returns (x: seq<Entry>, y: seq<Entry>)
    requires i < |entries|
    ensures entries == x + [entries[i]] + y
  {
    x, y := entries[..i], entries[i + 1..];
  }

  lemma {:induction false} HereConcat(dir: seq<Name>, a: seq<Entry>, b: seq<Entry>)
    ensures Here(dir, a + b) == Here(dir, a) + Here(dir, b)
  {
    if a == [] {
      assert a + b == b;
    } else {
      HereConcat(dir, a[1..], b);
      assert (a + b)[1..] == a[1..] + b;
    }
  }

  lemma {:induction false} BelowConcat(dir: seq<Name>, a: seq<Entry>, b: seq<Entry>)
    ensures Below(dir, a + b) == Below(dir, b) + Below(dir, a)
  {
    if a == [] {
      assert a + b == b;
    } else {
      BelowConcat(dir, a[1..], b);
      assert (a + b)[1..] == a[1..] + b;
    }
  }

  /** With a file in front, its size comes first. */
  lemma FileInFront(v: View, dir: seq<Name>, f: Entry, rest: seq<Entry>)
    requires v.Shows(dir, f)
    ensures var word := v.Of(Met(dir, Dir(true, [f] + rest)));
            word != [] && word[0] == f.node.size
  {
    HereConcat(dir, [f], rest);
    OfOne(v, dir, f);
    OfConcat(v, Here(dir, [f]), Here(dir, rest));
    OfConcat(v, Here(dir, [f] + rest), Below(dir, [f] + rest));
  }

  lemma HereWithDirectory(v: View, dir: seq<Name>, rest: seq<Entry>, f: Entry)
    requires f.node.Dir?
    ensures v.Of(Here(dir, rest + [f])) == v.Of(Here(dir, rest))
  {
    HereConcat(dir, rest, [f]);
    OfOne(v, dir, f);
    OfConcat(v, Here(dir, rest), Here(dir, [f]));
  }

  lemma BelowWithDirectory(v: View, dir: seq<Name>, rest: seq<Entry>, f: Entry)
    ensures v.Of(Below(dir, rest + [f])) == v.Under(dir, f) + v.Of(Below(dir, rest))
  {
    BelowConcat(dir, rest, [f]);
    MetCons(dir, f, []);
    assert [f] + [] == [f];
    assert Below(dir, [f]) == Met(dir + [f.name], f.node);
    OfConcat(v, Below(dir, [f]), Below(dir, rest));
  }

  /** With a directory at the end, what lies below it comes right behind the directory's own files. */
  lemma DirectoryAtEnd(v: View, dir: seq<Name>, rest: seq<Entry>, f: Entry)
    requires f.node.Dir?
    ensures v.Of(Met(dir, Dir(true, rest + [f])))
         == v.Of(Here(dir, rest)) + (v.Under(dir, f) + v.Of(Below(dir, rest)))
  {
    HereWithDirectory(v, dir, rest, f);
    BelowWithDirectory(v, dir, rest, f);
    OfConcat(v, Here(dir, rest + [f]), Below(dir, rest + [f]));
  }

  /** Some enumeration of a directory puts other sizes under the path. */
  ghost predicate Varies(v: View, dir: seq<Name>, a: Node) {
    exists b :: DistinctNames(b) && SameTree(a, b) && v.Of(Met(dir, b)) != v.Of(Met(dir, a))
  }

  lemma OneVaries(v: View, dir: seq<Name>, a: Node, b: Node, c: Node)
    requires DistinctNames(b) && SameTree(a, b) && DistinctNames(c) && SameTree(a, c)
    requires v.Of(Met(dir, b)) != v.Of(Met(dir, c))
    ensures Varies(v, dir, a)
  {
    if v.Of(Met(dir, b)) == v.Of(Met(dir, a)) {
      assert v.Of(Met(dir, c)) != v.Of(Met(dir, a));
    }
  }

  lemma OwnSizesVary(v: View, dir: seq<Name>, a: Directory, i: nat, j: nat)
    requires DistinctNames(a) && a.readable && i < |a.entries| && j < |a.entries|
    requires v.Shows(dir, a.entries[i]) && v.Shows(dir, a.entries[j])
    requires a.entries[i].node.size != a.entries[j].node.size
    ensures Varies(v, dir, a)
  {
    var e, f := a.entries[i], a.entries[j];
    var x, y := CutAt(a.entries, i);
    var z, w := CutAt(a.entries, j);
    Moved(a, x, e, y, e, [e] + (x + y));
    Moved(a, z, f, w, f, [f] + (z + w));
    FileInFront(v, dir, e, x + y);
    FileInFront(v, dir, f, z + w);
    OneVaries(v, dir, a, Dir(true, [e] + (x + y)), Dir(true, [f] + (z + w)));
  }

  lemma {:induction false} EntryStandsForItself(a: Directory, e: Entry)
    requires DistinctNames(a) && e in a.entries
    ensures Stands(e, e)
  {
    var i :| 0 <= i < |a.entries| && a.entries[i] == e;
    SameAsItself(e.node);
  }

  lemma Cancels<T>(before: seq<T>, u: seq<T>, w: seq<T>, after: seq<T>)
    requires before + (u + after) == before + (w + after)
    ensures u == w
  {
    assert (before + (u + after))[|before|..] == u + after;
    assert (before + (w + after))[|before|..] == w + after;
    assert |u| == |w|;
    assert (u + after)[..|u|] == u && (w + after)[..|w|] == w;
  }

  lemma BelowVaries(v: View, dir: seq<Name>, a: Directory, i: nat)
    requires DistinctNames(a) && a.readable && i < |a.entries|
    requires Varies(v, dir + [a.entries[i].name], a.entries[i].node)
    ensures Varies(v, dir, a)
  {
    var e := a.entries[i];
    var child :| DistinctNames(child) && SameTree(e.node, child)
                 && v.Of(Met(dir + [e.name], child)) != v.Of(Met(dir + [e.name], e.node));
    var f := Entry(e.name, child);
    var x, y := CutAt(a.entries, i);
    EntryStandsForItself(a, e);
    Moved(a, x, e, y, e, x + y + [e]);
    Moved(a, x, e, y, f, x + y + [f]);
    DirectoryAtEnd(v, dir, x + y, e);
    DirectoryAtEnd(v, dir, x + y, f);
    if v.Of(Met(dir, Dir(true, x + y + [e]))) == v.Of(Met(dir, Dir(true, x + y + [f]))) {
      Cancels(v.Of(Here(dir, x + y)), v.Under(dir, e), v.Under(dir, f), v.Of(Below(dir, x + y)));
    }
    OneVaries(v, dir, a, Dir(true, x + y + [e]), Dir(true, x + y + [f]));
  }

  lemma NoFilesUnderFile(v: View, dir: seq<Name>, e: Entry)
    ensures v.Under(dir, e) != [] ==> e.node.Dir?
  {
    if !e.node.Dir? {
      assert Map(Show(v.lossy), Files([])) == [];
    }
  }

  lemma TwoAtEnd(v: View, dir: seq<Name>, rest: seq<Entry>, e: Entry, f: Entry)
    requires e.node.Dir? && f.node.Dir?
    ensures v.Of(Met(dir, Dir(true, rest + [e] + [f])))
         == v.Of(Here(dir, rest)) + ((v.Under(dir, f) + v.Under(dir, e)) + v.Of(Below(dir, rest)))
  {
    DirectoryAtEnd(v, dir, rest + [e], f);
    HereWithDirectory(v, dir, rest, e);
    BelowWithDirectory(v, dir, rest, e);
    Words.Regroup(v.Under(dir, f), v.Under(dir, e), v.Of(Below(dir, rest)));
  }

  lemma OrderVaries(v: View, dir: seq<Name>, a: Directory, i: nat, j: nat)
    requires DistinctNames(a) && a.readable && i < |a.entries| && j < |a.entries|
    requires !Commute(v.Under(dir, a.entries[i]), v.Under(dir, a.entries[j]))
    ensures Varies(v, dir, a)
  {
    var e, f := a.entries[i], a.entries[j];
    NoFilesUnderFile(v, dir, e);
    NoFilesUnderFile(v, dir, f);
    var rest := TwoMoved(a, i, j);
    var b, c := Dir(true, rest + [e] + [f]), Dir(true, rest + [f] + [e]);
    TwoAtEnd(v, dir, rest, e, f);
    TwoAtEnd(v, dir, rest, f, e);
    if v.Of(Met(dir, b)) == v.Of(Met(dir, c)) {
      Cancels(v.Of(Here(dir, rest)), v.Under(dir, f) + v.Under(dir, e), v.Under(dir, e) + v.Under(dir, f),
              v.Of(Below(dir, rest)));
    }
    OneVaries(v, dir, a, b, c);
  }

  lemma Rearranged(a: Directory, entries: seq<Entry>)
    requires DistinctNames(a) && DistinctEntries(entries) && forall g :: g in entries <==> g in a.entries
    ensures DistinctNames(Dir(a.readable, entries)) && SameTree(a, Dir(a.readable, entries))
  {
    forall g | g in a.entries ensures Stands(g, g) {
      EntryStandsForItself(a, g);
    }
    MatchIsSameTree(a, Dir(a.readable, entries));
  }

  lemma LastIsDistinct(x: seq<Entry>, e: Entry, y: seq<Entry>)
    requires DistinctEntries(x + [e] + y)
    ensures DistinctEntries(x + y + [e])
  {
    var p, q := NamesOf(x), NamesOf(y);
    assert NamesOf(x + [e] + y) == p + [e.name] + q;
    assert NamesOf(x + y + [e]) == p + q + [e.name];
    PermutedNames(x + [e] + y, x + y + [e]);
  }

  lemma PartsAreDistinct(x: seq<Entry>, e: Entry, m: seq<Entry>, f: Entry, y: seq<Entry>)
    requires DistinctEntries(x + [e] + m + [f] + y)
    ensures DistinctEntries(x + m + y + [e] + [f]) && DistinctEntries(x + m + y + [f] + [e])
  {
    assert x + [e] + m + [f] + y == x + [e] + (m + [f] + y);
    LastIsDistinct(x, e, m + [f] + y);
    assert x + (m + [f] + y) + [e] == (x + m) + [f] + (y + [e]);
    LastIsDistinct(x + m, f, y + [e]);
    assert (x + m) + (y + [e]) + [f] == (x + m + y) + [e] + [f];
    LastIsDistinct(x + m + y, e, [f]);
  }

  /** The same directory with two of its entries last, in either order. */
  lemma TwoMoved(a: Directory, i: nat, j: nat) returns (rest: seq<Entry>)
    requires DistinctNames(a) && i < |a.entries| && j < |a.entries| && i != j
    ensures var (e, f) := (a.entries[i], a.entries[j]);
            var (b, c) := (Dir(a.readable, rest + [e] + [f]), Dir(a.readable, rest + [f] + [e]));
            DistinctNames(b) && SameTree(a, b) && DistinctNames(c) && SameTree(a, c)
  {
    if j < i {
      rest := TwoMoved(a, j, i);
    } else {
      var e, f := a.entries[i], a.entries[j];
      var x, m, y := a.entries[..i], a.entries[i + 1..j], a.entries[j + 1..];
      assert a.entries == x + [e] + m + [f] + y;
      rest := x + m + y;
      PartsAreDistinct(x, e, m, f, y);
      Rearranged(a, rest + [e] + [f]);
      Rearranged(a, rest + [f] + [e]);
    }
  }

  /** What is not steady comes out otherwise in some enumeration. */
  lemma {:induction false} UnsteadyVaries(v: View, dir: seq<Name>, a: Node)
    requires DistinctNames(a) && !Steady(v, dir, a)
    ensures Varies(v, dir, a)
    decreases a
  {
    if i, j :| 0 <= i < |a.entries| && 0 <= j < |a.entries| && v.Shows(dir, a.entries[i])
               && v.Shows(dir, a.entries[j]) && a.entries[i].node.size != a.entries[j].node.size {
      OwnSizesVary(v, dir, a, i, j);
    } else if i, j :| 0 <= i < |a.entries| && 0 <= j < |a.entries|
                      && !Commute(v.Under(dir, a.entries[i]), v.Under(dir, a.entries[j])) {
      OrderVaries(v, dir, a, i, j);
    } else {
      var i :| 0 <= i < |a.entries| && !Steady(v, dir + [a.entries[i].name], a.entries[i].node);
      UnsteadyVaries(v, dir + [a.entries[i].name], a.entries[i].node);
      BelowVaries(v, dir, a, i);
    }
  }

  // ---- the listing as it is sent ----

  lemma SentIsSorted(lossy: seq<byte> -> seq<byte>, root: Node)
    requires |Files(Met([], root))| < MAX_LISTED_FILES
    ensures Listing(lossy, Met([], root)) == Sort(ByPath, Map(Show(lossy), Files(Met([], root))))
  {
    CutIsPart(Met([], root));
    SortedAsShown(lossy, Files(Met([], root)));
  }

  /** Each path gets the same sizes in the same order. */
  ghost predicate SameUnderEachPath(lossy: seq<byte> -> seq<byte>, a: Node, b: Node) {
    forall path :: View(lossy, path).Of(Met([], a)) == View(lossy, path).Of(Met([], b))
  }

  lemma SentAlikeIff(lossy: seq<byte> -> seq<byte>, a: Node, b: Node)
    requires DistinctNames(a) && DistinctNames(b) && SameTree(a, b) && |Files(Met([], a))| < MAX_LISTED_FILES
    ensures Listing(lossy, Met([], b)) == Listing(lossy, Met([], a)) <==> SameUnderEachPath(lossy, a, b)
  {
    SameCount(a, b);
    SentIsSorted(lossy, a);
    SentIsSorted(lossy, b);
    var s, t := Map(Show(lossy), Files(Met([], a))), Map(Show(lossy), Files(Met([], b)));
    SortedAlikeIff(s, t);
    forall path ensures View(lossy, path).Of(Met([], a)) == Sizes(path, s)
      ensures View(lossy, path).Of(Met([], b)) == Sizes(path, t)
    {
    }
  }

  ghost predicate SteadyEverywhere(lossy: seq<byte> -> seq<byte>, root: Node) {
    forall path :: Steady(View(lossy, path), [], root)
  }

  lemma SteadySendsSame(lossy: seq<byte> -> seq<byte>, a: Node, b: Node)
    requires DistinctNames(a) && DistinctNames(b) && SameTree(a, b) && |Files(Met([], a))| < MAX_LISTED_FILES
    requires SteadyEverywhere(lossy, a)
    ensures Listing(lossy, Met([], b)) == Listing(lossy, Met([], a))
  {
    forall path ensures View(lossy, path).Of(Met([], a)) == View(lossy, path).Of(Met([], b)) {
      SteadyIsFixed(View(lossy, path), [], a, b);
    }
    SentAlikeIff(lossy, a, b);
  }

  lemma UnsteadySendsOther(lossy: seq<byte> -> seq<byte>, a: Node) returns (b: Node)
    requires DistinctNames(a) && |Files(Met([], a))| < MAX_LISTED_FILES && !SteadyEverywhere(lossy, a)
    ensures DistinctNames(b) && SameTree(a, b) && Listing(lossy, Met([], b)) != Listing(lossy, Met([], a))
  {
    var path :| !Steady(View(lossy, path), [], a);
    var v := View(lossy, path);
    UnsteadyVaries(v, [], a);
    b :| DistinctNames(b) && SameTree(a, b) && v.Of(Met([], b)) != v.Of(Met([], a));
    SentAlikeIff(lossy, a, b);
  }

  /**
    Of a tree with fewer than a thousand files the listing sent is the same however its
    directories are enumerated, exactly if the tree is steady under every path shown.
   */
  lemma SentListingUniqueIff(lossy: seq<byte> -> seq<byte>, a: Node)
    requires DistinctNames(a) && |Files(Met([], a))| < MAX_LISTED_FILES
    ensures SteadyEverywhere(lossy, a)
       <==> forall b :: SameTree(a, b) && DistinctNames(b) ==>
              Listing(lossy, Met([], b)) == Listing(lossy, Met([], a))
  {
    if SteadyEverywhere(lossy, a) {
      forall b | SameTree(a, b) && DistinctNames(b)
        ensures Listing(lossy, Met([], b)) == Listing(lossy, Met([], a))
      {
        SteadySendsSame(lossy, a, b);
      }
    } else {
      var b := UnsteadySendsOther(lossy, a);
    }
  }
}

/**
  When the listing of shared files depends on the order in which directories yield
  their entries (crates/intraweb-cli/src/api.rs:308-341).
 */
module Enumeration {
  import opened Wrappers
  import opened Bytes
  import opened Sorting
  import opened Walk
  import Utf8

  // ---- a tree by its names alone ----

  /** Where a name stands among the entries; their number when it is none of theirs. */
  function Index(entries: seq<Entry>, name: Name): (i: nat)
    ensures i <= |entries|
    ensures i < |entries| ==> entries[i].name == name
  {
    if entries == [] then 0
    else if entries[0].name == name then 0
    else 1 + Index(entries[1..], name)
  }

  ghost predicate DistinctEntries(entries: seq<Entry>) {
    forall i, j :: 0 <= i < j < |entries| ==> entries[i].name != entries[j].name
  }

  /** No directory holds two entries of one name. */
  ghost predicate DistinctNames(node: Node)
    decreases node
  {
    node.Dir? ==>
      && DistinctEntries(node.entries)
      && forall i :: 0 <= i < |node.entries| ==> DistinctNames(node.entries[i].node)
  }

  lemma {:induction false} IndexOfEntry(entries: seq<Entry>, i: nat)
    requires DistinctEntries(entries) && i < |entries|
    ensures Index(entries, entries[i].name) == i
  {
    if i > 0 {
      var rest := entries[1..];
      assert rest[i - 1] == entries[i];
      IndexOfEntry(rest, i - 1);
    }
  }

  /** The size of the file at a path, if there is one. */
  function FileAt(node: Node, p: seq<Name>): Option<nat>
    decreases |p|
  {
    if !node.Dir? || !node.readable || p == [] then None
    else
      var i := Index(node.entries, p[0]);
      if i == |node.entries| then None
      else if |p| > 1 then FileAt(node.entries[i].node, p[1..])
      else if node.entries[i].node.File? then Some(node.entries[i].node.size)
      else None
  }

  // ---- the walk meets exactly the files of the tree ----

  ghost predicate IsUnder(dir: seq<Name>, x: Found) {
    |x.at| > |dir| && x.at[..|dir|] == dir
  }

  lemma {:induction false} InHere(dir: seq<Name>, entries: seq<Entry>, x: Found)
    ensures x in Files(Here(dir, entries))
       <==> exists m :: 0 <= m < |entries| && x.at == dir + [entries[m].name] && entries[m].node == File(x.size)
  {
    if entries != [] {
      var e, rest := entries[0], entries[1..];
      InHere(dir, rest, x);
      FilesCons(if e.node.File? then Some(Found(dir + [e.name], e.node.size)) else None, Here(dir, rest));
      assert forall m :: 1 <= m < |entries| ==> entries[m] == rest[m - 1];
      if m :| 0 <= m < |rest| && x.at == dir + [rest[m].name] && rest[m].node == File(x.size) {
        assert entries[m + 1] == rest[m];
      }
    }
  }

  lemma {:induction false} InBelow(dir: seq<Name>, entries: seq<Entry>, x: Found)
    ensures x in Files(Below(dir, entries))
       <==> exists m :: 0 <= m < |entries| && x in Files(Met(dir + [entries[m].name], entries[m].node))
  {
    if entries != [] {
      InBelow(dir, entries[1..], x);
      FilesConcat(Below(dir, entries[1..]), Met(dir + [entries[0].name], entries[0].node));
      assert forall m :: 1 <= m < |entries| ==> entries[m] == entries[1..][m - 1];
    }
  }

  lemma InMet(dir: seq<Name>, node: Directory, x: Found)
    ensures x in Files(Met(dir, node))
       <==> node.readable && (x in Files(Here(dir, node.entries)) || x in Files(Below(dir, node.entries)))
  {
    FilesConcat(Here(dir, node.entries), Below(dir, node.entries));
  }

  lemma {:induction false} MetIsFileAt(dir: seq<Name>, node: Node, x: Found)
    requires DistinctNames(node)
    ensures x in Files(Met(dir, node)) <==> IsUnder(dir, x) && FileAt(node, x.at[|dir|..]) == Some(x.size)
    decreases node
  {
    if node.Dir? && node.readable {
      InMet(dir, node, x);
      InHere(dir, node.entries, x);
      InBelow(dir, node.entries, x);
      forall m | 0 <= m < |node.entries|
        ensures x in Files(Met(dir + [node.entries[m].name], node.entries[m].node)) <==> FileVia(dir, node, x, m)
      {
        ViaEntry(dir, node, x, m);
      }
      OneEntry(dir, node, x);
    }
  }

  /** The file at a path of two or more components lies below the entry that the first names. */
  ghost predicate FileVia(dir: seq<Name>, node: Directory, x: Found, m: nat)
    requires m < |node.entries|
  {
    |x.at| > |dir| + 1 && IsUnder(dir, x) && Index(node.entries, x.at[|dir|]) == m
    && FileAt(node.entries[m].node, x.at[|dir| + 1..]) == Some(x.size)
  }

  lemma {:induction false} ViaEntry(dir: seq<Name>, node: Directory, x: Found, m: nat)
    requires DistinctNames(node) && m < |node.entries|
    ensures x in Files(Met(dir + [node.entries[m].name], node.entries[m].node)) <==> FileVia(dir, node, x, m)
    decreases node, 0
  {
    var name := node.entries[m].name;
    MetIsFileAt(dir + [name], node.entries[m].node, x);
    IndexOfEntry(node.entries, m);
    if |x.at| > |dir| + 1 {
      assert x.at[..|dir| + 1] == x.at[..|dir|] + [x.at[|dir|]];
      assert IsUnder(dir + [name], x) <==> IsUnder(dir, x) && x.at[|dir|] == name;
    }
  }

  lemma OneEntry(dir: seq<Name>, node: Directory, x: Found)
    requires DistinctNames(node) && node.readable
    ensures IsUnder(dir, x) && FileAt(node, x.at[|dir|..]) == Some(x.size)
       <==> (exists m :: 0 <= m < |node.entries|
               && x.at == dir + [node.entries[m].name] && node.entries[m].node == File(x.size))
            || exists m :: 0 <= m < |node.entries| && FileVia(dir, node, x, m)
  {
    if IsUnder(dir, x) {
      var p := x.at[|dir|..];
      assert x.at == dir + p && p[0] == x.at[|dir|];
      if |p| == 1 {
        assert p == [p[0]];
      } else {
        assert p[1..] == x.at[|dir| + 1..];
        var m := Index(node.entries, p[0]);
        assert m < |node.entries| ==>
            (FileVia(dir, node, x, m) <==> FileAt(node.entries[m].node, p[1..]) == Some(x.size));
      }
    }
    forall m | 0 <= m < |node.entries| && x.at == dir + [node.entries[m].name] && node.entries[m].node == File(x.size)
      ensures IsUnder(dir, x) && FileAt(node, x.at[|dir|..]) == Some(x.size)
    {
      IndexOfEntry(node.entries, m);
      assert x.at[|dir|..] == [node.entries[m].name];
    }
  }

  // ---- in which order ----

  /** Whether the walk lists the file at `p` before the one at `q`: a directory's own files come
      first, in its order; then what is below its subdirectories, the last of them first. */
  function First(node: Node, p: seq<Name>, q: seq<Name>): bool
    decreases |p|
  {
    if !node.Dir? || p == [] || q == [] then false
    else
      var i, j := Index(node.entries, p[0]), Index(node.entries, q[0]);
      if |p| == 1 then |q| > 1 || i < j
      else if |q| == 1 then false
      else if p[0] == q[0] then i < |node.entries| && First(node.entries[i].node, p[1..], q[1..])
      else i > j
  }

  lemma {:induction false} FirstIsAsymmetric(node: Node, p: seq<Name>, q: seq<Name>)
    ensures First(node, p, q) ==> !First(node, q, p)
    decreases |p|
  {
    if node.Dir? && |p| > 1 && |q| > 1 && p[0] == q[0] && Index(node.entries, p[0]) < |node.entries| {
      FirstIsAsymmetric(node.entries[Index(node.entries, p[0])].node, p[1..], q[1..]);
    }
  }

  function InOrder(dir: seq<Name>, node: Node): (Found, Found) -> bool {
    (x: Found, y: Found) => |x.at| > |dir| && |y.at| > |dir| && First(node, x.at[|dir|..], y.at[|dir|..])
  }

  lemma {:induction false} HereInOrder(dir: seq<Name>, node: Directory, k: nat)
    requires DistinctNames(node) && k <= |node.entries|
    ensures Sorted(InOrder(dir, node), Files(Here(dir, node.entries[k..])))
    decreases |node.entries| - k
  {
    if k < |node.entries| {
      var rest := node.entries[k..];
      HereInOrder(dir, node, k + 1);
      assert rest[1..] == node.entries[k + 1..];
      var one := Here(dir, rest)[0];
      FilesConcat([one], Here(dir, rest[1..]));
      forall x, y | x in Files([one]) && y in Files(Here(dir, rest[1..])) ensures InOrder(dir, node)(x, y) {
        assert x.at == dir + [node.entries[k].name];
        EarlierEntry(dir, node, x, y, k);
      }
      SortedConcat(InOrder(dir, node), Files([one]), Files(Here(dir, rest[1..])));
    }
  }

  lemma EarlierEntry(dir: seq<Name>, node: Directory, x: Found, y: Found, k: nat)
    requires DistinctNames(node) && k < |node.entries| && x.at == dir + [node.entries[k].name]
    requires y in Files(Here(dir, node.entries[k + 1..]))
    ensures InOrder(dir, node)(x, y)
  {
    var rest := node.entries[k + 1..];
    InHere(dir, rest, y);
    var m :| 0 <= m < |rest| && y.at == dir + [rest[m].name];
    IndexOfEntry(node.entries, k);
    IndexOfEntry(node.entries, k + 1 + m);
    assert x.at[|dir|..] == [node.entries[k].name] && y.at[|dir|..] == [node.entries[k + 1 + m].name];
  }

  lemma {:induction false} BelowInOrder(dir: seq<Name>, node: Directory, k: nat)
    requires DistinctNames(node) && k <= |node.entries|
    ensures Sorted(InOrder(dir, node), Files(Below(dir, node.entries[k..])))
    decreases node, |node.entries| - k
  {
    if k < |node.entries| {
      var rest := node.entries[k..];
      BelowInOrder(dir, node, k + 1);
      assert rest[1..] == node.entries[k + 1..];
      var later, under := Below(dir, rest[1..]), Met(dir + [rest[0].name], rest[0].node);
      UnderInOrder(dir, node, k);
      forall x, y | x in Files(later) && y in Files(under) ensures InOrder(dir, node)(x, y) {
        LaterEntry(dir, node, x, y, k);
      }
      FilesConcat(later, under);
      SortedConcat(InOrder(dir, node), Files(later), Files(under));
    }
  }

  lemma LaterEntry(dir: seq<Name>, node: Directory, x: Found, y: Found, k: nat)
    requires DistinctNames(node) && k < |node.entries| && x in Files(Below(dir, node.entries[k + 1..]))
    requires y in Files(Met(dir + [node.entries[k].name], node.entries[k].node))
    ensures InOrder(dir, node)(x, y)
  {
    var rest := node.entries[k + 1..];
    InBelow(dir, rest, x);
    var m :| 0 <= m < |rest| && x in Files(Met(dir + [rest[m].name], rest[m].node));
    assert rest[m] == node.entries[k + 1 + m];
    ViaEntry(dir, node, x, k + 1 + m);
    ViaEntry(dir, node, y, k);
  }

  lemma UnderInOrder(dir: seq<Name>, node: Directory, k: nat)
    requires DistinctNames(node) && k < |node.entries|
    ensures Sorted(InOrder(dir, node), Files(Met(dir + [node.entries[k].name], node.entries[k].node)))
    decreases node, 0
  {
    var name, child := node.entries[k].name, node.entries[k].node;
    var files := Files(Met(dir + [name], child));
    MetInOrder(dir + [name], child);
    forall i, j | 0 <= i < j < |files| ensures InOrder(dir, node)(files[i], files[j]) {
      ViaEntry(dir, node, files[i], k);
      ViaEntry(dir, node, files[j], k);
      assert InOrder(dir + [name], child)(files[i], files[j]);
      assert files[i].at[|dir|..][1..] == files[i].at[|dir| + 1..];
      assert files[j].at[|dir|..][1..] == files[j].at[|dir| + 1..];
    }
  }

  /** The walk meets files in the order that First reads off the tree. */
  lemma {:induction false} MetInOrder(dir: seq<Name>, node: Node)
    requires DistinctNames(node)
    ensures Sorted(InOrder(dir, node), Files(Met(dir, node)))
    decreases node
  {
    if node.Dir? && node.readable {
      var here, below := Here(dir, node.entries), Below(dir, node.entries);
      assert node.entries[0..] == node.entries;
      HereInOrder(dir, node, 0);
      BelowInOrder(dir, node, 0);
      forall x, y | x in Files(here) && y in Files(below) ensures InOrder(dir, node)(x, y) {
        InHere(dir, node.entries, x);
        InBelow(dir, node.entries, y);
        var m :| 0 <= m < |node.entries| && y in Files(Met(dir + [node.entries[m].name], node.entries[m].node));
        ViaEntry(dir, node, y, m);
      }
      FilesConcat(here, below);
      SortedConcat(InOrder(dir, node), Files(here), Files(below));
    }
  }

  // ---- the same tree, enumerated otherwise ----

  /** The two trees differ at most in the order of the entries of their directories. */
  ghost predicate SameTree(a: Node, b: Node)
    decreases a
  {
    if !a.Dir? then a == b
    else
      && b.Dir? && b.readable == a.readable
      && (forall j :: 0 <= j < |b.entries| ==> Index(a.entries, b.entries[j].name) < |a.entries|)
      && forall i :: 0 <= i < |a.entries| ==>
           var j := Index(b.entries, a.entries[i].name);
           j < |b.entries| && SameTree(a.entries[i].node, b.entries[j].node)
  }

  lemma {:induction false} SameFiles(a: Node, b: Node, p: seq<Name>)
    requires SameTree(a, b)
    ensures FileAt(a, p) == FileAt(b, p)
    decreases |p|
  {
    if a.Dir? && a.readable && p != [] {
      var i, j := Index(a.entries, p[0]), Index(b.entries, p[0]);
      if i < |a.entries| {
        assert a.entries[i].name == p[0];
        SameFiles(a.entries[i].node, b.entries[j].node, p[1..]);
      }
    }
  }

  /** The directory of `p` is a proper ancestor of that of `q`. */
  predicate Ancestor(p: Path, q: Path) {
    |p| < |q| && p[..|p| - 1] == q[..|p| - 1]
  }

  predicate Related(p: Path, q: Path) {
    Ancestor(p, q) || Ancestor(q, p)
  }

  /** In whatever order, a directory's own files are met before those below its subdirectories. */
  lemma {:induction false} AncestorsFirst(node: Node, p: Path, q: Path)
    requires Ancestor(p, q) && FileAt(node, p).Some?
    ensures First(node, p, q)
    decreases |p|
  {
    if |p| > 1 {
      assert p[..|p| - 1][0] == q[..|p| - 1][0];
      assert p[1..][..|p| - 2] == p[..|p| - 1][1..] && q[1..][..|p| - 2] == q[..|p| - 1][1..];
      AncestorsFirst(node.entries[Index(node.entries, p[0])].node, p[1..], q[1..]);
    }
  }

  function Reversed(node: Node): Node
    decreases node
  {
    if node.Dir? then Dir(node.readable, ReversedEntries(node.entries)) else node
  }

  function ReversedEntries(entries: seq<Entry>): seq<Entry>
    decreases entries, 0
  {
    if entries == [] then []
    else ReversedEntries(entries[1..]) + [Entry(entries[0].name, Reversed(entries[0].node))]
  }

  lemma {:induction false} ReversedEntry(entries: seq<Entry>, i: nat)
    requires i < |entries|
    ensures |ReversedEntries(entries)| == |entries|
    ensures ReversedEntries(entries)[|entries| - 1 - i] == Entry(entries[i].name, Reversed(entries[i].node))
  {
    if |entries| > 1 {
      var rest := entries[1..];
      ReversedEntry(rest, if i > 0 then i - 1 else 0);
    }
  }

  lemma ReversedDistinct(entries: seq<Entry>)
    requires DistinctEntries(entries)
    ensures |ReversedEntries(entries)| == |entries| && DistinctEntries(ReversedEntries(entries))
  {
    var b, n := ReversedEntries(entries), |entries|;
    if n > 0 {
      ReversedEntry(entries, 0);
    }
    forall i, j | 0 <= i < j < n ensures b[i].name != b[j].name {
      ReversedEntry(entries, n - 1 - i);
      ReversedEntry(entries, n - 1 - j);
      assert entries[n - 1 - j].name != entries[n - 1 - i].name;
    }
  }

  lemma ReversedIndex(entries: seq<Entry>, i: nat)
    requires DistinctEntries(entries) && i < |entries|
    ensures |ReversedEntries(entries)| == |entries|
    ensures Index(ReversedEntries(entries), entries[i].name) == |entries| - 1 - i
  {
    ReversedDistinct(entries);
    ReversedEntry(entries, i);
    IndexOfEntry(ReversedEntries(entries), |entries| - 1 - i);
  }

  lemma {:induction false} ReversedHasDistinctNames(node: Node)
    requires DistinctNames(node)
    ensures DistinctNames(Reversed(node))
    decreases node
  {
    if node.Dir? {
      var a, b := node.entries, ReversedEntries(node.entries);
      ReversedDistinct(a);
      forall j | 0 <= j < |b| ensures DistinctNames(b[j].node) {
        ReversedEntry(a, |a| - 1 - j);
        ReversedHasDistinctNames(a[|a| - 1 - j].node);
      }
    }
  }

  lemma {:induction false} ReversedIsSame(node: Node)
    requires DistinctNames(node)
    ensures SameTree(node, Reversed(node))
    decreases node
  {
    if node.Dir? {
      var a, b := node.entries, ReversedEntries(node.entries);
      ReversedDistinct(a);
      forall j | 0 <= j < |b| ensures Index(a, b[j].name) < |a| {
        ReversedEntry(a, |a| - 1 - j);
        IndexOfEntry(a, |a| - 1 - j);
      }
      forall i | 0 <= i < |a|
        ensures var j := Index(b, a[i].name); j < |b| && SameTree(a[i].node, b[j].node)
      {
        ReversedEntry(a, i);
        ReversedIndex(a, i);
        ReversedIsSame(a[i].node);
      }
    }
  }

  /** Reversing every directory turns round any two files of which neither must come first. */
  lemma {:induction false} ReversingFlips(node: Node, p: Path, q: Path)
    requires DistinctNames(node) && p != q && !Related(p, q)
    requires FileAt(node, p).Some? && FileAt(node, q).Some? && First(node, p, q)
    ensures First(Reversed(node), q, p)
    decreases |p|
  {
    var i, j := Index(node.entries, p[0]), Index(node.entries, q[0]);
    ReversedIndex(node.entries, i);
    ReversedIndex(node.entries, j);
    if |p| == 1 {
      assert |q| > 1 ==> Ancestor(p, q);
    } else if p[0] == q[0] && |q| > 1 {
      ReversedEntry(node.entries, i);
      assert p == [p[0]] + p[1..] && q == [p[0]] + q[1..];
      AncestorBelow(p[0], p[1..], q[1..]);
      AncestorBelow(p[0], q[1..], p[1..]);
      ReversingFlips(node.entries[i].node, p[1..], q[1..]);
    }
  }

  lemma AncestorBelow(name: Name, p: Path, q: Path)
    ensures Ancestor([name] + p, [name] + q) <==> Ancestor(p, q)
  {
    assert ([name] + p)[..|p|] == [name] + p[..|p| - 1];
    if |p| < |q| {
      var a, b := p[..|p| - 1], q[..|p| - 1];
      assert ([name] + q)[..|p|] == [name] + b;
      assert ([name] + a)[1..] == a && ([name] + b)[1..] == b;
    }
  }

  // ---- the listing ----

  /** The files of the whole tree in the order of the listing. */
  function Arranged(lossy: seq<byte> -> seq<byte>, root: Node): seq<Found> {
    Sort(ByShown(lossy), Files(Met([], root)))
  }

  lemma ByShownIsOrder(lossy: seq<byte> -> seq<byte>)
    ensures TotalOrder(ByShown(lossy))
  {
    forall a, b ensures ByShown(lossy)(a, b) || ByShown(lossy)(b, a) {
      LexTotal(Shown(lossy, a.at), Shown(lossy, b.at));
    }
    forall a, b, c | ByShown(lossy)(a, b) && ByShown(lossy)(b, c) ensures ByShown(lossy)(a, c) {
      LexTransitive(Shown(lossy, a.at), Shown(lossy, b.at), Shown(lossy, c.at));
    }
  }

  lemma InTree(root: Node, x: Found)
    requires DistinctNames(root)
    ensures x in Files(Met([], root)) <==> FileAt(root, x.at) == Some(x.size)
  {
    MetIsFileAt([], root, x);
    assert x.at[..0] == [] && x.at[0..] == x.at;
  }

  lemma InOrderIsFirst(root: Node, x: Found, y: Found)
    ensures InOrder([], root)(x, y) <==> First(root, x.at, y.at)
  {
    assert x.at[0..] == x.at && y.at[0..] == y.at;
  }

  lemma FilesAreDistinct(root: Node)
    requires DistinctNames(root)
    ensures NoRepeats(Files(Met([], root)))
  {
    var files := Files(Met([], root));
    MetInOrder([], root);
    forall i, j | 0 <= i < j < |files| ensures files[i] != files[j] {
      assert InOrder([], root)(files[i], files[j]);
      FirstIsAsymmetric(root, files[i].at[0..], files[j].at[0..]);
    }
  }

  lemma ArrangedIsExact(lossy: seq<byte> -> seq<byte>, root: Node)
    requires DistinctNames(root)
    ensures Sorted(Ties(ByShown(lossy), InOrder([], root)), Arranged(lossy, root))
    ensures NoRepeats(Arranged(lossy, root))
    ensures forall x :: x in Arranged(lossy, root) <==> FileAt(root, x.at) == Some(x.size)
  {
    var files := Files(Met([], root));
    ByShownIsOrder(lossy);
    MetInOrder([], root);
    SortStable(ByShown(lossy), InOrder([], root), files);
    SortPermutes(ByShown(lossy), files);
    FilesAreDistinct(root);
    PermutationNoRepeats(files, Arranged(lossy, root));
    forall x ensures x in Arranged(lossy, root) <==> FileAt(root, x.at) == Some(x.size) {
      SameElements(files, Arranged(lossy, root), x);
      InTree(root, x);
    }
  }

  /** Of any two different files shown under one path, one lies in a directory above the other's. */
  ghost predicate Settled(lossy: seq<byte> -> seq<byte>, root: Node) {
    forall x: Found, y: Found ::
      FileAt(root, x.at) == Some(x.size) && FileAt(root, y.at) == Some(y.size)
      && x.at != y.at && Shown(lossy, x.at) == Shown(lossy, y.at)
      ==> Related(x.at, y.at)
  }

  lemma SettledKeepsOrder(lossy: seq<byte> -> seq<byte>, a: Node, b: Node)
    requires DistinctNames(a) && DistinctNames(b) && SameTree(a, b) && Settled(lossy, a)
    ensures Sorted(Ties(ByShown(lossy), InOrder([], a)), Arranged(lossy, b))
  {
    ArrangedIsExact(lossy, b);
    var s := Arranged(lossy, b);
    forall i, j | 0 <= i < j < |s| ensures Ties(ByShown(lossy), InOrder([], a))(s[i], s[j]) {
      assert Ties(ByShown(lossy), InOrder([], b))(s[i], s[j]);
      if ByShown(lossy)(s[j], s[i]) {
        LexAntisymmetric(Shown(lossy, s[i].at), Shown(lossy, s[j].at));
        assert s[i] in s && s[j] in s;
        SameOrderIfRelated(lossy, a, b, s[i], s[j]);
      }
    }
  }

  lemma SameOrderIfRelated(lossy: seq<byte> -> seq<byte>, a: Node, b: Node, x: Found, y: Found)
    requires SameTree(a, b) && Settled(lossy, a) && Shown(lossy, x.at) == Shown(lossy, y.at)
    requires FileAt(b, x.at) == Some(x.size) && FileAt(b, y.at) == Some(y.size)
    requires InOrder([], b)(x, y)
    ensures InOrder([], a)(x, y)
  {
    InOrderIsFirst(b, x, y);
    InOrderIsFirst(a, x, y);
    SameFiles(a, b, x.at);
    SameFiles(a, b, y.at);
    FirstIsAsymmetric(b, x.at, y.at);
    if Ancestor(y.at, x.at) {
      AncestorsFirst(b, y.at, x.at);
    } else {
      AncestorsFirst(a, x.at, y.at);
    }
  }

  lemma SettledIsUnique(lossy: seq<byte> -> seq<byte>, a: Node, b: Node)
    requires DistinctNames(a) && DistinctNames(b) && SameTree(a, b) && Settled(lossy, a)
    ensures Arranged(lossy, b) == Arranged(lossy, a)
  {
    var order := Ties(ByShown(lossy), InOrder([], a));
    var s, t := Arranged(lossy, a), Arranged(lossy, b);
    ArrangedIsExact(lossy, a);
    ArrangedIsExact(lossy, b);
    SettledKeepsOrder(lossy, a, b);
    forall x ensures x in s <==> x in t {
      SameFiles(a, b, x.at);
    }
    SameSetPermutes(s, t);
    forall x, y ensures !(order(x, y) && order(y, x)) {
      FirstIsAsymmetric(a, x.at[0..], y.at[0..]);
    }
    SortedUnique(order, s, t);
  }

  /** Two unrelated files under one path come out the other way round when every directory is reversed. */
  lemma UnsettledVaries(lossy: seq<byte> -> seq<byte>, a: Node, x: Found, y: Found)
    requires DistinctNames(a)
    requires FileAt(a, x.at) == Some(x.size) && FileAt(a, y.at) == Some(y.size)
    requires x.at != y.at && Shown(lossy, x.at) == Shown(lossy, y.at) && !Related(x.at, y.at)
    ensures Arranged(lossy, Reversed(a)) != Arranged(lossy, a)
  {
    var b := Reversed(a);
    ReversedHasDistinctNames(a);
    ArrangedIsExact(lossy, a);
    ArrangedIsExact(lossy, b);
    var s := Arranged(lossy, a);
    if Arranged(lossy, b) == s {
      var i :| 0 <= i < |s| && s[i] == x;
      var j :| 0 <= j < |s| && s[j] == y;
      if i < j {
        OrderFlips(lossy, a, x, y);
      } else {
        OrderFlips(lossy, a, y, x);
      }
    }
  }

  lemma OrderFlips(lossy: seq<byte> -> seq<byte>, a: Node, x: Found, y: Found)
    requires DistinctNames(a) && FileAt(a, x.at).Some? && FileAt(a, y.at).Some?
    requires x.at != y.at && Shown(lossy, x.at) == Shown(lossy, y.at) && !Related(x.at, y.at)
    ensures !(Ties(ByShown(lossy), InOrder([], a))(x, y) && Ties(ByShown(lossy), InOrder([], Reversed(a)))(x, y))
  {
    InOrderIsFirst(a, x, y);
    InOrderIsFirst(Reversed(a), x, y);
    LexTotal(Shown(lossy, x.at), Shown(lossy, y.at));
    if First(a, x.at, y.at) {
      ReversingFlips(a, x.at, y.at);
      FirstIsAsymmetric(Reversed(a), x.at, y.at);
    }
  }

  /**
    In whatever order directories yield their entries, the same files come out in the
    same order: exactly when of any two files shown under one path, one lies in a
    directory above the other's.
   */
  lemma ListingUniqueIff(lossy: seq<byte> -> seq<byte>, a: Node)
    requires DistinctNames(a)
    ensures Settled(lossy, a)
       <==> forall b :: SameTree(a, b) && DistinctNames(b) ==> Arranged(lossy, b) == Arranged(lossy, a)
  {
    if Settled(lossy, a) {
      forall b | SameTree(a, b) && DistinctNames(b) ensures Arranged(lossy, b) == Arranged(lossy, a) {
        SettledIsUnique(lossy, a, b);
      }
    } else {
      var x: Found, y: Found :| FileAt(a, x.at) == Some(x.size) && FileAt(a, y.at) == Some(y.size)
        && x.at != y.at && Shown(lossy, x.at) == Shown(lossy, y.at) && !Related(x.at, y.at);
      UnsettledVaries(lossy, a, x, y);
      ReversedIsSame(a);
      ReversedHasDistinctNames(a);
    }
  }

  lemma ArrangedIsSorted(lossy: seq<byte> -> seq<byte>, root: Node)
    ensures var files := Arranged(lossy, root);
            forall i, j :: 0 <= i < j < |files| ==> LexLe(Shown(lossy, files[i].at), Shown(lossy, files[j].at))
  {
    ByShownIsOrder(lossy);
    SortSorted(ByShown(lossy), Files(Met([], root)));
    var files := Arranged(lossy, root);
    assert forall i, j :: 0 <= i < j < |files| ==> ByShown(lossy)(files[i], files[j]);
  }

  /** What a peer is sent: as many files of the tree as fit under the cap, none twice; all of
      them, sorted by the path shown, if there are fewer than a thousand. */
  lemma ListingIsExact(lossy: seq<byte> -> seq<byte>, root: Node) returns (files: seq<Found>)
    requires DistinctNames(root)
    ensures Listing(lossy, Met([], root)) == Map(Show(lossy), files) && NoRepeats(files)
    ensures forall x: Found :: x in files ==> FileAt(root, x.at) == Some(x.size)
    ensures var all := |Files(Met([], root))|;
            |files| == if all < 1000 then all else 1000
    ensures |files| < 1000 ==>
              && files == Arranged(lossy, root)
              && (forall i, j :: 0 <= i < j < |files| ==>
                    LexLe(Shown(lossy, files[i].at), Shown(lossy, files[j].at)))
              && forall x: Found :: FileAt(root, x.at) == Some(x.size) ==> x in files
  {
    var met := Met([], root);
    CutIsPart(met);
    if met != [] && |Files(met[..|met| - 1])| >= MAX_LISTED_FILES {
      CutListing(root);
      files := Files(met)[..MAX_LISTED_FILES];
    } else {
      files := Arranged(lossy, root);
      WholeListing(lossy, root);
      SeenAtMostMax(lossy, met);
    }
  }

  lemma CutListing(root: Node)
    requires DistinctNames(root) && |Files(Met([], root))| >= MAX_LISTED_FILES
    ensures var files := Files(Met([], root))[..MAX_LISTED_FILES];
            NoRepeats(files) && forall x: Found :: x in files ==> FileAt(root, x.at) == Some(x.size)
  {
    FilesAreDistinct(root);
    var all := Files(Met([], root));
    forall x | x in all[..MAX_LISTED_FILES] ensures FileAt(root, x.at) == Some(x.size) {
      assert x in all;
      InTree(root, x);
    }
  }

  lemma WholeListing(lossy: seq<byte> -> seq<byte>, root: Node)
    requires DistinctNames(root)
    ensures var files := Arranged(lossy, root);
            && |files| == |Files(Met([], root))| && NoRepeats(files)
            && (forall x: Found :: x in files <==> FileAt(root, x.at) == Some(x.size))
            && forall i, j :: 0 <= i < j < |files| ==> LexLe(Shown(lossy, files[i].at), Shown(lossy, files[j].at))
  {
    ArrangedIsExact(lossy, root);
    ArrangedIsSorted(lossy, root);
    SortPermutes(ByShown(lossy), Files(Met([], root)));
  }

  lemma CutIsPart(met: seq<Option<Found>>)
    ensures met != [] ==> var before := Files(met[..|met| - 1]);
                          |before| <= |Files(met)| && before == Files(met)[..|before|]
  {
    if met != [] {
      FilesConcat(met[..|met| - 1], [met[|met| - 1]]);
      assert met == met[..|met| - 1] + [met[|met| - 1]];
    }
  }

  /** Then the listing as it is sent does not depend on the order either. */
  lemma SettledListing(lossy: seq<byte> -> seq<byte>, a: Node, b: Node)
    requires DistinctNames(a) && DistinctNames(b) && SameTree(a, b) && Settled(lossy, a)
    requires |Files(Met([], a))| < MAX_LISTED_FILES
    ensures Listing(lossy, Met([], b)) == Listing(lossy, Met([], a))
  {
    SettledIsUnique(lossy, a, b);
    SortPermutes(ByShown(lossy), Files(Met([], a)));
    SortPermutes(ByShown(lossy), Files(Met([], b)));
    CutIsPart(Met([], a));
    CutIsPart(Met([], b));
  }

  lemma SameCount(a: Node, b: Node)
    requires DistinctNames(a) && DistinctNames(b) && SameTree(a, b)
    ensures |Files(Met([], a))| == |Files(Met([], b))|
  {
    var s, t := Files(Met([], a)), Files(Met([], b));
    FilesAreDistinct(a);
    FilesAreDistinct(b);
    forall x ensures x in s <==> x in t {
      InTree(a, x);
      InTree(b, x);
      SameFiles(a, b, x.at);
    }
    SameSetPermutes(s, t);
    assert |multiset(s)| == |s| && |multiset(t)| == |t|;
  }

  // ---- names that tell files apart, and names that do not ----

  predicate PlainName(name: Name) {
    SeparatorFree(name, SLASH) && SeparatorFree(name, BACKSLASH) && Utf8.Valid(name)
  }

  /** Every name in the tree is valid text without a slash or a backslash. */
  ghost predicate PlainNames(node: Node)
    decreases node
  {
    node.Dir? ==> forall i :: 0 <= i < |node.entries| ==>
      PlainName(node.entries[i].name) && PlainNames(node.entries[i].node)
  }

  /** Making text valid leaves valid text alone. */
  ghost predicate KeepsText(lossy: seq<byte> -> seq<byte>) {
    forall text :: Utf8.Valid(text) ==> lossy(text) == text
  }

  lemma {:induction false} PlainComponents(node: Node, p: seq<Name>)
    requires PlainNames(node) && FileAt(node, p).Some?
    ensures forall i :: 0 <= i < |p| ==> PlainName(p[i])
    decreases |p|
  {
    if |p| > 1 {
      PlainComponents(node.entries[Index(node.entries, p[0])].node, p[1..]);
      assert forall i :: 1 <= i < |p| ==> p[i] == p[1..][i - 1];
    }
  }

  lemma {:induction false} JoinHasNoBackslash(p: Path)
    requires forall i :: 0 <= i < |p| ==> SeparatorFree(p[i], BACKSLASH)
    ensures SeparatorFree(Join(p, SLASH), BACKSLASH)
  {
    if |p| > 1 {
      JoinHasNoBackslash(p[1..]);
    }
  }

  lemma PlainIsShownAsIs(lossy: seq<byte> -> seq<byte>, p: Path)
    requires KeepsText(lossy) && forall i :: 0 <= i < |p| ==> PlainName(p[i])
    ensures Shown(lossy, p) == Join(p, SLASH)
  {
    Utf8.ValidJoin(p, SLASH);
    JoinHasNoBackslash(p);
  }

  /** With plain names different files are shown under different paths, and so the listing is settled. */
  lemma PlainNamesSettle(lossy: seq<byte> -> seq<byte>, root: Node)
    requires KeepsText(lossy) && PlainNames(root)
    ensures forall p: Path, q: Path :: FileAt(root, p).Some? && FileAt(root, q).Some? ==>
              (Shown(lossy, p) == Shown(lossy, q) <==> p == q)
    ensures Settled(lossy, root)
  {
    forall p: Path, q: Path | FileAt(root, p).Some? && FileAt(root, q).Some? && Shown(lossy, p) == Shown(lossy, q)
      ensures p == q
    {
      PlainComponents(root, p);
      PlainComponents(root, q);
      PlainIsShownAsIs(lossy, p);
      PlainIsShownAsIs(lossy, q);
      JoinInjective(p, q, SLASH);
    }
  }

  function Letter(c: char): Name
    requires c as int < 0x80
  {
    [c as int]
  }

  /** A directory holding one directory or file. */
  function Holding(name: Name, node: Node): Directory {
    Dir(true, [Entry(name, node)])
  }

  /** The directory a\b with a file c of size 1. */
  function Backslashed(): Entry {
    Entry(Letter('a') + [BACKSLASH] + Letter('b'), Holding(Letter('c'), File(1)))
  }

  /** The directory a with a directory b with a file c of size 2. */
  function Nested(): Entry {
    Entry(Letter('a'), Holding(Letter('b'), Holding(Letter('c'), File(2))))
  }

  lemma MetCons(dir: seq<Name>, e: Entry, rest: seq<Entry>)
    ensures Here(dir, [e] + rest)
         == [if e.node.File? then Some(Found(dir + [e.name], e.node.size)) else None] + Here(dir, rest)
    ensures Below(dir, [e] + rest) == Below(dir, rest) + Met(dir + [e.name], e.node)
  {
    assert ([e] + rest)[1..] == rest;
  }

  lemma MetInOne(dir: seq<Name>, name: Name, node: Node)
    ensures Files(Met(dir, Holding(name, node)))
         == if node.File? then [Found(dir + [name], node.size)] else Files(Met(dir + [name], node))
  {
    var e := Entry(name, node);
    FilesConcat(Here(dir, [e]), Below(dir, [e]));
    MetCons(dir, e, []);
    assert [e] + [] == [e];
    assert Here(dir, [e]) == [if node.File? then Some(Found(dir + [name], node.size)) else None];
    assert Below(dir, [e]) == Met(dir + [name], node);
  }

  lemma HereTwo(e: Entry, f: Entry)
    requires e.node.Dir? && f.node.Dir?
    ensures Files(Here([], [e, f])) == []
  {
    MetCons([], e, [f]);
    MetCons([], f, []);
    assert [e] + [f] == [e, f] && [f] + [] == [f];
    var none: Option<Found> := None;
    FilesConcat([none], [none]);
    assert Here([], [e, f]) == [none] + [none];
  }

  lemma BelowTwo(e: Entry, f: Entry)
    ensures Below([], [e, f]) == Met([f.name], f.node) + Met([e.name], e.node)
  {
    var p, q := Met([f.name], f.node), Met([e.name], e.node);
    MetCons([], e, [f]);
    MetCons([], f, []);
    assert [e] + [f] == [e, f] && [f] + [] == [f];
    assert [] + [f.name] == [f.name] && [] + [e.name] == [e.name];
    assert Below([], [f]) == [] + p == p;
    assert Below([], [e, f]) == p + q;
  }

  lemma MetInTwo(e: Entry, f: Entry)
    requires e.node.Dir? && f.node.Dir?
    ensures Files(Met([], Dir(true, [e, f]))) == Files(Met([f.name], f.node)) + Files(Met([e.name], e.node))
  {
    FilesConcat(Here([], [e, f]), Below([], [e, f]));
    HereTwo(e, f);
    BelowTwo(e, f);
    FilesConcat(Met([f.name], f.node), Met([e.name], e.node));
  }

  lemma FileInOne(dir: seq<Name>, name: Name, size: nat)
    ensures Files(Met(dir, Holding(name, File(size)))) == [Found(dir + [name], size)]
  {
    MetInOne(dir, name, File(size));
  }

  lemma MetInExamples()
    ensures Files(Met([Backslashed().name], Backslashed().node)) == [Found([Backslashed().name, Letter('c')], 1)]
    ensures Files(Met([Nested().name], Nested().node)) == [Found([Letter('a'), Letter('b'), Letter('c')], 2)]
  {
    FileInFlat(Backslashed().name, Letter('c'), 1);
    FileInTwo(Letter('a'), Letter('b'), Letter('c'), 2);
  }

  lemma FileInFlat(a: Name, c: Name, size: nat)
    ensures Files(Met([a], Holding(c, File(size)))) == [Found([a, c], size)]
  {
    FileInOne([a], c, size);
    assert [a] + [c] == [a, c];
  }

  lemma FileInTwo(a: Name, b: Name, c: Name, size: nat)
    ensures Files(Met([a], Holding(b, Holding(c, File(size))))) == [Found([a, b, c], size)]
  {
    MetInOne([a], b, Holding(c, File(size)));
    assert [a] + [b] == [a, b];
    FileInOne([a, b], c, size);
    assert [a, b] + [c] == [a, b, c];
  }

  lemma ShownAlike(lossy: seq<byte> -> seq<byte>)
    requires KeepsText(lossy)
    ensures Shown(lossy, [Backslashed().name, Letter('c')])
         == Shown(lossy, [Letter('a'), Letter('b'), Letter('c')]) == Ascii("a/b/c")
  {
    var p, q := [Backslashed().name, Letter('c')], [Letter('a'), Letter('b'), Letter('c')];
    assert p[1..] == [Letter('c')] && q[1..] == [Letter('b'), Letter('c')] && q[1..][1..] == [Letter('c')];
    assert Join(p, SLASH) == [0x61, BACKSLASH, 0x62, SLASH, 0x63];
    assert Join(q, SLASH) == [0x61, SLASH, 0x62, SLASH, 0x63];
    Utf8.ValidAscii(Join(p, SLASH));
    Utf8.ValidAscii(Join(q, SLASH));
  }

  lemma ListingOfTwo(lossy: seq<byte> -> seq<byte>, e: Entry, f: Entry, x: Found, y: Found)
    requires e.node.Dir? && Files(Met([e.name], e.node)) == [y]
    requires f.node.Dir? && Files(Met([f.name], f.node)) == [x]
    requires Shown(lossy, x.at) == Shown(lossy, y.at)
    ensures Listing(lossy, Met([], Dir(true, [e, f]))) == [Show(lossy)(x), Show(lossy)(y)]
  {
    MetInTwo(e, f);
    CutIsPart(Met([], Dir(true, [e, f])));
    SortOfTwo(lossy, x, y);
    assert [x] + [y] == [x, y];
  }

  lemma SortOfTwo(lossy: seq<byte> -> seq<byte>, x: Found, y: Found)
    requires Shown(lossy, x.at) == Shown(lossy, y.at)
    ensures Sort(ByShown(lossy), [x, y]) == [x, y]
  {
    LexTotal(Shown(lossy, x.at), Shown(lossy, x.at));
    assert Sort(ByShown(lossy), [y]) == [y];
    SortCons(ByShown(lossy), x, [y]);
    assert [x] + [y] == [x, y];
  }

  lemma ExamplesAreOneTree(a: Node, b: Node)
    requires a == Dir(true, [Backslashed(), Nested()]) && b == Dir(true, [Nested(), Backslashed()])
    ensures DistinctNames(a) && DistinctNames(b) && SameTree(a, b)
  {
    var one, two := Backslashed(), Nested();
    IndexOfEntry(a.entries, 0);
    IndexOfEntry(a.entries, 1);
    IndexOfEntry(b.entries, 0);
    IndexOfEntry(b.entries, 1);
    OneEntryTree(Letter('c'), File(1));
    OneEntryTree(Letter('c'), File(2));
    OneEntryTree(Letter('b'), Holding(Letter('c'), File(2)));
  }

  lemma OneEntryTree(name: Name, node: Node)
    requires DistinctNames(node) && SameTree(node, node)
    ensures DistinctNames(Holding(name, node)) && SameTree(Holding(name, node), Holding(name, node))
  {
    IndexOfEntry([Entry(name, node)], 0);
  }

  /** It does vary: a\b/c and a/b/c are both shown as a/b/c, in the order of their directories. */
  lemma ListingCanVary(lossy: seq<byte> -> seq<byte>)
    requires KeepsText(lossy)
    ensures var a, b := Dir(true, [Backslashed(), Nested()]), Dir(true, [Nested(), Backslashed()]);
            && DistinctNames(a) && DistinctNames(b) && SameTree(a, b)
            && Listing(lossy, Met([], a)) == [SharedFile(Ascii("a/b/c"), 2), SharedFile(Ascii("a/b/c"), 1)]
            && Listing(lossy, Met([], b)) == [SharedFile(Ascii("a/b/c"), 1), SharedFile(Ascii("a/b/c"), 2)]
  {
    var one, two := Backslashed(), Nested();
    ExamplesAreOneTree(Dir(true, [one, two]), Dir(true, [two, one]));
    MetInExamples();
    ShownAlike(lossy);
    var x, y := Found([one.name, Letter('c')], 1), Found([Letter('a'), Letter('b'), Letter('c')], 2);
    ListingOfTwo(lossy, one, two, y, x);
    ListingOfTwo(lossy, two, one, x, y);
  }
}

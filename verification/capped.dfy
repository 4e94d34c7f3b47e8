/**
  Which files of a tree with more than a thousand are listed, and when that depends on the
  order in which directories yield their entries (crates/intraweb-cli/src/api.rs:305-319).
 */
module Capped {
  import opened Wrappers
  import opened Bytes
  import opened Sorting
  import opened Walk
  import opened Enumeration

  /** The first files met, as many as are listed of a large tree. */
  function Kept(root: Node): seq<Found> {
    var files := Files(Met([], root));
    if |files| > MAX_LISTED_FILES then files[..MAX_LISTED_FILES] else files
  }

  lemma OverCapIsCut(lossy: seq<byte> -> seq<byte>, root: Node)
    requires |Files(Met([], root))| > MAX_LISTED_FILES
    ensures Listing(lossy, Met([], root)) == Map(Show(lossy), Kept(root))
  {
    var met := Met([], root);
    CutIsPart(met);
    if |Files(met[..|met| - 1])| < MAX_LISTED_FILES {
      SeenAtMostMax(lossy, met);
    }
  }

  /** Each of the first thousand files met lies in a directory above that of every later one. */
  ghost predicate Nested(root: Node) {
    var files := Files(Met([], root));
    forall i, j :: 0 <= i < j < |files| && i < MAX_LISTED_FILES ==> Ancestor(files[i].at, files[j].at)
  }

  lemma MetBefore(root: Node, i: nat, j: nat)
    requires DistinctNames(root) && i < j < |Files(Met([], root))|
    ensures var files := Files(Met([], root));
            First(root, files[i].at, files[j].at) && FileAt(root, files[i].at).Some? && FileAt(root, files[j].at).Some?
            && files[i].at != files[j].at
  {
    var files := Files(Met([], root));
    MetInOrder([], root);
    assert InOrder([], root)(files[i], files[j]);
    InOrderIsFirst(root, files[i], files[j]);
    FirstIsAsymmetric(root, files[i].at, files[j].at);
    InTree(root, files[i]);
    InTree(root, files[j]);
  }

  ghost predicate SameFilesIn(a: Node, b: Node) {
    forall p :: FileAt(a, p) == FileAt(b, p)
  }

  lemma SameTreesSameFiles(a: Node, b: Node)
    requires SameTree(a, b)
    ensures SameFilesIn(a, b) && SameFilesIn(b, a)
  {
    forall p ensures FileAt(a, p) == FileAt(b, p) {
      SameFiles(a, b, p);
    }
  }

  lemma PlaceIn(a: Node, b: Node, i: nat) returns (p: nat)
    requires DistinctNames(a) && DistinctNames(b) && SameFilesIn(a, b) && i < |Files(Met([], a))|
    ensures p < |Files(Met([], b))| && Files(Met([], b))[p] == Files(Met([], a))[i]
  {
    var x := Files(Met([], a))[i];
    InTree(a, x);
    InTree(b, x);
    p :| 0 <= p < |Files(Met([], b))| && Files(Met([], b))[p] == x;
  }

  /** If the first `k` files of two enumerations are the same, so is the next. */
  lemma NextIsSame(a: Node, b: Node, k: nat)
    requires DistinctNames(a) && DistinctNames(b) && SameTree(a, b) && Nested(a)
    requires k < MAX_LISTED_FILES && k < |Files(Met([], a))| && k < |Files(Met([], b))|
    requires Files(Met([], a))[..k] == Files(Met([], b))[..k]
    ensures Files(Met([], a))[k] == Files(Met([], b))[k]
  {
    var s, t := Files(Met([], a)), Files(Met([], b));
    FilesAreDistinct(a);
    FilesAreDistinct(b);
    SameTreesSameFiles(a, b);
    var p := PlaceIn(a, b, k);
    var q := PlaceIn(b, a, k);
    assert forall i :: 0 <= i < k ==> s[..k][i] == s[i] && t[..k][i] == t[i];
    if p > k && q > k {
      MetBefore(b, k, p);
      MetBefore(a, k, q);
      AncestorsFirst(b, s[k].at, s[q].at);
      FirstIsAsymmetric(b, s[k].at, t[k].at);
    }
  }

  lemma {:induction false} NestedIsFixed(a: Node, b: Node, k: nat)
    requires DistinctNames(a) && DistinctNames(b) && SameTree(a, b) && Nested(a)
    requires |Files(Met([], a))| == |Files(Met([], b))| && k <= MAX_LISTED_FILES && k <= |Files(Met([], a))|
    ensures Files(Met([], a))[..k] == Files(Met([], b))[..k]
  {
    if k > 0 {
      var s, t := Files(Met([], a)), Files(Met([], b));
      NestedIsFixed(a, b, k - 1);
      NextIsSame(a, b, k - 1);
      assert s[..k] == s[..k - 1] + [s[k - 1]] && t[..k] == t[..k - 1] + [t[k - 1]];
    }
  }

  lemma PrefixesDiffer<T>(s: seq<T>, t: seq<T>, k: nat, n: nat)
    requires k < n <= |s| && n <= |t| && s[k] != t[k]
    ensures s[..n] != t[..n]
  {
    assert s[..n][k] == s[k] && t[..n][k] == t[k];
  }

  lemma FlippedPair(a: Node, p: Path, q: Path)
    requires DistinctNames(a) && p != q && !Ancestor(p, q) && First(a, p, q)
    requires FileAt(a, p).Some? && FileAt(a, q).Some?
    ensures First(Reversed(a), q, p)
  {
    if Ancestor(q, p) {
      AncestorsFirst(a, q, p);
      FirstIsAsymmetric(a, p, q);
    } else {
      ReversingFlips(a, p, q);
    }
  }

  /** Two files of which the first is listed, but need not come first: reversed, the lists part before it. */
  lemma LooseVaries(a: Node, i: nat, j: nat) returns (k: nat)
    requires DistinctNames(a) && i < j < |Files(Met([], a))|
    requires !Ancestor(Files(Met([], a))[i].at, Files(Met([], a))[j].at)
    requires |Files(Met([], Reversed(a)))| == |Files(Met([], a))|
    ensures k <= i && Files(Met([], Reversed(a)))[k] != Files(Met([], a))[k]
  {
    var b := Reversed(a);
    var s, t := Files(Met([], a)), Files(Met([], b));
    ReversedHasDistinctNames(a);
    ReversedIsSame(a);
    SameTreesSameFiles(a, b);
    FilesAreDistinct(a);
    MetBefore(a, i, j);
    FlippedPair(a, s[i].at, s[j].at);
    FirstIsAsymmetric(b, s[i].at, s[j].at);
    var q := PlaceIn(a, b, j);
    if q > i {
      MetBefore(b, i, q);
    }
    k := if q < i then q else i;
  }

  lemma NestedListsSame(a: Node, b: Node)
    requires DistinctNames(a) && DistinctNames(b) && SameTree(a, b) && Nested(a)
    requires |Files(Met([], a))| > MAX_LISTED_FILES
    ensures Kept(b) == Kept(a)
  {
    SameCount(a, b);
    NestedIsFixed(a, b, MAX_LISTED_FILES);
  }

  lemma LooseListsOther(a: Node) returns (b: Node)
    requires DistinctNames(a) && |Files(Met([], a))| > MAX_LISTED_FILES && !Nested(a)
    ensures DistinctNames(b) && SameTree(a, b) && Kept(b) != Kept(a)
  {
    var files := Files(Met([], a));
    var i, j :| 0 <= i < j < |files| && i < MAX_LISTED_FILES && !Ancestor(files[i].at, files[j].at);
    b := Reversed(a);
    ReversedHasDistinctNames(a);
    ReversedIsSame(a);
    SameCount(a, b);
    var k := LooseVaries(a, i, j);
    PrefixesDiffer(Files(Met([], b)), files, k, MAX_LISTED_FILES);
  }

  /**
    Of a tree with more than a thousand files, the same thousand are listed in the same order
    however its directories are enumerated, exactly if each of them lies in a directory above
    that of the next, and all the rest lie below.
   */
  lemma CappedUniqueIff(a: Node)
    requires DistinctNames(a) && |Files(Met([], a))| > MAX_LISTED_FILES
    ensures Nested(a) <==> forall b :: SameTree(a, b) && DistinctNames(b) ==> Kept(b) == Kept(a)
  {
    if Nested(a) {
      forall b | SameTree(a, b) && DistinctNames(b) ensures Kept(b) == Kept(a) {
        NestedListsSame(a, b);
      }
    } else {
      var b := LooseListsOther(a);
    }
  }

  lemma KeptAreFiles(root: Node, i: nat)
    requires DistinctNames(root) && i < |Kept(root)|
    ensures FileAt(root, Kept(root)[i].at) == Some(Kept(root)[i].size)
  {
    assert Kept(root)[i] in Files(Met([], root));
    InTree(root, Kept(root)[i]);
  }

  /** With plain names the listing sent tells which files they are, so the same holds of it. */
  lemma CappedListingUniqueIff(lossy: seq<byte> -> seq<byte>, a: Node)
    requires DistinctNames(a) && |Files(Met([], a))| > MAX_LISTED_FILES && KeepsText(lossy) && PlainNames(a)
    ensures Nested(a)
       <==> forall b :: SameTree(a, b) && DistinctNames(b) ==>
              Listing(lossy, Met([], b)) == Listing(lossy, Met([], a))
  {
    forall b | SameTree(a, b) && DistinctNames(b)
      ensures Listing(lossy, Met([], b)) == Listing(lossy, Met([], a)) <==> Kept(b) == Kept(a)
    {
      SentTellsFiles(lossy, a, b);
    }
    CappedUniqueIff(a);
    if !Nested(a) {
      var b := LooseListsOther(a);
    }
  }

  lemma SentTellsFiles(lossy: seq<byte> -> seq<byte>, a: Node, b: Node)
    requires DistinctNames(a) && DistinctNames(b) && SameTree(a, b) && |Files(Met([], a))| > MAX_LISTED_FILES
    requires KeepsText(lossy) && PlainNames(a)
    ensures Listing(lossy, Met([], b)) == Listing(lossy, Met([], a)) <==> Kept(b) == Kept(a)
  {
    SameCount(a, b);
    SameTreesSameFiles(a, b);
    OverCapIsCut(lossy, a);
    OverCapIsCut(lossy, b);
    PlainNamesSettle(lossy, a);
    var s, t := Kept(a), Kept(b);
    if Map(Show(lossy), t) == Map(Show(lossy), s) {
      forall i | 0 <= i < |s| ensures s[i] == t[i] {
        KeptAreFiles(a, i);
        KeptAreFiles(b, i);
        assert Map(Show(lossy), t)[i] == Map(Show(lossy), s)[i];
      }
    }
  }
}

/** The listing of shared files (crates/intraweb-cli/src/api.rs:292-341). */
module Walk {
  import opened Wrappers
  import opened Bytes
  import opened Sorting

  const MAX_LISTED_FILES := 1000

  type Name = seq<byte>

  /** What a directory entry turns out to be; Unreadable when its metadata cannot be had. The
      entries of a directory stand in the order in which the file system yields them. */
  datatype Node = File(size: nat) | Dir(readable: bool, entries: seq<Entry>) | Symlink | Special | Unreadable

  datatype Entry = Entry(name: Name, node: Node)

  type Directory = n: Node | n.Dir? witness Dir(true, [])

  /** A path below the shared folder, by its components. */
  type Path = p: seq<Name> | p != [] witness [[]]

  datatype Found = Found(at: Path, size: nat)

  datatype SharedFile = SharedFile(path: seq<byte>, size: nat)

  const SLASH: byte := 0x2F
  const BACKSLASH: byte := 0x5C

  function Slashed(text: seq<byte>): seq<byte> {
    seq(|text|, i requires 0 <= i < |text| => if text[i] == BACKSLASH then SLASH else text[i])
  }

  /** How a path is shown: made valid text by `lossy`, then every backslash a slash. */
  function Shown(lossy: seq<byte> -> seq<byte>, path: Path): seq<byte> {
    Slashed(lossy(Join(path, SLASH)))
  }

  function Show(lossy: seq<byte> -> seq<byte>): Found -> SharedFile {
    (f: Found) => SharedFile(Shown(lossy, f.at), f.size)
  }

  predicate ByPath(a: SharedFile, b: SharedFile) {
    LexLe(a.path, b.path)
  }

  function ByShown(lossy: seq<byte> -> seq<byte>): (Found, Found) -> bool {
    (a: Found, b: Found) => LexLe(Shown(lossy, a.at), Shown(lossy, b.at))
  }

  // ---- what the walk meets, in its order ----

  /** The entries of one directory, and for those that are files what is found. */
  function Here(dir: seq<Name>, entries: seq<Entry>): seq<Option<Found>> {
    if entries == [] then []
    else
      var e := entries[0];
      [if e.node.File? then Some(Found(dir + [e.name], e.node.size)) else None] + Here(dir, entries[1..])
  }

  /** What lies below its subdirectories: the last of them is read first, and all below it before the others. */
  function Below(dir: seq<Name>, entries: seq<Entry>): seq<Option<Found>>
    decreases entries, 0
  {
    if entries == [] then []
    else Below(dir, entries[1..]) + Met(dir + [entries[0].name], entries[0].node)
  }

  /** Everything met from a directory on; links are not followed. */
  function Met(dir: seq<Name>, node: Node): seq<Option<Found>>
    decreases node
  {
    if node.Dir? && node.readable then Here(dir, node.entries) + Below(dir, node.entries) else []
  }

  function Files(met: seq<Option<Found>>): seq<Found> {
    if met == [] then [] else (if met[0].Some? then [met[0].value] else []) + Files(met[1..])
  }

  /** The listing of what was met: if something follows the thousandth file, just the
      first thousand, as they were met; else all the files, sorted by the path shown. */
  function Listing(lossy: seq<byte> -> seq<byte>, met: seq<Option<Found>>): seq<SharedFile> {
    if met != [] && |Files(met[..|met| - 1])| >= MAX_LISTED_FILES
    then Map(Show(lossy), Files(met[..|met| - 1])[..MAX_LISTED_FILES])
    else Map(Show(lossy), Sort(ByShown(lossy), Files(met)))
  }

  lemma FilesCons(one: Option<Found>, rest: seq<Option<Found>>)
    ensures Files([one] + rest) == (if one.Some? then [one.value] else []) + Files(rest)
  {
    assert ([one] + rest)[1..] == rest;
  }

  lemma {:induction false} FilesConcat(a: seq<Option<Found>>, b: seq<Option<Found>>)
    ensures Files(a + b) == Files(a) + Files(b)
  {
    if a == [] {
      assert a + b == b;
    } else {
      FilesConcat(a[1..], b);
      FilesCons(a[0], a[1..] + b);
      assert a + b == [a[0]] + (a[1..] + b);
    }
  }

  // ---- the walk ----

  /** Directories still to be read, with their paths: the walk's stack. */
  type Pending = seq<(seq<Name>, Directory)>

  function StillToMeet(stack: Pending): seq<Option<Found>> {
    if stack == [] then []
    else
      var (dir, node) := stack[|stack| - 1];
      Met(dir, node) + StillToMeet(stack[..|stack| - 1])
  }

  lemma PushMeets(stack: Pending, dir: seq<Name>, node: Directory)
    ensures StillToMeet(stack + [(dir, node)]) == Met(dir, node) + StillToMeet(stack)
  {
    assert (stack + [(dir, node)])[..|stack|] == stack;
  }

  /** Between two steps: what was seen, what comes next and what is still on the stack is the whole walk. */
  ghost predicate Progress(lossy: seq<byte> -> seq<byte>, all: seq<Option<Found>>, seen: seq<Option<Found>>,
                           out: seq<SharedFile>, next: seq<Option<Found>>, stack: Pending) {
    && all == seen + (next + StillToMeet(stack))
    && out == Map(Show(lossy), Files(seen))
    && (seen != [] ==> |Files(seen[..|seen| - 1])| < MAX_LISTED_FILES)
  }

  lemma SeenAtMostMax(lossy: seq<byte> -> seq<byte>, seen: seq<Option<Found>>)
    requires seen != [] ==> |Files(seen[..|seen| - 1])| < MAX_LISTED_FILES
    ensures |Files(seen)| <= MAX_LISTED_FILES
  {
    if seen != [] {
      var n := |seen| - 1;
      FilesConcat(seen[..n], [seen[n]]);
      assert seen == seen[..n] + [seen[n]];
    }
  }

  /** One entry: it was next, and now it is seen, or with what lies below it on the stack. */
  lemma TakeOne(lossy: seq<byte> -> seq<byte>, all: seq<Option<Found>>, seen: seq<Option<Found>>,
                out: seq<SharedFile>, dir: seq<Name>, rest: seq<Entry>, stack: Pending)
      returns (seen1: seq<Option<Found>>)
    requires rest != [] && |out| < MAX_LISTED_FILES
    requires Progress(lossy, all, seen, out, Here(dir, rest) + Below(dir, rest), stack)
    ensures var e, next := rest[0], Here(dir, rest[1..]) + Below(dir, rest[1..]);
            && |seen1| == |seen| + 1
            && (e.node.Dir? ==> Progress(lossy, all, seen1, out, next, stack + [(dir + [e.name], e.node)]))
            && (e.node.File? ==>
                  var file := SharedFile(Shown(lossy, dir + [e.name]), e.node.size);
                  Progress(lossy, all, seen1, out + [file], next, stack))
            && (!e.node.Dir? && !e.node.File? ==> Progress(lossy, all, seen1, out, next, stack))
  {
    var e, here, below := rest[0], Here(dir, rest[1..]), Below(dir, rest[1..]);
    var one := Here(dir, rest)[0];
    seen1 := seen + [one];
    SeenOneMore(seen, one);
    MoveOne(seen, one, here, below, Met(dir + [e.name], e.node), StillToMeet(stack));
    if e.node.Dir? {
      PushMeets(stack, dir + [e.name], e.node);
    } else if e.node.File? {
      var found := Found(dir + [e.name], e.node.size);
      MapSnoc(Show(lossy), Files(seen), found);
    }
  }

  lemma SeenOneMore(seen: seq<Option<Found>>, one: Option<Found>)
    ensures (seen + [one])[..|seen|] == seen
    ensures Files(seen + [one]) == Files(seen) + if one.Some? then [one.value] else []
  {
    FilesConcat(seen, [one]);
    FilesCons(one, []);
    assert [one] + [] == [one];
  }

  lemma MoveOne(seen: seq<Option<Found>>, one: Option<Found>, here: seq<Option<Found>>, below: seq<Option<Found>>,
                under: seq<Option<Found>>, later: seq<Option<Found>>)
    ensures seen + ((([one] + here) + (below + under)) + later) == (seen + [one]) + ((here + below) + (under + later))
  {
  }

  /** The cap: what was seen before anything more came is what the listing keeps. */
  lemma CapMet(lossy: seq<byte> -> seq<byte>, all: seq<Option<Found>>, seen: seq<Option<Found>>,
               out: seq<SharedFile>, next: seq<Option<Found>>, stack: Pending)
    requires Progress(lossy, all, seen, out, next, stack) && next != [] && |out| >= MAX_LISTED_FILES
    ensures out == Listing(lossy, all)
  {
    SeenAtMostMax(lossy, seen);
    var later := next + StillToMeet(stack);
    var n := |later| - 1;
    assert all[..|all| - 1] == seen + later[..n];
    FilesConcat(seen, later[..n]);
    assert (Files(seen) + Files(later[..n]))[..MAX_LISTED_FILES] == Files(seen);
  }

  /** One directory: its files are listed and its subdirectories put off; `full` when the cap was met. */
  method WalkDir(lossy: seq<byte> -> seq<byte>, dir: seq<Name>, entries: seq<Entry>, out0: seq<SharedFile>,
                 stack0: Pending, ghost all: seq<Option<Found>>, ghost seen0: seq<Option<Found>>)
    returns (out: seq<SharedFile>, stack: Pending, full: bool, ghost seen: seq<Option<Found>>)
    requires Progress(lossy, all, seen0, out0, Here(dir, entries) + Below(dir, entries), stack0)
    ensures full ==> out == Listing(lossy, all)
    ensures !full ==> Progress(lossy, all, seen, out, [], stack) && |seen| == |seen0| + |entries|
    ensures !full && entries == [] ==> stack == stack0
  {
    out, stack, full, seen := out0, stack0, false, seen0;
    for i := 0 to |entries|
      invariant Progress(lossy, all, seen, out, Here(dir, entries[i..]) + Below(dir, entries[i..]), stack)
      invariant |seen| == |seen0| + i && (i == 0 ==> stack == stack0)
    {
      ghost var rest := entries[i..];
      if |out| >= MAX_LISTED_FILES {
        CapMet(lossy, all, seen, out, Here(dir, rest) + Below(dir, rest), stack);
        return out, stack, true, seen;
      }
      seen := TakeOne(lossy, all, seen, out, dir, rest, stack);
      assert rest[1..] == entries[i + 1..];
      var path, node := dir + [entries[i].name], entries[i].node;
      if node.Symlink? {
        continue;
      }
      if node.Dir? {
        stack := stack + [(path, node)];
      } else if node.File? {
        out := out + [SharedFile(Shown(lossy, path), node.size)];
      }
    }
    assert entries[|entries|..] == [];
  }

  /** The walk lists what Listing says of all that it meets. The root is what opening the shared
      folder yields, through a link if it is one, and nothing readable if it is no directory. */
  method WalkFiles(lossy: seq<byte> -> seq<byte>, root: Directory) returns (out: seq<SharedFile>)
    ensures out == Listing(lossy, Met([], root))
  {
    ghost var all, seen := Met([], root), [];
    var stack: Pending := [([], root)];
    out := [];
    StartOfWalk(lossy, root, stack);
    while stack != []
      invariant Progress(lossy, all, seen, out, [], stack)
      decreases |all| - |seen|, |stack|
    {
      var (dir, node) := stack[|stack| - 1];
      PopMeets(lossy, all, seen, out, stack);
      stack := stack[..|stack| - 1];
      if !node.readable {
        continue;
      }
      var full;
      out, stack, full, seen := WalkDir(lossy, dir, node.entries, out, stack, all, seen);
      if full {
        return;
      }
    }
    EndOfWalk(lossy, all, seen, out);
    out := Sort(ByPath, out);
  }

  lemma StartOfWalk(lossy: seq<byte> -> seq<byte>, root: Directory, stack: Pending)
    requires stack == [([], root)]
    ensures Progress(lossy, Met([], root), [], [], [], stack)
  {
    assert stack[..0] == [];
  }

  /** Taking a directory off the stack: its entries come next. */
  lemma PopMeets(lossy: seq<byte> -> seq<byte>, all: seq<Option<Found>>, seen: seq<Option<Found>>,
                 out: seq<SharedFile>, stack: Pending)
    requires stack != [] && Progress(lossy, all, seen, out, [], stack)
    ensures var (dir, node) := stack[|stack| - 1];
            var fewer := stack[..|stack| - 1];
            Progress(lossy, all, seen, out, Met(dir, node), fewer)
            && (!node.readable ==> Progress(lossy, all, seen, out, [], fewer))
  {
  }

  lemma EndOfWalk(lossy: seq<byte> -> seq<byte>, all: seq<Option<Found>>, seen: seq<Option<Found>>,
                  out: seq<SharedFile>)
    requires Progress(lossy, all, seen, out, [], [])
    ensures Sort(ByPath, out) == Listing(lossy, all)
  {
    assert all == seen;
    SortedAsShown(lossy, Files(seen));
  }

  lemma SortedAsShown(lossy: seq<byte> -> seq<byte>, files: seq<Found>)
    ensures Sort(ByPath, Map(Show(lossy), files)) == Map(Show(lossy), Sort(ByShown(lossy), files))
  {
    MapSort(Show(lossy), ByShown(lossy), ByPath, files);
  }
}

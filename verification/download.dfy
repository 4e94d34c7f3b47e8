/** Resumable download (crates/intraweb-cli/src/http.rs:132-236). */
module Download {
  import opened Wrappers
  import opened Bytes
  import opened Text
  import Decimal

  const MAX_HEAD_BYTES := 16 * 1024

  /** What one run meets: a connection, made or not, on which these bytes arrive in this order and
      then its end, in order or broken; and a file that can be removed or not, opens or not, takes all
      bytes or so many and no more, and is flushed or not. */
  datatype Attempt = Attempt(
    connects: bool,
    bytes: seq<byte>,
    broken: bool,
    chunk: nat -> nat,
    removes: bool,
    canOpen: bool,
    room: Option<nat>,
    flushes: bool)

  datatype Error = NoConnection | ReadFailed | ClosedEarly | HeadTooLarge | BadHead | Refused(status: nat) | CannotWrite

  // ---- the response head ----

  function HeadMark(): seq<byte> { [0x0D, 0x0A, 0x0D, 0x0A] }

  predicate HeadEndsAt(s: seq<byte>, n: nat) {
    4 <= n <= |s| && s[n - 4..n] == HeadMark()
  }

  /** Where the head ends: the first place, from `n` on, right behind CR LF CR LF. */
  function HeadEnd(s: seq<byte>, n: nat): (end: Option<nat>)
    requires n <= |s|
    ensures end.Some? ==> n <= end.value <= |s|
    decreases |s| - n
  {
    if HeadEndsAt(s, n) then Some(n)
    else if n == |s| then None
    else HeadEnd(s, n + 1)
  }

  lemma {:induction false} HeadEndIsFirst(s: seq<byte>, n: nat)
    requires n <= |s|
    ensures var end := HeadEnd(s, n);
            if end.Some? then HeadEndsAt(s, end.value) && forall m :: n <= m < end.value ==> !HeadEndsAt(s, m)
            else forall m :: n <= m <= |s| ==> !HeadEndsAt(s, m)
    decreases |s| - n
  {
    if !HeadEndsAt(s, n) && n < |s| {
      HeadEndIsFirst(s, n + 1);
    }
  }

  lemma HeadEndUnique(s: seq<byte>, n: nat)
    requires HeadEndsAt(s, n) && forall m :: 0 <= m < n ==> !HeadEndsAt(s, m)
    ensures HeadEnd(s, 0) == Some(n)
  {
    HeadEndIsFirst(s, 0);
  }

  lemma HeadEndsInPrefix(s: seq<byte>, n: nat)
    requires n <= |s|
    ensures HeadEndsAt(s[..n], n) <==> HeadEndsAt(s, n)
  {
    if n >= 4 {
      assert s[..n][n - 4..n] == s[n - 4..n];
    }
  }

  function FirstLine(s: seq<byte>): seq<byte> {
    if s == [] || s[0] == 0x0A then [] else [s[0]] + FirstLine(s[1..])
  }

  /** The second word of the status line, as a `u16`. */
  function Status(head: seq<byte>): Option<nat> {
    Decimal.Parse(Word(TrimStart(SkipWord(TrimStart(FirstLine(head))))), 0x1_0000)
  }

  lemma {:induction false} FirstLineOf(s: seq<byte>, rest: seq<byte>)
    requires forall i :: 0 <= i < |s| ==> s[i] != 0x0A
    ensures FirstLine(s + [0x0A] + rest) == s
  {
    if s != [] {
      assert (s + [0x0A] + rest)[1..] == s[1..] + [0x0A] + rest;
      FirstLineOf(s[1..], rest);
    }
  }

  /** Of any status line the status read is the code in it, whatever protocol and reason it names. */
  lemma StatusReadsCode(protocol: seq<byte>, code: nat, reason: seq<byte>, rest: seq<byte>)
    requires protocol != [] && NoSpace(protocol)
    requires forall i :: 0 <= i < |reason| ==> reason[i] != 0x0A
    ensures var line := protocol + ([0x20] + (Decimal.Print(code) + ([0x20] + reason)));
            Status(line + [0x0A] + rest) == if code < 0x1_0000 then Some(code) else None
  {
    var digits := Decimal.Print(code);
    var tail := digits + ([0x20] + reason);
    var line := protocol + ([0x20] + tail);
    Decimal.PrintShape(code);
    NoSpaceBytes(protocol);
    assert forall i :: 0 <= i < |line| ==> line[i] != 0x0A;
    FirstLineOf(line, rest);
    assert TrimStart(line) == line;
    WordOf(protocol, [0x20] + tail);
    TrimStartPadded([0x20], tail);
    PlainWord(digits);
    WordOf(digits, [0x20] + reason);
    Decimal.RoundTrip(code, 0x1_0000);
  }

  predicate IsSuccess(status: nat) {
    200 <= status < 300
  }

  // ---- the length it announces ----

  const LF: byte := 0x0A
  const CR: byte := 0x0D
  const COLON: byte := 0x3A

  /** content-length */
  function ContentLength(): seq<byte> {
    [0x63, 0x6F, 0x6E, 0x74, 0x65, 0x6E, 0x74, 0x2D, 0x6C, 0x65, 0x6E, 0x67, 0x74, 0x68]
  }

  /** `str::split_once`. */
  function SplitOnce(s: seq<byte>, sep: byte): Option<(seq<byte>, seq<byte>)> {
    var parts := Split(s, sep);
    if |parts| == 1 then None else Some((parts[0], Join(parts[1..], sep)))
  }

  predicate IsHeader(line: seq<byte>, name: seq<byte>) {
    var pair := SplitOnce(line, COLON);
    pair.Some? && Lower(Trim(pair.value.0)) == name
  }

  /** The value of the first header of that name. */
  function FindHeader(lines: seq<seq<byte>>, name: seq<byte>): Option<seq<byte>> {
    if lines == [] then None
    else if IsHeader(lines[0], name) then Some(Trim(SplitOnce(lines[0], COLON).value.1))
    else FindHeader(lines[1..], name)
  }

  /** The body length that the head announces; None without a header that reads as a `u64`. */
  function Announced(head: seq<byte>): Option<nat> {
    match FindHeader(Split(head, LF)[1..], ContentLength())
    case None => None
    case Some(value) => Decimal.Parse(value, 0x1_0000_0000_0000_0000)
  }

  lemma SplitOnceAt(before: seq<byte>, after: seq<byte>, sep: byte)
    requires SeparatorFree(before, sep)
    ensures SplitOnce(before + [sep] + after, sep) == Some((before, after))
  {
    SplitPrefix(before, after, sep);
    JoinSplit(after, sep);
    assert ([before] + Split(after, sep))[1..] == Split(after, sep);
  }

  lemma {:induction false} FindsFirst(lines: seq<seq<byte>>, from: nat, i: nat, name: seq<byte>)
    requires from <= i < |lines| && IsHeader(lines[i], name)
    requires forall j :: from <= j < i ==> !IsHeader(lines[j], name)
    ensures FindHeader(lines[from..], name) == Some(Trim(SplitOnce(lines[i], COLON).value.1))
    decreases i - from
  {
    if from < i {
      assert lines[from..][1..] == lines[from + 1..];
      FindsFirst(lines, from + 1, i, name);
    }
  }

  /** A header line with a number, its name in any case, both padded at will. */
  ghost predicate AnnouncesLength(line: seq<byte>, len: nat) {
    IsHeader(line, ContentLength()) && Trim(SplitOnce(line, COLON).value.1) == Decimal.Print(len)
  }

  lemma LengthIsRead(name: seq<byte>, before: seq<byte>, len: nat, after: seq<byte>)
    requires SeparatorFree(name, COLON) && Lower(Trim(name)) == ContentLength()
    requires Padding(before) && Padding(after)
    ensures AnnouncesLength(name + [COLON] + (before + Decimal.Print(len) + after), len)
  {
    SplitOnceAt(name, before + Decimal.Print(len) + after, COLON);
    Decimal.PrintShape(len);
    TrimPadded(before, Decimal.Print(len), after);
  }

  /** Whatever lines stand around it, the first header of that name is the one read. */
  lemma AnnouncedReadsHeader(lines: seq<seq<byte>>, i: nat, len: nat)
    requires 1 <= i < |lines| && AllSeparatorFree(lines, LF) && AnnouncesLength(lines[i], len)
    requires forall j :: 1 <= j < i ==> !IsHeader(lines[j], ContentLength())
    ensures Announced(Join(lines, LF)) == if len < 0x1_0000_0000_0000_0000 then Some(len) else None
  {
    SplitJoin(lines, LF);
    FindsFirst(lines, 1, i, ContentLength());
    Decimal.RoundTrip(len, 0x1_0000_0000_0000_0000);
  }

  // ---- one run ----

  /** The file a download writes to; None while there is none. */
  type Disk = Option<seq<byte>>

  function Length(d: Disk): nat {
    match d case None => 0 case Some(b) => |b|
  }

  datatype Run = Run(disk: Disk, result: Result<nat, Error>)

  /** The end of the head, or why it was not found. */
  function HeadOf(c: Attempt): Result<nat, Error> {
    match HeadEnd(c.bytes, 0)
    case Some(n) => if n > MAX_HEAD_BYTES then Err(HeadTooLarge) else Ok(n)
    case None =>
      Err(if |c.bytes| > MAX_HEAD_BYTES then HeadTooLarge else if c.broken then ReadFailed else ClosedEarly)
  }

  /** What writing the body behind `start` leaves and returns. */
  function Copied(start: seq<byte>, body: seq<byte>, c: Attempt): Run {
    if c.room.Some? && c.room.value < |body| then Run(Some(start + body[..c.room.value]), Err(CannotWrite))
    else Run(Some(start + body),
             if c.broken then Err(ReadFailed) else if !c.flushes then Err(CannotWrite) else Ok(|start| + |body|))
  }

  /** What a run leaves on disk and returns. */
  function Outcome(d: Disk, c: Attempt): Run {
    if !c.connects then Run(d, Err(NoConnection))
    else
      match HeadOf(c)
      case Err(error) => Run(d, Err(error))
      case Ok(n) =>
        match Status(c.bytes[..n])
        case None => Run(d, Err(BadHead))
        case Some(status) =>
          if !IsSuccess(status) then Run(d, Err(Refused(status)))
          else
            var resuming := status == 206;
            var kept := if Length(d) > 0 && !resuming && c.removes then None else d;
            if !c.canOpen then Run(kept, Err(CannotWrite))
            else Copied(if resuming && kept.Some? then kept.value else [], c.bytes[n..], c)
  }

  class LocalFile {
    var content: Disk

    /** Between one and 64 KiB of what is left, as the socket pleases. */
    static function ChunkSize(wanted: nat, left: nat): (n: nat)
      requires left > 0
      ensures 0 < n <= left && n <= 64 * 1024
    {
      var cap := if left < 64 * 1024 then left else 64 * 1024;
      if wanted == 0 then 1 else if wanted > cap then cap else wanted
    }

    /** Read just the head, byte by byte. */
    static method ReadHead(c: Attempt) returns (r: Result<nat, Error>)
      ensures r == HeadOf(c)
    {
      var head, pos := [], 0;
      while !HeadEndsAt(head, |head|)
        invariant pos <= |c.bytes| && head == c.bytes[..pos] && pos <= MAX_HEAD_BYTES
        invariant HeadEndsAt(head, |head|) <==> HeadEndsAt(c.bytes, pos)
        invariant HeadEnd(c.bytes, pos) == HeadEnd(c.bytes, 0)
        decreases |c.bytes| - pos
      {
        if pos == |c.bytes| {
          return Err(if c.broken then ReadFailed else ClosedEarly);
        }
        head := head + [c.bytes[pos]];
        pos := pos + 1;
        HeadEndsInPrefix(c.bytes, pos);
        if |head| > MAX_HEAD_BYTES {
          return Err(HeadTooLarge);
        }
      }
      return Ok(pos);
    }

    /** Append the rest of the stream to the file, one buffer at a time. */
    method CopyRest(c: Attempt, from: nat) returns (r: Result<nat, Error>)
      requires content.Some? && from <= |c.bytes|
      modifies this
      ensures Run(content, r) == Copied(old(content).value, c.bytes[from..], c)
    {
      ghost var start, body := content.value, c.bytes[from..];
      var pos, turn, written := from, 0, |content.value|;
      assert start + c.bytes[from..from] == start;
      while pos < |c.bytes|
        invariant from <= pos <= |c.bytes| && (c.room.Some? ==> pos - from <= c.room.value)
        invariant content == Some(start + c.bytes[from..pos]) && written == |start| + pos - from
      {
        var read := ChunkSize(c.chunk(turn), |c.bytes| - pos);
        var fits := if c.room.Some? && c.room.value < pos + read - from then c.room.value - (pos - from) else read;
        assert start + c.bytes[from..pos] + c.bytes[pos..pos + fits] == start + c.bytes[from..pos + fits];
        content := Some(content.value + c.bytes[pos..pos + fits]);
        if fits < read {
          assert c.bytes[from..pos + fits] == body[..c.room.value];
          return Err(CannotWrite);
        }
        written := written + read;
        pos := pos + read;
        turn := turn + 1;
      }
      assert c.bytes[from..pos] == body;
      if c.broken {
        return Err(ReadFailed);
      }
      return if c.flushes then Ok(written) else Err(CannotWrite);
    }

    method StreamToFile(c: Attempt) returns (r: Result<nat, Error>)
      modifies this
      ensures Run(content, r) == Outcome(old(content), c)
    {
      var already := Length(content);
      if !c.connects {
        return Err(NoConnection);
      }
      var end := ReadHead(c);
      if end.Err? {
        return Err(end.error);
      }
      var status := Status(c.bytes[..end.value]);
      if status.None? {
        return Err(BadHead);
      }
      var resuming := status.value == 206;
      if !IsSuccess(status.value) {
        return Err(Refused(status.value));
      }
      if already > 0 && !resuming && c.removes {
        content := None;
      }
      if !c.canOpen {
        return Err(CannotWrite);
      }
      content := Some(if resuming && content.Some? then content.value else []);
      r := CopyRest(c, end.value);
    }
  }

  // ---- many runs against one remote file ----

  /** A server that holds `remote` and answers a request for everything from `already` on
      (sections 14.2 and 15.3.7 of RFC 9110), cut off wherever the connection ended. */
  ghost predicate RespectsRanges(remote: seq<byte>, already: nat, c: Attempt) {
    match HeadEnd(c.bytes, 0)
    case None => true
    case Some(n) =>
      match Status(c.bytes[..n])
      case None => true
      case Some(status) =>
        if status == 206 then already <= |remote| && c.bytes[n..] <= remote[already..]
        else 200 <= status < 300 ==> c.bytes[n..] <= remote
  }

  ghost predicate PrefixOf(d: Disk, remote: seq<byte>) {
    d.Some? ==> d.value <= remote
  }

  predicate Resumes(c: Attempt) {
    var n := HeadEnd(c.bytes, 0);
    n.Some? && Status(c.bytes[..n.value]) == Some(206)
  }

  lemma CopyKeepsPrefix(start: seq<byte>, body: seq<byte>, c: Attempt, remote: seq<byte>)
    requires start + body <= remote
    ensures var run := Copied(start, body, c);
            run.disk.Some? && start <= run.disk.value <= remote
            && (run.result.Ok? ==> run.disk.value == start + body && run.result.value == |run.disk.value|)
  {
  }

  /** What a run copies its body behind. */
  function Kept(d: Disk, c: Attempt): seq<byte> {
    if Resumes(c) && d.Some? then d.value else []
  }

  ghost predicate Copies(d: Disk, c: Attempt) {
    var n := HeadEnd(c.bytes, 0);
    n.Some? && (var status := Status(c.bytes[..n.value]); status.Some? && IsSuccess(status.value))
    && Outcome(d, c) == Copied(Kept(d, c), c.bytes[n.value..], c)
  }

  lemma CopiesOrFails(d: Disk, c: Attempt)
    ensures Copies(d, c)
            || (Outcome(d, c).result.Err? && (Outcome(d, c).disk == d || (Outcome(d, c).disk == None && !Resumes(c))))
  {
  }

  lemma RunKeepsPrefix(d: Disk, c: Attempt, remote: seq<byte>)
    requires PrefixOf(d, remote) && RespectsRanges(remote, Length(d), c)
    ensures var run := Outcome(d, c);
            PrefixOf(run.disk, remote)
            && (Resumes(c) ==> Length(run.disk) >= Length(d))
            && (run.result.Ok? ==> run.disk.Some? && run.result.value == |run.disk.value|)
  {
    CopiesOrFails(d, c);
    if Copies(d, c) {
      var body := c.bytes[HeadEnd(c.bytes, 0).value..];
      assert Kept(d, c) + body <= remote;
      CopyKeepsPrefix(Kept(d, c), body, c, remote);
    }
  }

  /** A head of at most 16 KiB, ending with the first CR LF CR LF, whose status is that code. */
  ghost predicate AnswersWith(c: Attempt, n: nat, code: nat) {
    && c.connects && 4 <= n <= |c.bytes| && n <= 16384
    && MarkAt(c.bytes, n - 4) && (forall m :: 0 <= m < n - 4 ==> !MarkAt(c.bytes, m))
    && Status(c.bytes[..n]) == Some(code)
  }

  predicate MarkAt(s: seq<byte>, m: nat)
    requires m + 4 <= |s|
  {
    s[m] == 13 && s[m + 1] == 10 && s[m + 2] == 13 && s[m + 3] == 10
  }

  lemma MarkEndsHead(s: seq<byte>, m: nat)
    requires m + 4 <= |s|
    ensures MarkAt(s, m) <==> HeadEndsAt(s, m + 4)
  {
    var mark := s[m..m + 4];
    assert mark[0] == s[m] && mark[1] == s[m + 1] && mark[2] == s[m + 2] && mark[3] == s[m + 3];
  }

  lemma AnswerIsHead(c: Attempt, n: nat, code: nat)
    requires AnswersWith(c, n, code)
    ensures HeadOf(c) == Ok(n)
  {
    MarkEndsHead(c.bytes, n - 4);
    forall m | 4 <= m < n ensures !HeadEndsAt(c.bytes, m) {
      MarkEndsHead(c.bytes, m - 4);
    }
    HeadEndUnique(c.bytes, n);
  }

  /** Any answer but success is an error, and leaves a partial file to be resumed later. */
  lemma RefusalLeavesFile(d: Disk, c: Attempt, n: nat, code: nat)
    requires AnswersWith(c, n, code) && !(200 <= code < 300)
    ensures Outcome(d, c) == Run(d, Err(Refused(code)))
  {
    AnswerIsHead(c, n, code);
  }

  /** Without an answer that can be read nothing on disk is touched either. */
  lemma NoAnswerLeavesFile(d: Disk, c: Attempt)
    requires !exists n, code :: AnswersWith(c, n, code)
    ensures Outcome(d, c).disk == d && Outcome(d, c).result.Err?
  {
    if c.connects && HeadOf(c).Ok? {
      var n := HeadOf(c).value;
      HeadEndIsFirst(c.bytes, 0);
      if Status(c.bytes[..n]).Some? {
        MarkEndsHead(c.bytes, n - 4);
        forall m: nat | m < n - 4 ensures !MarkAt(c.bytes, m) {
          MarkEndsHead(c.bytes, m);
        }
        assert AnswersWith(c, n, Status(c.bytes[..n]).value);
      }
    }
  }

  /** On success the body is put behind the partial file exactly if the server resumes (206), and else
      in place of it. */
  lemma SuccessWrites(d: Disk, c: Attempt, n: nat, code: nat)
    requires AnswersWith(c, n, code) && 200 <= code < 300 && c.canOpen && c.room == None && c.flushes && !c.broken
    ensures var start := if code == 206 && d.Some? then d.value else [];
            Outcome(d, c) == Run(Some(start + c.bytes[n..]), Ok(|start| + |c.bytes| - n))
  {
    AnswerIsHead(c, n, code);
  }

  /** Whatever then goes wrong is reported, with what was written so far on disk. */
  lemma TroubleIsReported(d: Disk, c: Attempt, n: nat, code: nat)
    requires AnswersWith(c, n, code) && 200 <= code < 300
    requires !c.canOpen || c.broken || !c.flushes || (c.room.Some? && c.room.value < |c.bytes| - n)
    ensures var start := if code == 206 && d.Some? then d.value else [];
            var run := Outcome(d, c);
            && run.result.Err?
            && (if c.canOpen then run.disk.Some? && start <= run.disk.value <= start + c.bytes[n..]
                else run.disk == d || (code != 206 && run.disk == None))
  {
    AnswerIsHead(c, n, code);
  }

  /** Nothing of the stream is lost or repeated: head, then what the run appends. */
  lemma StreamIsSplit(d: Disk, c: Attempt)
    requires Outcome(d, c).result.Ok?
    ensures exists n: nat :: HeadEndsAt(c.bytes, n) && (forall m :: 0 <= m < n ==> !HeadEndsAt(c.bytes, m))
              && Outcome(d, c).disk == Some((if Resumes(c) && d.Some? then d.value else []) + c.bytes[n..])
  {
    HeadEndIsFirst(c.bytes, 0);
    assert HeadEndsAt(c.bytes, HeadEnd(c.bytes, 0).value);
  }

  /** Success means the connection closed in order, not that the file is whole. It is whole exactly
      when the body that arrived is as long as what was still missing of the remote file. */
  lemma CompleteIffAllArrived(d: Disk, c: Attempt, remote: seq<byte>)
    requires PrefixOf(d, remote) && RespectsRanges(remote, Length(d), c) && Outcome(d, c).result.Ok?
    ensures var head := HeadEnd(c.bytes, 0);
            head.Some?
            && (Outcome(d, c).disk == Some(remote)
                <==> |c.bytes| - head.value == |remote| - if Resumes(c) then Length(d) else 0)
  {
    RunKeepsPrefix(d, c, remote);
    WholePrefix(Outcome(d, c).disk.value, remote);
  }

  /** The count that a whole file must have, by the length announced. */
  function Expected(d: Disk, c: Attempt): Option<nat> {
    match HeadEnd(c.bytes, 0)
    case None => None
    case Some(n) =>
      match Announced(c.bytes[..n])
      case None => None
      case Some(len) => Some(len + if Resumes(c) then Length(d) else 0)
  }

  /** A server that announces the length of what it was asked for. */
  ghost predicate AnnouncesHonestly(remote: seq<byte>, d: Disk, c: Attempt) {
    Expected(d, c) == Some(|remote|)
  }

  /** From an honest server the file is whole exactly when the count returned is the one expected,
      which the run knows, reports to its caller as progress, and does not compare. */
  lemma CompleteIffExpected(d: Disk, c: Attempt, remote: seq<byte>)
    requires PrefixOf(d, remote) && RespectsRanges(remote, Length(d), c) && Outcome(d, c).result.Ok?
    requires AnnouncesHonestly(remote, d, c)
    ensures Outcome(d, c).disk == Some(remote) <==> Expected(d, c) == Some(Outcome(d, c).result.value)
  {
    CompleteIffAllArrived(d, c, remote);
    RunKeepsPrefix(d, c, remote);
  }

  // ---- a run that succeeds with part of the file ----

  function StatusLine(): seq<byte> {
    Ascii("HTTP/1.0") + ([0x20] + (Decimal.Print(200) + ([0x20] + Ascii("OK"))))
  }

  function LengthLine(len: nat): seq<byte> {
    ContentLength() + [COLON] + ([0x20] + Decimal.Print(len))
  }

  function HonestHead(len: nat): seq<byte> {
    StatusLine() + [CR, LF] + LengthLine(len) + HeadMark()
  }

  /** A connection that closes in order after `k` bytes of the file. */
  function CutOff(remote: seq<byte>, k: nat): Attempt
    requires k <= |remote|
  {
    Attempt(true, HonestHead(|remote|) + remote[..k], false, _ => 0, true, true, None, true)
  }

  predicate NoReturns(s: seq<byte>) {
    forall i :: 0 <= i < |s| ==> s[i] != CR
  }

  lemma HeadEndOfTwoLines(a: seq<byte>, b: seq<byte>, body: seq<byte>)
    requires NoReturns(a) && NoReturns(b) && b != []
    ensures var head := a + [CR, LF] + b + HeadMark();
            HeadEnd(head + body, 0) == Some(|head|)
  {
    var s, n := a + [CR, LF] + b + HeadMark() + body, |a| + |b| + 6;
    assert s[n - 4..n] == HeadMark();
    forall m | 4 <= m < n ensures !HeadEndsAt(s, m) {
      TwoReturns(a, b, body, m - 4);
      MarkHasTwoReturns(s, m);
    }
    HeadEndUnique(s, n);
  }

  lemma MarkHasTwoReturns(s: seq<byte>, m: nat)
    requires 4 <= m <= |s|
    ensures HeadEndsAt(s, m) ==> s[m - 4] == CR && s[m - 2] == CR
  {
    assert s[m - 4..m][0] == s[m - 4] && s[m - 4..m][2] == s[m - 2];
  }

  lemma TwoReturns(a: seq<byte>, b: seq<byte>, body: seq<byte>, i: nat)
    requires NoReturns(a) && NoReturns(b) && b != [] && i < |a| + 2 + |b|
    ensures var s := a + [CR, LF] + b + HeadMark() + body;
            !(s[i] == CR && s[i + 2] == CR)
  {
    var s := a + [CR, LF] + b + HeadMark() + body;
    assert i != |a| ==> s[i] != CR;
    assert s[|a| + 2] == b[0];
  }

  lemma EndOfStatusLine(protocol: seq<byte>, digits: seq<byte>, reason: seq<byte>)
    ensures (protocol + ([0x20] + (digits + ([0x20] + reason)))) + [CR]
         == protocol + ([0x20] + (digits + ([0x20] + (reason + [CR]))))
  {
  }

  lemma EndOfFirstLine(a: seq<byte>, b: seq<byte>, c: seq<byte>)
    ensures a + [CR, LF] + b + c == (a + [CR]) + [LF] + (b + c)
  {
  }

  lemma HonestStatus(len: nat)
    ensures Status(HonestHead(len)) == Some(200)
  {
    var protocol, reason := Ascii("HTTP/1.0"), Ascii("OK");
    PlainWord(protocol);
    StatusReadsCode(protocol, 200, reason + [CR], LengthLine(len) + HeadMark());
    EndOfStatusLine(protocol, Decimal.Print(200), reason);
    EndOfFirstLine(StatusLine(), LengthLine(len), HeadMark());
  }

  lemma HonestLength(len: nat)
    requires len < 0x1_0000_0000_0000_0000
    ensures Announced(HonestHead(len)) == Some(len)
  {
    var name, lines := ContentLength(), HonestLines(len);
    NameIsFound();
    LengthIsRead(name, [0x20], len, [CR]);
    assert lines[1] == name + [COLON] + ([0x20] + Decimal.Print(len) + [CR]);
    HonestHeadLines(len);
    AnnouncedReadsHeader(lines, 1, len);
  }

  lemma NameIsFound()
    ensures Lower(Trim(ContentLength())) == ContentLength() && SeparatorFree(ContentLength(), COLON)
  {
    TrimName(ContentLength());
    LowerKeeps(ContentLength());
  }

  lemma TrimName(name: seq<byte>)
    requires Bounded(name)
    ensures Trim(name) == name
  {
    assert [] + name + [] == name;
    TrimPadded([], name, []);
  }

  function HonestLines(len: nat): seq<seq<byte>> {
    [StatusLine() + [CR], LengthLine(len) + [CR], [CR], []]
  }

  lemma JoinFour(a: seq<byte>, b: seq<byte>, c: seq<byte>, d: seq<byte>, sep: byte)
    ensures Join([a, b, c, d], sep) == a + [sep] + (b + [sep] + (c + [sep] + d))
  {
    var three, two, one := [b, c, d], [c, d], [d];
    assert [a, b, c, d][1..] == three && three[1..] == two && two[1..] == one;
    assert Join(one, sep) == d;
    assert Join(two, sep) == c + [sep] + d;
  }

  lemma LinesHoldNoFeed(len: nat)
    ensures AllSeparatorFree(HonestLines(len), LF)
  {
    Decimal.PrintShape(len);
    Decimal.PrintShape(200);
    assert SeparatorFree(StatusLine(), LF) && SeparatorFree(LengthLine(len), LF);
  }

  lemma HonestHeadLines(len: nat)
    ensures AllSeparatorFree(HonestLines(len), LF) && Join(HonestLines(len), LF) == HonestHead(len)
  {
    LinesHoldNoFeed(len);
    var a, b := StatusLine(), LengthLine(len);
    JoinFour(a + [CR], b + [CR], [CR], [], LF);
    MarkLines(a, b);
  }

  lemma MarkLines(a: seq<byte>, b: seq<byte>)
    ensures (a + [CR]) + [LF] + ((b + [CR]) + [LF] + ([CR] + [LF] + [])) == a + [CR, LF] + b + HeadMark()
  {
  }

  lemma HonestHeadEnds(len: nat, body: seq<byte>)
    requires len < 0x1_0000_0000_0000_0000
    ensures HeadEnd(HonestHead(len) + body, 0) == Some(|HonestHead(len)|) && |HonestHead(len)| <= MAX_HEAD_BYTES
  {
    Decimal.PrintShape(len);
    Decimal.PrintShape(200);
    Decimal.NumberLengths(200, len);
    HeadEndOfTwoLines(StatusLine(), LengthLine(len), body);
  }

  /**
    A connection that closes in order after any part of the file makes a run succeed with just
    that part, although the server announced the length of the whole.
   */
  lemma CutOffRunSucceeds(remote: seq<byte>, k: nat)
    requires k <= |remote| < 0x1_0000_0000_0000_0000
    ensures RespectsRanges(remote, 0, CutOff(remote, k)) && AnnouncesHonestly(remote, None, CutOff(remote, k))
    ensures Outcome(None, CutOff(remote, k)) == Run(Some(remote[..k]), Ok(k))
  {
    var head, body := HonestHead(|remote|), remote[..k];
    HonestHeadEnds(|remote|, body);
    HonestStatus(|remote|);
    HonestLength(|remote|);
    assert (head + body)[..|head|] == head && (head + body)[|head|..] == body;
    assert [] + body == body;
  }

  lemma WholePrefix(a: seq<byte>, b: seq<byte>)
    requires a <= b
    ensures a == b <==> |a| == |b|
  {
  }

  function AfterRuns(d: Disk, runs: seq<Attempt>): Disk
    decreases |runs|
  {
    if runs == [] then d else AfterRuns(Outcome(d, runs[0]).disk, runs[1..])
  }

  ghost predicate AllRespectRanges(remote: seq<byte>, d: Disk, runs: seq<Attempt>)
    decreases |runs|
  {
    runs == [] || (RespectsRanges(remote, Length(d), runs[0])
                   && AllRespectRanges(remote, Outcome(d, runs[0]).disk, runs[1..]))
  }

  /** However many runs, cut off wherever they may be, what is on disk is a prefix of the remote file. */
  lemma {:induction false} RunsKeepPrefix(d: Disk, runs: seq<Attempt>, remote: seq<byte>)
    requires PrefixOf(d, remote) && AllRespectRanges(remote, d, runs)
    ensures PrefixOf(AfterRuns(d, runs), remote)
    decreases |runs|
  {
    if runs != [] {
      RunKeepsPrefix(d, runs[0], remote);
      RunsKeepPrefix(Outcome(d, runs[0]).disk, runs[1..], remote);
    }
  }

  /** A run that resumes, can write, and brings at least one byte unless all are there. */
  ghost predicate Helps(d: Disk, c: Attempt, remote: seq<byte>) {
    var n := HeadEnd(c.bytes, 0);
    c.connects && n.Some? && n.value <= MAX_HEAD_BYTES && c.canOpen && Resumes(c)
    && (Length(d) < |remote| ==> |c.bytes| > n.value && c.room != Some(0))
  }

  ghost predicate AllHelp(d: Disk, runs: seq<Attempt>, remote: seq<byte>)
    decreases |runs|
  {
    runs == [] || (Helps(d, runs[0], remote) && AllHelp(Outcome(d, runs[0]).disk, runs[1..], remote))
  }

  /** Interrupted as often as may be, a download that keeps advancing ends with the whole file. */
  lemma {:induction false} EnoughRunsComplete(d: Disk, runs: seq<Attempt>, remote: seq<byte>)
    requires d.Some? && PrefixOf(d, remote) && AllRespectRanges(remote, d, runs) && AllHelp(d, runs, remote)
    requires |runs| >= |remote| - Length(d)
    ensures AfterRuns(d, runs) == Some(remote)
    decreases |runs|
  {
    if runs == [] {
      WholePrefix(d.value, remote);
    } else {
      RunKeepsPrefix(d, runs[0], remote);
      EnoughRunsComplete(Outcome(d, runs[0]).disk, runs[1..], remote);
    }
  }
}

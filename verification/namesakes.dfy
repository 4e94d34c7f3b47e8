/**
  Noticing a familiar name on another key, over every interleaving of one node's
  tasks (crates/intraweb-core/src/db.rs:3-4, 70-116).
 */
module Namesakes {
  import opened Wrappers
  import opened Bytes
  import opened Peers
  import opened Store
  import opened Node
  import opened Interleaving

  predicate Both(y: System, a: PeerId, b: PeerId) {
    a in y.node.known && b in y.node.known
  }

  predicate SharesName(y: System, a: PeerId, b: PeerId) {
    Both(y, a, b) && y.node.known[a].nickname == y.node.known[b].nickname
  }

  /** The step that gives the two keys one name. */
  predicate Meets(y: System, l: Label, a: PeerId, b: PeerId)
    requires Enabled(y, l)
  {
    !SharesName(y, a, b) && SharesName(Next(y, l), a, b)
  }

  predicate Warns(y: System, l: Label, id: PeerId)
    requires Enabled(y, l)
  {
    VerdictGiven(y, l, id) == Some(NicknameConflict)
  }

  /** A write that gives a key of the keyring another name. */
  predicate Renames(y: System, l: Label, id: PeerId)
    requires Enabled(y, l)
  {
    l.Write? && y.tasks[l.t].Key() == id && id in y.node.known
    && y.tasks[l.t].s.p.nickname != y.node.known[id].nickname
  }

  /** The system after the first `i` steps of a run. */
  function At(y: System, labels: seq<Label>, i: nat): System
    requires Runnable(y, labels) && i <= |labels|
    decreases i
  {
    if i == 0 then y else At(Next(y, labels[0]), labels[1..], i - 1)
  }

  lemma {:induction false} AtRuns(y: System, labels: seq<Label>, i: nat)
    requires Runnable(y, labels) && i <= |labels|
    ensures i < |labels| ==> Enabled(At(y, labels, i), labels[i])
                             && At(y, labels, i + 1) == Next(At(y, labels, i), labels[i])
    ensures At(y, labels, |labels|) == Exec(y, labels)
    decreases |labels|
  {
    if labels != [] {
      if i > 0 {
        AtRuns(Next(y, labels[0]), labels[1..], i - 1);
      } else {
        AtRuns(Next(y, labels[0]), labels[1..], 0);
      }
    }
  }

  /** One step: the names meet by a write of one of the two keys, and that write is answered
      with a warning exactly when its key is not in the keyring yet; otherwise it renames the key. */
  lemma MeetingIsWrite(y: System, l: Label, a: PeerId, b: PeerId)
    requires Enabled(y, l) && a != b && Meets(y, l, a, b)
    ensures l.Write? && y.tasks[l.t].Key() in {a, b}
    ensures var id := y.tasks[l.t].Key();
            (Warns(y, l, id) <==> id !in y.node.known) && (id in y.node.known ==> Renames(y, l, id))
  {
    assert l.Write?;
    var id := y.tasks[l.t].Key();
    var other := if id == a then b else a;
    if id !in y.node.known {
      assert other in y.node.known && y.node.known[other].nickname == y.tasks[l.t].s.p.nickname;
      assert NameTaken(y.node.known, id, y.tasks[l.t].s.p.nickname);
    }
  }

  /** The last meeting of two keys in a run: at step `i`, and from then on they share a name. */
  ghost predicate LastMeeting(y: System, labels: seq<Label>, a: PeerId, b: PeerId, i: nat)
    requires Runnable(y, labels)
  {
    && i < |labels| && Enabled(At(y, labels, i), labels[i]) && Meets(At(y, labels, i), labels[i], a, b)
    && forall j :: i < j <= |labels| ==> SharesName(At(y, labels, j), a, b)
  }

  lemma {:induction false} LastMeetingExists(y: System, labels: seq<Label>, a: PeerId, b: PeerId) returns (i: nat)
    requires Runnable(y, labels) && !SharesName(y, a, b) && SharesName(Exec(y, labels), a, b)
    ensures LastMeeting(y, labels, a, b, i)
    decreases |labels|
  {
    AtRuns(y, labels, 0);
    i := |labels| - 1;
    AtRuns(y, labels, i);
    while !Meets(At(y, labels, i), labels[i], a, b)
      invariant i < |labels| && Enabled(At(y, labels, i), labels[i])
      invariant At(y, labels, i + 1) == Next(At(y, labels, i), labels[i])
      invariant forall j :: i < j <= |labels| ==> SharesName(At(y, labels, j), a, b)
      decreases i
    {
      AtRuns(y, labels, i - 1);
      i := i - 1;
    }
  }

  /**
    Over every run, of any two keys that come to share a name in it: the write that
    made their names meet, for the last time, goes unreported if and only if it was of
    a key already in the keyring, which it renamed.
   */
  lemma NamesakesAreFlaggedIff(y: System, labels: seq<Label>, a: PeerId, b: PeerId) returns (i: nat)
    requires Runnable(y, labels) && a != b && !SharesName(y, a, b) && SharesName(Exec(y, labels), a, b)
    ensures LastMeeting(y, labels, a, b, i)
    ensures var z, l := At(y, labels, i), labels[i];
            l.Write? && z.tasks[l.t].Key() in {a, b}
            && (!Warns(z, l, z.tasks[l.t].Key()) <==> z.tasks[l.t].Key() in z.node.known)
            && (!Warns(z, l, z.tasks[l.t].Key()) <==> Renames(z, l, z.tasks[l.t].Key()))
  {
    i := LastMeetingExists(y, labels, a, b);
    MeetingIsWrite(At(y, labels, i), labels[i], a, b);
  }

  /** How often in a run the names of the two keys meet by a write that is answered with a warning. */
  function Reports(y: System, labels: seq<Label>, a: PeerId, b: PeerId): nat
    requires Runnable(y, labels)
    decreases |labels|
  {
    if labels == [] then 0
    else
      var l := labels[0];
      (if Meets(y, l, a, b) && (Warns(y, l, a) || Warns(y, l, b)) then 1 else 0)
      + Reports(Next(y, l), labels[1..], a, b)
  }

  lemma ReportedStep(y: System, l: Label, a: PeerId, b: PeerId)
    requires Enabled(y, l) && a != b
    ensures Meets(y, l, a, b) && (Warns(y, l, a) || Warns(y, l, b))
       <==> !Both(y, a, b) && SharesName(Next(y, l), a, b)
  {
    if Meets(y, l, a, b) {
      MeetingIsWrite(y, l, a, b);
      StepMeets(y, l, a);
      StepMeets(y, l, b);
    }
  }

  lemma {:induction false} OldPairsAreSilent(y: System, labels: seq<Label>, a: PeerId, b: PeerId)
    requires Runnable(y, labels) && a != b && Both(y, a, b)
    ensures Reports(y, labels, a, b) == 0
    decreases |labels|
  {
    if labels != [] {
      ReportedStep(y, labels[0], a, b);
      StepMeets(y, labels[0], a);
      StepMeets(y, labels[0], b);
      OldPairsAreSilent(Next(y, labels[0]), labels[1..], a, b);
    }
  }

  /**
    Whatever the two keys are called later, a run that completes the pair reports it
    once if the second of them to join did so under the name the first then had, and
    otherwise never.
   */
  lemma {:induction false} PairReportedIff(y: System, labels: seq<Label>, a: PeerId, b: PeerId) returns (i: nat)
    requires Runnable(y, labels) && a != b && !Both(y, a, b) && Both(Exec(y, labels), a, b)
    ensures i < |labels| && !Both(At(y, labels, i), a, b) && Both(At(y, labels, i + 1), a, b)
    ensures Reports(y, labels, a, b) == if SharesName(At(y, labels, i + 1), a, b) then 1 else 0
    decreases |labels|
  {
    var l := labels[0];
    var z := Next(y, l);
    ReportedStep(y, l, a, b);
    if Both(z, a, b) {
      i := 0;
      OldPairsAreSilent(z, labels[1..], a, b);
      assert At(y, labels, 1) == At(z, labels[1..], 0);
    } else {
      var j := PairReportedIff(z, labels[1..], a, b);
      i := j + 1;
      assert At(y, labels, i + 1) == At(z, labels[1..], j + 1);
    }
  }

  // ---- a run in which nothing is noticed ----

  lemma {:induction false} ConflictsConcat(y: System, first: seq<Label>, rest: seq<Label>, id: PeerId)
    requires Runnable(y, first) && Runnable(Exec(y, first), rest)
    ensures Runnable(y, first + rest)
    ensures Conflicts(y, first + rest, id) == Conflicts(y, first, id) + Conflicts(Exec(y, first), rest, id)
    decreases |first|
  {
    ExecConcat(y, first, rest);
    if first == [] {
      assert first + rest == rest;
    } else {
      ConflictsConcat(Next(y, first[0]), first[1..], rest, id);
      assert (first + rest)[1..] == first[1..] + rest;
    }
  }

  lemma ConflictsCons(y: System, l: Label, rest: seq<Label>, id: PeerId)
    requires Enabled(y, l) && Runnable(Next(y, l), rest)
    ensures Runnable(y, [l] + rest)
    ensures Conflicts(y, [l] + rest, id) == (if Warns(y, l, id) then 1 else 0) + Conflicts(Next(y, l), rest, id)
  {
    assert ([l] + rest)[1..] == rest;
  }

  /** A sighting the keyring is asked about and does not warn of is silent about every key. */
  lemma QuietSighting(y: System, t: nat, s: Sighted, now: nat, id: PeerId)
    requires t !in y.tasks && StoreFree(y) && s.p.peerId != y.node.roster.selfId
    requires Verdict(y.node.known, s.p.peerId, s.p.nickname) != NicknameConflict
    ensures var labels := WholeAbsorb(y, t, s, now);
            Runnable(y, labels) && Conflicts(y, labels, id) == 0
  {
    var begin, begun := Begin(t, Fresh(s, now)), Next(y, Begin(t, Fresh(s, now)));
    var read := Next(begun, Read(t));
    if read.tasks[t].Recording? {
      QuietRecord(read, t, id);
      ConflictsCons(begun, Read(t), [Finish(t)], id);
      ConflictsCons(y, begin, [Read(t)] + [Finish(t)], id);
      assert [begin] + ([Read(t)] + [Finish(t)]) == WholeAbsorb(y, t, s, now);
    } else {
      var tail := [Write(t), Mark(t), Finish(t)];
      QuietWrite(read, t, s, now, id);
      ConflictsCons(begun, Read(t), tail, id);
      ConflictsCons(y, begin, [Read(t)] + tail, id);
      assert [begin] + ([Read(t)] + tail) == WholeAbsorb(y, t, s, now);
    }
  }

  lemma QuietRecord(y: System, t: nat, id: PeerId)
    requires t in y.tasks && y.tasks[t].Recording?
    ensures Runnable(y, [Finish(t)]) && Conflicts(y, [Finish(t)], id) == 0
  {
    ConflictsCons(y, Finish(t), [], id);
    assert [Finish(t)] + [] == [Finish(t)];
  }

  lemma QuietWrite(y: System, t: nat, s: Sighted, now: nat, id: PeerId)
    requires t in y.tasks && y.tasks[t] == Writing(s, now) && StoreFree(y)
    requires Verdict(y.node.known, s.p.peerId, s.p.nickname) != NicknameConflict
    ensures var labels := [Write(t), Mark(t), Finish(t)];
            Runnable(y, labels) && Conflicts(y, labels, id) == 0
  {
    var written := Next(y, Write(t));
    var marked := Next(written, Mark(t));
    ConflictsCons(marked, Finish(t), [], id);
    ConflictsCons(written, Mark(t), [Finish(t)] + [], id);
    ConflictsCons(y, Write(t), [Mark(t)] + ([Finish(t)] + []), id);
    assert [Write(t)] + ([Mark(t)] + ([Finish(t)] + [])) == [Write(t), Mark(t), Finish(t)];
  }

  /** Any sightings, one after another, each of which is answered without a warning. */
  lemma QuietThen(self: PeerId, timeout: nat, done: seq<Label>, s: Sighted, now: nat, a: PeerId, b: PeerId)
      returns (labels: seq<Label>)
    requires Runnable(Start(self, timeout, map[]), done) && s.p.peerId != self
    requires var y := Exec(Start(self, timeout, map[]), done);
             y.tasks == map[] && y.node.roster.selfId == self
             && Verdict(y.node.known, s.p.peerId, s.p.nickname) != NicknameConflict
    requires Conflicts(Start(self, timeout, map[]), done, a) == 0
    requires Conflicts(Start(self, timeout, map[]), done, b) == 0
    ensures var y0 := Start(self, timeout, map[]);
            Runnable(y0, labels) && Conflicts(y0, labels, a) == Conflicts(y0, labels, b) == 0
            && Exec(y0, labels) == System(Absorbed(Exec(y0, done).node, s, now), map[])
  {
    var y0 := Start(self, timeout, map[]);
    var y := Exec(y0, done);
    var whole := WholeAbsorb(y, 0, s, now);
    WholeAbsorbIsAtomic(y, 0, s, now);
    QuietSighting(y, 0, s, now, a);
    QuietSighting(y, 0, s, now, b);
    ExecConcat(y0, done, whole);
    ConflictsConcat(y0, done, whole, a);
    ConflictsConcat(y0, done, whole, b);
    labels := done + whole;
  }

  /** A key is first seen under one name, a second key under another, and then the first takes
      the second one's name: both keys are new, they end as namesakes, and nothing is reported. */
  lemma RenameGoesUnnoticed(self: PeerId, timeout: nat, first: Sighted, second: Sighted, renamed: Sighted, now: nat)
      returns (labels: seq<Label>)
    requires var a, b := first.p.peerId, second.p.peerId;
             a != self && b != self && a != b && renamed.p.peerId == a
             && first.p.nickname != second.p.nickname && renamed.p.nickname == second.p.nickname
    ensures var y, a, b := Start(self, timeout, map[]), first.p.peerId, second.p.peerId;
            Runnable(y, labels) && SharesName(Exec(y, labels), a, b)
            && Conflicts(y, labels, a) == Conflicts(y, labels, b) == 0
  {
    var a, b := first.p.peerId, second.p.peerId;
    var one := QuietThen(self, timeout, [], first, now, a, b);
    var two := QuietThen(self, timeout, one, second, now, a, b);
    labels := QuietThen(self, timeout, two, renamed, now, a, b);
  }
}

/**
  The two locks of a node, the store's mutex and the roster's reader-writer lock,
  and every order in which its tasks take them.
 */
module Locks {

  datatype Op = LockStore | UnlockStore | ReadRoster | EndRead | WriteRoster | EndWrite

  datatype RosterHold = Free | Shared | Exclusive

  datatype Task = Task(store: bool, roster: RosterHold, rest: seq<Op>)

  /** The order all tasks keep: the store may be held while taking the roster, never
      the reverse; nothing is taken twice and everything is given back. */
  predicate Disciplined(t: Task)
    decreases |t.rest|
  {
    if t.rest == [] then !t.store && t.roster.Free?
    else
      match t.rest[0]
      case LockStore => !t.store && t.roster.Free? && Disciplined(After(t))
      case UnlockStore => t.store && Disciplined(After(t))
      case ReadRoster => t.roster.Free? && Disciplined(After(t))
      case EndRead => t.roster.Shared? && Disciplined(After(t))
      case WriteRoster => t.roster.Free? && Disciplined(After(t))
      case EndWrite => t.roster.Exclusive? && Disciplined(After(t))
  }

  function After(t: Task): (after: Task)
    requires t.rest != []
    ensures |after.rest| < |t.rest|
  {
    match t.rest[0]
    case LockStore => Task(true, t.roster, t.rest[1..])
    case UnlockStore => Task(false, t.roster, t.rest[1..])
    case ReadRoster => Task(t.store, Shared, t.rest[1..])
    case WriteRoster => Task(t.store, Exclusive, t.rest[1..])
    case EndRead => Task(t.store, Free, t.rest[1..])
    case EndWrite => Task(t.store, Free, t.rest[1..])
  }

  // ---- what the program's tasks do ----

  /** StoreAccess is any request that only uses the store: inbox, outbox, marking read, hub history.
      TerminalFrame is one frame of the terminal interface, whose verifications are the two Verify jobs. */
  datatype Job =
    | AbsorbCached | AbsorbWritten | SweepRoster
    | VerifyFound | VerifyUnknown | ReceiveMail | StoreAccess | RosterRead | Status | CombinedState
    | TerminalFrame | SendMail
    | DeliverPending(rows: nat)

  /** A locked section that takes one lock and gives it back. */
  datatype Section = UsingStore | ReadingRoster | WritingRoster {
    function Ops(): seq<Op> {
      match this
      case UsingStore => [LockStore, UnlockStore]
      case ReadingRoster => [ReadRoster, EndRead]
      case WritingRoster => [WriteRoster, EndWrite]
    }
  }

  function InTurn(sections: seq<Section>): seq<Op> {
    if sections == [] then [] else sections[0].Ops() + InTurn(sections[1..])
  }

  function StatusSections(): seq<Section> {
    [UsingStore, ReadingRoster, ReadingRoster, UsingStore]
  }

  function Program(j: Job): seq<Op> {
    match j
    case AbsorbCached => InTurn([ReadingRoster, WritingRoster])
    case AbsorbWritten => InTurn([ReadingRoster, UsingStore, WritingRoster, WritingRoster])
    case SweepRoster => InTurn([WritingRoster])
    case VerifyFound => [LockStore, WriteRoster, EndWrite, UnlockStore]
    case VerifyUnknown => InTurn([UsingStore])
    case ReceiveMail => InTurn([UsingStore])
    case StoreAccess => InTurn([UsingStore])
    case RosterRead => InTurn([ReadingRoster])
    case Status => InTurn(StatusSections())
    case CombinedState => InTurn(StatusSections() + [ReadingRoster, UsingStore])
    case TerminalFrame => InTurn([ReadingRoster, UsingStore])
    case SendMail => InTurn([ReadingRoster, UsingStore, UsingStore])
    case DeliverPending(rows) => InTurn([UsingStore, ReadingRoster] + seq(rows, _ => UsingStore))
  }

  lemma {:induction false} InTurnDisciplined(sections: seq<Section>)
    ensures Disciplined(Task(false, Free, InTurn(sections)))
  {
    if sections != [] {
      InTurnDisciplined(sections[1..]);
      var ops, rest := InTurn(sections), InTurn(sections[1..]);
      assert ops[1..][1..] == rest;
      assert ops[1..][0] == sections[0].Ops()[1];
    }
  }

  lemma VerifyDisciplined()
    ensures Disciplined(Task(false, Free, Program(VerifyFound)))
  {
    var ops := Program(VerifyFound);
    assert ops[1..] == [WriteRoster, EndWrite, UnlockStore];
    assert ops[1..][1..] == [EndWrite, UnlockStore];
    assert ops[1..][1..][1..] == [UnlockStore];
    assert ops[1..][1..][1..][1..] == [];
  }

  lemma JobsDisciplined(j: Job)
    ensures Disciplined(Task(false, Free, Program(j)))
  {
    match j
    case VerifyFound => VerifyDisciplined();
    case AbsorbCached => InTurnDisciplined([ReadingRoster, WritingRoster]);
    case AbsorbWritten => InTurnDisciplined([ReadingRoster, UsingStore, WritingRoster, WritingRoster]);
    case SweepRoster => InTurnDisciplined([WritingRoster]);
    case VerifyUnknown => InTurnDisciplined([UsingStore]);
    case ReceiveMail => InTurnDisciplined([UsingStore]);
    case StoreAccess => InTurnDisciplined([UsingStore]);
    case RosterRead => InTurnDisciplined([ReadingRoster]);
    case Status => InTurnDisciplined(StatusSections());
    case CombinedState => InTurnDisciplined(StatusSections() + [ReadingRoster, UsingStore]);
    case TerminalFrame => InTurnDisciplined([ReadingRoster, UsingStore]);
    case SendMail => InTurnDisciplined([ReadingRoster, UsingStore, UsingStore]);
    case DeliverPending(rows) => InTurnDisciplined([UsingStore, ReadingRoster] + seq(rows, _ => UsingStore));
  }

  // ---- any number of tasks at once ----

  predicate StoreHeld(ts: seq<Task>) {
    exists i :: 0 <= i < |ts| && ts[i].store
  }

  predicate RosterHeld(ts: seq<Task>) {
    exists i :: 0 <= i < |ts| && !ts[i].roster.Free?
  }

  predicate WriterHolds(ts: seq<Task>) {
    exists i :: 0 <= i < |ts| && ts[i].roster.Exclusive?
  }

  predicate WriterWaits(ts: seq<Task>) {
    exists i :: 0 <= i < |ts| && ts[i].rest != [] && ts[i].rest[0] == WriteRoster
  }

  /** Whether task `i` can take its next step. Readers give way to waiting writers, as
      a reader-writer lock is allowed to make them. */
  predicate CanStep(ts: seq<Task>, i: nat) {
    i < |ts| && ts[i].rest != [] &&
    match ts[i].rest[0]
    case LockStore => !StoreHeld(ts)
    case ReadRoster => !WriterHolds(ts) && !WriterWaits(ts)
    case WriteRoster => !RosterHeld(ts)
    case _ => true
  }

  function StepTask(ts: seq<Task>, i: nat): seq<Task>
    requires CanStep(ts, i)
  {
    ts[i := After(ts[i])]
  }

  ghost predicate AllDisciplined(ts: seq<Task>) {
    forall i :: 0 <= i < |ts| ==> Disciplined(ts[i])
  }

  /** The locks exclude what they must: one holder of the store, one writer and then no reader. */
  ghost predicate Exclusion(ts: seq<Task>) {
    && (forall i, j :: 0 <= i < j < |ts| ==> !(ts[i].store && ts[j].store))
    && (forall i, j :: 0 <= i < |ts| && 0 <= j < |ts| && i != j && ts[i].roster.Exclusive? ==> ts[j].roster.Free?)
  }

  lemma StepKeeps(ts: seq<Task>, i: nat)
    requires AllDisciplined(ts) && Exclusion(ts) && CanStep(ts, i)
    ensures AllDisciplined(StepTask(ts, i)) && Exclusion(StepTask(ts, i))
  {
    assert Disciplined(ts[i]) && Disciplined(After(ts[i]));
    if ts[i].rest[0] == LockStore {
      assert forall j :: 0 <= j < |ts| ==> !ts[j].store;
    } else if ts[i].rest[0] == WriteRoster {
      assert forall j :: 0 <= j < |ts| ==> ts[j].roster.Free?;
    } else if ts[i].rest[0] == ReadRoster {
      assert forall j :: 0 <= j < |ts| ==> !ts[j].roster.Exclusive?;
    }
  }

  lemma RosterFreeStep(ts: seq<Task>, i: nat) returns (k: nat)
    requires !RosterHeld(ts) && i < |ts| && ts[i].rest != [] && ts[i].rest[0] in {ReadRoster, WriteRoster}
    ensures CanStep(ts, k)
  {
    if WriterWaits(ts) {
      k :| 0 <= k < |ts| && ts[k].rest != [] && ts[k].rest[0] == WriteRoster;
    } else {
      k := i;
    }
  }

  /** While any task is unfinished, some task can go on. */
  lemma NoDeadlock(ts: seq<Task>) returns (k: nat)
    requires AllDisciplined(ts) && exists i :: 0 <= i < |ts| && ts[i].rest != []
    ensures CanStep(ts, k)
  {
    if RosterHeld(ts) {
      k :| 0 <= k < |ts| && !ts[k].roster.Free?;
      assert Disciplined(ts[k]);
    } else if StoreHeld(ts) {
      k :| 0 <= k < |ts| && ts[k].store;
      assert Disciplined(ts[k]);
      if ts[k].rest[0] != UnlockStore {
        k := RosterFreeStep(ts, k);
      }
    } else {
      k :| 0 <= k < |ts| && ts[k].rest != [];
      assert Disciplined(ts[k]);
      if ts[k].rest[0] != LockStore {
        k := RosterFreeStep(ts, k);
      }
    }
  }

  /** A schedule: the order in which tasks take their steps. */
  predicate Schedule(ts: seq<Task>, order: seq<nat>)
    decreases |order|
  {
    order == [] || (CanStep(ts, order[0]) && Schedule(StepTask(ts, order[0]), order[1..]))
  }

  function Reached(ts: seq<Task>, order: seq<nat>): seq<Task>
    requires Schedule(ts, order)
    decreases |order|
  {
    if order == [] then ts else Reached(StepTask(ts, order[0]), order[1..])
  }

  function Work(ts: seq<Task>): nat {
    if ts == [] then 0 else |ts[0].rest| + Work(ts[1..])
  }

  lemma {:induction false} StepWorks(ts: seq<Task>, i: nat, t: Task)
    requires i < |ts|
    ensures Work(ts[i := t]) + |ts[i].rest| == Work(ts) + |t.rest|
  {
    if i == 0 {
      assert ts[0 := t][1..] == ts[1..];
    } else {
      assert ts[i := t][1..] == ts[1..][i - 1 := t];
      StepWorks(ts[1..], i - 1, t);
    }
  }

  function Jobs(jobs: seq<Job>): seq<Task> {
    seq(|jobs|, i requires 0 <= i < |jobs| => Task(false, Free, Program(jobs[i])))
  }

  lemma {:induction false} ScheduleKeeps(ts: seq<Task>, order: seq<nat>)
    requires AllDisciplined(ts) && Exclusion(ts) && Schedule(ts, order)
    ensures AllDisciplined(Reached(ts, order)) && Exclusion(Reached(ts, order))
    ensures |order| + Work(Reached(ts, order)) == Work(ts)
    decreases |order|
  {
    if order != [] {
      StepKeeps(ts, order[0]);
      StepWorks(ts, order[0], After(ts[order[0]]));
      ScheduleKeeps(StepTask(ts, order[0]), order[1..]);
    }
  }

  /**
    Any number of tasks of any kind, under any schedule: the locks exclude, every
    schedule is finite, and one that cannot be continued has finished every task.
   */
  lemma AllJobsFinish(jobs: seq<Job>, order: seq<nat>)
    requires Schedule(Jobs(jobs), order)
    ensures var ts := Reached(Jobs(jobs), order);
            Exclusion(ts) && |order| <= Work(Jobs(jobs))
            && ((forall i :: 0 <= i < |ts| ==> ts[i].rest == []) || exists k :: CanStep(ts, k))
  {
    forall i | 0 <= i < |jobs| ensures Disciplined(Jobs(jobs)[i]) {
      JobsDisciplined(jobs[i]);
    }
    ScheduleKeeps(Jobs(jobs), order);
    var ts := Reached(Jobs(jobs), order);
    if exists i :: 0 <= i < |ts| && ts[i].rest != [] {
      var k := NoDeadlock(ts);
    }
  }

  /** The order matters: a task that took the store while holding the roster could
      block a verification, and be blocked by it, for ever. */
  lemma ReverseOrderDeadlocks()
    ensures var ts := [Task(false, Free, Program(VerifyFound)),
                       Task(false, Free, [WriteRoster, LockStore, UnlockStore, EndWrite])];
            Schedule(ts, [0, 1])
            && Reached(ts, [0, 1])[0].rest != [] && !exists k :: CanStep(Reached(ts, [0, 1]), k)
  {
    var reversed := [WriteRoster, LockStore, UnlockStore, EndWrite];
    var ts := [Task(false, Free, Program(VerifyFound)), Task(false, Free, reversed)];
    var one := StepTask(ts, 0);
    assert one[0] == After(ts[0]) && one[1] == ts[1] && !RosterHeld(one);
    var two := StepTask(one, 1);
    assert [0, 1][1..] == [1] && [1][1..] == [];
    assert Schedule(one, [1]) && Reached(one, [1]) == two;
    assert two[0].store && two[1].roster.Exclusive?;
    assert two[0].rest[0] == WriteRoster && two[1].rest[0] == LockStore;
  }
}

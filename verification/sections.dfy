/**
  That the locked sections of Interleaving are the lock programs of Locks: the same tasks,
  seen once for what they do and once for what they hold.
 */
module Sections {
  import opened Bytes
  import opened Wrappers
  import opened Node
  import opened Registry
  import opened Interleaving
  import opened Locks

  /** The locks that one step takes and gives back. The store stays locked from Vouch to Tell. */
  function Takes(y: System, l: Label): seq<Op>
    requires Interleaving.Enabled(y, l)
  {
    match l
    case Begin(_, _) => []
    case Read(_) => [ReadRoster, EndRead]
    case Write(_) => [LockStore, UnlockStore]
    case Mark(_) => [WriteRoster, EndWrite]
    case Finish(_) => [WriteRoster, EndWrite]
    case Vouch(t) => if y.tasks[t].id in y.node.known then [LockStore] else [LockStore, UnlockStore]
    case Tell(_) => [WriteRoster, EndWrite, UnlockStore]
    case SweepAt(_) => [WriteRoster, EndWrite]
  }

  function TakesAll(y: System, labels: seq<Label>): seq<Op>
    requires Interleaving.Runnable(y, labels)
    decreases |labels|
  {
    if labels == [] then [] else Takes(y, labels[0]) + TakesAll(Interleaving.Next(y, labels[0]), labels[1..])
  }

  lemma TakesCons(y: System, l: Label, rest: seq<Label>)
    requires Interleaving.Enabled(y, l) && Interleaving.Runnable(Interleaving.Next(y, l), rest)
    ensures Interleaving.Runnable(y, [l] + rest)
    ensures TakesAll(y, [l] + rest) == Takes(y, l) + TakesAll(Interleaving.Next(y, l), rest)
  {
    assert ([l] + rest)[1..] == rest;
  }

  lemma TakesThree(y: System, a: Label, second: System, b: Label, third: System, c: Label)
    requires Interleaving.Enabled(y, a) && second == Interleaving.Next(y, a)
    requires Interleaving.Enabled(second, b) && third == Interleaving.Next(second, b)
    requires Interleaving.Enabled(third, c)
    ensures Interleaving.Runnable(y, [a, b, c])
    ensures TakesAll(y, [a, b, c]) == Takes(y, a) + Takes(second, b) + Takes(third, c)
  {
    TakesCons(third, c, []);
    TakesCons(second, b, [c] + []);
    TakesCons(y, a, [b] + ([c] + []));
    assert [a] + ([b] + ([c] + [])) == [a, b, c];
  }

  lemma ProgramsInFull()
    ensures Program(AbsorbCached) == [ReadRoster, EndRead] + [WriteRoster, EndWrite]
    ensures Program(AbsorbWritten)
         == ([ReadRoster, EndRead] + [LockStore, UnlockStore]) + ([WriteRoster, EndWrite] + [WriteRoster, EndWrite])
  {
    var one: seq<Section> := [WritingRoster];
    var two: seq<Section> := [WritingRoster, WritingRoster];
    var three: seq<Section> := [UsingStore, WritingRoster, WritingRoster];
    assert one[1..] == [] && two[1..] == one && three[1..] == two;
    assert [ReadingRoster, WritingRoster][1..] == one;
    assert [ReadingRoster, UsingStore, WritingRoster, WritingRoster][1..] == three;
    assert InTurn(one) == [WriteRoster, EndWrite];
  }

  lemma WrittenTakes(y: System, t: nat, s: Sighted, now: nat)
    requires t in y.tasks && y.tasks[t] == Writing(s, now) && StoreFree(y)
    ensures var tail := [Write(t), Mark(t), Finish(t)];
            Interleaving.Runnable(y, tail)
            && TakesAll(y, tail) == [LockStore, UnlockStore] + [WriteRoster, EndWrite] + [WriteRoster, EndWrite]
  {
    var written := Interleaving.Next(y, Write(t));
    TakesThree(y, Write(t), written, Mark(t), Interleaving.Next(written, Mark(t)), Finish(t));
  }

  lemma ReadTakes(y: System, t: nat, s: Sighted, now: nat, tail: seq<Label>)
    requires t !in y.tasks && s.p.peerId != y.node.roster.selfId
    requires var begun := Interleaving.Next(y, Begin(t, Fresh(s, now)));
             Interleaving.Runnable(Interleaving.Next(begun, Read(t)), tail)
    ensures var read := Interleaving.Next(Interleaving.Next(y, Begin(t, Fresh(s, now))), Read(t));
            Interleaving.Runnable(y, [Begin(t, Fresh(s, now)), Read(t)] + tail)
            && TakesAll(y, [Begin(t, Fresh(s, now)), Read(t)] + tail) == [ReadRoster, EndRead] + TakesAll(read, tail)
  {
    var begin := Begin(t, Fresh(s, now));
    var begun := Interleaving.Next(y, begin);
    TakesCons(begun, Read(t), tail);
    TakesCons(y, begin, [Read(t)] + tail);
    assert [begin] + ([Read(t)] + tail) == [begin, Read(t)] + tail;
  }

  lemma CachedSighting(y: System, t: nat, s: Sighted, now: nat)
    requires t !in y.tasks && s.p.peerId != y.node.roster.selfId
    requires Interleaving.Next(Interleaving.Next(y, Begin(t, Fresh(s, now))), Read(t)).tasks[t].Recording?
    ensures var labels := [Begin(t, Fresh(s, now)), Read(t)] + [Finish(t)];
            Interleaving.Runnable(y, labels) && TakesAll(y, labels) == [ReadRoster, EndRead] + [WriteRoster, EndWrite]
  {
    var read := Interleaving.Next(Interleaving.Next(y, Begin(t, Fresh(s, now))), Read(t));
    TakesCons(read, Finish(t), []);
    assert [Finish(t)] + [] == [Finish(t)];
    ReadTakes(y, t, s, now, [Finish(t)]);
  }

  lemma WrittenSighting(y: System, t: nat, s: Sighted, now: nat)
    requires t !in y.tasks && StoreFree(y) && s.p.peerId != y.node.roster.selfId
    requires Interleaving.Next(Interleaving.Next(y, Begin(t, Fresh(s, now))), Read(t)).tasks[t] == Writing(s, now)
    ensures var labels := [Begin(t, Fresh(s, now)), Read(t)] + [Write(t), Mark(t), Finish(t)];
            Interleaving.Runnable(y, labels)
            && TakesAll(y, labels)
               == [ReadRoster, EndRead] + ([LockStore, UnlockStore] + [WriteRoster, EndWrite] + [WriteRoster, EndWrite])
  {
    WrittenTakes(Interleaving.Next(Interleaving.Next(y, Begin(t, Fresh(s, now))), Read(t)), t, s, now);
    ReadTakes(y, t, s, now, [Write(t), Mark(t), Finish(t)]);
  }

  /** A sighting takes what its lock program says, whether it asks the keyring or not. */
  lemma AbsorbTakes(y: System, t: nat, s: Sighted, now: nat)
    requires t !in y.tasks && StoreFree(y) && s.p.peerId != y.node.roster.selfId
    ensures var labels := WholeAbsorb(y, t, s, now);
            Interleaving.Runnable(y, labels)
            && TakesAll(y, labels) == Program(if |labels| == 3 then AbsorbCached else AbsorbWritten)
  {
    ProgramsInFull();
    var start := [Begin(t, Fresh(s, now)), Read(t)];
    if CachedTrust(y.node.roster, s.p.peerId, s.p.nickname, now).Some? {
      CachedSighting(y, t, s, now);
      assert start + [Finish(t)] == WholeAbsorb(y, t, s, now);
    } else {
      WrittenSighting(y, t, s, now);
      assert start + [Write(t), Mark(t), Finish(t)] == WholeAbsorb(y, t, s, now);
    }
  }

  /** And so does a verification, of a key that is known and of one that is not. */
  lemma VerifyTakes(y: System, t: nat, id: PeerId)
    requires t !in y.tasks && StoreFree(y)
    ensures var labels := if id in y.node.known then [Begin(t, Vouching(id)), Vouch(t), Tell(t)]
                          else [Begin(t, Vouching(id)), Vouch(t)];
            Interleaving.Runnable(y, labels)
            && TakesAll(y, labels) == Program(if id in y.node.known then VerifyFound else VerifyUnknown)
  {
    var begin := Begin(t, Vouching(id));
    var begun := Interleaving.Next(y, begin);
    if id in y.node.known {
      TakesThree(y, begin, begun, Vouch(t), Interleaving.Next(begun, Vouch(t)), Tell(t));
    } else {
      TakesCons(begun, Vouch(t), []);
      TakesCons(y, begin, [Vouch(t)] + []);
      assert [begin] + ([Vouch(t)] + []) == [begin, Vouch(t)];
      var one: seq<Section> := [UsingStore];
      assert one[1..] == [] && InTurn(one) == [LockStore, UnlockStore];
    }
  }
}

/** How a page title is decoded (crates/intraweb-cli/src/surf.rs:179-187). */
module Entities {
  import opened Wrappers

  datatype Reference = Reference(name: string, value: char)

  /** The name of an entity starts with an ampersand and has no other. */
  predicate WellNamed(e: Reference) {
    |e.name| >= 2 && e.name[0] == '&' && forall i :: 1 <= i < |e.name| ==> e.name[i] != '&'
  }

  /** A character reference and the character it stands for. */
  type Entity = e: Reference | WellNamed(e) witness Reference("&;", ' ')

  /** `str::replace`: every occurrence from left to right, without overlaps. */
  function Replace(s: string, e: Entity): string {
    if s == "" then ""
    else if e.name <= s then [e.value] + Replace(s[|e.name|..], e)
    else [s[0]] + Replace(s[1..], e)
  }

  /** One whole-string replacement after another. */
  function Passes(s: string, entities: seq<Entity>): string
    decreases |entities|
  {
    if entities == [] then s else Passes(Replace(s, entities[0]), entities[1..])
  }

  /** The first of the entities that `s` starts with. */
  function Match(s: string, entities: seq<Entity>): (m: Option<Entity>)
    ensures m.Some? ==> m.value in entities && m.value.name <= s
    ensures m.None? ==> forall e :: e in entities ==> !(e.name <= s)
  {
    if entities == [] then None
    else if entities[0].name <= s then Some(entities[0])
    else Match(s, entities[1..])
  }

  /** A single decoder that reads the text once and never looks back. */
  function Decode(s: string, entities: seq<Entity>): string {
    if s == "" then ""
    else
      match Match(s, entities)
      case Some(e) => [e.value] + Decode(s[|e.name|..], entities)
      case None => [s[0]] + Decode(s[1..], entities)
  }

  /** No character decoded by an earlier pass can be part of a later name. */
  predicate Orderly(entities: seq<Entity>) {
    forall i, j :: 0 <= i < j < |entities| ==> entities[i].value !in entities[j].name
  }

  lemma MatchExtended(s: string, entities: seq<Entity>, e: Entity)
    ensures Match(s, entities + [e])
         == match Match(s, entities)
            case Some(m) => Some(m)
            case None => if e.name <= s then Some(e) else None
  {
    if entities == [] {
      assert entities + [e] == [e] && [e][1..] == [];
    } else {
      assert (entities + [e])[1..] == entities[1..] + [e];
      MatchExtended(s, entities[1..], e);
    }
  }

  lemma {:induction false} OnlyAmpersandsMatch(s: string, entities: seq<Entity>)
    requires s != "" && s[0] != '&'
    ensures Match(s, entities).None?
  {
    if entities != [] {
      OnlyAmpersandsMatch(s, entities[1..]);
    }
  }

  /** Text without ampersands is copied as it is. */
  lemma {:induction false} PlainTextIsCopied(q: string, t: string, entities: seq<Entity>)
    requires forall i :: 0 <= i < |q| ==> q[i] != '&'
    ensures Decode(q + t, entities) == q + Decode(t, entities)
  {
    if q == "" {
      assert q + t == t;
    } else {
      var s := q + t;
      assert s[1..] == q[1..] + t;
      OnlyAmpersandsMatch(s, entities);
      PlainTextIsCopied(q[1..], t, entities);
      assert q == [q[0]] + q[1..];
    }
  }

  /** Decoded text starts with such characters only if the text itself does. */
  lemma {:induction false} PlainPrefixIsOriginal(q: string, t: string, entities: seq<Entity>)
    requires forall e :: e in entities ==> e.value !in q
    requires q <= Decode(t, entities)
    ensures q <= t
  {
    if q != "" {
      var d := Decode(t, entities);
      assert q[0] == d[0] && q[0] in q;
      assert Match(t, entities).None?;
      assert q[1..] <= d[1..];
      PlainPrefixIsOriginal(q[1..], t[1..], entities);
    }
  }

  lemma UnmatchedStays(s: string, entities: seq<Entity>, e: Entity)
    requires s != "" && Match(s, entities).None? && !(e.name <= s)
    requires forall d :: d in entities ==> d.value !in e.name
    ensures !(e.name <= [s[0]] + Decode(s[1..], entities))
  {
    var d := [s[0]] + Decode(s[1..], entities);
    if e.name <= d {
      var q := e.name[1..];
      assert q <= d[1..];
      PlainPrefixIsOriginal(q, s[1..], entities);
      assert false;
    }
  }

  lemma MatchedIsCopied(s: string, entities: seq<Entity>, e: Entity)
    requires e.name <= s && Match(s, entities).None?
    ensures Decode(s, entities) == e.name + Decode(s[|e.name|..], entities)
  {
    NameSplits(s, e);
    PlainTextIsCopied(e.name[1..], s[|e.name|..], entities);
    Regroup(s[0], e.name[1..], Decode(s[|e.name|..], entities));
  }

  lemma NameSplits(s: string, e: Entity)
    requires e.name <= s
    ensures s[1..] == e.name[1..] + s[|e.name|..] && e.name == [s[0]] + e.name[1..]
  {
  }

  lemma Regroup(c: char, q: string, rest: string)
    ensures [c] + (q + rest) == ([c] + q) + rest
  {
  }

  /** Replacing one more entity after decoding the earlier ones is decoding them all at once. */
  lemma {:induction false} OneMorePass(s: string, entities: seq<Entity>, e: Entity)
    requires forall d :: d in entities ==> d.value !in e.name
    ensures Replace(Decode(s, entities), e) == Decode(s, entities + [e])
    decreases |s|
  {
    if s != "" {
      var d := Decode(s, entities);
      MatchExtended(s, entities, e);
      match Match(s, entities)
      case Some(m) =>
        OneMorePass(s[|m.name|..], entities, e);
        assert e.name[0] in e.name && !(e.name <= d);
        assert d[1..] == Decode(s[|m.name|..], entities);
      case None =>
        if e.name <= s {
          MatchedIsCopied(s, entities, e);
          assert d[|e.name|..] == Decode(s[|e.name|..], entities);
          OneMorePass(s[|e.name|..], entities, e);
        } else {
          UnmatchedStays(s, entities, e);
          assert d[1..] == Decode(s[1..], entities);
          OneMorePass(s[1..], entities, e);
        }
    }
  }

  lemma {:induction false} RemainingPasses(s: string, done: seq<Entity>, todo: seq<Entity>)
    requires Orderly(done + todo)
    ensures Passes(Decode(s, done), todo) == Decode(s, done + todo)
    decreases |todo|
  {
    var all := done + todo;
    assert forall i :: 0 <= i < |done| ==> done[i] == all[i];
    assert forall i :: 0 <= i < |todo| ==> todo[i] == all[|done| + i];
    if todo == [] {
      assert all == done;
    } else {
      assert done + [todo[0]] + todo[1..] == all;
      OneMorePass(s, done, todo[0]);
      RemainingPasses(s, done + [todo[0]], todo[1..]);
    }
  }

  lemma {:induction false} DecodeNothing(s: string)
    ensures Decode(s, []) == s
  {
    if s != "" {
      DecodeNothing(s[1..]);
      assert s == [s[0]] + s[1..];
    }
  }

  /** Passes in such an order never decode anything twice: they are one reading of the text. */
  lemma PassesReadOnce(s: string, entities: seq<Entity>)
    requires Orderly(entities)
    ensures Passes(s, entities) == Decode(s, entities)
  {
    DecodeNothing(s);
    assert [] + entities == entities;
    RemainingPasses(s, [], entities);
  }

  const TITLE_ENTITIES: seq<Entity> := [
    Reference("&quot;", '"'), Reference("&#39;", '\''), Reference("&apos;", '\''),
    Reference("&lt;", '<'), Reference("&gt;", '>'), Reference("&amp;", '&')]

  lemma TitleEntitiesOrderly()
    ensures Orderly(TITLE_ENTITIES)
  {
  }

  /** The six passes over a title, ampersand last. */
  lemma TitleIsReadOnce(raw: string)
    ensures Orderly(TITLE_ENTITIES) && Passes(raw, TITLE_ENTITIES) == Decode(raw, TITLE_ENTITIES)
  {
    TitleEntitiesOrderly();
    PassesReadOnce(raw, TITLE_ENTITIES);
  }

  /** With the ampersand first, text that shows an entity would be decoded once too often. */
  lemma AmpersandFirstReadsTwice()
    ensures var swapped: seq<Entity> := [Reference("&amp;", '&'), Reference("&lt;", '<')];
            Passes("&amp;lt;", swapped) == "<" && Decode("&amp;lt;", swapped) == "&lt;"
  {
    var amp: Entity, lt: Entity := Reference("&amp;", '&'), Reference("&lt;", '<');
    var s := "&amp;lt;";
    assert s[5..] == "lt;" && "lt;"[1..] == "t;" && "t;"[1..] == ";" && ";"[1..] == "";
    assert Replace(";", amp) == ";" && Replace("t;", amp) == "t;" && Replace("lt;", amp) == "lt;";
    assert Replace(s, amp) == "&lt;";
    assert "&lt;"[4..] == "" && Replace("&lt;", lt) == "<";
    assert [amp, lt][1..] == [lt] && [lt][1..] == [];
    PlainTextIsCopied("lt;", "", [amp, lt]);
    assert "lt;" + "" == "lt;";
  }

  /** Two of the six names differ in their second or third character. */
  lemma TitleNamesApart(i: nat, j: nat) returns (k: nat)
    requires i < 6 && j < 6 && i != j
    ensures var m, n := TITLE_ENTITIES[i].name, TITLE_ENTITIES[j].name; k < |m| && k < |n| && m[k] != n[k]
  {
    k := if TITLE_ENTITIES[i].name[1] == TITLE_ENTITIES[j].name[1] then 2 else 1;
  }

  lemma TitleReads(i: nat, rest: string)
    requires i < 6
    ensures Decode(TITLE_ENTITIES[i].name + rest, TITLE_ENTITIES)
         == [TITLE_ENTITIES[i].value] + Decode(rest, TITLE_ENTITIES)
  {
    var s := TITLE_ENTITIES[i].name + rest;
    forall j | 0 <= j < 6 && j != i ensures !(TITLE_ENTITIES[j].name <= s) {
      var k := TitleNamesApart(i, j);
      assert s[k] == TITLE_ENTITIES[i].name[k];
    }
    ReferenceIsRead(TITLE_ENTITIES, i, rest);
  }

  /** Each reference of the six is read as the character it names, whatever follows. */
  lemma TitleReadsReference(rest: string)
    ensures Decode("&quot;" + rest, TITLE_ENTITIES) == "\"" + Decode(rest, TITLE_ENTITIES)
    ensures Decode("&#39;" + rest, TITLE_ENTITIES) == "'" + Decode(rest, TITLE_ENTITIES)
    ensures Decode("&apos;" + rest, TITLE_ENTITIES) == "'" + Decode(rest, TITLE_ENTITIES)
    ensures Decode("&lt;" + rest, TITLE_ENTITIES) == "<" + Decode(rest, TITLE_ENTITIES)
    ensures Decode("&gt;" + rest, TITLE_ENTITIES) == ">" + Decode(rest, TITLE_ENTITIES)
    ensures Decode("&amp;" + rest, TITLE_ENTITIES) == "&" + Decode(rest, TITLE_ENTITIES)
  {
    TitleReads(0, rest);
    TitleReads(1, rest);
    TitleReads(2, rest);
    TitleReads(3, rest);
    TitleReads(4, rest);
    TitleReads(5, rest);
  }

  lemma ReferenceIsRead(entities: seq<Entity>, i: nat, rest: string)
    requires i < |entities|
    requires forall j :: 0 <= j < |entities| && entities[j].name <= entities[i].name + rest ==> j == i
    ensures Decode(entities[i].name + rest, entities) == [entities[i].value] + Decode(rest, entities)
  {
    var e := entities[i];
    var s := e.name + rest;
    MatchIs(entities, i, s);
    assert s[|e.name|..] == rest;
  }

  lemma {:induction false} MatchIs(entities: seq<Entity>, i: nat, s: string)
    requires i < |entities| && entities[i].name <= s
    requires forall j :: 0 <= j < |entities| && entities[j].name <= s ==> j == i
    ensures Match(s, entities) == Some(entities[i])
  {
    if i > 0 {
      var tail := entities[1..];
      assert tail[i - 1] == entities[i] && forall j :: 0 <= j < |tail| ==> tail[j] == entities[j + 1];
      MatchIs(tail, i - 1, s);
    }
  }

  /** Anything that starts no such reference is left as it is. */
  lemma OthersStay(c: char, rest: string)
    requires forall i :: 0 <= i < 6 ==> !(TITLE_ENTITIES[i].name <= [c] + rest)
    ensures Decode([c] + rest, TITLE_ENTITIES) == [c] + Decode(rest, TITLE_ENTITIES)
  {
    assert ([c] + rest)[1..] == rest;
  }
}

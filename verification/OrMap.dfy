/** The observed-remove map: lists of dotted entries per key, tombstoned dots per key.

    `State` is the value of the two dictionaries. The class at the end updates them in place,
    one method per method of the original; each is proved to compute the function of the
    same name, and the lemmas in between say what those functions mean. */
module OrMap {
  import opened Common

  type Key = string
  type Value = string

  // A dot tags one put. The random part is a number no other put uses.
  datatype Dot = Dot(node: string, uuid: nat)

  datatype Entry = Entry(dot: Dot, value: Value)

  datatype State = State(entries: map<Key, seq<Entry>>, tombstones: map<Key, set<Dot>>)

  const EMPTY := State(map[], map[])

  function EntriesAt(es: map<Key, seq<Entry>>, k: Key): seq<Entry> {
    if k in es then es[k] else []
  }

  function DeadAt(t: map<Key, set<Dot>>, k: Key): set<Dot> {
    if k in t then t[k] else {}
  }

  function Listed(s: State, k: Key): seq<Entry> {
    EntriesAt(s.entries, k)
  }

  function Buried(s: State, k: Key): set<Dot> {
    DeadAt(s.tombstones, k)
  }

  function Dots(es: seq<Entry>): set<Dot> {
    set e <- es :: e.dot
  }

  // Every dot the state knows of: the listed ones and the tombstoned ones.
  function Seen(s: State, k: Key): set<Dot> {
    Dots(Listed(s, k)) + Buried(s, k)
  }

  // The dots that carry the value of a key.
  function Live(s: State, k: Key): set<Dot> {
    Dots(Listed(s, k)) - Buried(s, k)
  }

  ghost predicate LiveEntry(s: State, k: Key, e: Entry) {
    e in Listed(s, k) && e.dot !in Buried(s, k)
  }

  // ---------- the operations ----------

  function Bury(t: map<Key, set<Dot>>, k: Key, ds: set<Dot>): map<Key, set<Dot>> {
    if ds == {} then t else t[k := DeadAt(t, k) + ds]
  }

  function AfterPut(s: State, k: Key, v: Value, dot: Dot): State {
    State(s.entries[k := Listed(s, k) + [Entry(dot, v)]], Bury(s.tombstones, k, Dots(Listed(s, k))))
  }

  function AfterRemove(s: State, k: Key): State {
    State(s.entries - {k}, Bury(s.tombstones, k, Dots(Listed(s, k))))
  }

  function Absorb(mine: seq<Entry>, theirs: seq<Entry>, dead: set<Dot>): seq<Entry> {
    if theirs == [] then mine
    else
      var es := Absorb(mine, theirs[..|theirs| - 1], dead);
      var e := theirs[|theirs| - 1];
      if e.dot in dead || e.dot in Dots(es) then es else es + [e]
  }

  function Purge(es: seq<Entry>, dead: set<Dot>): seq<Entry> {
    if es == [] then []
    else
      var rest := Purge(es[..|es| - 1], dead);
      var e := es[|es| - 1];
      if e.dot in dead then rest else rest + [e]
  }

  // The three passes of a merge: join the tombstones, absorb the other entries, purge.
  function Merged(a: State, b: State): State {
    var dead := Joined(a.tombstones, b.tombstones);
    State(Purged(Absorbed(a.entries, b.entries, dead), dead), dead)
  }

  function Joined(t: map<Key, set<Dot>>, u: map<Key, set<Dot>>): map<Key, set<Dot>> {
    map k <- t.Keys + u.Keys :: DeadAt(t, k) + DeadAt(u, k)
  }

  function Absorbed(mine: map<Key, seq<Entry>>, theirs: map<Key, seq<Entry>>, dead: map<Key, set<Dot>>)
    : map<Key, seq<Entry>>
  {
    map k <- mine.Keys + theirs.Keys | AbsorbedAt(mine, theirs, dead, k) != [] || k in mine
      :: AbsorbedAt(mine, theirs, dead, k)
  }

  function AbsorbedAt(mine: map<Key, seq<Entry>>, theirs: map<Key, seq<Entry>>, dead: map<Key, set<Dot>>, k: Key)
    : seq<Entry>
  {
    Absorb(EntriesAt(mine, k), EntriesAt(theirs, k), DeadAt(dead, k))
  }

  function Purged(es: map<Key, seq<Entry>>, dead: map<Key, set<Dot>>): map<Key, seq<Entry>> {
    map k <- es | Purge(es[k], DeadAt(dead, k)) != [] :: Purge(es[k], DeadAt(dead, k))
  }

  function Lookup(s: State, k: Key): Option<Value> {
    if Listed(s, k) == [] then None else Some(Listed(s, k)[|Listed(s, k)| - 1].value)
  }

  function ActiveKeys(s: State): set<Key> {
    set k <- s.entries | s.entries[k] != []
  }

  // ---------- what the list passes compute ----------

  lemma DotsAppend(es: seq<Entry>, e: Entry)
    ensures Dots(es + [e]) == Dots(es) + {e.dot}
  {
  }

  lemma DistinctAppend(es: seq<Entry>, e: Entry)
    ensures DistinctDots(es + [e]) <==> DistinctDots(es) && forall f :: f in es ==> f.dot != e.dot
  {
    if DistinctDots(es + [e]) {
      forall f | f in es ensures f.dot != e.dot {
        var i :| 0 <= i < |es| && es[i] == f;
        assert (es + [e])[i] == f && (es + [e])[|es|] == e;
      }
      forall i, j | 0 <= i < j < |es| ensures es[i].dot != es[j].dot {
        assert (es + [e])[i] == es[i] && (es + [e])[j] == es[j];
      }
    }
  }

  lemma PurgeMeans(es: seq<Entry>, dead: set<Dot>)
    ensures forall e :: e in Purge(es, dead) <==> e in es && e.dot !in dead
    ensures Dots(Purge(es, dead)) == Dots(es) - dead
    ensures DistinctDots(es) ==> DistinctDots(Purge(es, dead))
  {
  }

  lemma {:induction false} AbsorbMeans(mine: seq<Entry>, theirs: seq<Entry>, dead: set<Dot>)
    ensures Dots(Absorb(mine, theirs, dead)) == Dots(mine) + (Dots(theirs) - dead)
    ensures forall e :: e in mine ==> e in Absorb(mine, theirs, dead)
    ensures forall e :: e in Absorb(mine, theirs, dead) ==> e in mine || e in theirs
    ensures DistinctDots(mine) ==> DistinctDots(Absorb(mine, theirs, dead))
  {
    if theirs != [] {
      var init, last := theirs[..|theirs| - 1], theirs[|theirs| - 1];
      AbsorbMeans(mine, init, dead);
      assert theirs == init + [last];
      DotsAppend(init, last);
      DotsAppend(Absorb(mine, init, dead), last);
      DistinctAppend(Absorb(mine, init, dead), last);
      hide DistinctDots;
    }
  }

  predicate DistinctDots(es: seq<Entry>) {
    forall i, j :: 0 <= i < j < |es| ==> es[i].dot != es[j].dot
  }

  // ---------- merge is a join on (seen, tombstoned) ----------

  lemma MergedAt(a: State, b: State, k: Key)
    ensures Buried(Merged(a, b), k) == Buried(a, k) + Buried(b, k)
    ensures var dead := Buried(a, k) + Buried(b, k);
            Listed(Merged(a, b), k) == Purge(Absorb(Listed(a, k), Listed(b, k), dead), dead)
  {
  }

  // What is left of a key after a merge.
  lemma MergedListMeans(a: State, b: State, k: Key)
    ensures Buried(Merged(a, b), k) == Buried(a, k) + Buried(b, k)
    ensures Dots(Listed(Merged(a, b), k)) == Dots(Listed(a, k)) + Dots(Listed(b, k)) - (Buried(a, k) + Buried(b, k))
    ensures forall e :: e in Listed(Merged(a, b), k) ==> e in Listed(a, k) || e in Listed(b, k)
    ensures DistinctDots(Listed(a, k)) ==> DistinctDots(Listed(Merged(a, b), k))
  {
    hide *;
    var dead := Buried(a, k) + Buried(b, k);
    MergedAt(a, b, k);
    AbsorbMeans(Listed(a, k), Listed(b, k), dead);
    PurgeMeans(Absorb(Listed(a, k), Listed(b, k), dead), dead);
  }

  lemma MergeJoins(a: State, b: State, k: Key)
    ensures Buried(Merged(a, b), k) == Buried(a, k) + Buried(b, k)
    ensures Seen(Merged(a, b), k) == Seen(a, k) + Seen(b, k)
    ensures Live(Merged(a, b), k) == Seen(a, k) + Seen(b, k) - (Buried(a, k) + Buried(b, k))
    ensures Live(Merged(a, b), k) == Dots(Listed(Merged(a, b), k))
  {
    MergedListMeans(a, b, k);
  }

  // Two states a reader of the lattice cannot tell apart.
  ghost predicate Same(a: State, b: State) {
    forall k :: Seen(a, k) == Seen(b, k) && Buried(a, k) == Buried(b, k)
  }

  ghost predicate Below(a: State, b: State) {
    forall k :: Seen(a, k) <= Seen(b, k) && Buried(a, k) <= Buried(b, k)
  }

  lemma MergeIsLeastUpperBound(a: State, b: State, c: State)
    ensures Below(a, Merged(a, b)) && Below(b, Merged(a, b))
    ensures Below(a, c) && Below(b, c) <==> Below(Merged(a, b), c)
  {
    hide Seen, Buried, Live, Listed, Merged;
    forall k { MergeJoins(a, b, k); }
    if Below(Merged(a, b), c) {
      forall k ensures Seen(a, k) <= Seen(c, k) && Buried(a, k) <= Buried(c, k)
               ensures Seen(b, k) <= Seen(c, k) && Buried(b, k) <= Buried(c, k)
      {
        MergeJoins(a, b, k);
      }
    }
  }

  lemma MergeLaws(a: State, b: State, c: State)
    ensures Same(Merged(a, b), Merged(b, a))
    ensures Same(Merged(Merged(a, b), c), Merged(a, Merged(b, c)))
    ensures Same(Merged(a, a), a)
  {
    hide Seen, Buried, Live, Listed, Merged;
    forall k
      ensures Seen(Merged(a, b), k) == Seen(Merged(b, a), k) && Buried(Merged(a, b), k) == Buried(Merged(b, a), k)
    {
      MergeJoins(a, b, k);
      MergeJoins(b, a, k);
    }
    forall k
      ensures Seen(Merged(Merged(a, b), c), k) == Seen(Merged(a, Merged(b, c)), k)
      ensures Buried(Merged(Merged(a, b), c), k) == Buried(Merged(a, Merged(b, c)), k)
    {
      MergeJoins(a, b, k);
      MergeJoins(Merged(a, b), c, k);
      MergeJoins(b, c, k);
      MergeJoins(a, Merged(b, c), k);
    }
    forall k { MergeJoins(a, a, k); }
  }

  lemma BuryOneMore(t: map<Key, set<Dot>>, k: Key, ds: set<Dot>, d: Dot)
    ensures Bury(Bury(t, k, ds), k, {d}) == Bury(t, k, ds + {d})
  {
    if k in t {
      assert t[k] + ds + {d} == t[k] + (ds + {d});
    } else {
      assert ({} + ds) + {d} == {} + (ds + {d});
    }
  }

  // A put supersedes exactly what was seen; a remove buries exactly what was seen.
  lemma UpdatesBurySeen(s: State, k: Key, v: Value, dot: Dot, j: Key)
    ensures Buried(AfterRemove(s, k), j) == if j == k then Seen(s, k) else Buried(s, j)
    ensures Seen(AfterRemove(s, k), j) == Seen(s, j)
    ensures Buried(AfterPut(s, k, v, dot), j) == if j == k then Seen(s, k) else Buried(s, j)
    ensures Seen(AfterPut(s, k, v, dot), j) == if j == k then Seen(s, k) + {dot} else Seen(s, j)
  {
  }

  // The list of a key keeps what it has on a put, the new value last; nothing else moves.
  lemma PutAppends(s: State, k: Key, v: Value, dot: Dot, j: Key)
    ensures Listed(AfterPut(s, k, v, dot), j) == if j == k then Listed(s, k) + [Entry(dot, v)] else Listed(s, j)
    ensures Listed(AfterRemove(s, k), j) == if j == k then [] else Listed(s, j)
  {
  }

  // ---------- the order of a merged list ----------

  // The entries not tombstoned, in order.
  ghost function Surviving(es: seq<Entry>, dead: set<Dot>): seq<Entry> {
    if es == [] then []
    else if es[0].dot in dead then Surviving(es[1..], dead)
    else [es[0]] + Surviving(es[1..], dead)
  }

  // The entries with a dot not known, in order, each dot once.
  ghost function Newcomers(es: seq<Entry>, known: set<Dot>): seq<Entry> {
    if es == [] then []
    else if es[0].dot in known then Newcomers(es[1..], known)
    else [es[0]] + Newcomers(es[1..], known + {es[0].dot})
  }

  lemma {:induction false} SurvivingAppend(es: seq<Entry>, e: Entry, dead: set<Dot>)
    ensures Surviving(es + [e], dead) == Surviving(es, dead) + if e.dot in dead then [] else [e]
  {
    if es != [] {
      assert (es + [e])[1..] == es[1..] + [e];
      SurvivingAppend(es[1..], e, dead);
    }
  }

  lemma {:induction false} PurgeSurvives(es: seq<Entry>, dead: set<Dot>)
    ensures Purge(es, dead) == Surviving(es, dead)
  {
    if es != [] {
      assert es == es[..|es| - 1] + [es[|es| - 1]];
      PurgeSurvives(es[..|es| - 1], dead);
      SurvivingAppend(es[..|es| - 1], es[|es| - 1], dead);
    }
  }

  lemma {:induction false} SurvivingJoins(a: seq<Entry>, b: seq<Entry>, dead: set<Dot>)
    ensures Surviving(a + b, dead) == Surviving(a, dead) + Surviving(b, dead)
  {
    if a == [] {
      assert a + b == b;
    } else {
      assert (a + b)[1..] == a[1..] + b;
      SurvivingJoins(a[1..], b, dead);
    }
  }

  lemma {:induction false} NewcomersAppend(es: seq<Entry>, e: Entry, known: set<Dot>)
    ensures Newcomers(es + [e], known) ==
            Newcomers(es, known) + if e.dot in known || e.dot in Dots(es) then [] else [e]
  {
    if es == [] {
      assert es + [e] == [e];
    } else {
      assert (es + [e])[1..] == es[1..] + [e] && (es + [e])[0] == es[0];
      assert es == [es[0]] + es[1..];
      NewcomersAppend(es[1..], e, known);
      NewcomersAppend(es[1..], e, known + {es[0].dot});
    }
  }

  lemma {:induction false} AbsorbAppendsNew(mine: seq<Entry>, theirs: seq<Entry>, dead: set<Dot>)
    ensures Absorb(mine, theirs, dead) == mine + Newcomers(theirs, dead + Dots(mine))
  {
    if theirs != [] {
      var init, e := theirs[..|theirs| - 1], theirs[|theirs| - 1];
      assert theirs == init + [e];
      AbsorbAppendsNew(mine, init, dead);
      NewcomersAppend(init, e, dead + Dots(mine));
      AbsorbMeans(mine, init, dead);
    }
  }

  lemma {:induction false} NewcomersSurvive(es: seq<Entry>, known: set<Dot>, dead: set<Dot>)
    requires dead <= known
    ensures Surviving(Newcomers(es, known), dead) == Newcomers(es, known)
  {
    if es != [] {
      NewcomersSurvive(es[1..], known, dead);
      NewcomersSurvive(es[1..], known + {es[0].dot}, dead);
    }
  }

  // A merge lists my live entries in my order, then the other's live entries that are new to
  // me in the other's order; `get` reads the last of these.
  lemma MergedInOrder(a: State, b: State, k: Key)
    ensures var dead := Buried(a, k) + Buried(b, k);
      Listed(Merged(a, b), k)
      == Surviving(Listed(a, k), dead) + Newcomers(Listed(b, k), dead + Dots(Listed(a, k)))
  {
    hide *;
    var dead := Buried(a, k) + Buried(b, k);
    MergedAt(a, b, k);
    AbsorbAppendsNew(Listed(a, k), Listed(b, k), dead);
    PurgeSurvives(Absorb(Listed(a, k), Listed(b, k), dead), dead);
    SurvivingJoins(Listed(a, k), Newcomers(Listed(b, k), dead + Dots(Listed(a, k))), dead);
    NewcomersSurvive(Listed(b, k), dead + Dots(Listed(a, k)), dead);
  }

  // ---------- shape kept by every operation ----------

  // Lists are never empty, dots in a list differ, and the last entry is not tombstoned.
  ghost predicate WellFormed(s: State) {
    forall k :: k in s.entries ==>
      s.entries[k] != [] && DistinctDots(s.entries[k])
      && s.entries[k][|s.entries[k]| - 1].dot !in Buried(s, k)
  }

  lemma PutKeepsShape(s: State, k: Key, v: Value, dot: Dot)
    requires WellFormed(s) && dot !in Seen(s, k)
    ensures WellFormed(AfterPut(s, k, v, dot))
  {
    var es := Listed(s, k);
    assert forall i :: 0 <= i < |es| ==> es[i].dot in Dots(es);
  }

  lemma RemoveKeepsShape(s: State, k: Key)
    requires WellFormed(s)
    ensures WellFormed(AfterRemove(s, k))
  {
  }

  lemma MergeKeepsShape(a: State, b: State)
    requires WellFormed(a) && WellFormed(b)
    ensures WellFormed(Merged(a, b))
  {
    var m := Merged(a, b);
    forall k | k in m.entries
      ensures m.entries[k] != [] && DistinctDots(m.entries[k])
      ensures m.entries[k][|m.entries[k]| - 1].dot !in Buried(m, k)
    {
      MergedListMeans(a, b, k);
      LastIsLive(m.entries[k], Buried(m, k));
    }
  }

  lemma LastIsLive(es: seq<Entry>, dead: set<Dot>)
    requires es != [] && Dots(es) !! dead
    ensures es[|es| - 1].dot !in dead
  {
  }

  // What a reader sees: the keys with a live dot, and for each the value of a live entry.
  lemma ReadsAreLive(s: State, k: Key)
    requires WellFormed(s)
    ensures k in ActiveKeys(s) <==> Live(s, k) != {}
    ensures Lookup(s, k).Some? <==> k in ActiveKeys(s)
    ensures Lookup(s, k).Some? ==> exists e :: LiveEntry(s, k, e) && Lookup(s, k) == Some(e.value)
  {
    if k in s.entries {
      var e := s.entries[k][|s.entries[k]| - 1];
      assert LiveEntry(s, k, e) && e.dot in Live(s, k);
    }
  }

  // ---------- what the loops of a merge keep ----------

  // The other map's tombstones have been joined in at all of its keys but these.
  ghost predicate JoinedExcept(
    t: map<Key, set<Dot>>, mine: map<Key, set<Dot>>, theirs: map<Key, set<Dot>>, todo: set<Key>)
  {
    && todo <= theirs.Keys && t.Keys == mine.Keys + (theirs.Keys - todo)
    && forall k :: k in t ==> t[k] == DeadAt(mine, k) + if k in todo then {} else DeadAt(theirs, k)
  }

  lemma JoinedAtKey(
    t: map<Key, set<Dot>>, mine: map<Key, set<Dot>>, theirs: map<Key, set<Dot>>, todo: set<Key>, key: Key)
    requires JoinedExcept(t, mine, theirs, todo) && key in todo
    ensures JoinedExcept(t[key := DeadAt(t, key) + theirs[key]], mine, theirs, todo - {key})
  {
    var next := t[key := DeadAt(t, key) + theirs[key]];
    assert DeadAt(t, key) == DeadAt(mine, key);
    forall k | k in next && k != key
      ensures next[k] == DeadAt(mine, k) + if k in todo - {key} then {} else DeadAt(theirs, k)
    {
      assert next[k] == t[k];
    }
  }

  lemma AbsorbNone(mine: seq<Entry>, dead: set<Dot>)
    ensures Absorb(mine, [], dead) == mine
  {
  }

  lemma AbsorbStep(mine: seq<Entry>, theirs: seq<Entry>, dead: set<Dot>, i: nat)
    requires i < |theirs|
    ensures var es, e := Absorb(mine, theirs[..i], dead), theirs[i];
      Absorb(mine, theirs[..i + 1], dead) == if e.dot in dead || e.dot in Dots(es) then es else es + [e]
  {
    assert theirs[..i + 1][..i] == theirs[..i];
    hide Dots;
  }

  // ---------- the object ----------

  class ORMap {
    var entries: map<Key, seq<Entry>>
    var tombstones: map<Key, set<Dot>>

    function Contents(): State
      reads this
    {
      State(entries, tombstones)
    }

    constructor ()
      ensures entries == map[] && tombstones == map[] && Contents() == EMPTY
    {
      entries, tombstones := map[], map[];
    }

    method BuryListed(key: Key)
      modifies this`tombstones
      ensures Contents() == State(old(entries), Bury(old(tombstones), key, Dots(Listed(old(Contents()), key))))
    {
      if key in entries {
        var es := entries[key];
        assert es[..0] == [];
        for i := 0 to |es|
          invariant tombstones == Bury(old(tombstones), key, Dots(es[..i]))
        {
          assert es[..i + 1] == es[..i] + [es[i]];
          DotsAppend(es[..i], es[i]);
          BuryOneMore(old(tombstones), key, Dots(es[..i]), es[i].dot);
          tombstones := tombstones[key := DeadAt(tombstones, key) + {es[i].dot}];
        }
        assert es[..|es|] == es;
      }
    }

    method Put(key: Key, value: Value, dot: Dot)
      modifies this
      ensures Contents() == AfterPut(old(Contents()), key, value, dot)
    {
      BuryListed(key);
      entries := entries[key := EntriesAt(entries, key) + [Entry(dot, value)]];
    }

    method Remove(key: Key)
      modifies this
      ensures Contents() == AfterRemove(old(Contents()), key)
    {
      BuryListed(key);
      entries := entries - {key};
    }

    method Get(key: Key) returns (r: Option<Value>)
      ensures r == Lookup(Contents(), key)
    {
      if key !in entries || entries[key] == [] {
        return None;
      }
      return Some(entries[key][|entries[key]| - 1].value);
    }

    method Merge(other: ORMap)
      modifies this
      ensures Contents() == Merged(old(Contents()), old(other.Contents()))
    {
      var theirTombstones, theirEntries := other.tombstones, other.entries;
      MergeTombstones(theirTombstones);
      AbsorbAll(theirEntries);
      PurgeAll();
    }

    // First pass: union of the tombstones, the keys in any order.
    method MergeTombstones(theirs: map<Key, set<Dot>>)
      modifies this`tombstones
      ensures tombstones == Joined(old(tombstones), theirs)
    {
      var todo := theirs.Keys;
      while todo != {}
        invariant JoinedExcept(tombstones, old(tombstones), theirs, todo)
        decreases todo
      {
        var key :| key in todo;
        JoinedAtKey(tombstones, old(tombstones), theirs, todo, key);
        tombstones := tombstones[key := DeadAt(tombstones, key) + theirs[key]];
        todo := todo - {key};
      }
    }

    // Second pass: every key of the other map in turn, in any order.
    method AbsorbAll(theirs: map<Key, seq<Entry>>)
      modifies this`entries
      ensures entries == Absorbed(old(entries), theirs, tombstones)
    {
      var todo := theirs.Keys;
      while todo != {}
        invariant todo <= theirs.Keys
        invariant forall k :: k in todo ==>
          (k in entries <==> k in old(entries)) && EntriesAt(entries, k) == EntriesAt(old(entries), k)
        invariant forall k :: k !in todo ==>
          var all := AbsorbedAt(old(entries), theirs, tombstones, k);
          (k in entries <==> all != [] || k in old(entries)) && EntriesAt(entries, k) == all
        decreases todo
      {
        var key :| key in todo;
        AbsorbKey(key, theirs[key]);
        todo := todo - {key};
      }
    }

    // Second pass, inner loop: append the entries of one key that are neither dead nor known.
    method AbsorbKey(key: Key, theirs: seq<Entry>)
      modifies this`entries
      ensures var merged := Absorb(Listed(old(Contents()), key), theirs, Buried(old(Contents()), key));
              entries == if key !in old(entries) && merged == [] then old(entries) else old(entries)[key := merged]
    {
      hide Absorb, Dots;
      ghost var mine, dead := Listed(Contents(), key), Buried(Contents(), key);
      assert theirs[..0] == [];
      AbsorbNone(mine, dead);
      for i := 0 to |theirs|
        invariant var merged := Absorb(mine, theirs[..i], dead);
                  entries == if key !in old(entries) && merged == [] then old(entries) else old(entries)[key := merged]
      {
        AbsorbStep(mine, theirs, dead, i);
        var e := theirs[i];
        if e.dot !in DeadAt(tombstones, key) {
          var listed := EntriesAt(entries, key);
          if e.dot !in Dots(listed) {
            entries := entries[key := listed + [e]];
          }
        }
      }
      assert theirs[..|theirs|] == theirs;
    }

    // Third pass: drop tombstoned entries, and keys left with none.
    method PurgeAll()
      modifies this`entries
      ensures entries == Purged(old(entries), tombstones)
    {
      var todo := entries.Keys;
      while todo != {}
        invariant todo <= old(entries).Keys && todo <= entries.Keys <= old(entries).Keys
        invariant forall k :: k in todo ==> entries[k] == old(entries)[k]
        invariant forall k :: k in old(entries) && k !in todo ==>
          var kept := Purge(old(entries)[k], Buried(old(Contents()), k));
          (k in entries <==> kept != []) && (k in entries ==> entries[k] == kept)
        decreases todo
      {
        var key :| key in todo;
        var kept := PurgeList(entries[key], DeadAt(tombstones, key));
        entries := entries[key := kept];
        if entries[key] == [] {
          entries := entries - {key};
        }
        todo := todo - {key};
      }
    }
  }

  method PurgeList(es: seq<Entry>, dead: set<Dot>) returns (kept: seq<Entry>)
    ensures kept == Purge(es, dead)
  {
    kept := [];
    for i := 0 to |es|
      invariant kept == Purge(es[..i], dead)
    {
      assert es[..i + 1][..i] == es[..i];
      if es[i].dot !in dead {
        kept := kept + [es[i]];
      }
    }
    assert es[..|es|] == es;
  }
}

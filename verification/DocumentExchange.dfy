/** What the convergence theorem means for the exchanges the store is used for, and where
    stores that exchange their edits stay apart. */
module DocumentExchange {
  import opened DocumentStore
  import opened DocumentWeave
  import opened DocumentConvergence

  // ---------- commands as edits ----------

  // The range a command replaces, and by what. A replace may be called with a negative length.
  function RangeOf(c: Command): Edit {
    EditOf(Issued(NewDoc(""), c))
  }

  predicate NotNegative(c: Command) {
    c.ReplaceAt? ==> c.length >= 0
  }

  lemma IssuedShape(base: Text, c: Command)
    requires Valid(base, c) && NotNegative(c)
    ensures var op := Issued(NewDoc(base), c);
      && WellShaped(op) && EditOf(op) == RangeOf(c) && op.user == c.user && op.id == c.id
      && RangeOf(c) == Edit(op.position, op.length, op.text)
      && RangeOf(c).position + RangeOf(c).length <= |base|
  {
  }

  ghost predicate ByDifferentUsers(commands: seq<Command>) {
    forall i, j :: 0 <= i < j < |commands| ==>
      commands[i].user != commands[j].user && commands[i].id != commands[j].id
  }

  ghost predicate ValidOn(base: Text, commands: seq<Command>) {
    forall i :: 0 <= i < |commands| ==> Valid(base, commands[i]) && NotNegative(commands[i])
  }

  ghost predicate AllApart(edits: seq<Edit>) {
    forall i, j :: 0 <= i < |edits| && 0 <= j < |edits| && i != j ==> Apart(edits[i], edits[j])
  }

  function Ranges(commands: seq<Command>): seq<Edit> {
    seq(|commands|, i requires 0 <= i < |commands| => RangeOf(commands[i]))
  }

  // What makes commands compatible, said of the commands.
  lemma CommandsAreCompatible(base: Text, commands: seq<Command>)
    requires |commands| <= LOG_LIMIT && ByDifferentUsers(commands) && ValidOn(base, commands)
    requires AllApart(Ranges(commands)) && PointsKeptApart(Ranges(commands))
    ensures CompatibleCommands(base, commands) && Edits(Ops(base, commands)) == Ranges(commands)
  {
    var ops, edits := Ops(base, commands), Ranges(commands);
    hide Valid, NotNegative, RangeOf, EditOf, Issued, WellShaped, Apart, PointsKeptApart;
    forall i | 0 <= i < |commands|
      ensures Valid(base, commands[i]) && WellShaped(ops[i]) && Edits(ops)[i] == edits[i]
      ensures ops[i].user == commands[i].user && ops[i].id == commands[i].id
      ensures edits[i].position + edits[i].length <= |base|
    {
      IssuedShape(base, commands[i]);
    }
    assert Edits(ops) == edits;
  }

  // ---------- inserts at different places ----------

  ghost predicate DistinctInserts(base: Text, commands: seq<Command>) {
    && |commands| <= LOG_LIMIT
    && ByDifferentUsers(commands) && ValidOn(base, commands)
    && (forall i :: 0 <= i < |commands| ==> commands[i].InsertAt?)
    && (forall i, j :: 0 <= i < j < |commands| ==> commands[i].position != commands[j].position)
  }

  // The base with a text before some of its characters and after the last.
  function Spread(base: Text, texts: map<int, Text>, n: nat): Text
    requires n <= |base|
  {
    (if n == 0 then "" else Spread(base, texts, n - 1) + [base[n - 1]])
    + if n in texts then texts[n] else ""
  }

  lemma InsertsAreCompatible(base: Text, commands: seq<Command>)
    requires DistinctInserts(base, commands)
    ensures CompatibleCommands(base, commands) && Edits(Ops(base, commands)) == Ranges(commands)
  {
    var edits := Ranges(commands);
    forall k, j | 0 <= k < |edits| && 0 <= j < |edits| && edits[k].position < edits[j].position
      ensures KeptSomewhere(edits, edits[k].position, edits[j].position)
    {
      assert Kept(edits, edits[k].position);
    }
    CommandsAreCompatible(base, commands);
  }

  ghost predicate TextsOf(commands: seq<Command>, texts: map<int, Text>) {
    (forall g :: g in texts <==> exists i :: 0 <= i < |commands| && commands[i].position == g)
    && (forall i :: 0 <= i < |commands| ==> commands[i].position in texts)
    && (forall i :: 0 <= i < |commands| && commands[i].InsertAt? && commands[i].position in texts ==>
          texts[commands[i].position] == commands[i].text)
  }

  lemma InsertPieces(base: Text, commands: seq<Command>, texts: map<int, Text>, done: set<nat>, g: nat)
    requires DistinctInserts(base, commands) && TextsOf(commands, texts)
    requires g <= |base| && forall i :: 0 <= i < |commands| ==> i in done
    ensures var edits := Edits(Ops(base, commands));
      && Inserted(edits, done, g) == (if g in texts then texts[g] else "")
      && Character(base, edits, done, g) == if g < |base| then [base[g]] else ""
  {
    InsertsAreCompatible(base, commands);
    PlanOfInserts(base, commands);
    var edits := Ranges(commands);
    hide Plan, CompatibleCommands, Ops, Edits, DistinctInserts, Inserted, Character;
    if i :| 0 <= i < |commands| && commands[i].position == g {
      assert InsertsAt(edits, done, i, g);
      InsertedIs(base, edits, done, i, g);
    } else {
      NothingInserted(edits, done, g);
    }
    NothingCovered(base, edits, done, g);
  }

  lemma PlanOfInserts(base: Text, commands: seq<Command>)
    requires DistinctInserts(base, commands)
    ensures CompatibleCommands(base, commands) && Plan(base, Ranges(commands))
    ensures forall i :: 0 <= i < |commands| ==>
      commands[i].InsertAt? && Ranges(commands)[i] == Edit(commands[i].position, 0, commands[i].text)
  {
    InsertsAreCompatible(base, commands);
    hide Plan;
  }

  lemma NothingInserted(edits: seq<Edit>, done: set<nat>, g: nat)
    requires forall i :: 0 <= i < |edits| ==> edits[i].position != g
    ensures Inserted(edits, done, g) == ""
  {
  }

  lemma NothingCovered(base: Text, edits: seq<Edit>, done: set<nat>, g: nat)
    requires forall i :: 0 <= i < |edits| ==> edits[i].length == 0
    ensures Character(base, edits, done, g) == if g < |base| then [base[g]] else ""
  {
  }

  lemma {:induction false} WovenInserts(
    base: Text, commands: seq<Command>, texts: map<int, Text>, done: set<nat>, b: nat)
    requires DistinctInserts(base, commands) && TextsOf(commands, texts)
    requires b <= |base| && forall i :: 0 <= i < |commands| ==> i in done
    ensures Woven(base, Edits(Ops(base, commands)), done, 0, b)
            + Inserted(Edits(Ops(base, commands)), done, b) == Spread(base, texts, b)
  {
    hide *;
    var edits := Edits(Ops(base, commands));
    InsertPieces(base, commands, texts, done, b);
    WovenStep(base, edits, done, 0, b);
    SpreadStep(base, texts, b);
    if b > 0 {
      InsertPieces(base, commands, texts, done, b - 1);
      WovenInserts(base, commands, texts, done, b - 1);
      WovenStep(base, edits, done, 0, b - 1);
      var before, last := Woven(base, edits, done, 0, b - 1), Inserted(edits, done, b - 1);
      assert before + (last + [base[b - 1]]) == before + last + [base[b - 1]];
    }
  }

  lemma SpreadStep(base: Text, texts: map<int, Text>, n: nat)
    requires n <= |base|
    ensures Spread(base, texts, n) ==
            (if n == 0 then "" else Spread(base, texts, n - 1) + [base[n - 1]]) + if n in texts then texts[n] else ""
  {
  }

  // Any number of users, up to the log's capacity, insert at different places of one base:
  // whoever has received all the inserts, in whatever order and however often, holds the
  // base with every text at its own place.
  lemma InsertsConverge(
    base: Text, commands: seq<Command>, texts: map<int, Text>, own: nat, deliveries: seq<nat>)
    requires DistinctInserts(base, commands) && own < |commands| && Within(deliveries, |commands|)
    requires TextsOf(commands, texts)
    requires forall i :: 0 <= i < |commands| ==> i == own || i in deliveries
    ensures |Ops(base, commands)| == |commands|
    ensures Delivered(AfterLocal(NewDoc(base), commands[own]), Ops(base, commands), deliveries).content
         == Spread(base, texts, |base|)
  {
    var done := {own} + Indices(deliveries);
    var edits := Edits(Ops(base, commands));
    assert forall i :: 0 <= i < |commands| ==> i in done;
    InsertsAreCompatible(base, commands);
    ReplicaHoldsWeave(base, commands, own, deliveries);
    WovenInserts(base, commands, texts, done, |base|);
    LastPiece(base, edits, done);
  }

  lemma LastPiece(base: Text, edits: seq<Edit>, done: set<nat>)
    requires Plan(base, edits)
    ensures Content(base, edits, done) == Woven(base, edits, done, 0, |base|) + Inserted(edits, done, |base|)
  {
  }

  // ---------- two stores that merge with each other ----------

  // What a merges from b, then what b merges from a.
  function FirstMerged(base: Text, x: Command, y: Command): Doc {
    Merged(AfterLocal(NewDoc(base), x), AfterLocal(NewDoc(base), y).log).doc
  }

  function SecondMerged(base: Text, x: Command, y: Command): Doc {
    Merged(AfterLocal(NewDoc(base), y), FirstMerged(base, x, y).log).doc
  }

  ghost predicate TwoAuthors(base: Text, x: Command, y: Command) {
    Valid(base, x) && Valid(base, y) && x.user != y.user && x.id != y.id
  }

  // Each store applies the other's original operation; the copy of its own that comes back
  // is known by its id and skipped.
  lemma MergesExchange(base: Text, x: Command, y: Command)
    requires TwoAuthors(base, x, y)
    ensures FirstMerged(base, x, y) == AfterRemote(AfterLocal(NewDoc(base), x), Issued(NewDoc(base), y))
    ensures SecondMerged(base, x, y) == AfterRemote(AfterLocal(NewDoc(base), y), Issued(NewDoc(base), x))
  {
    var a, b := AfterLocal(NewDoc(base), x), AfterLocal(NewDoc(base), y);
    var opX, opY := Issued(NewDoc(base), x), Issued(NewDoc(base), y);
    OwnEdit(base, x);
    OwnEdit(base, y);
    MergedOne(a, opY);
    var a' := AfterRemote(a, opY);
    assert FirstMerged(base, x, y) == a';
    LogAfterRemote(a, opY);
    MergedOne(b, opX);
    if |a'.log| == 2 {
      MergedKnown(b, opX, a'.log[1]);
      assert a'.log == [opX, a'.log[1]];
    } else {
      assert a'.log == [opX];
    }
  }

  lemma MergedOne(d: Doc, op: Operation)
    requires op.id !in d.operations
    ensures Merged(d, [op]).doc == AfterRemote(d, op)
  {
  }

  lemma MergedKnown(d: Doc, op: Operation, own: Operation)
    requires op.id !in d.operations && own.id in d.operations && op.id != own.id && |d.log| <= 1
    requires d.operations.Keys == {own.id} && d.log != [] && d.log[0].id == own.id
    ensures Merged(d, [op, own]).doc == AfterRemote(d, op)
  {
    MergedOne(d, op);
    assert [op, own][..1] == [op];
    assert own.id in AfterRemote(d, op).operations;
  }

  lemma LogAfterRemote(d: Doc, op: Operation)
    requires |d.log| == 1
    ensures var a := AfterRemote(d, op);
      a.log == d.log || (|a.log| == 2 && a.log[0] == d.log[0] && a.log[1].id == op.id)
  {
  }

  lemma PairIsCompatible(base: Text, x: Command, y: Command)
    requires TwoAuthors(base, x, y) && NotNegative(x) && NotNegative(y) && Apart(RangeOf(x), RangeOf(y))
    ensures CompatibleCommands(base, [x, y])
    ensures Edits(Ops(base, [x, y])) == [RangeOf(x), RangeOf(y)]
  {
    var edits := Ranges([x, y]);
    assert edits == [RangeOf(x), RangeOf(y)];
    hide RangeOf, NotNegative, Valid;
    forall k, j | 0 <= k < |edits| && 0 <= j < |edits|
      && edits[k].length == 0 && edits[j].length == 0 && edits[k].position < edits[j].position
      ensures KeptSomewhere(edits, edits[k].position, edits[j].position)
    {
      assert Kept(edits, edits[k].position);
    }
    CommandsAreCompatible(base, [x, y]);
  }

  // Two edits of disjoint ranges, and not two insertions at one point, give equal contents
  // after the two merges: for all kinds, the base with both ranges replaced.
  lemma DisjointEditsConverge(base: Text, x: Command, y: Command)
    requires TwoAuthors(base, x, y) && NotNegative(x) && NotNegative(y)
    requires Apart(RangeOf(x), RangeOf(y)) && LeftOf(RangeOf(x), RangeOf(y))
    ensures var e, f := RangeOf(x), RangeOf(y);
      && f.position + f.length <= |base|
      && var both := base[..e.position] + e.text + base[e.position + e.length..f.position]
                     + f.text + base[f.position + f.length..];
      && FirstMerged(base, x, y).content == both && SecondMerged(base, x, y).content == both
      && FirstMerged(base, y, x).content == both && SecondMerged(base, y, x).content == both
  {
    hide *;
    var ops, edits := Ops(base, [x, y]), Edits(Ops(base, [x, y]));
    TwoAuthorsMeans(base, x, y);
    PairIsCompatible(base, x, y);
    MergesExchange(base, x, y);
    MergesExchange(base, y, x);
    DeliveredOne(base, x, y, 0, 1);
    DeliveredOne(base, x, y, 1, 0);
    WovenPair(base, x, y);
    assert {0} + {1} == {1} + {0};
  }

  lemma TwoAuthorsMeans(base: Text, x: Command, y: Command)
    requires TwoAuthors(base, x, y)
    ensures TwoAuthors(base, y, x)
    ensures Valid(base, x) && Valid(base, y) && x.user != y.user && x.id != y.id
  {
  }

  lemma DeliveredOne(base: Text, x: Command, y: Command, own: nat, other: nat)
    requires CompatibleCommands(base, [x, y]) && own < 2 && other < 2
    ensures AfterRemote(AfterLocal(NewDoc(base), [x, y][own]), Issued(NewDoc(base), [x, y][other])).content
         == Content(base, Edits(Ops(base, [x, y])), {own} + {other})
  {
    var commands := [x, y];
    var d := AfterLocal(NewDoc(base), commands[own]);
    OpsAre(base, commands, other);
    assert [other][..0] == [] && Indices([other]) == {other};
    assert Delivered(d, Ops(base, commands), [other]) == AfterRemote(d, Ops(base, commands)[other]);
    hide CompatibleCommands, AfterRemote, AfterLocal, Content;
    ReplicaHoldsWeave(base, commands, own, [other]);
  }

  lemma WovenPair(base: Text, x: Command, y: Command)
    requires CompatibleCommands(base, [x, y]) && LeftOf(RangeOf(x), RangeOf(y))
    requires Edits(Ops(base, [x, y])) == [RangeOf(x), RangeOf(y)]
    ensures var e, f := RangeOf(x), RangeOf(y);
      && e.position + e.length <= f.position && f.position + f.length <= |base|
      && Content(base, Edits(Ops(base, [x, y])), {1} + {0})
      == base[..e.position] + e.text + base[e.position + e.length..f.position] + f.text + base[f.position + f.length..]
  {
    hide *;
    var edits, e, f := Edits(Ops(base, [x, y])), RangeOf(x), RangeOf(y);
    LeftMeans(e, f);
    OpsAre(base, [x, y], 0);
    CompatibleFits(base, Ops(base, [x, y]), 0);
    PlanFits(base, edits, 1);
    NothingDone(base, edits);
    SpliceAtTarget(base, edits, {}, 1);
    UnmovedByRight(base, edits, {}, 1, 0);
    SpliceAtTarget(base, edits, {1}, 0);
    assert {} + {1} == {1};
    TwoSplices(base, e.position, e.length, e.text, f.position, f.length, f.text);
  }

  lemma TwoSplices(base: Text, p: nat, l: nat, s: Text, q: nat, m: nat, t: Text)
    requires p + l <= q && q + m <= |base|
    ensures Splice(Splice(base, q, m, t), p, l, s) == base[..p] + s + base[p + l..q] + t + base[q + m..]
  {
  }

  // ---------- where stores stay apart ----------

  // Two insertions at one point: the stores agree exactly when the texts commute.
  lemma SamePoint(base: Text, x: Command, y: Command)
    requires TwoAuthors(base, x, y) && RangeOf(x).length == 0 && RangeOf(y).length == 0
    requires NotNegative(x) && NotNegative(y) && RangeOf(x).position == RangeOf(y).position
    ensures var p, s, t := RangeOf(x).position, RangeOf(x).text, RangeOf(y).text;
      && p <= |base|
      && FirstMerged(base, x, y).content == base[..p] + (s + t) + base[p..]
      && SecondMerged(base, x, y).content == base[..p] + (t + s) + base[p..]
      && (FirstMerged(base, x, y).content == SecondMerged(base, x, y).content <==> s + t == t + s)
  {
    MergesExchange(base, x, y);
    var p, s, t := RangeOf(x).position, RangeOf(x).text, RangeOf(y).text;
    SecondInsertion(base, x, y);
    SecondInsertion(base, y, x);
    SameFrame(base[..p], s + t, t + s, base[p..]);
  }

  lemma SameFrame(a: Text, b: Text, c: Text, d: Text)
    requires |b| == |c|
    ensures a + b + d == a + c + d <==> b == c
  {
    if a + b + d == a + c + d {
      assert (a + b + d)[|a|..|a| + |b|] == b;
      assert (a + c + d)[|a|..|a| + |c|] == c;
    }
  }

  // The later arrival goes after the one already there.
  lemma SecondInsertion(base: Text, x: Command, y: Command)
    requires TwoAuthors(base, x, y) && RangeOf(x).length == 0 && RangeOf(y).length == 0
    requires NotNegative(x) && NotNegative(y) && RangeOf(x).position == RangeOf(y).position
    ensures var p, s, t := RangeOf(x).position, RangeOf(x).text, RangeOf(y).text;
      && p <= |base|
      && AfterRemote(AfterLocal(NewDoc(base), x), Issued(NewDoc(base), y)).content == base[..p] + (s + t) + base[p..]
  {
    hide *;
    var opX, opY := Issued(NewDoc(base), x), Issued(NewDoc(base), y);
    var p, s, t := RangeOf(x).position, RangeOf(x).text, RangeOf(y).text;
    TwoAuthorsMeans(base, x, y);
    IssuedShape(base, x);
    IssuedShape(base, y);
    WellShapedMeans(opX);
    Started(base, x);
    var a := AfterLocal(NewDoc(base), x);
    ThroughOne(opY, opX);
    PastMoves(p, 0, opY.user, opX);
    NotYetHeard(a, opY, x.id);
    SpliceParts(base, p, 0, s);
    Received(a, opY, p + |s|);
    InsertAfterText(base[..p], s, base[p..], t);
  }

  // A store after its own first edit.
  lemma Started(base: Text, c: Command)
    requires Valid(base, c) && NotNegative(c)
    ensures var d, op, e := AfterLocal(NewDoc(base), c), Issued(NewDoc(base), c), RangeOf(c);
      && d.content == Splice(base, e.position, e.length, e.text) && d.log == [op]
      && d.operations.Keys == {c.id} && d.userClocks == map[] && |d.log| + 1 < LOG_LIMIT
  {
  }

  lemma NotYetHeard(d: Doc, op: Operation, own: Id)
    requires d.userClocks == map[] && op.clock > 0 && d.operations.Keys == {own} && op.id != own
    ensures Fresh(d, op) && op.id !in d.operations
  {
  }

  // Receiving an operation that the log takes to `at` and that fits there.
  lemma Received(d: Doc, op: Operation, at: int)
    requires WellShaped(op) && Fresh(d, op) && op.id !in d.operations && |d.log| < LOG_LIMIT
    requires Through(At(op.position, op.length), op.user, d.log) == At(at, op.length)
    requires 0 <= at && at + op.length <= |d.content|
    ensures var a := AfterRemote(d, op);
      && a.content == Splice(d.content, at, op.length, op.text) && a.log == d.log + [op.(position := at)]
      && a.operations.Keys == d.operations.Keys + {op.id} && a.userClocks == d.userClocks[op.user := op.clock]
  {
  }

  lemma SpliceParts(s: Text, p: nat, n: nat, t: Text)
    requires p + n <= |s|
    ensures Splice(s, p, n, t) == s[..p] + t + s[p + n..]
  {
  }

  lemma InsertAfterText(a: Text, s: Text, b: Text, t: Text)
    ensures Splice(a + s + b, |a| + |s|, 0, t) == a + (s + t) + b
  {
  }

  lemma ThroughOne(op: Operation, logged: Operation)
    ensures Through(At(op.position, op.length), op.user, [logged])
         == Past(At(op.position, op.length), op.user, logged)
  {
  }

  lemma ThroughTwo(op: Operation, first: Operation, second: Operation)
    ensures Through(At(op.position, op.length), op.user, [first, second])
         == Past(Past(At(op.position, op.length), op.user, first), op.user, second)
  {
    ThroughOne(op, first);
    ThroughStep(At(op.position, op.length), op.user, [first], second);
    assert [first] + [second] == [first, second];
  }

  // Where a store that deleted l characters at p looks for m characters at q.
  function Sought(p: int, l: int, q: int, m: int): Moved {
    if p + l <= q then At(q - l, m)
    else if p < q then At(p, if m < p + l - q then 0 else m - (p + l - q))
    else At(q, m)
  }

  function Cut(s: Text, at: nat, n: nat): Text {
    if at + n <= |s| then s[..at] + s[at + n..] else s
  }

  // What a store that deleted one range holds after another delete arrives.
  function DeletedTwice(base: Text, p: nat, l: nat, q: nat, m: nat): Text {
    Cut(Cut(base, p, l), Sought(p, l, q, m).position, Sought(p, l, q, m).length)
  }

  lemma SecondDelete(base: Text, x: Command, y: Command)
    requires TwoAuthors(base, x, y) && x.DeleteAt? && y.DeleteAt?
    ensures x.position >= 0 && x.length > 0 && x.position + x.length <= |base|
    ensures y.position >= 0 && y.length > 0 && y.position + y.length <= |base|
    ensures AfterRemote(AfterLocal(NewDoc(base), x), Issued(NewDoc(base), y)).content
         == DeletedTwice(base, x.position, x.length, y.position, y.length)
  {
    hide *;
    TwoAuthorsMeans(base, x, y);
    DeleteRange(base, x);
    DeleteRange(base, y);
    var opX, opY, a := Issued(NewDoc(base), x), Issued(NewDoc(base), y), AfterLocal(NewDoc(base), x);
    Started(base, x);
    SpliceIsCut(base, x.position, x.length);
    ThroughOne(opY, opX);
    PastDelete(y.position, y.length, y.user, opX);
    NotYetHeard(a, opY, x.id);
    SoughtIsSomewhere(x.position, x.length, y.position, y.length);
    var moved := Sought(x.position, x.length, y.position, y.length);
    DeleteReceived(a, opY, moved.position, moved.length);
    DeletedTwiceIs(base, x.position, x.length, y.position, y.length);
  }

  lemma DeleteRange(base: Text, c: Command)
    requires Valid(base, c) && c.DeleteAt?
    ensures c.position >= 0 && c.length > 0 && c.position + c.length <= |base|
    ensures RangeOf(c) == Edit(c.position, c.length, "") && NotNegative(c)
    ensures var op := Issued(NewDoc(base), c);
      op.kind.Delete? && op.text == "" && op.position == c.position && op.length == c.length
      && op.user == c.user && op.id == c.id && op.clock > 0
  {
  }

  lemma SpliceIsCut(s: Text, p: nat, n: nat)
    requires p + n <= |s|
    ensures Splice(s, p, n, "") == Cut(s, p, n)
  {
  }

  lemma PastDelete(q: int, m: int, user: User, op: Operation)
    requires op.kind.Delete? && op.user != user
    ensures Past(At(q, m), user, op) == Sought(op.position, op.length, q, m)
  {
  }

  lemma SoughtIsSomewhere(p: nat, l: nat, q: nat, m: nat)
    ensures var moved := Sought(p, l, q, m); moved.At? && moved.position >= 0 && moved.length >= 0
  {
  }

  lemma DeletedTwiceIs(base: Text, p: nat, l: nat, q: nat, m: nat)
    ensures DeletedTwice(base, p, l, q, m) ==
            Cut(Cut(base, p, l), Sought(p, l, q, m).position, Sought(p, l, q, m).length)
  {
  }

  lemma DeleteReceived(d: Doc, op: Operation, at: nat, n: nat)
    requires op.kind.Delete? && op.text == "" && Fresh(d, op) && op.id !in d.operations && |d.log| < LOG_LIMIT
    requires Through(At(op.position, op.length), op.user, d.log) == At(at, n)
    ensures AfterRemote(d, op).content == Cut(d.content, at, n)
  {
  }

  // Two deletes: the stores agree exactly when the ranges are disjoint, or start together
  // and are either equally long or short enough for both to be cut out one after the other.
  lemma TwoDeletes(base: Text, x: Command, y: Command)
    requires TwoAuthors(base, x, y) && x.DeleteAt? && y.DeleteAt?
    ensures var p, l, q, m := x.position, x.length, y.position, y.length;
      FirstMerged(base, x, y).content == SecondMerged(base, x, y).content <==>
        p + l <= q || q + m <= p || (p == q && (l == m || p + l + m <= |base|))
  {
    hide FirstMerged, SecondMerged, AfterRemote, AfterLocal;
    var p, l, q, m := x.position, x.length, y.position, y.length;
    MergesExchange(base, x, y);
    SecondDelete(base, x, y);
    SecondDelete(base, y, x);
    DeletesCompared(base, p, l, q, m);
  }

  lemma DeletesCompared(base: Text, p: nat, l: nat, q: nat, m: nat)
    requires l > 0 && m > 0 && p + l <= |base| && q + m <= |base|
    ensures DeletedTwice(base, p, l, q, m) == DeletedTwice(base, q, m, p, l) <==>
      p + l <= q || q + m <= p || (p == q && (l == m || p + l + m <= |base|))
  {
    if p + l <= q {
      DisjointDeletes(base, p, l, q, m);
    } else if q + m <= p {
      DisjointDeletes(base, q, m, p, l);
    } else if p == q && p + l + m <= |base| {
      assert (base[..p] + base[p + l..])[p + m..] == base[p + l + m..];
      assert (base[..p] + base[p + m..])[p + l..] == base[p + l + m..];
    } else if p == q {
      assert DeletedTwice(base, p, l, q, m) == Cut(base, p, l);
    } else {
      CutLengths(base, p, l, q, m);
      CutLengths(base, q, m, p, l);
    }
  }

  lemma CutLengths(base: Text, p: nat, l: nat, q: nat, m: nat)
    requires p + l <= |base| && q + m <= |base|
    ensures var moved, left := Sought(p, l, q, m), |base| - l;
      |DeletedTwice(base, p, l, q, m)| == if moved.position + moved.length <= left then left - moved.length else left
  {
  }

  lemma DisjointDeletes(base: Text, p: nat, l: nat, q: nat, m: nat)
    requires l > 0 && m > 0 && p + l <= q && q + m <= |base|
    ensures DeletedTwice(base, p, l, q, m) == DeletedTwice(base, q, m, p, l)
  {
  }

  // ---------- disjointness is not enough for three ----------

  // An insertion, a delete that starts there, and an insertion where the delete ends: the
  // ranges are disjoint, but the delete brings the two points together, and then the order
  // of arrival decides. The stores agree exactly when the texts commute.
  lemma CollapsedPoints(base: Text, x: Command, y: Command, z: Command)
    requires ByDifferentUsers([x, y, z]) && ValidOn(base, [x, y, z])
    requires x.InsertAt? && y.DeleteAt? && z.InsertAt?
    requires x.position == y.position && z.position == y.position + y.length
    ensures AllApart(Ranges([x, y, z])) && |Ops(base, [x, y, z])| == 3
    ensures var ops, p, l, t, s := Ops(base, [x, y, z]), y.position, y.length, x.text, z.text;
      var one := Delivered(AfterLocal(NewDoc(base), x), ops, [1, 2]).content;
      var two := Delivered(AfterLocal(NewDoc(base), y), ops, [2, 0]).content;
      && one == base[..p] + (t + s) + base[p + l..]
      && two == base[..p] + (s + t) + base[p + l..]
      && (one == two <==> t + s == s + t)
  {
    hide *;
    var ops, p, l, t, s := Ops(base, [x, y, z]), y.position, y.length, x.text, z.text;
    ThreeCommands(base, x, y, z);
    DeliveredTwo(AfterLocal(NewDoc(base), x), ops, 1, 2);
    DeliveredTwo(AfterLocal(NewDoc(base), y), ops, 2, 0);
    InsertDeleteInsert(base, x, y, z);
    DeleteInsertInsert(base, x, y, z);
    SameFrame(base[..p], t + s, s + t, base[p + l..]);
  }

  lemma ThreeCommands(base: Text, x: Command, y: Command, z: Command)
    requires ByDifferentUsers([x, y, z]) && ValidOn(base, [x, y, z])
    requires x.InsertAt? && y.DeleteAt? && z.InsertAt?
    requires x.position == y.position && z.position == y.position + y.length
    ensures Valid(base, x) && Valid(base, y) && Valid(base, z)
    ensures y.position >= 0 && y.length > 0 && y.position + y.length <= |base|
    ensures x.user != y.user && x.user != z.user && y.user != z.user
    ensures x.id != y.id && x.id != z.id && y.id != z.id
    ensures AllApart(Ranges([x, y, z]))
    ensures Ops(base, [x, y, z]) == [Issued(NewDoc(base), x), Issued(NewDoc(base), y), Issued(NewDoc(base), z)]
  {
    var commands := [x, y, z];
    assert commands[0] == x && commands[1] == y && commands[2] == z;
  }

  lemma DeliveredTwo(d: Doc, ops: seq<Operation>, i: nat, j: nat)
    requires i < |ops| && j < |ops|
    ensures Within([i, j], |ops|)
    ensures Delivered(d, ops, [i, j]) == AfterRemote(AfterRemote(d, ops[i]), ops[j])
  {
    assert [i, j][..1] == [i] && [i][..0] == [];
    DeliveryStep(d, ops, [i, j]);
    DeliveryStep(d, ops, [i]);
    DeliveryStep(d, ops, []);
  }

  lemma InsertDeleteInsert(base: Text, x: Command, y: Command, z: Command)
    requires Valid(base, x) && Valid(base, y) && Valid(base, z)
    requires x.user != y.user && x.user != z.user && y.user != z.user
    requires x.id != y.id && x.id != z.id && y.id != z.id
    requires x.InsertAt? && y.DeleteAt? && z.InsertAt?
    requires x.position == y.position && z.position == y.position + y.length
    ensures var a := AfterRemote(AfterLocal(NewDoc(base), x), Issued(NewDoc(base), y));
      AfterRemote(a, Issued(NewDoc(base), z)).content
      == base[..y.position] + (x.text + z.text) + base[y.position + y.length..]
  {
    hide AfterRemote, AfterLocal, Splice, Through, Past, Effect;
    var p, l, t, s := y.position, y.length, x.text, z.text;
    var opX, opY, opZ := Issued(NewDoc(base), x), Issued(NewDoc(base), y), Issued(NewDoc(base), z);
    Started(base, x);
    var a := AfterLocal(NewDoc(base), x);
    SpliceParts(base, p, 0, t);
    ThroughOne(opY, opX);
    PastMoves(p, l, opY.user, opX);
    NotYetHeard(a, opY, x.id);
    Received(a, opY, p + |t|);
    var b := AfterRemote(a, opY);
    CutAfterText(base, p, l, t);
    var opY' := opY.(position := p + |t|);
    assert b.log == [opX, opY'];
    ThroughTwo(opZ, opX, opY');
    PastMoves(p + l, 0, opZ.user, opX);
    PastMoves(p + l + |t|, 0, opZ.user, opY');
    assert Fresh(b, opZ) && opZ.id !in b.operations;
    Received(b, opZ, p + |t|);
    InsertAfterText(base[..p], t, base[p + l..], s);
  }

  lemma CutAfterText(base: Text, p: nat, l: nat, t: Text)
    requires p + l <= |base|
    ensures Splice(base[..p] + t + base[p..], p + |t|, l, "") == base[..p] + t + base[p + l..]
  {
  }

  lemma DeleteInsertInsert(base: Text, x: Command, y: Command, z: Command)
    requires Valid(base, x) && Valid(base, y) && Valid(base, z)
    requires x.user != y.user && x.user != z.user && y.user != z.user
    requires x.id != y.id && x.id != z.id && y.id != z.id
    requires x.InsertAt? && y.DeleteAt? && z.InsertAt?
    requires x.position == y.position && z.position == y.position + y.length
    ensures var a := AfterRemote(AfterLocal(NewDoc(base), y), Issued(NewDoc(base), z));
      AfterRemote(a, Issued(NewDoc(base), x)).content
      == base[..y.position] + (z.text + x.text) + base[y.position + y.length..]
  {
    hide AfterRemote, AfterLocal, Splice, Through, Past, Effect;
    var p, l, t, s := y.position, y.length, x.text, z.text;
    var opX, opY, opZ := Issued(NewDoc(base), x), Issued(NewDoc(base), y), Issued(NewDoc(base), z);
    Started(base, y);
    var a := AfterLocal(NewDoc(base), y);
    SpliceParts(base, p, l, "");
    var c := base[..p] + "" + base[p + l..];
    ThroughOne(opZ, opY);
    PastMoves(p + l, 0, opZ.user, opY);
    NotYetHeard(a, opZ, y.id);
    Received(a, opZ, p);
    var b := AfterRemote(a, opZ);
    InsertAfterText(base[..p], "", base[p + l..], s);
    assert "" + s == s;
    var opZ' := opZ.(position := p);
    assert b.log == [opY, opZ'];
    ThroughTwo(opX, opY, opZ');
    PastMoves(p, 0, opX.user, opY);
    PastMoves(p, 0, opX.user, opZ');
    assert Fresh(b, opX) && opX.id !in b.operations;
    Received(b, opX, p + |s|);
    InsertAfterText(base[..p], s, base[p + l..], t);
  }
}

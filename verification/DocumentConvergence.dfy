/** When stores that start from one base text and exchange their edits end up equal.

    Replicas start from the base, may make one local edit each, and receive the others'
    original operations in any order with any repetition. */
module DocumentConvergence {
  import opened Common
  import opened DocumentStore
  import opened DocumentWeave

  // ---------- compatible edits ----------

  function Ops(base: Text, commands: seq<Command>): seq<Operation> {
    seq(|commands|, i requires 0 <= i < |commands| => Issued(NewDoc(base), commands[i]))
  }

  function EditOf(op: Operation): Edit {
    Edit(if op.position < 0 then 0 else op.position, if op.length < 0 then 0 else op.length, op.text)
  }

  function Edits(ops: seq<Operation>): seq<Edit> {
    seq(|ops|, i requires 0 <= i < |ops| => EditOf(ops[i]))
  }

  // Between two insertion points something of the text stays, whichever edits are made.
  ghost predicate PointsKeptApart(edits: seq<Edit>) {
    forall k, j ::
      0 <= k < |edits| && 0 <= j < |edits|
      && edits[k].length == 0 && edits[j].length == 0 && edits[k].position < edits[j].position
      ==> KeptSomewhere(edits, edits[k].position, edits[j].position)
  }

  ghost predicate KeptSomewhere(edits: seq<Edit>, a: nat, b: nat) {
    exists g: nat :: a <= g < b && Kept(edits, g)
  }

  // The shape of what a store issues for a valid edit (of a range that is not negative).
  predicate WellShaped(op: Operation) {
    op.position >= 0 && op.length >= 0 && op.clock > 0
    && (op.kind.Insert? ==> op.length == 0) && (op.kind.Delete? ==> op.length > 0 && op.text == "")
  }

  ghost predicate DistinctAuthors(ops: seq<Operation>) {
    forall i, j :: 0 <= i < j < |ops| ==> ops[i].user != ops[j].user && ops[i].id != ops[j].id
  }

  ghost predicate Compatible(base: Text, ops: seq<Operation>) {
    && |ops| <= LOG_LIMIT
    && (forall i :: 0 <= i < |ops| ==> WellShaped(ops[i]))
    && DistinctAuthors(ops)
    && Plan(base, Edits(ops)) && PointsKeptApart(Edits(ops))
  }

  // ---------- what a replica has logged ----------

  ghost function Indices(order: seq<nat>): set<nat> {
    set i <- order
  }

  // Operation j as it is applied and recorded after the ones done.
  ghost function Placed(base: Text, ops: seq<Operation>, done: set<nat>, j: nat): Operation
    requires j < |ops|
  {
    ops[j].(position := Target(base, Edits(ops), done, j))
  }

  ghost predicate Within(order: seq<nat>, n: nat) {
    forall i :: 0 <= i < |order| ==> order[i] < n
  }

  ghost function LogOf(base: Text, ops: seq<Operation>, order: seq<nat>): seq<Operation>
    requires Within(order, |ops|)
  {
    if order == [] then []
    else LogOf(base, ops, order[..|order| - 1])
         + [Placed(base, ops, Indices(order[..|order| - 1]), order[|order| - 1])]
  }

  // ---------- the transform finds the target ----------

  lemma PastMoves(q: int, n: int, user: User, op: Operation)
    requires op.user != user && op.length >= 0
    requires (op.kind.Insert? ==> op.length == 0) && (op.kind.Delete? ==> op.length > 0 && op.text == "")
    ensures op.position + op.length <= q ==>
              Past(At(q, n), user, op) == At(q + |op.text| - op.length, n)
    ensures q <= op.position && (op.length == 0 ==> q < op.position) ==>
              Past(At(q, n), user, op) == At(q, n)
  {
  }

  lemma CompatibleMeans(base: Text, ops: seq<Operation>, k: nat, j: nat)
    requires Compatible(base, ops) && k < |ops| && j < |ops| && k != j
    ensures var edits := Edits(ops);
      && Plan(base, edits) && PointsKeptApart(edits) && |edits| == |ops|
      && WellShaped(ops[k]) && WellShaped(ops[j]) && ops[k].user != ops[j].user && ops[k].id != ops[j].id
      && edits[k] == Edit(ops[k].position, ops[k].length, ops[k].text)
      && edits[j] == Edit(ops[j].position, ops[j].length, ops[j].text)
      && Apart(edits[k], edits[j])
      && (LeftOf(edits[k], edits[j]) || LeftOf(edits[j], edits[k]))
      && (edits[k].length == 0 && edits[j].length == 0 && LeftOf(edits[j], edits[k]) ==>
            edits[j].position < edits[k].position)
  {
  }

  lemma PlacedIs(base: Text, ops: seq<Operation>, done: set<nat>, k: nat)
    requires k < |ops|
    ensures Placed(base, ops, done, k) == ops[k].(position := Target(base, Edits(ops), done, k))
  {
  }

  lemma WellShapedMeans(op: Operation)
    requires WellShaped(op)
    ensures op.position >= 0 && op.length >= 0 && op.clock > 0
    ensures (op.kind.Insert? ==> op.length == 0) && (op.kind.Delete? ==> op.length > 0 && op.text == "")
  {
  }

  // Moving past one logged operation keeps a position at its target.
  lemma PastOne(base: Text, ops: seq<Operation>, done: set<nat>, k: nat, j: nat)
    requires Compatible(base, ops) && k < |ops| && j < |ops| && k != j && k !in done && j !in done
    ensures |Edits(ops)| == |ops|
    ensures Past(At(Target(base, Edits(ops), done, j), ops[j].length), ops[j].user, Placed(base, ops, done, k))
         == At(Target(base, Edits(ops), done + {k}, j), ops[j].length)
  {
    hide *;
    var edits := Edits(ops);
    CompatibleMeans(base, ops, k, j);
    WellShapedMeans(ops[k]);
    PlacedIs(base, ops, done, k);
    PastMoves(Target(base, edits, done, j), ops[j].length, ops[j].user, Placed(base, ops, done, k));
    if LeftOf(edits[k], edits[j]) {
      ShiftedByLeft(base, edits, done, k, j);
      TargetsInOrder(base, edits, done, k, j);
    } else {
      UnmovedByRight(base, edits, done, k, j);
      TargetsInOrder(base, edits, done, j, k);
      if edits[k].length == 0 && edits[j].length == 0 {
        KeptApart(base, edits, done, j, k);
      }
    }
  }

  lemma KeptApart(base: Text, edits: seq<Edit>, done: set<nat>, k: nat, j: nat)
    requires Plan(base, edits) && PointsKeptApart(edits) && k < |edits| && j < |edits|
    requires edits[k].length == 0 && edits[j].length == 0 && edits[k].position < edits[j].position
    ensures Target(base, edits, done, k) < Target(base, edits, done, j)
  {
    assert KeptSomewhere(edits, edits[k].position, edits[j].position);
    var g: nat :| edits[k].position <= g < edits[j].position && Kept(edits, g);
    KeptBetween(base, edits, done, k, j, g);
  }

  // Moving through a log takes an operation to its target after what is logged.
  lemma {:induction false} ThroughLog(base: Text, ops: seq<Operation>, order: seq<nat>, j: nat)
    requires Compatible(base, ops) && Within(order, |ops|) && Distinct(order)
    requires j < |ops| && forall i :: 0 <= i < |order| ==> order[i] != j
    ensures |Edits(ops)| == |ops|
    ensures Through(At(ops[j].position, ops[j].length), ops[j].user, LogOf(base, ops, order))
         == At(Target(base, Edits(ops), Indices(order), j), ops[j].length)
  {
    hide *;
    LogStep(base, ops, order);
    EditsAre(ops, j);
    if order == [] {
      CompatibleFits(base, ops, j);
      NothingDone(base, Edits(ops));
      ThroughStep(At(ops[j].position, ops[j].length), ops[j].user, [], ops[j]);
    } else {
      var init, k := order[..|order| - 1], order[|order| - 1];
      ThroughStep(At(ops[j].position, ops[j].length), ops[j].user,
                  LogOf(base, ops, init), Placed(base, ops, Indices(init), k));
      ThroughLog(base, ops, init, j);
      PastOne(base, ops, Indices(init), k, j);
    }
  }

  lemma EditsAre(ops: seq<Operation>, j: nat)
    requires j < |ops|
    ensures |Edits(ops)| == |ops| && Edits(ops)[j] == EditOf(ops[j])
  {
  }

  lemma CompatibleFits(base: Text, ops: seq<Operation>, j: nat)
    requires Compatible(base, ops) && j < |ops|
    ensures |Edits(ops)| == |ops| && Edits(ops)[j] == Edit(ops[j].position, ops[j].length, ops[j].text)
    ensures ops[j].position + ops[j].length <= |base| && Plan(base, Edits(ops)) && WellShaped(ops[j])
    ensures |ops| <= LOG_LIMIT && DistinctAuthors(ops)
  {
  }

  lemma ThroughStep(m: Moved, user: User, log: seq<Operation>, op: Operation)
    ensures Through(m, user, []) == m
    ensures Through(m, user, log + [op]) == Past(Through(m, user, log), user, op)
  {
  }

  lemma LogStep(base: Text, ops: seq<Operation>, order: seq<nat>)
    requires Within(order, |ops|) && Distinct(order)
    ensures LogOf(base, ops, []) == [] && Indices([]) == {} && Within([], |ops|)
    ensures order != [] ==>
      var init, k := order[..|order| - 1], order[|order| - 1];
      && Within(init, |ops|) && Distinct(init) && k < |ops| && k !in Indices(init)
      && LogOf(base, ops, order) == LogOf(base, ops, init) + [Placed(base, ops, Indices(init), k)]
      && Indices(order) == Indices(init) + {k}
    ensures forall j :: j in Indices(order) <==> j in order
  {
  }

  // ---------- a replica receiving ----------

  ghost predicate Follows(base: Text, ops: seq<Operation>, d: Doc, order: seq<nat>)
  {
    && Within(order, |ops|) && Distinct(order)
    && d.content == Content(base, Edits(ops), Indices(order))
    && d.log == LogOf(base, ops, order)
    && Knows(ops, d, order)
  }

  // The operations it has by id, and those it would not take for stale.
  ghost predicate Knows(ops: seq<Operation>, d: Doc, order: seq<nat>) {
    && (forall i :: 0 <= i < |ops| ==> (ops[i].id in d.operations <==> i in order))
    && (forall i :: 0 <= i < |ops| && i !in order ==> Fresh(d, ops[i]))
  }

  lemma {:induction false} LogLength(base: Text, ops: seq<Operation>, order: seq<nat>)
    requires Within(order, |ops|)
    ensures |LogOf(base, ops, order)| == |order|
  {
    if order != [] {
      LogLength(base, ops, order[..|order| - 1]);
    }
  }

  lemma {:induction false} FewIndices(order: seq<nat>, n: nat)
    requires Within(order, n) && Distinct(order)
    ensures |order| <= n
  {
    if order != [] {
      assert order[0] < n;
      if n - 1 in order {
        var i :| 0 <= i < |order| && order[i] == n - 1;
        var rest := order[..i] + order[i + 1..];
        assert Within(rest, n - 1);
        FewIndices(rest, n - 1);
      } else {
        FewIndices(order, n - 1);
      }
    }
  }

  // An operation a replica already has changes neither its content nor its log.
  lemma KnownIsIgnored(base: Text, ops: seq<Operation>, d: Doc, order: seq<nat>, j: nat)
    requires Compatible(base, ops) && Follows(base, ops, d, order) && j in order
    ensures Follows(base, ops, AfterRemote(d, ops[j]), order)
  {
    assert j < |ops|;
    var t := AfterRemote(d, ops[j]);
    assert t == d || t == Witnessed(d, ops[j]);
    forall i | 0 <= i < |ops| && i !in order ensures Fresh(t, ops[i]) {
      assert i != j && ops[i].user != ops[j].user;
    }
    hide Compatible, AfterRemote, Content, LogOf;
  }

  // What delivery does when nothing stands in its way.
  lemma DeliveryApplies(d: Doc, op: Operation, t: Operation)
    requires Fresh(d, op) && op.id !in d.operations && Transformed(op, d.log) == Some(t)
    requires Fits(d.content, t) && |d.log| < LOG_LIMIT
    ensures var a := AfterRemote(d, op);
      && a.content == Effect(d.content, t) && a.log == d.log + [t]
      && a.operations.Keys == d.operations.Keys + {t.id} && a.userClocks == d.userClocks[op.user := op.clock]
  {
  }

  lemma EffectIsSplice(s: Text, op: Operation)
    requires (op.kind.Insert? ==> op.length == 0) && (op.kind.Delete? ==> op.text == "")
    ensures Effect(s, op) == Splice(s, op.position, op.length, op.text)
    ensures Fits(s, op) <==> 0 <= op.position && op.position + op.length <= |s|
  {
  }

  lemma NewIsTransformed(base: Text, ops: seq<Operation>, d: Doc, order: seq<nat>, j: nat)
    requires Compatible(base, ops) && j < |ops| && j !in order
    requires Within(order, |ops|) && Distinct(order) && d.log == LogOf(base, ops, order)
    ensures Transformed(ops[j], d.log) == Some(Placed(base, ops, Indices(order), j))
  {
    hide Compatible, LogOf, Through, Target;
    ThroughLog(base, ops, order, j);
  }

  lemma NewFits(base: Text, ops: seq<Operation>, s: Text, done: set<nat>, j: nat)
    requires Compatible(base, ops) && j < |ops| && j !in done && s == Content(base, Edits(ops), done)
    ensures var t := Placed(base, ops, done, j);
      Fits(s, t) && Effect(s, t) == Content(base, Edits(ops), done + {j})
  {
    assert WellShaped(ops[j]);
    hide Compatible, Content, Target, Splice, Fits, Effect;
    var t := Placed(base, ops, done, j);
    assert Edits(ops)[j] == EditOf(ops[j]);
    SpliceAtTargetOf(base, ops, done, j);
    EffectIsSplice(s, t);
  }

  lemma SpliceAtTargetOf(base: Text, ops: seq<Operation>, done: set<nat>, j: nat)
    requires Compatible(base, ops) && j < |ops| && j !in done
    ensures var edits := Edits(ops);
      var at, s := Target(base, edits, done, j), Content(base, edits, done);
      && at + edits[j].length <= |s|
      && Splice(s, at, edits[j].length, edits[j].text) == Content(base, edits, done + {j})
  {
    assert Plan(base, Edits(ops));
    hide Compatible, Plan;
    SpliceAtTarget(base, Edits(ops), done, j);
  }

  // A new one is spliced in at its target and recorded as placed, and nothing is trimmed.
  lemma NewIsPlaced(base: Text, ops: seq<Operation>, d: Doc, order: seq<nat>, j: nat)
    requires Compatible(base, ops) && Follows(base, ops, d, order) && j < |ops| && j !in order
    ensures Follows(base, ops, AfterRemote(d, ops[j]), order + [j])
  {
    hide *;
    var t, a, next := Placed(base, ops, Indices(order), j), AfterRemote(d, ops[j]), order + [j];
    FollowsMeans(base, ops, d, order);
    LogStep(base, ops, order);
    Appended(order, |ops|, j);
    LogStep(base, ops, next);
    assert next[..|order|] == order;
    NewIsTransformed(base, ops, d, order, j);
    NewFits(base, ops, d.content, Indices(order), j);
    PlacedIs(base, ops, Indices(order), j);
    LogLength(base, ops, order);
    FewIndices(next, |ops|);
    CompatibleFits(base, ops, j);
    FreshAndUnknown(ops, d, order, j);
    DeliveryApplies(d, ops[j], t);
    NewIsKnown(ops, d, a, order, j);
    FollowsMeans(base, ops, a, next);
  }

  lemma FollowsMeans(base: Text, ops: seq<Operation>, d: Doc, order: seq<nat>)
    ensures Follows(base, ops, d, order) <==>
      && Within(order, |ops|) && Distinct(order)
      && d.content == Content(base, Edits(ops), Indices(order)) && d.log == LogOf(base, ops, order)
      && Knows(ops, d, order)
  {
  }

  lemma Appended(order: seq<nat>, n: nat, j: nat)
    requires Within(order, n) && Distinct(order) && j < n && j !in order
    ensures Within(order + [j], n) && Distinct(order + [j])
  {
  }

  lemma FreshAndUnknown(ops: seq<Operation>, d: Doc, order: seq<nat>, j: nat)
    requires Knows(ops, d, order) && j < |ops| && j !in order
    ensures Fresh(d, ops[j]) && ops[j].id !in d.operations
  {
  }

  lemma NewIsKnown(ops: seq<Operation>, d: Doc, a: Doc, order: seq<nat>, j: nat)
    requires Knows(ops, d, order) && j < |ops| && DistinctAuthors(ops)
    requires a.operations.Keys == d.operations.Keys + {ops[j].id}
    requires a.userClocks == d.userClocks[ops[j].user := ops[j].clock]
    ensures Knows(ops, a, order + [j])
  {
  }

  // ---------- runs ----------

  ghost function Delivered(d: Doc, ops: seq<Operation>, deliveries: seq<nat>): Doc
    requires Within(deliveries, |ops|)
  {
    if deliveries == [] then d
    else AfterRemote(Delivered(d, ops, deliveries[..|deliveries| - 1]), ops[deliveries[|deliveries| - 1]])
  }

  // From any replica that follows the plan, deliveries in any order and number lead to the
  // content woven from the edits it had and the edits delivered.
  lemma {:induction false} DeliveriesWeave(
    base: Text, ops: seq<Operation>, d: Doc, start: seq<nat>, deliveries: seq<nat>) returns (order: seq<nat>)
    requires Compatible(base, ops) && Follows(base, ops, d, start) && Within(deliveries, |ops|)
    ensures Follows(base, ops, Delivered(d, ops, deliveries), order)
    ensures Indices(order) == Indices(start) + Indices(deliveries)
  {
    hide *;
    DeliveryStep(d, ops, deliveries);
    if deliveries == [] {
      order := start;
      assert Indices(start) + {} == Indices(start);
    } else {
      var before, j := deliveries[..|deliveries| - 1], deliveries[|deliveries| - 1];
      order := DeliveriesWeave(base, ops, d, start, before);
      FollowsMeans(base, ops, Delivered(d, ops, before), order);
      LogStep(base, ops, order);
      if j in order {
        KnownIsIgnored(base, ops, Delivered(d, ops, before), order, j);
      } else {
        NewIsPlaced(base, ops, Delivered(d, ops, before), order, j);
        IndicesAppend(order, j);
        order := order + [j];
      }
    }
  }

  lemma IndicesAppend(order: seq<nat>, j: nat)
    ensures Indices(order + [j]) == Indices(order) + {j}
  {
  }

  lemma DeliveryStep(d: Doc, ops: seq<Operation>, deliveries: seq<nat>)
    requires Within(deliveries, |ops|)
    ensures deliveries == [] ==> Delivered(d, ops, deliveries) == d && Indices(deliveries) == {}
    ensures deliveries != [] ==>
      var before, j := deliveries[..|deliveries| - 1], deliveries[|deliveries| - 1];
      && Within(before, |ops|) && j < |ops|
      && Delivered(d, ops, deliveries) == AfterRemote(Delivered(d, ops, before), ops[j])
      && Indices(deliveries) == Indices(before) + {j}
  {
  }

  // ---------- the theorems ----------

  // Commands by different users, valid on the base and compatible as edits of it.
  ghost predicate CompatibleCommands(base: Text, commands: seq<Command>) {
    (forall i :: 0 <= i < |commands| ==> Valid(base, commands[i]))
    && Compatible(base, Ops(base, commands))
  }

  lemma AuthorFollows(base: Text, commands: seq<Command>, own: nat)
    requires CompatibleCommands(base, commands) && own < |commands|
    ensures |Ops(base, commands)| == |commands|
    ensures Follows(base, Ops(base, commands), AfterLocal(NewDoc(base), commands[own]), [own])
  {
    hide *;
    var ops := Ops(base, commands);
    OpsAre(base, commands, own);
    OwnEdit(base, commands[own]);
    CompatibleFits(base, ops, own);
    NothingDone(base, Edits(ops));
    NewFits(base, ops, base, {}, own);
    PlacedIs(base, ops, {}, own);
    OnlyOne(own, |ops|);
    LogStep(base, ops, [own]);
    assert [own][..0] == [] && {} + {own} == {own};
    OwnIsKnown(base, ops, AfterLocal(NewDoc(base), commands[own]), own);
    FollowsMeans(base, ops, AfterLocal(NewDoc(base), commands[own]), [own]);
  }

  lemma OpsAre(base: Text, commands: seq<Command>, i: nat)
    requires CompatibleCommands(base, commands) && i < |commands|
    ensures Compatible(base, Ops(base, commands)) && Valid(base, commands[i])
    ensures |Ops(base, commands)| == |commands| && Ops(base, commands)[i] == Issued(NewDoc(base), commands[i])
  {
  }

  lemma OwnEdit(base: Text, c: Command)
    requires Valid(base, c)
    ensures var d, op := AfterLocal(NewDoc(base), c), Issued(NewDoc(base), c);
      && d.content == Effect(base, op) && d.log == [op]
      && d.operations.Keys == {op.id} && d.userClocks == map[]
      && op.clock > 0 && |d.log| + 1 < LOG_LIMIT
  {
  }

  lemma OnlyOne(own: nat, n: nat)
    requires own < n
    ensures Within([own], n) && Distinct([own])
  {
  }

  lemma OwnIsKnown(base: Text, ops: seq<Operation>, d: Doc, own: nat)
    requires Compatible(base, ops) && own < |ops|
    requires d.operations.Keys == {ops[own].id} && d.userClocks == map[]
    ensures Knows(ops, d, [own])
  {
  }

  lemma ReaderFollows(base: Text, ops: seq<Operation>)
    requires Compatible(base, ops)
    ensures Follows(base, ops, NewDoc(base), [])
  {
    NothingDone(base, Edits(ops));
    assert Indices([]) == {};
    assert forall i :: 0 <= i < |ops| ==> WellShaped(ops[i]);
  }

  // Any number of users up to the log's capacity each make one compatible edit of the base.
  // A replica that made edit `own` and received others, in any order and with repetitions,
  // its own included, holds the base with each of those edits' text at its own place.
  lemma ReplicaHoldsWeave(base: Text, commands: seq<Command>, own: nat, deliveries: seq<nat>)
    requires CompatibleCommands(base, commands) && own < |commands| && Within(deliveries, |commands|)
    ensures var ops := Ops(base, commands);
      Delivered(AfterLocal(NewDoc(base), commands[own]), ops, deliveries).content
      == Content(base, Edits(ops), {own} + Indices(deliveries))
  {
    var ops := Ops(base, commands);
    AuthorFollows(base, commands, own);
    var order := DeliveriesWeave(base, ops, AfterLocal(NewDoc(base), commands[own]), [own], deliveries);
    assert Indices([own]) == {own};
    hide AfterLocal, Delivered, Content, Compatible;
  }

  // So all replicas that have everything are equal, those that edited and those that read.
  lemma EveryoneConverges(
    base: Text, commands: seq<Command>, a: nat, da: seq<nat>, b: nat, db: seq<nat>, dr: seq<nat>)
    requires CompatibleCommands(base, commands) && a < |commands| && b < |commands|
    requires Within(da, |commands|) && Within(db, |commands|) && Within(dr, |commands|)
    requires forall i :: 0 <= i < |commands| ==> (i == a || i in da) && (i == b || i in db) && i in dr
    ensures var ops := Ops(base, commands);
      && Delivered(AfterLocal(NewDoc(base), commands[a]), ops, da).content
      == Delivered(AfterLocal(NewDoc(base), commands[b]), ops, db).content
      == Delivered(NewDoc(base), ops, dr).content
  {
    var ops := Ops(base, commands);
    assert |ops| == |commands|;
    assert {a} + Indices(da) == Indices(dr) == {b} + Indices(db);
    hide AfterLocal, Delivered, Content, Compatible;
    ReplicaHoldsWeave(base, commands, a, da);
    ReplicaHoldsWeave(base, commands, b, db);
    ReaderHoldsWeave(base, commands, dr);
  }

  lemma ReaderHoldsWeave(base: Text, commands: seq<Command>, deliveries: seq<nat>)
    requires CompatibleCommands(base, commands) && Within(deliveries, |commands|)
    ensures var ops := Ops(base, commands);
      Delivered(NewDoc(base), ops, deliveries).content == Content(base, Edits(ops), Indices(deliveries))
  {
    var ops := Ops(base, commands);
    ReaderFollows(base, ops);
    var order := DeliveriesWeave(base, ops, NewDoc(base), [], deliveries);
    assert Indices([]) == {} && {} + Indices(deliveries) == Indices(deliveries);
    hide AfterLocal, Delivered, Content, Compatible;
  }
}

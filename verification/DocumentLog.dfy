/** The bounded log: what a store still knows of what it recorded, when an operation that
    comes back is recognised, and when a merge repeated is harmless. */
module DocumentLog {
  import opened Common
  import opened DocumentStore
  import opened DocumentClocks

  // ---------- the log is the recent history ----------

  // The operation a step records, if it does.
  function RecordedBy(d: Doc, step: Step): Option<Operation> {
    match step
    case Edit(c) => if Valid(d.content, c) then Some(Issued(d, c)) else None
    case Deliver(op) => RemoteResult(d, op)
  }

  // Everything recorded since the store was created or cleared.
  function History(initial: Text, steps: seq<Step>): seq<Operation> {
    if steps == [] then []
    else
      var before := steps[..|steps| - 1];
      match RecordedBy(Run(initial, before), steps[|steps| - 1])
      case Some(op) => History(initial, before) + [op]
      case None => History(initial, before)
  }

  function Recent(h: seq<Operation>): seq<Operation> {
    if |h| <= 1000 then h else h[|h| - 1000..]
  }

  // The map by id holds the logged operations and no others.
  ghost predicate Mirrors(ops: map<Id, Operation>, log: seq<Operation>) {
    (forall i :: 0 <= i < |log| ==> log[i].id in ops && ops[log[i].id] == log[i])
    && (forall id :: id in ops ==> exists i :: 0 <= i < |log| && log[i].id == id)
  }

  lemma RecordedKeepsRecent(d: Doc, h: seq<Operation>, op: Operation)
    requires d.log == Recent(h)
    ensures Recorded(d, op).log == Recent(h + [op])
  {
  }

  lemma MirrorAppend(ops: map<Id, Operation>, log: seq<Operation>, op: Operation)
    requires Mirrors(ops, log) && DistinctIds(log + [op])
    ensures Mirrors(ops[op.id := op], log + [op])
  {
    var all := log + [op];
    forall i | 0 <= i < |log| ensures log[i].id != op.id {
      assert all[i].id != all[|log|].id;
    }
    var more := ops[op.id := op];
    forall id | id in more ensures exists i :: 0 <= i < |all| && all[i].id == id {
      if id == op.id {
        assert all[|log|].id == id;
      } else {
        var i :| 0 <= i < |log| && log[i].id == id;
        assert all[i].id == id;
      }
    }
  }

  lemma MirrorTrim(ops: map<Id, Operation>, log: seq<Operation>)
    requires Mirrors(ops, log) && DistinctIds(log) && log != []
    ensures Mirrors(ops - {log[0].id}, log[1..])
  {
  }

  lemma RecordedKeepsMirror(d: Doc, op: Operation)
    requires Mirrors(d.operations, d.log) && DistinctIds(d.log + [op])
    ensures Mirrors(Recorded(d, op).operations, Recorded(d, op).log)
  {
    hide Mirrors, DistinctIds;
    MirrorAppend(d.operations, d.log, op);
    if |d.log + [op]| > LOG_LIMIT {
      MirrorTrim(d.operations[op.id := op], d.log + [op]);
    }
  }

  lemma SameExceptContent(d: Doc, step: Step)
    ensures match RecordedBy(d, step)
      case Some(op) =>
        exists e: Doc :: e.log == d.log && e.operations == d.operations && Next(d, step) == Recorded(e, op)
      case None => Next(d, step).log == d.log && Next(d, step).operations == d.operations
                   && Next(d, step).content == d.content
  {
  }

  // The log is the latest thousand operations recorded, and the map by id agrees with it.
  lemma {:induction false} LogIsRecentHistory(initial: Text, steps: seq<Step>)
    ensures Run(initial, steps).log == Recent(History(initial, steps))
    ensures DistinctIds(History(initial, steps)) ==>
              Mirrors(Run(initial, steps).operations, Run(initial, steps).log)
  {
    if steps != [] {
      var before, step := steps[..|steps| - 1], steps[|steps| - 1];
      var d, h := Run(initial, before), History(initial, before);
      LogIsRecentHistory(initial, before);
      SameExceptContent(d, step);
      hide Next, RecordedBy, Mirrors, Recent, Recorded, DistinctIds;
      match RecordedBy(d, step)
      case None =>
      case Some(op) =>
        var e: Doc :| e.log == d.log && e.operations == d.operations && Next(d, step) == Recorded(e, op);
        RecordedKeepsRecent(e, h, op);
        DistinctTail(h, op);
        if DistinctIds(h + [op]) {
          RecordedKeepsMirror(e, op);
        }
    }
  }

  // The active users are those of every operation recorded, however long ago.
  lemma {:induction false} ActiveUsersAreRecorded(initial: Text, steps: seq<Step>)
    ensures Run(initial, steps).activeUsers == set op <- History(initial, steps) :: op.user
  {
    if steps != [] {
      var before, step := steps[..|steps| - 1], steps[|steps| - 1];
      ActiveUsersAreRecorded(initial, before);
      ActiveUserAdded(Run(initial, before), step);
      hide Next, RecordedBy;
    }
  }

  lemma ActiveUserAdded(d: Doc, step: Step)
    ensures match RecordedBy(d, step)
      case Some(op) => Next(d, step).activeUsers == d.activeUsers + {op.user}
      case None => Next(d, step).activeUsers == d.activeUsers
  {
  }

  lemma DistinctTail(h: seq<Operation>, op: Operation)
    ensures DistinctIds(h + [op]) ==> DistinctIds(h) && DistinctIds(Recent(h) + [op])
  {
    var all := h + [op];
    var k := |h| - |Recent(h)|;
    assert h == all[0..|h|] && Recent(h) + [op] == all[k..|all|];
    hide Recent, DistinctIds;
    DistinctSlice(all, 0, |h|);
    DistinctSlice(all, k, |all|);
  }

  lemma DistinctSlice(h: seq<Operation>, a: nat, b: nat)
    requires a <= b <= |h|
    ensures DistinctIds(h) ==> DistinctIds(h[a..b])
  {
  }

  // An operation that comes back to a store is recognised exactly while it is among the
  // latest thousand recorded; then it changes neither content nor log. After that, if no
  // delivery from its user has raised that user's clock, it is applied once more.
  lemma EchoRecognisedWhileLogged(initial: Text, steps: seq<Step>, i: nat, echo: Operation)
    requires DistinctIds(History(initial, steps)) && i < |History(initial, steps)|
    requires echo.id == History(initial, steps)[i].id
    ensures var d, h := Run(initial, steps), History(initial, steps);
      && (echo.id in d.operations <==> |h| - i <= LOG_LIMIT)
      && (|h| - i <= LOG_LIMIT ==>
            RemoteResult(d, echo) == None
            && AfterRemote(d, echo).content == d.content && AfterRemote(d, echo).log == d.log)
      && (|h| - i > LOG_LIMIT && Fresh(d, echo) ==> RemoteResult(d, echo) == Transformed(echo, d.log))
  {
    LogIsRecentHistory(initial, steps);
    var d, h := Run(initial, steps), History(initial, steps);
    hide Run, History;
    InRecent(h, i, d.operations);
  }

  lemma InRecent(h: seq<Operation>, i: nat, ops: map<Id, Operation>)
    requires DistinctIds(h) && i < |h| && Mirrors(ops, Recent(h))
    ensures h[i].id in ops <==> |h| - i <= LOG_LIMIT
  {
  }

  // ---------- merging again ----------

  // The store knows the operation by id, or has heard later from its user.
  ghost predicate Settled(d: Doc, op: Operation) {
    op.id in d.operations || !Fresh(d, op)
  }

  lemma StepSettles(m: Merging, op: Operation, other: Operation)
    requires |m.doc.log| < LOG_LIMIT
    ensures |MergeStep(m, op).doc.log| <= |m.doc.log| + 1
    ensures Settled(MergeStep(m, op).doc, op)
    ensures Settled(m.doc, other) ==> Settled(MergeStep(m, op).doc, other)
    ensures Settled(m.doc, op) ==> MergeStep(m, op).doc == m.doc && MergeStep(m, op).applied == m.applied
  {
  }

  lemma {:induction false} MergeSettles(d: Doc, ops: seq<Operation>, i: nat)
    requires |d.log| + |ops| <= LOG_LIMIT && i < |ops|
    ensures |Merged(d, ops).doc.log| <= |d.log| + |ops|
    ensures Settled(Merged(d, ops).doc, ops[i])
  {
    var before, op := ops[..|ops| - 1], ops[|ops| - 1];
    var m := Merged(d, before);
    MergeGrows(d, before);
    StepSettles(m, op, ops[i]);
    if i < |ops| - 1 {
      hide MergeStep, Settled;
      MergeSettles(d, before, i);
    }
  }

  lemma {:induction false} MergeGrows(d: Doc, ops: seq<Operation>)
    requires |d.log| + |ops| <= LOG_LIMIT
    ensures |Merged(d, ops).doc.log| <= |d.log| + |ops|
  {
    if ops != [] {
      MergeGrows(d, ops[..|ops| - 1]);
      StepSettles(Merged(d, ops[..|ops| - 1]), ops[|ops| - 1], ops[|ops| - 1]);
    }
  }

  lemma {:induction false} SettledMerge(d: Doc, ops: seq<Operation>)
    requires forall i :: 0 <= i < |ops| ==> Settled(d, ops[i])
    ensures Merged(d, ops).doc == d && Merged(d, ops).applied == []
  {
    if ops != [] {
      SettledMerge(d, ops[..|ops| - 1]);
      assert Settled(d, ops[|ops| - 1]);
    }
  }

  lemma StepMovesClocks(m: Merging, op: Operation)
    ensures var e := MergeStep(m, op).doc;
      && e.time >= m.doc.time && (!Settled(m.doc, op) ==> e.time > m.doc.time)
      && (forall u :: UserTime(e, u) >= UserTime(m.doc, u))
      && e.operations.Keys <= m.doc.operations.Keys + {op.id}
      && (op.id !in m.doc.operations ==> !Fresh(e, op))
  {
  }

  // An operation that is not settled moves the clock, and nothing moves it back.
  lemma {:induction false} ClockTells(d: Doc, ops: seq<Operation>)
    ensures Merged(d, ops).doc.time >= d.time
    ensures Merged(d, ops).doc.time == d.time ==> forall i :: 0 <= i < |ops| ==> Settled(d, ops[i])
  {
    if ops != [] {
      var before, op := ops[..|ops| - 1], ops[|ops| - 1];
      hide MergeStep, Settled;
      ClockTells(d, before);
      StepMovesClocks(Merged(d, before), op);
      if Merged(d, ops).doc.time == d.time {
        assert forall i :: 0 <= i < |before| ==> before[i] == ops[i];
        SettledMerge(d, before);
      }
    }
  }

  // The state a merge meets is unchanged by it exactly when every operation is settled there.
  lemma UnchangedExactly(d: Doc, ops: seq<Operation>)
    ensures Merged(d, ops).doc == d <==> forall i :: 0 <= i < |ops| ==> Settled(d, ops[i])
    ensures Merged(d, ops).doc == d ==> Merged(d, ops).applied == []
  {
    hide *;
    if Merged(d, ops).doc == d {
      ClockTells(d, ops);
    }
    if forall i :: 0 <= i < |ops| ==> Settled(d, ops[i]) {
      SettledMerge(d, ops);
    }
  }

  // However long the logs: what was delivered by a merge is refused by its user's clock ever
  // after, whether it is still logged or not.
  lemma {:induction false} DeliveredIsStale(d: Doc, ops: seq<Operation>, i: nat)
    requires DistinctIds(ops) && i < |ops| && ops[i].id !in d.operations
    ensures !Fresh(Merged(d, ops).doc, ops[i])
  {
    var before, op := ops[..|ops| - 1], ops[|ops| - 1];
    hide MergeStep, Settled;
    StepMovesClocks(Merged(d, before), op);
    if i == |ops| - 1 {
      KnowsNoOthers(d, before, op.id);
    } else {
      DeliveredIsStale(d, before, i);
    }
  }

  lemma {:induction false} KnowsNoOthers(d: Doc, ops: seq<Operation>, id: Id)
    requires id !in d.operations && forall i :: 0 <= i < |ops| ==> ops[i].id != id
    ensures id !in Merged(d, ops).doc.operations
  {
    if ops != [] {
      KnowsNoOthers(d, ops[..|ops| - 1], id);
      hide MergeStep;
      StepMovesClocks(Merged(d, ops[..|ops| - 1]), ops[|ops| - 1]);
    }
  }

  // Merging the same log a second time: it changes nothing exactly when every operation is
  // settled, and of operations with distinct ids only those can be unsettled that the store
  // knew by id before the first merge, its own. It changes nothing while nothing is trimmed.
  lemma MergeIsIdempotent(d: Doc, ops: seq<Operation>)
    ensures var once := Merged(d, ops).doc; var again := Merged(once, ops);
      && (again.doc == once <==> forall i :: 0 <= i < |ops| ==> Settled(once, ops[i]))
      && (again.doc == once ==> again.applied == [])
      && (DistinctIds(ops) ==>
            (again.doc == once <==> forall i :: 0 <= i < |ops| && ops[i].id in d.operations ==> Settled(once, ops[i])))
      && (|d.log| + |ops| <= LOG_LIMIT ==> again.doc == once)
  {
    hide Merged;
    var once := Merged(d, ops).doc;
    UnchangedExactly(once, ops);
    if DistinctIds(ops) {
      forall i | 0 <= i < |ops| && ops[i].id !in d.operations ensures Settled(once, ops[i]) {
        DeliveredIsStale(d, ops, i);
      }
    }
    if |d.log| + |ops| <= LOG_LIMIT {
      forall i | 0 <= i < |ops| ensures Settled(once, ops[i]) {
        MergeSettles(d, ops, i);
      }
    }
  }

  // So a log none of which the store knew is merged once and for all.
  lemma NewLogMergesOnce(d: Doc, ops: seq<Operation>)
    requires DistinctIds(ops) && forall i :: 0 <= i < |ops| ==> ops[i].id !in d.operations
    ensures var once := Merged(d, ops).doc; Merged(once, ops).doc == once && Merged(once, ops).applied == []
  {
    MergeIsIdempotent(d, ops);
  }

  // ---------- an operation that comes back ----------

  // A store that made two inserts.
  function Mine(): Doc {
    AfterLocal(AfterLocal(NewDoc(""), InsertAt("a", 0, "x", "e1")), InsertAt("a", 0, "y", "e2"))
  }

  function MyFirst(): Operation {
    Issued(NewDoc(""), InsertAt("a", 0, "x", "e1"))
  }

  // A store that received the first of them and then made n inserts of its own.
  function Theirs(n: nat): Doc {
    if n == 0 then AfterRemote(NewDoc(""), MyFirst())
    else AfterLocal(Theirs(n - 1), InsertAt("b", 0, "z", seq(n + 2, _ => 'b')))
  }

  function TheirNext(n: nat): Operation {
    Operation(seq(n + 3, _ => 'b'), "b", Insert, 0, 0, "z", n + 3)
  }

  lemma {:induction false} TheirLog(n: nat)
    requires n < LOG_LIMIT
    ensures Theirs(n).time == n + 2 && |Theirs(n).log| == n + 1 && Theirs(n).log[0] == MyFirst()
    ensures n > 0 ==> Theirs(n).log == Theirs(n - 1).log + [TheirNext(n - 1)]
  {
    hide AfterRemote;
    if n > 0 {
      TheirLog(n - 1);
    } else {
      TheirStart();
    }
  }

  lemma TheirStart()
    ensures AfterRemote(NewDoc(""), MyFirst()).log == [MyFirst()] && AfterRemote(NewDoc(""), MyFirst()).time == 2
  {
    assert Transformed(MyFirst(), []) == Some(MyFirst());
  }

  ghost predicate OnlyInserts(log: seq<Operation>) {
    forall i :: 0 <= i < |log| ==> log[i].kind.Insert?
  }

  lemma {:induction false} NeverLost(m: Moved, user: User, log: seq<Operation>)
    requires OnlyInserts(log) && m.At?
    ensures Through(m, user, log).At?
  {
    if log != [] {
      NeverLost(m, user, log[..|log| - 1]);
    }
  }

  // What the first store is like after merging n of the other's inserts.
  ghost predicate Echoing(d: Doc, n: nat) {
    && |d.log| == n + 2 && d.log[0] == MyFirst() && OnlyInserts(d.log)
    && "a" !in d.userClocks && UserTime(d, "b") <= n + 2
    && forall id :: id in d.operations ==> |id| < n + 3
  }

  lemma OneMoreInsert(m: Merging, n: nat)
    requires Echoing(m.doc, n) && n + 2 <= LOG_LIMIT
    ensures var e := MergeStep(m, TheirNext(n)).doc;
      && OnlyInserts(e.log) && "a" !in e.userClocks
      && (n + 2 < LOG_LIMIT ==> Echoing(e, n + 1))
      && (n + 2 == LOG_LIMIT ==> MyFirst().id !in e.operations)
  {
    NeverLost(At(0, 0), "b", m.doc.log);
    hide Through;
  }

  lemma {:induction false} Echoes(n: nat)
    requires n + 2 <= LOG_LIMIT
    ensures Echoing(Merged(Mine(), Theirs(n).log).doc, n)
  {
    hide *;
    TheirLog(n);
    if n == 0 {
      EchoesAtFirst(Theirs(0).log);
    } else {
      Echoes(n - 1);
      MergedStep(Mine(), Theirs(n - 1).log, TheirNext(n - 1));
      OneMoreInsert(Merged(Mine(), Theirs(n - 1).log), n - 1);
    }
  }

  lemma EchoesAtFirst(log: seq<Operation>)
    requires |log| == 1 && log[0] == MyFirst()
    ensures Echoing(Merged(Mine(), log).doc, 0)
  {
    hide *;
    MineIs();
    SettledMerge(Mine(), log);
  }

  lemma MineIs()
    ensures Echoing(Mine(), 0) && Settled(Mine(), MyFirst())
  {
    var d := AfterLocal(NewDoc(""), InsertAt("a", 0, "x", "e1"));
    assert d.log == [MyFirst()] && d.content == "x" && d.time == 1;
    assert d.userClocks == map[] && d.operations.Keys == {"e1"};
    MineGrows(d);
  }

  lemma MineGrows(d: Doc)
    requires d.log == [MyFirst()] && |d.content| == 1 && d.userClocks == map[] && d.operations.Keys == {"e1"}
    ensures var e := AfterLocal(d, InsertAt("a", 0, "y", "e2"));
      Echoing(e, 0) && MyFirst().id in e.operations
  {
  }

  lemma MergedStep(d: Doc, ops: seq<Operation>, op: Operation)
    ensures Merged(d, ops + [op]) == MergeStep(Merged(d, ops), op)
  {
  }

  // The other store's log begins with an operation this one made itself and has only by id.
  // A thousand operations later that is forgotten, and the second merge applies it again.
  lemma OwnOperationComesBack()
    ensures var d, ops := Mine(), Theirs(LOG_LIMIT - 1).log; var once := Merged(d, ops).doc;
      && |ops| == LOG_LIMIT && ops[0].id in d.operations
      && !Settled(once, ops[0]) && RemoteResult(once, ops[0]).Some? && Merged(once, ops).doc != once
  {
    var n := LOG_LIMIT - 1;
    var d, ops := Mine(), Theirs(n).log;
    hide MergeStep, Mine, Theirs, Merged, Echoing, Through;
    TheirLog(n);
    Echoes(n - 1);
    MergedStep(d, Theirs(n - 1).log, TheirNext(n - 1));
    OneMoreInsert(Merged(d, Theirs(n - 1).log), n - 1);
    var once := Merged(d, ops).doc;
    NeverLost(At(0, 0), "a", once.log);
    UnchangedExactly(once, ops);
  }
}

/** What a merge reports: which of the other store's operations it applied and rejected, and
    how many conflicts it counted. */
module DocumentMerging {
  import opened Common
  import opened DocumentStore

  // The store when the operation at a place has its turn.
  ghost function AtTurn(d: Doc, ops: seq<Operation>, i: nat): Doc
    requires i <= |ops|
  {
    if i == 0 then d
    else
      var before := AtTurn(d, ops, i - 1);
      if ops[i - 1].id in before.operations then before else AfterRemote(before, ops[i - 1])
  }

  ghost predicate Taken(d: Doc, ops: seq<Operation>, i: nat)
    requires i < |ops|
  {
    ops[i].id !in AtTurn(d, ops, i).operations && RemoteResult(AtTurn(d, ops, i), ops[i]).Some?
  }

  ghost predicate Refused(d: Doc, ops: seq<Operation>, i: nat)
    requires i < |ops|
  {
    ops[i].id !in AtTurn(d, ops, i).operations && RemoteResult(AtTurn(d, ops, i), ops[i]).None?
  }

  ghost predicate Conflicting(d: Doc, ops: seq<Operation>, i: nat)
    requires i < |ops|
  {
    Refused(d, ops, i) && ops[i].position < |AtTurn(d, ops, i).content|
  }

  // Places among the first n, in order.
  ghost predicate Places(places: seq<nat>, n: nat) {
    (forall j :: 0 <= j < |places| ==> places[j] < n)
    && (forall j, k :: 0 <= j < k < |places| ==> places[j] < places[k])
  }

  // The list has, in the order of their turns, what was made of all operations taken.
  ghost predicate ListsTaken(d: Doc, ops: seq<Operation>, n: nat, applied: seq<Operation>, places: seq<nat>)
    requires n <= |ops|
  {
    && Places(places, n) && |applied| == |places|
    && (forall i :: 0 <= i < n ==> (Taken(d, ops, i) <==> i in places))
    && (forall j :: 0 <= j < |places| ==>
          RemoteResult(AtTurn(d, ops, places[j]), ops[places[j]]) == Some(applied[j]))
  }

  // The list has, in order, all operations refused.
  ghost predicate ListsRefused(d: Doc, ops: seq<Operation>, n: nat, rejected: seq<Operation>, places: seq<nat>)
    requires n <= |ops|
  {
    && Places(places, n) && |rejected| == |places|
    && (forall i :: 0 <= i < n ==> (Refused(d, ops, i) <==> i in places))
    && (forall j :: 0 <= j < |places| ==> rejected[j] == ops[places[j]])
  }

  ghost function Conflicts(d: Doc, ops: seq<Operation>, n: nat): set<nat>
    requires n <= |ops|
  {
    set i | 0 <= i < n && Conflicting(d, ops, i)
  }

  lemma OneMoreTaken(
    d: Doc, ops: seq<Operation>, n: nat, applied: seq<Operation>, places: seq<nat>)
    requires n < |ops| && ListsTaken(d, ops, n, applied, places)
    ensures Taken(d, ops, n) ==>
      ListsTaken(d, ops, n + 1, applied + [RemoteResult(AtTurn(d, ops, n), ops[n]).value], places + [n])
    ensures !Taken(d, ops, n) ==> ListsTaken(d, ops, n + 1, applied, places)
  {
    hide AtTurn, RemoteResult;
    assert n !in places;
    assert forall i :: i in places + [n] <==> i in places || i == n;
  }

  lemma OneMoreRefused(
    d: Doc, ops: seq<Operation>, n: nat, rejected: seq<Operation>, places: seq<nat>)
    requires n < |ops| && ListsRefused(d, ops, n, rejected, places)
    ensures Refused(d, ops, n) ==> ListsRefused(d, ops, n + 1, rejected + [ops[n]], places + [n])
    ensures !Refused(d, ops, n) ==> ListsRefused(d, ops, n + 1, rejected, places)
  {
    hide AtTurn, RemoteResult;
    assert n !in places;
    assert forall i :: i in places + [n] <==> i in places || i == n;
  }

  lemma OneMoreConflict(d: Doc, ops: seq<Operation>, n: nat)
    requires n < |ops|
    ensures |Conflicts(d, ops, n + 1)| == |Conflicts(d, ops, n)| + if Conflicting(d, ops, n) then 1 else 0
  {
    hide Conflicting;
    assert Conflicts(d, ops, n + 1) == Conflicts(d, ops, n) + if Conflicting(d, ops, n) then {n} else {};
  }

  lemma MergedTurn(d: Doc, ops: seq<Operation>, n: nat)
    requires n < |ops| && Merged(d, ops[..n]).doc == AtTurn(d, ops, n)
    ensures var m, e := Merged(d, ops[..n]), Merged(d, ops[..n + 1]);
      && e.doc == AtTurn(d, ops, n + 1)
      && e.applied == m.applied +
           (if Taken(d, ops, n) then [RemoteResult(AtTurn(d, ops, n), ops[n]).value] else [])
      && e.rejected == m.rejected + (if Refused(d, ops, n) then [ops[n]] else [])
      && e.conflicts == m.conflicts + (if Conflicting(d, ops, n) then 1 else 0)
  {
    assert ops[..n + 1][..n] == ops[..n];
    RefusedLeavesContent(AtTurn(d, ops, n), ops[n]);
    hide AfterRemote, RemoteResult;
  }

  lemma RefusedLeavesContent(d: Doc, op: Operation)
    ensures RemoteResult(d, op).None? ==> AfterRemote(d, op).content == d.content
  {
  }

  lemma {:induction false} ReportUpTo(d: Doc, ops: seq<Operation>, n: nat)
    returns (taken: seq<nat>, refused: seq<nat>)
    requires n <= |ops|
    ensures var m := Merged(d, ops[..n]);
      && m.doc == AtTurn(d, ops, n)
      && ListsTaken(d, ops, n, m.applied, taken) && ListsRefused(d, ops, n, m.rejected, refused)
      && m.conflicts == |Conflicts(d, ops, n)|
  {
    hide *;
    if n == 0 {
      taken, refused := [], [];
      NothingReported(d, ops);
    } else {
      taken, refused := ReportUpTo(d, ops, n - 1);
      ReportStep(d, ops, n - 1, taken, refused);
      taken := if Taken(d, ops, n - 1) then taken + [n - 1] else taken;
      refused := if Refused(d, ops, n - 1) then refused + [n - 1] else refused;
    }
  }

  lemma NothingReported(d: Doc, ops: seq<Operation>)
    ensures Merged(d, ops[..0]) == Merging(AtTurn(d, ops, 0), [], [], 0)
    ensures ListsTaken(d, ops, 0, [], []) && ListsRefused(d, ops, 0, [], []) && |Conflicts(d, ops, 0)| == 0
  {
    assert Conflicts(d, ops, 0) == {};
  }

  lemma ReportStep(d: Doc, ops: seq<Operation>, n: nat, taken: seq<nat>, refused: seq<nat>)
    requires n < |ops| && Merged(d, ops[..n]).doc == AtTurn(d, ops, n)
    requires ListsTaken(d, ops, n, Merged(d, ops[..n]).applied, taken)
    requires ListsRefused(d, ops, n, Merged(d, ops[..n]).rejected, refused)
    requires Merged(d, ops[..n]).conflicts == |Conflicts(d, ops, n)|
    ensures var m := Merged(d, ops[..n + 1]);
      && m.doc == AtTurn(d, ops, n + 1)
      && ListsTaken(d, ops, n + 1, m.applied, if Taken(d, ops, n) then taken + [n] else taken)
      && ListsRefused(d, ops, n + 1, m.rejected, if Refused(d, ops, n) then refused + [n] else refused)
      && m.conflicts == |Conflicts(d, ops, n + 1)|
  {
    hide *;
    var m, e := Merged(d, ops[..n]), Merged(d, ops[..n + 1]);
    MergedTurn(d, ops, n);
    OneMoreTaken(d, ops, n, m.applied, taken);
    OneMoreRefused(d, ops, n, m.rejected, refused);
    OneMoreConflict(d, ops, n);
    assert !Taken(d, ops, n) ==> e.applied == m.applied;
    assert !Refused(d, ops, n) ==> e.rejected == m.rejected;
  }

  // The report of any merge: of the operations not known by id at their turn, those that came
  // to something, as they were applied, and those that did not, as they were sent, in order;
  // a conflict is one of the latter whose position was inside the text at its turn.
  lemma MergeReports(d: Doc, ops: seq<Operation>) returns (taken: seq<nat>, refused: seq<nat>)
    ensures var m := Merged(d, ops);
      && m.doc == AtTurn(d, ops, |ops|)
      && ListsTaken(d, ops, |ops|, m.applied, taken) && ListsRefused(d, ops, |ops|, m.rejected, refused)
      && m.conflicts == |Conflicts(d, ops, |ops|)|
  {
    assert ops[..|ops|] == ops;
    taken, refused := ReportUpTo(d, ops, |ops|);
  }
}

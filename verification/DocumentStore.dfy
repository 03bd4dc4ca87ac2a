/** The collaborative document store: a Lamport clock, duplicate suppression per user, a
    bounded operation log, and positions transformed by folding over that log.

    `Doc` is the value of the store's fields. Each method of the class at the end is proved
    to compute the function of this module that models it. */
module DocumentStore {
  import opened Common

  // Content is a sequence of code units; positions may be any number a caller passes.
  type Text = string
  type User = string
  type Id = string

  datatype Kind = Insert | Delete | Replace

  datatype Operation = Operation(
    id: Id, user: User, kind: Kind, position: int, length: int, text: Text, clock: int)

  datatype Doc = Doc(
    content: Text, time: int, operations: map<Id, Operation>, log: seq<Operation>,
    activeUsers: set<User>, userClocks: map<User, int>)

  const LOG_LIMIT := 1000

  function NewDoc(content: Text): Doc {
    Doc(content, 0, map[], [], {}, map[])
  }

  // ---------- text ----------

  // A slice counts a negative bound from the end and clips it to the string.
  function Clip(s: Text, bound: int): nat {
    if bound < 0 then (if |s| + bound < 0 then 0 else |s| + bound)
    else if bound > |s| then |s| else bound
  }

  function Splice(s: Text, position: int, length: int, text: Text): Text {
    s[..Clip(s, position)] + text + s[Clip(s, position + length)..]
  }

  function Effect(s: Text, op: Operation): Text {
    match op.kind
    case Insert => Splice(s, op.position, 0, op.text)
    case Delete => Splice(s, op.position, op.length, "")
    case Replace => Splice(s, op.position, op.length, op.text)
  }

  predicate Fits(s: Text, op: Operation) {
    0 <= op.position && op.position + (if op.kind.Insert? then 0 else op.length) <= |s|
  }

  // ---------- recording ----------

  function Recorded(d: Doc, op: Operation): Doc {
    var log, ops := d.log + [op], d.operations[op.id := op];
    var trim := |log| > LOG_LIMIT;
    d.(operations := if trim then ops - {log[0].id} else ops,
       log := if trim then log[1..] else log,
       activeUsers := d.activeUsers + {op.user})
  }

  ghost predicate DistinctIds(ops: seq<Operation>) {
    forall i, j :: 0 <= i < j < |ops| ==> ops[i].id != ops[j].id
  }

  // ---------- local edits ----------

  datatype Command =
    | InsertAt(user: User, position: int, text: Text, id: Id)
    | DeleteAt(user: User, position: int, length: int, id: Id)
    | ReplaceAt(user: User, position: int, length: int, text: Text, id: Id)

  predicate Valid(s: Text, c: Command) {
    match c
    case InsertAt(_, p, _, _) => 0 <= p <= |s|
    case DeleteAt(_, p, n, _) => n > 0 && 0 <= p && p + n <= |s|
    case ReplaceAt(_, p, n, _, _) => 0 <= p && p + n <= |s|
  }

  function Issued(d: Doc, c: Command): Operation {
    match c
    case InsertAt(u, p, t, id) => Operation(id, u, Insert, p, 0, t, d.time + 1)
    case DeleteAt(u, p, n, id) => Operation(id, u, Delete, p, n, "", d.time + 1)
    case ReplaceAt(u, p, n, t, id) => Operation(id, u, Replace, p, n, t, d.time + 1)
  }

  // An invalid insert throws after the clock has ticked; the others throw before.
  function AfterLocal(d: Doc, c: Command): Doc {
    if Valid(d.content, c) then
      var op := Issued(d, c);
      Recorded(d.(content := Effect(d.content, op), time := d.time + 1), op)
    else if c.InsertAt? then d.(time := d.time + 1)
    else d
  }

  // ---------- remote edits ----------

  // Where an incoming operation has got to on its way through the log.
  datatype Moved = At(position: int, length: int) | Lost

  function Past(m: Moved, user: User, op: Operation): Moved {
    if m.Lost? || op.user == user then m
    else
      var end := op.position + op.length;
      match op.kind
      case Insert => if op.position <= m.position then m.(position := m.position + |op.text|) else m
      case Delete =>
        if end <= m.position then m.(position := m.position - op.length)
        else if op.position < m.position then
          var rest := m.length - (end - m.position);
          At(op.position, if rest < 0 then 0 else rest)
        else m
      case Replace =>
        if end <= m.position then m.(position := m.position + |op.text| - op.length)
        else if op.position < m.position then Lost
        else m
  }

  function Through(m: Moved, user: User, log: seq<Operation>): Moved {
    if log == [] then m else Past(Through(m, user, log[..|log| - 1]), user, log[|log| - 1])
  }

  function Transformed(op: Operation, log: seq<Operation>): Option<Operation> {
    match Through(At(op.position, op.length), op.user, log)
    case At(p, n) => Some(op.(position := p, length := n))
    case Lost => None
  }

  function UserTime(d: Doc, user: User): int {
    if user in d.userClocks then d.userClocks[user] else 0
  }

  predicate Fresh(d: Doc, op: Operation) {
    op.clock > UserTime(d, op.user)
  }

  function Witnessed(d: Doc, op: Operation): Doc {
    d.(userClocks := d.userClocks[op.user := op.clock], time := Max(d.time, op.clock) + 1)
  }

  // What is applied and recorded; nothing when the operation is stale, known or lost.
  function RemoteResult(d: Doc, op: Operation): Option<Operation> {
    if Fresh(d, op) && op.id !in d.operations then Transformed(op, d.log) else None
  }

  // An operation that no longer fits is recorded without touching the content.
  function AfterRemote(d: Doc, op: Operation): Doc {
    if !Fresh(d, op) then d
    else
      var w := Witnessed(d, op);
      match RemoteResult(d, op)
      case None => w
      case Some(t) => Recorded(if Fits(d.content, t) then w.(content := Effect(d.content, t)) else w, t)
  }

  // ---------- merge ----------

  datatype Merging = Merging(doc: Doc, applied: seq<Operation>, rejected: seq<Operation>, conflicts: nat)

  function MergeStep(m: Merging, op: Operation): Merging {
    if op.id in m.doc.operations then m
    else
      var after := AfterRemote(m.doc, op);
      match RemoteResult(m.doc, op)
      case Some(t) => Merging(after, m.applied + [t], m.rejected, m.conflicts)
      case None =>
        Merging(after, m.applied, m.rejected + [op],
                m.conflicts + if op.position < |after.content| then 1 else 0)
  }

  function Merged(d: Doc, ops: seq<Operation>): Merging {
    if ops == [] then Merging(d, [], [], 0)
    else MergeStep(Merged(d, ops[..|ops| - 1]), ops[|ops| - 1])
  }

  // ---------- the objects ----------

  class LamportClock {
    var time: int

    constructor ()
      ensures time == 0
    {
      time := 0;
    }

    method Tick() returns (now: int)
      modifies this
      ensures now == time == old(time) + 1
    {
      time := time + 1;
      now := time;
    }

    method Merge(otherTime: int) returns (now: int)
      modifies this
      ensures now == time == Max(old(time), otherTime) + 1
    {
      time := Max(time, otherTime) + 1;
      now := time;
    }
  }

  datatype Resolution = Resolution(
    before: Text, after: Text, applied: seq<Operation>, rejected: seq<Operation>, conflictCount: nat)

  class CRDTDocumentStore {
    var content: Text
    var clock: LamportClock
    var operations: map<Id, Operation>
    var operationLog: seq<Operation>
    var activeUsers: set<User>
    var userClocks: map<User, int>

    function Contents(): Doc
      reads this, clock
    {
      Doc(content, clock.time, operations, operationLog, activeUsers, userClocks)
    }

    constructor (initialContent: Text)
      ensures content == initialContent && clock.time == 0 && operations == map[] && operationLog == []
      ensures activeUsers == {} && userClocks == map[]
      ensures fresh(clock) && Contents() == NewDoc(initialContent)
    {
      content := initialContent;
      clock := new LamportClock();
      operations, operationLog, activeUsers, userClocks := map[], [], {}, map[];
    }

    // The id stands for what the random generator returns. None stands for a thrown error.
    method Insert(user: User, position: int, text: Text, id: Id) returns (r: Option<Operation>)
      modifies this, clock
      ensures clock == old(clock)
      ensures var c := InsertAt(user, position, text, id);
        && Contents() == AfterLocal(old(Contents()), c)
        && r == if Valid(old(content), c) then Some(Issued(old(Contents()), c)) else None
    {
      var now := clock.Tick();
      var operation := Operation(id, user, Kind.Insert, position, 0, text, now);
      if position < 0 || position > |content| {
        return None;
      }
      content := content[..position] + text + content[position..];
      RecordOperation(operation);
      return Some(operation);
    }

    method Delete(user: User, position: int, length: int, id: Id) returns (r: Option<Operation>)
      modifies this, clock
      ensures clock == old(clock)
      ensures var c := DeleteAt(user, position, length, id);
        && Contents() == AfterLocal(old(Contents()), c)
        && r == if Valid(old(content), c) then Some(Issued(old(Contents()), c)) else None
    {
      if length <= 0 {
        return None;
      }
      if position < 0 || position + length > |content| {
        return None;
      }
      var now := clock.Tick();
      var operation := Operation(id, user, Kind.Delete, position, length, "", now);
      content := content[..position] + content[position + length..];
      RecordOperation(operation);
      return Some(operation);
    }

    method Replace(user: User, position: int, length: int, text: Text, id: Id) returns (r: Option<Operation>)
      modifies this, clock
      ensures clock == old(clock)
      ensures var c := ReplaceAt(user, position, length, text, id);
        && Contents() == AfterLocal(old(Contents()), c)
        && r == if Valid(old(content), c) then Some(Issued(old(Contents()), c)) else None
    {
      if position < 0 || position + length > |content| {
        return None;
      }
      var now := clock.Tick();
      var operation := Operation(id, user, Kind.Replace, position, length, text, now);
      content := Splice(content, position, length, text);
      RecordOperation(operation);
      return Some(operation);
    }

    method RecordOperation(operation: Operation)
      modifies this`operations, this`operationLog, this`activeUsers
      ensures Contents() == Recorded(old(Contents()), operation)
    {
      operations := operations[operation.id := operation];
      operationLog := operationLog + [operation];
      activeUsers := activeUsers + {operation.user};
      if |operationLog| > LOG_LIMIT {
        var removed := operationLog[0];
        operationLog := operationLog[1..];
        operations := operations - {removed.id};
      }
    }

    method TransformOperation(operation: Operation) returns (r: Option<Operation>)
      ensures r == Transformed(operation, operationLog)
    {
      var transformed := operation;
      var position := operation.position;
      for i := 0 to |operationLog|
        invariant transformed == operation.(position := transformed.position, length := transformed.length)
        invariant Through(At(operation.position, operation.length), operation.user, operationLog[..i])
               == At(position, transformed.length)
      {
        assert operationLog[..i + 1][..i] == operationLog[..i];
        var op := operationLog[i];
        if op.user == operation.user {
          continue;
        }
        if op.kind.Insert? && op.position <= position {
          position := position + |op.text|;
        } else if op.kind.Delete? {
          if op.position + op.length <= position {
            position := position - op.length;
          } else if op.position < position && op.position + op.length > position {
            var overlap := op.position + op.length - position;
            transformed := transformed.(position := op.position, length := Max(0, transformed.length - overlap));
            position := op.position;
          }
        } else if op.kind.Replace? {
          if op.position + op.length <= position {
            position := position + |op.text| - op.length;
          } else if op.position < position && op.position + op.length > position {
            LostForGood(operation, operationLog, i + 1);
            return None;
          }
        }
      }
      assert operationLog[..|operationLog|] == operationLog;
      transformed := transformed.(position := position);
      return Some(transformed);
    }

    method ApplyRemote(operation: Operation) returns (r: Option<Operation>)
      modifies this, clock
      ensures clock == old(clock)
      ensures Contents() == AfterRemote(old(Contents()), operation)
      ensures r == RemoteResult(old(Contents()), operation)
    {
      var userTime := if operation.user in userClocks then userClocks[operation.user] else 0;
      if operation.clock <= userTime {
        return None;
      }
      userClocks := userClocks[operation.user := operation.clock];
      var _ := clock.Merge(operation.clock);
      if operation.id in operations {
        return None;
      }
      var transformed := TransformOperation(operation);
      if transformed.None? {
        return None;
      }
      var t := transformed.value;
      match t.kind {
        case Insert =>
          if t.position >= 0 && t.position <= |content| {
            content := Splice(content, t.position, 0, t.text);
          }
        case Delete =>
          if t.position >= 0 && t.position + t.length <= |content| {
            content := Splice(content, t.position, t.length, "");
          }
        case Replace =>
          if t.position >= 0 && t.position + t.length <= |content| {
            content := Splice(content, t.position, t.length, t.text);
          }
      }
      RecordOperation(t);
      return transformed;
    }

    // The remote log is copied first, so a store may be merged with itself.
    method Merge(remote: CRDTDocumentStore) returns (r: Resolution)
      modifies this, clock
      ensures clock == old(clock)
      ensures var m := Merged(old(Contents()), old(remote.operationLog));
        && Contents() == m.doc
        && r == Resolution(old(content), content, m.applied, m.rejected, m.conflicts)
    {
      var before := content;
      var remoteOps := remote.operationLog;
      var applied, rejected, conflictCount := [], [], 0;
      assert remoteOps[..0] == [];
      for i := 0 to |remoteOps|
        invariant clock == old(clock)
        invariant Merging(Contents(), applied, rejected, conflictCount) == Merged(old(Contents()), remoteOps[..i])
      {
        assert remoteOps[..i + 1][..i] == remoteOps[..i];
        var op := remoteOps[i];
        if op.id in operations {
          continue;
        }
        var result := ApplyRemote(op);
        if result.Some? {
          applied := applied + [result.value];
        } else {
          rejected := rejected + [op];
          if op.position < |content| {
            conflictCount := conflictCount + 1;
          }
        }
      }
      assert remoteOps[..|remoteOps|] == remoteOps;
      return Resolution(before, content, applied, rejected, conflictCount);
    }

    method Clear()
      modifies this
      ensures content == "" && clock.time == 0 && operations == map[] && operationLog == []
      ensures activeUsers == {} && userClocks == map[]
      ensures fresh(clock) && Contents() == NewDoc("")
    {
      content := "";
      clock := new LamportClock();
      operations, operationLog, activeUsers, userClocks := map[], [], {}, map[];
    }
  }

  lemma {:induction false} LostForGood(op: Operation, log: seq<Operation>, i: nat)
    requires i <= |log| && Through(At(op.position, op.length), op.user, log[..i]).Lost?
    ensures Through(At(op.position, op.length), op.user, log).Lost?
    decreases |log| - i
  {
    if i < |log| {
      assert log[..i + 1][..i] == log[..i];
      LostForGood(op, log, i + 1);
    } else {
      assert log[..i] == log;
    }
  }
}

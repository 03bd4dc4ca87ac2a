/** One writer and one reader: the reader gets the writer's operations in order, with
    earlier ones delivered again at will, and always has the content the writer had. */
module DocumentReplication {
  import opened Common
  import opened DocumentStore

  // ---------- the writer ----------

  function Wrote(d: Doc, commands: seq<Command>): Doc {
    if commands == [] then d
    else AfterLocal(Wrote(d, commands[..|commands| - 1]), commands[|commands| - 1])
  }

  // The operations issued by the valid commands, in order.
  function Sent(d: Doc, commands: seq<Command>): seq<Operation> {
    if commands == [] then []
    else
      var before := commands[..|commands| - 1];
      var w, c := Wrote(d, before), commands[|commands| - 1];
      Sent(d, before) + if Valid(w.content, c) then [Issued(w, c)] else []
  }

  ghost predicate WrittenBy(user: User, commands: seq<Command>) {
    forall i :: 0 <= i < |commands| ==> commands[i].user == user
  }

  // ---------- the reader ----------

  ghost predicate Within(deliveries: seq<nat>, n: nat) {
    forall i :: 0 <= i < |deliveries| ==> deliveries[i] < n
  }

  ghost function Read(d: Doc, ops: seq<Operation>, deliveries: seq<nat>): Doc
    requires Within(deliveries, |ops|)
  {
    if deliveries == [] then d
    else AfterRemote(Read(d, ops, deliveries[..|deliveries| - 1]), ops[deliveries[|deliveries| - 1]])
  }

  // How many of the operations have arrived, when each arrives after the ones before it.
  function Reached(deliveries: seq<nat>): nat {
    if deliveries == [] then 0
    else
      var n := Reached(deliveries[..|deliveries| - 1]);
      if deliveries[|deliveries| - 1] == n then n + 1 else n
  }

  // Every delivery is of the next operation or of an earlier one.
  ghost predicate InOrder(deliveries: seq<nat>) {
    deliveries == []
    || (InOrder(deliveries[..|deliveries| - 1])
        && deliveries[|deliveries| - 1] <= Reached(deliveries[..|deliveries| - 1]))
  }

  // ---------- the writer's operations ----------

  ghost function Replayed(s: Text, ops: seq<Operation>): Text {
    if ops == [] then s else Effect(Replayed(s, ops[..|ops| - 1]), ops[|ops| - 1])
  }

  ghost function ClockAfter(start: int, ops: seq<Operation>): int {
    if ops == [] then start else ops[|ops| - 1].clock
  }

  // Each operation fits the content its predecessors leave, and clocks increase.
  ghost predicate Sound(start: int, s: Text, user: User, ops: seq<Operation>) {
    ops == [] ||
    var before, op := ops[..|ops| - 1], ops[|ops| - 1];
    Sound(start, s, user, before)
    && op.user == user && Fits(Replayed(s, before), op) && op.clock > ClockAfter(start, before)
  }

  lemma SoundAppend(start: int, s: Text, user: User, ops: seq<Operation>, op: Operation)
    requires Sound(start, s, user, ops)
    requires op.user == user && Fits(Replayed(s, ops), op) && op.clock > ClockAfter(start, ops)
    ensures Sound(start, s, user, ops + [op])
    ensures Replayed(s, ops + [op]) == Effect(Replayed(s, ops), op)
  {
  }

  lemma {:induction false} SoundAt(start: int, s: Text, user: User, ops: seq<Operation>, i: nat)
    requires Sound(start, s, user, ops) && i < |ops|
    ensures ops[i].user == user && Fits(Replayed(s, ops[..i]), ops[i])
    ensures ops[i].clock > ClockAfter(start, ops[..i])
  {
    if i < |ops| - 1 {
      assert ops[..|ops| - 1][..i] == ops[..i];
      SoundAt(start, s, user, ops[..|ops| - 1], i);
    }
  }

  lemma {:induction false} SentIsSound(d: Doc, commands: seq<Command>, user: User)
    requires WrittenBy(user, commands)
    ensures var ops := Sent(d, commands);
      && Sound(d.time, d.content, user, ops)
      && Wrote(d, commands).content == Replayed(d.content, ops)
      && Wrote(d, commands).time >= ClockAfter(d.time, ops)
  {
    if commands != [] {
      var before, c := commands[..|commands| - 1], commands[|commands| - 1];
      SentIsSound(d, before, user);
      var w, ops := Wrote(d, before), Sent(d, before);
      assert c.user == user;
      assert Wrote(d, commands) == AfterLocal(w, c);
      assert Sent(d, commands) == ops + if Valid(w.content, c) then [Issued(w, c)] else [];
      hide Sent, Wrote, Sound, Replayed, Effect;
      if Valid(w.content, c) {
        SoundAppend(d.time, d.content, user, ops, Issued(w, c));
      } else {
        assert ops + [] == ops;
      }
    }
  }

  lemma {:induction false} SentGrows(d: Doc, commands: seq<Command>, k: nat)
    requires k <= |commands|
    ensures Sent(d, commands[..k]) <= Sent(d, commands)
  {
    if k == |commands| {
      assert commands[..k] == commands;
    } else {
      assert commands[..|commands| - 1][..k] == commands[..k];
      SentGrows(d, commands[..|commands| - 1], k);
    }
  }

  // ---------- the reader's state ----------

  ghost predicate OnlyBy(user: User, log: seq<Operation>) {
    forall i :: 0 <= i < |log| ==> log[i].user == user
  }

  // A log of the same user's operations moves nothing.
  lemma {:induction false} OwnLogMovesNothing(m: Moved, user: User, log: seq<Operation>)
    requires OnlyBy(user, log)
    ensures Through(m, user, log) == m
  {
    if log != [] {
      OwnLogMovesNothing(m, user, log[..|log| - 1]);
    }
  }

  ghost predicate HasRead(start: Doc, d: Doc, user: User, ops: seq<Operation>, n: nat)
    requires n <= |ops|
  {
    && d.content == Replayed(start.content, ops[..n])
    && OnlyBy(user, d.log)
    && UserTime(d, user) == ClockAfter(UserTime(start, user), ops[..n])
    && forall i :: n <= i < |ops| ==> ops[i].id !in d.operations
  }

  lemma ReadsNext(start: Doc, d: Doc, time: int, user: User, ops: seq<Operation>, n: nat)
    requires n < |ops| && HasRead(start, d, user, ops, n) && DistinctIds(ops)
    requires Sound(time, start.content, user, ops) && UserTime(start, user) <= time
    ensures HasRead(start, AfterRemote(d, ops[n]), user, ops, n + 1)
  {
    var op := ops[n];
    SoundAt(time, start.content, user, ops, n);
    assert op.clock > UserTime(d, user);
    OwnLogMovesNothing(At(op.position, op.length), user, d.log);
    assert Transformed(op, d.log) == Some(op);
    assert ops[..n + 1][..n] == ops[..n];
    assert Fresh(d, op) && op.id !in d.operations;
    assert AfterRemote(d, op) == Recorded(Witnessed(d, op).(content := Effect(d.content, op)), op);
  }

  lemma {:induction false} ClocksIncrease(time: int, s: Text, user: User, ops: seq<Operation>, i: nat, j: nat)
    requires i <= j < |ops| && Sound(time, s, user, ops)
    ensures ops[i].clock <= ops[j].clock
  {
    if i < j {
      SoundAt(time, s, user, ops, j);
      assert ClockAfter(time, ops[..j]) == ops[j - 1].clock;
      ClocksIncrease(time, s, user, ops, i, j - 1);
    }
  }

  lemma {:induction false} ReaderFollows(start: Doc, time: int, user: User, ops: seq<Operation>, deliveries: seq<nat>)
    requires Sound(time, start.content, user, ops) && UserTime(start, user) <= time
    requires DistinctIds(ops) && HasRead(start, start, user, ops, 0)
    requires InOrder(deliveries) && Within(deliveries, |ops|)
    ensures Reached(deliveries) <= |ops|
    ensures HasRead(start, Read(start, ops, deliveries), user, ops, Reached(deliveries))
  {
    if deliveries != [] {
      var before, x := deliveries[..|deliveries| - 1], deliveries[|deliveries| - 1];
      var n := Reached(before);
      assert x <= n && Read(start, ops, deliveries) == AfterRemote(Read(start, ops, before), ops[x]);
      hide Read, Sound, HasRead, DistinctIds, AfterRemote;
      ReaderFollows(start, time, user, ops, before);
      var d := Read(start, ops, before);
      if x == n {
        ReadsNext(start, d, time, user, ops, n);
      } else {
        EarlierIsStale(start, d, time, user, ops, n, x);
      }
    }
  }

  lemma EarlierIsStale(start: Doc, d: Doc, time: int, user: User, ops: seq<Operation>, n: nat, x: nat)
    requires x < n <= |ops| && HasRead(start, d, user, ops, n) && Sound(time, start.content, user, ops)
    ensures AfterRemote(d, ops[x]) == d
  {
    hide AfterRemote, Replayed, OnlyBy;
    ClocksIncrease(time, start.content, user, ops, x, n - 1);
    SoundAt(time, start.content, user, ops, x);
    assert ClockAfter(UserTime(start, user), ops[..n]) == ops[n - 1].clock;
    StaleChangesNothing(d, ops[x]);
  }

  lemma StaleChangesNothing(d: Doc, op: Operation)
    requires !Fresh(d, op)
    ensures AfterRemote(d, op) == d
  {
  }

  lemma ReaderContent(start: Doc, time: int, user: User, ops: seq<Operation>, deliveries: seq<nat>)
    requires Sound(time, start.content, user, ops) && UserTime(start, user) <= time
    requires DistinctIds(ops) && OnlyBy(user, start.log) && NoneKnown(start, ops)
    requires InOrder(deliveries) && Within(deliveries, |ops|)
    ensures Reached(deliveries) <= |ops|
    ensures Read(start, ops, deliveries).content == Replayed(start.content, ops[..Reached(deliveries)])
  {
    assert ops[..0] == [];
    hide Read, Reached, Sound, DistinctIds, InOrder, Within;
    ReaderFollows(start, time, user, ops, deliveries);
  }

  ghost predicate NoneKnown(d: Doc, ops: seq<Operation>) {
    forall i :: 0 <= i < |ops| ==> ops[i].id !in d.operations
  }

  // From equal contents, whatever either has logged (the reader's log being this user's),
  // the reader has exactly the content the writer had after the operations that arrived.
  lemma ReaderHasWritersContent(
    writer: Doc, commands: seq<Command>, k: nat, user: User, reader: Doc, deliveries: seq<nat>)
    requires reader.content == writer.content && OnlyBy(user, reader.log)
    requires UserTime(reader, user) <= writer.time
    requires WrittenBy(user, commands)
    requires DistinctIds(Sent(writer, commands)) && NoneKnown(reader, Sent(writer, commands))
    requires InOrder(deliveries) && Within(deliveries, |Sent(writer, commands)|)
    requires k <= |commands| && Reached(deliveries) == |Sent(writer, commands[..k])|
    ensures Read(reader, Sent(writer, commands), deliveries).content == Wrote(writer, commands[..k]).content
  {
    var ops, sent := Sent(writer, commands), Sent(writer, commands[..k]);
    assert WrittenBy(user, commands[..k]);
    hide *;
    SentIsSound(writer, commands, user);
    SentIsSound(writer, commands[..k], user);
    SentGrows(writer, commands, k);
    ReaderContent(reader, writer.time, user, ops, deliveries);
    assert ops[..|sent|] == sent;
  }
}

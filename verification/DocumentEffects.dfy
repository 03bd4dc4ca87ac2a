/** What each call on the store accepts, issues and does, said from the fields of the call and
    of the store alone. */
module DocumentEffects {
  import opened Common
  import opened DocumentStore
  import opened DocumentWeave
  import opened DocumentConvergence
  import opened DocumentExchange

  // ---------- local edits ----------

  // What every accepted edit does besides changing the text: one tick, and the operation is
  // known by its id and last in the log, of which the oldest of more than a thousand goes.
  ghost predicate Logs(d: Doc, after: Doc, op: Operation) {
    && after.activeUsers == d.activeUsers + {op.user}
    && (|d.log| < 1000 ==> after.log == d.log + [op] && after.operations == d.operations[op.id := op])
    && (|d.log| >= 1000 ==>
          && after.log == d.log[1..] + [op]
          && after.operations == map id | id in d.operations.Keys + {op.id} && id != d.log[0].id ::
               if id == op.id then op else d.operations[id])
  }

  ghost predicate Happens(d: Doc, after: Doc, op: Operation, text: Text) {
    && after.content == text && after.time == d.time + 1 && after.userClocks == d.userClocks
    && Logs(d, after, op)
  }

  lemma RecordedLogs(d: Doc, op: Operation)
    ensures Logs(d, Recorded(d, op), op)
    ensures Recorded(d, op).content == d.content && Recorded(d, op).time == d.time
    ensures Recorded(d, op).userClocks == d.userClocks
  {
    if |d.log| >= 1000 {
      assert (d.log + [op])[0] == d.log[0] && (d.log + [op])[1..] == d.log[1..] + [op];
    }
  }

  lemma LocalIs(d: Doc, c: Command)
    ensures var after, op := AfterLocal(d, c), Issued(d, c);
      && (Valid(d.content, c) ==> Happens(d, after, op, Effect(d.content, op)))
      && (!Valid(d.content, c) ==> after == if c.InsertAt? then d.(time := d.time + 1) else d)
  {
    var op := Issued(d, c);
    RecordedLogs(d.(content := Effect(d.content, op), time := d.time + 1), op);
    hide Recorded, Effect;
  }

  // An insert is accepted anywhere in the text and at its end. A refused one still ticks.
  lemma InsertDoes(d: Doc, u: User, p: int, t: Text, id: Id)
    ensures var c, s := InsertAt(u, p, t, id), d.content;
      var op, after := Operation(id, u, Insert, p, 0, t, d.time + 1), AfterLocal(d, c);
      && (Valid(s, c) <==> 0 <= p <= |s|)
      && (0 <= p <= |s| ==>
            Issued(d, c) == op && RangeOf(c) == Edit(p, 0, t) && Happens(d, after, op, s[..p] + t + s[p..]))
      && (p < 0 || p > |s| ==> after == d.(time := d.time + 1))
  {
    LocalIs(d, InsertAt(u, p, t, id));
    hide AfterLocal, Happens;
  }

  // A delete is accepted of one character or more, all of them in the text.
  lemma DeleteDoes(d: Doc, u: User, p: int, n: int, id: Id)
    ensures var c, s := DeleteAt(u, p, n, id), d.content;
      var op, after := Operation(id, u, Delete, p, n, "", d.time + 1), AfterLocal(d, c);
      && (Valid(s, c) <==> n >= 1 && p >= 0 && p + n <= |s|)
      && (n >= 1 && p >= 0 && p + n <= |s| ==>
            Issued(d, c) == op && RangeOf(c) == Edit(p, n, "") && Happens(d, after, op, s[..p] + s[p + n..]))
      && (n <= 0 || p < 0 || p + n > |s| ==> after == d)
  {
    LocalIs(d, DeleteAt(u, p, n, id));
    hide AfterLocal, Happens;
    assert 0 <= p <= |d.content| ==> d.content[..p] + "" == d.content[..p];
  }

  // Where the text kept behind a replaced range begins: a range of negative length ends in
  // front of its start, and one that ends in front of the text is counted from its end.
  function Resumes(s: Text, p: int, n: int): nat
    requires p + n <= |s|
  {
    if p + n >= 0 then p + n else if |s| + p + n >= 0 then |s| + p + n else 0
  }

  // A replace is accepted of any number of characters in the text, also of none and of a
  // negative number, and then from a start beyond the text.
  lemma ReplaceDoes(d: Doc, u: User, p: int, n: int, t: Text, id: Id)
    ensures var c, s := ReplaceAt(u, p, n, t, id), d.content;
      var op, after := Operation(id, u, Replace, p, n, t, d.time + 1), AfterLocal(d, c);
      && (Valid(s, c) <==> p >= 0 && p + n <= |s|)
      && (p >= 0 && p + n <= |s| ==>
            && Issued(d, c) == op
            && Happens(d, after, op, s[..if p <= |s| then p else |s|] + t + s[Resumes(s, p, n)..]))
      && (n >= 0 && p >= 0 && p + n <= |s| ==>
            RangeOf(c) == Edit(p, n, t) && Happens(d, after, op, s[..p] + t + s[p + n..]))
      && (p < 0 || p + n > |s| ==> after == d)
  {
    LocalIs(d, ReplaceAt(u, p, n, t, id));
    hide AfterLocal, Happens;
  }

  // ---------- deliveries ----------

  // What a delivered operation does to the text once it has been moved: one that reaches
  // beyond the text, or starts in front of it, does nothing.
  ghost predicate Places(s: Text, t: Operation, after: Text) {
    match t.kind
    case Insert => after == if 0 <= t.position <= |s| then s[..t.position] + t.text + s[t.position..] else s
    case Delete =>
      after == if 0 <= t.position && t.position + t.length <= |s|
               then s[..if t.position <= |s| then t.position else |s|] + s[Resumes(s, t.position, t.length)..]
               else s
    case Replace =>
      after == if 0 <= t.position && t.position + t.length <= |s|
               then s[..if t.position <= |s| then t.position else |s|] + t.text
                    + s[Resumes(s, t.position, t.length)..]
               else s
  }

  // The five outcomes of a delivery. Only a clock above the last one of its user, zero for a
  // user not heard of, is taken, and it is remembered even if nothing comes of the operation.
  lemma DeliveryDoes(d: Doc, op: Operation)
    ensures var heard := if op.user in d.userClocks then d.userClocks[op.user] else 0;
      var after, r := AfterRemote(d, op), RemoteResult(d, op);
      && (op.clock <= heard ==> after == d && r == None)
      && (op.clock > heard ==>
            && after.userClocks == d.userClocks[op.user := op.clock]
            && after.time == (if op.clock > d.time then op.clock else d.time) + 1)
      && (op.clock > heard ==> (r == None <==> op.id in d.operations || Transformed(op, d.log) == None))
      && (r == None ==>
            && after.content == d.content && after.log == d.log
            && after.operations == d.operations && after.activeUsers == d.activeUsers)
      && (r.Some? ==>
            && r == Transformed(op, d.log) && r.value == op.(position := r.value.position, length := r.value.length)
            && Places(d.content, r.value, after.content) && Logs(d, after, r.value))
  {
    if RemoteResult(d, op).Some? {
      var t := RemoteResult(d, op).value;
      var w := Witnessed(d, op);
      PlacedText(d.content, t);
      RecordedLogs(if Fits(d.content, t) then w.(content := Effect(d.content, t)) else w, t);
    }
    hide Recorded, Effect, Fits, Places, Logs, Through;
  }

  lemma PlacedText(s: Text, t: Operation)
    ensures Places(s, t, if Fits(s, t) then Effect(s, t) else s)
  {
    assert forall k :: 0 <= k <= |s| ==> s[..k] + "" == s[..k];
  }
}

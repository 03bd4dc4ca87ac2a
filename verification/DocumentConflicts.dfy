/** More edits that leave two stores apart, each with the exact condition: an insertion inside
    a range the other store erases or replaces, a replace that repeats text, and an edit made
    after receiving the other store's insertion. */
module DocumentConflicts {
  import opened DocumentStore
  import opened DocumentWeave
  import opened DocumentConvergence
  import opened DocumentExchange

  // ---------- an insertion inside a range that goes ----------

  // The insertion of s at p and an edit that erases or replaces [q, q + m), with q < p < q + m.
  ghost predicate InsertedInside(base: Text, x: Command, y: Command) {
    && TwoAuthors(base, x, y) && NotNegative(x) && NotNegative(y) && RangeOf(x).length == 0
    && RangeOf(y).position < RangeOf(x).position < RangeOf(y).position + RangeOf(y).length
  }

  // The part of the erased text behind the insertion.
  function Behind(base: Text, x: Command, y: Command): Text
    requires RangeOf(x).position <= RangeOf(y).position + RangeOf(y).length <= |base|
  {
    base[RangeOf(x).position..RangeOf(y).position + RangeOf(y).length]
  }

  lemma InsideMeans(base: Text, x: Command, y: Command)
    requires InsertedInside(base, x, y)
    ensures TwoAuthors(base, x, y) && TwoAuthors(base, y, x)
    ensures Valid(base, x) && Valid(base, y) && NotNegative(x) && NotNegative(y)
    ensures var e, f, opX, opY := RangeOf(x), RangeOf(y), Issued(NewDoc(base), x), Issued(NewDoc(base), y);
      && e.length == 0 && f.position < e.position < f.position + f.length <= |base|
      && WellShaped(opX) && WellShaped(opY) && x.user != y.user && x.id != y.id
      && opX.user == x.user && opX.id == x.id && opX.clock > 0
      && opY.user == y.user && opY.id == y.id && opY.clock > 0
      && e == Edit(opX.position, opX.length, opX.text) && f == Edit(opY.position, opY.length, opY.text)
      && !opX.kind.Delete? && !opY.kind.Insert? && (y.DeleteAt? <==> opY.kind.Delete?)
  {
  }

  // The store that inserted takes the other's range as if nothing had been inserted: it cuts
  // off the insertion with what was in front of it, and as much of the base stays instead.
  lemma InserterReceives(base: Text, x: Command, y: Command)
    requires InsertedInside(base, x, y)
    ensures var e, f := RangeOf(x), RangeOf(y);
      && f.position < e.position < f.position + f.length <= |base|
      && var u := Behind(base, x, y);
      AfterRemote(AfterLocal(NewDoc(base), x), Issued(NewDoc(base), y)).content
      == base[..f.position] + (f.text + (e.text + u)[|u|..]) + base[f.position + f.length..]
  {
    hide *;
    InsideMeans(base, x, y);
    var e, f, opX, opY := RangeOf(x), RangeOf(y), Issued(NewDoc(base), x), Issued(NewDoc(base), y);
    Started(base, x);
    var a := AfterLocal(NewDoc(base), x);
    ThroughOne(opY, opX);
    PastMoves(f.position, f.length, opY.user, opX);
    NotYetHeard(a, opY, x.id);
    SpliceParts(base, e.position, 0, e.text);
    Received(a, opY, f.position);
    BehindIs(base, x, y);
    CutAcross(base, e.position, e.text, f.position, f.length, f.text);
  }

  lemma BehindIs(base: Text, x: Command, y: Command)
    requires RangeOf(x).position <= RangeOf(y).position + RangeOf(y).length <= |base|
    ensures Behind(base, x, y) == base[RangeOf(x).position..RangeOf(y).position + RangeOf(y).length]
  {
  }

  lemma CutAcross(base: Text, p: nat, s: Text, q: nat, m: nat, t: Text)
    requires q <= p <= q + m <= |base|
    ensures var u := base[p..q + m];
      Splice(base[..p] + s + base[p..], q, m, t) == base[..q] + (t + (s + u)[|u|..]) + base[q + m..]
  {
    var whole, u := base[..p] + s + base[p..], base[p..q + m];
    assert whole == base[..q] + base[q..p] + (s + u) + base[q + m..];
    assert whole[q + m..] == (s + u)[|u|..] + base[q + m..];
    assert whole[..q] == base[..q];
  }

  // A store that erased a range puts an insertion inside it where the range was.
  lemma EraserReceives(base: Text, x: Command, y: Command)
    requires InsertedInside(base, x, y) && y.DeleteAt?
    ensures var e, f := RangeOf(x), RangeOf(y);
      && f.position + f.length <= |base|
      && AfterRemote(AfterLocal(NewDoc(base), y), Issued(NewDoc(base), x)).content
         == base[..f.position] + e.text + base[f.position + f.length..]
  {
    hide *;
    InsideMeans(base, x, y);
    var e, f, opX, opY := RangeOf(x), RangeOf(y), Issued(NewDoc(base), x), Issued(NewDoc(base), y);
    Started(base, y);
    var b := AfterLocal(NewDoc(base), y);
    WellShapedMeans(opY);
    ThroughOne(opX, opY);
    PastDelete(e.position, 0, opX.user, opY);
    SoughtInside(f.position, f.length, e.position);
    NotYetHeard(b, opX, y.id);
    SpliceParts(base, f.position, f.length, "");
    Received(b, opX, f.position);
    InsertAfterText(base[..f.position], "", base[f.position + f.length..], e.text);
    assert "" + e.text == e.text;
  }

  lemma SoughtInside(q: nat, m: nat, p: nat)
    requires q < p < q + m
    ensures Sought(q, m, p, 0) == At(q, 0)
  {
  }

  // A store that replaced a range loses an insertion inside it.
  lemma ReplacerReceives(base: Text, x: Command, y: Command)
    requires InsertedInside(base, x, y) && !y.DeleteAt?
    ensures var f := RangeOf(y);
      && f.position + f.length <= |base|
      && AfterRemote(AfterLocal(NewDoc(base), y), Issued(NewDoc(base), x)).content
         == base[..f.position] + f.text + base[f.position + f.length..]
  {
    hide *;
    InsideMeans(base, x, y);
    var e, f, opX, opY := RangeOf(x), RangeOf(y), Issued(NewDoc(base), x), Issued(NewDoc(base), y);
    Started(base, y);
    var b := AfterLocal(NewDoc(base), y);
    ThroughOne(opX, opY);
    LostInside(e.position, 0, opX.user, opY);
    LostLeavesContent(b, opX);
    SpliceParts(base, f.position, f.length, f.text);
  }

  lemma LostInside(p: nat, n: nat, user: User, op: Operation)
    requires op.kind.Replace? && op.user != user && op.position < p < op.position + op.length
    ensures Past(At(p, n), user, op) == Lost
  {
  }

  lemma LostLeavesContent(d: Doc, op: Operation)
    requires Through(At(op.position, op.length), op.user, d.log).Lost?
    ensures AfterRemote(d, op).content == d.content
  {
  }

  // An insertion strictly inside an erased range: the stores agree exactly when cutting the
  // text behind it off the front of both together leaves the insertion.
  lemma InsertInsideDelete(base: Text, x: Command, y: Command)
    requires InsertedInside(base, x, y) && y.DeleteAt?
    ensures var e, f := RangeOf(x), RangeOf(y);
      && f.position < e.position < f.position + f.length <= |base|
      && var s, u := e.text, Behind(base, x, y);
      && FirstMerged(base, x, y).content == base[..f.position] + (s + u)[|u|..] + base[f.position + f.length..]
      && SecondMerged(base, x, y).content == base[..f.position] + s + base[f.position + f.length..]
      && (FirstMerged(base, x, y).content == SecondMerged(base, x, y).content <==> (s + u)[|u|..] == s)
  {
    hide *;
    InsideMeans(base, x, y);
    DeleteRange(base, y);
    MergesExchange(base, x, y);
    InserterReceives(base, x, y);
    EraserReceives(base, x, y);
    var f, s, u := RangeOf(y), RangeOf(x).text, Behind(base, x, y);
    assert "" + (s + u)[|u|..] == (s + u)[|u|..];
    SameFrame(base[..f.position], (s + u)[|u|..], s, base[f.position + f.length..]);
  }

  // Strictly inside a replaced range: they agree exactly when nothing was inserted.
  lemma InsertInsideReplace(base: Text, x: Command, y: Command)
    requires InsertedInside(base, x, y) && !y.DeleteAt?
    ensures var e, f := RangeOf(x), RangeOf(y);
      && f.position < e.position < f.position + f.length <= |base|
      && var s, u, t := e.text, Behind(base, x, y), f.text;
      && FirstMerged(base, x, y).content == base[..f.position] + (t + (s + u)[|u|..]) + base[f.position + f.length..]
      && SecondMerged(base, x, y).content == base[..f.position] + t + base[f.position + f.length..]
      && (FirstMerged(base, x, y).content == SecondMerged(base, x, y).content <==> s == "")
  {
    hide *;
    InsideMeans(base, x, y);
    MergesExchange(base, x, y);
    InserterReceives(base, x, y);
    ReplacerReceives(base, x, y);
    var f, s, u := RangeOf(y), RangeOf(x).text, Behind(base, x, y);
    if s == "" {
      assert (s + u)[|u|..] == "" && f.text + "" == f.text;
    }
  }

  // ---------- ranges that overlap, one of them replaced ----------

  // What an edit makes of a text; one that does not fit is dropped.
  function Overwritten(s: Text, at: nat, n: nat, t: Text): Text {
    if at + n <= |s| then s[..at] + t + s[at + n..] else s
  }

  ghost predicate Overlap(base: Text, x: Command, y: Command) {
    && TwoAuthors(base, x, y) && NotNegative(x) && NotNegative(y) && RangeOf(y).length > 0
    && RangeOf(x).position <= RangeOf(y).position < RangeOf(x).position + RangeOf(x).length
  }

  lemma OverlapMeans(base: Text, x: Command, y: Command)
    requires Overlap(base, x, y)
    ensures TwoAuthors(base, x, y) && TwoAuthors(base, y, x)
    ensures Valid(base, x) && Valid(base, y) && NotNegative(x) && NotNegative(y)
    ensures var e, f, opX, opY := RangeOf(x), RangeOf(y), Issued(NewDoc(base), x), Issued(NewDoc(base), y);
      && e.position <= f.position < e.position + e.length <= |base| && 0 < f.length && f.position + f.length <= |base|
      && WellShaped(opX) && WellShaped(opY) && x.user != y.user && x.id != y.id
      && opX.user == x.user && opX.id == x.id && opY.user == y.user && opY.id == y.id
      && e == Edit(opX.position, opX.length, opX.text) && f == Edit(opY.position, opY.length, opY.text)
      && (x.DeleteAt? ==> opX.kind.Delete?) && (x.ReplaceAt? ==> opX.kind.Replace?)
  {
  }

  // The edit of the range that starts first, or at the same place, is not moved by the other.
  lemma FirstIsUnmoved(base: Text, x: Command, y: Command)
    requires TwoAuthors(base, x, y) && NotNegative(x) && NotNegative(y)
    requires RangeOf(x).position <= RangeOf(y).position && RangeOf(y).length > 0
    ensures var e, f := RangeOf(x), RangeOf(y);
      AfterRemote(AfterLocal(NewDoc(base), y), Issued(NewDoc(base), x)).content
      == Overwritten(Overwritten(base, f.position, f.length, f.text), e.position, e.length, e.text)
  {
    hide *;
    TwoAuthorsMeans(base, x, y);
    IssuedShape(base, x);
    IssuedShape(base, y);
    var e, f, opX, opY := RangeOf(x), RangeOf(y), Issued(NewDoc(base), x), Issued(NewDoc(base), y);
    WellShapedMeans(opX);
    WellShapedMeans(opY);
    Started(base, y);
    var b := AfterLocal(NewDoc(base), y);
    ThroughOne(opX, opY);
    PastMoves(e.position, e.length, opX.user, opY);
    NotYetHeard(b, opX, y.id);
    SpliceIsOverwritten(base, f.position, f.length, f.text);
    ReceivedAs(b, opX, e.position, e.length);
  }

  lemma SpliceIsOverwritten(s: Text, at: nat, n: nat, t: Text)
    requires at + n <= |s|
    ensures Splice(s, at, n, t) == Overwritten(s, at, n, t)
  {
  }

  lemma ReceivedAs(d: Doc, op: Operation, at: nat, n: nat)
    requires WellShaped(op) && Fresh(d, op) && op.id !in d.operations && (op.kind.Insert? ==> n == 0)
    requires Through(At(op.position, op.length), op.user, d.log) == At(at, n)
    ensures AfterRemote(d, op).content == Overwritten(d.content, at, n, op.text)
    ensures |d.log| < LOG_LIMIT ==> AfterRemote(d, op).log == d.log + [op.(position := at, length := n)]
  {
  }

  // Two edits of ranges that start together: each is applied to what the other left.
  lemma SameStart(base: Text, x: Command, y: Command)
    requires Overlap(base, x, y) && RangeOf(x).position == RangeOf(y).position
    ensures var Edit(p, l, s) := RangeOf(x);
      var Edit(_, m, t) := RangeOf(y);
      && p + l <= |base| && p + m <= |base|
      && (FirstMerged(base, x, y).content == SecondMerged(base, x, y).content <==>
            Overwritten(s + base[p + l..], 0, m, t) == Overwritten(t + base[p + m..], 0, l, s))
  {
    hide *;
    OverlapMeans(base, x, y);
    MergesExchange(base, x, y);
    FirstIsUnmoved(base, x, y);
    FirstIsUnmoved(base, y, x);
    var Edit(p, l, s) := RangeOf(x);
    var Edit(_, m, t) := RangeOf(y);
    OverwrittenBehind(base, p, l, s, m, t);
    OverwrittenBehind(base, p, m, t, l, s);
    SameBehind(base[..p], Overwritten(s + base[p + l..], 0, m, t), Overwritten(t + base[p + m..], 0, l, s));
  }

  lemma OverwrittenBehind(base: Text, p: nat, l: nat, s: Text, m: nat, t: Text)
    requires p + l <= |base|
    ensures Overwritten(Overwritten(base, p, l, s), p, m, t) == base[..p] + Overwritten(s + base[p + l..], 0, m, t)
  {
    var rest := s + base[p + l..];
    assert base[..p] + s + base[p + l..] == base[..p] + rest;
    if m <= |rest| {
      assert (base[..p] + rest)[p + m..] == rest[m..];
      assert rest[..0] == "";
    }
  }

  lemma SameBehind(a: Text, b: Text, c: Text)
    ensures a + b == a + c <==> b == c
  {
    if a + b == a + c {
      assert b == (a + b)[|a|..] && c == (a + c)[|a|..];
    }
  }

  // A replaced range that starts first: its store drops the other edit, and the other store
  // applies it all the same. They agree exactly when the other edit leaves what is behind the
  // replaced range as it was or, if the replace then no longer fits, has done the same.
  lemma ReplaceStartsFirst(base: Text, x: Command, y: Command)
    requires Overlap(base, x, y) && x.ReplaceAt? && RangeOf(x).position < RangeOf(y).position
    ensures var Edit(p, l, s) := RangeOf(x);
      var Edit(q, m, t) := RangeOf(y);
      && p + l <= |base| && q + m <= |base|
      && var theirs := base[..q] + t + base[q + m..];
      && FirstMerged(base, x, y).content == base[..p] + s + base[p + l..]
      && SecondMerged(base, x, y).content == Overwritten(theirs, p, l, s)
      && (FirstMerged(base, x, y).content == SecondMerged(base, x, y).content <==>
            if p + l <= |theirs| then theirs[p + l..] == base[p + l..]
            else base[p..q] + t + base[q + m..] == s + base[p + l..])
  {
    hide *;
    OverlapMeans(base, x, y);
    MergesExchange(base, x, y);
    FirstIsUnmoved(base, x, y);
    LostToReplace(base, x, y);
    var Edit(p, l, s) := RangeOf(x);
    var Edit(q, m, t) := RangeOf(y);
    OverwrittenIs(base, q, m, t);
    var theirs := base[..q] + t + base[q + m..];
    SameFront(base, p, q, t, base[q + m..]);
    if p + l <= |theirs| {
      AfterReplace(base, p, l, s, theirs);
    } else {
      OverwrittenIs(theirs, p, l, s);
      SameFrom(base, p, q, s + base[p + l..], t, base[q + m..]);
      SplitText(base[..p], s, base[p + l..]);
    }
  }

  lemma AfterReplace(base: Text, p: nat, l: nat, s: Text, theirs: Text)
    requires p + l <= |base| && p + l <= |theirs| && theirs[..p] == base[..p]
    ensures base[..p] + s + base[p + l..] == Overwritten(theirs, p, l, s) <==> theirs[p + l..] == base[p + l..]
  {
    SameBehind(base[..p] + s, base[p + l..], theirs[p + l..]);
  }

  lemma SameFrom(base: Text, p: nat, q: nat, b: Text, t: Text, d: Text)
    requires p <= q <= |base|
    ensures base[..p] + b == base[..q] + t + d <==> base[p..q] + t + d == b
  {
    assert base[..q] + t + d == base[..p] + (base[p..q] + t + d);
    SameBehind(base[..p], b, base[p..q] + t + d);
  }

  lemma SameFront(base: Text, p: nat, q: nat, t: Text, d: Text)
    requires p <= q <= |base|
    ensures (base[..q] + t + d)[..p] == base[..p]
  {
  }

  lemma SplitText(a: Text, b: Text, c: Text)
    ensures a + (b + c) == a + b + c
  {
  }

  lemma OverwrittenIs(s: Text, at: nat, n: nat, t: Text)
    ensures Overwritten(s, at, n, t) == if at + n <= |s| then s[..at] + t + s[at + n..] else s
  {
  }

  lemma LostToReplace(base: Text, x: Command, y: Command)
    requires Overlap(base, x, y) && x.ReplaceAt? && RangeOf(x).position < RangeOf(y).position
    ensures var e := RangeOf(x);
      && e.position + e.length <= |base|
      && AfterRemote(AfterLocal(NewDoc(base), x), Issued(NewDoc(base), y)).content
         == base[..e.position] + e.text + base[e.position + e.length..]
  {
    hide *;
    OverlapMeans(base, x, y);
    var e, f, opX, opY := RangeOf(x), RangeOf(y), Issued(NewDoc(base), x), Issued(NewDoc(base), y);
    Started(base, x);
    ThroughOne(opY, opX);
    LostInside(f.position, f.length, opY.user, opX);
    LostLeavesContent(AfterLocal(NewDoc(base), x), opY);
    SpliceParts(base, e.position, e.length, e.text);
  }

  // An erased range that starts first: its store replaces what is left of the other range, and
  // the other store erases as many characters as if nothing had been replaced.
  lemma DeleteStartsFirst(base: Text, x: Command, y: Command)
    requires Overlap(base, x, y) && x.DeleteAt? && RangeOf(x).position < RangeOf(y).position
    ensures var Edit(p, l, _) := RangeOf(x);
      var Edit(q, m, t) := RangeOf(y);
      && p + l <= |base| && q + m <= |base|
      && var theirs, rest := base[..q] + t + base[q + m..], base[if p + l < q + m then q + m else p + l..];
      && FirstMerged(base, x, y).content == base[..p] + t + rest
      && SecondMerged(base, x, y).content == Overwritten(theirs, p, l, "")
      && (FirstMerged(base, x, y).content == SecondMerged(base, x, y).content <==>
            if p + l <= |theirs| then t + rest == theirs[p + l..] else t + rest == base[p..q] + t + base[q + m..])
  {
    hide *;
    OverlapMeans(base, x, y);
    DeleteRange(base, x);
    MergesExchange(base, x, y);
    FirstIsUnmoved(base, x, y);
    LeftOfRange(base, x, y);
    var Edit(p, l, _) := RangeOf(x);
    var Edit(q, m, t) := RangeOf(y);
    var theirs, rest := base[..q] + t + base[q + m..], base[if p + l < q + m then q + m else p + l..];
    OverwrittenIs(base, q, m, t);
    SplitText(base[..p], t, rest);
    SameFront(base, p, q, t, base[q + m..]);
    if p + l <= |theirs| {
      AfterDelete(base, p, l, t + rest, theirs);
    } else {
      OverwrittenIs(theirs, p, l, "");
      SameFrom(base, p, q, t + rest, t, base[q + m..]);
    }
  }

  lemma AfterDelete(base: Text, p: nat, l: nat, b: Text, theirs: Text)
    requires p + l <= |base| && p + l <= |theirs| && theirs[..p] == base[..p]
    ensures base[..p] + b == Overwritten(theirs, p, l, "") <==> b == theirs[p + l..]
  {
    assert theirs[..p] + "" + theirs[p + l..] == base[..p] + theirs[p + l..];
    SameBehind(base[..p], b, theirs[p + l..]);
  }

  lemma LeftOfRange(base: Text, x: Command, y: Command)
    requires Overlap(base, x, y) && x.DeleteAt? && RangeOf(x).position < RangeOf(y).position
    ensures var Edit(p, l, _) := RangeOf(x);
      var Edit(q, m, t) := RangeOf(y);
      && p + l <= |base| && q + m <= |base|
      && AfterRemote(AfterLocal(NewDoc(base), x), Issued(NewDoc(base), y)).content
         == base[..p] + t + base[if p + l < q + m then q + m else p + l..]
  {
    hide *;
    OverlapMeans(base, x, y);
    DeleteRange(base, x);
    var Edit(p, l, _) := RangeOf(x);
    var Edit(q, m, t) := RangeOf(y);
    var a, opX, opY := AfterLocal(NewDoc(base), x), Issued(NewDoc(base), x), Issued(NewDoc(base), y);
    var left := if m < p + l - q then 0 else m - (p + l - q);
    WellShapedMeans(opY);
    Started(base, x);
    SpliceParts(base, p, l, "");
    ThroughOne(opY, opX);
    PastDelete(q, m, opY.user, opX);
    SoughtLeft(p, l, q, m);
    NotYetHeard(a, opY, x.id);
    ReceivedAs(a, opY, p, left);
    OverwrittenIs(a.content, p, left, t);
    assert a.content == base[..p] + base[p + l..];
    assert a.content[p + left..] == base[p + l + left..];
  }

  lemma SoughtLeft(p: nat, l: nat, q: nat, m: nat)
    requires p < q < p + l
    ensures Sought(p, l, q, m) == At(p, if m < p + l - q then 0 else m - (p + l - q))
  {
  }

  // ---------- any two edits ----------

  // What two edits of one base must satisfy for the stores to agree, the first starting no
  // later than the second: disjoint ranges, or one of the equations of the cases above.
  ghost predicate AgreeInOrder(base: Text, x: Command, y: Command)
    requires RangeOf(x).position + RangeOf(x).length <= |base| && RangeOf(y).position + RangeOf(y).length <= |base|
    requires RangeOf(x).position <= RangeOf(y).position
  {
    var Edit(p, l, s) := RangeOf(x);
    var Edit(q, m, t) := RangeOf(y);
    var theirs := base[..q] + t + base[q + m..];
    if Apart(RangeOf(x), RangeOf(y)) then true
    else if l == 0 then s + t == t + s
    else if m == 0 && x.DeleteAt? then (t + base[q..p + l])[p + l - q..] == t
    else if m == 0 then t == ""
    else if p == q then Overwritten(s + base[p + l..], 0, m, t) == Overwritten(t + base[p + m..], 0, l, s)
    else if x.DeleteAt? then
      t + base[if p + l < q + m then q + m else p + l..]
      == if p + l <= |theirs| then theirs[p + l..] else base[p..q] + t + base[q + m..]
    else if p + l <= |theirs| then theirs[p + l..] == base[p + l..]
    else base[p..q] + t + base[q + m..] == s + base[p + l..]
  }

  ghost predicate Agree(base: Text, x: Command, y: Command)
    requires RangeOf(x).position + RangeOf(x).length <= |base| && RangeOf(y).position + RangeOf(y).length <= |base|
  {
    if RangeOf(x).position <= RangeOf(y).position then AgreeInOrder(base, x, y) else AgreeInOrder(base, y, x)
  }

  // Two users each make one edit of the base, of any kind and wherever they like, and merge
  // with each other: this says of all such pairs which ones end alike.
  lemma TwoEdits(base: Text, x: Command, y: Command)
    requires TwoAuthors(base, x, y) && NotNegative(x) && NotNegative(y)
    ensures RangeOf(x).position + RangeOf(x).length <= |base| && RangeOf(y).position + RangeOf(y).length <= |base|
    ensures FirstMerged(base, x, y).content == SecondMerged(base, x, y).content <==> Agree(base, x, y)
  {
    hide FirstMerged, SecondMerged, TwoAuthors, AgreeInOrder, Valid, NotNegative, RangeOf;
    TwoAuthorsMeans(base, x, y);
    IssuedShape(base, x);
    IssuedShape(base, y);
    MergesExchange(base, x, y);
    MergesExchange(base, y, x);
    if RangeOf(x).position <= RangeOf(y).position {
      TwoEditsInOrder(base, x, y);
    } else {
      TwoEditsInOrder(base, y, x);
    }
  }

  ghost predicate Ordered(base: Text, x: Command, y: Command) {
    && TwoAuthors(base, x, y) && NotNegative(x) && NotNegative(y)
    && RangeOf(x).position + RangeOf(x).length <= |base| && RangeOf(y).position + RangeOf(y).length <= |base|
    && RangeOf(x).position <= RangeOf(y).position
  }

  lemma TwoEditsInOrder(base: Text, x: Command, y: Command)
    requires Ordered(base, x, y)
    ensures FirstMerged(base, x, y).content == SecondMerged(base, x, y).content <==> AgreeInOrder(base, x, y)
  {
    hide FirstMerged, SecondMerged, TwoAuthors, AgreeInOrder, RangeOf, NotNegative;
    if Apart(RangeOf(x), RangeOf(y)) {
      ApartAgree(base, x, y);
    } else if RangeOf(x).length == 0 {
      SamePoint(base, x, y);
      PointsAgree(base, x, y);
    } else if RangeOf(y).length == 0 {
      InsideAgrees(base, x, y);
    } else {
      OverlapAgrees(base, x, y);
    }
  }

  lemma ApartAgree(base: Text, x: Command, y: Command)
    requires Ordered(base, x, y) && Apart(RangeOf(x), RangeOf(y))
    ensures FirstMerged(base, x, y).content == SecondMerged(base, x, y).content && AgreeInOrder(base, x, y)
  {
    hide FirstMerged, SecondMerged, TwoAuthors, RangeOf, NotNegative;
    if LeftOf(RangeOf(x), RangeOf(y)) {
      DisjointEditsConverge(base, x, y);
    } else {
      TwoAuthorsMeans(base, x, y);
      ApartIsSymmetric(RangeOf(x), RangeOf(y));
      DisjointEditsConverge(base, y, x);
    }
  }

  lemma ApartIsSymmetric(e: Edit, f: Edit)
    requires Apart(e, f)
    ensures Apart(f, e) && (LeftOf(e, f) || LeftOf(f, e))
  {
  }

  lemma PointsAgree(base: Text, x: Command, y: Command)
    requires Ordered(base, x, y) && !Apart(RangeOf(x), RangeOf(y)) && RangeOf(x).length == 0
    ensures AgreeInOrder(base, x, y) <==> RangeOf(x).text + RangeOf(y).text == RangeOf(y).text + RangeOf(x).text
  {
  }

  lemma InsideAgrees(base: Text, x: Command, y: Command)
    requires Ordered(base, x, y) && !Apart(RangeOf(x), RangeOf(y)) && RangeOf(x).length > 0 && RangeOf(y).length == 0
    ensures FirstMerged(base, x, y).content == SecondMerged(base, x, y).content <==> AgreeInOrder(base, x, y)
  {
    hide *;
    OrderedMeans(base, x, y);
    TwoAuthorsMeans(base, x, y);
    MergesExchange(base, x, y);
    MergesExchange(base, y, x);
    AgreeInside(base, x, y);
    if x.DeleteAt? {
      InsertInsideDelete(base, y, x);
    } else {
      InsertInsideReplace(base, y, x);
    }
  }

  lemma OrderedMeans(base: Text, x: Command, y: Command)
    requires Ordered(base, x, y) && !Apart(RangeOf(x), RangeOf(y)) && RangeOf(x).length > 0
    ensures TwoAuthors(base, x, y) && (x.DeleteAt? || x.ReplaceAt?)
    ensures RangeOf(y).length == 0 ==> InsertedInside(base, y, x)
    ensures RangeOf(y).length > 0 ==> Overlap(base, x, y)
  {
  }

  lemma AgreeInside(base: Text, x: Command, y: Command)
    requires Ordered(base, x, y) && !Apart(RangeOf(x), RangeOf(y)) && RangeOf(x).length > 0 && RangeOf(y).length == 0
    ensures RangeOf(y).position <= RangeOf(x).position + RangeOf(x).length <= |base|
    ensures var t, u := RangeOf(y).text, Behind(base, y, x);
      AgreeInOrder(base, x, y) <==> if x.DeleteAt? then (t + u)[|u|..] == t else t == ""
  {
    hide RangeOf, TwoAuthors, NotNegative;
  }

  lemma OverlapAgrees(base: Text, x: Command, y: Command)
    requires Ordered(base, x, y) && !Apart(RangeOf(x), RangeOf(y)) && RangeOf(x).length > 0 && RangeOf(y).length > 0
    ensures FirstMerged(base, x, y).content == SecondMerged(base, x, y).content <==> AgreeInOrder(base, x, y)
  {
    hide *;
    OrderedMeans(base, x, y);
    OverlapMeans(base, x, y);
    AgreeOverlapping(base, x, y);
    if RangeOf(x).position == RangeOf(y).position {
      SameStart(base, x, y);
    } else if x.DeleteAt? {
      DeleteStartsFirst(base, x, y);
    } else {
      ReplaceStartsFirst(base, x, y);
    }
  }

  lemma AgreeOverlapping(base: Text, x: Command, y: Command)
    requires Ordered(base, x, y) && !Apart(RangeOf(x), RangeOf(y)) && RangeOf(x).length > 0 && RangeOf(y).length > 0
    ensures var Edit(p, l, s) := RangeOf(x);
      var Edit(q, m, t) := RangeOf(y);
      && p + l <= |base| && p <= q && q + m <= |base|
      && var theirs, rest := base[..q] + t + base[q + m..], base[if p + l < q + m then q + m else p + l..];
      AgreeInOrder(base, x, y) <==>
        if p == q then Overwritten(s + base[p + l..], 0, m, t) == Overwritten(t + base[p + m..], 0, l, s)
        else if x.DeleteAt? then
          if p + l <= |theirs| then t + rest == theirs[p + l..] else t + rest == base[p..q] + t + base[q + m..]
        else if p + l <= |theirs| then theirs[p + l..] == base[p + l..]
        else base[p..q] + t + base[q + m..] == s + base[p + l..]
  {
    hide RangeOf, TwoAuthors, NotNegative, Overwritten;
  }

  // ---------- a replace that repeats text ----------

  // A replace of length -k at p puts t and the k characters before p behind position p.
  ghost predicate Repeats(base: Text, x: Command, k: nat) {
    x.ReplaceAt? && x.length + k == 0 && k > 0 && k <= x.position <= |base|
  }

  // It is taken to end where the repeated text begins. With an insertion elsewhere the stores
  // agree; with one that touches the repeated text, exactly when shifting it around leaves the
  // texts as they are.
  lemma RepeatedText(base: Text, x: Command, y: Command, k: nat)
    requires TwoAuthors(base, x, y) && Repeats(base, x, k) && y.InsertAt?
    ensures 0 <= y.position <= |base|
    ensures FirstMerged(base, x, y).content == SecondMerged(base, x, y).content <==>
      var p, q, t, u := x.position, y.position, x.text, y.text;
      q < p - k || q > p ||
      base[q..p] + t + base[p - k..q] + u == u + base[q..p] + t + (base[p - k..q] + u)[|u|..]
  {
    hide *;
    RepeatingMeans(base, x, y, k);
    var p, q, t, u := x.position, y.position, x.text, y.text;
    MergesExchange(base, x, y);
    RepeaterReceives(base, x, y, k);
    RepeatReceived(base, x, y, k);
    if q < p - k {
      RepeatBehind(base, p, k, t, q, u);
    } else if q > p {
      RepeatInFront(base, p, k, t, q, u);
    } else {
      RepeatAround(base, p, k, t, q, u);
    }
  }

  lemma RepeatingMeans(base: Text, x: Command, y: Command, k: nat)
    requires TwoAuthors(base, x, y) && Repeats(base, x, k) && y.InsertAt?
    ensures x.ReplaceAt? && y.InsertAt? && x.user != y.user && x.id != y.id
    ensures 0 <= y.position <= |base| && 0 < k <= x.position <= |base|
    ensures var opX, opY := Issued(NewDoc(base), x), Issued(NewDoc(base), y);
      && opX == Operation(x.id, x.user, Replace, x.position, 0 - k, x.text, 1)
      && opY == Operation(y.id, y.user, Insert, y.position, 0, y.text, 1)
  {
  }

  function Repeated(base: Text, p: nat, k: nat, t: Text): Text
    requires k <= p <= |base|
  {
    base[..p] + t + base[p - k..]
  }

  function InsertedAt(base: Text, q: nat, u: Text): Text
    requires q <= |base|
  {
    base[..q] + u + base[q..]
  }

  lemma RepeaterReceives(base: Text, x: Command, y: Command, k: nat)
    requires TwoAuthors(base, x, y) && Repeats(base, x, k) && y.InsertAt?
    ensures 0 <= y.position <= |base| && 0 < k <= x.position <= |base|
    ensures var p, q, t, u := x.position, y.position, x.text, y.text;
      var at := if p - k <= q then q + |t| + k else q;
      && at <= |Repeated(base, p, k, t)|
      && AfterRemote(AfterLocal(NewDoc(base), x), Issued(NewDoc(base), y)).content
         == InsertedAt(Repeated(base, p, k, t), at, u)
  {
    hide AfterRemote, AfterLocal, Through, Past;
    var opX, opY := Issued(NewDoc(base), x), Issued(NewDoc(base), y);
    var p, q, t := x.position, y.position, x.text;
    OwnEdit(base, x);
    var a := AfterLocal(NewDoc(base), x);
    var at := if p - k <= q then q + |t| + k else q;
    ThroughOne(opY, opX);
    PastRepeat(q, opY.user, opX);
    NotYetHeard(a, opY, x.id);
    assert a.content == Repeated(base, p, k, t);
    Received(a, opY, at);
  }

  lemma PastRepeat(q: nat, user: User, op: Operation)
    requires op.kind.Replace? && op.user != user && op.length < 0
    ensures Past(At(q, 0), user, op) ==
            At(if op.position + op.length <= q then q + |op.text| - op.length else q, 0)
  {
  }

  lemma RepeatReceived(base: Text, x: Command, y: Command, k: nat)
    requires TwoAuthors(base, x, y) && Repeats(base, x, k) && y.InsertAt?
    ensures 0 <= y.position <= |base| && 0 < k <= x.position <= |base|
    ensures var p, q, t, u := x.position, y.position, x.text, y.text;
      var at := if q <= p then p + |u| else p;
      && k <= at <= |InsertedAt(base, q, u)|
      && AfterRemote(AfterLocal(NewDoc(base), y), Issued(NewDoc(base), x)).content
         == Repeated(InsertedAt(base, q, u), at, k, t)
  {
    hide AfterRemote, AfterLocal, Through, Past;
    var opX, opY := Issued(NewDoc(base), x), Issued(NewDoc(base), y);
    var p, q, t, u := x.position, y.position, x.text, y.text;
    OwnEdit(base, y);
    var b := AfterLocal(NewDoc(base), y);
    var at := if q <= p then p + |u| else p;
    ThroughOne(opX, opY);
    PastInsert(p, 0 - k, opX.user, opY);
    NotYetHeard(b, opX, y.id);
    assert b.content == InsertedAt(base, q, u);
    ReplaceReceived(b, opX, at);
    assert Splice(b.content, at, 0 - k, t) == Repeated(b.content, at, k, t);
  }

  lemma PastInsert(p: int, n: int, user: User, op: Operation)
    requires op.kind.Insert? && op.user != user
    ensures Past(At(p, n), user, op) == At(if op.position <= p then p + |op.text| else p, n)
  {
  }

  lemma ReplaceReceived(d: Doc, op: Operation, at: nat)
    requires op.kind.Replace? && Fresh(d, op) && op.id !in d.operations && |d.log| < LOG_LIMIT
    requires Through(At(op.position, op.length), op.user, d.log) == At(at, op.length)
    requires at + op.length <= |d.content|
    ensures AfterRemote(d, op).content == Splice(d.content, at, op.length, op.text)
  {
  }

  lemma RepeatBehind(base: Text, p: nat, k: nat, t: Text, q: nat, u: Text)
    requires q < p - k && p <= |base|
    ensures |base| >= q && InsertedAt(Repeated(base, p, k, t), q, u) == Repeated(InsertedAt(base, q, u), p + |u|, k, t)
  {
    var r, i := Repeated(base, p, k, t), InsertedAt(base, q, u);
    assert r[..q] == base[..q] && r[q..] == base[q..p] + t + base[p - k..];
    assert i[..p + |u|] == base[..q] + u + base[q..p] && i[p + |u| - k..] == base[p - k..];
  }

  lemma RepeatInFront(base: Text, p: nat, k: nat, t: Text, q: nat, u: Text)
    requires k <= p < q <= |base|
    ensures q + |t| + k <= |Repeated(base, p, k, t)|
    ensures InsertedAt(Repeated(base, p, k, t), q + |t| + k, u) == Repeated(InsertedAt(base, q, u), p, k, t)
  {
    var r, i := Repeated(base, p, k, t), InsertedAt(base, q, u);
    assert r[..q + |t| + k] == base[..p] + t + base[p - k..q] && r[q + |t| + k..] == base[q..];
    assert i[..p] == base[..p] && i[p - k..] == base[p - k..q] + u + base[q..];
  }

  lemma RepeatAround(base: Text, p: nat, k: nat, t: Text, q: nat, u: Text)
    requires k <= p <= |base| && p - k <= q <= p
    ensures q + |t| + k <= |Repeated(base, p, k, t)|
    ensures InsertedAt(Repeated(base, p, k, t), q + |t| + k, u) == Repeated(InsertedAt(base, q, u), p + |u|, k, t) <==>
      base[q..p] + t + base[p - k..q] + u == u + base[q..p] + t + (base[p - k..q] + u)[|u|..]
  {
    var r, i, v, w := Repeated(base, p, k, t), InsertedAt(base, q, u), base[q..p], base[p - k..q];
    assert r[..q + |t| + k] == base[..q] + (v + t + w) && r[q + |t| + k..] == base[q..];
    assert i[..p + |u|] == base[..q] + (u + v);
    assert i[p + |u| - k..] == (w + u)[|u|..] + base[q..];
    var b, c := v + t + w + u, u + v + t + (w + u)[|u|..];
    assert InsertedAt(r, q + |t| + k, u) == base[..q] + b + base[q..];
    assert Repeated(i, p + |u|, k, t) == base[..q] + c + base[q..];
    SameFrame(base[..q], b, c, base[q..]);
  }

  // ---------- an edit made after receiving the other store's insertion ----------

  // What the author of y has when it edits: the base and what it merged from the author of x.
  function Informed(base: Text, x: Command): Doc {
    Merged(NewDoc(base), AfterLocal(NewDoc(base), x).log).doc
  }

  function Answered(base: Text, x: Command, y: Command): Doc {
    AfterLocal(Informed(base, x), y)
  }

  // What the author of x has after merging the answer.
  function Returned(base: Text, x: Command, y: Command): Doc {
    Merged(AfterLocal(NewDoc(base), x), Answered(base, x, y).log).doc
  }

  ghost predicate TakesTurns(base: Text, x: Command, y: Command) {
    && Valid(base, x) && NotNegative(x) && RangeOf(x).length == 0
    && Valid(Informed(base, x).content, y) && NotNegative(y)
    && x.user != y.user && x.id != y.id
  }

  // The store that is told of an insertion has it in its text and its log.
  lemma InformedIs(base: Text, x: Command)
    requires Valid(base, x) && NotNegative(x) && RangeOf(x).length == 0
    ensures var d, opX, e := Informed(base, x), Issued(NewDoc(base), x), RangeOf(x);
      && e.position <= |base| && d.content == InsertedAt(base, e.position, e.text)
      && AfterLocal(NewDoc(base), x).content == d.content
      && d.log == [opX] && d.operations.Keys == {x.id} && d.time > 0
  {
    hide AfterRemote, AfterLocal, Through;
    var opX, e := Issued(NewDoc(base), x), RangeOf(x);
    IssuedShape(base, x);
    Started(base, x);
    SpliceParts(base, e.position, 0, e.text);
    MergedOne(NewDoc(base), opX);
    ThroughStep(At(opX.position, opX.length), opX.user, [], opX);
    Received(NewDoc(base), opX, e.position);
    assert opX.(position := e.position) == opX;
    TimeGrows(NewDoc(base), opX);
  }

  lemma TimeGrows(d: Doc, op: Operation)
    requires Fresh(d, op)
    ensures AfterRemote(d, op).time > d.time
  {
  }

  // Its own next edit goes on top and into the log behind it.
  lemma EditedAgain(d: Doc, y: Command)
    requires Valid(d.content, y) && NotNegative(y) && |d.log| == 1 && d.time > 0
    ensures var op, f := Issued(d, y), RangeOf(y);
      && WellShaped(op) && op.user == y.user && op.id == y.id
      && f == Edit(op.position, op.length, op.text) && f.position + f.length <= |d.content|
      && AfterLocal(d, y).content == Splice(d.content, f.position, f.length, f.text)
      && AfterLocal(d, y).log == d.log + [op]
  {
  }

  lemma KnownThenNew(d: Doc, known: Operation, op: Operation)
    requires known.id in d.operations && op.id !in d.operations
    ensures Merged(d, [known, op]).doc == AfterRemote(d, op)
  {
    hide AfterRemote, RemoteResult;
    assert [known, op][..1] == [known] && [known][..0] == [];
    assert Merged(d, [known]) == Merging(d, [], [], 0);
  }

  // The author of the insertion moves the answer past it although the answer already counts
  // it, and drops the answer, yet records it, when it then no longer fits.
  lemma ReturnedIs(base: Text, x: Command, y: Command)
    requires TakesTurns(base, x, y)
    ensures var e, f, text := RangeOf(x), RangeOf(y), Informed(base, x).content;
      var at := if e.position <= f.position then f.position + |e.text| else f.position;
      && f.position + f.length <= |text|
      && Answered(base, x, y).content == Splice(text, f.position, f.length, f.text)
      && Returned(base, x, y).content ==
         (if at + f.length <= |text| then Splice(text, at, f.length, f.text) else text)
      && |Returned(base, x, y).log| == 2 && Returned(base, x, y).log[1].id == y.id
  {
    hide *;
    TakesTurnsMeans(base, x, y);
    var e, f, d := RangeOf(x), RangeOf(y), Informed(base, x);
    var a, opX, opY := AfterLocal(NewDoc(base), x), Issued(NewDoc(base), x), Issued(d, y);
    var at := if e.position <= f.position then f.position + |e.text| else f.position;
    InformedIs(base, x);
    IssuedShape(base, x);
    WellShapedMeans(opX);
    EditedAgain(d, y);
    WellShapedMeans(opY);
    Started(base, x);
    AnsweredIs(base, x, y);
    assert [opX] + [opY] == [opX, opY];
    KnownThenNew(a, opX, opY);
    ThroughOne(opY, opX);
    PastMoves(f.position, f.length, opY.user, opX);
    NotYetHeard(a, opY, x.id);
    ReceivedAs(a, opY, at, f.length);
    OverwrittenIs(a.content, at, f.length, f.text);
    if at + f.length <= |a.content| {
      SpliceIsOverwritten(a.content, at, f.length, f.text);
    }
  }

  lemma AnsweredIs(base: Text, x: Command, y: Command)
    ensures Answered(base, x, y) == AfterLocal(Informed(base, x), y)
    ensures Returned(base, x, y) == Merged(AfterLocal(NewDoc(base), x), Answered(base, x, y).log).doc
  {
  }

  lemma TakesTurnsMeans(base: Text, x: Command, y: Command)
    requires TakesTurns(base, x, y)
    ensures Valid(base, x) && NotNegative(x) && RangeOf(x).length == 0
    ensures Valid(Informed(base, x).content, y) && NotNegative(y) && x.user != y.user && x.id != y.id
  {
  }

  // So taking turns does not keep the stores together either: an answer of any kind lands
  // where it was made exactly when it starts in front of the insertion, or is the same there
  // as the insertion's length further on.
  lemma LaterEdit(base: Text, x: Command, y: Command)
    requires TakesTurns(base, x, y)
    ensures var e, f, text := RangeOf(x), RangeOf(y), Informed(base, x).content;
      var q, m, t, k := f.position, f.length, f.text, |e.text|;
      && q + m <= |text|
      && (Answered(base, x, y).content == Returned(base, x, y).content <==>
            q < e.position ||
            if q + k + m <= |text| then t + text[q + m..q + m + k] == text[q..q + k] + t else t == text[q..q + m])
  {
    hide *;
    ReturnedIs(base, x, y);
    var e, f, text := RangeOf(x), RangeOf(y), Informed(base, x).content;
    if f.position >= e.position {
      SplicedFurtherOn(text, f.position, f.length, f.text, |e.text|);
    }
  }

  lemma SplicedFurtherOn(text: Text, q: nat, m: nat, t: Text, k: nat)
    requires q + m <= |text|
    ensures Splice(text, q, m, t) == (if q + k + m <= |text| then Splice(text, q + k, m, t) else text) <==>
      if q + k + m <= |text| then t + text[q + m..q + m + k] == text[q..q + k] + t else t == text[q..q + m]
  {
    SpliceParts(text, q, m, t);
    if q + k + m <= |text| {
      var b, c, rest := t + text[q + m..q + m + k], text[q..q + k] + t, text[q + m + k..];
      SpliceParts(text, q + k, m, t);
      assert text[..q] + t + text[q + m..] == text[..q] + b + rest;
      assert text[..q + k] + t + rest == text[..q] + c + rest;
      SameFrame(text[..q], b, c, rest);
    } else {
      assert text == text[..q] + text[q..q + m] + text[q + m..];
      if |t| == m {
        SameFrame(text[..q], t, text[q..q + m], text[q + m..]);
      }
    }
  }
}

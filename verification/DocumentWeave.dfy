/** What a set of disjoint edits of one base text should give, whatever order they are
    applied in: the base with each edit's text at its own place.

    The content is laid out piece by piece. The piece at base position g is the text of the
    edit that inserts at g, if any, followed by what became of the character at g. */
module DocumentWeave {
  import opened DocumentStore

  // Replace `length` characters at `position` by `text`; an insert replaces none.
  datatype Edit = Edit(position: nat, length: nat, text: Text)

  // Half-open ranges that do not overlap, and not two insertions at one point.
  predicate Apart(e: Edit, f: Edit) {
    (e.position + e.length <= f.position || f.position + f.length <= e.position)
    && !(e.length == 0 && f.length == 0 && e.position == f.position)
  }

  predicate LeftOf(e: Edit, f: Edit) {
    e.position + e.length <= f.position
  }

  ghost predicate Plan(base: Text, edits: seq<Edit>) {
    (forall i :: 0 <= i < |edits| ==> edits[i].position + edits[i].length <= |base|)
    && (forall i, j :: 0 <= i < |edits| && 0 <= j < |edits| && i != j ==> Apart(edits[i], edits[j]))
  }

  ghost predicate InsertsAt(edits: seq<Edit>, done: set<nat>, i: nat, g: nat) {
    i in done && i < |edits| && edits[i].length == 0 && edits[i].position == g
  }

  ghost predicate Covers(edits: seq<Edit>, done: set<nat>, i: nat, g: nat) {
    i in done && i < |edits| && edits[i].position <= g < edits[i].position + edits[i].length
  }

  ghost function Inserted(edits: seq<Edit>, done: set<nat>, g: nat): Text {
    if i: nat :| InsertsAt(edits, done, i, g) then edits[i].text else ""
  }

  ghost function Character(base: Text, edits: seq<Edit>, done: set<nat>, g: nat): Text {
    if i: nat :| Covers(edits, done, i, g) then (if g == edits[i].position then edits[i].text else "")
    else if g < |base| then [base[g]] else ""
  }

  ghost function Piece(base: Text, edits: seq<Edit>, done: set<nat>, g: nat): Text {
    Inserted(edits, done, g) + Character(base, edits, done, g)
  }

  ghost function Woven(base: Text, edits: seq<Edit>, done: set<nat>, a: nat, b: nat): Text {
    if a >= b then "" else Woven(base, edits, done, a, b - 1) + Piece(base, edits, done, b - 1)
  }

  ghost function Content(base: Text, edits: seq<Edit>, done: set<nat>): Text {
    Woven(base, edits, done, 0, |base| + 1)
  }

  // Where edit j belongs in the content woven from the edits done.
  ghost function Target(base: Text, edits: seq<Edit>, done: set<nat>, j: nat): nat
    requires j < |edits|
  {
    |Woven(base, edits, done, 0, edits[j].position)|
    + if edits[j].length == 0 then 0 else |Inserted(edits, done, edits[j].position)|
  }

  lemma PlanFits(base: Text, edits: seq<Edit>, j: nat)
    requires Plan(base, edits) && j < |edits|
    ensures edits[j].position + edits[j].length <= |base|
  {
  }

  // ---------- pieces ----------

  lemma InsertedIs(base: Text, edits: seq<Edit>, done: set<nat>, i: nat, g: nat)
    requires Plan(base, edits) && InsertsAt(edits, done, i, g)
    ensures Inserted(edits, done, g) == edits[i].text
  {
  }

  lemma CharacterIs(base: Text, edits: seq<Edit>, done: set<nat>, i: nat, g: nat)
    requires Plan(base, edits) && Covers(edits, done, i, g)
    ensures Character(base, edits, done, g) == if g == edits[i].position then edits[i].text else ""
  {
  }

  // One more edit changes what is inserted at its point, or the characters it covers, only.
  lemma InsertedElsewhere(base: Text, edits: seq<Edit>, done: set<nat>, j: nat, g: nat)
    requires Plan(base, edits) && j < |edits| && !(edits[j].length == 0 && edits[j].position == g)
    ensures Inserted(edits, done + {j}, g) == Inserted(edits, done, g)
  {
    if i: nat :| InsertsAt(edits, done, i, g) {
      InsertedIs(base, edits, done, i, g);
      assert InsertsAt(edits, done + {j}, i, g);
      InsertedIs(base, edits, done + {j}, i, g);
    } else {
      assert forall i: nat :: InsertsAt(edits, done + {j}, i, g) ==> InsertsAt(edits, done, i, g);
    }
  }

  lemma CharacterElsewhere(base: Text, edits: seq<Edit>, done: set<nat>, j: nat, g: nat)
    requires Plan(base, edits) && j < |edits|
    requires !(edits[j].position <= g < edits[j].position + edits[j].length)
    ensures Character(base, edits, done + {j}, g) == Character(base, edits, done, g)
  {
    if i: nat :| Covers(edits, done, i, g) {
      CharacterIs(base, edits, done, i, g);
      assert Covers(edits, done + {j}, i, g);
      CharacterIs(base, edits, done + {j}, i, g);
    } else {
      assert forall i: nat :: Covers(edits, done + {j}, i, g) ==> Covers(edits, done, i, g);
    }
  }

  lemma PieceElsewhere(base: Text, edits: seq<Edit>, done: set<nat>, j: nat, g: nat)
    requires Plan(base, edits) && j < |edits|
    requires g < edits[j].position || g >= edits[j].position + (if edits[j].length == 0 then 1 else edits[j].length)
    ensures Piece(base, edits, done + {j}, g) == Piece(base, edits, done, g)
  {
    InsertedElsewhere(base, edits, done, j, g);
    CharacterElsewhere(base, edits, done, j, g);
  }

  // ---------- stretches ----------

  lemma WovenStep(base: Text, edits: seq<Edit>, done: set<nat>, a: nat, b: nat)
    ensures Woven(base, edits, done, a, a) == ""
    ensures a < b ==>
      Woven(base, edits, done, a, b) == Woven(base, edits, done, a, b - 1) + Piece(base, edits, done, b - 1)
    ensures Piece(base, edits, done, b) == Inserted(edits, done, b) + Character(base, edits, done, b)
  {
  }

  lemma {:induction false} WovenJoins(base: Text, edits: seq<Edit>, done: set<nat>, a: nat, b: nat, c: nat)
    requires a <= b <= c
    ensures Woven(base, edits, done, a, c) == Woven(base, edits, done, a, b) + Woven(base, edits, done, b, c)
  {
    hide *;
    WovenStep(base, edits, done, b, c);
    WovenStep(base, edits, done, a, c);
    if b < c {
      WovenJoins(base, edits, done, a, b, c - 1);
    }
  }

  lemma WovenEmpty(base: Text, edits: seq<Edit>, done: set<nat>, a: nat, b: nat)
    ensures a >= b ==> Woven(base, edits, done, a, b) == ""
  {
  }

  lemma {:induction false} WovenElsewhere(base: Text, edits: seq<Edit>, done: set<nat>, j: nat, a: nat, b: nat)
    requires Plan(base, edits) && j < |edits|
    requires b <= edits[j].position || a >= edits[j].position + (if edits[j].length == 0 then 1 else edits[j].length)
    ensures Woven(base, edits, done + {j}, a, b) == Woven(base, edits, done, a, b)
  {
    hide *;
    if a < b {
      WovenStep(base, edits, done, a, b);
      WovenStep(base, edits, done + {j}, a, b);
      PieceElsewhere(base, edits, done, j, b - 1);
      WovenElsewhere(base, edits, done, j, a, b - 1);
    } else {
      WovenEmpty(base, edits, done, a, b);
      WovenEmpty(base, edits, done + {j}, a, b);
    }
  }

  // Before edit j is applied its own range still holds the base text.
  lemma {:induction false} RangeBefore(base: Text, edits: seq<Edit>, done: set<nat>, j: nat, b: nat)
    requires Plan(base, edits) && j < |edits| && j !in done
    requires edits[j].position < b <= edits[j].position + edits[j].length
    ensures Woven(base, edits, done, edits[j].position, b)
         == Inserted(edits, done, edits[j].position) + base[edits[j].position..b]
  {
    hide *;
    var p, g := edits[j].position, b - 1;
    PlanFits(base, edits, j);
    NothingCovers(base, edits, done, j, g);
    WovenStep(base, edits, done, p, b);
    WovenStep(base, edits, done, p, g);
    if g > p {
      RangeBefore(base, edits, done, j, g);
      NothingInside(base, edits, done, j, g);
      SliceStep(Inserted(edits, done, p), base, p, g);
    } else {
      assert base[p..b] == [base[g]];
    }
  }

  lemma SliceStep(s: Text, base: Text, p: nat, g: nat)
    requires p <= g < |base|
    ensures s + base[p..g] + ("" + [base[g]]) == s + base[p..g + 1]
  {
  }

  lemma NothingCovers(base: Text, edits: seq<Edit>, done: set<nat>, j: nat, g: nat)
    requires Plan(base, edits) && j < |edits| && j !in done
    requires edits[j].position <= g < edits[j].position + edits[j].length
    ensures Character(base, edits, done, g) == [base[g]]
  {
  }

  lemma NothingInside(base: Text, edits: seq<Edit>, done: set<nat>, j: nat, g: nat)
    requires Plan(base, edits) && j < |edits| && edits[j].position < g < edits[j].position + edits[j].length
    ensures Inserted(edits, done, g) == ""
  {
  }

  // Afterwards it holds the edit's text.
  lemma {:induction false} RangeAfter(base: Text, edits: seq<Edit>, done: set<nat>, j: nat, b: nat)
    requires Plan(base, edits) && j < |edits|
    requires edits[j].position < b <= edits[j].position + edits[j].length
    ensures Woven(base, edits, done + {j}, edits[j].position, b)
         == Inserted(edits, done, edits[j].position) + edits[j].text
  {
    hide *;
    var p, g := edits[j].position, b - 1;
    CoversOwn(edits, done, j, g);
    CharacterIs(base, edits, done + {j}, j, g);
    WovenStep(base, edits, done + {j}, p, b);
    WovenStep(base, edits, done + {j}, p, g);
    if g > p {
      RangeAfter(base, edits, done, j, g);
      NothingInside(base, edits, done + {j}, j, g);
    } else {
      InsertedElsewhere(base, edits, done, j, p);
    }
  }

  lemma CoversOwn(edits: seq<Edit>, done: set<nat>, j: nat, g: nat)
    requires j < |edits| && edits[j].position <= g < edits[j].position + edits[j].length
    ensures Covers(edits, done + {j}, j, g)
  {
  }

  lemma PointBeforeAndAfter(base: Text, edits: seq<Edit>, done: set<nat>, j: nat)
    requires Plan(base, edits) && j < |edits| && j !in done && edits[j].length == 0
    ensures Inserted(edits, done, edits[j].position) == ""
    ensures Inserted(edits, done + {j}, edits[j].position) == edits[j].text
    ensures Piece(base, edits, done + {j}, edits[j].position)
         == edits[j].text + Piece(base, edits, done, edits[j].position)
  {
    var p := edits[j].position;
    forall i: nat | i in done && i < |edits| ensures !InsertsAt(edits, done, i, p) {
      assert Apart(edits[i], edits[j]);
    }
    assert InsertsAt(edits, done + {j}, j, p);
    InsertedIs(base, edits, done + {j}, j, p);
    CharacterElsewhere(base, edits, done, j, p);
  }

  // ---------- applying one more edit ----------

  // Up to any point beyond it, applying edit j replaces its base text by its own text at
  // its target and changes nothing else.
  lemma OneMore(base: Text, edits: seq<Edit>, done: set<nat>, j: nat, end: nat) returns (left: Text, right: Text)
    requires Plan(base, edits) && j < |edits| && j !in done
    requires end >= edits[j].position + (if edits[j].length == 0 then 1 else edits[j].length)
    ensures |left| == Target(base, edits, done, j)
    ensures edits[j].position + edits[j].length <= |base|
    ensures Joined(Woven(base, edits, done, 0, end),
                   left, base[edits[j].position..edits[j].position + edits[j].length], right)
    ensures Joined(Woven(base, edits, done + {j}, 0, end), left, edits[j].text, right)
  {
    hide *;
    var p, n := edits[j].position, edits[j].length;
    var next := p + if n == 0 then 1 else n;
    PlanFits(base, edits, j);
    var inserted, rest := MiddleSplits(base, edits, done, j);
    var before, after := Woven(base, edits, done, 0, p), Woven(base, edits, done, next, end);
    TargetIs(base, edits, done, j);
    left, right := before + inserted, rest + after;
    ThreeStretches(base, edits, done, p, next, end);
    ThreeStretches(base, edits, done + {j}, p, next, end);
    WovenElsewhere(base, edits, done, j, 0, p);
    WovenElsewhere(base, edits, done, j, next, end);
    Regroup(Woven(base, edits, done, 0, end), before, Woven(base, edits, done, p, next), after,
            inserted, base[p..p + n], rest);
    Regroup(Woven(base, edits, done + {j}, 0, end), before, Woven(base, edits, done + {j}, p, next), after,
            inserted, edits[j].text, rest);
  }

  ghost predicate Joined(s: Text, a: Text, b: Text, c: Text) {
    s == a + b + c
  }

  // What surrounds the replaced text within the pieces edit j touches.
  lemma MiddleSplits(base: Text, edits: seq<Edit>, done: set<nat>, j: nat) returns (inserted: Text, rest: Text)
    requires Plan(base, edits) && j < |edits| && j !in done && edits[j].position + edits[j].length <= |base|
    ensures var p, n := edits[j].position, edits[j].length;
      var next := p + if n == 0 then 1 else n;
      && Joined(Woven(base, edits, done, p, next), inserted, base[p..p + n], rest)
      && Joined(Woven(base, edits, done + {j}, p, next), inserted, edits[j].text, rest)
      && inserted == if n == 0 then "" else Inserted(edits, done, p)
  {
    hide *;
    var p, n := edits[j].position, edits[j].length;
    if n == 0 {
      PointBeforeAndAfter(base, edits, done, j);
      OnePiece(base, edits, done, p);
      OnePiece(base, edits, done + {j}, p);
      inserted, rest := "", Piece(base, edits, done, p);
      assert base[p..p + n] == "";
      JoinedEnds("", base[p..p + n], rest);
      JoinedEnds("", edits[j].text, rest);
    } else {
      RangeBefore(base, edits, done, j, p + n);
      RangeAfter(base, edits, done, j, p + n);
      inserted, rest := Inserted(edits, done, p), "";
      JoinedEnds(inserted, base[p..p + n], rest);
      JoinedEnds(inserted, edits[j].text, rest);
    }
  }

  lemma JoinedEnds(a: Text, b: Text, c: Text)
    ensures c == "" ==> Joined(a + b, a, b, c)
    ensures a == "" ==> Joined(b + c, a, b, c)
    ensures a == "" && b == "" ==> Joined(c, a, b, c)
  {
  }

  lemma TargetIs(base: Text, edits: seq<Edit>, done: set<nat>, j: nat)
    requires j < |edits|
    ensures Target(base, edits, done, j) == |Woven(base, edits, done, 0, edits[j].position)|
              + if edits[j].length == 0 then 0 else |Inserted(edits, done, edits[j].position)|
  {
  }

  lemma Regroup(s: Text, a: Text, m: Text, e: Text, b: Text, c: Text, d: Text)
    requires Joined(s, a, m, e) && Joined(m, b, c, d)
    ensures Joined(s, a + b, c, d + e)
  {
  }

  lemma ThreeStretches(base: Text, edits: seq<Edit>, done: set<nat>, p: nat, next: nat, end: nat)
    requires p <= next <= end
    ensures Joined(Woven(base, edits, done, 0, end),
                   Woven(base, edits, done, 0, p), Woven(base, edits, done, p, next),
                   Woven(base, edits, done, next, end))
    ensures |Woven(base, edits, done, 0, end)| == |Woven(base, edits, done, 0, p)|
              + |Woven(base, edits, done, p, next)| + |Woven(base, edits, done, next, end)|
  {
    hide Woven, Piece;
    WovenJoins(base, edits, done, 0, p, next);
    WovenJoins(base, edits, done, 0, next, end);
  }

  lemma OnePiece(base: Text, edits: seq<Edit>, done: set<nat>, g: nat)
    ensures Woven(base, edits, done, g, g + 1) == Piece(base, edits, done, g)
  {
  }

  lemma {:induction false} NothingDoneYet(base: Text, edits: seq<Edit>, b: nat)
    requires b <= |base|
    ensures Woven(base, edits, {}, 0, b) == base[..b]
  {
    if b > 0 {
      NothingDoneYet(base, edits, b - 1);
      assert base[..b] == base[..b - 1] + [base[b - 1]];
    }
  }

  lemma NothingDone(base: Text, edits: seq<Edit>)
    ensures Content(base, edits, {}) == base
    ensures forall j :: 0 <= j < |edits| && edits[j].position <= |base| ==>
              Target(base, edits, {}, j) == edits[j].position
  {
    NothingDoneYet(base, edits, |base|);
    forall j | 0 <= j < |edits| && edits[j].position <= |base| {
      NothingDoneYet(base, edits, edits[j].position);
    }
  }

  // Splicing edit j in at its target gives the content with it done.
  lemma SpliceAtTarget(base: Text, edits: seq<Edit>, done: set<nat>, j: nat)
    requires Plan(base, edits) && j < |edits| && j !in done
    ensures var at, s := Target(base, edits, done, j), Content(base, edits, done);
      && at + edits[j].length <= |s|
      && Splice(s, at, edits[j].length, edits[j].text) == Content(base, edits, done + {j})
  {
    hide *;
    PlanFits(base, edits, j);
    var left, right := OneMore(base, edits, done, j, |base| + 1);
    ContentIs(base, edits, done);
    ContentIs(base, edits, done + {j});
    var p, n := edits[j].position, edits[j].length;
    SpliceJoined(Content(base, edits, done), left, base[p..p + n], right,
                 edits[j].text, Content(base, edits, done + {j}));
  }

  lemma ContentIs(base: Text, edits: seq<Edit>, done: set<nat>)
    ensures Content(base, edits, done) == Woven(base, edits, done, 0, |base| + 1)
  {
  }

  lemma SpliceJoined(s: Text, left: Text, middle: Text, right: Text, text: Text, t: Text)
    requires Joined(s, left, middle, right) && Joined(t, left, text, right)
    ensures |left| + |middle| <= |s| && Splice(s, |left|, |middle|, text) == t
  {
  }

  // ---------- how targets move ----------

  // An edit on the left shifts a target by what it adds or takes away.
  lemma ShiftedByLeft(base: Text, edits: seq<Edit>, done: set<nat>, k: nat, j: nat)
    requires Plan(base, edits) && j < |edits| && k < |edits| && k != j && k !in done
    requires LeftOf(edits[k], edits[j])
    ensures Target(base, edits, done + {k}, j) == Target(base, edits, done, j) + |edits[k].text| - edits[k].length
  {
    hide *;
    var p, q := edits[j].position, edits[k].position;
    LeftMeans(edits[k], edits[j]);
    NotTogether(base, edits, k, j);
    TargetIs(base, edits, done, j);
    TargetIs(base, edits, done + {k}, j);
    if q < p {
      var left, right := OneMore(base, edits, done, k, p);
      JoinedLength(Woven(base, edits, done, 0, p), left, base[q..q + edits[k].length], right);
      JoinedLength(Woven(base, edits, done + {k}, 0, p), left, edits[k].text, right);
      InsertedElsewhere(base, edits, done, k, p);
    } else {
      WovenElsewhere(base, edits, done, k, 0, p);
      PointBeforeAndAfter(base, edits, done, k);
    }
  }

  lemma NotTogether(base: Text, edits: seq<Edit>, k: nat, j: nat)
    requires Plan(base, edits) && j < |edits| && k < |edits| && k != j && LeftOf(edits[k], edits[j])
    ensures edits[k].position < edits[j].position || (edits[k].length == 0 && edits[j].length > 0)
    ensures edits[k].position == edits[j].position ==> edits[k].length == 0 && edits[j].length > 0
  {
  }

  lemma JoinedLength(s: Text, a: Text, b: Text, c: Text)
    requires Joined(s, a, b, c)
    ensures |s| == |a| + |b| + |c|
  {
  }

  // An edit on the right leaves it where it was.
  lemma UnmovedByRight(base: Text, edits: seq<Edit>, done: set<nat>, k: nat, j: nat)
    requires Plan(base, edits) && j < |edits| && k < |edits| && k != j
    requires LeftOf(edits[j], edits[k])
    ensures Target(base, edits, done + {k}, j) == Target(base, edits, done, j)
  {
    hide *;
    LeftMeans(edits[j], edits[k]);
    TargetIs(base, edits, done, j);
    TargetIs(base, edits, done + {k}, j);
    WovenElsewhere(base, edits, done, k, 0, edits[j].position);
    if edits[j].length > 0 {
      InsertedElsewhere(base, edits, done, k, edits[j].position);
    }
  }

  // Targets are in base order, as far apart as the edits' own lengths at least.
  lemma TargetsInOrder(base: Text, edits: seq<Edit>, done: set<nat>, k: nat, j: nat)
    requires Plan(base, edits) && j < |edits| && k < |edits| && k != j && k !in done
    requires LeftOf(edits[k], edits[j])
    ensures Target(base, edits, done, k) + edits[k].length <= Target(base, edits, done, j)
  {
    hide *;
    var q, n, p := edits[k].position, edits[k].length, edits[j].position;
    LeftMeans(edits[k], edits[j]);
    TargetIs(base, edits, done, k);
    TargetIs(base, edits, done, j);
    RangeLength(base, edits, done, k);
    ThreeStretches(base, edits, done, q, q + n, p);
  }

  lemma RangeLength(base: Text, edits: seq<Edit>, done: set<nat>, k: nat)
    requires Plan(base, edits) && k < |edits| && k !in done
    ensures var q, n := edits[k].position, edits[k].length;
      |Woven(base, edits, done, q, q + n)| == if n == 0 then 0 else |Inserted(edits, done, q)| + n
  {
    hide *;
    var q, n := edits[k].position, edits[k].length;
    PlanFits(base, edits, k);
    WovenEmpty(base, edits, done, q, q);
    if n > 0 {
      RangeBefore(base, edits, done, k, q + n);
    }
  }

  lemma LeftMeans(e: Edit, f: Edit)
    ensures LeftOf(e, f) <==> e.position + e.length <= f.position
  {
  }

  // A base position at which something stays, whichever edits are done.
  ghost predicate Kept(edits: seq<Edit>, g: nat) {
    forall i :: 0 <= i < |edits| && edits[i].position <= g < edits[i].position + edits[i].length ==>
      g == edits[i].position && edits[i].text != ""
  }

  lemma KeptPieceIsNotEmpty(base: Text, edits: seq<Edit>, done: set<nat>, g: nat)
    requires Plan(base, edits) && Kept(edits, g) && g < |base|
    ensures Piece(base, edits, done, g) != ""
  {
  }

  // Something kept between two insertion points keeps their targets apart.
  lemma KeptBetween(base: Text, edits: seq<Edit>, done: set<nat>, k: nat, j: nat, g: nat)
    requires Plan(base, edits) && j < |edits| && k < |edits| && edits[k].length == 0 && edits[j].length == 0
    requires edits[k].position <= g < edits[j].position && Kept(edits, g)
    ensures Target(base, edits, done, k) < Target(base, edits, done, j)
  {
    hide *;
    var q, p := edits[k].position, edits[j].position;
    PlanFits(base, edits, j);
    TargetIs(base, edits, done, k);
    TargetIs(base, edits, done, j);
    ThreeStretches(base, edits, done, g, g + 1, p);
    ThreeStretches(base, edits, done, q, g, g);
    OnePiece(base, edits, done, g);
    KeptPieceIsNotEmpty(base, edits, done, g);
  }
}

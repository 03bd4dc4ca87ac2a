/** Vector clocks: the dictionary value, the order on it, and the object that holds it. */
module VectorClocks {
  import opened Common
  import opened NodeCounts

  type Clock = Counts

  function Incremented(c: Clock, n: Node): Clock {
    Increased(c, n, 1)
  }

  // The test of the original: "not above" looks at the keys of a only.
  predicate Before(a: Clock, b: Clock) {
    (forall n <- a :: At(a, n) <= At(b, n)) && (exists n <- a.Keys + b.Keys :: At(a, n) < At(b, n))
  }

  predicate Concurrent(a: Clock, b: Clock) {
    !Before(a, b) && !Before(b, a)
  }

  // ---------- clocks built by increment and merge ----------

  ghost predicate Counted(c: Clock) {
    forall n :: n in c ==> c[n] > 0
  }

  ghost predicate Below(a: Clock, b: Clock) {
    forall n :: At(a, n) <= At(b, n)
  }

  lemma OperationsKeepCounted(a: Clock, b: Clock, n: Node)
    requires Counted(a) && Counted(b)
    ensures Counted(map[]) && NonNegative(a) && Counted(Incremented(a, n)) && Counted(Merged(a, b))
  {
  }

  // Clocks that agree at every node are the same dictionary.
  lemma BelowIsAntisymmetric(a: Clock, b: Clock)
    requires Counted(a) && Counted(b) && Below(a, b) && Below(b, a)
    ensures a == b
  {
    forall n ensures (n in a <==> n in b) && (n in a ==> a[n] == b[n]) {
      assert At(a, n) == At(b, n);
    }
  }

  // Looking at one side's keys is enough: the test is the strict pointwise order.
  lemma BeforeIsStrictlyBelow(a: Clock, b: Clock)
    requires Counted(a) && Counted(b)
    ensures Before(a, b) <==> Below(a, b) && a != b
  {
    if Before(a, b) {
      forall n ensures At(a, n) <= At(b, n) {
        if n !in a {
          assert At(b, n) >= 0;
        }
      }
    }
    if Below(a, b) && a != b {
      if !Below(b, a) {
        var n :| At(b, n) > At(a, n);
        assert n in a.Keys + b.Keys;
      } else {
        BelowIsAntisymmetric(a, b);
      }
      assert forall n :: n in a ==> At(a, n) <= At(b, n);
    }
  }

  lemma StrictPartialOrder(a: Clock, b: Clock, c: Clock)
    requires Counted(a) && Counted(b) && Counted(c)
    ensures !Before(a, a)
    ensures Before(a, b) ==> !Before(b, a)
    ensures Before(a, b) && Before(b, c) ==> Before(a, c)
  {
  }

  lemma MergedBelow(a: Clock, b: Clock, c: Clock)
    requires Counted(a) && Counted(b)
    ensures Below(a, Merged(a, b)) && Below(b, Merged(a, b))
    ensures Below(a, c) && Below(b, c) <==> Below(Merged(a, b), c)
  {
  }

  // Merge is the least upper bound of the order "equal or before".
  lemma MergeIsLeastUpperBound(a: Clock, b: Clock, c: Clock)
    requires Counted(a) && Counted(b) && Counted(c)
    ensures var m := Merged(a, b);
      && (a == m || Before(a, m)) && (b == m || Before(b, m))
      && ((a == c || Before(a, c)) && (b == c || Before(b, c)) <==> (m == c || Before(m, c)))
  {
    var m := Merged(a, b);
    OperationsKeepCounted(a, b, "");
    MergedBelow(a, b, c);
    assert Below(c, c);
    hide *;
    BeforeIsStrictlyBelow(a, m);
    BeforeIsStrictlyBelow(b, m);
    BeforeIsStrictlyBelow(a, c);
    BeforeIsStrictlyBelow(b, c);
    BeforeIsStrictlyBelow(m, c);
  }

  // Before, after and concurrent exclude each other; unequal concurrent clocks are those
  // where each side is ahead at some node.
  lemma ExactlyOneHolds(a: Clock, b: Clock)
    requires Counted(a) && Counted(b)
    ensures !(Before(a, b) && Before(b, a))
    ensures Concurrent(a, b) <==> (Below(a, b) <==> Below(b, a))
    ensures Concurrent(a, b) <==>
              a == b || (exists n, m :: At(a, n) < At(b, n) && At(b, m) < At(a, m))
  {
    StrictPartialOrder(a, b, a);
    BeforeIsStrictlyBelow(a, b);
    BeforeIsStrictlyBelow(b, a);
    hide Before;
    if Concurrent(a, b) && a != b {
      var m :| At(a, m) > At(b, m);
      var n :| At(b, n) > At(a, n);
      assert At(a, n) < At(b, n) && At(b, m) < At(a, m);
    }
  }

  // Dictionaries with negative counts, which only from_dict can make, can be before each other:
  // exactly when they agree where both have a count, no count of one side alone is positive,
  // and each side alone has a negative one.
  lemma EachBeforeTheOther(a: Clock, b: Clock)
    ensures Before(a, b) && Before(b, a) <==>
      && (forall n :: n in a && n in b ==> a[n] == b[n])
      && (forall n :: (n in a) != (n in b) ==> At(a, n) <= 0 && At(b, n) <= 0)
      && (exists n :: n in a && n !in b && a[n] < 0)
      && (exists n :: n in b && n !in a && b[n] < 0)
  {
    if Before(a, b) && Before(b, a) {
      var n :| n in a.Keys + b.Keys && At(a, n) < At(b, n);
      assert n in a && n !in b && a[n] < 0;
      var k :| k in b.Keys + a.Keys && At(b, k) < At(a, k);
      assert k in b && k !in a && b[k] < 0;
    }
    if n :| n in a && n !in b && a[n] < 0 {
      assert At(a, n) < At(b, n);
    }
    if k :| k in b && k !in a && b[k] < 0 {
      assert At(b, k) < At(a, k);
    }
  }

  // The smallest case.
  lemma NegativeCountsCycle()
    ensures Before(map["x" := -1], map["y" := -1]) && Before(map["y" := -1], map["x" := -1])
  {
    var a: Clock, b: Clock := map["x" := -1], map["y" := -1];
    assert At(a, "x") < At(b, "x") && At(b, "y") < At(a, "y");
  }

  // ---------- the object ----------

  class VectorClock {
    var clocks: Clock

    constructor ()
      ensures clocks == map[]
    {
      clocks := map[];
    }

    method Increment(node: Node) returns (now: int)
      modifies this
      ensures clocks == Incremented(old(clocks), node) && now == At(clocks, node)
    {
      clocks := clocks[node := (if node in clocks then clocks[node] else 0) + 1];
      now := clocks[node];
    }

    function Get(node: Node): int
      reads this
    {
      At(clocks, node)
    }

    // The merge is a new clock; both arguments are left alone.
    method Merge(other: VectorClock) returns (result: VectorClock)
      ensures fresh(result) && result.clocks == Merged(clocks, other.clocks)
    {
      result := new VectorClock();
      result.clocks := clocks;
      var todo := other.clocks.Keys;
      while todo != {}
        invariant todo <= other.clocks.Keys
        invariant fresh(result)
        invariant result.clocks.Keys == clocks.Keys + (other.clocks.Keys - todo)
        invariant forall n :: n in result.clocks ==>
          result.clocks[n] ==
            if n in other.clocks && n !in todo then Max(At(clocks, n), other.clocks[n]) else At(clocks, n)
        decreases todo
      {
        var node :| node in todo;
        result.clocks := result.clocks[node := Max(result.Get(node), other.clocks[node])];
        todo := todo - {node};
      }
    }

    predicate HappensBefore(other: VectorClock)
      reads this, other
    {
      (forall n <- clocks :: Get(n) <= other.Get(n))
      && (exists n <- clocks.Keys + other.clocks.Keys :: Get(n) < other.Get(n))
    }

    predicate ConcurrentWith(other: VectorClock)
      reads this, other
    {
      !HappensBefore(other) && !other.HappensBefore(this)
    }

    lemma ObjectsCompareAsValues(other: VectorClock)
      ensures HappensBefore(other) <==> Before(clocks, other.clocks)
      ensures ConcurrentWith(other) <==> Concurrent(clocks, other.clocks)
    {
    }
  }
}

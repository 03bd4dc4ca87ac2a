/** Dictionaries from node names to counts, which vector clocks and counters share. */
module NodeCounts {
  import opened Common

  type Node = string
  type Counts = map<Node, int>

  function At(c: Counts, n: Node): int {
    if n in c then c[n] else 0
  }

  function Increased(c: Counts, n: Node, amount: int): Counts {
    c[n := At(c, n) + amount]
  }

  // The merge loop of both classes: keys only the first dictionary has keep their count.
  function Merged(a: Counts, b: Counts): Counts {
    map n <- a.Keys + b.Keys :: if n in b then Max(At(a, n), b[n]) else a[n]
  }

  ghost predicate NonNegative(c: Counts) {
    forall n :: n in c ==> c[n] >= 0
  }

  lemma MergedAt(a: Counts, b: Counts, n: Node)
    requires NonNegative(a) && NonNegative(b)
    ensures n in Merged(a, b) <==> n in a || n in b
    ensures At(Merged(a, b), n) == Max(At(a, n), At(b, n))
  {
  }

  lemma MergedNonNegative(a: Counts, b: Counts)
    requires NonNegative(a) && NonNegative(b)
    ensures NonNegative(Merged(a, b))
  {
  }

  lemma SameCounts(a: Counts, b: Counts)
    requires forall n :: (n in a <==> n in b) && At(a, n) == At(b, n)
    ensures a == b
  {
  }

  // Merge is commutative, associative and idempotent on the dictionaries themselves.
  lemma MergeLaws(a: Counts, b: Counts, c: Counts)
    requires NonNegative(a) && NonNegative(b) && NonNegative(c)
    ensures Merged(a, b) == Merged(b, a)
    ensures Merged(Merged(a, b), c) == Merged(a, Merged(b, c))
    ensures Merged(a, a) == a
  {
    var ab, ba, bc := Merged(a, b), Merged(b, a), Merged(b, c);
    MergedNonNegative(a, b);
    MergedNonNegative(b, c);
    hide Merged, NonNegative, At;
    forall n
      ensures (n in ab <==> n in ba) && At(ab, n) == At(ba, n)
      ensures (n in Merged(a, a) <==> n in a) && At(Merged(a, a), n) == At(a, n)
      ensures (n in Merged(ab, c) <==> n in Merged(a, bc)) && At(Merged(ab, c), n) == At(Merged(a, bc), n)
    {
      MergedAt(a, b, n);
      MergedAt(b, a, n);
      MergedAt(a, a, n);
      MergedAt(b, c, n);
      MergedAt(ab, c, n);
      MergedAt(a, bc, n);
    }
    SameCounts(ab, ba);
    SameCounts(Merged(ab, c), Merged(a, bc));
    SameCounts(Merged(a, a), a);
  }

  // Dictionaries loaded from elsewhere may hold negative counts. Merge then commutes exactly
  // when no count that one side alone has is negative.
  lemma CommutesExactly(a: Counts, b: Counts)
    ensures Merged(a, b) == Merged(b, a) <==> forall n :: (n in a) != (n in b) ==> At(a, n) >= 0 && At(b, n) >= 0
  {
    if Merged(a, b) == Merged(b, a) {
      forall n | (n in a) != (n in b) ensures At(a, n) >= 0 && At(b, n) >= 0 {
        assert Merged(a, b)[n] == Merged(b, a)[n];
      }
    }
  }
}

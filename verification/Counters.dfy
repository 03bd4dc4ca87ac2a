/** The grow-only counter and the counter that also goes down, built from two of them. */
module Counters {
  import opened Common
  import opened NodeCounts

  datatype Outcome = Done | ValueError

  // ---------- the value of a dictionary of counts ----------

  ghost function Sum(c: Counts): int {
    if c == map[] then 0
    else
      var n :| n in c;
      c[n] + Sum(c - {n})
  }

  // Any node may be taken out first, so the order of iteration does not matter.
  lemma {:induction false} SumTakesAny(c: Counts, n: Node)
    ensures Sum(c) == At(c, n) + Sum(c - {n})
    decreases |c|
  {
    if n !in c {
      assert c - {n} == c;
    } else {
      var m :| m in c && Sum(c) == c[m] + Sum(c - {m});
      if m != n {
        SumTakesAny(c - {m}, n);
        SumTakesAny(c - {n}, m);
        assert c - {m} - {n} == c - {n} - {m};
      }
    }
  }

  lemma SumIncreased(c: Counts, n: Node, amount: int)
    ensures Sum(Increased(c, n, amount)) == Sum(c) + amount
  {
    SumTakesAny(c, n);
    SumTakesAny(Increased(c, n, amount), n);
    assert Increased(c, n, amount) - {n} == c - {n};
  }

  // A merge loses nothing either side counted and invents nothing.
  lemma MergeBounds(a: Counts, b: Counts)
    requires NonNegative(a) && NonNegative(b)
    ensures Max(Sum(a), Sum(b)) <= Sum(Merged(a, b)) <= Sum(a) + Sum(b)
  {
    MergeBoundsOver(a, b, a.Keys + b.Keys);
  }

  lemma {:induction false} MergeBoundsOver(a: Counts, b: Counts, keys: set<Node>)
    requires NonNegative(a) && NonNegative(b) && a.Keys <= keys && b.Keys <= keys
    ensures Max(Sum(a), Sum(b)) <= Sum(Merged(a, b)) <= Sum(a) + Sum(b)
    decreases |keys|
  {
    if keys == {} {
      assert a == map[] && b == map[] && Merged(a, b) == map[];
    } else {
      var n :| n in keys;
      MergeOfRest(a, b, n);
      MergedAt(a, b, n);
      SumTakesAny(a, n);
      SumTakesAny(b, n);
      SumTakesAny(Merged(a, b), n);
      assert At(a, n) >= 0 && At(b, n) >= 0;
      hide Merged, Sum, At;
      MergeBoundsOver(a - {n}, b - {n}, keys - {n});
    }
  }

  lemma MergeOfRest(a: Counts, b: Counts, n: Node)
    ensures Merged(a, b) - {n} == Merged(a - {n}, b - {n})
  {
  }

  // ---------- the objects ----------

  class GCounter {
    var counts: Counts

    constructor ()
      ensures counts == map[]
    {
      counts := map[];
    }

    method Increment(node: Node, amount: int) returns (r: Outcome)
      modifies this
      ensures r == if amount < 0 then ValueError else Done
      ensures counts == if r.Done? then Increased(old(counts), node, amount) else old(counts)
    {
      if amount < 0 {
        return ValueError;
      }
      counts := counts[node := (if node in counts then counts[node] else 0) + amount];
      return Done;
    }

    method Value() returns (sum: int)
      ensures sum == Sum(counts)
    {
      sum := 0;
      var todo := counts;
      while todo != map[]
        invariant sum + Sum(todo) == Sum(counts)
        decreases |todo|
      {
        var node :| node in todo;
        SumTakesAny(todo, node);
        sum := sum + todo[node];
        assert node in todo && node !in todo - {node};
        todo := todo - {node};
      }
    }

    method Merge(other: GCounter)
      modifies this
      ensures counts == Merged(old(counts), old(other.counts))
    {
      var theirs := other.counts;
      var todo := theirs.Keys;
      while todo != {}
        invariant todo <= theirs.Keys
        invariant counts.Keys == old(counts).Keys + (theirs.Keys - todo)
        invariant forall n :: n in counts ==>
          counts[n] == if n in theirs && n !in todo then Max(At(old(counts), n), theirs[n]) else At(old(counts), n)
        decreases todo
      {
        var node :| node in todo;
        counts := counts[node := Max(if node in counts then counts[node] else 0, theirs[node])];
        todo := todo - {node};
      }
    }
  }

  class PNCounter {
    const p: GCounter
    const n: GCounter

    predicate Valid() {
      p != n
    }

    constructor ()
      ensures Valid() && fresh(p) && fresh(n)
      ensures p.counts == map[] && n.counts == map[]
    {
      p := new GCounter();
      n := new GCounter();
    }

    method Increment(node: Node, amount: int) returns (r: Outcome)
      requires Valid()
      modifies p
      ensures r == if amount < 0 then ValueError else Done
      ensures p.counts == if r.Done? then Increased(old(p.counts), node, amount) else old(p.counts)
    {
      r := p.Increment(node, amount);
    }

    method Decrement(node: Node, amount: int) returns (r: Outcome)
      requires Valid()
      modifies n
      ensures r == if amount < 0 then ValueError else Done
      ensures n.counts == if r.Done? then Increased(old(n.counts), node, amount) else old(n.counts)
    {
      r := n.Increment(node, amount);
    }

    method Value() returns (v: int)
      ensures v == Sum(p.counts) - Sum(n.counts)
    {
      var up := p.Value();
      var down := n.Value();
      v := up - down;
    }

    // The halves of two counters are never shared crosswise.
    method Merge(other: PNCounter)
      requires Valid() && other.n != p
      modifies p, n
      ensures p.counts == Merged(old(p.counts), old(other.p.counts))
      ensures n.counts == Merged(old(n.counts), old(other.n.counts))
    {
      p.Merge(other.p);
      n.Merge(other.n);
    }
  }
}

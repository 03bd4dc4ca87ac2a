/** Replicas of a counter over a network that may lose, duplicate, reorder and delay
    snapshots. Each replica counts under its own name, and every accepted update is logged. */
module CounterRuns {
  import opened Common
  import opened NodeCounts
  import opened Counters

  datatype Update = Update(owner: Node, up: bool, amount: nat)

  // The two dictionaries of a counter, and the updates in the replica's causal history.
  datatype Replica = Replica(p: Counts, n: Counts, history: set<nat>)

  datatype System = System(replicas: seq<Replica>, sent: seq<Replica>, updates: seq<Update>)

  datatype Step =
    | CountStep(replica: nat, up: bool, amount: int)
    | SendStep(replica: nat)
    | DeliverStep(replica: nat, snapshot: nat)

  function Start(names: seq<Node>): System {
    System(seq(|names|, _ => Replica(map[], map[], {})), [], [])
  }

  function Next(names: seq<Node>, s: System, step: Step): System
    requires |s.replicas| == |names|
  {
    if step.replica >= |names| then s
    else
      var r := step.replica;
      var at := s.replicas[r];
      match step
      case CountStep(_, up, amount) =>
        if amount < 0 then s
        else
          var h := at.history + {|s.updates|};
          System(
            s.replicas[r := if up then Replica(Increased(at.p, names[r], amount), at.n, h)
                            else Replica(at.p, Increased(at.n, names[r], amount), h)],
            s.sent,
            s.updates + [Update(names[r], up, amount)])
      case SendStep(_) => s.(sent := s.sent + [at])
      case DeliverStep(_, m) =>
        if m >= |s.sent| then s
        else
          var msg := s.sent[m];
          s.(replicas := s.replicas[r := Replica(Merged(at.p, msg.p), Merged(at.n, msg.n), at.history + msg.history)])
  }

  function Run(names: seq<Node>, steps: seq<Step>): (s: System)
    ensures |s.replicas| == |names|
  {
    if steps == [] then Start(names) else Next(names, Run(names, steps[..|steps| - 1]), steps[|steps| - 1])
  }

  // ---------- the specification: counting the log ----------

  // What the updates of a history amount to, by owner.
  ghost function Tally(us: seq<Update>, h: set<nat>, up: bool): Counts {
    if us == [] then map[]
    else
      var before := Tally(us[..|us| - 1], h, up);
      var u := us[|us| - 1];
      if |us| - 1 in h && u.up == up then Increased(before, u.owner, u.amount) else before
  }

  // What they amount to in all.
  ghost function Total(us: seq<Update>, h: set<nat>, up: bool): nat {
    if us == [] then 0
    else Total(us[..|us| - 1], h, up) +
         if |us| - 1 in h && us[|us| - 1].up == up then us[|us| - 1].amount else 0
  }

  // What every update ever accepted amounts to.
  ghost function GrandTotal(us: seq<Update>, up: bool): nat {
    if us == [] then 0
    else GrandTotal(us[..|us| - 1], up) + if us[|us| - 1].up == up then us[|us| - 1].amount else 0
  }

  // The amounts one owner counted in one direction, in order.
  ghost function Amounts(us: seq<Update>, owner: Node, up: bool): seq<nat> {
    if us == [] then []
    else Amounts(us[..|us| - 1], owner, up) +
         if us[|us| - 1].owner == owner && us[|us| - 1].up == up then [us[|us| - 1].amount] else []
  }

  ghost function SumOf(amounts: seq<nat>): nat {
    if amounts == [] then 0 else SumOf(amounts[..|amounts| - 1]) + amounts[|amounts| - 1]
  }

  ghost predicate IsPrefixSum(x: int, amounts: seq<nat>) {
    exists m :: 0 <= m <= |amounts| && x == SumOf(amounts[..m])
  }

  // ---------- the invariant ----------

  // A history that has an update of an owner has all the earlier ones.
  ghost predicate PrefixClosed(us: seq<Update>, h: set<nat>) {
    (forall i :: i in h ==> i < |us|)
    && (forall i, j :: 0 <= i < j < |us| && j in h && us[i].owner == us[j].owner ==> i in h)
  }

  ghost predicate Consistent(us: seq<Update>, c: Replica) {
    PrefixClosed(us, c.history) && c.p == Tally(us, c.history, true) && c.n == Tally(us, c.history, false)
  }

  // A replica has all of its own updates.
  ghost predicate KnowsOwn(us: seq<Update>, name: Node, h: set<nat>) {
    forall i :: 0 <= i < |us| && us[i].owner == name ==> i in h
  }

  ghost predicate Inv(names: seq<Node>, s: System) {
    |s.replicas| == |names|
    && (forall r :: 0 <= r < |names| ==>
          Consistent(s.updates, s.replicas[r]) && KnowsOwn(s.updates, names[r], s.replicas[r].history))
    && (forall m :: 0 <= m < |s.sent| ==> Consistent(s.updates, s.sent[m]))
  }

  // ---------- the tally of a union ----------

  lemma {:induction false} TallyNonNegative(us: seq<Update>, h: set<nat>, up: bool)
    ensures NonNegative(Tally(us, h, up))
  {
    if us != [] {
      TallyNonNegative(us[..|us| - 1], h, up);
    }
  }

  // More of an owner's updates, no smaller tally; the same ones, the same tally.
  lemma {:induction false} TallyGrows(us: seq<Update>, g: set<nat>, h: set<nat>, up: bool, n: Node)
    requires forall i :: 0 <= i < |us| && us[i].owner == n && i in g ==> i in h
    ensures At(Tally(us, g, up), n) <= At(Tally(us, h, up), n)
    ensures n in Tally(us, g, up) ==> n in Tally(us, h, up)
  {
    if us != [] {
      TallyGrows(us[..|us| - 1], g, h, up, n);
      TallyNonNegative(us[..|us| - 1], h, up);
    }
  }

  // Of two prefix-closed histories one has all the other has of an owner.
  lemma Comparable(us: seq<Update>, g: set<nat>, h: set<nat>, n: Node)
    requires PrefixClosed(us, g) && PrefixClosed(us, h)
    ensures (forall i :: 0 <= i < |us| && us[i].owner == n && i in g ==> i in h)
         || (forall i :: 0 <= i < |us| && us[i].owner == n && i in h ==> i in g)
  {
  }

  lemma TallyOfUnion(us: seq<Update>, g: set<nat>, h: set<nat>, up: bool)
    requires PrefixClosed(us, g) && PrefixClosed(us, h)
    ensures Tally(us, g + h, up) == Merged(Tally(us, g, up), Tally(us, h, up))
  {
    var a, b, both := Tally(us, g, up), Tally(us, h, up), Tally(us, g + h, up);
    TallyNonNegative(us, g, up);
    TallyNonNegative(us, h, up);
    forall n ensures (n in both <==> n in Merged(a, b)) && At(both, n) == At(Merged(a, b), n) {
      MergedAt(a, b, n);
      TallyGrows(us, g, g + h, up, n);
      TallyGrows(us, h, g + h, up, n);
      Comparable(us, g, h, n);
      if forall i :: 0 <= i < |us| && us[i].owner == n && i in g ==> i in h {
        TallyGrows(us, g, h, up, n);
        TallyGrows(us, g + h, h, up, n);
      } else {
        TallyGrows(us, h, g, up, n);
        TallyGrows(us, g + h, g, up, n);
      }
    }
    SameCounts(both, Merged(a, b));
  }

  // ---------- every step keeps the invariant ----------

  lemma LaterHistory(us: seq<Update>, u: Update, h: set<nat>, up: bool)
    ensures Tally(us, h + {|us|}, up) == Tally(us, h, up)
    ensures Tally(us + [u], h, up) ==
            if |us| in h && u.up == up then Increased(Tally(us, h, up), u.owner, u.amount) else Tally(us, h, up)
  {
    SameBelow(us, h, h + {|us|}, up);
    assert (us + [u])[..|us|] == us;
  }

  lemma {:induction false} SameBelow(us: seq<Update>, g: set<nat>, h: set<nat>, up: bool)
    requires forall i :: 0 <= i < |us| ==> (i in g <==> i in h)
    ensures Tally(us, g, up) == Tally(us, h, up)
  {
    if us != [] {
      SameBelow(us[..|us| - 1], g, h, up);
    }
  }

  lemma LoggingKeepsConsistent(us: seq<Update>, u: Update, c: Replica)
    requires Consistent(us, c)
    ensures Consistent(us + [u], c)
  {
  }

  lemma CountingKeepsConsistent(us: seq<Update>, u: Update, c: Replica)
    requires Consistent(us, c) && KnowsOwn(us, u.owner, c.history)
    ensures var h := c.history + {|us|};
      Consistent(us + [u], if u.up then Replica(Increased(c.p, u.owner, u.amount), c.n, h)
                           else Replica(c.p, Increased(c.n, u.owner, u.amount), h))
  {
    var h := c.history + {|us|};
    LaterHistory(us, u, c.history, true);
    LaterHistory(us, u, c.history, false);
    LaterHistory(us, u, h, true);
    LaterHistory(us, u, h, false);
    assert h + {|us|} == h;
    forall i, j | 0 <= i < j < |us + [u]| && j in h && (us + [u])[i].owner == (us + [u])[j].owner ensures i in h {
      assert (us + [u])[i] == us[i];
    }
  }

  lemma MergingKeepsConsistent(us: seq<Update>, a: Replica, b: Replica)
    requires Consistent(us, a) && Consistent(us, b)
    ensures Consistent(us, Replica(Merged(a.p, b.p), Merged(a.n, b.n), a.history + b.history))
  {
    TallyOfUnion(us, a.history, b.history, true);
    TallyOfUnion(us, a.history, b.history, false);
  }

  lemma NextKeepsInv(names: seq<Node>, s: System, step: Step)
    requires Distinct(names) && Inv(names, s)
    ensures Inv(names, Next(names, s, step))
  {
    hide Consistent, Increased, Merged;
    if step.replica < |names| {
      var r := step.replica;
      match step
      case CountStep(_, up, amount) =>
        if amount >= 0 {
          var u := Update(names[r], up, amount);
          CountingKeepsConsistent(s.updates, u, s.replicas[r]);
          forall q | 0 <= q < |names| { LoggingKeepsConsistent(s.updates, u, s.replicas[q]); }
          forall m | 0 <= m < |s.sent| { LoggingKeepsConsistent(s.updates, u, s.sent[m]); }
        }
      case SendStep(_) =>
      case DeliverStep(_, m) =>
        if m < |s.sent| {
          MergingKeepsConsistent(s.updates, s.replicas[r], s.sent[m]);
        }
    }
  }

  lemma {:induction false} RunKeepsInv(names: seq<Node>, steps: seq<Step>)
    requires Distinct(names)
    ensures Inv(names, Run(names, steps))
  {
    if steps != [] {
      RunKeepsInv(names, steps[..|steps| - 1]);
      NextKeepsInv(names, Run(names, steps[..|steps| - 1]), steps[|steps| - 1]);
    }
  }

  // ---------- the theorems ----------

  lemma {:induction false} SumOfTally(us: seq<Update>, h: set<nat>, up: bool)
    ensures Sum(Tally(us, h, up)) == Total(us, h, up)
  {
    if us != [] {
      var init, u := us[..|us| - 1], us[|us| - 1];
      SumOfTally(init, h, up);
      SumIncreased(Tally(init, h, up), u.owner, u.amount);
    }
  }

  // Nothing lost, nothing counted twice: a replica reads exactly the increments minus the
  // decrements of its causal history, however snapshots were lost, repeated or reordered.
  lemma Conservation(names: seq<Node>, steps: seq<Step>, r: nat)
    requires Distinct(names) && r < |names|
    ensures var s := Run(names, steps);
      var c := s.replicas[r];
      && Sum(c.p) - Sum(c.n) == Total(s.updates, c.history, true) - Total(s.updates, c.history, false)
      && Total(s.updates, c.history, true) <= GrandTotal(s.updates, true)
      && Total(s.updates, c.history, false) <= GrandTotal(s.updates, false)
      && ((forall i :: 0 <= i < |s.updates| ==> i in c.history) ==>
            Sum(c.p) - Sum(c.n) == GrandTotal(s.updates, true) - GrandTotal(s.updates, false))
  {
    RunKeepsInv(names, steps);
    var s := Run(names, steps);
    var c := s.replicas[r];
    SumOfTally(s.updates, c.history, true);
    SumOfTally(s.updates, c.history, false);
    TotalOfSome(s.updates, c.history, true);
    TotalOfSome(s.updates, c.history, false);
  }

  lemma {:induction false} TotalOfSome(us: seq<Update>, h: set<nat>, up: bool)
    ensures Total(us, h, up) <= GrandTotal(us, up)
    ensures (forall i :: 0 <= i < |us| ==> i in h) ==> Total(us, h, up) == GrandTotal(us, up)
  {
    if us != [] {
      TotalOfSome(us[..|us| - 1], h, up);
    }
  }

  // Updates of an owner, in one direction, that a history has.
  ghost function Known(us: seq<Update>, h: set<nat>, owner: Node, up: bool): nat {
    if us == [] then 0
    else Known(us[..|us| - 1], h, owner, up) +
         if |us| - 1 in h && us[|us| - 1].owner == owner && us[|us| - 1].up == up then 1 else 0
  }

  lemma {:induction false} KnownIsPrefix(us: seq<Update>, h: set<nat>, owner: Node, up: bool)
    requires forall i, j :: 0 <= i < j < |us| && j in h && us[i].owner == us[j].owner == owner ==> i in h
    ensures Known(us, h, owner, up) <= |Amounts(us, owner, up)|
    ensures (forall i :: 0 <= i < |us| && us[i].owner == owner ==> i in h) ==>
              Known(us, h, owner, up) == |Amounts(us, owner, up)|
    ensures At(Tally(us, h, up), owner) == SumOf(Amounts(us, owner, up)[..Known(us, h, owner, up)])
  {
    if us != [] {
      var init, u := us[..|us| - 1], us[|us| - 1];
      KnownIsPrefix(init, h, owner, up);
      var all, some := Amounts(init, owner, up), Known(init, h, owner, up);
      if u.owner != owner || u.up != up {
        assert all + [] == all;
      } else {
        assert (all + [u.amount])[..some] == all[..some];
        if |us| - 1 in h {
          assert some == |all|;
          assert (all + [u.amount])[..some + 1] == all + [u.amount];
          assert (all + [u.amount])[..|all|] == all;
          assert all[..some] == all;
        }
      }
    }
  }

  // Every view of a node is the sum of some prefix of that node's own updates, and never
  // exceeds the node's own count, which is the sum of all of them.
  lemma ViewsArePrefixes(names: seq<Node>, steps: seq<Step>, r: nat, j: nat)
    requires Distinct(names) && r < |names| && j < |names|
    ensures var s := Run(names, steps);
      var ups, downs := Amounts(s.updates, names[j], true), Amounts(s.updates, names[j], false);
      && IsPrefixSum(At(s.replicas[r].p, names[j]), ups)
      && IsPrefixSum(At(s.replicas[r].n, names[j]), downs)
      && At(s.replicas[r].p, names[j]) <= At(s.replicas[j].p, names[j]) == SumOf(ups)
      && At(s.replicas[r].n, names[j]) <= At(s.replicas[j].n, names[j]) == SumOf(downs)
  {
    RunKeepsInv(names, steps);
    var s := Run(names, steps);
    var us, g, h := s.updates, s.replicas[r].history, s.replicas[j].history;
    assert Consistent(us, s.replicas[r]) && Consistent(us, s.replicas[j]);
    ViewIsPrefix(us, g, h, names[j], true);
    ViewIsPrefix(us, g, h, names[j], false);
  }

  lemma ViewIsPrefix(us: seq<Update>, g: set<nat>, h: set<nat>, owner: Node, up: bool)
    requires PrefixClosed(us, g) && PrefixClosed(us, h) && KnowsOwn(us, owner, h)
    ensures var all := Amounts(us, owner, up);
      && IsPrefixSum(At(Tally(us, g, up), owner), all)
      && At(Tally(us, g, up), owner) <= At(Tally(us, h, up), owner) == SumOf(all)
  {
    KnownIsPrefix(us, g, owner, up);
    KnownIsPrefix(us, h, owner, up);
    TallyGrows(us, g, h, up, owner);
    var all := Amounts(us, owner, up);
    assert all[..|all|] == all;
  }

  // ---------- runs go somewhere ----------

  lemma RunTwo(names: seq<Node>, steps: seq<Step>, a: Step, b: Step)
    ensures Run(names, steps + [a]) == Next(names, Run(names, steps), a)
    ensures Run(names, steps + [a, b]) == Next(names, Next(names, Run(names, steps), a), b)
  {
    assert (steps + [a])[..|steps|] == steps;
    assert (steps + [a, b])[..|steps| + 1] == steps + [a];
  }

  // From every state a replica can count any amount, which is logged under its name, and
  // any replica can be brought to know all that another knows.
  lemma RunsProceed(names: seq<Node>, steps: seq<Step>, r: nat, q: nat, up: bool, amount: nat)
    requires r < |names| && q < |names|
    ensures var s, t := Run(names, steps), Run(names, steps + [CountStep(r, up, amount)]);
      && t.updates == s.updates + [Update(names[r], up, amount)]
      && t.replicas[r].history == s.replicas[r].history + {|s.updates|}
    ensures var s := Run(names, steps);
      var t := Run(names, steps + [SendStep(r), DeliverStep(q, |s.sent|)]);
      && t.updates == s.updates && t.replicas[q].history == s.replicas[q].history + s.replicas[r].history
  {
    RunTwo(names, steps, CountStep(r, up, amount), SendStep(r));
    RunTwo(names, steps, SendStep(r), DeliverStep(q, |Run(names, steps).sent|));
    hide Run, Increased, Merged;
  }
}

/** Replicas of an observed-remove map over a network that may lose, duplicate, reorder
    and delay snapshots.

    Any sequence of steps is a run; a step that names a replica or a snapshot that does not
    exist does nothing. A snapshot stays in `sent` for ever, so it may be delivered any
    number of times, in any order, or never. Every update is logged with the set of updates
    its replica had in its causal history, which is what the theorems speak about. */
module OrMapRuns {
  import opened Common
  import opened OrMap

  datatype Update =
    | PutUpdate(key: Key, dot: Dot, value: Value, past: set<nat>)
    | RemoveUpdate(key: Key, past: set<nat>)

  datatype Replica = Replica(state: State, history: set<nat>)

  datatype System = System(replicas: seq<Replica>, sent: seq<Replica>, updates: seq<Update>)

  datatype Step =
    | PutStep(replica: nat, key: Key, value: Value, node: string)
    | RemoveStep(replica: nat, key: Key)
    | SendStep(replica: nat)
    | DeliverStep(replica: nat, snapshot: nat)

  function Start(n: nat): System {
    System(seq(n, _ => Replica(EMPTY, {})), [], [])
  }

  function Next(s: System, step: Step): System {
    if step.replica >= |s.replicas| then s
    else
      var at := s.replicas[step.replica];
      var id := |s.updates|;
      match step
      case PutStep(r, k, v, node) =>
        var dot := Dot(node, id);
        System(
          s.replicas[r := Replica(AfterPut(at.state, k, v, dot), at.history + {id})],
          s.sent,
          s.updates + [PutUpdate(k, dot, v, at.history)])
      case RemoveStep(r, k) =>
        System(
          s.replicas[r := Replica(AfterRemove(at.state, k), at.history + {id})],
          s.sent,
          s.updates + [RemoveUpdate(k, at.history)])
      case SendStep(r) => s.(sent := s.sent + [at])
      case DeliverStep(r, m) =>
        if m >= |s.sent| then s
        else
          var msg := s.sent[m];
          s.(replicas := s.replicas[r := Replica(Merged(at.state, msg.state), at.history + msg.history)])
  }

  function Run(n: nat, steps: seq<Step>): System {
    if steps == [] then Start(n) else Next(Run(n, steps[..|steps| - 1]), steps[|steps| - 1])
  }

  // ---------- the specification: reading the outcome off the history ----------

  // Update i of the history is the put that minted the dot for the key.
  ghost predicate Minted(us: seq<Update>, h: set<nat>, k: Key, d: Dot) {
    d.uuid in h && d.uuid < |us| && us[d.uuid].PutUpdate? && us[d.uuid].key == k && us[d.uuid].dot == d
  }

  // Some put or remove of the key in the history had the minting put in its own past.
  ghost predicate Observed(us: seq<Update>, h: set<nat>, k: Key, d: Dot) {
    exists j :: j in h && j < |us| && us[j].key == k && d.uuid in us[j].past
  }

  // ---------- the invariant ----------

  ghost predicate WellLogged(us: seq<Update>) {
    forall i :: 0 <= i < |us| ==>
      (forall j :: j in us[i].past ==> j < i) && (us[i].PutUpdate? ==> us[i].dot.uuid == i)
  }

  ghost predicate Closed(us: seq<Update>, h: set<nat>) {
    forall i :: i in h ==> i < |us| && us[i].past <= h
  }

  ghost predicate Truthful(us: seq<Update>, s: State) {
    forall k, e :: e in Listed(s, k) ==>
      e.dot.uuid < |us| && us[e.dot.uuid].PutUpdate? && us[e.dot.uuid].value == e.value
  }

  ghost predicate Tracks(us: seq<Update>, c: Replica) {
    forall k, d ::
      (d in Seen(c.state, k) <==> Minted(us, c.history, k, d))
      && (d in Buried(c.state, k) <==> Minted(us, c.history, k, d) && Observed(us, c.history, k, d))
  }

  ghost predicate Consistent(us: seq<Update>, c: Replica) {
    Closed(us, c.history) && Truthful(us, c.state) && Tracks(us, c) && WellFormed(c.state)
  }

  ghost predicate Inv(s: System) {
    WellLogged(s.updates)
    && (forall r :: 0 <= r < |s.replicas| ==> Consistent(s.updates, s.replicas[r]))
    && (forall m :: 0 <= m < |s.sent| ==> Consistent(s.updates, s.sent[m]))
  }

  // ---------- every step keeps it ----------

  lemma LoggingKeepsConsistent(us: seq<Update>, u: Update, c: Replica)
    requires Consistent(us, c)
    ensures Consistent(us + [u], c)
  {
  }

  lemma UpdateKeepsConsistent(us: seq<Update>, u: Update, c: Replica, after: State)
    requires WellLogged(us) && Consistent(us, c)
    requires u.past == c.history && (u.PutUpdate? ==> u.dot.uuid == |us|)
    requires after == if u.PutUpdate? then AfterPut(c.state, u.key, u.value, u.dot) else AfterRemove(c.state, u.key)
    ensures WellLogged(us + [u])
    ensures Consistent(us + [u], Replica(after, c.history + {|us|}))
  {
    hide *;
    ConsistentMeans(us, c);
    LoggingKeepsConsistent(us, u, c);
    ConsistentMeans(us + [u], c);
    UpdateKeepsClosed(us, u, c.history);
    UpdateKeepsTracks(us + [u], c, after);
    UpdateKeepsTruth(us + [u], c.state, after);
    UpdateKeepsShape(us, u, c, after);
    ConsistentMeans(us + [u], Replica(after, c.history + {|us|}));
  }

  lemma ConsistentMeans(us: seq<Update>, c: Replica)
    ensures Consistent(us, c) <==>
      Closed(us, c.history) && Truthful(us, c.state) && Tracks(us, c) && WellFormed(c.state)
    ensures Consistent(us, c) ==> forall i :: i in c.history ==> i < |us|
  {
  }

  lemma UpdateKeepsClosed(us: seq<Update>, u: Update, h: set<nat>)
    requires WellLogged(us) && Closed(us, h) && u.past == h && (u.PutUpdate? ==> u.dot.uuid == |us|)
    ensures WellLogged(us + [u]) && Closed(us + [u], h + {|us|})
  {
  }

  lemma UpdateKeepsShape(us: seq<Update>, u: Update, c: Replica, after: State)
    requires Tracks(us, c) && WellFormed(c.state) && (u.PutUpdate? ==> u.dot.uuid == |us|)
    requires after == if u.PutUpdate? then AfterPut(c.state, u.key, u.value, u.dot) else AfterRemove(c.state, u.key)
    ensures WellFormed(after)
  {
    hide AfterPut, AfterRemove, WellFormed, Seen;
    if u.PutUpdate? {
      assert u.dot !in Seen(c.state, u.key);
      PutKeepsShape(c.state, u.key, u.value, u.dot);
    } else {
      RemoveKeepsShape(c.state, u.key);
    }
  }

  lemma UpdateKeepsTracks(vs: seq<Update>, c: Replica, after: State)
    requires |vs| > 0 && Closed(vs, c.history) && Tracks(vs, c)
    requires vs[|vs| - 1].past == c.history && forall i :: i in c.history ==> i < |vs| - 1
    requires var u := vs[|vs| - 1];
      && (u.PutUpdate? ==> u.dot.uuid == |vs| - 1)
      && after == if u.PutUpdate? then AfterPut(c.state, u.key, u.value, u.dot) else AfterRemove(c.state, u.key)
    ensures Tracks(vs, Replica(after, c.history + {|vs| - 1}))
  {
    hide Seen, Buried, AfterPut, AfterRemove, Minted, Observed, Closed;
    var u, h := vs[|vs| - 1], c.history + {|vs| - 1};
    forall k, d
      ensures d in Seen(after, k) <==> Minted(vs, h, k, d)
      ensures d in Buried(after, k) <==> Minted(vs, h, k, d) && Observed(vs, h, k, d)
    {
      UpdatesBurySeen(c.state, u.key, if u.PutUpdate? then u.value else "", if u.PutUpdate? then u.dot else d, k);
      HistoryGrows(vs, c.history, k, d);
      MintedInHistory(vs, c.history, k, d);
    }
  }

  lemma MintedInHistory(vs: seq<Update>, h: set<nat>, k: Key, d: Dot)
    requires Closed(vs, h) && forall i :: i in h ==> i < |vs| - 1
    ensures Minted(vs, h, k, d) || Observed(vs, h, k, d) ==> d.uuid in h && d.uuid < |vs| - 1
  {
  }

  lemma UpdateKeepsTruth(vs: seq<Update>, s: State, after: State)
    requires |vs| > 0 && Truthful(vs, s)
    requires var u := vs[|vs| - 1];
      && (u.PutUpdate? ==> u.dot.uuid == |vs| - 1)
      && after == if u.PutUpdate? then AfterPut(s, u.key, u.value, u.dot) else AfterRemove(s, u.key)
    ensures Truthful(vs, after)
  {
    var u := vs[|vs| - 1];
    forall k, e | e in Listed(after, k)
      ensures e in Listed(s, k) || (u.PutUpdate? && e == Entry(u.dot, u.value))
    {
      if k != u.key {
        assert Listed(after, k) == Listed(s, k);
      }
    }
    hide AfterPut, AfterRemove, Listed;
  }

  // Logging one more update of a key whose past is the whole history observes all of it.
  lemma HistoryGrows(vs: seq<Update>, h: set<nat>, k: Key, d: Dot)
    requires |vs| > 0 && vs[|vs| - 1].past == h && Closed(vs, h) && forall i :: i in h ==> i < |vs| - 1
    ensures var u, g := vs[|vs| - 1], h + {|vs| - 1};
      && (Minted(vs, g, k, d) <==>
            Minted(vs, h, k, d) || (u.PutUpdate? && k == u.key && d == u.dot && d.uuid == |vs| - 1))
      && (Observed(vs, g, k, d) <==> Observed(vs, h, k, d) || (k == u.key && d.uuid in h))
  {
  }

  lemma MergeKeepsConsistent(us: seq<Update>, a: Replica, b: Replica)
    requires WellLogged(us) && Consistent(us, a) && Consistent(us, b)
    ensures Consistent(us, Replica(Merged(a.state, b.state), a.history + b.history))
  {
    hide Seen, Buried, Listed, Merged, WellFormed;
    var m, h := Merged(a.state, b.state), a.history + b.history;
    forall k, d
      ensures d in Seen(m, k) <==> Minted(us, h, k, d)
      ensures d in Buried(m, k) <==> Minted(us, h, k, d) && Observed(us, h, k, d)
    {
      MergeJoins(a.state, b.state, k);
      ObservedInUnion(us, a.history, b.history, k, d);
    }
    forall k, e | e in Listed(m, k)
      ensures e.dot.uuid < |us| && us[e.dot.uuid].PutUpdate? && us[e.dot.uuid].value == e.value
    {
      MergedListMeans(a.state, b.state, k);
    }
    MergeKeepsShape(a.state, b.state);
  }

  // Closure makes observation a union: an observer in one history has what it saw there too.
  lemma ObservedInUnion(us: seq<Update>, g: set<nat>, h: set<nat>, k: Key, d: Dot)
    requires Closed(us, g) && Closed(us, h)
    ensures Minted(us, g + h, k, d) && Observed(us, g + h, k, d) <==>
              (Minted(us, g, k, d) && Observed(us, g, k, d)) || (Minted(us, h, k, d) && Observed(us, h, k, d))
  {
  }

  lemma NextKeepsInv(s: System, step: Step)
    requires Inv(s)
    ensures Inv(Next(s, step))
  {
    hide Consistent, AfterPut, AfterRemove, Merged;
    if step.replica < |s.replicas| {
      var at := s.replicas[step.replica];
      match step
      case PutStep(r, k, v, node) =>
        LogKeepsInv(s, r, PutUpdate(k, Dot(node, |s.updates|), v, at.history),
                    AfterPut(at.state, k, v, Dot(node, |s.updates|)));
      case RemoveStep(r, k) =>
        LogKeepsInv(s, r, RemoveUpdate(k, at.history), AfterRemove(at.state, k));
      case SendStep(_) =>
      case DeliverStep(r, m) =>
        if m < |s.sent| {
          MergeKeepsConsistent(s.updates, at, s.sent[m]);
        }
    }
  }

  lemma LogKeepsInv(s: System, r: nat, u: Update, after: State)
    requires Inv(s) && r < |s.replicas|
    requires u.past == s.replicas[r].history && (u.PutUpdate? ==> u.dot.uuid == |s.updates|)
    requires after == if u.PutUpdate? then AfterPut(s.replicas[r].state, u.key, u.value, u.dot)
                      else AfterRemove(s.replicas[r].state, u.key)
    ensures Inv(System(s.replicas[r := Replica(after, u.past + {|s.updates|})], s.sent, s.updates + [u]))
  {
    hide Consistent, AfterPut, AfterRemove;
    forall q | 0 <= q < |s.replicas| { LoggingKeepsConsistent(s.updates, u, s.replicas[q]); }
    forall m | 0 <= m < |s.sent| { LoggingKeepsConsistent(s.updates, u, s.sent[m]); }
    UpdateKeepsConsistent(s.updates, u, s.replicas[r], after);
  }

  lemma {:induction false} RunKeepsInv(n: nat, steps: seq<Step>)
    ensures Inv(Run(n, steps)) && |Run(n, steps).replicas| == n
  {
    if steps == [] {
      assert Consistent([], Replica(EMPTY, {}));
    } else {
      RunKeepsInv(n, steps[..|steps| - 1]);
      NextKeepsInv(Run(n, steps[..|steps| - 1]), steps[|steps| - 1]);
    }
  }

  // ---------- the theorems ----------

  // A dot is live at a replica exactly when its put is in the replica's history and no put
  // or remove of the key in that history had observed it.
  lemma ObservedRemove(n: nat, steps: seq<Step>, r: nat, k: Key, d: Dot)
    requires r < n
    ensures var s := Run(n, steps);
      |s.replicas| == n &&
      (d in Live(s.replicas[r].state, k) <==>
       Minted(s.updates, s.replicas[r].history, k, d) && !Observed(s.updates, s.replicas[r].history, k, d))
  {
    RunKeepsInv(n, steps);
    var s := Run(n, steps);
    assert Consistent(s.updates, s.replicas[r]);
    assert d in Live(s.replicas[r].state, k) <==>
      d in Seen(s.replicas[r].state, k) && d !in Buried(s.replicas[r].state, k);
  }

  // Add wins: a put that no remove or put of the key in the history has seen keeps its key.
  lemma AddWins(n: nat, steps: seq<Step>, r: nat, i: nat)
    requires r < n && |Run(n, steps).replicas| == n
    requires i in Run(n, steps).replicas[r].history && i < |Run(n, steps).updates|
    requires Run(n, steps).updates[i].PutUpdate?
    requires var s := Run(n, steps);
      !Observed(s.updates, s.replicas[r].history, s.updates[i].key, s.updates[i].dot)
    ensures var s := Run(n, steps);
      && LiveEntry(s.replicas[r].state, s.updates[i].key, Entry(s.updates[i].dot, s.updates[i].value))
      && s.updates[i].key in ActiveKeys(s.replicas[r].state)
      && Lookup(s.replicas[r].state, s.updates[i].key).Some?
  {
    RunKeepsInv(n, steps);
    var s := Run(n, steps);
    var c, u := s.replicas[r], s.updates[i];
    assert Consistent(s.updates, c);
    ObservedRemove(n, steps, r, u.key, u.dot);
    var e :| e in Listed(c.state, u.key) && e.dot == u.dot;
    ReadsAreLive(c.state, u.key);
  }

  // A read returns the value of a put in the history that nothing there has observed, and
  // finds one exactly when there is one.
  lemma ReadsAreUnobservedPuts(n: nat, steps: seq<Step>, r: nat, k: Key)
    requires r < n
    ensures var s := Run(n, steps);
      |s.replicas| == n &&
      var c := s.replicas[r];
      && (k in ActiveKeys(c.state) <==>
            exists d :: Minted(s.updates, c.history, k, d) && !Observed(s.updates, c.history, k, d))
      && (Lookup(c.state, k).Some? <==> k in ActiveKeys(c.state))
      && (Lookup(c.state, k).Some? ==> exists d ::
            Minted(s.updates, c.history, k, d) && !Observed(s.updates, c.history, k, d)
            && Lookup(c.state, k).value == s.updates[d.uuid].value)
  {
    RunKeepsInv(n, steps);
    var s := Run(n, steps);
    var c := s.replicas[r];
    assert Consistent(s.updates, c);
    forall d { ObservedRemove(n, steps, r, k, d); }
    hide Consistent, Live, Lookup, ActiveKeys;
    ReadsAreLive(c.state, k);
    if Live(c.state, k) != {} {
      var d :| d in Live(c.state, k);
    }
    if Lookup(c.state, k).Some? {
      var e :| LiveEntry(c.state, k, e) && Lookup(c.state, k) == Some(e.value);
      LiveEntryIsLive(c.state, k, e);
      EntryTellsTruth(s.updates, c, k, e);
    }
  }

  lemma LiveEntryIsLive(s: State, k: Key, e: Entry)
    requires LiveEntry(s, k, e)
    ensures e.dot in Live(s, k)
  {
  }

  lemma EntryTellsTruth(us: seq<Update>, c: Replica, k: Key, e: Entry)
    requires Consistent(us, c) && LiveEntry(c.state, k, e)
    ensures e.dot.uuid < |us| && us[e.dot.uuid].PutUpdate? && us[e.dot.uuid].value == e.value
  {
  }

  // Strong eventual consistency: the same history means the same live entries and keys,
  // and the same value wherever a key has a single live dot.
  lemma SameHistorySameMap(n: nat, steps: seq<Step>, r: nat, q: nat)
    requires r < n && q < n && |Run(n, steps).replicas| == n
    requires Run(n, steps).replicas[r].history == Run(n, steps).replicas[q].history
    ensures var a, b := Run(n, steps).replicas[r].state, Run(n, steps).replicas[q].state;
      && ActiveKeys(a) == ActiveKeys(b)
      && forall k :: Live(a, k) == Live(b, k)
           && (forall e :: LiveEntry(a, k, e) <==> LiveEntry(b, k, e))
           && (|Live(a, k)| <= 1 ==> Lookup(a, k) == Lookup(b, k))
  {
    var s := Run(n, steps);
    var a, b := s.replicas[r].state, s.replicas[q].state;
    RunKeepsInv(n, steps);
    assert Consistent(s.updates, s.replicas[r]) && Consistent(s.updates, s.replicas[q]);
    forall k
      ensures Live(a, k) == Live(b, k) && (k in ActiveKeys(a) <==> k in ActiveKeys(b))
      ensures forall e :: LiveEntry(a, k, e) <==> LiveEntry(b, k, e)
      ensures |Live(a, k)| <= 1 ==> Lookup(a, k) == Lookup(b, k)
    {
      forall d ensures d in Live(a, k) <==> d in Live(b, k) {
        ObservedRemove(n, steps, r, k, d);
        ObservedRemove(n, steps, q, k, d);
      }
      LiveEntriesAgree(s.updates, a, b, k);
      ReadsAreLive(a, k);
      ReadsAreLive(b, k);
      if |Live(a, k)| <= 1 && Lookup(a, k).Some? {
        var e :| LiveEntry(a, k, e) && Lookup(a, k) == Some(e.value);
        var f :| LiveEntry(b, k, f) && Lookup(b, k) == Some(f.value);
        OneMember(Live(a, k), e.dot, f.dot);
      }
    }
  }

  lemma LiveEntriesAgree(us: seq<Update>, a: State, b: State, k: Key)
    requires Truthful(us, a) && Truthful(us, b) && Live(a, k) == Live(b, k)
    ensures forall e :: LiveEntry(a, k, e) <==> LiveEntry(b, k, e)
  {
    forall e ensures LiveEntry(a, k, e) <==> LiveEntry(b, k, e) {
      if LiveEntry(a, k, e) {
        assert e.dot in Live(b, k);
        var f :| f in Listed(b, k) && f.dot == e.dot;
        assert f == e;
      }
      if LiveEntry(b, k, e) {
        assert e.dot in Live(a, k);
        var f :| f in Listed(a, k) && f.dot == e.dot;
        assert f == e;
      }
    }
  }

  lemma OneMember<T>(s: set<T>, x: T, y: T)
    requires |s| <= 1 && x in s && y in s
    ensures x == y
  {
    var rest := s - {x};
    assert |rest| == |s| - 1;
    assert rest == {};
  }

  // With two live dots the order of arrival decides the read: two replicas that put the
  // same key apart and then exchange snapshots agree on it exactly when the values are equal.
  lemma ConcurrentPutsReadApart(k: Key, v: Value, w: Value, d: Dot, e: Dot)
    requires d != e
    ensures var a, b := AfterPut(EMPTY, k, v, d), AfterPut(EMPTY, k, w, e);
      && Same(Merged(a, b), Merged(b, a))
      && Lookup(Merged(a, b), k) == Some(w) && Lookup(Merged(b, a), k) == Some(v)
      && (Lookup(Merged(a, b), k) == Lookup(Merged(b, a), k) <==> v == w)
  {
    hide *;
    var a, b := AfterPut(EMPTY, k, v, d), AfterPut(EMPTY, k, w, e);
    FirstPut(k, v, d);
    FirstPut(k, w, e);
    MergeLaws(a, b, a);
    MergedAt(a, b, k);
    MergedAt(b, a, k);
    TwoLiveEntries(Entry(d, v), Entry(e, w));
    TwoLiveEntries(Entry(e, w), Entry(d, v));
    LookupIsLast(Merged(a, b), k);
    LookupIsLast(Merged(b, a), k);
  }

  lemma FirstPut(k: Key, v: Value, d: Dot)
    ensures Listed(AfterPut(EMPTY, k, v, d), k) == [Entry(d, v)] && Buried(AfterPut(EMPTY, k, v, d), k) == {}
  {
  }

  lemma LookupIsLast(s: State, k: Key)
    ensures Listed(s, k) != [] ==> Lookup(s, k) == Some(Listed(s, k)[|Listed(s, k)| - 1].value)
  {
  }

  lemma TwoLiveEntries(x: Entry, y: Entry)
    requires x.dot != y.dot
    ensures Purge(Absorb([x], [y], {} + {}), {} + {}) == [x, y]
  {
    var none: set<Dot> := {} + {};
    assert [y][..0] == [] && [x, y][..1] == [x] && [x][..0] == [];
    assert Absorb([x], [y][..0], none) == [x];
    assert Absorb([x], [y], none) == [x, y];
    assert Purge([x][..0], none) == [];
    assert Purge([x], none) == Purge([x, y][..1], none) == [x];
  }

  // ---------- runs go somewhere ----------

  lemma RunTwo(n: nat, steps: seq<Step>, a: Step, b: Step)
    ensures Run(n, steps + [a]) == Next(Run(n, steps), a)
    ensures Run(n, steps + [a, b]) == Next(Next(Run(n, steps), a), b)
  {
    assert (steps + [a])[..|steps|] == steps;
    assert (steps + [a, b])[..|steps| + 1] == steps + [a];
  }

  // From every state a replica can put and remove, what it then has seen is logged with the
  // update, and any replica can be brought to know all that another knows.
  lemma RunsProceed(n: nat, steps: seq<Step>, r: nat, q: nat, k: Key, v: Value, node: string)
    requires r < n && q < n
    ensures |Run(n, steps).replicas| == n
    ensures var s, t := Run(n, steps), Run(n, steps + [PutStep(r, k, v, node)]);
      && t.updates == s.updates + [PutUpdate(k, Dot(node, |s.updates|), v, s.replicas[r].history)]
      && |t.replicas| == n && t.replicas[r].history == s.replicas[r].history + {|s.updates|}
    ensures var s, t := Run(n, steps), Run(n, steps + [RemoveStep(r, k)]);
      && t.updates == s.updates + [RemoveUpdate(k, s.replicas[r].history)]
      && |t.replicas| == n && t.replicas[r].history == s.replicas[r].history + {|s.updates|}
    ensures var s := Run(n, steps);
      var t := Run(n, steps + [SendStep(r), DeliverStep(q, |s.sent|)]);
      && t.updates == s.updates
      && |t.replicas| == n && t.replicas[q].history == s.replicas[q].history + s.replicas[r].history
  {
    hide *;
    var s := Run(n, steps);
    RunKeepsInv(n, steps);
    RunTwo(n, steps, PutStep(r, k, v, node), SendStep(r));
    RunTwo(n, steps, RemoveStep(r, k), SendStep(r));
    RunTwo(n, steps, SendStep(r), DeliverStep(q, |s.sent|));
    UpdatesHappen(s, r, k, v, node);
    ExchangeHappens(s, r, q);
  }

  lemma UpdatesHappen(s: System, r: nat, k: Key, v: Value, node: string)
    requires r < |s.replicas|
    ensures var t := Next(s, PutStep(r, k, v, node));
      && t.updates == s.updates + [PutUpdate(k, Dot(node, |s.updates|), v, s.replicas[r].history)]
      && |t.replicas| == |s.replicas| && t.replicas[r].history == s.replicas[r].history + {|s.updates|}
    ensures var t := Next(s, RemoveStep(r, k));
      && t.updates == s.updates + [RemoveUpdate(k, s.replicas[r].history)]
      && |t.replicas| == |s.replicas| && t.replicas[r].history == s.replicas[r].history + {|s.updates|}
  {
    hide AfterPut, AfterRemove;
  }

  lemma ExchangeHappens(s: System, r: nat, q: nat)
    requires r < |s.replicas| && q < |s.replicas|
    ensures var t := Next(Next(s, SendStep(r)), DeliverStep(q, |s.sent|));
      && t.updates == s.updates && |t.replicas| == |s.replicas|
      && t.replicas[q].history == s.replicas[q].history + s.replicas[r].history
  {
    hide Merged;
  }
}

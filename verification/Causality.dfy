/** Vector clocks characterise causality, in every trace of processes that increment their
    own entry at each event and merge the stamp of a received message first. */
module Causality {
  import opened Common
  import opened NodeCounts
  import opened VectorClocks

  // An event of a process; `heard` is the event whose message it receives, if any. A message
  // may be received any number of times, late, or not at all.
  datatype Event = Event(process: Node, heard: Option<nat>)

  type Trace = seq<Event>

  ghost predicate Hears(tr: Trace, g: nat, f: nat) {
    g < f < |tr| && tr[f].heard == Some(g)
  }

  // ---------- the run ----------

  // The clock a process holds after the first n events of the trace.
  function ClockOf(tr: Trace, p: Node, n: nat): Clock
    requires n <= |tr|
    decreases n, 0
  {
    if n == 0 then map[]
    else if tr[n - 1].process == p then Stamp(tr, n - 1)
    else ClockOf(tr, p, n - 1)
  }

  function Stamp(tr: Trace, i: nat): Clock
    requires i < |tr|
    decreases i, 1
  {
    var p := tr[i].process;
    var known := ClockOf(tr, p, i);
    var told :=
      if tr[i].heard.Some? && tr[i].heard.value < i then Merged(known, Stamp(tr, tr[i].heard.value)) else known;
    Incremented(told, p)
  }

  // ---------- causality, without clocks ----------

  ghost predicate Direct(tr: Trace, e: nat, f: nat) {
    e < f < |tr| && (tr[e].process == tr[f].process || Hears(tr, e, f))
  }

  ghost predicate Precedes(tr: Trace, e: nat, f: nat)
    decreases f
  {
    Direct(tr, e, f) || exists g: nat :: e < g < f && Direct(tr, g, f) && Precedes(tr, e, g)
  }

  // Events of a process among the first n.
  ghost function Count(tr: Trace, p: Node, n: nat): nat
    requires n <= |tr|
  {
    if n == 0 then 0 else Count(tr, p, n - 1) + if tr[n - 1].process == p then 1 else 0
  }

  lemma {:induction false} CountGrows(tr: Trace, p: Node, m: nat, n: nat)
    requires m <= n <= |tr|
    ensures Count(tr, p, m) <= Count(tr, p, n)
    ensures m < n && tr[n - 1].process == p ==> Count(tr, p, m) < Count(tr, p, n)
  {
    if m < n {
      CountGrows(tr, p, m, n - 1);
    }
  }

  // ---------- what stamps hold ----------

  // A process knows all its own events and no more events of others than there are.
  lemma {:induction false} ClockCounts(tr: Trace, p: Node, q: Node, n: nat)
    requires n <= |tr|
    ensures Counted(ClockOf(tr, p, n))
    ensures At(ClockOf(tr, p, n), q) <= Count(tr, q, n)
    ensures At(ClockOf(tr, p, n), p) == Count(tr, p, n)
    decreases n, 0
  {
    if n > 0 {
      if tr[n - 1].process == p {
        StampCounts(tr, n - 1, q);
        StampCounts(tr, n - 1, p);
      } else {
        ClockCounts(tr, p, q, n - 1);
      }
    }
  }

  lemma {:induction false} StampCounts(tr: Trace, i: nat, q: Node)
    requires i < |tr|
    ensures Counted(Stamp(tr, i))
    ensures At(Stamp(tr, i), q) <= Count(tr, q, i + 1)
    ensures At(Stamp(tr, i), tr[i].process) == Count(tr, tr[i].process, i + 1)
    decreases i, 1
  {
    var p := tr[i].process;
    ClockCounts(tr, p, q, i);
    if tr[i].heard.Some? && tr[i].heard.value < i {
      var g := tr[i].heard.value;
      StampCounts(tr, g, q);
      StampCounts(tr, g, p);
      CountGrows(tr, q, g + 1, i);
      CountGrows(tr, p, g + 1, i);
      OperationsKeepCounted(ClockOf(tr, p, i), Stamp(tr, g), p);
      MergedAt(ClockOf(tr, p, i), Stamp(tr, g), q);
      MergedAt(ClockOf(tr, p, i), Stamp(tr, g), p);
    }
  }

  lemma StampIs(tr: Trace, i: nat, q: Node)
    requires i < |tr|
    ensures var p := tr[i].process;
      At(Stamp(tr, i), q) ==
        (if tr[i].heard.Some? && tr[i].heard.value < i
         then Max(At(ClockOf(tr, p, i), q), At(Stamp(tr, tr[i].heard.value), q))
         else At(ClockOf(tr, p, i), q)) + if q == p then 1 else 0
  {
    var p := tr[i].process;
    ClockCounts(tr, p, q, i);
    if tr[i].heard.Some? && tr[i].heard.value < i {
      StampCounts(tr, tr[i].heard.value, q);
      MergedAt(ClockOf(tr, p, i), Stamp(tr, tr[i].heard.value), q);
    }
  }

  // A clock is the stamp of the process's latest event.
  lemma {:induction false} LatestStamp(tr: Trace, p: Node, n: nat) returns (g: nat)
    requires n <= |tr| && ClockOf(tr, p, n) != map[]
    ensures g < n && tr[g].process == p && ClockOf(tr, p, n) == Stamp(tr, g)
  {
    if tr[n - 1].process == p {
      g := n - 1;
    } else {
      g := LatestStamp(tr, p, n - 1);
    }
  }

  lemma {:induction false} ClockKeepsStamp(tr: Trace, e: nat, n: nat, q: Node)
    requires e < n <= |tr|
    ensures At(Stamp(tr, e), q) <= At(ClockOf(tr, tr[e].process, n), q)
    decreases n
  {
    if e < n - 1 {
      ClockKeepsStamp(tr, e, n - 1, q);
      if tr[n - 1].process == tr[e].process {
        StampIs(tr, n - 1, q);
      }
    }
  }

  lemma DirectGrows(tr: Trace, e: nat, f: nat, q: Node)
    requires Direct(tr, e, f)
    ensures At(Stamp(tr, e), q) <= At(Stamp(tr, f), q)
  {
    StampIs(tr, f, q);
    if tr[e].process == tr[f].process {
      ClockKeepsStamp(tr, e, f, q);
    }
  }

  lemma {:induction false} PrecedesGrows(tr: Trace, e: nat, f: nat, q: Node)
    requires Precedes(tr, e, f)
    ensures e < f < |tr| && At(Stamp(tr, e), q) <= At(Stamp(tr, f), q)
    decreases f
  {
    if Direct(tr, e, f) {
      DirectGrows(tr, e, f, q);
    } else {
      var g: nat :| e < g < f && Direct(tr, g, f) && Precedes(tr, e, g);
      PrecedesGrows(tr, e, g, q);
      DirectGrows(tr, g, f, q);
    }
  }

  // Only a causal successor of e (or e itself) can know of e.
  lemma {:induction false} KnowingIsFollowing(tr: Trace, e: nat, f: nat)
    requires e < |tr| && f < |tr|
    requires At(Stamp(tr, f), tr[e].process) >= Count(tr, tr[e].process, e + 1)
    ensures e == f || Precedes(tr, e, f)
    decreases f
  {
    var p := tr[e].process;
    var c := Count(tr, p, e + 1);
    StampCounts(tr, f, p);
    if tr[f].process == p {
      if f < e {
        CountGrows(tr, p, f + 1, e + 1);
      }
    } else {
      StampIs(tr, f, p);
      var known := ClockOf(tr, tr[f].process, f);
      if At(known, p) >= c {
        var g := LatestStamp(tr, tr[f].process, f);
        FollowThrough(tr, e, g, f);
      } else {
        FollowThrough(tr, e, tr[f].heard.value, f);
      }
    }
  }

  lemma FollowThrough(tr: Trace, e: nat, g: nat, f: nat)
    requires e < |tr| && f < |tr| && Direct(tr, g, f)
    requires At(Stamp(tr, g), tr[e].process) >= Count(tr, tr[e].process, e + 1)
    ensures Precedes(tr, e, f)
    decreases f, 0
  {
    KnowingIsFollowing(tr, e, g);
    if e != g {
      PrecedesGrows(tr, e, g, "");
    }
  }

  // ---------- the theorem ----------

  // Event e causally precedes event f exactly when its stamp happens before the other, and
  // distinct events are causally unrelated exactly when their stamps are concurrent.
  lemma ClocksCharacteriseCausality(tr: Trace, e: nat, f: nat)
    requires e < |tr| && f < |tr|
    ensures Precedes(tr, e, f) <==> Before(Stamp(tr, e), Stamp(tr, f))
    ensures e != f ==> (!Precedes(tr, e, f) && !Precedes(tr, f, e) <==> Concurrent(Stamp(tr, e), Stamp(tr, f)))
  {
    PrecedesIffBefore(tr, e, f);
    PrecedesIffBefore(tr, f, e);
  }

  lemma PrecedesIffBefore(tr: Trace, e: nat, f: nat)
    requires e < |tr| && f < |tr|
    ensures Precedes(tr, e, f) <==> Before(Stamp(tr, e), Stamp(tr, f))
  {
    var p, q := tr[e].process, tr[f].process;
    hide Before, Stamp, Precedes;
    StampCounts(tr, e, p);
    StampCounts(tr, f, p);
    BeforeIsStrictlyBelow(Stamp(tr, e), Stamp(tr, f));
    if Precedes(tr, e, f) {
      forall n { PrecedesGrows(tr, e, f, n); }
      StampCounts(tr, e, q);
      StampCounts(tr, f, q);
      PrecedesGrows(tr, e, f, q);
      CountGrows(tr, q, e + 1, f + 1);
    }
    if Before(Stamp(tr, e), Stamp(tr, f)) {
      assert At(Stamp(tr, e), p) <= At(Stamp(tr, f), p);
      KnowingIsFollowing(tr, e, f);
    }
  }
}

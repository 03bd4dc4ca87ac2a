/** Runs of last-writer-wins registers: replica r writes under its own name with a timestamp
    above the one it holds, and snapshots may be lost, repeated, reordered and delayed. */
module RegisterRuns {
  import opened Common
  import opened Registers

  // A write is logged as the register state it made.
  datatype Replica = Replica(register: State, history: set<nat>)

  datatype System = System(replicas: seq<Replica>, sent: seq<Replica>, writes: seq<State>)

  datatype Step =
    | WriteStep(replica: nat, value: Value, timestamp: real)
    | SendStep(replica: nat)
    | DeliverStep(replica: nat, snapshot: nat)

  function Start(names: seq<Node>): System {
    System(seq(|names|, i requires 0 <= i < |names| => Replica(State(None, 0.0, names[i]), {})), [], [])
  }

  function Next(names: seq<Node>, s: System, step: Step): System
    requires |s.replicas| == |names|
  {
    if step.replica >= |names| then s
    else
      var r := step.replica;
      var at := s.replicas[r];
      match step
      case WriteStep(_, v, ts) =>
        if ts <= at.register.timestamp then s
        else
          var written := AfterSet(at.register, v, ts, Some(names[r]));
          System(
            s.replicas[r := Replica(written, at.history + {|s.writes|})],
            s.sent,
            s.writes + [written])
      case SendStep(_) => s.(sent := s.sent + [at])
      case DeliverStep(_, m) =>
        if m >= |s.sent| then s
        else
          var msg := s.sent[m];
          s.(replicas := s.replicas[r := Replica(Merged(at.register, msg.register), at.history + msg.history)])
  }

  function Run(names: seq<Node>, steps: seq<Step>): (s: System)
    ensures |s.replicas| == |names|
  {
    if steps == [] then Start(names) else Next(names, Run(names, steps[..|steps| - 1]), steps[|steps| - 1])
  }

  // ---------- the specification and the invariant ----------

  // The register is the newest write of the history, or still blank when there is none.
  ghost predicate HoldsNewest(ws: seq<State>, c: Replica) {
    && (forall i :: i in c.history ==> i < |ws| && !Older(c.register, ws[i]))
    && (c.history == {} ==> c.register.value == None && c.register.timestamp == 0.0)
    && (c.history != {} ==> exists i :: i in c.history && i < |ws| && c.register == ws[i])
  }

  ghost predicate UniqueStamps(ws: seq<State>) {
    forall i, j :: 0 <= i < j < |ws| ==> !SameStamp(ws[i], ws[j])
  }

  ghost predicate OwnWritesBelow(ws: seq<State>, name: Node, c: Replica) {
    forall i :: 0 <= i < |ws| && ws[i].node == name ==> ws[i].timestamp <= c.register.timestamp
  }

  ghost predicate Inv(names: seq<Node>, s: System) {
    |s.replicas| == |names|
    && UniqueStamps(s.writes)
    && (forall i :: 0 <= i < |s.writes| ==> s.writes[i].timestamp > 0.0)
    && (forall r :: 0 <= r < |names| ==>
          HoldsNewest(s.writes, s.replicas[r]) && OwnWritesBelow(s.writes, names[r], s.replicas[r])
          && s.replicas[r].register.timestamp >= 0.0)
    && (forall m :: 0 <= m < |s.sent| ==> HoldsNewest(s.writes, s.sent[m]))
  }

  // ---------- every step keeps it ----------

  lemma LoggingKeepsNewest(ws: seq<State>, w: State, c: Replica)
    requires HoldsNewest(ws, c)
    ensures HoldsNewest(ws + [w], c)
  {
  }

  lemma WritingHoldsNewest(ws: seq<State>, w: State, c: Replica)
    requires HoldsNewest(ws, c) && w.timestamp > c.register.timestamp
    ensures HoldsNewest(ws + [w], Replica(w, c.history + {|ws|}))
  {
    var vs, h := ws + [w], c.history + {|ws|};
    assert vs[|ws|] == w && |ws| in h;
    forall i | i in h ensures i < |vs| && !Older(w, vs[i]) {
      OlderIsStrictTotal(w, w, w);
      if i < |ws| {
        assert !Older(c.register, ws[i]);
      }
    }
  }

  lemma MergingHoldsNewest(ws: seq<State>, a: Replica, b: Replica)
    requires HoldsNewest(ws, a) && HoldsNewest(ws, b)
    requires forall i :: 0 <= i < |ws| ==> ws[i].timestamp > 0.0
    ensures HoldsNewest(ws, Replica(Merged(a.register, b.register), a.history + b.history))
  {
    var m, h := Merged(a.register, b.register), a.history + b.history;
    forall i | i in h ensures i < |ws| && !Older(m, ws[i]) {
      OlderIsStrictTotal(a.register, b.register, ws[i]);
      OlderIsStrictTotal(b.register, a.register, ws[i]);
    }
    if h != {} {
      // A blank register is older than any write.
      OlderIsStrictTotal(a.register, b.register, a.register);
      var c := if a.history == {} || (b.history != {} && Older(a.register, b.register)) then b else a;
      var i :| i in c.history && i < |ws| && c.register == ws[i];
      assert m == c.register && i in h;
    }
  }

  lemma NextKeepsInv(names: seq<Node>, s: System, step: Step)
    requires Distinct(names) && Inv(names, s)
    ensures Inv(names, Next(names, s, step))
  {
    hide HoldsNewest, Older, Less;
    if step.replica < |names| {
      var r := step.replica;
      match step
      case WriteStep(_, v, ts) =>
        if ts > s.replicas[r].register.timestamp {
          var w := AfterSet(s.replicas[r].register, v, ts, Some(names[r]));
          WritingHoldsNewest(s.writes, w, s.replicas[r]);
          forall q | 0 <= q < |names| { LoggingKeepsNewest(s.writes, w, s.replicas[q]); }
          forall m | 0 <= m < |s.sent| { LoggingKeepsNewest(s.writes, w, s.sent[m]); }
        }
      case SendStep(_) =>
      case DeliverStep(_, m) =>
        if m < |s.sent| {
          MergingHoldsNewest(s.writes, s.replicas[r], s.sent[m]);
          MergedTimestamp(s.replicas[r].register, s.sent[m].register);
        }
    }
  }

  lemma MergedTimestamp(a: State, b: State)
    ensures Merged(a, b).timestamp >= a.timestamp && Merged(a, b).timestamp >= b.timestamp
  {
  }

  lemma {:induction false} RunKeepsInv(names: seq<Node>, steps: seq<Step>)
    requires Distinct(names)
    ensures Inv(names, Run(names, steps))
  {
    if steps != [] {
      RunKeepsInv(names, steps[..|steps| - 1]);
      NextKeepsInv(names, Run(names, steps[..|steps| - 1]), steps[|steps| - 1]);
    }
  }

  // ---------- the theorems ----------

  // No two writes of a run share a stamp, although every replica picks its own timestamps.
  lemma StampsAreUnique(names: seq<Node>, steps: seq<Step>, i: nat, j: nat)
    requires Distinct(names)
    requires i < |Run(names, steps).writes| && j < |Run(names, steps).writes|
    requires SameStamp(Run(names, steps).writes[i], Run(names, steps).writes[j])
    ensures i == j
  {
    RunKeepsInv(names, steps);
  }

  // A step never makes a register older.
  lemma StampsNeverDecrease(names: seq<Node>, s: System, step: Step, r: nat)
    requires |s.replicas| == |names| && r < |names|
    ensures |Next(names, s, step).replicas| == |names|
    ensures !Older(Next(names, s, step).replicas[r].register, s.replicas[r].register)
  {
    var before, after := s.replicas[r].register, Next(names, s, step).replicas[r].register;
    OlderIsStrictTotal(before, after, before);
    OlderIsStrictTotal(before, before, before);
  }

  // Each register holds the newest write of its causal history, and only that one.
  lemma RegisterHoldsNewestWrite(names: seq<Node>, steps: seq<Step>, r: nat)
    requires Distinct(names) && r < |names|
    ensures var s := Run(names, steps);
      var c := s.replicas[r];
      && HoldsNewest(s.writes, c)
      && forall i :: i in c.history && s.writes[i] != c.register ==> Older(s.writes[i], c.register)
  {
    RunKeepsInv(names, steps);
    var s := Run(names, steps);
    var c := s.replicas[r];
    forall i | i in c.history && s.writes[i] != c.register ensures Older(s.writes[i], c.register) {
      OlderIsStrictTotal(s.writes[i], c.register, c.register);
      var j :| j in c.history && j < |s.writes| && c.register == s.writes[j];
      assert i != j;
    }
  }

  lemma SameHistorySameRegister(names: seq<Node>, steps: seq<Step>, r: nat, q: nat)
    requires Distinct(names) && r < |names| && q < |names|
    requires Run(names, steps).replicas[r].history == Run(names, steps).replicas[q].history
    ensures var a, b := Run(names, steps).replicas[r], Run(names, steps).replicas[q];
      && a.register.value == b.register.value && a.register.timestamp == b.register.timestamp
      && (a.history != {} ==> a.register == b.register)
  {
    RunKeepsInv(names, steps);
    var s := Run(names, steps);
    var a, b := s.replicas[r], s.replicas[q];
    if a.history != {} {
      RegisterHoldsNewestWrite(names, steps, r);
      RegisterHoldsNewestWrite(names, steps, q);
      var i :| i in a.history && i < |s.writes| && a.register == s.writes[i];
      var j :| j in b.history && j < |s.writes| && b.register == s.writes[j];
      OlderIsStrictTotal(a.register, b.register, a.register);
    }
  }

  // The name matters: a register that has merged another's write and then sets without one
  // writes under the other's name. If the other also writes at that time the stamps are the
  // same, and the two agree after merging exactly when they wrote the same value.
  lemma SettingWithoutNodeCollides(mine: State, theirs: State, v: Value, w: Value, timestamp: real)
    requires Older(mine, theirs)
    ensures var a := AfterSet(Merged(mine, theirs), v, timestamp, None);
      var b := AfterSet(theirs, w, timestamp, None);
      SameStamp(a, b) && (Merged(a, b) == Merged(b, a) <==> v == w)
  {
  }

  // ---------- runs go somewhere ----------

  lemma RunTwo(names: seq<Node>, steps: seq<Step>, a: Step, b: Step)
    ensures Run(names, steps + [a]) == Next(names, Run(names, steps), a)
    ensures Run(names, steps + [a, b]) == Next(names, Next(names, Run(names, steps), a), b)
  {
    assert (steps + [a])[..|steps|] == steps;
    assert (steps + [a, b])[..|steps| + 1] == steps + [a];
  }

  // From every state a replica can write any value at a later time, which is logged under its name, and
  // any replica can be brought to know all that another knows.
  lemma RunsProceed(names: seq<Node>, steps: seq<Step>, r: nat, q: nat, value: Value, timestamp: real)
    requires r < |names| && q < |names|
    requires timestamp > Run(names, steps).replicas[r].register.timestamp
    ensures var s, t := Run(names, steps), Run(names, steps + [WriteStep(r, value, timestamp)]);
      && t.writes == s.writes + [State(Some(value), timestamp, names[r])]
      && t.replicas[r].history == s.replicas[r].history + {|s.writes|}
    ensures var s := Run(names, steps);
      var t := Run(names, steps + [SendStep(r), DeliverStep(q, |s.sent|)]);
      && t.writes == s.writes && t.replicas[q].history == s.replicas[q].history + s.replicas[r].history
  {
    RunTwo(names, steps, WriteStep(r, value, timestamp), SendStep(r));
    RunTwo(names, steps, SendStep(r), DeliverStep(q, |Run(names, steps).sent|));
    hide Run, Merged;
  }
}

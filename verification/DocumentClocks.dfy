/** Clocks of one store, in every sequence of local edits and deliveries since it was
    created or cleared: valid and invalid edits, any operation delivered any number of times. */
module DocumentClocks {
  import opened Common
  import opened DocumentStore

  datatype Step = Edit(command: Command) | Deliver(op: Operation)

  function Next(d: Doc, step: Step): Doc {
    match step
    case Edit(c) => AfterLocal(d, c)
    case Deliver(op) => AfterRemote(d, op)
  }

  function Run(initial: Text, steps: seq<Step>): Doc {
    if steps == [] then NewDoc(initial) else Next(Run(initial, steps[..|steps| - 1]), steps[|steps| - 1])
  }

  // The clock of the operation a step issues or accepts in a state, if it does either.
  function Stamp(d: Doc, step: Step): Option<int> {
    match step
    case Edit(c) => if Valid(d.content, c) then Some(Issued(d, c).clock) else None
    case Deliver(op) => if Fresh(d, op) then Some(op.clock) else None
  }

  ghost predicate UserClocksBelow(d: Doc) {
    d.time >= 0 && forall u :: u in d.userClocks ==> d.userClocks[u] < d.time
  }

  lemma NextMovesClocks(d: Doc, step: Step)
    ensures Next(d, step).time >= d.time
    ensures forall u :: UserTime(Next(d, step), u) >= UserTime(d, u)
    ensures Stamp(d, step).Some? ==> Stamp(d, step).value <= Next(d, step).time
    ensures UserClocksBelow(d) ==> UserClocksBelow(Next(d, step))
  {
  }

  lemma {:induction false} LaterIsNoLess(initial: Text, steps: seq<Step>, i: nat, user: User)
    requires i <= |steps|
    ensures Run(initial, steps[..i]).time <= Run(initial, steps).time
    ensures UserTime(Run(initial, steps[..i]), user) <= UserTime(Run(initial, steps), user)
  {
    if i == |steps| {
      assert steps[..i] == steps;
    } else {
      var before := steps[..|steps| - 1];
      assert steps[..i] == before[..i];
      LaterIsNoLess(initial, before, i, user);
      NextMovesClocks(Run(initial, before), steps[|steps| - 1]);
    }
  }

  lemma {:induction false} ClocksStayBelow(initial: Text, steps: seq<Step>)
    ensures UserClocksBelow(Run(initial, steps))
  {
    if steps != [] {
      ClocksStayBelow(initial, steps[..|steps| - 1]);
      NextMovesClocks(Run(initial, steps[..|steps| - 1]), steps[|steps| - 1]);
    }
  }

  lemma AfterStep(initial: Text, steps: seq<Step>, i: nat)
    requires i < |steps|
    ensures Run(initial, steps[..i + 1]) == Next(Run(initial, steps[..i]), steps[i])
  {
    assert steps[..i + 1][..i] == steps[..i];
  }

  // A locally issued operation is stamped above every operation the store issued or
  // accepted before, and above every user clock it holds.
  lemma LamportCondition(initial: Text, steps: seq<Step>, i: nat, j: nat)
    requires i < j < |steps| && steps[j].Edit?
    requires Stamp(Run(initial, steps[..i]), steps[i]).Some?
    requires Stamp(Run(initial, steps[..j]), steps[j]).Some?
    ensures Stamp(Run(initial, steps[..i]), steps[i]).value < Stamp(Run(initial, steps[..j]), steps[j]).value
    ensures UserClocksBelow(Run(initial, steps[..j]))
    ensures forall u :: u in Run(initial, steps[..j]).userClocks ==>
      Run(initial, steps[..j]).userClocks[u] < Stamp(Run(initial, steps[..j]), steps[j]).value
  {
    ClocksStayBelow(initial, steps[..j]);
    AfterStep(initial, steps, i);
    NextMovesClocks(Run(initial, steps[..i]), steps[i]);
    assert steps[..j][..i + 1] == steps[..i + 1];
    LaterIsNoLess(initial, steps[..j], i + 1, "");
  }

  // Of one user's operations, those a store accepts have strictly increasing clocks.
  lemma AcceptedClocksIncrease(initial: Text, steps: seq<Step>, i: nat, j: nat)
    requires i < j < |steps| && steps[i].Deliver? && steps[j].Deliver? && steps[i].op.user == steps[j].op.user
    requires Fresh(Run(initial, steps[..i]), steps[i].op) && Fresh(Run(initial, steps[..j]), steps[j].op)
    ensures steps[i].op.clock < steps[j].op.clock
  {
    AcceptedIsRemembered(initial, steps, i, j);
  }

  lemma AcceptedIsRemembered(initial: Text, steps: seq<Step>, i: nat, j: nat)
    requires i < j <= |steps| && steps[i].Deliver? && Fresh(Run(initial, steps[..i]), steps[i].op)
    ensures UserTime(Run(initial, steps[..j]), steps[i].op.user) >= steps[i].op.clock
  {
    AfterStep(initial, steps, i);
    assert steps[..j][..i + 1] == steps[..i + 1];
    LaterIsNoLess(initial, steps[..j], i + 1, steps[i].op.user);
  }

  // Once delivered, an operation delivered again, at any later time, changes nothing at all.
  lemma AppliedAtMostOnce(initial: Text, steps: seq<Step>, i: nat, j: nat)
    requires i < j <= |steps| && steps[i].Deliver?
    ensures var d := Run(initial, steps[..j]);
      AfterRemote(d, steps[i].op) == d && RemoteResult(d, steps[i].op) == None
  {
    if Fresh(Run(initial, steps[..i]), steps[i].op) {
      AcceptedIsRemembered(initial, steps, i, j);
    } else {
      assert steps[..j][..i] == steps[..i];
      LaterIsNoLess(initial, steps[..j], i, steps[i].op.user);
    }
  }
}

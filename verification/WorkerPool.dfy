/** asyncMap: workers that claim indices from a shared counter and call a mapper on each.

    A step is one uninterrupted stretch of one worker: claiming the next index and calling
    the mapper, or taking the mapper's answer. The original runs an answer and the next claim
    of the same worker without a break; here other workers may step in between, so every
    interleaving of the original is a run and so are some more. */
module WorkerPool {
  import opened Common

  type Item = string
  type Value = string
  type Error = string

  datatype Call = Call(item: Item, index: nat)

  // A busy worker awaits the answer to its call; a failed one was answered with an error.
  datatype Worker = Idle | Busy(call: Call) | Done | Failed(call: Call)

  // `results` has a key for each place filled; `error` is what the returned promise is
  // rejected with, the first error of a worker.
  datatype State = State(
    index: nat, workers: seq<Worker>, results: map<nat, Value>, calls: seq<Call>, error: Option<Error>)

  datatype Step = Claim(worker: nat) | Resolve(worker: nat) | Reject(worker: nat, reason: Error)

  // The mapper is called at most once per index, so its answers are a function.
  type Mapper = (Item, nat) -> Value

  function PoolSize(items: seq<Item>, concurrency: int): nat {
    if concurrency <= 0 then 0 else if concurrency < |items| then concurrency else |items|
  }

  function Start(items: seq<Item>, concurrency: int): State {
    State(0, seq(PoolSize(items, concurrency), _ => Idle), map[], [], None)
  }

  predicate Enabled(s: State, step: Step) {
    step.worker < |s.workers| && if step.Claim? then s.workers[step.worker].Idle? else s.workers[step.worker].Busy?
  }

  function Next(items: seq<Item>, mapper: Mapper, s: State, step: Step): State
    requires Enabled(s, step)
  {
    var w := step.worker;
    match step
    case Claim(_) =>
      if s.index < |items| then
        var call := Call(items[s.index], s.index);
        s.(index := s.index + 1, workers := s.workers[w := Busy(call)], calls := s.calls + [call])
      else s.(workers := s.workers[w := Done])
    case Resolve(_) =>
      var call := s.workers[w].call;
      s.(workers := s.workers[w := Idle], results := s.results[call.index := mapper(call.item, call.index)])
    case Reject(_, e) =>
      s.(workers := s.workers[w := Failed(s.workers[w].call)], error := if s.error.None? then Some(e) else s.error)
  }

  // ---------- what every reachable state satisfies ----------

  ghost predicate Holds(w: Worker, i: nat) {
    (w.Busy? || w.Failed?) && w.call.index == i
  }

  // The mapper has been called once per claimed index, in index order.
  ghost predicate CalledInOrder(items: seq<Item>, index: nat, calls: seq<Call>) {
    |calls| == index <= |items| && forall i :: 0 <= i < index ==> calls[i] == Call(items[i], i)
  }

  // A call in a worker's hands is one of those, and no two workers have the same.
  ghost predicate CallsHeld(calls: seq<Call>, ws: seq<Worker>, results: map<nat, Value>) {
    && (forall w :: 0 <= w < |ws| && (ws[w].Busy? || ws[w].Failed?) ==>
          ws[w].call.index < |calls| && ws[w].call == calls[ws[w].call.index] && ws[w].call.index !in results)
    && (forall v, w :: 0 <= v < w < |ws| && (ws[v].Busy? || ws[v].Failed?) ==> !Holds(ws[w], ws[v].call.index))
  }

  // Each call has its answer in the results or a worker waiting for it (or failed on it).
  ghost predicate CallsAccounted(calls: seq<Call>, ws: seq<Worker>, results: map<nat, Value>, mapper: Mapper) {
    && (forall i :: i in results ==> i < |calls| && results[i] == mapper(calls[i].item, calls[i].index))
    && (forall i :: 0 <= i < |calls| && i !in results ==> exists w :: 0 <= w < |ws| && Holds(ws[w], i))
  }

  ghost predicate Inv(items: seq<Item>, mapper: Mapper, s: State) {
    && CalledInOrder(items, s.index, s.calls)
    && CallsHeld(s.calls, s.workers, s.results)
    && CallsAccounted(s.calls, s.workers, s.results, mapper)
    && ((exists w :: 0 <= w < |s.workers| && s.workers[w].Done?) ==> s.index == |items|)
    && (s.error.Some? <==> exists w :: 0 <= w < |s.workers| && s.workers[w].Failed?)
  }

  lemma StartSatisfiesInv(items: seq<Item>, concurrency: int, mapper: Mapper)
    ensures Inv(items, mapper, Start(items, concurrency))
  {
  }

  lemma NextKeepsInv(items: seq<Item>, mapper: Mapper, s: State, step: Step)
    requires Inv(items, mapper, s) && Enabled(s, step)
    ensures Inv(items, mapper, Next(items, mapper, s, step))
  {
    var t, w := Next(items, mapper, s, step), step.worker;
    NextKeepsHeld(items, mapper, s, step);
    NextKeepsAccounted(items, mapper, s, step);
    hide CallsHeld, CallsAccounted;
    assert t.workers == s.workers[w := t.workers[w]];
    forall v | 0 <= v < |s.workers| && s.workers[v].Failed? ensures t.workers[v].Failed? {
      assert v != w;
    }
    assert step.Reject? ==> t.workers[w].Failed?;
  }

  lemma NextKeepsHeld(items: seq<Item>, mapper: Mapper, s: State, step: Step)
    requires CalledInOrder(items, s.index, s.calls) && CallsHeld(s.calls, s.workers, s.results)
    requires CallsAccounted(s.calls, s.workers, s.results, mapper) && Enabled(s, step)
    ensures var t := Next(items, mapper, s, step); CallsHeld(t.calls, t.workers, t.results)
  {
    hide CallsHeld;
    match step
    case Claim(w) =>
      if s.index < |items| {
        ClaimKeepsHeld(s.calls, s.workers, s.results, w, Call(items[s.index], s.index));
      } else {
        LettingGoKeepsHeld(s.calls, s.workers, s.results, w, Done);
      }
    case Resolve(w) =>
      var call := s.workers[w].call;
      ResolveKeepsHeld(s.calls, s.workers, s.results, w, mapper(call.item, call.index));
    case Reject(w, _) =>
      LettingGoKeepsHeld(s.calls, s.workers, s.results, w, Failed(s.workers[w].call));
  }

  lemma ClaimKeepsHeld(calls: seq<Call>, ws: seq<Worker>, results: map<nat, Value>, w: nat, call: Call)
    requires CallsHeld(calls, ws, results) && w < |ws| && ws[w].Idle?
    requires call.index == |calls| && forall i :: i in results ==> i < |calls|
    ensures CallsHeld(calls + [call], ws[w := Busy(call)], results)
  {
  }

  lemma LettingGoKeepsHeld(calls: seq<Call>, ws: seq<Worker>, results: map<nat, Value>, w: nat, x: Worker)
    requires CallsHeld(calls, ws, results) && w < |ws|
    requires x == Done || (ws[w].Busy? && x == Failed(ws[w].call))
    ensures CallsHeld(calls, ws[w := x], results)
  {
  }

  lemma ResolveKeepsHeld(calls: seq<Call>, ws: seq<Worker>, results: map<nat, Value>, w: nat, value: Value)
    requires CallsHeld(calls, ws, results) && w < |ws| && ws[w].Busy?
    ensures CallsHeld(calls, ws[w := Idle], results[ws[w].call.index := value])
  {
    forall v | 0 <= v < |ws| && v != w && (ws[v].Busy? || ws[v].Failed?)
      ensures ws[v].call.index != ws[w].call.index
    {
      assert !Holds(ws[if v < w then w else v], ws[if v < w then v else w].call.index);
    }
  }

  lemma NextKeepsAccounted(items: seq<Item>, mapper: Mapper, s: State, step: Step)
    requires Inv(items, mapper, s) && Enabled(s, step)
    ensures var t := Next(items, mapper, s, step); CallsAccounted(t.calls, t.workers, t.results, mapper)
  {
    var t, w := Next(items, mapper, s, step), step.worker;
    forall i | 0 <= i < |t.calls| && i !in t.results
      ensures exists v :: 0 <= v < |t.workers| && Holds(t.workers[v], i)
    {
      if i == |s.calls| {
        assert Holds(t.workers[w], i);
      } else {
        var v :| 0 <= v < |s.workers| && Holds(s.workers[v], i);
        assert Holds(t.workers[v], i);
      }
    }
  }

  // ---------- termination ----------

  function Weight(ws: seq<Worker>): nat {
    if ws == [] then 0
    else Weight(ws[..|ws| - 1]) + match ws[|ws| - 1] case Idle => 1 case Busy(_) => 2 case _ => 0
  }

  function StepsLeft(items: seq<Item>, s: State): int {
    2 * (|items| - s.index) + Weight(s.workers)
  }

  lemma {:induction false} WeightUpdated(ws: seq<Worker>, w: nat, x: Worker)
    requires w < |ws|
    ensures Weight(ws[w := x]) - Weight([x]) == Weight(ws) - Weight([ws[w]])
  {
    var init := ws[..|ws| - 1];
    assert [x][..0] == [] && [ws[w]][..0] == [];
    if w == |ws| - 1 {
      assert ws[w := x][..|ws| - 1] == init;
    } else {
      assert ws[w := x][..|ws| - 1] == init[w := x];
      WeightUpdated(init, w, x);
    }
  }

  lemma StepsDecrease(items: seq<Item>, mapper: Mapper, s: State, step: Step)
    requires Inv(items, mapper, s) && Enabled(s, step)
    ensures StepsLeft(items, Next(items, mapper, s, step)) == StepsLeft(items, s) - if step.Reject? then 2 else 1
  {
    var t := Next(items, mapper, s, step);
    WeightUpdated(s.workers, step.worker, t.workers[step.worker]);
    assert [t.workers[step.worker]][..0] == [] && [s.workers[step.worker]][..0] == [];
  }

  lemma {:induction false} WeightOfIdle(n: nat)
    ensures Weight(seq(n, _ => Idle)) == n
  {
    if n > 0 {
      WeightOfIdle(n - 1);
      assert seq(n, _ => Idle)[..n - 1] == seq(n - 1, _ => Idle);
    }
  }

  lemma {:induction false} NoWeightNoWork(ws: seq<Worker>)
    ensures Weight(ws) == 0 <==> forall w :: 0 <= w < |ws| ==> ws[w].Done? || ws[w].Failed?
  {
    if ws != [] {
      NoWeightNoWork(ws[..|ws| - 1]);
    }
  }

  // ---------- runs ----------

  function Run(items: seq<Item>, concurrency: int, mapper: Mapper, steps: seq<Step>): State {
    if steps == [] then Start(items, concurrency)
    else
      var s := Run(items, concurrency, mapper, steps[..|steps| - 1]);
      if Enabled(s, steps[|steps| - 1]) then Next(items, mapper, s, steps[|steps| - 1]) else s
  }

  // A schedule is any sequence of steps that are enabled when they are taken.
  ghost predicate Schedule(items: seq<Item>, concurrency: int, mapper: Mapper, steps: seq<Step>) {
    steps == []
    || (Schedule(items, concurrency, mapper, steps[..|steps| - 1])
        && Enabled(Run(items, concurrency, mapper, steps[..|steps| - 1]), steps[|steps| - 1]))
  }

  ghost predicate Rejects(steps: seq<Step>) {
    exists i :: 0 <= i < |steps| && steps[i].Reject?
  }

  lemma {:induction false} RunsSatisfyInv(items: seq<Item>, concurrency: int, mapper: Mapper, steps: seq<Step>)
    requires Schedule(items, concurrency, mapper, steps)
    ensures var s, size := Run(items, concurrency, mapper, steps), PoolSize(items, concurrency);
      && Inv(items, mapper, s) && |s.workers| == size
      && (s.error.Some? <==> Rejects(steps))
      && |steps| + StepsLeft(items, s) <= 2 * |items| + size
      && (!Rejects(steps) ==> |steps| + StepsLeft(items, s) == 2 * |items| + size)
  {
    if steps == [] {
      StartSatisfiesInv(items, concurrency, mapper);
      WeightOfIdle(PoolSize(items, concurrency));
    } else {
      var before, step := steps[..|steps| - 1], steps[|steps| - 1];
      var r := Run(items, concurrency, mapper, before);
      assert steps == before + [step];
      assert Run(items, concurrency, mapper, steps) == Next(items, mapper, r, step);
      hide Run, Schedule, Inv, StepsLeft, Rejects;
      RunsSatisfyInv(items, concurrency, mapper, before);
      NextKeepsInv(items, mapper, r, step);
      StepsDecrease(items, mapper, r, step);
      RejectsLast(before, step);
    }
  }

  lemma RejectsLast(steps: seq<Step>, step: Step)
    ensures Rejects(steps + [step]) <==> Rejects(steps) || step.Reject?
  {
    if Rejects(steps) {
      var i :| 0 <= i < |steps| && steps[i].Reject?;
      assert (steps + [step])[i].Reject?;
    }
    if step.Reject? {
      assert (steps + [step])[|steps|].Reject?;
    }
  }

  ghost predicate Stopped(s: State) {
    forall w :: 0 <= w < |s.workers| ==> s.workers[w].Done? || s.workers[w].Failed?
  }

  // The indices of the calls in flight.
  function InFlight(ws: seq<Worker>): set<nat> {
    if ws == [] then {}
    else InFlight(ws[..|ws| - 1]) + if ws[|ws| - 1].Busy? then {ws[|ws| - 1].call.index} else {}
  }

  lemma {:induction false} InFlightMeans(ws: seq<Worker>)
    ensures |InFlight(ws)| <= |ws|
    ensures forall i :: i in InFlight(ws) <==> exists w :: 0 <= w < |ws| && ws[w].Busy? && ws[w].call.index == i
  {
    if ws != [] {
      InFlightMeans(ws[..|ws| - 1]);
    }
  }

  // At every moment of every schedule the mapper has been called on the first items, once
  // each and in order, and no more calls are unanswered than the concurrency allows and there
  // are items: none at all below a concurrency of one.
  lemma CalledAtMostOnce(items: seq<Item>, concurrency: int, mapper: Mapper, steps: seq<Step>)
    requires Schedule(items, concurrency, mapper, steps)
    ensures var s := Run(items, concurrency, mapper, steps);
      && |s.calls| <= |items| && (forall i :: 0 <= i < |s.calls| ==> s.calls[i] == Call(items[i], i))
      && (concurrency >= 1 ==> |InFlight(s.workers)| <= concurrency)
      && (concurrency < 1 ==> s.calls == [])
      && |InFlight(s.workers)| <= |items|
      && (forall i :: i in InFlight(s.workers) ==> i < |s.calls| && i !in s.results)
  {
    var s := Run(items, concurrency, mapper, steps);
    hide Run, Schedule;
    RunsSatisfyInv(items, concurrency, mapper, steps);
    InFlightMeans(s.workers);
    NoWorkersNoSteps(items, concurrency, mapper, steps);
  }

  function FirstClaims(k: nat): seq<Step> {
    seq(k, w requires 0 <= w < k => Claim(w))
  }

  // And so many can be: when every worker has made its first claim, the calls in flight are
  // as many as the concurrency allows or there are items.
  lemma PoolFills(items: seq<Item>, concurrency: int, mapper: Mapper)
    requires concurrency >= 1
    ensures var n := if concurrency < |items| then concurrency else |items|;
      var steps := FirstClaims(n);
      && Schedule(items, concurrency, mapper, steps)
      && |Run(items, concurrency, mapper, steps).workers| == n
      && |InFlight(Run(items, concurrency, mapper, steps).workers)| == n
  {
    var n := PoolSize(items, concurrency);
    ClaimsInTurn(items, concurrency, mapper, n);
    AllInFlight(items, n);
    assert FirstCalls(items, n) + [] == FirstCalls(items, n);
  }

  function FirstCalls(items: seq<Item>, k: nat): seq<Worker>
    requires k <= |items|
  {
    seq(k, w requires 0 <= w < k => Busy(Call(items[w], w)))
  }

  lemma {:induction false} ClaimsInTurn(items: seq<Item>, concurrency: int, mapper: Mapper, k: nat)
    requires k <= PoolSize(items, concurrency)
    ensures var steps := FirstClaims(k);
      && Schedule(items, concurrency, mapper, steps)
      && Run(items, concurrency, mapper, steps).index == k
      && Run(items, concurrency, mapper, steps).workers
         == FirstCalls(items, k) + seq(PoolSize(items, concurrency) - k, _ => Idle)
  {
    var size := PoolSize(items, concurrency);
    if k == 0 {
      assert seq(size, _ => Idle) == FirstCalls(items, 0) + seq(size, _ => Idle);
    } else {
      ClaimsInTurn(items, concurrency, mapper, k - 1);
      assert FirstClaims(k)[..k - 1] == FirstClaims(k - 1);
      var before := FirstCalls(items, k - 1) + seq(size - (k - 1), _ => Idle);
      assert before[k - 1 := Busy(Call(items[k - 1], k - 1))] == FirstCalls(items, k) + seq(size - k, _ => Idle);
    }
  }

  lemma {:induction false} AllInFlight(items: seq<Item>, k: nat)
    requires k <= |items|
    ensures |InFlight(FirstCalls(items, k))| == k
    ensures forall i :: i in InFlight(FirstCalls(items, k)) ==> i < k
  {
    if k > 0 {
      AllInFlight(items, k - 1);
      assert FirstCalls(items, k)[..k - 1] == FirstCalls(items, k - 1);
    }
  }

  // The reason of the first rejection among the steps, if there is one.
  function FirstReason(steps: seq<Step>): Option<Error> {
    if steps == [] then None
    else if steps[0].Reject? then Some(steps[0].reason)
    else FirstReason(steps[1..])
  }

  // The error the pool reports is that of the first call that was rejected.
  lemma {:induction false} FirstErrorWins(items: seq<Item>, concurrency: int, mapper: Mapper, steps: seq<Step>)
    requires Schedule(items, concurrency, mapper, steps)
    ensures Run(items, concurrency, mapper, steps).error == FirstReason(steps)
  {
    if steps != [] {
      var before, step := steps[..|steps| - 1], steps[|steps| - 1];
      FirstErrorWins(items, concurrency, mapper, before);
      FirstReasonAppend(before, step);
      assert steps == before + [step];
    }
  }

  lemma {:induction false} FirstReasonAppend(steps: seq<Step>, step: Step)
    ensures FirstReason(steps + [step]) ==
      if FirstReason(steps).Some? then FirstReason(steps) else if step.Reject? then Some(step.reason) else None
  {
    if steps == [] {
      assert steps + [step] == [step];
    } else {
      assert (steps + [step])[1..] == steps[1..] + [step];
      FirstReasonAppend(steps[1..], step);
    }
  }

  // No schedule runs for ever, one that has not ended can go on, and one that ends without a
  // rejection took exactly two steps an item and one a worker.
  lemma SchedulesAreBounded(items: seq<Item>, concurrency: int, mapper: Mapper, steps: seq<Step>)
    requires Schedule(items, concurrency, mapper, steps)
    ensures var s := Run(items, concurrency, mapper, steps);
      && |steps| <= 2 * |items| + PoolSize(items, concurrency)
      && (!Stopped(s) <==> exists step :: Enabled(s, step))
      && (Stopped(s) && !Rejects(steps) && concurrency >= 1 ==>
            |steps| == 2 * |items| + PoolSize(items, concurrency))
  {
    var s := Run(items, concurrency, mapper, steps);
    hide Run, Schedule;
    RunsSatisfyInv(items, concurrency, mapper, steps);
    NoWeightNoWork(s.workers);
    if !Stopped(s) {
      var w :| 0 <= w < |s.workers| && !s.workers[w].Done? && !s.workers[w].Failed?;
      assert Enabled(s, if s.workers[w].Idle? then Claim(w) else Resolve(w));
    } else if concurrency >= 1 && items != [] && s.error.None? {
      assert s.workers[0].Done?;
    }
  }

  // When every worker has stopped: the mapper was called exactly once on every item and each
  // place holds the answer for its item, if and only if no call was rejected and there was a
  // worker to do it.
  lemma ResultsAreComplete(items: seq<Item>, concurrency: int, mapper: Mapper, steps: seq<Step>)
    requires Schedule(items, concurrency, mapper, steps) && Stopped(Run(items, concurrency, mapper, steps))
    ensures var s := Run(items, concurrency, mapper, steps);
      && (Complete(items, mapper, s) <==> !Rejects(steps) && (concurrency >= 1 || items == []))
      && (s.error.Some? <==> Rejects(steps))
  {
    var s := Run(items, concurrency, mapper, steps);
    hide Run, Schedule;
    RunsSatisfyInv(items, concurrency, mapper, steps);
    if !Rejects(steps) {
      assert forall i :: 0 <= i < |s.calls| ==> i in s.results;
      if concurrency >= 1 && items != [] {
        assert s.workers[0].Done?;
      }
      NoWorkersNoSteps(items, concurrency, mapper, steps);
    } else {
      var w :| 0 <= w < |s.workers| && s.workers[w].Failed?;
      assert s.workers[w].call.index !in s.results;
    }
  }

  lemma NoWorkersNoSteps(items: seq<Item>, concurrency: int, mapper: Mapper, steps: seq<Step>)
    requires Schedule(items, concurrency, mapper, steps)
    ensures PoolSize(items, concurrency) == 0 ==> Run(items, concurrency, mapper, steps).calls == []
  {
    if steps != [] {
      RunsSatisfyInv(items, concurrency, mapper, steps[..|steps| - 1]);
    }
  }

  ghost predicate Complete(items: seq<Item>, mapper: Mapper, s: State) {
    && |s.calls| == |items| && (forall i :: 0 <= i < |items| ==> s.calls[i] == Call(items[i], i))
    && (forall i :: i in s.results ==> i < |items|)
    && (forall i :: 0 <= i < |items| ==> i in s.results && s.results[i] == mapper(items[i], i))
  }

  // ---------- the function itself ----------

  lemma WithinConcurrency(items: seq<Item>, concurrency: int, mapper: Mapper, steps: seq<Step>)
    requires Schedule(items, concurrency, mapper, steps)
    ensures var flying := InFlight(Run(items, concurrency, mapper, steps).workers);
      |flying| <= |items| && (concurrency >= 1 ==> |flying| <= concurrency)
  {
    CalledAtMostOnce(items, concurrency, mapper, steps);
  }

  // What the mapper's promise comes to.
  datatype Answer = Resolved(value: Value) | Rejected(reason: Error)

  // The values of a mapper that may reject; where it does, no value is ever used.
  function Values(answer: (Item, nat) -> Answer): Mapper {
    (item: Item, i: nat) => if answer(item, i).Resolved? then answer(item, i).value else ""
  }

  // The scheduler may pick any worker that can go on. `error` is what the returned promise is
  // rejected with, if it is: it fails exactly when the mapper rejects some item, with the
  // reason of the first call rejected, and otherwise every place holds its item's answer.
  // Whatever stands in the array is right either way. Without workers nothing is called.
  // `schedule` is what the scheduler chose; at every moment of it the calls in flight are
  // within the concurrency.
  method AsyncMap(items: seq<Item>, answer: (Item, nat) -> Answer, concurrency: int)
    returns (results: array<Option<Value>>, error: Option<Error>, ghost schedule: seq<Step>)
    ensures fresh(results) && results.Length == |items|
    ensures error.None? <==> concurrency < 1 || forall i :: 0 <= i < |items| ==> answer(items[i], i).Resolved?
    ensures error.Some? ==> exists i :: 0 <= i < |items| && answer(items[i], i) == Rejected(error.value)
    ensures error.None? && concurrency >= 1 ==>
      forall i :: 0 <= i < |items| ==> results[i].Some? && answer(items[i], i) == Resolved(results[i].value)
    ensures forall i :: 0 <= i < |items| && results[i].Some? ==> answer(items[i], i) == Resolved(results[i].value)
    ensures concurrency < 1 ==> forall i :: 0 <= i < |items| ==> results[i] == None
    ensures Schedule(items, concurrency, Values(answer), schedule) && error == FirstReason(schedule)
  {
    hide Run, Schedule, Rejects, StepsLeft, Inv, Tracks, Answered, Values, Next, InFlight;
    ghost var mapper := Values(answer);
    results := new Option<Value>[|items|](_ => None);
    error := None;
    var index := 0;
    var workers: seq<Worker> := seq(PoolSize(items, concurrency), _ => Idle);
    ghost var steps := [];
    EmptySchedule(items, concurrency, mapper);
    WithinConcurrency(items, concurrency, mapper, steps);
    StartTracks(items, concurrency, answer, results[..]);
    while exists w :: 0 <= w < |workers| && (workers[w].Idle? || workers[w].Busy?)
      invariant Schedule(items, concurrency, mapper, steps)
      invariant Tracks(items, Run(items, concurrency, mapper, steps), index, workers, results[..], error)
      invariant Answered(items, answer, Run(items, concurrency, mapper, steps))
      invariant workers == Run(items, concurrency, mapper, steps).workers
      invariant |InFlight(workers)| <= |items| && (concurrency >= 1 ==> |InFlight(workers)| <= concurrency)
      decreases StepsLeft(items, Run(items, concurrency, mapper, steps))
    {
      var w :| 0 <= w < |workers| && (workers[w].Idle? || workers[w].Busy?);
      ghost var s, before := Run(items, concurrency, mapper, steps), results[..];
      ghost var step := Taken(workers[w], w, answer);
      TracksMeans(items, s, index, workers, before, error);
      ExtendRun(items, concurrency, mapper, steps, step);
      StaysAnswered(items, answer, s, step);
      StaysTracked(items, answer, s, w, index, workers, before, error);
      steps := steps + [step];
      if workers[w].Busy? {
        var call := workers[w].call;
        match answer(call.item, call.index) {
          case Resolved(result) =>
            results[call.index] := Some(result);
            workers := workers[w := Idle];
          case Rejected(reason) =>
            workers := workers[w := Failed(call)];
            if error.None? {
              error := Some(reason);
            }
        }
      } else if index < |items| {
        var currentIndex := index;
        index := index + 1;
        workers := workers[w := Busy(Call(items[currentIndex], currentIndex))];
      } else {
        workers := workers[w := Done];
      }
      WithinConcurrency(items, concurrency, mapper, steps);
      TracksMeans(items, Run(items, concurrency, mapper, steps), index, workers, results[..], error);
    }
    schedule := steps;
    FirstErrorWins(items, concurrency, mapper, steps);
    TracksMeans(items, Run(items, concurrency, mapper, steps), index, workers, results[..], error);
    AllAnswered(items, concurrency, answer, steps, index, workers, results[..], error);
  }

  // The step a worker takes next, given the mapper's answers.
  function Taken(worker: Worker, w: nat, answer: (Item, nat) -> Answer): Step {
    match worker
    case Busy(call) =>
      (match answer(call.item, call.index)
       case Resolved(_) => Resolve(w)
       case Rejected(reason) => Reject(w, reason))
    case _ => Claim(w)
  }

  // A place is filled only where the mapper resolves, and an error is one it rejects with.
  ghost predicate Answered(items: seq<Item>, answer: (Item, nat) -> Answer, s: State) {
    && (forall i :: i in s.results ==> i < |items| && answer(items[i], i) == Resolved(s.results[i]))
    && (s.error.Some? ==> exists i :: 0 <= i < |items| && answer(items[i], i) == Rejected(s.error.value))
  }

  // The variables of the function hold the state of the schedule so far.
  ghost predicate Tracks(
    items: seq<Item>, s: State, index: nat, workers: seq<Worker>, results: seq<Option<Value>>, error: Option<Error>)
  {
    && s.index == index && s.workers == workers && s.error == error && |results| == |items|
    && forall i :: 0 <= i < |items| ==> results[i] == if i in s.results then Some(s.results[i]) else None
  }

  lemma TracksMeans(
    items: seq<Item>, s: State, index: nat, workers: seq<Worker>, results: seq<Option<Value>>, error: Option<Error>)
    requires Tracks(items, s, index, workers, results, error)
    ensures s.workers == workers && s.index == index && s.error == error
  {
  }

  lemma StartTracks(items: seq<Item>, concurrency: int, answer: (Item, nat) -> Answer, results: seq<Option<Value>>)
    requires |results| == |items| && forall i :: 0 <= i < |items| ==> results[i] == None
    ensures var s := Start(items, concurrency);
      Tracks(items, s, 0, s.workers, results, None) && Answered(items, answer, s)
  {
  }

  // A call in a worker's hands is of the item at its index.
  lemma CallIsOfItem(items: seq<Item>, mapper: Mapper, s: State, w: nat)
    requires Inv(items, mapper, s) && w < |s.workers| && s.workers[w].Busy?
    ensures var call := s.workers[w].call; call.index < |items| && call.item == items[call.index]
  {
  }

  lemma StaysAnswered(items: seq<Item>, answer: (Item, nat) -> Answer, s: State, step: Step)
    requires Inv(items, Values(answer), s) && Enabled(s, step) && Answered(items, answer, s)
    requires step == Taken(s.workers[step.worker], step.worker, answer)
    ensures Answered(items, answer, Next(items, Values(answer), s, step))
  {
    if s.workers[step.worker].Busy? {
      CallIsOfItem(items, Values(answer), s, step.worker);
    }
    hide Inv;
  }

  lemma StaysTracked(
    items: seq<Item>, answer: (Item, nat) -> Answer, s: State, w: nat,
    index: nat, workers: seq<Worker>, results: seq<Option<Value>>, error: Option<Error>)
    requires Inv(items, Values(answer), s) && Tracks(items, s, index, workers, results, error)
    requires w < |workers| && (workers[w].Idle? || workers[w].Busy?)
    ensures var t := Next(items, Values(answer), s, Taken(workers[w], w, answer));
      && (workers[w].Idle? && index < |items| ==>
            Tracks(items, t, index + 1, workers[w := Busy(Call(items[index], index))], results, error))
      && (workers[w].Idle? && index >= |items| ==> Tracks(items, t, index, workers[w := Done], results, error))
      && (workers[w].Busy? ==>
            var call := workers[w].call;
            && call.index < |results|
            && match answer(call.item, call.index)
               case Resolved(v) => Tracks(items, t, index, workers[w := Idle], results[call.index := Some(v)], error)
               case Rejected(e) =>
                 Tracks(items, t, index, workers[w := Failed(call)], results, if error.None? then Some(e) else error))
  {
    if workers[w].Busy? {
      CallIsOfItem(items, Values(answer), s, w);
    }
    hide Inv;
  }

  lemma AllAnswered(
    items: seq<Item>, concurrency: int, answer: (Item, nat) -> Answer, steps: seq<Step>,
    index: nat, workers: seq<Worker>, results: seq<Option<Value>>, error: Option<Error>)
    requires Schedule(items, concurrency, Values(answer), steps)
    requires Tracks(items, Run(items, concurrency, Values(answer), steps), index, workers, results, error)
    requires Answered(items, answer, Run(items, concurrency, Values(answer), steps))
    requires !exists w :: 0 <= w < |workers| && (workers[w].Idle? || workers[w].Busy?)
    ensures |results| == |items|
    ensures error.None? <==> concurrency < 1 || forall i :: 0 <= i < |items| ==> answer(items[i], i).Resolved?
    ensures error.Some? ==> exists i :: 0 <= i < |items| && answer(items[i], i) == Rejected(error.value)
    ensures error.None? && concurrency >= 1 ==>
      forall i :: 0 <= i < |items| ==> results[i].Some? && answer(items[i], i) == Resolved(results[i].value)
    ensures forall i :: 0 <= i < |items| && results[i].Some? ==> answer(items[i], i) == Resolved(results[i].value)
    ensures concurrency < 1 ==> forall i :: 0 <= i < |items| ==> results[i] == None
  {
    hide Run, Schedule, Rejects;
    var s := Run(items, concurrency, Values(answer), steps);
    assert Stopped(s);
    ResultsAreComplete(items, concurrency, Values(answer), steps);
    RunsSatisfyInv(items, concurrency, Values(answer), steps);
    NoWorkersNoSteps(items, concurrency, Values(answer), steps);
  }

  lemma EmptySchedule(items: seq<Item>, concurrency: int, mapper: Mapper)
    ensures Schedule(items, concurrency, mapper, [])
    ensures Run(items, concurrency, mapper, []) == Start(items, concurrency)
  {
  }

  lemma ExtendRun(items: seq<Item>, concurrency: int, mapper: Mapper, steps: seq<Step>, step: Step)
    requires Schedule(items, concurrency, mapper, steps) && Enabled(Run(items, concurrency, mapper, steps), step)
    ensures var s := Run(items, concurrency, mapper, steps);
      && Inv(items, mapper, s) && Schedule(items, concurrency, mapper, steps + [step])
      && Run(items, concurrency, mapper, steps + [step]) == Next(items, mapper, s, step)
      && 0 <= StepsLeft(items, Next(items, mapper, s, step)) < StepsLeft(items, s)
  {
    assert (steps + [step])[..|steps|] == steps;
    RunsSatisfyInv(items, concurrency, mapper, steps);
    StepsDecrease(items, mapper, Run(items, concurrency, mapper, steps), step);
    hide Run;
    NextKeepsInv(items, mapper, Run(items, concurrency, mapper, steps), step);
  }
}

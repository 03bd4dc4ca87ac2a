# SmartCRDT: a verified model

A Dafny model of the parts of SmartCRDT whose correctness is not visible from any one body,
with proofs of what they promise:

- **Replicated data types** (`smartcrdt/`): the observed-remove map, vector clocks, the two
  counters and the last-writer-wins register, each as an object updated in place and each run
  as a system of replicas whose snapshots may be lost, repeated, reordered and delayed.
- **The collaborative document store** (`examples/collaboration/CRDTDocumentStore.ts`): its
  Lamport clock, duplicate suppression, bounded log and position transform; when replicas
  converge, and families of edits for which they do exactly on a stated condition.
- **The LRU vector cache** (`python/superinstance/cache.py`): what it holds, and that a larger
  one never does worse.
- **Two async control structures** (`examples/langgraph/utils/helpers.ts`): the worker pool
  behind `asyncMap`, under every interleaving, and the sliding-window rate limiter.

Every object is a class whose methods have the loops and assignments of the original and are
proved to compute a function on the value of the object's fields (`Merged`, `AfterPut`,
`AfterRemote`, ...). The lemmas then say what those functions mean, against definitions that do
not mention them: causal histories, sums over a log of updates, distinct keys used since, a base
text with each edit at its own place. A run is any finite sequence of steps; a step that is not
possible does nothing, so the theorems range over all runs without further conditions.

| modules | contents |
|---|---|
| `Common`, `NodeCounts` | options, maximum, distinctness; dictionaries of counts and their merge |
| `OrMap`, `OrMapRuns` | the map; observed-remove, add-wins and convergence over runs |
| `VectorClocks`, `Causality` | the clock and its order; stamps characterise causality |
| `Counters`, `CounterRuns` | the counters; conservation over runs |
| `Registers`, `RegisterRuns` | the register; newest write wins over runs |
| `DocumentStore` | the store's functions and its object |
| `DocumentEffects`, `DocumentMerging` | what each call accepts, issues and does; what a merge reports |
| `DocumentClocks`, `DocumentLog`, `DocumentReplication` | clocks and duplicates, the bounded log, one writer and one reader |
| `DocumentWeave`, `DocumentConvergence` | where edits belong, convergence of any number of replicas |
| `DocumentExchange`, `DocumentConflicts` | exchanges of two and three, which pairs of edits leave stores apart, taking turns |
| `LruCache`, `RateLimiting`, `WorkerPool` | the cache, the rate limiter, `asyncMap` |

Check everything with `dafny verify dfyconfig.toml`.

Where the code and its own comments disagree, the model follows the code:

- The store is described as conflict-free (`CRDTDocumentStore.ts:82-90`). Its transform has no tie
  break and moves only one of two edits that overlap, so two insertions at one point, an insertion
  inside a range another user erases or replaces, and overlapping ranges leave replicas apart.
  `DocumentConflicts.TwoEdits` says of every pair of edits, of any kinds and positions, when two
  stores agree after merging; `DocumentExchange.SamePoint`, `TwoDeletes`,
  `DocumentConflicts.InsertInsideDelete`, `InsertInsideReplace`, `SameStart`, `ReplaceStartsFirst`
  and `DeleteStartsFirst` give the cases. Three disjoint edits can clash, when a delete brings two
  insertion points together (`DocumentExchange.CollapsedPoints`). `EveryoneConverges` gives a
  condition on the edits alone under which any number of replicas agree.
- Taking turns does not help: an operation is moved past everything in the log by other users,
  also past what its author had already received (`CRDTDocumentStore.ts:301-308`). A inserts at 0,
  B receives that and inserts at 1; A moves B's insertion to 2, where it does not fit, and records
  it without applying it (`CRDTDocumentStore.ts:245-253`, `280-281`). `DocumentConflicts.LaterEdit`
  gives the exact condition under which such an edit lands where it was made.
- Operations the store already has are skipped (`CRDTDocumentStore.ts:229-232`, `351-353`). That
  holds, whatever the logs' lengths, of operations that were delivered; one the store knows by its
  id alone, its own, is applied again once trimmed
  (`DocumentLog.MergeIsIdempotent`, `OwnOperationComesBack`).
- A replace with a negative length is accepted and repeats text; with an insertion by another user
  the stores then agree exactly when `DocumentConflicts.RepeatedText` says.
- Counter merges are described as commutative (`gcounter.py:18-21`). That holds of all counters
  built by counting; dictionaries loaded with negative counts commute exactly when
  `NodeCounts.CommutesExactly` says.
- Ties between register writes are described as broken deterministically (`lww.py:17-19`). They are when
  stamps differ; a write that does not name its node can reuse another's stamp
  (`RegisterRuns.SettingWithoutNodeCollides`).
- `concurrent_with` is true of equal clocks (`VectorClocks.ExactlyOneHolds`), and negative counts can
  put two clocks each before the other, exactly when `VectorClocks.EachBeforeTheOther` says.
- The rate limiter keeps its bound for calls that await each other; of calls that overlap,
  `RateLimiting.OverlappingCalls` says exactly which do.

## Model

| member | source | states |
|---|---|---|
| OrMap.MergeJoins | smartcrdt/ormap.py:88-110 | for any two states, the three passes of merge give at each key exactly the union of the dots seen and the union of the tombstones, and leave only live dots listed |
| OrMap.MergeIsLeastUpperBound | smartcrdt/ormap.py:88-110 | merge is the least upper bound in the order "seen and tombstoned no less", hence inflationary |
| OrMap.MergeLaws | smartcrdt/ormap.py:88-115 | merge is commutative, associative and idempotent up to what is seen and tombstoned, on all states |
| OrMap.MergedInOrder | smartcrdt/ormap.py:88-110 | a merge lists, for each key, my live entries in my order and then the other's live entries new to me in the other's order, each dot once |
| OrMap.UpdatesBurySeen | smartcrdt/ormap.py:42-56 | put and remove tombstone exactly what the replica has seen of the key and touch no other key; put alone adds its dot |
| OrMap.PutKeepsShape | smartcrdt/ormap.py:42-49 | with a fresh dot, put keeps lists non-empty, their dots distinct and their last entry untombstoned, although earlier entries may be |
| OrMap.RemoveKeepsShape | smartcrdt/ormap.py:51-56 | remove keeps that shape |
| OrMap.MergeKeepsShape | smartcrdt/ormap.py:94-110 | merge keeps that shape |
| OrMap.ReadsAreLive | smartcrdt/ormap.py:60-84 | in that shape keys() is exactly the keys with a live dot, and get finds a value exactly for those keys and always that of a live entry |
| OrMap.ORMap.Put | smartcrdt/ormap.py:42-49 | the method's new state, tombstoning loop included |
| OrMap.ORMap.Remove | smartcrdt/ormap.py:51-56 | the method's new state; an absent key changes nothing |
| OrMap.ORMap.Get | smartcrdt/ormap.py:60-65 | the value of the last listed entry, or none |
| OrMap.ORMap.Merge | smartcrdt/ormap.py:88-110 | the method's new state, for every order in which the dictionaries are iterated, also when merging with itself |
| OrMap.ORMap.MergeTombstones | smartcrdt/ormap.py:90-92 | the first pass joins the tombstone sets key by key |
| OrMap.ORMap.AbsorbAll | smartcrdt/ormap.py:94-101 | the second pass appends, at every key, the entries neither tombstoned nor already listed |
| OrMap.ORMap.PurgeAll | smartcrdt/ormap.py:103-110 | the third pass drops tombstoned entries and keys left without any |
| OrMapRuns.ObservedRemove | smartcrdt/ormap.py:21-26 | in every run, a dot is live for a key at a replica if and only if its put is in the replica's causal history and no put or remove of the key in that history had observed it |
| OrMapRuns.AddWins | smartcrdt/ormap.py:21-26 | in every run, a put that nothing in the history has observed keeps its key and entry, whatever removes ran concurrently |
| OrMapRuns.ReadsAreUnobservedPuts | smartcrdt/ormap.py:60-84 | in every run, get never exposes a removed or superseded value: it returns the value of an unobserved put of the history and finds one exactly when there is one |
| OrMapRuns.SameHistorySameMap | smartcrdt/ormap.py:88-110 | in every run, replicas with the same history have the same live entries and keys, and the same get for every key with at most one live dot |
| OrMapRuns.ConcurrentPutsReadApart | smartcrdt/ormap.py:60-65 | two replicas that put one key apart and exchange snapshots have the same lattice state, and the same get exactly when the values are equal |
| OrMapRuns.RunsProceed | smartcrdt/ormap.py:42-110 | in every reachable state a replica can put and remove, which is logged with what it had seen, and any replica can be brought to know all another knows |
| NodeCounts.MergeLaws | smartcrdt/gcounter.py:63-66 | on non-negative counts merge is commutative, associative and idempotent as equality of dictionaries |
| NodeCounts.MergedAt | smartcrdt/gcounter.py:63-66 | the merged dictionary has exactly the keys of either side, each with the larger count |
| NodeCounts.CommutesExactly | smartcrdt/gcounter.py:63-83 | on any dictionaries, merge commutes if and only if no count that one side alone has is negative |
| VectorClocks.BeforeIsStrictlyBelow | smartcrdt/clock.py:48-52 | although the test looks at one side's keys only, happens_before is the strict pointwise order on clocks built by increment and merge |
| VectorClocks.StrictPartialOrder | smartcrdt/clock.py:48-52 | happens_before is irreflexive, asymmetric and transitive on those clocks |
| VectorClocks.MergeIsLeastUpperBound | smartcrdt/clock.py:41-46 | merge is the least upper bound in the order "equal or happens before" |
| VectorClocks.ExactlyOneHolds | smartcrdt/clock.py:48-56 | before, after and concurrent exclude each other; concurrent means equal, or each side ahead somewhere |
| VectorClocks.EachBeforeTheOther | smartcrdt/clock.py:48-74 | of any two dictionaries, each is before the other if and only if they agree where both have a count, no count that one alone has is positive, and each alone has a negative one |
| VectorClocks.NegativeCountsCycle | smartcrdt/clock.py:48-74 | the smallest instance: one negative count on each side |
| VectorClocks.VectorClock.Increment | smartcrdt/clock.py:32-35 | the node's entry grows by one, the others stay, and the new count is returned |
| VectorClocks.VectorClock.Merge | smartcrdt/clock.py:41-46 | a fresh clock with the merged counts; both arguments keep theirs |
| VectorClocks.VectorClock.ObjectsCompareAsValues | smartcrdt/clock.py:48-56 | the object's two tests are the order on its dictionaries |
| Causality.ClocksCharacteriseCausality | smartcrdt/clock.py:1-11 | in every trace, an event causally precedes another if and only if its stamp happens before the other's, and distinct events are causally unrelated if and only if their stamps are concurrent |
| Causality.KnowingIsFollowing | smartcrdt/clock.py:32-46 | a stamp that counts an event belongs to that event or to a causal successor of it |
| Counters.SumTakesAny | smartcrdt/gcounter.py:48-51 | the value does not depend on the order in which the counts are summed |
| Counters.MergeBounds | smartcrdt/gcounter.py:48-66 | a merge reads at least the larger and at most the sum of the two values |
| Counters.GCounter.Increment | smartcrdt/gcounter.py:36-40 | a negative amount raises and changes nothing; any other is added to the node's count |
| Counters.GCounter.Value | smartcrdt/gcounter.py:48-51 | the sum of all counts, whatever order they are visited in |
| Counters.GCounter.Merge | smartcrdt/gcounter.py:63-66 | the new counts are the merged dictionary |
| Counters.PNCounter.Increment | smartcrdt/pcounter.py:32-34 | only the positive half changes |
| Counters.PNCounter.Decrement | smartcrdt/pcounter.py:36-38 | only the negative half changes |
| Counters.PNCounter.Value | smartcrdt/pcounter.py:42-45 | the sum of the positive half less that of the negative half |
| Counters.PNCounter.Merge | smartcrdt/pcounter.py:55-58 | both halves are merged |
| CounterRuns.Conservation | smartcrdt/pcounter.py:32-58 | in every run, a replica reads exactly the increments less the decrements in its causal history; with the whole history, exactly the totals |
| CounterRuns.ViewsArePrefixes | smartcrdt/gcounter.py:36-66 | in every run, any replica's count of a node is the sum of a prefix of that node's own updates and never above the node's own count, which is the sum of all of them |
| CounterRuns.TallyOfUnion | smartcrdt/gcounter.py:63-66 | merging the tallies of two histories is the tally of their union: nothing is lost or counted twice |
| CounterRuns.RunsProceed | smartcrdt/pcounter.py:32-58 | in every reachable state a replica can count any amount under its name, and any replica can be brought to know all another knows |
| Registers.LessIsStrictTotal | smartcrdt/lww.py:64-74 | the order used to break ties between nodes is a strict total order |
| Registers.LessIsLexicographic | smartcrdt/lww.py:70 | one name is the lesser if and only if, where they first differ, it ends or has the lesser character |
| Registers.NewerWins | smartcrdt/lww.py:64-74 | merge keeps the later write; of two at one time that whose node is the greater in dictionary order; under one stamp its own |
| Registers.MergeLaws | smartcrdt/lww.py:64-74 | merge is associative and idempotent, never makes either side older, and commutes if and only if equal stamps carry equal values |
| Registers.LWWRegister.constructor | smartcrdt/lww.py:34-37 | an initial value is stamped with the clock, no value with zero |
| Registers.LWWRegister.Set | smartcrdt/lww.py:41-46 | value and timestamp are replaced, the node only when given |
| Registers.LWWRegister.Merge | smartcrdt/lww.py:64-74 | the newer stamp wins, ties by node |
| RegisterRuns.StampsAreUnique | smartcrdt/lww.py:41-74 | in every run of replicas that write under their own name above their current timestamp, no two writes share a stamp |
| RegisterRuns.StampsNeverDecrease | smartcrdt/lww.py:41-74 | no step makes a register older |
| RegisterRuns.RegisterHoldsNewestWrite | smartcrdt/lww.py:64-74 | in every run, a register holds the one write of its history with the largest stamp, or is blank when there is none |
| RegisterRuns.SameHistorySameRegister | smartcrdt/lww.py:64-74 | in every run, replicas with the same history hold the same value and timestamp |
| RegisterRuns.SettingWithoutNodeCollides | smartcrdt/lww.py:41-46 | a register that merged another's write and sets without a node takes the other's stamp; the two then agree after merging exactly when the values are equal |
| RegisterRuns.RunsProceed | smartcrdt/lww.py:41-74 | in every reachable state a replica can write any value at a later time, logged with that value, time and name, and any replica can be brought to know all another knows |
| LruCache.AfterKeepsAgree | python/superinstance/cache.py:238-266 | every operation keeps the recency list a duplicate-free listing of the dictionary's keys, within the size |
| LruCache.BiggerNeverDoesWorse | python/superinstance/cache.py:238-261 | on every trace and for sizes 1 <= n <= m, the smaller cache's recency list is a subsequence of the larger's, and each of its hits is a hit with the same vector there |
| LruCache.HoldsMostRecent | python/superinstance/cache.py:238-261 | in every reachable state the cache holds exactly the keys with fewer than size distinct keys used since their own last use, each with its last set vector |
| LruCache.RecencyIsWindow | python/superinstance/cache.py:238-261 | the recency list is the last size keys of all keys ordered by last use |
| LruCache.FindsLastSet | python/superinstance/cache.py:238-261 | in every reachable state a lookup returns the vector of the last set of the key if fewer than size distinct keys were used since, and nothing otherwise |
| LruCache.RaisesExactly | python/superinstance/cache.py:247-261 | set raises in a reachable state if and only if the size is below one, and such a cache stays empty |
| LruCache.VectorCache.Get | python/superinstance/cache.py:238-245 | the vector, and the key moved to the end; a miss changes nothing |
| LruCache.VectorCache.Set | python/superinstance/cache.py:247-261 | the whole new state for an update, an addition and an eviction; with no room and nothing to evict it raises and changes nothing |
| LruCache.VectorCache.Clear | python/superinstance/cache.py:263-266 | both fields are emptied |
| DocumentStore.LamportClock.Tick | examples/collaboration/CRDTDocumentStore.ts:70-73 | the time grows by one and is returned |
| DocumentStore.LamportClock.Merge | examples/collaboration/CRDTDocumentStore.ts:75-79 | one more than the larger of the two times |
| DocumentStore.CRDTDocumentStore.Insert | examples/collaboration/CRDTDocumentStore.ts:120-145 | the whole new state and the issued operation; an invalid position throws, with the clock already ticked |
| DocumentStore.CRDTDocumentStore.Delete | examples/collaboration/CRDTDocumentStore.ts:150-177 | the whole new state and the issued operation; an invalid range throws and changes nothing |
| DocumentStore.CRDTDocumentStore.Replace | examples/collaboration/CRDTDocumentStore.ts:182-211 | likewise, for lengths of either sign |
| DocumentStore.CRDTDocumentStore.ApplyRemote | examples/collaboration/CRDTDocumentStore.ts:217-288 | the whole new state and the result for stale, known, lost, ill-fitting and applied operations |
| DocumentStore.CRDTDocumentStore.TransformOperation | examples/collaboration/CRDTDocumentStore.ts:294-335 | the loop over the log, its skips, shifts, overlaps and its early rejection |
| DocumentStore.CRDTDocumentStore.Merge | examples/collaboration/CRDTDocumentStore.ts:341-375 | the whole new state and the reported resolution, also for a merge with itself |
| DocumentStore.CRDTDocumentStore.RecordOperation | examples/collaboration/CRDTDocumentStore.ts:475-485 | the operation is appended, and the oldest of more than a thousand forgotten |
| DocumentStore.CRDTDocumentStore.Clear | examples/collaboration/CRDTDocumentStore.ts:463-470 | an empty store with a fresh clock |
| DocumentEffects.InsertDoes | examples/collaboration/CRDTDocumentStore.ts:120-145 | an insert is accepted exactly from 0 to the end of the text; the issued operation, the new text, clock, log and index, said from its fields; a refused one only ticks |
| DocumentEffects.DeleteDoes | examples/collaboration/CRDTDocumentStore.ts:150-177 | likewise for a delete, accepted exactly of at least one character and all in the text; a refused one changes nothing |
| DocumentEffects.ReplaceDoes | examples/collaboration/CRDTDocumentStore.ts:182-211 | likewise for a replace of any length, also none and negative |
| DocumentEffects.DeliveryDoes | examples/collaboration/CRDTDocumentStore.ts:217-288 | the five outcomes of a delivery, said from the fields of the operation and the store: what is taken as stale, what is remembered, what is known, and what the moved operation does to text and log |
| DocumentMerging.MergeReports | examples/collaboration/CRDTDocumentStore.ts:341-375 | for every store and log: applied lists in order what was made of each operation unknown at its turn, rejected lists in order those that came to nothing, and the conflicts are the rejected ones whose position was inside the text at that turn |
| DocumentClocks.LamportCondition | examples/collaboration/CRDTDocumentStore.ts:62-80 | in every run since creation or clear, a locally issued operation is stamped above every operation issued or accepted before it and above every recorded user clock |
| DocumentClocks.AcceptedClocksIncrease | examples/collaboration/CRDTDocumentStore.ts:217-227 | in every run, the operations accepted from one user have strictly increasing clocks |
| DocumentClocks.AppliedAtMostOnce | examples/collaboration/CRDTDocumentStore.ts:217-232 | in every run, delivering an operation again at any later time changes nothing at all |
| DocumentLog.LogIsRecentHistory | examples/collaboration/CRDTDocumentStore.ts:475-485 | in every run the log is the latest thousand operations recorded, and with distinct ids the map by id holds exactly those |
| DocumentLog.ActiveUsersAreRecorded | examples/collaboration/CRDTDocumentStore.ts:475-478 | in every run the active users are those of all operations recorded, trimmed ones included |
| DocumentLog.EchoRecognisedWhileLogged | examples/collaboration/CRDTDocumentStore.ts:229-232 | an operation that comes back is known if and only if it is among the latest thousand recorded, and then alters neither content nor log; after that, a store that has not heard later from its user takes it as new |
| DocumentLog.MergeIsIdempotent | examples/collaboration/CRDTDocumentStore.ts:341-375 | for any store and log, merging the log again changes nothing if and only if each of its operations is known by id or stale by then; with distinct ids only operations the store knew before the first merge can fail this, and none does while nothing is trimmed |
| DocumentLog.UnchangedExactly | examples/collaboration/CRDTDocumentStore.ts:341-375 | a merge leaves any state as it was, and applies nothing, if and only if each operation is known by id or stale in that state |
| DocumentLog.NewLogMergesOnce | examples/collaboration/CRDTDocumentStore.ts:217-232 | logs of any length: once a log of operations new to the store is merged, merging it again applies and changes nothing |
| DocumentLog.OwnOperationComesBack | examples/collaboration/CRDTDocumentStore.ts:475-485 | a store merges a log that begins with its own first operation and goes on with 999 others: its own is trimmed, and the second merge applies it again |
| DocumentReplication.ReaderHasWritersContent | examples/collaboration/CRDTDocumentStore.ts:120-335 | a reader that starts with the writer's content and gets one user's operations in order, earlier ones again at will, has exactly the writer's content after those that arrived, for any number of operations, past any trimming |
| DocumentReplication.SentIsSound | examples/collaboration/CRDTDocumentStore.ts:120-211 | each issued operation fits the content left by those before it, clocks increase, and replaying them gives the writer's content |
| DocumentWeave.SpliceAtTarget | examples/collaboration/CRDTDocumentStore.ts:243-278 | an edit's target is in bounds, and splicing there gives the base with one more edit in its own place |
| DocumentWeave.OneMore | examples/collaboration/CRDTDocumentStore.ts:243-278 | an edit replaces its own base text at its target and leaves every other stretch alone |
| DocumentWeave.ShiftedByLeft | examples/collaboration/CRDTDocumentStore.ts:306-331 | an edit on the left shifts a target by exactly what it adds or removes |
| DocumentWeave.TargetsInOrder | examples/collaboration/CRDTDocumentStore.ts:306-331 | targets keep the base order, the edits' own lengths apart |
| DocumentConvergence.PastOne | examples/collaboration/CRDTDocumentStore.ts:301-331 | one turn of the transform loop moves an operation from its target before the logged one to its target after it, for all nine pairs of kinds |
| DocumentConvergence.ThroughLog | examples/collaboration/CRDTDocumentStore.ts:294-335 | folding over a log of compatible operations in any order takes an operation to its target |
| DocumentConvergence.DeliveriesWeave | examples/collaboration/CRDTDocumentStore.ts:217-335 | from any replica that follows the plan, deliveries in any order and number give the base with the edits it had and those delivered |
| DocumentConvergence.ReplicaHoldsWeave | examples/collaboration/CRDTDocumentStore.ts:217-335 | up to a thousand users each make one edit of a base, of any kind, compatible with the rest: a replica that received some of the others in any order and with repetitions holds the base with exactly those edits at their own places |
| DocumentConvergence.EveryoneConverges | examples/collaboration/CRDTDocumentStore.ts:217-335 | all replicas that have received everything, authors and readers alike, have equal content |
| DocumentExchange.CommandsAreCompatible | examples/collaboration/CRDTDocumentStore.ts:120-211 | what compatibility asks of the commands: different users and ids, valid ranges pairwise disjoint, no two insertions at one point, and between two insertion points something that no edit erases |
| DocumentExchange.InsertsConverge | examples/collaboration/CRDTDocumentStore.ts:217-335 | up to a thousand inserts at different places: whoever has them all holds the base with every text at its own place |
| DocumentExchange.MergesExchange | examples/collaboration/CRDTDocumentStore.ts:341-375 | two stores that merge from each other each apply the other's original operation, and skip the copy of their own |
| DocumentExchange.DisjointEditsConverge | examples/collaboration/CRDTDocumentStore.ts:217-375 | after both merges two edits of disjoint ranges, of any kinds, give equal contents, merged in either order: the base with both ranges replaced |
| DocumentExchange.SamePoint | examples/collaboration/CRDTDocumentStore.ts:306-309 | two insertions at one point end up apart, each after the one already there, and agree if and only if the texts commute |
| DocumentExchange.TwoDeletes | examples/collaboration/CRDTDocumentStore.ts:309-318 | two deletes agree if and only if the ranges are disjoint, or start together and are equally long or fit one after the other |
| DocumentExchange.CollapsedPoints | examples/collaboration/CRDTDocumentStore.ts:306-331 | three pairwise disjoint edits, a delete exactly between two insertions, agree in two orders of arrival if and only if the inserted texts commute |
| DocumentConflicts.TwoEdits | examples/collaboration/CRDTDocumentStore.ts:294-375 | two users edit one base, with any kinds, positions, lengths and texts, and merge with each other: they agree if and only if the ranges are disjoint or the equation of their case holds |
| DocumentConflicts.InsertInsideDelete | examples/collaboration/CRDTDocumentStore.ts:309-318 | an insertion strictly inside an erased range: both contents, which agree if and only if dropping as many characters as stand behind it from the insertion followed by those leaves the insertion |
| DocumentConflicts.InsertInsideReplace | examples/collaboration/CRDTDocumentStore.ts:319-329 | strictly inside a replaced range: one store loses it, the other keeps it or base text in its stead; they agree if and only if the insertion is empty |
| DocumentConflicts.SameStart | examples/collaboration/CRDTDocumentStore.ts:309-329 | two ranges that start together, erased or replaced: neither is moved, and the stores agree if and only if the two texts from there on are equal |
| DocumentConflicts.ReplaceStartsFirst | examples/collaboration/CRDTDocumentStore.ts:319-329 | a replaced range that starts first and overlaps another: its store drops the other edit, the other store applies the replace unmoved; both contents and when they agree |
| DocumentConflicts.DeleteStartsFirst | examples/collaboration/CRDTDocumentStore.ts:309-318 | an erased range that starts first and overlaps another: its store applies what is left of the other edit, the other store erases unmoved; both contents and when they agree |
| DocumentConflicts.RepeatedText | examples/collaboration/CRDTDocumentStore.ts:182-211 | a replace of negative length repeats text; with an insertion the stores agree if it does not touch the repeated text, and otherwise if and only if an equation between the texts holds |
| DocumentConflicts.LaterEdit | examples/collaboration/CRDTDocumentStore.ts:301-308 | an edit of any kind made after merging another user's insertion lands at its author's place in the other's store if and only if it starts in front of the insertion or is the same the insertion's length further on |
| DocumentConflicts.ReturnedIs | examples/collaboration/CRDTDocumentStore.ts:243-281 | what that store holds: the edit moved past the insertion once more, or dropped though recorded when it no longer fits |
| RateLimiting.SlidingWindow | examples/langgraph/utils/helpers.ts:297-321 | in every run of calls that await each other, for every limit and window, a grant is at least a window after the grant `limit` places before it (a limit below one acting as one) |
| RateLimiting.NoNeedlessWait | examples/langgraph/utils/helpers.ts:307-321 | and is given exactly when that bound allows, plus the timer's delay |
| RateLimiting.WaitIsExact | examples/langgraph/utils/helpers.ts:307-317 | the wait read off the filtered list is the time until the grant `limit` places back leaves the window |
| RateLimiting.WindowStart | examples/langgraph/utils/helpers.ts:308-309 | the filtered list is the tail of all grants still in the window, never longer than the limit |
| RateLimiting.OverlappingCalls | examples/langgraph/utils/helpers.ts:307-321 | after every run, any number of calls that start before the first of them is granted, the last still having to wait, fall due together when the grant `limit` places back leaves the window; the bound then holds if and only if they are no more than the limit and the grants they come a limit after were given together too |
| RateLimiting.OverlappingCallsBurst | examples/langgraph/utils/helpers.ts:307-321 | the smallest instance: a limit of one, two calls at once, granted together |
| RateLimiting.RateLimiter.Acquire | examples/langgraph/utils/helpers.ts:307-321 | the time of the grant and the new list |
| WorkerPool.CalledAtMostOnce | examples/langgraph/utils/helpers.ts:93-116 | at every moment of every schedule the mapper has been called on the first items once each, in order, and no more calls are in flight than the concurrency and than there are items; none is made below a concurrency of one |
| WorkerPool.PoolFills | examples/langgraph/utils/helpers.ts:110-114 | some schedule has exactly as many calls in flight as the smaller of concurrency and number of items, and there are so many workers |
| WorkerPool.SchedulesAreBounded | examples/langgraph/utils/helpers.ts:101-114 | no schedule runs for ever, one that has not ended can go on, and one that ends without a rejection took exactly two steps an item and one a worker |
| WorkerPool.ResultsAreComplete | examples/langgraph/utils/helpers.ts:93-116 | when all workers have stopped, every item has been mapped exactly once and its answer is at its place, if and only if no call was rejected and the concurrency is at least one or there are no items |
| WorkerPool.FirstErrorWins | examples/langgraph/utils/helpers.ts:114 | in every schedule the error is the reason of the first call rejected |
| WorkerPool.AsyncMap | examples/langgraph/utils/helpers.ts:93-116 | the function ends whichever worker the scheduler picks next, with the calls in flight within the concurrency throughout; it fails if and only if there is a worker and the mapper rejects some item, with the reason of the first call rejected; otherwise every answer is at its item's place, and what stands in the array is right either way; without workers all places stay empty |

## Left out

- DocumentConvergence.EveryoneConverges: the condition is sufficient, not necessary, because edits that clash can still give equal contents by accident; the exact condition is proved for any two edits (`DocumentConflicts.TwoEdits`) and for a delete between two insertions.
- DocumentLog.MergeIsIdempotent: for operations the store knew by id before the first merge, its own that come back, the condition is on the state between the two merges, because which of them were trimmed depends on how many of the others were applied; `DocumentLog.OwnOperationComesBack` shows one that fails it.
- DocumentExchange.DisjointEditsConverge: assumes replace is not called with a negative length, which the store accepts and which repeats text; `DocumentConflicts.RepeatedText` covers that replace within the text against any insertion, and the functions and methods model all cases.
- RateLimiting.SlidingWindow: callers await each acquire in turn and the timer never fires early; for overlapping calls the bound is false (`RateLimiting.OverlappingCallsBurst`) outside the condition of `RateLimiting.OverlappingCalls`, which has the timers fire on time.
- RegisterRuns.StampsAreUnique: every write names its own node and moves the replica's timestamp forward; without a name it is false (`RegisterRuns.SettingWithoutNodeCollides`).
- WorkerPool.AsyncMap: a mapper's side effects are not modelled, and of several rejections the one reported is the first the scheduler meets.
- LruCache.BiggerNeverDoesWorse: for sizes of at least one; below that `set` raises and the cache stays empty.
- Keys, values, items and node names are strings and vectors are sequences of reals; nothing is used of them but equality, and for node names the order that breaks ties. Aliasing of stored values is not modelled.
- Timestamps of registers are reals, without rounding, infinities or NaN; clocks, random ids and `uuid4` are parameters or numbers that grow with the log of updates.
- Document content is a sequence of code units; an operation's wall-clock timestamp, which nothing reads, is dropped, and inserts and replaces always carry a text.
- `GCounter.reset`: a stale snapshot undoes it, so it is not a step of any run.
- `ORMap.__eq__`, `items` and iteration order of dictionaries: they depend on the order of insertion.
- `loadSnapshot`, `export` and `import` of the store: they keep the user clocks of the state they replace.
- `GSet`, `to_dict`/`from_dict`, `merged`, hashing, representations, `CircuitBreaker` and the store factory: easy members.
- `SemanticCache`, `python/superinstance/crdt.py` and the other wrappers over native code; servers, clients, user interfaces, scripts and benchmarks; federated-learning numerics.

# Parents-first lease ordering, modelled in Dafny

This project models how a Kinesis client worker orders the shards (leases) it
may take. There are three parts:

- **Parents-first shard prioritization.** Each shard gets a dependency depth:
  - 0 when it is completed or absent from the batch;
  - otherwise 1 plus the largest depth among its parents.

  The shards are then sorted by that depth, and those deeper than a positive
  bound are dropped. A parent cycle among the active shards is an error.
- **The parents-first lease orderer.** It applies that prioritization with the
  bound `Integer.MAX_VALUE`.
- **The shuffling lease orderer.** It shuffles the lease list in place and
  returns that same list.

A shard is anything with an id, a list of parent ids and a completion flag
(`Shards.Shard`). Leases are modelled as shards.

Modules:

- `Shards` (shards.dfy): the shard record, Java's `int`, the two
  `IllegalArgumentException`s as an `Error` datatype, the id -> shard lookup
  a batch builds, and parent cycles.
- `Lists` (lists.dfy): `Collections.swap` on an array, and the copy of a list
  into a new array.
- `Depths` (depths.dfy): the depth equations as a specification (`IsDepthMap`).
  It proves the solution unique, proves a solution exists only on cycle-free
  batches, and bounds every depth by the number of active shards.
- `ParentsFirst` (parents_first.dfy): the algorithm as imperative code.
  - The class `ParentsFirstShardPrioritization` holds a checked `maxDepth`.
  - `populateDepth` works through a memo map with an in-progress marker.
  - `HashMap.values()` is read in an unspecified order.
  - The nodes are sorted in place on an array and then filtered.
  - Each step is proved against its own specification:
    - `BuildLookup` against `Lookup`;
    - `PopulateAll`, `PopulateDepth` and `PopulateParents` against the memo
      invariant `MemoInv` and the settledness predicate `Settled`, whose
      finished memo solves `IsDepthMap`;
    - `SortNodes` against sortedness by depth and multiset equality;
    - `CollectNodes` against each memo value appearing exactly once;
    - `FilterByDepth` against `Filter`.

    `Prioritize` puts these together and is proved against `IsPrioritization`,
    the specification of what `prioritize` returns. `LeasePrioritizer.Order`
    and `LeaseOrderers.Order` inherit it.
- `LeasePrioritizer` and `LeaseShuffler` (lease_prioritizer.dfy,
  lease_shuffler.dfy): the two lease orderers.
- `LeaseOrderers` (lease_orderer.dfy): the `LeaseOrderer` interface, as a
  datatype of its two implementations with a dispatching `Order`.
- `Scenarios` (scenarios.dfy): the batches the unit tests build, proved for
  every shuffle of the batch.

## Model

| member | source | states |
|---|---|---|
| Shards.Lookup | src/main/java/com/fivetran/external/com/amazonaws/services/kinesis/clientlibrary/lib/worker/ParentsFirstShardPrioritization.java:52-56 | The lookup has exactly one entry per distinct id of the batch. Each entry is keyed by its shard's own id, and there are no more entries than shards. |
| Shards.LookupKeepsLast | src/main/java/com/fivetran/external/com/amazonaws/services/kinesis/clientlibrary/lib/worker/ParentsFirstShardPrioritization.java:52-56 | Each entry is the LAST shard of the batch with that id, since a later `put` overwrites an earlier one. The lemma returns its position. |
| Depths.MaxOf | src/main/java/com/fivetran/external/com/amazonaws/services/kinesis/clientlibrary/lib/worker/ParentsFirstShardPrioritization.java:106-112 | The `Math.max` fold from 0 bounds every parent's depth from above. It is either 0 or the depth of some parent. |
| Depths.ParentShallower | src/main/java/com/fivetran/external/com/amazonaws/services/kinesis/clientlibrary/lib/worker/ParentsFirstShardPrioritization.java:106-114 | An active parent of an active shard has a strictly smaller depth. |
| Depths.DepthMapUnique | src/main/java/com/fivetran/external/com/amazonaws/services/kinesis/clientlibrary/lib/worker/ParentsFirstShardPrioritization.java:80-123 | Depth is a function of the parent and completion graph alone: two solutions of the depth equations are equal. |
| Depths.DepthMapExcludesCycle | src/main/java/com/fivetran/external/com/amazonaws/services/kinesis/clientlibrary/lib/worker/ParentsFirstShardPrioritization.java:84-88 | A batch whose depths solve the equations has no parent cycle among its active shards. |
| Depths.DepthMapStepsDown | src/main/java/com/fivetran/external/com/amazonaws/services/kinesis/clientlibrary/lib/worker/ParentsFirstShardPrioritization.java:106-114 | Every depth is at least 1. A shard of depth n > 1 has an active parent of depth n - 1, its deepest parent. So depths step down one level at a time. |
| Depths.DepthBounded | src/main/java/com/fivetran/external/com/amazonaws/services/kinesis/clientlibrary/lib/worker/ParentsFirstShardPrioritization.java:114 | No depth exceeds the number of active shards, which is at most the batch size. So `maxParentDepth + 1` cannot overflow `int`. |
| ParentsFirst.CompareTo | src/main/java/com/fivetran/external/com/amazonaws/services/kinesis/clientlibrary/lib/worker/ParentsFirstShardPrioritization.java:143-147 | `Integer.compare` on the depths: negative exactly when shallower, positive exactly when deeper. |
| ParentsFirst.CompareToIsPreorder | src/main/java/com/fivetran/external/com/amazonaws/services/kinesis/clientlibrary/lib/worker/ParentsFirstShardPrioritization.java:143-147 | The comparison is sign-antisymmetric and transitive, as `Comparable` demands. |
| ParentsFirst.CompletedNeverReturned | src/main/java/com/fivetran/external/com/amazonaws/services/kinesis/clientlibrary/lib/worker/ParentsFirstShardPrioritization.java:71-76 | A prioritization never returns a completed shard or an id outside the batch. Every returned shard has a depth between 1 and maxDepth. |
| ParentsFirst.ParentsComeFirst | src/main/java/com/fivetran/external/com/amazonaws/services/kinesis/clientlibrary/lib/worker/ParentsFirstShardPrioritization.java:23-27 | Every active parent of a returned shard is returned before it. |
| ParentsFirst.ShallowerIsEarlier | src/main/java/com/fivetran/external/com/amazonaws/services/kinesis/clientlibrary/lib/worker/ParentsFirstShardPrioritization.java:69 | In a list sorted by depth, a strictly shallower shard stands earlier. |
| ParentsFirst.ResultNoLongerThanBatch | src/main/java/com/fivetran/external/com/amazonaws/services/kinesis/clientlibrary/lib/worker/ParentsFirstShardPrioritization.java:66-77 | The result is no longer than the input list. |
| ParentsFirst.ResultFromBatch | src/main/java/com/fivetran/external/com/amazonaws/services/kinesis/clientlibrary/lib/worker/ParentsFirstShardPrioritization.java:52-56 | Every returned shard is an element of the input: the last one carrying its id. |
| ParentsFirst.DistinctIdsCount | src/main/java/com/fivetran/external/com/amazonaws/services/kinesis/clientlibrary/lib/worker/ParentsFirstShardPrioritization.java:66-77 | A list with distinct ids has as many ids as elements. |
| ParentsFirst.PrioritizationDeterminedUpToTies | src/main/java/com/fivetran/external/com/amazonaws/services/kinesis/clientlibrary/lib/worker/ParentsFirstShardPrioritization.java:68-69 | Any two results for one batch and bound agree on the depths, the set of ids and the length. Only the order within a depth may differ. |
| ParentsFirst.SettledStays | src/main/java/com/fivetran/external/com/amazonaws/services/kinesis/clientlibrary/lib/worker/ParentsFirstShardPrioritization.java:60-64 | Populating one more shard of the list keeps every earlier one settled. |
| ParentsFirst.AgreeOnSettled | src/main/java/com/fivetran/external/com/amazonaws/services/kinesis/clientlibrary/lib/worker/ParentsFirstShardPrioritization.java:84-90 | Growing the memo never changes the depth it gives a settled id. |
| ParentsFirst.StableResolved | src/main/java/com/fivetran/external/com/amazonaws/services/kinesis/clientlibrary/lib/worker/ParentsFirstShardPrioritization.java:84-90 | An entry that was correct stays correct in every later memo. |
| ParentsFirst.AllSettled | src/main/java/com/fivetran/external/com/amazonaws/services/kinesis/clientlibrary/lib/worker/ParentsFirstShardPrioritization.java:60-64 | Once every id of the list is populated, every active shard of the lookup is in the memo. |
| ParentsFirst.MemoIsDepthMap | src/main/java/com/fivetran/external/com/amazonaws/services/kinesis/clientlibrary/lib/worker/ParentsFirstShardPrioritization.java:58-64 | After populating, every entry is resolved and keyed by its own id. The depths it holds solve the depth equations. |
| ParentsFirst.CollectedAreGood | src/main/java/com/fivetran/external/com/amazonaws/services/kinesis/clientlibrary/lib/worker/ParentsFirstShardPrioritization.java:68 | The nodes copied out of the memo are the lookup's shards at their depths, each id once. |
| ParentsFirst.PermutationKeepsGood | src/main/java/com/fivetran/external/com/amazonaws/services/kinesis/clientlibrary/lib/worker/ParentsFirstShardPrioritization.java:69 | Sorting, being a permutation, keeps the nodes correct, distinct and with the same ids. |
| ParentsFirst.FilterIds | src/main/java/com/fivetran/external/com/amazonaws/services/kinesis/clientlibrary/lib/worker/ParentsFirstShardPrioritization.java:71-76 | The ids kept are exactly those of the nodes no deeper than maxDepth. |
| ParentsFirst.FilterFrom | src/main/java/com/fivetran/external/com/amazonaws/services/kinesis/clientlibrary/lib/worker/ParentsFirstShardPrioritization.java:71-76 | Every kept shard comes from a node no deeper than maxDepth. |
| ParentsFirst.FilterDistinct | src/main/java/com/fivetran/external/com/amazonaws/services/kinesis/clientlibrary/lib/worker/ParentsFirstShardPrioritization.java:71-76 | Filtering nodes with distinct ids yields shards with distinct ids. |
| ParentsFirst.FilterSorted | src/main/java/com/fivetran/external/com/amazonaws/services/kinesis/clientlibrary/lib/worker/ParentsFirstShardPrioritization.java:71-76 | Filtering nodes sorted by depth keeps the shards in depth order. |
| ParentsFirst.FilterSound | src/main/java/com/fivetran/external/com/amazonaws/services/kinesis/clientlibrary/lib/worker/ParentsFirstShardPrioritization.java:66-77 | Filtering the sorted resolved nodes yields a prioritization: the active shards of depth at most maxDepth, each once, as the lookup holds them, in depth order. |
| ParentsFirst.ParentsFirstShardPrioritization.constructor | src/main/java/com/fivetran/external/com/amazonaws/services/kinesis/clientlibrary/lib/worker/ParentsFirstShardPrioritization.java:40-48 | Stores a bound that is already known to be positive. |
| ParentsFirst.ParentsFirstShardPrioritization.Create | src/main/java/com/fivetran/external/com/amazonaws/services/kinesis/clientlibrary/lib/worker/ParentsFirstShardPrioritization.java:40-48 | Construction succeeds exactly when maxDepth > 0 and then keeps maxDepth. Otherwise it fails with the invalid-bound error naming the value. |
| ParentsFirst.ParentsFirstShardPrioritization.Prioritize | src/main/java/com/fivetran/external/com/amazonaws/services/kinesis/clientlibrary/lib/worker/ParentsFirstShardPrioritization.java:51-78 | Fails exactly when the active shards hold a parent cycle, with a circular-dependency error whose id lies on a cycle. Otherwise the result is a prioritization of the batch under maxDepth. The Java call can also fail by stack overflow, which the model leaves out. |
| ParentsFirst.ParentsFirstShardPrioritization.BuildLookup | src/main/java/com/fivetran/external/com/amazonaws/services/kinesis/clientlibrary/lib/worker/ParentsFirstShardPrioritization.java:52-56 | The loop of `put`s builds exactly the lookup of the batch. |
| ParentsFirst.ParentsFirstShardPrioritization.PopulateAll | src/main/java/com/fivetran/external/com/amazonaws/services/kinesis/clientlibrary/lib/worker/ParentsFirstShardPrioritization.java:58-64 | Either every shard of the list ends settled in a consistent memo, or a cycle stops the loop with an error naming an id on it. |
| ParentsFirst.ParentsFirstShardPrioritization.PopulateDepth | src/main/java/com/fivetran/external/com/amazonaws/services/kinesis/clientlibrary/lib/worker/ParentsFirstShardPrioritization.java:80-123 | Returns the depth of the id: memoised, 0 for absent or completed, else 1 + max over parents. It only grows the memo consistently. Meeting an in-progress id yields an error on a real cycle. The populated-twice check cannot fire. |
| ParentsFirst.ParentsFirstShardPrioritization.PopulateParents | src/main/java/com/fivetran/external/com/amazonaws/services/kinesis/clientlibrary/lib/worker/ParentsFirstShardPrioritization.java:106-112 | Settles every parent and returns the largest parent depth, or the first cycle met. |
| ParentsFirst.ParentStep | src/main/java/com/fivetran/external/com/amazonaws/services/kinesis/clientlibrary/lib/worker/ParentsFirstShardPrioritization.java:107-111 | One turn of the parent loop keeps earlier parents settled and folds the new depth into the maximum. |
| ParentsFirst.MarkInProgress | src/main/java/com/fivetran/external/com/amazonaws/services/kinesis/clientlibrary/lib/worker/ParentsFirstShardPrioritization.java:103-104 | Storing the in-progress marker extends the in-progress chain by that id and keeps the memo consistent. |
| ParentsFirst.MarkResolved | src/main/java/com/fivetran/external/com/amazonaws/services/kinesis/clientlibrary/lib/worker/ParentsFirstShardPrioritization.java:114-122 | Replacing the marker by the node at depth maxParentDepth + 1 restores the memo invariant. It settles the id at that depth. |
| ParentsFirst.CycleFromPath | src/main/java/com/fivetran/external/com/amazonaws/services/kinesis/clientlibrary/lib/worker/ParentsFirstShardPrioritization.java:84-88 | Meeting an in-progress id again closes a real parent cycle through it. |
| ParentsFirst.CollectNodes | src/main/java/com/fivetran/external/com/amazonaws/services/kinesis/clientlibrary/lib/worker/ParentsFirstShardPrioritization.java:68 | Copies every memo value exactly once, in an unspecified order. |
| ParentsFirst.SortNodes | src/main/java/com/fivetran/external/com/amazonaws/services/kinesis/clientlibrary/lib/worker/ParentsFirstShardPrioritization.java:69 | Sorts the nodes in place by depth as a permutation of the input. |
| ParentsFirst.InsertLast | src/main/java/com/fivetran/external/com/amazonaws/services/kinesis/clientlibrary/lib/worker/ParentsFirstShardPrioritization.java:69 | One insertion step grows the sorted prefix by one, as a permutation. |
| ParentsFirst.FilterByDepth | src/main/java/com/fivetran/external/com/amazonaws/services/kinesis/clientlibrary/lib/worker/ParentsFirstShardPrioritization.java:71-76 | The filtering loop computes `Filter`: the shards of the nodes no deeper than maxDepth, in order. |
| LeasePrioritizer.Order | src/main/java/com/fivetran/external/com/amazonaws/services/kinesis/leases/impl/LeasePrioritizer.java:10-12 | Construction with `Integer.MAX_VALUE` cannot fail. It fails only on a parent cycle. On a list of at most `Integer.MAX_VALUE` leases no active lease is dropped. |
| LeasePrioritizer.KeepsAllActive | src/main/java/com/fivetran/external/com/amazonaws/services/kinesis/leases/impl/LeasePrioritizer.java:11 | A bound no smaller than the batch keeps every active shard. |
| LeaseShuffler.Order | src/main/java/com/fivetran/external/com/amazonaws/services/kinesis/leases/impl/LeaseShuffler.java:10-14 | Returns the very list it was given, reordered in place as a permutation. |
| LeaseShuffler.Shuffle | src/main/java/com/fivetran/external/com/amazonaws/services/kinesis/leases/impl/LeaseShuffler.java:12 | The swap loop of `Collections.shuffle` keeps the same elements. |
| LeaseShuffler.ShuffleKeepsLeases | src/main/java/com/fivetran/external/com/amazonaws/services/kinesis/leases/impl/LeaseShuffler.java:12 | A permutation keeps the length and neither adds nor loses a lease. |
| LeaseOrderers.Order | src/main/java/com/fivetran/external/com/amazonaws/services/kinesis/leases/interfaces/LeaseOrderer.java:7-9 | The shuffler returns its argument, permuted. The prioritizer leaves its argument untouched and returns a new list: the prioritization of the leases, or an error exactly on a cycle. |
| Scenarios.ShuffledLookup | src/test/java/com/fivetran/external/com/amazonaws/services/kinesis/clientlibrary/lib/worker/ParentsFirstShardPrioritizationUnitTest.java:62-64 | Shuffling a batch of distinct ids leaves its lookup unchanged. |
| Scenarios.ChainDepthMap | src/test/java/com/fivetran/external/com/amazonaws/services/kinesis/clientlibrary/lib/worker/ParentsFirstShardPrioritizationUnitTest.java:93-94 | In a chain every shard has its own level: position k has depth k + 1. |
| Scenarios.ChainHasNoCycle | src/test/java/com/fivetran/external/com/amazonaws/services/kinesis/clientlibrary/lib/worker/ParentsFirstShardPrioritizationUnitTest.java:103-126 | A chain has no cycle, so prioritizing it succeeds. |
| Scenarios.ChainPrioritized | src/test/java/com/fivetran/external/com/amazonaws/services/kinesis/clientlibrary/lib/worker/ParentsFirstShardPrioritizationUnitTest.java:46-126 | For every shuffle of a chain, the result is the chain's first min(n, maxDepth) shards in chain order. |
| Scenarios.ChainResultIds | src/test/java/com/fivetran/external/com/amazonaws/services/kinesis/clientlibrary/lib/worker/ParentsFirstShardPrioritizationUnitTest.java:95 | The number of shards returned from a chain is min(n, maxDepth). |
| Scenarios.ChainResultOrder | src/test/java/com/fivetran/external/com/amazonaws/services/kinesis/clientlibrary/lib/worker/ParentsFirstShardPrioritizationUnitTest.java:97-100 | Those shards come out in chain order. |
| Scenarios.ClosedChainHasCycle | src/test/java/com/fivetran/external/com/amazonaws/services/kinesis/clientlibrary/lib/worker/ParentsFirstShardPrioritizationUnitTest.java:132-156 | A chain whose first shard names a later shard as parent has a cycle, so prioritizing it fails. |

## Left out

- `LeaseOrderer` is a Java interface. Here it is a datatype of its two implementations with one dispatching method.
- The lease classes (`KinesisClientLease`, `Lease`) are modelled only through what ordering reads: id, parent ids and completion. So a lease is a `Shards.Shard`.
- LeaseShuffler.Shuffle: the random source is an arbitrary choice of swap position at each step. The model therefore covers every order the shuffle can produce, but says nothing about its distribution.
- ParentsFirst.SortNodes: `Collections.sort` is a stable merge sort over a list. The model is an in-place insertion sort by the same comparison, over an array. It is proved to sort and to permute, which is all the result depends on. The order within a depth is left unspecified, as `HashMap.values()` order makes it in the source.
- ParentsFirst.CollectNodes: the iteration order of `HashMap.values()` is an arbitrary choice.
- ParentsFirst.ParentsFirstShardPrioritization.PopulateDepth: the memo is passed in and returned rather than mutated through a shared reference. The parent loop is split out as `PopulateParents`.
- ParentsFirst.ParentsFirstShardPrioritization.PopulateDepth: in Java, `populateDepth` recurses once per link of the longest active parent chain. On a long enough chain the JVM throws `StackOverflowError`, and `prioritize` fails with it. The model has no call-depth limit, so `Prioritize` returns `Ok` on every acyclic batch. Its contract does not promise the stack-overflow failure.
- The cycle error is a `Result` value rather than a thrown exception. The `IllegalStateException` for a shard populated twice is a proved assertion, because it cannot happen.
- ParentsFirst.ParentsFirstShardPrioritization.constructor requires a positive bound. The throwing Java constructor is `Create`.
- Depths are unbounded naturals. The `int` depth of the source cannot overflow on any list Java can hold (see `Depths.DepthBounded`).
- `null` ids, `null` parent collections and `null` list elements are not modelled.
- Other files of the repository (workers, checkpointing, DynamoDB lease storage, metrics, multi-language messages, test utilities) are not part of this model.

# Placement bookkeeping, producer fan-out and the mock dependency store

A Dafny model of three small stateful components of an H-Store fork, with proofs about them.

- **GAPlacement** is the genetic-algorithm placement planner. The model covers the bookkeeping before and after the search.
  - `init` flattens the per-partition hot-tuple maps into the parallel lists `tupleIds`, `accesses` and `locations`.
  - It computes the load and the plan left once the hot tuples are taken out.
  - It appends one entry per slice of the remaining cold ranges to `slices`, `sliceSizes`, `accesses` and `locations`.
  - `computePlan` zero-fills the caller's `partitionTotals` in place. It adds the totals to `totalAccesses` a second time, derives `placementCount`, the integer mean and one range constraint per placement, and returns the plan with its hot tuples demoted.

  Three facts fall out of the model:
  - `totalAccesses` ends at twice the sum of the totals.
  - The search result never reaches the returned plan.
  - `init` throws a NullPointerException in two places, where it unboxes a null `Long`: when a partition with hot tuples has no total, and when a partition with cold slices has no load. Missing totals are zero-filled only after `init` has run.
- **Producer** routes the items of an input sequence to consumers. `run` starts every consumer, queues each item on the consumer its transform names (asserting that the pair and both its parts are non-null), and then tells every consumer to stop once its queue is empty. Consumers are objects with a queue, a started flag, a stop flag and a processed counter.
- **MockExecutionSite** is the test double that stores the dependency table of each transaction and lets a waiter block on a latch. Its three dependency methods (`storeDependency`, `getDependency`, `waitForDependency`) are synchronized, and a waiter keeps the monitor while it waits. So the calls run one after another, and the model is sequential.

Layout:
- `Support.dfy` holds the shared modules `Wrappers` (the Option type), `Sums` (sums of map values, independent of iteration order) and `Seqs` (sequences without repetitions, parallel lists built from records, and hash-set iteration as an unspecified enumeration).
- Each component has its own file and module: `GAPlacement.dfy`, `Producer.dfy` and `MockExecutionSite.dfy`.

Collaborators whose source is not modelled are parameters:
- the `Plan` and `Placement` methods (`removeTupleId`, `getRangeSlices`, `getRangeListWidth`, `getTupleCount`, `demoteTuples`, `removeEmptyPartitions`) are the fields of `GAPlacement.PlanOps`;
- the subclass's `transform` is `Producer.Transform`;
- the interruption of a wait is a boolean argument.

## Model

| member | source | states |
|---|---|---|
| Sums.SumValues | src/frontend/org/qcri/PartitioningPlanner/placement/GAPlacement.java:47-52 | the loop over the key set of a totals map adds up exactly its values, in whatever order the keys are visited |
| Sums.MapSumRemove | src/frontend/org/qcri/PartitioningPlanner/placement/GAPlacement.java:122-124 | the sum of a map's values does not depend on which key is taken first |
| Seqs.Enumerate | src/frontend/edu/brown/utils/Producer.java:47 | iterating a hash set visits each member exactly once, in some order |
| GAPlacement.AsMapOfEntries | src/frontend/org/qcri/PartitioningPlanner/placement/GAPlacement.java:71-73 | a hot-tuple map, listed in iteration order without repeated ids, has one entry per listed tuple, with the listed count, and no other keys |
| GAPlacement.CountSumIsMapSum | src/frontend/org/qcri/PartitioningPlanner/placement/GAPlacement.java:71-72 | the accesses subtracted tuple by tuple add up to the sum of the map's values, whatever the iteration order |
| GAPlacement.HotRecordsLength | src/frontend/org/qcri/PartitioningPlanner/placement/GAPlacement.java:79-87 | the flattened hot tuples have one position per tuple of all the maps together |
| GAPlacement.HotRecordAt | src/frontend/org/qcri/PartitioningPlanner/placement/GAPlacement.java:79-87 | tuple j of partition p's map is at position (number of tuples of partitions before p) + j, with its id, count and partition p |
| GAPlacement.RecordOrigin | src/frontend/org/qcri/PartitioningPlanner/placement/GAPlacement.java:79-87 | every flattened position comes from some tuple j of some partition p's map |
| GAPlacement.HotRecordsSound | src/frontend/org/qcri/PartitioningPlanner/placement/GAPlacement.java:79-87 | every flattened position names a valid partition index, a tuple id of that partition's map and that tuple's access count |
| GAPlacement.FirstGap | src/frontend/org/qcri/PartitioningPlanner/placement/GAPlacement.java:69-76 | the partition where the subtraction of line 72 unboxes a null total is the first with hot tuples and no total: all hot partitions before it have totals |
| GAPlacement.FirstGapCovers | src/frontend/org/qcri/PartitioningPlanner/placement/GAPlacement.java:69-76 | no such partition exists exactly when every partition with hot tuples has a total |
| GAPlacement.FirstGapAt | src/frontend/org/qcri/PartitioningPlanner/placement/GAPlacement.java:71-72 | a partition with hot tuples and no total, after partitions that all have totals, is the first failing one |
| GAPlacement.ResidualIsMapDifference | src/frontend/org/qcri/PartitioningPlanner/placement/GAPlacement.java:48-76 | oldLoad has the keys of partitionTotals, and each hot partition's value is its total less the sum of its hot access counts |
| GAPlacement.RemoveTuples | src/frontend/org/qcri/PartitioningPlanner/placement/GAPlacement.java:71-74 | the inner loop takes the partition's hot accesses off its load and removes each tuple from the plan; it fails exactly when the partition has tuples but no load |
| GAPlacement.RemovePartition | src/frontend/org/qcri/PartitioningPlanner/placement/GAPlacement.java:69-76 | one pass of the outer loop adds the map's size to tupleCount and extends the residual load and plan by one partition, or fails there |
| GAPlacement.RemoveHot | src/frontend/org/qcri/PartitioningPlanner/placement/GAPlacement.java:67-76 | it succeeds exactly when every hot partition has a total, and then returns the residual load, the plan without hot tuples and the number of hot tuples; on failure it names the first failing partition, with tupleCount counted through it |
| GAPlacement.FirstSliceGap | src/frontend/org/qcri/PartitioningPlanner/placement/GAPlacement.java:91-95 | the partition where line 95 unboxes a null load is the first in visiting order with slices and no load |
| GAPlacement.FirstSliceGapCovers | src/frontend/org/qcri/PartitioningPlanner/placement/GAPlacement.java:91-95 | no such partition exists exactly when every partition with slices has a load |
| GAPlacement.ColdEntriesFrom | src/frontend/org/qcri/PartitioningPlanner/placement/GAPlacement.java:90-105 | there is one cold entry per slice; each entry is a slice of its own partition, with that slice's width as size |
| GAPlacement.ColdEntryAt | src/frontend/org/qcri/PartitioningPlanner/placement/GAPlacement.java:96-103 | the same, for one position |
| GAPlacement.SliceTotalOrderFree | src/frontend/org/qcri/PartitioningPlanner/placement/GAPlacement.java:91-94 | sliceCount is the sum of the slice counts of the partitions, whatever order the key set is iterated in |
| GAPlacement.ZeroFilledEntries | src/frontend/org/qcri/PartitioningPlanner/placement/GAPlacement.java:116-120 | the fill-in adds exactly the partitions below partitionCount that had no total, each with 0, and keeps all existing totals |
| GAPlacement.ZeroFilledSum | src/frontend/org/qcri/PartitioningPlanner/placement/GAPlacement.java:116-124 | the fill-in does not change the sum of the totals |
| GAPlacement.JavaDiv | src/frontend/org/qcri/PartitioningPlanner/placement/GAPlacement.java:127 | Java's long division truncates toward zero: the quotient's magnitude is the quotient of the magnitudes and its sign is the product of the signs |
| GAPlacement.PartitionTotals.constructor | src/frontend/org/qcri/PartitioningPlanner/placement/GAPlacement.java:111 | the caller's totals map, shared with computePlan |
| GAPlacement.PartitionTotals.FillMissing | src/frontend/org/qcri/PartitioningPlanner/placement/GAPlacement.java:116-120 | the caller's map becomes the zero-filled map |
| GAPlacement.RangeConstraints | src/frontend/org/qcri/PartitioningPlanner/placement/GAPlacement.java:140-143 | one constraint 0 .. partitionCount - 1 per placement, none when placementCount is not positive |
| GAPlacement.InitLengths | src/frontend/org/qcri/PartitioningPlanner/placement/GAPlacement.java:67-105 | when init completes: tupleCount is the number of hot tuples and the length of tupleIds, slices and sliceSizes have sliceCount entries, and accesses and locations have tupleCount + sliceCount |
| GAPlacement.InitHotPart | src/frontend/org/qcri/PartitioningPlanner/placement/GAPlacement.java:79-87 | once every hot partition has a total, tupleIds is the flattened ids, and accesses and locations begin with the flattened counts and partitions |
| GAPlacement.InitHotEntries | src/frontend/org/qcri/PartitioningPlanner/placement/GAPlacement.java:79-87 | for each of the first tupleCount positions, locations names the hot map the tuple came from and accesses holds its count in that map |
| GAPlacement.InitHotAt | src/frontend/org/qcri/PartitioningPlanner/placement/GAPlacement.java:79-87 | tuple j of partition p's map sits at position (tuples before p) + j of tupleIds, accesses and locations |
| GAPlacement.InitColdEntries | src/frontend/org/qcri/PartitioningPlanner/placement/GAPlacement.java:90-104 | after the hot tuples, each location is a partition of the residual plan, the slice at that position is cut from that partition's ranges, and its size is the slice's width |
| GAPlacement.InitSliceCountOrderFree | src/frontend/org/qcri/PartitioningPlanner/placement/GAPlacement.java:90-94 | when init completes, sliceCount counts the slices of every partition of the residual plan, independent of the iteration order |
| GAPlacement.GAPlacement.constructor | src/frontend/org/qcri/PartitioningPlanner/placement/GAPlacement.java:24-36 | all lists empty and all counters 0 |
| GAPlacement.GAPlacement.AddRecords | src/frontend/org/qcri/PartitioningPlanner/placement/GAPlacement.java:81-85 | appends the id, count and partition of each tuple of one map, in iteration order |
| GAPlacement.GAPlacement.FlattenHot | src/frontend/org/qcri/PartitioningPlanner/placement/GAPlacement.java:79-87 | appends the flattened hot tuples of all maps, partition by partition |
| GAPlacement.GAPlacement.AddSlices | src/frontend/org/qcri/PartitioningPlanner/placement/GAPlacement.java:95-103 | appends one entry per slice of the partition: the slice, its width, its weight and the partition |
| GAPlacement.GAPlacement.ScanSlices | src/frontend/org/qcri/PartitioningPlanner/placement/GAPlacement.java:90-105 | visits each partition of the plan once; it completes exactly when no partition with slices lacks a load, lists the slices of the partitions before the first failing one, and counts that partition's slices too |
| GAPlacement.GAPlacement.ListAll | src/frontend/org/qcri/PartitioningPlanner/placement/GAPlacement.java:78-105 | the fresh lists hold the hot tuples and then the cold slices, with the completion flag of the scan |
| GAPlacement.GAPlacement.Init | src/frontend/org/qcri/PartitioningPlanner/placement/GAPlacement.java:39-106 | totalAccesses is the sum of the totals; on a missing hot total it throws with empty lists; otherwise the lists are those of the residual load and plan, and it throws exactly when a partition with slices has no load |
| GAPlacement.GAPlacement.ComputePlan | src/frontend/org/qcri/PartitioningPlanner/placement/GAPlacement.java:111-174 | an exception of init leaves the totals untouched; otherwise the totals are zero-filled and totalAccesses is twice their sum; a zero partitionCount throws; otherwise placementCount, the truncated mean, one constraint per placement, and the returned plan is removeEmptyPartitions(demoteTuples(hot, aPlan)), independent of the search |
| Producer.Consumer.Start | src/frontend/edu/brown/utils/Producer.java:48 | start sets the started flag and nothing else |
| Producer.Consumer.Queue | src/frontend/edu/brown/utils/Producer.java:57 | queue appends the item to the queue and changes nothing else |
| Producer.Consumer.StopWhenEmpty | src/frontend/edu/brown/utils/Producer.java:64 | stopWhenEmpty sets the stop flag and nothing else |
| Producer.ItemsForAppend | src/frontend/edu/brown/utils/Producer.java:52-57 | one more queue call adds its item to the end of one consumer's items only |
| Producer.QueuedExactlyOnce | src/frontend/edu/brown/utils/Producer.java:52-57 | when every call queues on a member of the set, the queues of the set receive exactly as many items as there were calls |
| Producer.CallsOnceEach | src/frontend/edu/brown/utils/Producer.java:47-49 | visiting each consumer of the set once calls start (or stopWhenEmpty) exactly once on each member and on nothing else |
| Producer.CallsAt | src/frontend/edu/brown/utils/Producer.java:64 | the i-th call is on the i-th visited consumer |
| Producer.OnceEachLength | src/frontend/edu/brown/utils/Producer.java:47-49 | a once-each sequence of calls has as many calls as the set has members |
| Producer.EveryItemQueuedOnce | src/frontend/edu/brown/utils/Producer.java:52-57 | counted over the consumers, run's queues receive exactly one item per queue call: none lost, none duplicated |
| Producer.DefaultProducer | src/frontend/edu/brown/utils/Producer.java:115-120 | a fresh producer over the input that routes with defaultTransform and has no consumers |
| Producer.Producer.constructor | src/frontend/edu/brown/utils/Producer.java:32-34 | keeps the input and starts with no consumers |
| Producer.Producer.WithConsumers | src/frontend/edu/brown/utils/Producer.java:36-39 | keeps the input and starts with the given consumers |
| Producer.Producer.AddConsumer | src/frontend/edu/brown/utils/Producer.java:41-43 | adds the consumer to the set; adding a member again leaves the set unchanged |
| Producer.Producer.DefaultTransform | src/frontend/edu/brown/utils/Producer.java:77-79 | pairs some member of the consumer set with the item cast to the output type, which is null exactly for a null input element; the pair passes run's assertions exactly when the element is non-null |
| Producer.Producer.Transform | src/frontend/edu/brown/utils/Producer.java:53 | the call on an item after j earlier calls does what the subclass's transform does there: it returns a pair or throws, and may depend on the earlier calls. For the default producer (lines 115-120) it returns defaultTransform's pair |
| Producer.Producer.Run | src/frontend/edu/brown/utils/Producer.java:46-65 | every consumer is started once and before any item is queued; items are queued in input order, each on the consumer its pair names; run ends early at the first item whose transform throws (with that exception) or whose pair or one of its parts is null (with an AssertionError; under the default route this is the first null input element); when it did not end early, every consumer is then told, once, to stop when empty; each consumer's queue grows by exactly its items, in input order |
| Producer.Producer.StartAll | src/frontend/edu/brown/utils/Producer.java:47-49 | starts every consumer once and changes nothing else |
| Producer.Producer.QueueAll | src/frontend/edu/brown/utils/Producer.java:51-60 | queues the items in input order up to the first item whose transform throws or whose pair fails the assertions, and says which of the two happened; it completes exactly when every call returns a valid pair |
| Producer.Producer.QueueItem | src/frontend/edu/brown/utils/Producer.java:53-57 | the transform call for one item either throws, or returns a pair that passes the three assertions exactly when it is non-null with non-null parts; only when it passes is its item appended to its consumer's queue |
| Producer.Producer.StopAll | src/frontend/edu/brown/utils/Producer.java:64 | tells every consumer once to stop when empty and changes nothing else |
| Producer.Producer.GetTotalProcessed | src/frontend/edu/brown/utils/Producer.java:86-92 | the sum of the processed counters over the consumer set, 0 for an empty set |
| Producer.Producer.GetRunnablesList | src/frontend/edu/brown/utils/Producer.java:98-105 | the producer first, then each consumer exactly once: length 1 + number of consumers |
| MockExecutionSite.AfterStore | tests/frontend/org/voltdb/MockExecutionSite.java:42-49 | the stored value reads back, other transactions are untouched, and an existing latch counts down, never below 0, and is not removed |
| MockExecutionSite.AfterWait | tests/frontend/org/voltdb/MockExecutionSite.java:56-71 | a wait never changes the stored values; with a value present it leaves the latches alone; otherwise it adds a latch of count 1 only when none exists |
| MockExecutionSite.WaitResult | tests/frontend/org/voltdb/MockExecutionSite.java:56-72 | a wait returns the value present when it was called, null when absent, and throws when interrupted while the value is absent |
| MockExecutionSite.ValueSurvives | tests/frontend/org/voltdb/MockExecutionSite.java:42-72 | calls that do not store for a transaction leave the value stored for it unchanged |
| MockExecutionSite.StoreThenRead | tests/frontend/org/voltdb/MockExecutionSite.java:42-54 | after a store, any calls that do not store for the same transaction let getDependency return the stored data, and a wait returns it when it is non-null |
| MockExecutionSite.OnlyStoresWrite | tests/frontend/org/voltdb/MockExecutionSite.java:52-72 | reads and waits never change the stored values |
| MockExecutionSite.LatchesPersist | tests/frontend/org/voltdb/MockExecutionSite.java:45-63 | a registered latch is never removed and its count never grows |
| MockExecutionSite.StoreIgnoresSender | tests/frontend/org/voltdb/MockExecutionSite.java:42-44 | the sender partition and the dependency id do not influence a store |
| MockExecutionSite.MockExecutionSite.constructor | tests/frontend/org/voltdb/MockExecutionSite.java:23-29 | both maps start empty |
| MockExecutionSite.MockExecutionSite.StoreDependency | tests/frontend/org/voltdb/MockExecutionSite.java:42-50 | puts the data, overwriting any earlier value, and counts an existing latch down |
| MockExecutionSite.MockExecutionSite.GetDependency | tests/frontend/org/voltdb/MockExecutionSite.java:52-54 | the stored value, or null for a transaction with none |
| MockExecutionSite.MockExecutionSite.WaitForDependency | tests/frontend/org/voltdb/MockExecutionSite.java:56-73 | the new state and the outcome of a wait, as AfterWait and WaitResult state them |

## Left out

- Overflow of Java's `int` and `long` is not modelled: `tupleCount`, `sliceCount`, `placementCount`, the totals and `totalAccesses` are unbounded integers.
- The genetic-algorithm run (GAPlacement.java:132-139 and 144-164) uses a library that is not part of this model. Left out are the parameter set, the fitness class and its initialization, the selection algorithm, the generation limit, the hook, the search and the printing of its results. These calls, among them `setPopulationSize(0)` at line 133 and `ga.exec()` at line 158, are assumed to return normally. The search result never affects the state or the returned plan.
- Lines 140-143 are modelled by `RangeConstraints` and `Computed.constraints`: one range constraint per placement on the individuals factory built at line 140. Building the factory itself is left out.
- The console output of `computePlan` (the mean printed at GAPlacement.java:129, and the results) is left out.
- The weight of a cold slice (GAPlacement.java:95-98) is floating-point arithmetic, possibly dividing by a zero tuple count. It is the uninterpreted `PlanOps.sliceWeight` of the partition's load, its tuple count and the slice width.
- The `Plan` and `Placement` methods are uninterpreted, with no properties assumed. That covers `removeTupleId`, `getRangeSlices`, `getRangeListWidth`, `getTupleCount`, `demoteTuples` and `removeEmptyPartitions`.
- `removeEmptyPartitions` changes the plan in place; it is modelled as a function of the plan.
- Reading the plan file in `computePlan` (line 113) is the `aPlan` parameter.
- The copy loops of lines 48-52 and 55-63 produce copies of the totals and of the plan; they are modelled as value copies.
- The unused `partitionCount` parameter of `init` and the unused `timeLimit` of `computePlan` are omitted.
- Null values stored in `partitionTotals` or in a hot-tuple map are not modelled; only missing keys are.
- GAPlacement.GAPlacement.constructor: the lists start out `null` in the source and empty in the model; `init` replaces them before any use.
- Java assertions in `Producer.run` are modelled as enabled (run with `-ea`).
- Producer.Producer.Run: a null member of the consumer set is not modelled; consumers are non-null references. `addConsumer(null)` is accepted by the HashSet, and `c.start()` at Producer.java:48 would then throw a NullPointerException.
- Producer.Producer.Transform: a custom transform is modelled as a function of the item and of the number of calls before it, so its outcome is fixed once the input is. The properties hold for every such function, so they cover every sequence of outcomes a stateful transform can produce within one run. What it throws is not distinguished: every exception is `TransformError`.
- Producer.Producer.DefaultTransform: the random choice of a consumer is an unspecified choice from the set. The method requires a non-empty set, and so does `Run` with the default transform on a non-empty input, because `CollectionUtil.random` is not part of this model and its behaviour on an empty collection is unknown.
- The `Consumer` class is not part of this model. Its `start`, `queue` and `stopWhenEmpty` are modelled by the fields they are called to change.
- Consumer threads, the processing that advances the processed counters, and log4j logging are not modelled. That includes the debug message of Producer.java:58-59. When debug logging is on, its `t.getClass()` would throw at every hundredth item if that item is null. Under the default route, a null item fails the assertion at line 56 first; a custom route could pass one through.
- The 100 ms timed wait of `waitForDependency` and thread interruption are reduced to one boolean argument. Console output on `System.err` is left out.
- The `waitForResponses` and `processClientResponse` stubs of MockExecutionSite (lines 31-39) and the base-class constructor arguments are not modelled.
- tests/frontend/edu/brown/hstore/TestReconfigurationMultiPartitionEE.java is not part of this model: it drives a native engine whose logic is not in these sources.
- Key-set iteration order of hash maps and sets is an unspecified enumeration (`Seqs.Enumerate`). The results that do not depend on it (`SliceTotalOrderFree`, `GetTotalProcessed`, the once-each lemmas) are stated for every order.
- `Producer.getConsumers` returns an unmodifiable view of the set; it is simply the `consumers` field.

# Gramophile in Dafny

Gramophile keeps a record collection that lives on Discogs: it lays the records out on shelves, plans how to move
them, prices and tracks what is for sale, works through wantlists, and does all of this from one background queue.
This project models the four parts of it with the most state and branching, and proves what they promise.

**Shelves and moves.** `RecordOrder` compares two records, `ShelfOrder` selects and sorts them, `ShelfGroups` groups them by label and breaks up
groups that fit nowhere, `Packing` is the packing loop with its optional look-ahead, `ShelfSnapshot` turns placed
elements back into placed records, and `Snapshot` puts these together as `BuildSnapshot`. `FirstFit` proves that the
layout without spilling is optimal, `Windows` says what the look-ahead may take and what it must not leave behind,
`LookAhead` which settings place everything exactly once, and `ElementIds` exactly when the ids that the loop relies on
are distinct. `SlotMoves` and `MoveOrder` are the two functions of
`org/diff.go`, `MoveTheorems` is about the order of the moves, and `Reshelving` carries a plan out move by move and
joins packing and scheduling. `ShelfModel` holds the shared types and the widths, `StableSorting` the stable sort that
the whole project uses for Go's library sorts.

**Task queue.** `TaskQueue` describes every operation as a function on states and proves what all runs keep;
`QueueMarks` says when the deduplication marks are exactly the keys of the stored tasks, `QueueProgress` that no task is
lost; `QueueService` is the `Queue` object itself, a class whose methods are proved against those functions.

**Sales.** `SalesSync` is the paged inventory sync and the full reconciliation, `SyncTheorems` says what they leave in
the store, `PriceHistory` is the tidying of a price history, `SalePrices` the price reductions, `PriceTheorems` what
they keep over all runs of adjustments and updates, and `SaleLinks` the linking of sales to records. `SalesModel` holds
the shared types.

**Two small machines.** `Wantlist` is the one-by-one wantlist loop, `CollectionCache` the cache of the terminal client.
`Basics` holds what all parts share.

Methods follow the step-by-step code of the source (loops over indexes, arrays in the graph of the moves, fields of the
queue and the cache) and are proved equal to a specification function or predicate; the lemmas then say what that
specification means. For the main operations the contract also says what the result is without that function: where each
selected record comes from (`ShelfOrder.IsSelection`), which price is queued (`SalePrices.PriceIs`), what a round of the
queue leaves (`QueueProgress.RoundEnds`), what a linked sale has taken over (`SaleLinks.TakenOver`), where the walk over
a wantlist stops (`Wantlist.Walked`). No lemma uses automatic induction: every proof by induction is written out.

Where the code does less than one would expect, the exact condition under which it does what it should is proved, next
to an input that shows the difference:

- Look-ahead does not consult the set of placed elements. Elements are placed once on every choice of shelves exactly
  when, inside every window, none is narrower than the one that opens it (`LookAhead.WindowPlacesOnceIff`); a setting
  places all elements once exactly when it is 0 (`LookAhead.LookAheadPlacesOnceIff`; example
  `LookAhead.BoxSetPlacesTwice`).
- Two elements with the same id lose records. Ungrouped, the instance id of a too wide record can be the list number of
  another one; grouped, every group that resumes an earlier label has id 0. The snapshot is complete exactly when
  neither happens (`Snapshot.UngroupedConservesIff`, `Snapshot.GroupedConservesIff`, `Snapshot.SnapshotCompleteIff`;
  examples `Snapshot.BoxSetLosesRecord` and `Snapshot.ResumedLabelLosesRecord`).
- A slot can be overfull on the way exactly when some move out of it, itself behind a circle of moves, sorts after a
  move into it that it blocks, a condition on the moves alone (`Reshelving.PlanIsSafeIff`; example
  `Reshelving.SwapOverfills`).
- The next task is missed exactly when it has run date -1, which stands for "not found", and a later search finds
  another one (`TaskQueue.SelectIsNextIff`; example `TaskQueue.MinusOneIsMissed`).
- A request leaves a mark without a task exactly when its new key is marked and it then runs into the user limit or a
  failed write (`QueueMarks.EnqueueMarksIff`, `QueueMarks.LeakBlocksKey`); deleting a task does so exactly when its
  key changed while it ran (`QueueMarks.DeleteMarksIff`), and it clears the mark of another task exactly when that one
  has the new key (`TaskQueue.ChangedKeyIff`). A restart forgets all marks (`TaskQueue.RestartIff`).
- A price rises exactly when an adjustment during the hold at the median overtakes a queued update to a lower price
  (`PriceTheorems.PriceRuns`, `PriceTheorems.OvertakingRaisesIff`; how it comes about:
  `PriceTheorems.LateUpdateRaisesPrice`).
- A timed sale is priced below its median before any hold exactly when its initial price is below the median
  (`PriceTheorems.PricedBelowMedianIff`), as it is for every sale of the sync, since nothing outside the tests sets an
  initial price (example `PriceTheorems.NoInitialPriceClimbs`).
- Two passes settle a wantlist exactly when the first one does not open an entry in front of one that is neither
  pending nor purchased; three always do (`Wantlist.TwoPassesSettleIff`, `Wantlist.ThreePassesConverge`; example
  `Wantlist.TwoPassesAreNotEnough`).
- A filled cache agrees with its record list exactly when the first and the last record of each instance id are equal
  (`CollectionCache.RebuiltAgreesIff`), and an upsert keeps the order of a rebuild exactly when the record does not
  join a release behind one that comes later in the list (`CollectionCache.UpsertKeepsOrderIff`; example
  `CollectionCache.OrderMayDiffer`).

The repository's README.md:100 says that `RefreshSales` and `ReconcileSales` are throttled per user; the code
throttles `RefreshRelease`, `RefreshEarliestReleaseDate`, `RefreshEarliestReleaseDates` and `RefreshWant`
(queuelogic/logic.go:654-657), and the model follows the code.

## Model

| member | source | states |
|---|---|---|
| ShelfModel.GetWidth | org/org.go:191-227 | The three separate accumulations by density all give the sum of the widths of the single records; an unknown density gives -1 |
| ShelfModel.OneRecord | org/org.go:191-227 | What one record takes up under each density: 1; its disks, with one for every format without a quantity; or its width, or else the assumed one, times the factor of its sleeve, or 1 |
| ShelfModel.WidthsAddUp | org/org.go:191-227 | The width of two groups put together is the sum of their widths |
| ShelfModel.SumWidthsNonNegative | org/org.go:184-227 | With non-negative sleeve factors and widths no group is narrower than 0, which optimality needs |
| ShelfModel.ComputeDefaultWidth | org/org.go:451-467 | The nested loops compute the average of the measured widths of all records, 1 if there is none, or 0 when missing widths are ignored |
| ShelfModel.DefaultWidthIs | org/org.go:451-467 | The assumed width times the number of records with a positive width is the sum of all widths; it is 1 when there is no such record, and 0 when missing widths are ignored |
| ShelfModel.DefaultWidthBounds | org/org.go:451-467 | The assumed width is never negative nor above the widest record (or 1) |
| RecordOrder.EarlierByKeys | org/org.go:295-368 | Which key each sort compares: the comparator puts one record before another exactly when the keys, in dictionary or number order with missing ones last, do not allow the other order |
| ShelfOrder.ComparatorIsStrictWeakOrder | org/org.go:295-368 | All five comparators, with their blank-goes-last rules, are strict weak orders, as a stable sort requires |
| ShelfOrder.SelectIndex | org/org.go:276-369 | The loops over folder sets and records select the records of one index and sort them as the last selecting folder set says |
| ShelfOrder.SelectAndSort | org/org.go:268-371 | Every record comes out once for each folder set with an index of at least 0 that names its folder: by index, inside an index by the keys of the sort of the last folder set that selects a record, and equal keys by folder set and then by position in the collection |
| ShelfOrder.SelectionIsUnique | org/org.go:268-371 | Only one list is such a selection |
| ShelfOrder.IndexIsSortedStably | org/org.go:295-368 | Inside an index the records are in order, and records that tie keep their selection order |
| ShelfOrder.OrderingConserves | org/org.go:268-371 | A record comes out as often as it is in the collection times the number of folder sets (with a non-negative index) that name its folder |
| ShelfGroups.GroupByLabel | org/org.go:401-427 | The loop yields the maximal runs of neighbours with the same label, each with the id the code gives it |
| ShelfGroups.ResumesIff | org/org.go:402-413 | A group takes up a label again, and so gets no fresh id, exactly if the last record sorted by label in front of it has the same label, however many records without one come between |
| ShelfGroups.GroupingFlattens | org/org.go:401-427 | Grouping keeps every record, in order, and makes no empty group |
| ShelfGroups.GroupSingly | org/org.go:428-437 | Ungrouped, every record is an element numbered from 1 |
| ShelfGroups.SinglesFlatten | org/org.go:428-437 | Ungrouped elements keep every record, in order |
| ShelfGroups.BreakOutGroups | org/org.go:471-492 | Groups that fit in no space but the spill are split into records that carry their instance ids |
| ShelfGroups.BreakOutConserves | org/org.go:471-492 | Breaking out keeps every record, in order, and each group left over does fit on some shelf |
| Packing.PackElements | org/org.go:504-588 | The loop over element, space and unit terminates, never leaves the list of spaces, and computes the specified layout |
| Packing.LookAhead | org/org.go:524-553 | The inner loop fills the current unit from the window behind the element that did not fit |
| Windows.OvertakesWithinWindow | org/org.go:524-553 | An element placed in front of an earlier one is at most the configured look-ahead behind it in the list |
| Windows.OutOfTurnWhenFull | org/org.go:520-553 | An element is placed out of turn only from the window behind the next one in turn, and only when that one has no room in the unit beside what was there before |
| Windows.LeftUnitsAreUsedUp | org/org.go:520-568 | When a unit is left because an element does not fit, everything in the window behind that element (or everything later, for a negative look-ahead) is in the unit or does not fit beside its final load |
| Packing.StepProgress | org/org.go:504-588 | Every iteration stays inside the spaces, and takes an element, moves to the next space, or moves to a later unit of the same space |
| Packing.PackIsSound | org/org.go:504-588 | In both spill modes: units never go backwards, no unit exceeds its capacity, the numbering is consecutive and every element id is placed |
| FirstFit.PackIsFirstFit | org/org.go:504-588 | Without spilling, the loop is a first fit of the elements in list order, within capacity |
| FirstFit.StaysAhead | org/org.go:504-588 | Against any order-preserving layout within capacity, first fit is never in a later unit and never fuller in the same unit |
| FirstFit.FirstFitIsOptimal | org/org.go:504-588 | Hence every other layout puts every element in the same or a later unit, and spills whatever first fit spills |
| FirstFit.PackIsOptimal | org/org.go:504-588 | The code's layout is optimal in that sense: nothing reaches the spill space that could have been kept out of it |
| LookAhead.BoxSetPlacesTwice | org/org.go:524-553 | For every look-ahead setting but 0 there is a job in which an element is placed in two units |
| LookAhead.WindowPlacesOnceIff | org/org.go:511-552 | With a look-ahead, elements with distinct ids are placed exactly once on every choice of shelves if and only if inside every window none is narrower than the one that opens it |
| LookAhead.LookAheadPlacesOnceIff | org/org.go:511-552 | A look-ahead setting places every id exactly once for all jobs if and only if it is 0 |
| LookAhead.NoSpillPlacesOnce | org/org.go:504-588 | Without spilling no id is ever placed twice |
| ShelfSnapshot.ExpandPlacements | org/org.go:592-607 | The loop turns the placements of elements into placements of their records |
| ShelfSnapshot.IndexRecords | org/org.go:374-378 | The map holds the position of each record in the sorted list, 0 for others |
| ShelfSnapshot.FileElements | org/org.go:496-500 | The map holds, under each id, the records of the last element with that id |
| ShelfSnapshot.ExpandNumbers | org/org.go:592-607 | The record placements are numbered 1, 2, 3, ... without a gap |
| ShelfSnapshot.ExpandUnitsOrdered | org/org.go:592-607 | Expansion keeps the units and their order |
| ShelfSnapshot.CapacityAfterExpansion | org/org.go:516-607 | In both spill modes the single widths of all records placed in a unit sum to at most the width of its space |
| ShelfSnapshot.ConservedIff | org/org.go:440-447 | Without spilling the placements list the packed records, each once and in order, if and only if no two elements share an id |
| ShelfSnapshot.ShadowedIsLost | org/org.go:496-500 | Every record of an element whose id is taken again later is missing |
| ShelfSnapshot.ClashLoses | org/org.go:440-447 | Every id clash loses some record, in both spill modes |
| ElementIds.SingleIdsDistinctIff | org/org.go:484-487 | Ungrouped ids are distinct if and only if no too wide record has an instance id that is the list number of a record that fits |
| ElementIds.GroupIdsDistinctIff | org/org.go:402-427 | Grouped ids are distinct if and only if at most one run of records that resumes an earlier label fits on a shelf |
| Snapshot.BuildSnapshot | org/org.go:246-614 | The whole function, from collection to sorted placements, computes the composition of the parts above, and leaves one more spill space in the organisation |
| Snapshot.BuildingAgainIsSame | org/org.go:394-399 | Although every call appends another spill space, building again from what is left yields the same snapshot |
| Packing.PackIgnoresMore | org/org.go:394-399 | The loop never gets past the first spill space, whatever follows it |
| Snapshot.OrderedDistinct | config/organisation.go:40-66 | With folders mapped once, selection yields no instance id twice |
| Snapshot.AlreadySorted | org/org.go:229-238 | The sort by index inside the hash changes nothing, and the indexes run from 1 |
| Snapshot.SnapshotConservesIff | org/org.go:246-614 | End to end without spilling: the snapshot is the sorted collection, each record once, numbered 1..n, with its own width and original position, if and only if no ids clash, a condition on records, shelves and measure; otherwise not even the instance ids agree |
| Snapshot.UngroupedConservesIff | org/org.go:246-614 | Ungrouped, that condition is: no too wide record has an instance id that is the list number of one that fits |
| Snapshot.GroupedConservesIff | org/org.go:246-614 | Grouped, it is: at most one run of records that resumes an earlier label fits on a shelf |
| Snapshot.SnapshotCompleteIff | org/org.go:246-614 | In both spill modes every selected record is in the snapshot if and only if that condition holds |
| Snapshot.SnapshotCapacity | org/org.go:246-614 | End to end in both spill modes: if no ids clash, no unit of the snapshot exceeds the width of its space |
| Snapshot.SnapshotIsOptimal | org/org.go:246-614 | End to end without spilling: no layout in the same order and within capacity uses an earlier unit for any element |
| Snapshot.SnapshotLosesNothing | org/org.go:511-607 | End to end with look-ahead: if no ids clash, every selected record is placed at least once, units never go backwards, the numbering is consecutive |
| Snapshot.ClashedRecordMissing | org/org.go:440-447 | A record whose element shares its id with a later one is missing from the snapshot |
| Snapshot.ResumedLabelLosesRecord | org/org.go:402-427 | Three records in which a resumed label makes the snapshot lose one |
| Snapshot.BoxSetLosesRecord | org/org.go:484-487 | Two records in which a broken-out box set is lost, without grouping |
| SlotMoves.ComputeSlotMoves | org/diff.go:12-47 | The loops over both snapshots (nil ones and nil entries included) yield the specified list of moves |
| SlotMoves.ChangesExact | org/diff.go:12-47 | There is exactly one move for each record whose slot changed, from its old slot to its new one, and none for any other |
| MoveOrder.BuildGraph | org/diff.go:60-80 | The adjacency lists hold for each move the moves that end where it starts, and the in-degrees count them |
| MoveOrder.Release | org/diff.go:107-119 | Taking a move keeps the in-degrees equal to the number of blockers left and the queue equal to the moves with none |
| MoveOrder.Kahn | org/diff.go:82-119 | The loop takes, among the ready moves, one with the lowest start unit, and stops only when no move is ready |
| MoveOrder.OrderSlotMoves | org/diff.go:52-147 | The output is a greedy part followed by the fallback, in which every move waits for another move of the fallback |
| MoveTheorems.ScheduleIsPermutation | org/diff.go:121-147 | In all cases the output is a permutation of the moves |
| MoveTheorems.FallbackIffCycle | org/diff.go:121-147 | The fallback is used if and only if some moves block one another in a circle, and a dependency broken by the output is one between two fallback moves |
| MoveTheorems.FallbackIsBehind | org/diff.go:121-147 | The fallback holds exactly the moves at the end of a chain of blocking moves that comes round to one of them again |
| MoveTheorems.FallbackByUnit | org/diff.go:128-144 | The fallback is in order of start unit, and in the order of the list where start units are equal |
| MoveTheorems.BrokenIff | org/diff.go:121-147 | A move is taken before one that blocks it if and only if the blocking one is behind a circle and sorts after it |
| MoveTheorems.LeastOrder | org/diff.go:93-119 | Without cycles and with distinct start units the output is the lexicographically least valid order by start unit |
| MoveTheorems.ScheduleIsTopological | org/diff.go:93-119 | Without cycles the output is a valid order |
| Reshelving.PlanArrives | org/diff.go:12-147 | The finished plan has every record of both snapshots in its end slot |
| Reshelving.SlotNeverOverfull | org/diff.go:52-147 | If a slot respects its capacity in both snapshots it does so after any number of the moves, in any order that breaks no dependency into it |
| Reshelving.SafeSlotIff | org/diff.go:52-147 | And for snapshots that place each record once, a slot is safe for all widths and capacities under an order if and only if the order breaks no dependency into it |
| Reshelving.InOrderIff | org/diff.go:52-147 | For the code's own order, that can be told from the moves alone |
| Reshelving.PlanIsSafeIff | org/diff.go:12-147 | The plan is safe for a slot, whatever the widths and the capacity, if and only if no move out of it that is behind a circle sorts after a move into it that it blocks |
| Reshelving.OutsideFallbackInOrder | org/diff.go:121-147 | The ordered moves break dependencies only into slots that the fallback fills |
| Reshelving.SwapOverfills | org/diff.go:121-144 | An example: any order of swapping two full slots overfills one |
| Reshelving.ReshelvingIsSafe | org/org.go:504-607 | The ordered moves between two snapshots built by the packing loop never exceed the capacity of a unit at which the moves meet that condition |
| TaskQueue.EnqueueKeepsRepIff | queuelogic/logic.go:615-692 | An accepted request keeps keys, priorities, counts and store in agreement if and only if its run date is new |
| TaskQueue.EnqueueKeepsInv | queuelogic/logic.go:615-692 | Every outcome of Enqueue keeps agreement, the user limit and deduplication |
| TaskQueue.DeleteKeepsInv | queuelogic/logic.go:582-607 | So does deleting a stored task |
| TaskQueue.DrainKeepsInv | queuelogic/logic.go:375-482 | So does every kind of drain |
| TaskQueue.DrainIsExact | queuelogic/logic.go:375-482 | A drain removes exactly the tasks of the kinds it is for, its count is the number of tasks removed, and the others stay as they are |
| TaskQueue.ChangedKeyIff | background/sales.go:858-861 | Deleting a task whose key its handler changed keeps the invariant if and only if no other stored task has the new key |
| TaskQueue.OldKeyLeaksIff | queuelogic/logic.go:582-607 | The old key then stays marked with nothing stored under it, if and only if the key did change, and requests with it are refused |
| TaskQueue.RunsAreSafe | queuelogic/logic.go:263-373 | Along every run from an empty queue, with handlers that enqueue while they run: the fields agree with the store, no user has over 200 throttled tasks, and no key is stored twice or unmarked |
| TaskQueue.SelectIsNextIff | queuelogic/logic.go:694-760 | The task selected is the earliest HIGH one, else the earliest NORMAL one, else the earliest of all, if and only if the next task is not one with run date -1 that a later search passes over |
| TaskQueue.MinusOneIsMissed | queuelogic/logic.go:694-760 | Two requests to an empty queue after which a HIGH task with run date -1 is passed over |
| QueueProgress.IssuedAreStored | queuelogic/logic.go:615-692 | Whatever the requests of a handler add to the store is one of their tasks, as it was given |
| QueueProgress.RoundIsSafe | queuelogic/logic.go:263-373 | After a round every other task is as it was; the selected one leaves only on success, when its user or object is gone, on an internal error or into the dead-letter queue; otherwise the state is the one its handler left; a retry that is taken is stored under its new date with the same user, kind, priority and key |
| QueueProgress.NoTaskIsLost | queuelogic/logic.go:263-373 | Along every run from an empty queue a stored task stays as it is until a step in which it is the selected one and leaves, or is drained |
| QueueMarks.EnqueueMarksIff | queuelogic/logic.go:641-692 | A request keeps every mark the key of a stored task, if and only if it is not one whose new key is marked before it runs into the user limit or a failed write |
| QueueMarks.LeakBlocksKey | queuelogic/logic.go:641-692 | The key of such a request belongs to no stored task, and every later request with it is refused |
| QueueMarks.DeleteMarksIff | queuelogic/logic.go:582-607 | Deleting a task keeps it so if and only if the task had no key or kept it |
| QueueMarks.DrainKeepsMarks | queuelogic/logic.go:375-482 | A drain always does |
| QueueMarks.TightRunsKeepMarks | queuelogic/logic.go:263-373 | Along every run from an empty queue without such requests and changes, the marks are exactly the keys of the stored tasks |
| TaskQueue.RestartIff | queuelogic/logic.go:165-231 | After a restart the fields agree with the store again; deduplication holds if and only if no stored task has a key |
| QueueService.Queue.constructor | queuelogic/logic.go:165-231 | The fields are rebuilt from the store |
| QueueService.Queue.Enqueue | queuelogic/logic.go:615-692 | The new fields and the outcome, in every branch; a request is taken exactly if it is valid and written, its key is not marked, the queue holds at most 100000 tasks or its priority is HIGH, and its user has fewer than 200 tasks if its kind is throttled; it is then stored as given, and otherwise only marks change |
| QueueService.Queue.Delete | queuelogic/logic.go:582-607 | The new fields and store |
| QueueService.Queue.DrainStore | queuelogic/logic.go:375-440 | The store loses exactly the matching tasks, which are collected once each |
| QueueService.Queue.Drain | queuelogic/logic.go:375-482 | The new fields, store and count |
| QueueService.Queue.GetNextEntry | queuelogic/logic.go:694-760 | The selected task, or the removal of a key without a stored task |
| QueueService.Queue.RunOnce | queuelogic/logic.go:263-373 | One round of the run loop in every kind of result; what becomes of the selected task and that every other one stays |
| PriceHistory.TidyUpdates | background/sales.go:168-184 | The loop drops updates that repeat the price before them, after a stable sort by date |
| PriceHistory.TidyKeepsPrices | background/sales.go:168-184 | The tidied history shows the same price at every time |
| PriceHistory.ChangesAreMinimal | background/sales.go:168-184 | It keeps nothing more: neighbouring prices differ |
| SalesSync.SyncSales | background/sales.go:186-287 | The loop over a page with its early end, for known and new sales |
| SyncTheorems.PageStops | background/sales.go:225-283 | A page ends the sync early only at a listing that was not posted after the last refresh |
| SyncTheorems.PageTakes | background/sales.go:200-270 | Every listing read becomes a new sale with its data, or updates the known one: state, price and refresh id are taken, conditions only where unknown, the listing date where given, the sold date when an active sale was sold, and nothing else changes |
| SyncTheorems.StopsAtFirstSeen | background/sales.go:270-283 | A page ends at the first listing of a known sale that was listed no later than the last refresh, and is read to its end if there is none |
| SalesSync.ProcessRefreshSales | background/sales.go:852-927 | One page of the incremental chain: skipped exactly within 24 hours of the last refresh unless forced, finished with the times of the user set, or the next page queued under the same refresh id |
| SalesSync.ProcessReconcileSales | background/sales.go:929-1033 | The same for a page of the reconciliation chain, skipped exactly within 7 days |
| SalesSync.CleanSales | background/cleancollection.go:150-171 | The stored sales left are exactly those with the refresh id |
| SyncTheorems.RefreshIsComplete | background/sales.go:852-927 | When a chain over a listing ordered newest first ends, early or not, every listing posted after the previous refresh is stored as listed |
| SyncTheorems.ReconcileIsExactIff | background/sales.go:929-1033 | When a reconciliation ends every listing is stored as listed under the refresh id, and the stored ids are the listed ones if and only if no unlisted sale carried that id before |
| SalePrices.AdjustOne | background/sales.go:424-530 | One round of the adjustment loop: a price is queued exactly if it is the one the strategy of the sale asks for and the sale is due, active and graded; milestones are stamped once; and when a refresh is queued instead |
| SalePrices.AdjustPriceIs | background/sales.go:289-391 | The price each strategy asks for, in whole nanoseconds: one less, the same, the truncated share of the way from start to end after the time passed, one reduction for each cycle begun since the hold down to the bound of the strategy, or one step down to the median or the stale bound |
| SalePrices.AdjustSales | background/sales.go:393-534 | Every stored sale is adjusted, each on its own, and no sale is added or lost |
| SalePrices.UpdateSalePrice | background/sales.go:667-699 | Discogs is asked only when the price differs; price and history change only if it agrees, and the time of the last update stays only if it does not |
| PriceTheorems.PriceRuns | background/sales.go:300-391 | Along every run of adjustments and updates in which no adjustment overtakes a queued update, in timed and stepped mode, the price never rises, never passes its lower bound, and is below the median only after the hold at the median is over; only timed mode reads the initial price |
| PriceTheorems.OvertakingRaisesIff | background/sales.go:314-318 | During the hold, an adjustment raises the price, once carried out, if and only if an update to a lower price is queued |
| PriceTheorems.SteppedPriceRuns | background/sales.go:351-386 | In stepped mode the same holds along every sequence of adjustments and updates, without a guard |
| PriceTheorems.LateUpdateRaisesPrice | background/sales.go:314-318 | How overtaking comes about: two adjustments before the queued drop to the median is carried out, and the price drops and rises again |
| PriceTheorems.ScheduleBelowMedianIff | background/sales.go:300-312 | Before the full time is over, the timed price is at least the median if and only if the initial price is |
| PriceTheorems.ScheduleClimbs | background/sales.go:300-312 | From an initial price below the median the timed price climbs |
| PriceTheorems.PricedBelowMedianIff | background/sales.go:393-534 | A timed sale gets priced below its median before any hold if and only if its initial price is below the median |
| PriceTheorems.NoInitialPriceClimbs | background/sales.go:300-312 | An example without an initial price: the price falls below the lower bound and then climbs |
| SaleLinks.LinkSale | background/sales.go:751-800 | The inner loop: one sale against every record, memory and store in step |
| SaleLinks.LinkSales | background/sales.go:750-805 | Both loops, whatever was linked before |
| SaleLinks.LatestOfOrdered | background/sales.go:746-748 | In id order, the last sale of a release to be linked is the one with the largest id |
| SaleLinks.CopyTakesOver | background/sales.go:751-790 | An active sale ends up with both prices of the last record of its release, any sale with the last known condition and sleeve condition of its release, or else its own; nothing else about it changes |
| SaleLinks.CopyKeeps | background/sales.go:759-790 | Copying from records never empties a condition and never changes what a sale is |
| SaleLinks.ReportUnmatched | background/sales.go:807-826 | Fails if and only if an active sale has no record and issues cannot be filed |
| SaleLinks.ClearLinks | background/sales.go:828-846 | Exactly the records of releases without a valid sale lose their link |
| SaleLinks.HardLink | background/sales.go:739-850 | Every record ends up with the largest id among the FOR_SALE or SOLD sales of its release, or 0 (its own, if reporting fails); stored records match memory, every sale has taken over what its records say and nothing else, no known condition is lost, and other stored records and sales are untouched |
| Wantlist.SyncWants | background/refreshwantlists.go:205-266 | An entry is purchased exactly if it has arrived, was so before or is meant to be so, and otherwise in the state its want intends; missing wants are created unknown and the others kept |
| Wantlist.RefreshOneByOne | background/refreshwantlists.go:472-563 | In index order, the first entry that is not purchased is opened unless it is open; behind an open one every want whose entry is not pending is put off; nothing else changes |
| Wantlist.ProcessWantlist | background/refreshwantlists.go:205-266 | One whole pass |
| Wantlist.ThreePassesConverge | background/refreshwantlists.go:472-563 | From any state three passes reach a fixed point: purchased entries, then at most one open one, then only pending or purchased ones |
| Wantlist.TwoPassesSettleIff | background/refreshwantlists.go:472-563 | The third pass changes nothing if and only if the first one did not open an entry in front of one that is neither pending nor purchased |
| Wantlist.TwoPassesAreNotEnough | background/refreshwantlists.go:472-563 | An example: a list that the third pass still changes |
| CollectionCache.CacheManager.UpsertRecord | cmd/gramophile/cache.go:174-243 | All four structures stay in agreement, and the record list changes in exactly one place |
| CollectionCache.CacheManager.Rebuild | cmd/gramophile/cache.go:101-114 | Both indexes are those of the list, the last record winning for a repeated instance id |
| CollectionCache.RebuiltAgreesIff | cmd/gramophile/cache.go:101-114 | Rebuilt indexes agree with the list if and only if the first and the last record of each instance id are equal |
| CollectionCache.CacheManager.LoadFromDisk | cmd/gramophile/cache.go:316-341 | Missing, unreadable, corrupt and good files; after a good one the structures agree if and only if first and last records do, and are fit for updates if and only if no instance id repeats |
| CollectionCache.CacheManager.Populate | cmd/gramophile/cache.go:246-266 | The same for a replacement of all records |
| CollectionCache.CacheManager.GetByInstanceID | cmd/gramophile/cache.go:117-123 | The lookup answers as a search of the record list would |
| CollectionCache.CacheManager.GetByReleaseID | cmd/gramophile/cache.go:126-137 | The lookup yields each record of the release, as often as the record list has it, and no other |
| CollectionCache.ReleasesUpserted | cmd/gramophile/cache.go:187-218 | The incremental release index stays equal to a rebuilt one up to order, with no empty lists |
| CollectionCache.IidsUpserted | cmd/gramophile/cache.go:184-188 | The incremental instance index stays exact |
| CollectionCache.LookupsSeeLastVersion | cmd/gramophile/cache.go:174-243 | After any sequence of upserts a lookup sees the last version of a record |
| CollectionCache.UpsertKeepsOrderIff | cmd/gramophile/cache.go:187-218 | After an upsert the release index is the one a rebuild would yield, order included, if and only if the record does not join a release behind one that comes later in the list |
| CollectionCache.OrderMayDiffer | cmd/gramophile/cache.go:187-218 | An example: a record that changes its release joins at the end, where a rebuild puts it earlier |

## Left out

- Floating point: widths, sleeve factors and shares of time are reals; conversions to whole cents truncate as in the code. int32 and int64 overflow is assumed away.
- gRPC, Discogs, databases, logging, metrics and goroutine timing: stores are maps, listings are fixed sequences, and the queue's execute-and-delete is one step. Stores of sales, wants and records are passed in and returned instead of being updated in place; aliasing is not captured.
- Clocks: times are parameters; one `now` stands for all reads while a page or a sale is handled, and group ids come from a clock function of the record's position.
- ShelfOrder.SelectAndSort: the label, artist and catalogue keys (org/org.go:64-146) are given with each record; their lookups and string folding are not modelled.
- ElementIds.GroupIdsDistinctIff: group ids read from the clock are assumed distinct, non-zero and different from instance ids, as nanosecond times are.
- ShelfSnapshot.CapacityAfterExpansion: needs distinct space names and element ids; an unknown density, where the code uses the width -1, is excluded here and from optimality.
- Snapshot.BuildSnapshot: the SHA-1 hash and the date of the snapshot are not modelled, only the sort that hashing performs.
- LookAhead.WindowPlacesOnceIff: stated over all choices of shelves; for one choice of shelves other elements can be placed once as well. At-least-once holds for all (`Snapshot.SnapshotLosesNothing`).
- MoveTheorems.LeastOrder: stated for distinct start units; with equal ones the code takes whichever move joined the queue first, so only the properties that hold for any such choice are claimed.
- TaskQueue.RunsAreSafe: accepted requests have new run dates, and a task whose key changes while it runs does not take the key of another stored task; `TaskQueue.EnqueueKeepsRepIff` and `TaskQueue.ChangedKeyIff` show that both are needed. The `Execute` RPC, which clears keys of elements it never queued, and the contents of the dead-letter queue are not modelled.
- SyncTheorems.RefreshIsComplete: the listing does not change while the chain runs, every queued page is run, and storing succeeds.
- SalePrices.AdjustOne: with a time to the low price of 0 the share of it that has passed is 1; at the one instant where the elapsed time is 0 as well, the code converts a quotient 0/0 whose value is not defined.
- PriceTheorems.PriceRuns: only for REDUCE_TO_MEDIAN_AND_THEN_LOW with a fixed configuration; no order of phases is claimed for REDUCE_TO_MEDIAN_AND_THEN_LOW_AND_THEN_STALE, where an unset time is read as the epoch.
- Wantlist.ProcessWantlist: active one-by-one lists only; en-masse and date-bounded lists, scores, deactivation and the digital list are not modelled.
- CollectionCache.CacheManager.Rebuild: nil entries of a decoded list, which decoding never yields and the code skips, are not modelled; nor are search and expiry.
- QueueService.Queue.DrainStore: every stored entry can be read; the code drops unreadable ones by their key on a full drain.
- QueueService.Queue.Drain: the same.
- Configuration validators, classification, print and overseer services and the other queue handlers: field lookups and single updates that would only add easy members.

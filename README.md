# Parent task of a sliced bulk-by-scroll request

Elasticsearch's reindex, update-by-query and delete-by-query requests can be
split into `slices` sub-requests, each run by its own worker task. A
`ParentBulkByScrollTask` stands for the whole request. It has one slot per
slice. Each worker reports its final response exactly once, and the parent
keeps the reported status in that slice's slot and adds its counters to
running totals. At any time the parent serves a combined status: the summed
counters plus the list of slot entries, with `null` for every slice that has
not reported yet. The report that fills the last empty slot hands the
aggregated response to its own listener. No earlier listener is ever called.

The model has three modules:

- `Wrappers` (`wrappers.dfy`): `Option`, which stands in for Java's nullable references.
- `BulkByScroll` (`bulk_status.dfy`): the value types and the sums over a slot table. The value types are `Status`, `StatusOrException` and `Response`. Note that `Status` keeps the Java constructor's argument order, which puts `updated` before `created`; every field is named, so the two cannot be swapped silently.
- `Reindex` (`parent_task.dfy`): the class `ParentBulkByScrollTask` and the client method `ReportSlicesInOrder`.

The class keeps these fields:

- An `array` of write-once slots.
- A running `Tally` of the nine summed counters.
- The number of slices still outstanding.
- A ghost sequence that records every response handed to a listener.

The invariant `Valid()` ties these four together:

- the totals equal the sum over the filled slots;
- the outstanding count equals the number of empty slots;
- for a task with at least one slice, the aggregated response has been delivered once when all slots are filled, and never before.

Two Java mechanisms are modelled differently:

- **Listeners.** A Java listener is an argument to `onSliceResponse`. In the model, the method's result says what happens to that listener instead. `Pending` means it is not called. `Completed(response)` means it receives `response`. `Refused(defect)` means the report was rejected.
- **Bad reports.** A report for a slice index outside the table, or a second report for the same slice, is refused, and the state stays unchanged. The test never sends such a report; refusing it without a state change is how the model treats this caller error.

`ReportSlicesInOrder` is the client from the progress test:

- It creates a parent with `|ss|` slices and checks the initial status.
- It reports slice `k` with status `ss[k]`, keeping its own expected sums and its own copy of the slot list, as the test does.
- After each report it compares the parent's status with those expectations.
- It returns the response delivered to the last listener.

The test builds slice statuses with the counters balanced:
`created + updated + deleted + noops == total`. The model proves that the
aggregate of balanced slices is balanced too.

## Model

| member | source | states |
|---|---|---|
| Reindex.ParentBulkByScrollTask.constructor | modules/reindex/src/test/java/org/elasticsearch/index/reindex/ParentBulkByScrollTaskTests.java:40-50 | the identity getters return the constructor's id, type, action, description and parent id; the table has exactly `slices` slots, all empty; every counter is zero and every slice is outstanding; nothing has been delivered |
| Reindex.ParentBulkByScrollTask.GetStatus | modules/reindex/src/test/java/org/elasticsearch/index/reindex/ParentBulkByScrollTaskTests.java:61-69 | the status's counters are the sum over the slots filled so far; its slice list is the slot table, one entry per slice with `None` for those not yet reported; it has no slice id and no cancellation reason |
| Reindex.ParentBulkByScrollTask.OnSliceResponse | modules/reindex/src/test/java/org/elasticsearch/index/reindex/ParentBulkByScrollTaskTests.java:88-115 | on a new slice within range: only that slot changes, to the slice's status; the totals grow by exactly that status's counters; one fewer slice is outstanding; the listener is called only when this report fills the last empty slot, and it then receives the aggregate of the whole table; the aggregate is recorded as delivered then and only then, and at most once. An out-of-range or repeated slice is refused and changes nothing |
| Reindex.ReportSlicesInOrder | modules/reindex/src/test/java/org/elasticsearch/index/reindex/ParentBulkByScrollTaskTests.java:52-117 | the status before any report has zero counters and an all-empty slice list of the right length; the response given to the last listener carries the sums of all slice counters and the slot list holding each slice's status at its own index; if every slice is balanced, so is that response |
| BulkByScroll.Unreported | modules/reindex/src/test/java/org/elasticsearch/index/reindex/ParentBulkByScrollTaskTests.java:60 | the slot list of `n` slices before any report: length `n`, every entry `None` |
| BulkByScroll.UnreportedTotals | modules/reindex/src/test/java/org/elasticsearch/index/reindex/ParentBulkByScrollTaskTests.java:53-69 | a table in which no slice has reported sums to zero on every counter and has every slice outstanding |
| BulkByScroll.SumSlotsUnreported | modules/reindex/src/test/java/org/elasticsearch/index/reindex/ParentBulkByScrollTaskTests.java:53-68 | any table of empty slots sums to zero on all counters |
| BulkByScroll.CountEmptyUnreported | modules/reindex/src/test/java/org/elasticsearch/index/reindex/ParentBulkByScrollTaskTests.java:60 | in a table of empty slots every slice is outstanding |
| BulkByScroll.SumSlotsFill | modules/reindex/src/test/java/org/elasticsearch/index/reindex/ParentBulkByScrollTaskTests.java:81-88 | putting a status into an empty slot raises the table's sum by exactly that status's counters, whichever slot it is |
| BulkByScroll.CountEmptyFill | modules/reindex/src/test/java/org/elasticsearch/index/reindex/ParentBulkByScrollTaskTests.java:88-92 | filling an empty slot leaves exactly one fewer slice outstanding |
| BulkByScroll.CountEmptyZero | modules/reindex/src/test/java/org/elasticsearch/index/reindex/ParentBulkByScrollTaskTests.java:91 | no slice is outstanding if and only if every slot is filled |
| BulkByScroll.SumSlotsBalanced | modules/reindex/src/test/java/org/elasticsearch/index/reindex/ParentBulkByScrollTaskTests.java:72-76 | if every filled slot holds a balanced status, the table's sum is balanced |
| BulkByScroll.SumSlotsReported | modules/reindex/src/test/java/org/elasticsearch/index/reindex/ParentBulkByScrollTaskTests.java:81-103 | after slices `0 .. k-1` reported in order, the table's sum equals the sum of their counters, which the test accumulates by hand |

## Left out

- The Java implementation class `ParentBulkByScrollTask` is not part of this model. The Dafny class models what `ParentBulkByScrollTaskTests` observes of it: constructor arguments, `getStatus`, `onSliceResponse` and the listener calls.
- `InnerHitBuilderTests` belongs to a different component and is not modelled.
- Listeners are not objects here; which listener is called, and with what, is the result of `OnSliceResponse`. Mock and capture mechanics are not modelled.
- Time and throttle fields are left out: `throttled`, `requestsPerSecond` and `throttledUntil` are passed as 0 (ParentBulkByScrollTaskTests.java line 80) and the response's `took` as 10 ms (line 93). The test asserts none of them, and how the parent combines them is not modelled.
- Rethrottling, cancellation and its reason, and slice failures (`onSliceFailure`, exception entries in the slot list) are not modelled. The `ExceptionOf` variant exists only so the slot type reads as in the source.
- A response's bulk and search failure lists and its `timedOut` flag are left out, because the test passes empty lists and `false`.
- Concurrency is not modelled. Slice reports arrive concurrently in the source, but each call is treated here as atomic.
- Counters are unbounded naturals. Java's `long` and `int` widths and their overflow are not modelled, because the test's ranges stay far below them.
- ReportSlicesInOrder: reports in index order only, as the test does. The fact that the aggregate does not depend on the order of reports is not proved.
- ReportSlicesInOrder: asks for at least one slice, while the test's setup draws 2 to 50.

/**
 * The parent task of a sliced bulk-by-scroll request. The request is split
 * into a fixed number of slices, each run by its own worker; every worker
 * reports its final response to the parent exactly once. The parent keeps a
 * write-once slot per slice and running totals of the reported counters,
 * serves a combined status at any time, and hands the aggregated response to
 * the listener of the report that fills the last empty slot.
 */
module Reindex {
  import opened Wrappers
  import opened BulkByScroll

  /** Identifier of a task on a node. */
  datatype TaskId = TaskId(nodeId: string, id: int)

  /** A broken caller contract: the report is refused and nothing changes. */
  datatype Defect = SliceOutOfRange | SliceAlreadyReported

  /**
   * What a slice report does to its listener: nothing yet (`Pending`), the
   * aggregated response (`Completed`), or nothing because it was refused.
   */
  datatype Intake = Pending | Completed(response: Response) | Refused(defect: Defect)

  class ParentBulkByScrollTask {
    const id: int
    const taskType: string
    const action: string
    const description: string
    const parentTaskId: Option<TaskId>
    const slices: nat

    /** One write-once slot per slice; `None` until that slice reports. */
    const results: array<Option<StatusOrException>>
    /** Counters summed over the slices reported so far. */
    var running: Tally
    /** Number of slices that have not reported yet. */
    var remaining: nat
    /** Every response handed to a listener so far. */
    ghost var deliveries: seq<Response>

    /**
     * The totals and the outstanding count agree with the slot table, only
     * statuses are ever recorded, and, for a task with at least one slice,
     * the aggregated response has been delivered once if every slot is
     * filled and never otherwise; a task without slices delivers nothing.
     */
    ghost predicate Valid()
      reads this, results
    {
      && results.Length == slices
      && remaining == CountEmpty(results[..])
      && running == SumSlots(results[..])
      && (forall i :: 0 <= i < slices && results[i].Some? ==> results[i].value.StatusOf?)
      && (slices > 0 && remaining == 0 ==> deliveries == [Response(Aggregate(results[..]))])
      && (slices == 0 || remaining > 0 ==> |deliveries| == 0)
    }

    constructor (id: int, taskType: string, action: string, description: string,
                 parentTaskId: Option<TaskId>, slices: nat)
      ensures Valid() && fresh(results)
      ensures this.id == id && this.taskType == taskType && this.action == action
      ensures this.description == description && this.parentTaskId == parentTaskId
      ensures this.slices == slices
      ensures results[..] == Unreported(slices)
      ensures running == ZERO && remaining == slices && |deliveries| == 0
    {
      this.id := id;
      this.taskType := taskType;
      this.action := action;
      this.description := description;
      this.parentTaskId := parentTaskId;
      this.slices := slices;
      results := new Option<StatusOrException>[slices];
      running := ZERO;
      remaining := slices;
      deliveries := [];
      new;
      var i := 0;
      while i < slices
        invariant 0 <= i <= slices
        invariant forall j :: 0 <= j < i ==> results[j].None?
        modifies results
      {
        results[i] := None;
        i := i + 1;
      }
      assert results[..] == Unreported(slices);
      UnreportedTotals(slices);
    }

    /**
     * The combined status: the totals of the slices reported so far, no
     * slice id, and the slot table with every unreported slice shown as
     * `None`. It is read from the running totals, not summed afresh.
     */
    function GetStatus(): (s: Status)
      reads this, results
      requires Valid()
      ensures CountersOf(s) == SumSlots(results[..])
      ensures s.sliceStatuses == results[..] && |s.sliceStatuses| == slices
      ensures s.sliceId == None && s.reasonCancelled == None
    {
      Snapshot(running, results[..])
    }

    /**
     * Records the final response of slice `slice`. The slot receives the
     * slice's status and the totals grow by exactly its counters; the report
     * that fills the last empty slot completes with the aggregated response,
     * every earlier one leaves its listener untouched. An index outside the
     * table or a second report for a filled slot is refused and changes
     * nothing.
     */
    method OnSliceResponse(slice: int, response: Response) returns (r: Intake)
      requires Valid()
      modifies this, results
      ensures Valid()
      ensures !(0 <= slice < slices) ==> r == Refused(SliceOutOfRange) && unchanged(this, results)
      ensures 0 <= slice < slices && old(results[slice]).Some? ==>
                r == Refused(SliceAlreadyReported) && unchanged(this, results)
      ensures 0 <= slice < slices && old(results[slice]).None? ==>
                && results[..] == old(results[..])[slice := Some(StatusOf(response.status))]
                && running == Plus(old(running), CountersOf(response.status))
                && remaining == old(remaining) - 1
                && r == (if old(remaining) == 1 then Completed(Response(Aggregate(results[..]))) else Pending)
                && deliveries == old(deliveries) + (if r.Completed? then [r.response] else [])
      ensures r.Completed? ==> forall i :: 0 <= i < slices ==> results[i].Some?
      ensures |deliveries| <= 1
    {
      if !(0 <= slice < results.Length) {
        return Refused(SliceOutOfRange);
      }
      if results[slice].Some? {
        return Refused(SliceAlreadyReported);
      }
      ghost var before := results[..];
      CountEmptyFill(before, slice, StatusOf(response.status));
      SumSlotsFill(before, slice, response.status);
      results[slice] := Some(StatusOf(response.status));
      assert results[..] == before[slice := Some(StatusOf(response.status))];
      running := Plus(running, CountersOf(response.status));
      remaining := remaining - 1;
      if remaining == 0 {
        r := Completed(Response(Snapshot(running, results[..])));
        deliveries := deliveries + [r.response];
        CountEmptyZero(results[..]);
      } else {
        r := Pending;
      }
    }
  }

  /**
   * A client that creates a parent of `|ss|` slices and lets slice k report
   * `ss[k]` for k = 0, 1, ... in order, keeping its own running sums. It
   * returns the status seen before any report and the response handed to
   * the last report's listener.
   */
  method ReportSlicesInOrder(ss: seq<Status>) returns (initial: Status, last: Response)
    requires |ss| >= 1
    ensures CountersOf(initial) == ZERO && initial.sliceStatuses == Unreported(|ss|)
    ensures CountersOf(last.status) == SumFirst(ss, |ss|)
    ensures ReportedUpTo(last.status.sliceStatuses, ss, |ss|)
    ensures (forall k :: 0 <= k < |ss| ==> Balanced(CountersOf(ss[k]))) ==> Balanced(CountersOf(last.status))
  {
    var n := |ss|;
    var task := new ParentBulkByScrollTask(1, "test_type", "test_action", "test", None, n);
    initial := task.GetStatus();
    var expected := ZERO;
    var sliceStatuses := Unreported(n);
    var k := 0;
    var delivered: Option<Response> := None;
    while k < n
      invariant 0 <= k <= n
      invariant task.Valid() && task.slices == n
      invariant task.remaining == n - k
      invariant ReportedUpTo(sliceStatuses, ss, k)
      invariant task.results[..] == sliceStatuses
      invariant expected == SumFirst(ss, k)
      invariant task.running == expected
      invariant delivered.Some? <==> k == n
      invariant delivered.Some? ==> ReportedUpTo(delivered.value.status.sliceStatuses, ss, n)
      invariant delivered.Some? ==> CountersOf(delivered.value.status) == SumFirst(ss, n)
    {
      expected := Plus(expected, CountersOf(ss[k]));
      ReportedUpToNext(sliceStatuses, ss, k);
      sliceStatuses := sliceStatuses[k := Some(StatusOf(ss[k]))];
      var r := task.OnSliceResponse(k, Response(ss[k]));
      var status := task.GetStatus();
      assert CountersOf(status) == expected && status.sliceStatuses == sliceStatuses;
      if k < n - 1 {
        assert r == Pending;
      } else {
        delivered := Some(r.response);
      }
      k := k + 1;
    }
    last := delivered.value;
    if forall k :: 0 <= k < n ==> Balanced(CountersOf(ss[k])) {
      assert Balanced(CountersOf(last.status)) by {
        ReportedAllBalanced(last.status.sliceStatuses, ss, n);
        SumSlotsBalanced(last.status.sliceStatuses);
        SumSlotsReported(last.status.sliceStatuses, ss, n);
      }
    }
  }
}

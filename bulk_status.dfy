/**
 * Value types of a bulk-by-scroll task (reindex, update-by-query,
 * delete-by-query): the progress `Status` of one slice or of the whole
 * job, the per-slice `StatusOrException` slot entry, the `Response` a
 * finished job hands to its listener, and the sums that aggregate slice
 * statuses into the parent's status.
 */
module BulkByScroll {
  import opened Wrappers

  /**
   * Progress snapshot. The fields keep the Java constructor's order, in
   * which `updated` comes BEFORE `created`; naming them keeps the two from
   * being swapped. `sliceId` is set on a slice's own status; `sliceStatuses`
   * is non-empty only on a parent's aggregate, one entry per slice.
   */
  datatype Status = Status(
    sliceId: Option<nat>,
    total: nat,
    updated: nat,
    created: nat,
    deleted: nat,
    batches: nat,
    versionConflicts: nat,
    noops: nat,
    bulkRetries: nat,
    searchRetries: nat,
    reasonCancelled: Option<string>,
    sliceStatuses: seq<Option<StatusOrException>>)

  /** A finished slice's entry: its status, or the failure that ended it. */
  datatype StatusOrException = StatusOf(status: Status) | ExceptionOf(message: string)

  /** The response of a bulk-by-scroll request, as far as its status goes. */
  datatype Response = Response(status: Status)

  /** The nine counters that a parent sums over its slices. */
  datatype Tally = Tally(
    total: nat,
    updated: nat,
    created: nat,
    deleted: nat,
    batches: nat,
    versionConflicts: nat,
    noops: nat,
    bulkRetries: nat,
    searchRetries: nat)

  const ZERO: Tally := Tally(0, 0, 0, 0, 0, 0, 0, 0, 0)

  function CountersOf(s: Status): Tally {
    Tally(s.total, s.updated, s.created, s.deleted, s.batches,
          s.versionConflicts, s.noops, s.bulkRetries, s.searchRetries)
  }

  /** Counter-wise sum. */
  function Plus(a: Tally, b: Tally): Tally {
    Tally(a.total + b.total, a.updated + b.updated, a.created + b.created,
          a.deleted + b.deleted, a.batches + b.batches,
          a.versionConflicts + b.versionConflicts, a.noops + b.noops,
          a.bulkRetries + b.bulkRetries, a.searchRetries + b.searchRetries)
  }

  lemma PlusComm(a: Tally, b: Tally) ensures Plus(a, b) == Plus(b, a) {}
  lemma PlusZero(a: Tally) ensures Plus(ZERO, a) == a {}
  lemma PlusAssoc(a: Tally, b: Tally, c: Tally) ensures Plus(a, Plus(b, c)) == Plus(Plus(a, b), c) {}

  /** Every document a slice looked at was created, updated, deleted or a noop. */
  predicate Balanced(t: Tally) {
    t.created + t.updated + t.deleted + t.noops == t.total
  }

  /** What one slot adds to the aggregate: a reported status adds its counters, anything else nothing. */
  function SlotTally(slot: Option<StatusOrException>): Tally {
    match slot
    case Some(StatusOf(s)) => CountersOf(s)
    case _ => ZERO
  }

  /** Sum of the counters of every slot filled with a status. */
  function SumSlots(slots: seq<Option<StatusOrException>>): Tally {
    if |slots| == 0 then ZERO else Plus(SlotTally(slots[0]), SumSlots(slots[1..]))
  }

  /** Number of slots whose slice has not reported yet. */
  function CountEmpty(slots: seq<Option<StatusOrException>>): nat {
    if |slots| == 0 then 0 else (if slots[0].None? then 1 else 0) + CountEmpty(slots[1..])
  }

  /**
   * Independent reference: the running sum kept by a client that adds the
   * counters of `ss[0]`, ..., `ss[k-1]` in turn.
   */
  function SumFirst(ss: seq<Status>, k: nat): Tally
    requires k <= |ss|
  {
    if k == 0 then ZERO else Plus(SumFirst(ss, k - 1), CountersOf(ss[k - 1]))
  }

  /** A slot table of `n` slices none of which has reported. */
  function Unreported(n: nat): (r: seq<Option<StatusOrException>>)
    ensures |r| == n && forall i :: 0 <= i < n ==> r[i] == None
  {
    if n == 0 then [] else Unreported(n - 1) + [None]
  }

  /** A table of slices none of which has reported sums to zero and has every slice outstanding. */
  lemma UnreportedTotals(n: nat)
    ensures SumSlots(Unreported(n)) == ZERO && CountEmpty(Unreported(n)) == n
  {
    SumSlotsUnreported(Unreported(n));
    CountEmptyUnreported(Unreported(n));
  }

  /** `slots` is the table of the slices of `ss` after slices 0 .. k-1 reported, in that order. */
  predicate ReportedUpTo(slots: seq<Option<StatusOrException>>, ss: seq<Status>, k: nat) {
    && |slots| == |ss| && k <= |ss|
    && (forall i :: 0 <= i < k ==> slots[i] == Some(StatusOf(ss[i])))
    && (forall i :: k <= i < |ss| ==> slots[i] == None)
  }

  /** Reporting slice k next extends the reported prefix by one. */
  lemma ReportedUpToNext(slots: seq<Option<StatusOrException>>, ss: seq<Status>, k: nat)
    requires ReportedUpTo(slots, ss, k) && k < |ss|
    ensures ReportedUpTo(slots[k := Some(StatusOf(ss[k]))], ss, k + 1)
  {
  }

  /** The parent's status: the given counters, no slice id, not cancelled, and the slot table. */
  function Snapshot(t: Tally, slots: seq<Option<StatusOrException>>): Status {
    Status(None, t.total, t.updated, t.created, t.deleted, t.batches,
           t.versionConflicts, t.noops, t.bulkRetries, t.searchRetries, None, slots)
  }

  /** The parent's status for a slot table, summed from scratch. */
  function Aggregate(slots: seq<Option<StatusOrException>>): Status {
    Snapshot(SumSlots(slots), slots)
  }

  /** Every slot filled with a status holds a balanced one. */
  predicate AllBalanced(slots: seq<Option<StatusOrException>>) {
    forall i :: 0 <= i < |slots| && slots[i].Some? && slots[i].value.StatusOf? ==>
      Balanced(CountersOf(slots[i].value.status))
  }

  /** Before any slice reports, every aggregate counter is zero. */
  lemma {:induction false} SumSlotsUnreported(slots: seq<Option<StatusOrException>>)
    requires forall i :: 0 <= i < |slots| ==> slots[i].None?
    ensures SumSlots(slots) == ZERO
  {
    if |slots| != 0 {
      SumSlotsUnreported(slots[1..]);
    }
  }

  /** Before any slice reports, every slice is outstanding. */
  lemma {:induction false} CountEmptyUnreported(slots: seq<Option<StatusOrException>>)
    requires forall i :: 0 <= i < |slots| ==> slots[i].None?
    ensures CountEmpty(slots) == |slots|
  {
    if |slots| != 0 {
      CountEmptyUnreported(slots[1..]);
    }
  }

  /** Recording a status in an empty slot adds exactly that status's counters to the sum. */
  lemma {:induction false} SumSlotsFill(slots: seq<Option<StatusOrException>>, i: nat, s: Status)
    requires i < |slots| && slots[i].None?
    ensures SumSlots(slots[i := Some(StatusOf(s))]) == Plus(SumSlots(slots), CountersOf(s))
  {
    var filled := slots[i := Some(StatusOf(s))];
    if i == 0 {
      assert filled[1..] == slots[1..];
      assert SumSlots(filled) == Plus(CountersOf(s), SumSlots(slots[1..]));
      assert SumSlots(slots) == Plus(ZERO, SumSlots(slots[1..]));
      PlusComm(CountersOf(s), SumSlots(slots[1..]));
      PlusZero(SumSlots(slots[1..]));
    } else {
      assert filled[1..] == slots[1..][i - 1 := Some(StatusOf(s))];
      SumSlotsFill(slots[1..], i - 1, s);
      PlusAssoc(SlotTally(slots[0]), SumSlots(slots[1..]), CountersOf(s));
    }
  }

  /** Filling an empty slot leaves exactly one fewer slice outstanding. */
  lemma {:induction false} CountEmptyFill(slots: seq<Option<StatusOrException>>, i: nat, o: StatusOrException)
    requires i < |slots| && slots[i].None?
    ensures CountEmpty(slots) >= 1
    ensures CountEmpty(slots[i := Some(o)]) == CountEmpty(slots) - 1
  {
    var filled := slots[i := Some(o)];
    if i == 0 {
      assert filled[1..] == slots[1..];
    } else {
      assert filled[1..] == slots[1..][i - 1 := Some(o)];
      CountEmptyFill(slots[1..], i - 1, o);
    }
  }

  /** No slice is outstanding exactly when every slot is filled. */
  lemma {:induction false} CountEmptyZero(slots: seq<Option<StatusOrException>>)
    ensures CountEmpty(slots) == 0 <==> forall i :: 0 <= i < |slots| ==> slots[i].Some?
  {
    if |slots| != 0 {
      CountEmptyZero(slots[1..]);
      if CountEmpty(slots) == 0 {
        forall i | 0 <= i < |slots| ensures slots[i].Some? {
          if i > 0 { assert slots[i] == slots[1..][i - 1]; }
        }
      } else if slots[0].Some? {
        var j :| 0 <= j < |slots[1..]| && slots[1..][j].None?;
        assert slots[j + 1].None?;
      }
    }
  }

  /** A table filled from balanced slice statuses holds only balanced ones. */
  lemma ReportedAllBalanced(slots: seq<Option<StatusOrException>>, ss: seq<Status>, k: nat)
    requires ReportedUpTo(slots, ss, k)
    requires forall j :: 0 <= j < |ss| ==> Balanced(CountersOf(ss[j]))
    ensures AllBalanced(slots)
  {
  }

  /** If every reported slice is balanced, so is the aggregate. */
  lemma {:induction false} SumSlotsBalanced(slots: seq<Option<StatusOrException>>)
    requires AllBalanced(slots)
    ensures Balanced(SumSlots(slots))
  {
    if |slots| != 0 {
      assert AllBalanced(slots[1..]) by {
        forall i | 0 <= i < |slots[1..]| && slots[1..][i].Some? && slots[1..][i].value.StatusOf?
          ensures Balanced(CountersOf(slots[1..][i].value.status))
        {
          assert slots[1..][i] == slots[i + 1];
        }
      }
      SumSlotsBalanced(slots[1..]);
    }
  }

  /** After slices 0 .. k-1 of `ss` reported, the slot sum is the sum of their counters. */
  lemma {:induction false} SumSlotsReported(slots: seq<Option<StatusOrException>>, ss: seq<Status>, k: nat)
    requires ReportedUpTo(slots, ss, k)
    ensures SumSlots(slots) == SumFirst(ss, k)
    decreases k
  {
    if k == 0 {
      SumSlotsUnreported(slots);
    } else {
      var before := slots[k - 1 := None];
      assert ReportedUpTo(before, ss, k - 1);
      assert slots == before[k - 1 := Some(StatusOf(ss[k - 1]))];
      assert SumSlots(before) == SumFirst(ss, k - 1) by { SumSlotsReported(before, ss, k - 1); }
      SumSlotsFill(before, k - 1, ss[k - 1]);
    }
  }
}

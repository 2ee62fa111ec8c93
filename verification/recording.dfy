/** What the recorder observes, and the laws that tie its counters to the board's commits and to
    the archive it writes.

    Lemmas about a log that are not themselves inductive switch Dafny's automatic induction off: on
    these parameters it helps nothing and is slow. */
module Recording {
  import opened Words
  import opened ArchiveFormat
  import opened Archive

  /** What became of a fresh sample: not a valid frame, no room in the queue, or on its way. */
  datatype Fate = Rejected | Dropped | Enqueued

  datatype Fresh = Fresh(record: Record, fate: Fate)

  /** Everything the recorder observed, in order. */
  function All(log: seq<Fresh>): (records: seq<Record>)
    ensures |records| == |log| && forall i :: 0 <= i < |log| ==> records[i] == log[i].record
  {
    seq(|log|, i requires 0 <= i < |log| => log[i].record)
  }

  /** What went into the queue, in order. */
  function Queued(log: seq<Fresh>): (records: seq<Record>)
    ensures |records| <= |log|
  {
    if log == [] then []
    else
      var n := |log| - 1;
      if log[n].fate == Enqueued then Queued(log[..n]) + [log[n].record] else Queued(log[..n])
  }

  function CountFate(log: seq<Fresh>, fate: Fate): nat {
    if log == [] then 0
    else CountFate(log[..|log| - 1], fate) + (if log[|log| - 1].fate == fate then 1 else 0)
  }

  /** The revision last observed in a partition, zero if none was. */
  function LastRevision(log: seq<Fresh>, slot: u32): u64 {
    if log == [] then 0
    else
      var last := log[|log| - 1].record;
      if last.slot == slot then last.revision else LastRevision(log[..|log| - 1], slot)
  }

  /** What `recordBoard` adds to its overwrite counter for a fresh revision. */
  function OverwriteStep(last: u64, revision: u64): u64 {
    if last != 0 && revision > Add64(last, 2) then Sub64(Sub64(revision, last) / 2, 1) else 0
  }

  function Overwrites(log: seq<Fresh>): nat {
    if log == [] then 0
    else
      var n := |log| - 1;
      Overwrites(log[..n]) + OverwriteStep(LastRevision(log[..n], log[n].record.slot), log[n].record.revision)
  }

  // ---------- Logs that come from a board ----------

  /** Every sample has the shape of a committed record. */
  ghost predicate WellFormed(log: seq<Fresh>) {
    AllCommitted(All(log))
  }

  /** In every partition, every fresh revision is above all earlier ones. */
  ghost predicate Ascending(log: seq<Fresh>) {
    forall slot: u32 :: Rising(Select(All(log), slot))
  }

  lemma {:induction false} SplitLog(log: seq<Fresh>)
    requires |log| > 0
    ensures var n := |log| - 1; All(log) == All(log[..n]) + [log[n].record]
    ensures WellFormed(log) ==> WellFormed(log[..|log| - 1]) && Committed(log[|log| - 1].record)
  {
    var n := |log| - 1;
    assert All(log)[n] == log[n].record;
    assert forall i :: 0 <= i < n ==> All(log[..n])[i] == All(log)[i];
  }

  lemma {:induction false} SelectOfSplit(log: seq<Fresh>, slot: u32)
    requires |log| > 0
    ensures var n := |log| - 1;
            Select(All(log), slot) ==
            Select(All(log[..n]), slot) + (if log[n].record.slot == slot then [log[n].record] else [])
  {
    var n := |log| - 1;
    SplitLog(log);
    SelectSnoc(All(log[..n]), log[n].record, slot);
  }

  lemma {:induction false} AscendingPrefix(log: seq<Fresh>)
    requires |log| > 0 && Ascending(log)
    ensures Ascending(log[..|log| - 1])
  {
    var n := |log| - 1;
    forall slot: u32
      ensures Rising(Select(All(log[..n]), slot))
    {
      SelectOfSplit(log, slot);
      var mine, before := Select(All(log), slot), Select(All(log[..n]), slot);
      assert Rising(mine);
      assert forall i :: 0 <= i < |before| ==> before[i] == mine[i];
    }
  }

  lemma {:induction false} LastRevisionIs(log: seq<Fresh>, slot: u32)
    ensures var mine := Select(All(log), slot);
            LastRevision(log, slot) == if mine == [] then 0 else mine[|mine| - 1].revision
  {
    if log == [] {
    } else {
      SelectOfSplit(log, slot);
      LastRevisionIs(log[..|log| - 1], slot);
    }
  }

  /** A fresh revision above the last one counts the commits strictly between the two. */
  lemma StepCountsBetween(last: u64, revision: u64)
    requires last % 2 == 0 && revision % 2 == 0 && last < revision
    ensures OverwriteStep(last, revision) == if last == 0 then 0 else (revision - last) / 2 - 1
  {
  }

  // ---------- Exact overwrite count ----------

  lemma GapsSnoc(mine: seq<Record>, r: Record)
    requires AllCommitted(mine) && Committed(r)
    ensures AllCommitted(mine + [r])
    ensures Gaps(mine + [r]) == Gaps(mine) +
            (if mine == [] then 0
             else if r.revision > mine[|mine| - 1].revision
             then (r.revision - mine[|mine| - 1].revision) / 2 - 1 else 0)
  {
    if mine != [] {
      TotalsMore(mine, r);
    }
  }

  function GapsOf(records: seq<Record>): u32 -> nat
    requires AllCommitted(records)
  {
    (slot: u32) => Gaps(Select(records, slot))
  }

  /** The overwrite counter is the sum, over partitions, of the gaps between fresh revisions. */
  lemma {:induction false} OverwritesAreGaps(log: seq<Fresh>)
    requires WellFormed(log) && Ascending(log)
    ensures Overwrites(log) == Sum(GapsOf(All(log)), 8)
  {
    hide Gaps, Select, OverwriteStep;
    var f := GapsOf(All(log));
    if log == [] {
      forall slot: u32
        ensures f(slot) == 0
      {
        NoGaps(slot);
      }
      SumOfZeros(f, 8);
    } else {
      var n := |log| - 1;
      var r, before := log[n].record, log[..n];
      SplitLog(log);
      AscendingPrefix(log);
      OverwritesAreGaps(before);
      var g := GapsOf(All(before));
      forall slot: u32
        ensures f(slot) == g(slot) + (if slot == r.slot then OverwriteStep(LastRevision(before, r.slot), r.revision) else 0)
      {
        GapsGrow(log, slot);
      }
      SumChangesAt(f, g, r.slot, OverwriteStep(LastRevision(before, r.slot), r.revision), 8);
      SlotInRange(r);
    }
  }

  lemma NoGaps(slot: u32)
    ensures Gaps(Select(All([]), slot)) == 0
  {
  }

  lemma {:induction false} GapsGrow(log: seq<Fresh>, slot: u32)
    requires |log| > 0 && WellFormed(log) && Ascending(log)
    ensures var n := |log| - 1;
            && WellFormed(log[..n])
            && Gaps(Select(All(log), slot)) ==
               Gaps(Select(All(log[..n]), slot)) +
               (if slot == log[n].record.slot
                then OverwriteStep(LastRevision(log[..n], slot), log[n].record.revision) else 0)
  {
    hide Gaps, Select, OverwriteStep, LastRevision;
    var n := |log| - 1;
    var r, mine := log[n].record, Select(All(log[..n]), slot);
    SplitLog(log);
    SelectOfSplit(log, slot);
    LastRevisionIs(log[..n], slot);
    assert mine + [] == mine;
    if slot == r.slot {
      GapsSnoc(mine, r);
      assert Rising(Select(All(log), slot));
      if mine != [] {
        var all := mine + [r];
        assert all[|mine| - 1] == mine[|mine| - 1] && all[|mine|] == r;
        assert Committed(mine[|mine| - 1]) && Committed(r);
        StepCountsBetween(mine[|mine| - 1].revision, r.revision);
      } else {
        StepCountsBetween(0, r.revision);
      }
    }
  }

  /** The commits of a partition strictly between its first and last observed revision that were
      never observed, by number: commit `k` has revision `2 * k`. */
  ghost function Missed(mine: seq<Record>): set<nat> {
    if mine == [] then {}
    else set k: nat | mine[0].revision / 2 < k < mine[|mine| - 1].revision / 2 &&
                      forall i :: 0 <= i < |mine| ==> mine[i].revision != 2 * k
  }

  /** The gaps of a rising sequence of revisions are exactly its missed commits. */
  lemma {:induction false} GapsAreMissed(mine: seq<Record>)
    requires AllCommitted(mine) && Rising(mine)
    ensures Gaps(mine) == |Missed(mine)|
  {
    if |mine| == 1 {
      assert Missed(mine) == {};
    } else if |mine| >= 2 {
      var n := |mine| - 1;
      var before := mine[..n];
      GapsAreMissed(before);
      assert Committed(mine[n]) && Committed(mine[n - 1]);
      var low, high := mine[n - 1].revision / 2, mine[n].revision / 2;
      assert mine[n - 1].revision == 2 * low && mine[n].revision == 2 * high;
      BetweenHolds(low, high);
      MissedSplits(mine, low, high);
      assert Missed(before) !! Between(low, high);
    }
  }

  lemma MissedSplits(mine: seq<Record>, low: nat, high: nat)
    requires AllCommitted(mine) && Rising(mine) && |mine| >= 2
    requires mine[|mine| - 2].revision == 2 * low && mine[|mine| - 1].revision == 2 * high
    ensures Missed(mine) == Missed(mine[..|mine| - 1]) + Between(low, high)
  {
    var n := |mine| - 1;
    var before := mine[..n];
    BetweenHolds(low, high);
    assert forall i :: 0 <= i < n ==> before[i] == mine[i];
    assert before[|before| - 1] == mine[n - 1];
    assert mine[0].revision <= mine[n - 1].revision;
    forall k: nat
      ensures k in Missed(mine) <==> k in Missed(before) || k in Between(low, high)
    {
      if k in Between(low, high) {
        forall i | 0 <= i < |mine|
          ensures mine[i].revision != 2 * k
        {
          assert i < n - 1 ==> mine[i].revision < mine[n - 1].revision;
        }
      }
      if k in Missed(mine) {
        assert mine[n - 1].revision != 2 * k;
      }
    }
  }

  /** The overwrite counter counts, over all partitions, the commits between the first and the last
      observation that were never observed. */
  lemma {:induction false} ExactOverwriteCount(log: seq<Fresh>)
    requires WellFormed(log) && Ascending(log)
    ensures Overwrites(log) == Sum((slot: u32) => |Missed(Select(All(log), slot))|, 8)
  {
    hide Gaps, Select;
    var f, g := GapsOf(All(log)), (slot: u32) => |Missed(Select(All(log), slot))|;
    OverwritesAreGaps(log);
    forall slot: u32
      ensures f(slot) == g(slot)
    {
      assert Rising(Select(All(log), slot));
      GapsAreMissed(Select(All(log), slot));
    }
    SumsAgree(f, g, 8);
  }

  lemma {:induction false} SumsAgree(f: u32 -> nat, g: u32 -> nat, n: nat)
    requires n <= 8 && (forall slot: u32 :: f(slot) == g(slot))
    ensures Sum(f, n) == Sum(g, n)
  {
    if n == 0 {
    } else {
      SumsAgree(f, g, n - 1);
    }
  }

  // ---------- From the log to the archive ----------

  lemma {:induction false} QueuedIsPart(log: seq<Fresh>, slot: u32)
    ensures forall r :: r in Select(Queued(log), slot) ==> r in Select(All(log), slot)
    ensures WellFormed(log) ==> AllCommitted(Queued(log))
  {
    if log == [] {
    } else {
      var n := |log| - 1;
      QueuedIsPart(log[..n], slot);
      SplitLog(log);
      SelectOfSplit(log, slot);
      if log[n].fate == Enqueued {
        SelectSnoc(Queued(log[..n]), log[n].record, slot);
      }
    }
  }

  /** What rises still rises with a record that is above everything it was chosen from. */
  lemma RisingMore(mine: seq<Record>, before: seq<Record>, r: Record)
    requires Rising(mine) && Rising(before + [r]) && forall q :: q in mine ==> q in before
    ensures Rising(mine + [r])
  {
    forall i | 0 <= i < |mine|
      ensures mine[i].revision < r.revision
    {
      assert mine[i] in before;
      var j :| 0 <= j < |before| && before[j] == mine[i];
      assert (before + [r])[j] == mine[i] && (before + [r])[|before|] == r;
    }
  }

  /** The archived revisions of a partition rise because the observed ones do. */
  lemma {:induction false} QueuedRises(log: seq<Fresh>, slot: u32)
    requires Ascending(log)
    ensures Rising(Select(Queued(log), slot))
  {
    hide Rising, Select;
    if log == [] {
      NothingRises(slot);
    } else {
      var n := |log| - 1;
      var r, before := log[n].record, Select(All(log[..n]), slot);
      AscendingPrefix(log);
      QueuedRises(log[..n], slot);
      if log[n].fate == Enqueued {
        var mine := Select(Queued(log[..n]), slot);
        QueuedIsPart(log[..n], slot);
        SelectOfSplit(log, slot);
        SelectSnoc(Queued(log[..n]), r, slot);
        assert mine + [] == mine;
        if r.slot == slot {
          assert Rising(Select(All(log), slot));
          RisingMore(mine, before, r);
        }
      }
    }
  }

  lemma NothingRises(slot: u32)
    ensures Rising(Select([], slot))
  {
  }

  lemma {:induction false} FatesAddUp(log: seq<Fresh>)
    ensures |Queued(log)| + CountFate(log, Rejected) + CountFate(log, Dropped) == |log|
  {
    if log == [] {
    } else {
      FatesAddUp(log[..|log| - 1]);
    }
  }

  /** Skipping records can only be explained by commits that were overwritten or samples that were
      rejected or dropped: one partition. */
  lemma {:induction false} SkippedInSlot(log: seq<Fresh>, slot: u32)
    requires WellFormed(log) && Ascending(log)
    ensures AllCommitted(Queued(log))
    ensures Gaps(Select(Queued(log), slot)) + |Select(Queued(log), slot)| <=
            Gaps(Select(All(log), slot)) + |Select(All(log), slot)|
  {
    hide Gaps, Select;
    var kept, seen := Select(Queued(log), slot), Select(All(log), slot);
    QueuedIsPart(log, slot);
    QueuedRises(log, slot);
    assert Rising(seen);
    if kept == [] {
      NoRecordsNoGaps(kept);
    } else {
      RecordedPlusSkipped(kept);
      var first, last := kept[0], kept[|kept| - 1];
      assert first in seen && last in seen;
      var i :| 0 <= i < |seen| && seen[i] == first;
      var j :| 0 <= j < |seen| && seen[j] == last;
      RecordedPlusSkipped(seen);
      assert seen[0].revision <= first.revision && last.revision <= seen[|seen| - 1].revision;
    }
  }

  /** Records and gaps of each partition together. */
  function SpanOf(records: seq<Record>): u32 -> nat
    requires AllCommitted(records)
  {
    (slot: u32) => Gaps(Select(records, slot)) + |Select(records, slot)|
  }

  lemma TotalSpan(records: seq<Record>)
    requires AllCommitted(records)
    ensures Sum(SpanOf(records), 8) == Sum(GapsOf(records), 8) + |records|
  {
    hide Gaps, Select;
    var counts := (slot: u32) => |Select(records, slot)|;
    SumOfSums(SpanOf(records), GapsOf(records), counts, 8);
    CountsAddUp(records);
  }

  lemma NoRecordsNoGaps(mine: seq<Record>)
    requires mine == []
    ensures Gaps(mine) == 0
  {
  }

  lemma {:induction false} SumsOrdered(f: u32 -> nat, g: u32 -> nat, n: nat)
    requires n <= 8 && (forall slot: u32 :: f(slot) <= g(slot))
    ensures Sum(f, n) <= Sum(g, n)
  {
    if n == 0 {
    } else {
      SumsOrdered(f, g, n - 1);
    }
  }

  /** All partitions together: what the analyser reports as skipped is at most what the recorder
      reports as overwritten, invalid and dropped. */
  lemma {:induction false} SkippedIsExplained(log: seq<Fresh>)
    requires WellFormed(log) && Ascending(log)
    ensures AllCommitted(Queued(log))
    ensures Sum(GapsOf(Queued(log)), 8) <= Overwrites(log) + CountFate(log, Rejected) + CountFate(log, Dropped)
  {
    hide Gaps, Select, Sum, Overwrites, CountFate, Queued;
    QueuedIsPart(log, 0);
    var kept, seen := Queued(log), All(log);
    forall slot: u32
      ensures SpanOf(kept)(slot) <= SpanOf(seen)(slot)
    {
      SkippedInSlot(log, slot);
    }
    SumsOrdered(SpanOf(kept), SpanOf(seen), 8);
    TotalSpan(kept);
    TotalSpan(seen);
    FatesAddUp(log);
    OverwritesAreGaps(log);
  }

  /** Observations and overwritten commits together never exceed the commits made: with `2^63` as
      a bound on those, none of the counters can have wrapped. */
  lemma {:induction false} EverythingIsACommit(log: seq<Fresh>, commits: u32 -> nat)
    requires WellFormed(log) && Ascending(log)
    requires forall slot: u32, r :: r in Select(All(log), slot) ==> r.revision <= 2 * commits(slot)
    ensures Overwrites(log) + |log| <= Sum(commits, 8)
  {
    hide Gaps, Select, Sum, Overwrites;
    var seen := All(log);
    forall slot: u32
      ensures SpanOf(seen)(slot) <= commits(slot)
    {
      SpanIsBounded(Select(seen, slot), commits(slot));
    }
    SumsOrdered(SpanOf(seen), commits, 8);
    TotalSpan(seen);
    OverwritesAreGaps(log);
  }

  lemma SpanIsBounded(mine: seq<Record>, commits: nat)
    requires AllCommitted(mine) && Rising(mine)
    requires forall r :: r in mine ==> r.revision <= 2 * commits
    ensures Gaps(mine) + |mine| <= commits
  {
    hide Gaps;
    if mine == [] {
      NoRecordsNoGaps(mine);
    } else {
      RecordedPlusSkipped(mine);
      assert mine[|mine| - 1] in mine && Committed(mine[0]) && Committed(mine[|mine| - 1]);
    }
  }
}

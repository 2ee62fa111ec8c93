/** `recordBoard`: a sampling loop over the eight partitions, a bounded queue, and a second
    goroutine that drains it into the archive.

    The two goroutines interleave freely: before every queue operation of the sampler, the drain
    takes any number of its two kinds of step.

    Lemmas about a log that are not themselves inductive switch Dafny's automatic induction off: on
    these parameters it helps nothing and is slow. */
module Recorder {
  import opened Words
  import opened Seqlock
  import opened SharedBoard
  import opened Attempts
  import ArchiveFormat
  import opened Archive
  import opened Recording
  import Observations
  import RelayParser

  type Hash = ArchiveFormat.Hash
  type Record = ArchiveFormat.Record

  const QUEUE_CAPACITY: nat := 128

  /** The frame check of the sampler: motor frames in partitions 0 and 1, observations elsewhere. */
  predicate ValidSample(slot: nat, packet: seq<u8>) {
    if slot < 2 then RelayParser.ParsePacket(packet).1 == RelayParser.Ok
    else Observations.ValidObservationPacket(packet)
  }

  // ---------- The link to the board ----------

  function CommitsOf(now: Instant): u32 -> nat {
    (slot: u32) => if slot < 8 then |now[slot].commits| else 0
  }

  /** Fewer than `2^63` commits have been made to the whole board. */
  ghost predicate Bounded(now: Instant) {
    Sum(CommitsOf(now), 8) < HALF_RANGE
  }

  /** Every observation is a commit: revision `2 * k` came with exactly the `k`-th payload. */
  ghost predicate Faithful(log: seq<Fresh>, now: Instant) {
    forall i :: 0 <= i < |log| ==> FaithfulRecord(log[i].record, now)
  }

  ghost predicate FaithfulRecord(r: Record, now: Instant) {
    && r.slot < 8
    && 2 <= r.revision <= 2 * |now[r.slot].commits|
    && r.revision % 2 == 0
    && r.packet == now[r.slot].commits[r.revision / 2 - 1]
  }

  ghost predicate Later(now: Instant, now': Instant) {
    forall slot: nat :: slot < 8 ==> now[slot].commits <= now'[slot].commits
  }

  lemma TraceIsLater(trace: seq<Instant>, i: nat, j: nat)
    requires BoardRun(trace) && i <= j < |trace|
    ensures Later(trace[i], trace[j])
  {
    forall slot: nat | slot < 8
      ensures trace[i][slot].commits <= trace[j][slot].commits
    {
      RunGrows(History(trace, slot), i, j);
    }
  }

  lemma {:induction false} SumBoundsEach(f: u32 -> nat, k: u32, n: nat)
    requires k < n <= 8
    ensures f(k) <= Sum(f, n)
  {
    if k == n - 1 {
    } else {
      SumBoundsEach(f, k, n - 1);
    }
  }

  lemma BoundedSlot(now: Instant, slot: nat)
    requires Bounded(now) && slot < 8
    ensures |now[slot].commits| < HALF_RANGE
  {
    SumBoundsEach(CommitsOf(now), slot, 8);
  }

  lemma {:induction false} CommitsSumGrows(now: Instant, now': Instant, n: nat)
    requires Later(now, now') && n <= 8
    ensures Sum(CommitsOf(now), n) <= Sum(CommitsOf(now'), n)
  {
    if n == 0 {
    } else {
      CommitsSumGrows(now, now', n - 1);
      assert now[n - 1].commits <= now'[n - 1].commits;
    }
  }

  lemma BoundedBefore(now: Instant, now': Instant)
    requires Later(now, now') && Bounded(now')
    ensures Bounded(now)
  {
    CommitsSumGrows(now, now', 8);
  }

  lemma {:induction false} FaithfulLater(log: seq<Fresh>, now: Instant, now': Instant)
    requires Faithful(log, now) && Later(now, now')
    ensures Faithful(log, now')
  {
    forall i | 0 <= i < |log|
      ensures FaithfulRecord(log[i].record, now')
    {
      assert FaithfulRecord(log[i].record, now);
    }
  }

  /** One more fresh sample keeps the log ascending and faithful. */
  lemma {:induction false} FreshSampleFits(log: seq<Fresh>, sample: Fresh, before: Instant, at: Instant, now: Instant)
    requires Faithful(log, before) && Ascending(log) && Later(before, at) && Later(at, now)
    requires sample.record.slot < 8 && |at[sample.record.slot].commits| < HALF_RANGE
    requires LatestIs(at[sample.record.slot], sample.record.revision, sample.record.packet)
    requires sample.record.revision != LastRevision(log, sample.record.slot)
    ensures Faithful(log + [sample], now) && Ascending(log + [sample])
  {
    hide Select;
    var r := sample.record;
    assert r.revision == 2 * |at[r.slot].commits|;
    FaithfulLater(log, before, at);
    FaithfulLater(log, at, now);
    assert FaithfulRecord(r, now);
    var more := log + [sample];
    assert more[..|log|] == log && more[|log|] == sample;
    forall slot: u32
      ensures Rising(Select(All(more), slot))
    {
      var mine := Select(All(log), slot);
      assert Rising(mine);
      SelectOfSplit(more, slot);
      if slot == r.slot {
        LastRevisionIs(log, slot);
        forall i | 0 <= i < |mine|
          ensures mine[i].revision < r.revision
        {
          SelectedIsLogged(log, slot, mine[|mine| - 1]);
          assert i < |mine| - 1 ==> mine[i].revision < mine[|mine| - 1].revision;
        }
      } else {
        assert mine + [] == mine;
      }
    }
  }

  lemma {:induction false} SelectedIsLogged(log: seq<Fresh>, slot: u32, r: Record)
    requires r in Select(All(log), slot)
    ensures r.slot == slot && exists i :: 0 <= i < |log| && log[i].record == r
  {
    if log == [] {
    } else {
      var n := |log| - 1;
      SelectOfSplit(log, slot);
      if r in Select(All(log[..n]), slot) {
        SelectedIsLogged(log[..n], slot, r);
        var i :| 0 <= i < n && log[..n][i].record == r;
        assert log[i].record == r;
      } else {
        assert log[n].record == r;
      }
    }
  }

  // ---------- What a finished recording guarantees ----------

  ghost predicate RecordedBy(sha: Hash, log: seq<Fresh>, file: seq<u8>, m: Manifest) {
    && WellFormed(log)
    && ArchiveFormat.AllStorable(Queued(log))
    && file == ArchiveFormat.PREFIX + ArchiveFormat.Image(sha, Queued(log))
    && m.format == FORMAT && m.sha256 == sha(file)
    && m.compressedBytes == |file| && m.rawBytes == |file| % MOD_64
    && m.records == |Queued(log)| % MOD_64
    && m.overwritten == Overwrites(log) % MOD_64
    && m.invalid == CountFate(log, Rejected) % MOD_64
    && m.queueDrops == CountFate(log, Dropped) % MOD_64
  }

  /** Both readers accept every finished recording, and find in it the enqueued samples. */
  lemma {:induction false} AcceptedByBoth(sha: Hash, log: seq<Fresh>, file: seq<u8>, m: Manifest)
    requires RecordedBy(sha, log, file, m)
    ensures Verifies(sha, file, m) && Analyzes(sha, file, m)
    ensures ArchiveFormat.ParseStream(sha, file[8..], true) == ArchiveFormat.Records(Queued(log))
  {
    hide ArchiveFormat.ParseStream, ArchiveFormat.Image, ArchiveFormat.AllCommitted, Queued;
    QueuedIsPart(log, 0);
    assert file[..8] == ArchiveFormat.PREFIX;
    assert file[8..] == ArchiveFormat.Image(sha, Queued(log));
    ArchiveFormat.StreamOfImage(sha, Queued(log), true);
    ArchiveFormat.StreamOfImage(sha, Queued(log), false);
  }

  /** No counter has wrapped, and all are what they are meant to count: every commit between two
      observations of a partition that was itself never observed, and every fresh observation in
      exactly one of three places. */
  lemma {:induction false} CountersAreExact(sha: Hash, log: seq<Fresh>, file: seq<u8>, m: Manifest, now: Instant)
    requires RecordedBy(sha, log, file, m)
    requires Faithful(log, now) && Ascending(log) && Bounded(now)
    ensures m.overwritten == Overwrites(log) == Sum((slot: u32) => |Missed(Select(All(log), slot))|, 8)
    ensures m.invalid == CountFate(log, Rejected) && m.queueDrops == CountFate(log, Dropped)
    ensures m.records == |Queued(log)| && m.records + m.invalid + m.queueDrops == |log|
  {
    hide Select, Gaps, Sum, Overwrites, CountFate, Queued, Missed, Faithful, Bounded;
    NothingWrapped(log, now);
    ExactOverwriteCount(log);
    FatesAddUp(log);
  }

  lemma {:induction false} TableExplained(sha: Hash, log: seq<Fresh>, file: seq<u8>, m: Manifest, now: Instant, slots: map<u32, SlotStats>)
    requires RecordedBy(sha, log, file, m)
    requires Faithful(log, now) && Ascending(log) && Bounded(now)
    requires ArchiveFormat.AllCommitted(Queued(log)) && Tabulates(slots, Queued(log))
    ensures forall slot: u32 :: slot in slots ==> slots[slot].nonIncreasing == 0
    ensures Sum(SkippedOf(slots), 8) <= m.overwritten + m.invalid + m.queueDrops
  {
    hide Select, Gaps, Sum, Overwrites, CountFate, Queued, Tabulates, Describes, Missed, Reversals, Faithful,
         Bounded, Ascending, RecordedBy, SkippedOf;
    CountersAreExact(sha, log, file, m, now);
    LogIsWellFormed(sha, log, file, m);
    SkippedIsExplained(log);
    forall slot: u32
      ensures SkippedOf(slots)(slot) <= GapsOf(Queued(log))(slot)
      ensures slot in slots ==> slots[slot].nonIncreasing == 0
    {
      ReportedSlot(log, slots, slot);
    }
    SumsOrdered(SkippedOf(slots), GapsOf(Queued(log)), 8);
  }

  function SkippedColumn(): SlotStats -> nat {
    (st: SlotStats) => st.skippedRevisions
  }

  function SkippedOf(slots: map<u32, SlotStats>): u32 -> nat {
    PerSlot(slots, SkippedColumn())
  }

  lemma {:induction false} InOrderHolds(slots: map<u32, SlotStats>, n: nat)
    requires n <= 8
    ensures forall st :: st in InOrder(slots, n) ==> exists slot: u32 :: slot in slots && slots[slot] == st
  {
    if n == 0 {
    } else {
      InOrderHolds(slots, n - 1);
    }
  }

  /** The recording of a board with fewer than `2^63` commits: the report that `AnalyzeArchive` is
      proved to give shows rising revisions in every partition, and no more skipped commits in all
      than the recorder can explain. */
  lemma {:induction false} EndToEnd(sha: Hash, log: seq<Fresh>, file: seq<u8>, m: Manifest, now: Instant, stats: seq<SlotStats>)
    requires RecordedBy(sha, log, file, m)
    requires Faithful(log, now) && Ascending(log) && Bounded(now)
    requires Reported(stats, ArchiveFormat.ParseStream(sha, file[8..], true))
    ensures forall st :: st in stats ==> st.nonIncreasing == 0
    ensures Total(stats, SkippedColumn()) <= m.overwritten + m.invalid + m.queueDrops
  {
    hide Sum, Queued, Tabulates, Faithful, Bounded, Ascending, RecordedBy, InOrder, Total, SkippedColumn,
         ArchiveFormat.ParseStream;
    AcceptedByBoth(sha, log, file, m);
    var slots :| Tabulates(slots, Queued(log)) && stats == InOrder(slots, 8);
    TableExplained(sha, log, file, m, now, slots);
    InOrderTotal(slots, SkippedColumn(), 8);
    InOrderHolds(slots, 8);
  }

  lemma LogIsWellFormed(sha: Hash, log: seq<Fresh>, file: seq<u8>, m: Manifest)
    requires RecordedBy(sha, log, file, m)
    ensures WellFormed(log)
  {
  }

  lemma {:induction false} ReportedSlot(log: seq<Fresh>, slots: map<u32, SlotStats>, slot: u32)
    requires Ascending(log) && ArchiveFormat.AllCommitted(Queued(log)) && Tabulates(slots, Queued(log))
    ensures SkippedOf(slots)(slot) <= GapsOf(Queued(log))(slot)
    ensures slot in slots ==> slots[slot].nonIncreasing == 0
  {
    hide Select, Gaps, Reversals, Queued, Describes, Ascending;
    QueuedRises(log, slot);
    var mine := Select(Queued(log), slot);
    RisingHasNoReversals(mine);
    if slot in slots {
      assert Describes(slots[slot], slot, mine);
      ReportedCounters(slots[slot], slot, mine);
    }
  }

  lemma ReportedCounters(st: SlotStats, slot: u32, mine: seq<Record>)
    requires ArchiveFormat.AllCommitted(mine) && Describes(st, slot, mine)
    ensures st.skippedRevisions <= Gaps(mine)
    ensures Reversals(mine) == 0 ==> st.nonIncreasing == 0
  {
    hide Gaps, Reversals, Bounds, ArchiveFormat.PayloadBytes;
  }

  lemma {:induction false} NothingWrapped(log: seq<Fresh>, now: Instant)
    requires WellFormed(log) && Faithful(log, now) && Ascending(log) && Bounded(now)
    ensures Overwrites(log) + |log| < HALF_RANGE
  {
    hide Select, Overwrites, Sum;
    forall slot: u32, r | r in Select(All(log), slot)
      ensures r.revision <= 2 * CommitsOf(now)(slot)
    {
      SelectedIsLogged(log, slot, r);
      var i :| 0 <= i < |log| && log[i].record == r;
      assert FaithfulRecord(log[i].record, now);
    }
    EverythingIsACommit(log, CommitsOf(now));
  }

  // ---------- What holds at every moment ----------

  /** The sampler's counters and its table of last revisions. */
  ghost predicate Tallies(log: seq<Fresh>, revisions: seq<u64>, overwritten: u64, invalid: u64, queueDrops: u64) {
    && WellFormed(log)
    && overwritten == Overwrites(log) % MOD_64
    && invalid == CountFate(log, Rejected) % MOD_64
    && queueDrops == CountFate(log, Dropped) % MOD_64
    && |revisions| == 8 && forall slot: u32 :: slot < 8 ==> revisions[slot] == LastRevision(log, slot)
  }

  /** A sample is rejected exactly when it fails the frame check. */
  ghost predicate Judged(log: seq<Fresh>) {
    forall i :: 0 <= i < |log| ==>
      (log[i].fate == Rejected <==> !ValidSample(log[i].record.slot, log[i].record.packet))
  }

  /** What went into the queue is written, or still on its way in order. */
  ghost predicate Pipeline(sha: Hash, log: seq<Fresh>, written: seq<Record>, waiting: seq<Record>,
                           stream: seq<u8>, records: u64, rawBytes: u64) {
    && Queued(log) == written + waiting
    && ArchiveFormat.AllStorable(Queued(log)) && ArchiveFormat.AllStorable(written)
    && stream == ArchiveFormat.PREFIX + ArchiveFormat.Image(sha, written)
    && records == |written| % MOD_64 && rawBytes == |stream| % MOD_64
  }

  ghost predicate Linked(log: seq<Fresh>, now: Instant) {
    Bounded(now) ==> Faithful(log, now) && Ascending(log)
  }

  lemma Nothing(sha: Hash, now: Instant)
    ensures Tallies([], seq(8, _ => 0), 0, 0, 0) && Judged([]) && Linked([], now)
    ensures Pipeline(sha, [], [], [], ArchiveFormat.PREFIX, 0, 8)
  {
    assert ArchiveFormat.PREFIX + [] == ArchiveFormat.PREFIX;
  }

  lemma {:induction false} LogSnoc(log: seq<Fresh>, sample: Fresh)
    requires WellFormed(log) && ArchiveFormat.Committed(sample.record)
    ensures var more := log + [sample];
            && WellFormed(more)
            && Overwrites(more) ==
               Overwrites(log) + OverwriteStep(LastRevision(log, sample.record.slot), sample.record.revision)
            && (forall fate :: CountFate(more, fate) == CountFate(log, fate) + (if sample.fate == fate then 1 else 0))
            && (forall slot: u32 ::
                  LastRevision(more, slot) ==
                  (if slot == sample.record.slot then sample.record.revision else LastRevision(log, slot)))
            && Queued(more) == Queued(log) + (if sample.fate == Enqueued then [sample.record] else [])
  {
    hide OverwriteStep;
    var more := log + [sample];
    assert more[..|log|] == log && more[|log|] == sample;
    assert forall i :: 0 <= i < |log| ==> All(more)[i] == All(log)[i];
  }

  lemma {:induction false} TalliesMore(log: seq<Fresh>, sample: Fresh, revisions: seq<u64>, overwritten: u64, invalid: u64, queueDrops: u64)
    requires Tallies(log, revisions, overwritten, invalid, queueDrops) && ArchiveFormat.Committed(sample.record)
    ensures sample.record.slot < |revisions|
    ensures Tallies(log + [sample], revisions[sample.record.slot := sample.record.revision],
                    Add64(overwritten, OverwriteStep(revisions[sample.record.slot], sample.record.revision)),
                    Add64(invalid, if sample.fate == Rejected then 1 else 0),
                    Add64(queueDrops, if sample.fate == Dropped then 1 else 0))
  {
    hide Overwrites, OverwriteStep, CountFate, LastRevision, Queued, WellFormed, Add64;
    LogSnoc(log, sample);
    AddWraps(Overwrites(log), OverwriteStep(revisions[sample.record.slot], sample.record.revision));
    AddWraps(CountFate(log, Rejected), if sample.fate == Rejected then 1 else 0);
    AddWraps(CountFate(log, Dropped), if sample.fate == Dropped then 1 else 0);
  }

  lemma {:induction false} PipelineMore(sha: Hash, log: seq<Fresh>, sample: Fresh, written: seq<Record>, waiting: seq<Record>,
                     stream: seq<u8>, records: u64, rawBytes: u64)
    requires Pipeline(sha, log, written, waiting, stream, records, rawBytes)
    requires WellFormed(log) && ArchiveFormat.Committed(sample.record)
    ensures Pipeline(sha, log + [sample], written, waiting + (if sample.fate == Enqueued then [sample.record] else []),
                     stream, records, rawBytes)
  {
    hide Overwrites, OverwriteStep, CountFate, LastRevision, Queued, WellFormed;
    LogSnoc(log, sample);
    assert waiting + [] == waiting && Queued(log) + [] == Queued(log);
    assert written + (waiting + [sample.record]) == written + waiting + [sample.record];
  }

  lemma JudgedMore(log: seq<Fresh>, sample: Fresh)
    requires Judged(log) && (sample.fate == Rejected <==> !ValidSample(sample.record.slot, sample.record.packet))
    ensures Judged(log + [sample])
  {
    hide ValidSample;
  }

  lemma {:induction false} LinkedLater(log: seq<Fresh>, now: Instant, now': Instant)
    requires Linked(log, now) && Later(now, now')
    ensures Linked(log, now')
  {
    hide Faithful, Bounded, Ascending;
    if Bounded(now') {
      BoundedBefore(now, now');
      FaithfulLater(log, now, now');
    }
  }

  /** A fresh sample that the board reader has delivered keeps the link. */
  lemma {:induction false} LinkedMore(log: seq<Fresh>, sample: Fresh, trace: seq<Instant>, start: nat)
    requires start < |trace| && BoardRun(trace) && Linked(log, trace[start])
    requires sample.record.slot < 8 && sample.record.revision != LastRevision(log, sample.record.slot)
    requires var now, slot := trace[|trace| - 1], sample.record.slot;
             |now[slot].commits| < |trace[start][slot].commits| + HALF_RANGE ==>
               exists t: nat :: start <= t < |trace| && LatestIs(trace[t][slot], sample.record.revision, sample.record.packet)
    ensures Linked(log + [sample], trace[|trace| - 1])
  {
    hide Faithful, Bounded, Ascending, BoardRun, Later, LastRevision, LatestIs;
    var now, slot := trace[|trace| - 1], sample.record.slot;
    if Bounded(now) {
      BoundedSlot(now, slot);
      var t: nat :| start <= t < |trace| && LatestIs(trace[t][slot], sample.record.revision, sample.record.packet);
      TraceIsLater(trace, start, t);
      TraceIsLater(trace, t, |trace| - 1);
      TraceIsLater(trace, start, |trace| - 1);
      BoundedBefore(trace[start], now);
      BoundedBefore(trace[t], now);
      BoundedSlot(trace[t], slot);
      FreshSampleFits(log, sample, trace[start], trace[t], now);
    }
  }

  /** All of it together. */
  lemma {:induction false} FreshSampleKeeps(
    sha: Hash, log: seq<Fresh>, sample: Fresh, last: seq<u64>, overwritten: u64, invalid: u64, queueDrops: u64,
    written: seq<Record>, waiting: seq<Record>, stream: seq<u8>, records: u64, rawBytes: u64,
    trace: seq<Instant>, start: nat)
    requires start < |trace| && BoardRun(trace) && Linked(log, trace[start]) && Judged(log)
    requires Tallies(log, last, overwritten, invalid, queueDrops)
    requires Pipeline(sha, log, written, waiting, stream, records, rawBytes)
    requires ArchiveFormat.Committed(sample.record) && sample.record.slot < |last|
    requires last[sample.record.slot] != sample.record.revision
    requires sample.fate == Rejected <==> !ValidSample(sample.record.slot, sample.record.packet)
    requires var now, slot := trace[|trace| - 1], sample.record.slot;
             |now[slot].commits| < |trace[start][slot].commits| + HALF_RANGE ==>
               exists t: nat :: start <= t < |trace| && LatestIs(trace[t][slot], sample.record.revision, sample.record.packet)
    ensures var more, r := log + [sample], sample.record;
            && Linked(more, trace[|trace| - 1]) && Judged(more)
            && Tallies(more, last[r.slot := r.revision], Add64(overwritten, OverwriteStep(last[r.slot], r.revision)),
                       if sample.fate == Rejected then Add64(invalid, 1) else invalid,
                       if sample.fate == Dropped then Add64(queueDrops, 1) else queueDrops)
            && Pipeline(sha, more, written, waiting + (if sample.fate == Enqueued then [r] else []), stream, records, rawBytes)
  {
    hide Tallies, Judged, Pipeline, Linked, BoardRun, OverwriteStep, ValidSample, LatestIs, Add64;
    LastRevisions(log, last, overwritten, invalid, queueDrops);
    NoChange(invalid);
    NoChange(queueDrops);
    LinkedMore(log, sample, trace, start);
    TalliesMore(log, sample, last, overwritten, invalid, queueDrops);
    PipelineMore(sha, log, sample, written, waiting, stream, records, rawBytes);
    JudgedMore(log, sample);
  }

  /** One item taken by the drain and written. */
  lemma {:induction false} PipelineWrites(sha: Hash, log: seq<Fresh>, written: seq<Record>, item: Record, waiting: seq<Record>,
                       stream: seq<u8>, records: u64, rawBytes: u64)
    requires Pipeline(sha, log, written, [item] + waiting, stream, records, rawBytes)
    ensures ArchiveFormat.Storable(item)
    ensures Pipeline(sha, log, written + [item], waiting, stream + ArchiveFormat.RecordImage(sha, item),
                     Add64(records, 1), Add64(rawBytes, 48 + |item.packet|))
  {
    hide Queued, ArchiveFormat.Image, ArchiveFormat.RecordImage, Add64;
    var all := Queued(log);
    assert all == written + [item] + waiting;
    assert all[|written|] == item && ArchiveFormat.Storable(item);
    assert forall i :: 0 <= i < |written| ==> (written + [item])[i] == written[i];
    ArchiveFormat.ImageOfOne(sha, item);
    ArchiveFormat.ImageConcat(sha, written, [item]);
    AddWraps(|written|, 1);
    AddWraps(|stream|, 48 + |item.packet|);
  }

  // ---------- Rounds ----------

  /** One tick of the sampler: the instants between which it happened, and the length of the log at
      its end. */
  datatype Round = Round(from: nat, to: nat, logged: nat)

  /** Every partition that was settled during the round was last observed under its revision. */
  ghost predicate Seen(trace: seq<Instant>, log: seq<Fresh>, r: Round) {
    && r.from <= r.to < |trace| && r.logged <= |log|
    && forall slot: nat :: slot < SLOTS && Settled(trace, slot, r.from, r.to) ==>
         LastRevision(log[..r.logged], slot) == trace[r.to][slot].words[0]
  }

  ghost function EndOf(start: nat, rounds: seq<Round>): nat {
    if rounds == [] then start else rounds[|rounds| - 1].to
  }

  /** The rounds follow each other without a gap. */
  ghost predicate Successive(trace: seq<Instant>, log: seq<Fresh>, start: nat, rounds: seq<Round>) {
    forall i :: 0 <= i < |rounds| ==> rounds[i].from == EndOf(start, rounds[..i]) && Seen(trace, log, rounds[i])
  }

  lemma {:induction false} OneMoreRound(trace: seq<Instant>, trace': seq<Instant>, log: seq<Fresh>, log': seq<Fresh>,
                     start: nat, rounds: seq<Round>, round: Round)
    requires trace <= trace' && log <= log' && Successive(trace, log, start, rounds)
    requires round.from == EndOf(start, rounds) && Seen(trace', log', round)
    ensures Successive(trace', log', start, rounds + [round])
  {
    hide Seen;
    var more := rounds + [round];
    forall i | 0 <= i < |more|
      ensures more[i].from == EndOf(start, more[..i]) && Seen(trace', log', more[i])
    {
      assert more[..i] == rounds[..i];
      if i < |rounds| {
        StillSeen(trace, trace', log, log', rounds[i]);
      } else {
        assert rounds[..i] == rounds;
      }
    }
  }

  lemma {:induction false} StillSeen(trace: seq<Instant>, trace': seq<Instant>, log: seq<Fresh>, log': seq<Fresh>, r: Round)
    requires trace <= trace' && log <= log' && Seen(trace, log, r)
    ensures Seen(trace', log', r)
  {
    hide LastRevision;
    assert log'[..r.logged] == log[..r.logged];
    forall slot: nat | slot < SLOTS && Settled(trace', slot, r.from, r.to)
      ensures LastRevision(log'[..r.logged], slot) == trace'[r.to][slot].words[0]
    {
      assert Settled(trace, slot, r.from, r.to);
    }
  }

  /** What is settled up to a later instant is settled in every part of that time. */
  lemma SettledWithin(trace: seq<Instant>, before: seq<Instant>, slot: nat, from: nat)
    requires slot < SLOTS && from < |before| && before <= trace && Settled(trace, slot, from, |trace| - 1)
    ensures Settled(before, slot, from, |before| - 1) && Settled(trace, slot, |before| - 1, |trace| - 1)
    ensures before[|before| - 1][slot].words == trace[|trace| - 1][slot].words
  {
  }

  // ---------- The two goroutines ----------

  /** The state of one `recordBoard` call. The sampler owns `revisions` and the three counters, the
      drain owns the stream and its two counters; they share only the queue. */
  class Recorder {
    const shared: Memory
    const sha: Hash
    const revisions: array<u64>
    var overwritten: u64
    var invalid: u64
    var queueDrops: u64
    var queue: seq<Record>
    var inHand: seq<Record>
    var stream: seq<u8>
    var records: u64
    var rawBytes: u64
    ghost var log: seq<Fresh>
    ghost var written: seq<Record>

    ghost predicate Valid()
      reads this, shared, revisions
    {
      && shared.Valid()
      && Tallies(log, revisions[..], overwritten, invalid, queueDrops)
      && Judged(log)
      && Linked(log, shared.now)
      && Flowing()
    }

    /** What the drain relies on and keeps, wherever the sampler is. */
    ghost predicate Flowing()
      reads this
    {
      && |queue| <= QUEUE_CAPACITY && |inHand| <= 1
      && Pipeline(sha, log, written, inHand + queue, stream, records, rawBytes)
    }

    constructor (shared: Memory, sha: Hash)
      requires shared.Valid()
      ensures Valid() && fresh(revisions) && this.shared == shared && this.sha == sha
    {
      this.shared, this.sha := shared, sha;
      revisions := new u64[8](_ => 0);
      overwritten, invalid, queueDrops := 0, 0, 0;
      queue, inHand := [], [];
      stream, records, rawBytes := ArchiveFormat.PREFIX, 0, 8;
      log, written := [], [];
      new;
      hide Tallies, Judged, Pipeline, Linked;
      Nothing(sha, shared.now);
      assert revisions[..] == seq(8, _ => 0);
    }

    /** The drain receives an item. */
    method Take()
      requires Flowing() && inHand == [] && queue != []
      modifies this`queue, this`inHand
      ensures Flowing() && inHand == [old(queue)[0]] && queue == old(queue)[1..]
    {
      assert [queue[0]] + queue[1..] == inHand + queue;
      inHand, queue := [queue[0]], queue[1..];
    }

    /** The drain writes the item it holds. */
    method Write()
      requires Flowing() && inHand != []
      modifies this`inHand, this`stream, this`records, this`rawBytes, this`written
      ensures Flowing() && inHand == []
      ensures written == old(written) + old(inHand)
    {
      hide Pipeline, ArchiveFormat.RecordImage;
      var item := inHand[0];
      assert inHand == [item];
      PipelineWrites(sha, log, written, item, queue, stream, records, rawBytes);
      stream := stream + ArchiveFormat.RecordImage(sha, item);
      records := Add64(records, 1);
      rawBytes := Add64(rawBytes, 48 + |item.packet|);
      written := written + [item];
      inHand := [];
      assert inHand + queue == queue;
    }

    /** Any number of steps of the drain. */
    method Drain()
      requires Flowing()
      modifies this`queue, this`inHand, this`stream, this`records, this`rawBytes, this`written
      ensures Flowing()
    {
      hide Pipeline;
      var steps: nat :| true;
      for i := 0 to steps
        invariant Flowing()
      {
        if inHand != [] {
          Write();
        } else if queue != [] {
          Take();
        }
      }
    }

    /** The sampler's non-blocking send: after whatever the drain did, the item enters the queue, or
        is counted as dropped if 128 items are waiting. */
    method Offer(item: Record) returns (ghost fate: Fate, ghost waiting: seq<Record>)
      requires Flowing()
      modifies this`queue, this`inHand, this`stream, this`records, this`rawBytes, this`written, this`queueDrops
      ensures |queue| <= 128 && |inHand| <= 1 && fate in {Enqueued, Dropped}
      ensures Pipeline(sha, log, written, waiting, stream, records, rawBytes)
      ensures inHand + queue == waiting + (if fate == Enqueued then [item] else [])
      ensures queueDrops == if fate == Dropped then Add64(old(queueDrops), 1) else old(queueDrops)
      ensures fate == Dropped ==> |queue| == 128
    {
      hide Pipeline, Add64;
      Drain();
      waiting := inHand + queue;
      if |queue| < QUEUE_CAPACITY {
        queue := queue + [item];
        fate := Enqueued;
      } else {
        queueDrops := Add64(queueDrops, 1);
        fate := Dropped;
      }
    }

    /** What the sampler asks of the board: something with another revision than it remembers. */
    method Fetch(slot: nat)
      returns (isFresh: bool, packet: seq<u8>, revision: u64, ghost tries: seq<Try>, ghost ok: bool)
      requires shared.Valid() && Linked(log, shared.now) && slot < SLOTS && revisions.Length == 8
      modifies shared
      ensures shared.Valid() && old(shared.trace) <= shared.trace && old(shared.loads) < shared.loads
      ensures Call(shared.loads, Anything(slot), |old(shared.loads)|, tries, ok)
      ensures revision == shared.loads[tries[|tries| - 1].first].value
      ensures isFresh == (ok && revision != revisions[slot])
      ensures shared.loads[|old(shared.loads)|].instant >= |old(shared.trace)| - 1
      ensures !isFresh ==> Linked(log, shared.now)
      ensures isFresh ==>
                && 1 <= |packet| <= ArchiveFormat.CAPACITY && revision != 0 && revision % 2 == 0
                && (|shared.now[slot].commits| < |old(shared.now)[slot].commits| + HALF_RANGE ==>
                      exists t: nat :: |old(shared.trace)| - 1 <= t < |shared.trace| &&
                        LatestIs(shared.trace[t][slot], revision, packet))
    {
      hide Linked, BoardRun, LatestIs, Later, SharedBoard.Recorded, AllDisturbed, Succeeded, GaveUp, Disturbed;
      var found;
      packet, revision, found, tries := ReadBoardSlot(shared, slot);
      ok := found;
      isFresh := found && revision != revisions[slot];
      if isFresh {
        ghost var a := tries[|tries| - 1];
        if |shared.now[slot].commits| < |old(shared.now)[slot].commits| + HALF_RANGE {
          assert LatestIs(shared.trace[shared.loads[a.first].instant][slot], revision, packet);
        }
      } else {
        ghost var start := |old(shared.trace)| - 1;
        TraceIsLater(shared.trace, start, |shared.trace| - 1);
        LinkedLater(log, shared.trace[start], shared.now);
      }
    }

    /** One turn of the sampling loop: a fresh observation is logged exactly when the board's reader
        succeeded with another revision than the remembered one, and a sample is dropped only if 128
        items are waiting. A partition that is settled during the call is always observed. */
    method Sample(slot: nat) returns (ghost tries: seq<Try>, ghost ok: bool)
      requires Valid() && slot < SLOTS
      modifies this, shared, revisions
      ensures Valid() && old(shared.trace) <= shared.trace && old(shared.loads) <= shared.loads
      ensures Call(shared.loads, Anything(slot), |old(shared.loads)|, tries, ok)
      ensures var seen := shared.loads[tries[|tries| - 1].first].value;
              if ok && seen != old(revisions[slot]) then
                && |log| == |old(log)| + 1 && log[..|old(log)|] == old(log)
                && log[|old(log)|].record.slot == slot && log[|old(log)|].record.revision == seen
                && (log[|old(log)|].fate == Dropped ==> |queue| == 128)
                && revisions[..] == old(revisions[..])[slot := seen]
              else log == old(log) && revisions[..] == old(revisions[..])
      ensures Settled(shared.trace, slot, |old(shared.trace)| - 1, |shared.trace| - 1) ==>
                revisions[slot] == shared.now[slot].words[0]
    {
      hide Tallies, Judged, Pipeline, Linked, BoardRun, LatestIs, LastRevision, WellFormed, SharedBoard.Recorded, Call, Settled;
      ghost var start := |shared.trace| - 1;
      LastRevisions(log, revisions[..], overwritten, invalid, queueDrops);
      var isFresh, packet, revision;
      isFresh, packet, revision, tries, ok := Fetch(slot);
      if Settled(shared.trace, slot, start, |shared.trace| - 1) {
        SettledIsRead(shared.trace, shared.loads, slot, start, |old(shared.loads)|, tries, ok);
      }
      if isFresh {
        Observe(slot, packet, revision, start);
      }
    }

    /** One tick: all eight partitions. Whatever was settled during it is what the recorder last
        observed of that partition. */
    method Tick()
      requires Valid()
      modifies this, shared, revisions
      ensures Valid() && old(shared.trace) <= shared.trace && old(log) <= log
      ensures Seen(shared.trace, log, Round(|old(shared.trace)| - 1, |shared.trace| - 1, |log|))
    {
      hide Tallies, Judged, Pipeline, Linked, BoardRun, LastRevision, WellFormed, SharedBoard.Recorded, Call, Settled;
      ghost var start := |shared.trace| - 1;
      LastRevisions(log, revisions[..], overwritten, invalid, queueDrops);
      for slot := 0 to SLOTS
        invariant Valid() && old(shared.trace) <= shared.trace && old(log) <= log
        invariant revisions.Length == 8
        invariant forall s: nat :: s < slot && Settled(shared.trace, s, start, |shared.trace| - 1) ==>
                    revisions[s] == shared.now[s].words[0]
      {
        ghost var trace, last := shared.trace, revisions[..];
        LastRevisions(log, last, overwritten, invalid, queueDrops);
        ghost var tries, ok := Sample(slot);
        forall s: nat | s < slot + 1 && Settled(shared.trace, s, start, |shared.trace| - 1)
          ensures revisions[s] == shared.now[s].words[0]
        {
          SettledWithin(shared.trace, trace, s, start);
          assert s < slot ==> revisions[..][s] == last[s];
        }
      }
      LastRevisions(log, revisions[..], overwritten, invalid, queueDrops);
      assert log[..|log|] == log;
    }

    /** A fresh sample: count what was missed, check the frame, offer it to the queue. */
    method Observe(slot: nat, packet: seq<u8>, revision: u64, ghost start: nat)
      requires shared.Valid() && Flowing() && start < |shared.trace| && slot < SLOTS
      requires Tallies(log, revisions[..], overwritten, invalid, queueDrops) && Judged(log)
      requires Linked(log, shared.trace[start])
      requires revisions.Length == 8 && revision != revisions[slot]
      requires 1 <= |packet| <= ArchiveFormat.CAPACITY && revision != 0 && revision % 2 == 0
      requires |shared.now[slot].commits| < |shared.trace[start][slot].commits| + HALF_RANGE ==>
                 exists t: nat :: start <= t < |shared.trace| && LatestIs(shared.trace[t][slot], revision, packet)
      modifies this, revisions
      ensures Valid() && |log| == |old(log)| + 1 && log[..|old(log)|] == old(log)
      ensures revisions[..] == old(revisions[..])[slot := revision]
      ensures var sample := log[|old(log)|];
              && sample.record == ArchiveFormat.Record(slot, revision, packet)
              && (sample.fate == Dropped ==> |queue| == 128)
    {
      hide Tallies, Judged, Pipeline, Linked, BoardRun, OverwriteStep, ValidSample, LatestIs, Add64, Sub64,
           LastRevision, RelayParser.ParsePacket, Observations.ValidObservationPacket, WellFormed;
      var item := ArchiveFormat.Record(slot, revision, packet);
      ghost var last := revisions[..];
      if revisions[slot] != 0 && revision > Add64(revisions[slot], 2) {
        overwritten := Add64(overwritten, Sub64(Sub64(revision, revisions[slot]) / 2, 1));
      }
      StepOrNothing(last[slot], revision, old(overwritten));
      revisions[slot] := revision;
      var valid := Observations.ValidObservationPacket(packet);
      if slot < 2 {
        valid := RelayParser.ParsePacket(packet).1 == RelayParser.Ok;
      }
      FrameCheck(slot, packet);
      ghost var fate, waiting := Rejected, inHand + queue;
      if !valid {
        invalid := Add64(invalid, 1);
      } else {
        fate, waiting := Offer(item);
      }
      ghost var sample := Fresh(item, fate);
      assert revisions[..] == last[slot := revision];
      assert waiting + [] == waiting;
      FreshSampleKeeps(sha, log, sample, last, old(overwritten), old(invalid), old(queueDrops),
                       written, waiting, stream, records, rawBytes, shared.trace, start);
      log := log + [sample];
    }

    /** The queue is closed: the drain takes and writes everything that is left. */
    method Finish()
      requires Flowing()
      modifies this`queue, this`inHand, this`stream, this`records, this`rawBytes, this`written
      ensures Flowing() && queue == [] && inHand == []
      ensures written == old(written) + old(inHand) + old(queue)
    {
      hide Pipeline;
      while inHand != [] || queue != []
        invariant Flowing()
        invariant written + inHand + queue == old(written) + old(inHand) + old(queue)
        decreases 2 * |queue| + |inHand|
      {
        if inHand != [] {
          ghost var w, h, q := written, inHand, queue;
          Write();
          assert written + [] + queue == w + h + q;
        } else {
          ghost var w, q := written, queue;
          Take();
          assert w + [q[0]] + q[1..] == w + [] + q;
        }
      }
    }
  }

  lemma LastRevisions(log: seq<Fresh>, revisions: seq<u64>, overwritten: u64, invalid: u64, queueDrops: u64)
    requires Tallies(log, revisions, overwritten, invalid, queueDrops)
    ensures WellFormed(log) && |revisions| == 8
    ensures forall slot: u32 :: slot < 8 ==> revisions[slot] == LastRevision(log, slot)
  {
  }

  lemma StepOrNothing(last: u64, revision: u64, overwritten: u64)
    ensures Add64(overwritten, OverwriteStep(last, revision)) ==
            if last != 0 && revision > Add64(last, 2)
            then Add64(overwritten, Sub64(Sub64(revision, last) / 2, 1)) else overwritten
  {
  }

  lemma NoChange(counter: u64)
    ensures Add64(counter, 0) == counter
  {
  }

  lemma FrameCheck(slot: nat, packet: seq<u8>)
    ensures ValidSample(slot, packet) <==>
            if slot < 2 then RelayParser.ParsePacket(packet).1 == RelayParser.Ok
            else Observations.ValidObservationPacket(packet)
  {
  }

  // ---------- The program ----------

  datatype Outcome = Refused | Recorded(file: seq<u8>, manifest: Manifest)

  /** `recordBoard`, with as many ticks as the timer or the operator allows. Every recording satisfies
      what the lemmas above ask for; and there is a round for each tick, one after the other, in which
      everything that was settled was observed. */
  method RecordBoard(shared: Memory, sha: Hash, output: string, duration: int, period: int, periodText: string, ticks: nat)
    returns (r: Outcome, ghost log: seq<Fresh>, ghost rounds: seq<Round>)
    requires shared.Valid()
    modifies shared
    ensures shared.Valid() && old(shared.trace) <= shared.trace
    ensures r.Refused? <==> output == "" || duration <= 0 || period <= 0
    ensures r.Recorded? ==> RecordedBy(sha, log, r.file, r.manifest) && r.manifest.period == periodText
    ensures r.Recorded? ==>
              forall i :: 0 <= i < |log| ==>
                (log[i].fate == Rejected <==>
                 !(if log[i].record.slot < 2 then RelayParser.ParsePacket(log[i].record.packet).1 == RelayParser.Ok
                   else Observations.ValidObservationPacket(log[i].record.packet)))
    ensures r.Recorded? && Bounded(shared.now) ==> Faithful(log, shared.now) && Ascending(log)
    ensures r.Recorded? ==> |rounds| == ticks && Successive(shared.trace, log, |old(shared.trace)| - 1, rounds)
  {
    hide Tallies, Judged, Pipeline, Linked, BoardRun, RecordedBy, SharedBoard.Recorded, Seen, RelayParser.ParsePacket,
         Observations.ValidObservationPacket;
    log, rounds := [], [];
    if output == "" || duration <= 0 || period <= 0 {
      return Outcome.Refused, log, rounds;
    }
    var recorder := new Recorder(shared, sha);
    for tick := 0 to ticks
      invariant recorder.Valid() && old(shared.trace) <= shared.trace
      invariant fresh(recorder) && fresh(recorder.revisions) && recorder.shared == shared && recorder.sha == sha
      invariant |rounds| == tick && Successive(shared.trace, recorder.log, |old(shared.trace)| - 1, rounds)
      invariant |shared.trace| - 1 == EndOf(|old(shared.trace)| - 1, rounds)
    {
      ghost var trace, seen := shared.trace, recorder.log;
      recorder.Tick();
      ghost var round := Round(|trace| - 1, |shared.trace| - 1, |recorder.log|);
      OneMoreRound(trace, shared.trace, seen, recorder.log, |old(shared.trace)| - 1, rounds, round);
      rounds := rounds + [round];
    }
    recorder.Finish();
    log := recorder.log;
    var file := recorder.stream;
    var manifest := Manifest(FORMAT, sha(file), recorder.records, recorder.rawBytes, |file|,
                             recorder.queueDrops, recorder.overwritten, recorder.invalid, periodText);
    assert recorder.inHand + recorder.queue == [];
    Finished(sha, log, recorder.written, file, recorder.revisions[..], manifest);
    LinkedMeans(log, shared.now);
    JudgedMeans(log);
    return Outcome.Recorded(file, manifest), log, rounds;
  }

  lemma JudgedMeans(log: seq<Fresh>)
    requires Judged(log)
    ensures forall i :: 0 <= i < |log| ==>
              (log[i].fate == Rejected <==>
               !(if log[i].record.slot < 2 then RelayParser.ParsePacket(log[i].record.packet).1 == RelayParser.Ok
                 else Observations.ValidObservationPacket(log[i].record.packet)))
  {
    hide RelayParser.ParsePacket, Observations.ValidObservationPacket;
  }

  lemma LinkedMeans(log: seq<Fresh>, now: Instant)
    requires Linked(log, now)
    ensures Bounded(now) ==> Faithful(log, now) && Ascending(log)
  {
  }

  lemma Finished(sha: Hash, log: seq<Fresh>, written: seq<Record>, file: seq<u8>, revisions: seq<u64>, m: Manifest)
    requires Tallies(log, revisions, m.overwritten, m.invalid, m.queueDrops)
    requires Pipeline(sha, log, written, [], file, m.records, m.rawBytes)
    requires m.format == FORMAT && m.sha256 == sha(file) && m.compressedBytes == |file|
    ensures RecordedBy(sha, log, file, m)
  {
    hide Overwrites, CountFate, Queued, ArchiveFormat.Image;
    assert written + [] == written;
  }
}

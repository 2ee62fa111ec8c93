/** The two consumers of a recorded archive: `verifyRecord` of the relay tool and `analyzeArchive`
    of the toolkit, with its per-partition statistics. */
module Archive {
  import opened Words
  import opened ArchiveFormat

  const FORMAT: string := "G1REC1"

  datatype Manifest = Manifest(
    format: string, sha256: Digest, records: u64, rawBytes: u64, compressedBytes: int,
    queueDrops: u64, overwritten: u64, invalid: u64, period: string)

  datatype SlotStats = SlotStats(
    slot: u32, records: u64, payloadBytes: u64, firstRevision: u64, lastRevision: u64,
    skippedRevisions: u64, nonIncreasing: u64, minPayload: u32, maxPayload: u32)

  datatype Report = Report(
    records: u64, rawBytes: u64, compressedBytes: int, slots: seq<SlotStats>, recorder: Manifest)

  datatype ArchiveError =
    | UnsupportedManifest | UnsupportedFormat | UnexpectedEnd
    | BadRecordHeader(record: u64) | RecordHashMismatch(record: u64)
    | ArchiveHashMismatch | CountMismatch

  datatype Result<T> = Success(value: T) | Failure(error: ArchiveError)

  // ---------- What the two readers accept ----------

  predicate HasPrefix(file: seq<u8>) {
    |file| >= 8 && file[..8] == PREFIX
  }

  /** `verifyRecord` succeeds. */
  predicate Verifies(sha: Hash, file: seq<u8>, m: Manifest) {
    && sha(file) == m.sha256
    && HasPrefix(file)
    && ParseStream(sha, file[8..], false).Records?
    && |ParseStream(sha, file[8..], false).records| % MOD_64 == m.records
  }

  /** `analyzeArchive` succeeds. */
  predicate Analyzes(sha: Hash, file: seq<u8>, m: Manifest) {
    && m.format == FORMAT
    && HasPrefix(file)
    && ParseStream(sha, file[8..], true).Records?
    && sha(file) == m.sha256
    && |ParseStream(sha, file[8..], true).records| % MOD_64 == m.records
    && |file| % MOD_64 == m.rawBytes
    && |file| == m.compressedBytes
  }

  /** The error for a stream with a fault; records are numbered on 64 bits. */
  function StreamError(fault: Fault, after: nat): ArchiveError {
    match fault
    case Truncated => UnexpectedEnd
    case WrongHeader => BadRecordHeader(after % MOD_64)
    case WrongDigest => RecordHashMismatch(after % MOD_64)
  }

  /** The first thing wrong with a file without a proper prefix. */
  function PrefixError(file: seq<u8>): ArchiveError {
    if |file| < 8 then UnexpectedEnd else UnsupportedFormat
  }

  /** Why `verifyRecord` refuses an archive: the first of its checks that fails. */
  function VerifyError(sha: Hash, file: seq<u8>, m: Manifest): ArchiveError {
    if sha(file) != m.sha256 then ArchiveHashMismatch
    else if !HasPrefix(file) then PrefixError(file)
    else
      match ParseStream(sha, file[8..], false)
      case Malformed(fault, after) => StreamError(fault, after)
      case Records(_) => CountMismatch
  }

  /** Why `analyzeArchive` refuses one: it looks at the hash only after reading everything. */
  function AnalyzeError(sha: Hash, file: seq<u8>, m: Manifest): ArchiveError {
    if m.format != FORMAT then UnsupportedManifest
    else if !HasPrefix(file) then PrefixError(file)
    else
      match ParseStream(sha, file[8..], true)
      case Malformed(fault, after) => StreamError(fault, after)
      case Records(_) => if sha(file) != m.sha256 then ArchiveHashMismatch else CountMismatch
  }

  /** The errors of `verifyRecord`, one by one. */
  lemma VerifyErrorIs(sha: Hash, file: seq<u8>, m: Manifest)
    ensures var e, read := VerifyError(sha, file, m),
                           if |file| < 8 then Records([]) else ParseStream(sha, file[8..], false);
            if sha(file) != m.sha256 then e == ArchiveHashMismatch
            else
              && (e == UnexpectedEnd <==> |file| < 8 || (file[..8] == PREFIX && read.Malformed? && read.fault == Truncated))
              && (e == UnsupportedFormat <==> |file| >= 8 && file[..8] != PREFIX)
              && (e == CountMismatch <==> |file| >= 8 && file[..8] == PREFIX && read.Records?)
              && e != ArchiveHashMismatch && e != UnsupportedManifest
  {
    hide ParseStream;
  }

  /** The errors of `analyzeArchive`: a wrong hash shows only in a well-formed stream. */
  lemma AnalyzeErrorIs(sha: Hash, file: seq<u8>, m: Manifest)
    ensures var e, read := AnalyzeError(sha, file, m),
                           if |file| < 8 then Records([]) else ParseStream(sha, file[8..], true);
            if m.format != "G1REC1" then e == UnsupportedManifest
            else
              && (e == UnexpectedEnd <==> |file| < 8 || (file[..8] == PREFIX && read.Malformed? && read.fault == Truncated))
              && (e == UnsupportedFormat <==> |file| >= 8 && file[..8] != PREFIX)
              && (e == ArchiveHashMismatch <==>
                    |file| >= 8 && file[..8] == PREFIX && read.Records? && sha(file) != m.sha256)
              && (e == CountMismatch <==>
                    |file| >= 8 && file[..8] == PREFIX && read.Records? && sha(file) == m.sha256)
              && e != UnsupportedManifest
  {
    hide ParseStream;
  }

  /** The analyser accepts what `verifyRecord` accepts, provided that every revision is one a writer
      can have committed and that the manifest's format and sizes are right. */
  lemma AnalyzesIffVerifies(sha: Hash, file: seq<u8>, m: Manifest)
    ensures Analyzes(sha, file, m) <==>
            && Verifies(sha, file, m)
            && AllCommitted(ParseStream(sha, file[8..], false).records)
            && m.format == FORMAT && m.rawBytes == |file| % MOD_64 && m.compressedBytes == |file|
  {
    if HasPrefix(file) {
      var s := file[8..];
      if ParseStream(sha, s, true).Records? {
        StreamIffImage(sha, s, ParseStream(sha, s, true).records);
      }
      if ParseStream(sha, s, false).Records? && AllCommitted(ParseStream(sha, s, false).records) {
        ImageOfStream(sha, s, false);
        StreamIffImage(sha, s, ParseStream(sha, s, false).records);
      }
    }
  }

  /** An archive that `verifyRecord` accepts and the analyser refuses: its one record has revision 1,
      which no writer commits. */
  lemma VerifiedButNotAnalyzed(sha: Hash)
    ensures var r := Record(0, 1, [7]);
            && Storable(r)
            && var file := PREFIX + Image(sha, [r]);
               var m := Manifest(FORMAT, sha(file), 1, |file| % MOD_64, |file|, 0, 0, 0, "");
               Verifies(sha, file, m) && !Analyzes(sha, file, m)
  {
    hide Image, ParseStream;
    var r := Record(0, 1, [7]);
    var file := PREFIX + Image(sha, [r]);
    var m := Manifest(FORMAT, sha(file), 1, |file| % MOD_64, |file|, 0, 0, 0, "");
    assert file[..8] == PREFIX && file[8..] == Image(sha, [r]);
    StreamOfImage(sha, [r], false);
    assert [r][0] == r && !AllCommitted([r]);
    AnalyzesIffVerifies(sha, file, m);
  }

  // ---------- Per-partition statistics ----------

  /** The records of one partition, in order. */
  function Select(records: seq<Record>, slot: u32): (mine: seq<Record>)
    ensures |mine| <= |records|
    ensures AllCommitted(records) ==> AllCommitted(mine)
    ensures forall i :: 0 <= i < |mine| ==> mine[i].slot == slot
  {
    if records == [] then []
    else
      var n := |records| - 1;
      Select(records[..n], slot) + (if records[n].slot == slot then [records[n]] else [])
  }

  /** Commits that lie between successive records with rising revisions. */
  function Gaps(mine: seq<Record>): nat
    requires AllCommitted(mine)
  {
    if |mine| < 2 then 0
    else
      var n := |mine| - 1;
      Gaps(mine[..n]) +
      (if mine[n].revision > mine[n - 1].revision
       then (mine[n].revision - mine[n - 1].revision) / 2 - 1 else 0)
  }

  /** Records whose revision does not rise. */
  function Reversals(mine: seq<Record>): nat {
    if |mine| < 2 then 0
    else
      var n := |mine| - 1;
      Reversals(mine[..n]) + (if mine[n].revision <= mine[n - 1].revision then 1 else 0)
  }

  ghost predicate Rising(mine: seq<Record>) {
    forall i, j :: 0 <= i < j < |mine| ==> mine[i].revision < mine[j].revision
  }

  /** The counters of a partition with these records, modulo `2^64`. */
  ghost predicate Counts(st: SlotStats, slot: u32, mine: seq<Record>)
    requires AllCommitted(mine)
  {
    && |mine| > 0
    && st.slot == slot
    && st.records == |mine| % MOD_64
    && st.payloadBytes == PayloadBytes(mine) % MOD_64
    && st.firstRevision == mine[0].revision
    && st.lastRevision == mine[|mine| - 1].revision
    && st.skippedRevisions == Gaps(mine) % MOD_64
    && st.nonIncreasing == Reversals(mine) % MOD_64
  }

  /** The least and the greatest payload of these records. */
  ghost predicate Bounds(st: SlotStats, mine: seq<Record>) {
    && (forall i :: 0 <= i < |mine| ==> st.minPayload <= |mine[i].packet| <= st.maxPayload)
    && (exists i :: 0 <= i < |mine| && st.minPayload == |mine[i].packet|)
    && (exists i :: 0 <= i < |mine| && st.maxPayload == |mine[i].packet|)
  }

  ghost predicate Describes(st: SlotStats, slot: u32, mine: seq<Record>)
    requires AllCommitted(mine)
  {
    Counts(st, slot, mine) && Bounds(st, mine)
  }

  /** The table after some records: one entry per partition that occurs. */
  ghost predicate Tabulates(slots: map<u32, SlotStats>, records: seq<Record>)
    requires AllCommitted(records)
  {
    forall slot: u32 ::
      if Select(records, slot) == [] then slot !in slots
      else slot in slots && Describes(slots[slot], slot, Select(records, slot))
  }

  lemma {:induction false} PayloadSnoc(mine: seq<Record>, r: Record)
    ensures PayloadBytes(mine + [r]) == PayloadBytes(mine) + |r.packet|
  {
    if mine == [] {
      assert PayloadBytes([r]) == |r.packet| + PayloadBytes([]);
    } else {
      assert (mine + [r])[1..] == mine[1..] + [r];
      PayloadSnoc(mine[1..], r);
    }
  }

  lemma SelectSnoc(records: seq<Record>, r: Record, slot: u32)
    ensures Select(records + [r], slot) == Select(records, slot) + (if r.slot == slot then [r] else [])
  {
    assert (records + [r])[..|records|] == records;
  }

  /** The first record of a partition. */
  lemma DescribesOne(r: Record)
    requires Committed(r)
    ensures AllCommitted([r])
    ensures Describes(SlotStats(r.slot, 1, |r.packet|, r.revision, r.revision, 0, 0, |r.packet|, |r.packet|), r.slot, [r])
  {
    assert [r][0] == r;
    assert PayloadBytes([r]) == |r.packet| + PayloadBytes([]);
  }

  /** The loop body's update of an entry. */
  function Updated(st: SlotStats, r: Record): SlotStats
    requires Committed(r) && st.lastRevision % 2 == 0
  {
    var size := |r.packet|;
    var counted :=
      if r.revision <= st.lastRevision then st.(nonIncreasing := Add64(st.nonIncreasing, 1))
      else st.(skippedRevisions := Add64(st.skippedRevisions, (r.revision - st.lastRevision) / 2 - 1));
    counted.(records := Add64(st.records, 1), payloadBytes := Add64(st.payloadBytes, size),
             lastRevision := r.revision,
             minPayload := if size < st.minPayload then size else st.minPayload,
             maxPayload := if size > st.maxPayload then size else st.maxPayload)
  }

  lemma DescribesMore(st: SlotStats, mine: seq<Record>, r: Record)
    requires AllCommitted(mine) && Committed(r) && Describes(st, r.slot, mine)
    requires st.lastRevision % 2 == 0
    ensures AllCommitted(mine + [r]) && Describes(Updated(st, r), r.slot, mine + [r])
  {
    hide Gaps, Reversals, PayloadBytes, Counts, Bounds, Updated;
    CountsMore(st, mine, r);
    BoundsMore(st, mine, r);
  }

  lemma TotalsMore(mine: seq<Record>, r: Record)
    requires AllCommitted(mine) && Committed(r) && |mine| > 0
    ensures AllCommitted(mine + [r])
    ensures var last := mine[|mine| - 1].revision;
            && Gaps(mine + [r]) == Gaps(mine) + (if r.revision > last then (r.revision - last) / 2 - 1 else 0)
            && Reversals(mine + [r]) == Reversals(mine) + (if r.revision <= last then 1 else 0)
  {
    var all, n := mine + [r], |mine|;
    assert all[..n] == mine && all[n] == r && all[n - 1] == mine[n - 1];
  }

  lemma CountsMore(st: SlotStats, mine: seq<Record>, r: Record)
    requires AllCommitted(mine) && Committed(r) && Counts(st, r.slot, mine)
    requires st.lastRevision % 2 == 0
    ensures AllCommitted(mine + [r]) && Counts(Updated(st, r), r.slot, mine + [r])
  {
    hide Gaps, Reversals, PayloadBytes, Add64;
    TotalsMore(mine, r);
    PayloadSnoc(mine, r);
    AddWraps(|mine|, 1);
    AddWraps(PayloadBytes(mine), |r.packet|);
    AddWraps(Reversals(mine), 1);
    AddWraps(Reversals(mine), 0);
    if r.revision > st.lastRevision {
      AddWraps(Gaps(mine), (r.revision - st.lastRevision) / 2 - 1);
    }
  }

  lemma BoundsMore(st: SlotStats, mine: seq<Record>, r: Record)
    requires Committed(r) && Bounds(st, mine) && st.lastRevision % 2 == 0
    ensures Bounds(Updated(st, r), mine + [r])
  {
    var st', all, n := Updated(st, r), mine + [r], |mine|;
    var i :| 0 <= i < n && st.minPayload == |mine[i].packet|;
    var j :| 0 <= j < n && st.maxPayload == |mine[j].packet|;
    assert all[i] == mine[i] && all[j] == mine[j] && all[n] == r;
    forall k | 0 <= k < |all|
      ensures st'.minPayload <= |all[k].packet| <= st'.maxPayload
    {
      assert k < n ==> all[k] == mine[k];
    }
  }

  /** What the report's entries are: the table in order of partition. */
  function InOrder(slots: map<u32, SlotStats>, n: nat): (s: seq<SlotStats>)
    requires n <= 8
  {
    if n == 0 then []
    else InOrder(slots, n - 1) + (if n - 1 in slots then [slots[n - 1]] else [])
  }

  // ---------- What the counters count ----------

  ghost function Between(low: nat, high: nat): set<nat> {
    if high <= low + 1 then {} else Between(low, high - 1) + {high - 1}
  }

  lemma {:induction false} BetweenHolds(low: nat, high: nat)
    ensures forall k: nat :: k in Between(low, high) <==> low < k < high
    ensures low < high ==> |Between(low, high)| == high - low - 1
  {
    if high <= low + 1 {
    } else {
      BetweenHolds(low, high - 1);
    }
  }

  /** The commits with revisions strictly between two successive records. */
  ghost function SkippedAfter(mine: seq<Record>, i: nat): set<nat> {
    if i + 1 < |mine| then Between(mine[i].revision / 2, mine[i + 1].revision / 2) else {}
  }

  /** All of them, with their positions. */
  ghost function Skipped(mine: seq<Record>): set<(nat, nat)> {
    set i: nat, c | i < |mine| && c in SkippedAfter(mine, i) :: (i, c)
  }

  ghost predicate FallsAfter(mine: seq<Record>, i: nat) {
    i + 1 < |mine| && mine[i + 1].revision <= mine[i].revision
  }

  /** The positions after which the revision does not rise. */
  ghost function Falls(mine: seq<Record>): set<nat> {
    set i: nat | i < |mine| && FallsAfter(mine, i)
  }

  ghost function At(i: nat, commits: set<nat>): set<(nat, nat)> {
    set c | c in commits :: (i, c)
  }

  lemma {:induction false} AtCounts(i: nat, commits: set<nat>)
    ensures |At(i, commits)| == |commits|
  {
    if commits == {} {
      assert At(i, commits) == {};
    } else {
      var c :| c in commits;
      AtCounts(i, commits - {c});
      assert At(i, commits) == At(i, commits - {c}) + {(i, c)};
    }
  }

  /** Rising or not, the two counters of a partition count exactly these. */
  lemma {:induction false} GapsAndFalls(mine: seq<Record>)
    requires AllCommitted(mine)
    ensures Gaps(mine) == |Skipped(mine)| && Reversals(mine) == |Falls(mine)|
  {
    if |mine| < 2 {
      assert Skipped(mine) == {} && Falls(mine) == {};
    } else {
      var n := |mine| - 1;
      var before, low, high := mine[..n], mine[n - 1].revision / 2, mine[n].revision / 2;
      GapsAndFalls(before);
      assert Committed(mine[n]) && Committed(mine[n - 1]);
      BetweenHolds(low, high);
      AtCounts(n - 1, Between(low, high));
      SkippedSplits(mine);
      FallsSplit(mine);
      NothingBetween(low, high);
    }
  }

  lemma NothingBetween(low: nat, high: nat)
    ensures high <= low ==> Between(low, high) == {}
  {
  }

  lemma SkippedSplits(mine: seq<Record>)
    requires |mine| >= 2
    ensures var n := |mine| - 1;
            |Skipped(mine)| ==
            |Skipped(mine[..n])| + |At(n - 1, Between(mine[n - 1].revision / 2, mine[n].revision / 2))|
  {
    hide Between;
    var n := |mine| - 1;
    var before, last := mine[..n], SkippedAfter(mine, n - 1);
    assert forall i: nat :: i < n - 1 ==> SkippedAfter(before, i) == SkippedAfter(mine, i);
    assert SkippedAfter(before, n - 1) == {} && SkippedAfter(mine, n) == {};
    assert Skipped(mine) == Skipped(before) + At(n - 1, last);
    assert Skipped(before) !! At(n - 1, last);
  }

  lemma FallsSplit(mine: seq<Record>)
    requires |mine| >= 2
    ensures var n := |mine| - 1;
            |Falls(mine)| == |Falls(mine[..n])| + (if mine[n].revision <= mine[n - 1].revision then 1 else 0)
  {
    var n := |mine| - 1;
    var before, fall := mine[..n], if FallsAfter(mine, n - 1) then {n - 1} else {};
    assert forall i: nat :: i < n - 1 ==> (FallsAfter(before, i) <==> FallsAfter(mine, i));
    assert Falls(mine) == Falls(before) + fall && Falls(before) !! fall;
  }

  /** The entries that a stream calls for. */
  ghost predicate Reported(stats: seq<SlotStats>, s: Stream) {
    && s.Records? && AllCommitted(s.records)
    && exists slots :: Tabulates(slots, s.records) && stats == InOrder(slots, 8)
  }

  /** The entries of the table come in ascending order of their partitions, each once. */
  lemma {:induction false} InOrderAscends(slots: map<u32, SlotStats>, records: seq<Record>, n: nat)
    requires AllCommitted(records) && Tabulates(slots, records) && n <= 8
    ensures forall i, j :: 0 <= i < j < |InOrder(slots, n)| ==> InOrder(slots, n)[i].slot < InOrder(slots, n)[j].slot
    ensures forall st :: st in InOrder(slots, n) <==> st.slot < n && st.slot in slots && slots[st.slot] == st
  {
    hide Select, Gaps, Reversals, Bounds, AllCommitted;
    if n == 0 {
    } else {
      InOrderAscends(slots, records, n - 1);
      EntryIsOfItsSlot(slots, records, n - 1);
    }
  }

  lemma EntryIsOfItsSlot(slots: map<u32, SlotStats>, records: seq<Record>, slot: u32)
    requires AllCommitted(records) && Tabulates(slots, records)
    ensures slot in slots <==> Select(records, slot) != []
    ensures slot in slots ==> slots[slot].slot == slot && Describes(slots[slot], slot, Select(records, slot))
  {
    hide Select, Gaps, Reversals, Bounds, AllCommitted;
  }

  /** A report lists exactly the partitions that occur, in ascending order, with exact figures. */
  lemma ReportIsExact(stats: seq<SlotStats>, s: Stream)
    requires Reported(stats, s)
    ensures s.Records? && AllCommitted(s.records)
    ensures forall i, j :: 0 <= i < j < |stats| ==> stats[i].slot < stats[j].slot
    ensures forall slot: u32 :: Select(s.records, slot) != [] <==> (exists st :: st in stats && st.slot == slot)
    ensures forall st :: st in stats ==> Describes(st, st.slot, Select(s.records, st.slot))
  {
    hide Tabulates, InOrder, Describes, Select;
    var records := s.records;
    var slots :| Tabulates(slots, records) && stats == InOrder(slots, 8);
    InOrderAscends(slots, records, 8);
    forall slot: u32
      ensures Select(records, slot) != [] <==> (exists st :: st in stats && st.slot == slot)
    {
      EntryIsOfItsSlot(slots, records, slot);
      if Select(records, slot) != [] {
        SelectHolds(records, slot);
        assert Select(records, slot)[0] in records && Committed(Select(records, slot)[0]);
        assert slots[slot] in stats;
      }
    }
    forall st | st in stats
      ensures Describes(st, st.slot, Select(records, st.slot))
    {
      EntryIsOfItsSlot(slots, records, st.slot);
    }
  }

  /** The records of a partition are those of the stream that name it, in the same order. */
  lemma {:induction false} SelectHolds(records: seq<Record>, slot: u32)
    ensures forall r :: r in Select(records, slot) <==> r in records && r.slot == slot
  {
    if records == [] {
    } else {
      var n := |records| - 1;
      SelectHolds(records[..n], slot);
      assert records == records[..n] + [records[n]];
    }
  }

  // ---------- Conservation ----------

  function Sum(f: u32 -> nat, n: nat): nat
    requires n <= 8
  {
    if n == 0 then 0 else Sum(f, n - 1) + f(n - 1)
  }

  lemma {:induction false} SumOfSums(f: u32 -> nat, g: u32 -> nat, h: u32 -> nat, n: nat)
    requires n <= 8 && (forall slot: u32 :: slot < n ==> f(slot) == g(slot) + h(slot))
    ensures Sum(f, n) == Sum(g, n) + Sum(h, n)
  {
    if n == 0 {
    } else {
      SumOfSums(f, g, h, n - 1);
    }
  }

  lemma {:induction false} SumOfZeros(f: u32 -> nat, n: nat)
    requires n <= 8 && (forall slot: u32 :: slot < n ==> f(slot) == 0)
    ensures Sum(f, n) == 0
  {
    if n == 0 {
    } else {
      SumOfZeros(f, n - 1);
    }
  }

  lemma {:induction false} SumChangesAt(f: u32 -> nat, g: u32 -> nat, k: u32, d: nat, n: nat)
    requires n <= 8 && (forall slot: u32 :: slot < n && slot != k ==> f(slot) == g(slot))
    requires f(k) == g(k) + d
    ensures Sum(f, n) == Sum(g, n) + (if k < n then d else 0)
  {
    if n == 0 {
    } else {
      SumChangesAt(f, g, k, d, n - 1);
    }
  }

  lemma SlotInRange(r: Record)
    ensures Committed(r) ==> r.slot < 8
  {
  }

  /** Every record belongs to exactly one partition. */
  lemma {:induction false} CountsAddUp(records: seq<Record>)
    requires AllCommitted(records)
    ensures Sum((slot: u32) => |Select(records, slot)|, 8) == |records|
  {
    hide Committed, Select;
    var f: u32 -> nat := (slot: u32) => |Select(records, slot)|;
    if records == [] {
      NoPayload();
      SumOfZeros(f, 8);
    } else {
      var n := |records| - 1;
      var r, before := records[n], records[..n];
      var g: u32 -> nat := (slot: u32) => |Select(before, slot)|;
      CountsAddUp(before);
      SlotInRange(r);
      assert records == before + [r];
      forall slot: u32
        ensures f(slot) == g(slot) + (if slot == r.slot then 1 else 0)
      {
        SelectSnoc(before, r, slot);
      }
      SumChangesAt(f, g, r.slot, 1, 8);
    }
  }

  /** The payloads of the partitions add up to all payloads. */
  lemma {:induction false} PayloadsAddUp(records: seq<Record>)
    requires AllCommitted(records)
    ensures Sum((slot: u32) => PayloadBytes(Select(records, slot)), 8) == PayloadBytes(records)
  {
    hide Committed, Select, PayloadBytes;
    var f := (slot: u32) => PayloadBytes(Select(records, slot));
    if records == [] {
      NoPayload();
      SumOfZeros(f, 8);
    } else {
      var n := |records| - 1;
      var r, before := records[n], records[..n];
      var g := (slot: u32) => PayloadBytes(Select(before, slot));
      PayloadsAddUp(before);
      SlotInRange(r);
      assert records == before + [r];
      PayloadSnoc(before, r);
      forall slot: u32
        ensures f(slot) == g(slot) + (if slot == r.slot then |r.packet| else 0)
      {
        SelectSnoc(before, r, slot);
        PayloadSnoc(Select(before, slot), r);
        assert Select(before, slot) + [] == Select(before, slot);
      }
      SumChangesAt(f, g, r.slot, |r.packet|, 8);
    }
  }

  lemma NoPayload()
    ensures PayloadBytes([]) == 0 && forall slot: u32 :: Select([], slot) == []
  {
  }

  /** A column of the report, added up without wrapping. */
  function Total(stats: seq<SlotStats>, column: SlotStats -> nat): nat {
    if stats == [] then 0 else Total(stats[..|stats| - 1], column) + column(stats[|stats| - 1])
  }

  function PerSlot(slots: map<u32, SlotStats>, column: SlotStats -> nat): u32 -> nat {
    (slot: u32) => if slot in slots then column(slots[slot]) else 0
  }

  lemma {:induction false} InOrderTotal(slots: map<u32, SlotStats>, column: SlotStats -> nat, n: nat)
    requires n <= 8
    ensures Total(InOrder(slots, n), column) == Sum(PerSlot(slots, column), n)
  {
    if n == 0 {
    } else {
      InOrderTotal(slots, column, n - 1);
      var before := InOrder(slots, n - 1);
      if n - 1 in slots {
        assert (before + [slots[n - 1]])[..|before|] == before;
      } else {
        assert before + [] == before;
      }
    }
  }

  lemma {:induction false} SumWraps(f: u32 -> nat, g: u32 -> nat, n: nat)
    requires n <= 8 && (forall slot: u32 :: f(slot) == g(slot) % MOD_64)
    ensures Sum(f, n) % MOD_64 == Sum(g, n) % MOD_64
  {
    if n == 0 {
    } else {
      SumWraps(f, g, n - 1);
      AddWraps(Sum(f, n - 1), f(n - 1));
      AddWraps(Sum(g, n - 1), f(n - 1));
      AddWraps(g(n - 1), Sum(g, n - 1));
    }
  }

  function RecordColumn(): SlotStats -> nat {
    (st: SlotStats) => st.records
  }

  function PayloadColumn(): SlotStats -> nat {
    (st: SlotStats) => st.payloadBytes
  }

  /** The columns of a table, on 64 bits. */
  lemma ColumnsAddUp(slots: map<u32, SlotStats>, records: seq<Record>)
    requires AllCommitted(records) && Tabulates(slots, records)
    ensures Total(InOrder(slots, 8), RecordColumn()) % MOD_64 == |records| % MOD_64
    ensures Total(InOrder(slots, 8), PayloadColumn()) % MOD_64 == PayloadBytes(records) % MOD_64
  {
    hide Select, Gaps, Reversals, InOrder, Total, Sum, Bounds, Committed;
    var counts := (slot: u32) => |Select(records, slot)|;
    var payloads := (slot: u32) => PayloadBytes(Select(records, slot));
    forall slot: u32
      ensures PerSlot(slots, RecordColumn())(slot) == counts(slot) % MOD_64
      ensures PerSlot(slots, PayloadColumn())(slot) == payloads(slot) % MOD_64
    {
      NoPayload();
      assert if Select(records, slot) == [] then slot !in slots
             else slot in slots && Describes(slots[slot], slot, Select(records, slot));
    }
    InOrderTotal(slots, RecordColumn(), 8);
    InOrderTotal(slots, PayloadColumn(), 8);
    SumWraps(PerSlot(slots, RecordColumn()), counts, 8);
    SumWraps(PerSlot(slots, PayloadColumn()), payloads, 8);
    CountsAddUp(records);
    PayloadsAddUp(records);
  }

  /** The figures of a report agree with each other: the records of its entries add up to its record
      count, and the prefix, 48 bytes per record and the payloads of its entries to its size. */
  ghost predicate AddsUp(r: Report) {
    && Total(r.slots, RecordColumn()) % MOD_64 == r.records
    && (8 + 48 * r.records + Total(r.slots, PayloadColumn())) % MOD_64 == r.rawBytes
  }

  lemma {:induction false} NoReversalsRise(mine: seq<Record>)
    requires Reversals(mine) == 0
    ensures Rising(mine)
  {
    if |mine| < 2 {
    } else {
      var n := |mine| - 1;
      NoReversalsRise(mine[..n]);
      assert forall i :: 0 <= i < n ==> mine[..n][i] == mine[i];
      forall i | 0 <= i < n
        ensures mine[i].revision < mine[n].revision
      {
        assert i < n - 1 ==> mine[i].revision < mine[n - 1].revision;
      }
    }
  }

  lemma {:induction false} RisingHasNoReversals(mine: seq<Record>)
    requires Rising(mine)
    ensures Reversals(mine) == 0
  {
    if |mine| < 2 {
    } else {
      RisingHasNoReversals(mine[..|mine| - 1]);
    }
  }

  /** A partition with rising revisions: what was recorded and what was skipped together are all
      the commits from the first record to the last. */
  lemma {:induction false} RecordedPlusSkipped(mine: seq<Record>)
    requires AllCommitted(mine) && Rising(mine) && |mine| > 0
    ensures |mine| + Gaps(mine) == (mine[|mine| - 1].revision - mine[0].revision) / 2 + 1
  {
    if |mine| < 2 {
    } else {
      var n := |mine| - 1;
      RecordedPlusSkipped(mine[..n]);
      assert Committed(mine[n]) && Committed(mine[n - 1]) && Committed(mine[0]);
    }
  }

  /** The same in terms of a report: whenever the counter of non-increasing revisions is zero and
      has not wrapped, the other counters of that partition satisfy the equation exactly. */
  lemma SlotConservation(st: SlotStats, slot: u32, mine: seq<Record>)
    requires AllCommitted(mine) && Describes(st, slot, mine)
    requires st.nonIncreasing == 0 && |mine| < MOD_64
    ensures st.records + st.skippedRevisions == (st.lastRevision - st.firstRevision) / 2 + 1
  {
    hide Gaps, Reversals;
    ReversalsBound(mine);
    assert Reversals(mine) == 0;
    NoReversalsRise(mine);
    RecordedPlusSkipped(mine);
    assert Committed(mine[0]) && Committed(mine[|mine| - 1]);
    assert Gaps(mine) < MOD_64;
  }

  lemma {:induction false} ReversalsBound(mine: seq<Record>)
    ensures Reversals(mine) <= |mine|
  {
    if |mine| < 2 {
    } else {
      ReversalsBound(mine[..|mine| - 1]);
    }
  }

  /** The file length is the prefix, 48 bytes per record, and the payloads. */
  lemma RawBytesAddUp(sha: Hash, file: seq<u8>)
    requires HasPrefix(file) && ParseStream(sha, file[8..], true).Records?
    ensures var records := ParseStream(sha, file[8..], true).records;
            |file| == 8 + 48 * |records| + PayloadBytes(records)
  {
    ImageOfStream(sha, file[8..], true);
    ImageLength(sha, ParseStream(sha, file[8..], true).records);
  }

  // ---------- The programs ----------

  method VerifyRecord(sha: Hash, file: seq<u8>, manifest: Manifest) returns (r: Result<u64>)
    ensures r.Success? <==> Verifies(sha, file, manifest)
    ensures r.Failure? ==> r.error == VerifyError(sha, file, manifest)
    ensures r.Success? ==> r.value == manifest.records
  {
    hide LittleEndian, Value, ParseStream, Add64;
    NothingToParse(sha, false);
    if sha(file) != manifest.sha256 {
      return Failure(ArchiveHashMismatch);
    }
    if |file| < 8 {
      return Failure(UnexpectedEnd);
    }
    if file[..8] != PREFIX {
      return Failure(UnsupportedFormat);
    }
    var count: u64 := 0;
    var rest := file[8..];
    ghost var found: seq<Record> := [];
    while rest != []
      invariant AllStorable(found) && count == |found| % MOD_64
      invariant ParseStream(sha, file[8..], false) == Prepend(found, ParseStream(sha, rest, false))
      decreases |rest|
    {
      ParseStreamStep(sha, rest, false, found);
      if |rest| < 16 {
        return Failure(UnexpectedEnd);
      }
      var size := GetU32(rest, 4);
      var slot := GetU32(rest, 0);
      if size == 0 || size > CAPACITY || slot >= 8 {
        return Failure(BadRecordHeader(count));
      }
      if |rest| < 48 + size {
        return Failure(UnexpectedEnd);
      }
      if sha(rest[..16] + rest[16..16 + size]) != rest[16 + size..48 + size] {
        return Failure(RecordHashMismatch(count));
      }
      AddWraps(|found|, 1);
      count := Add64(count, 1);
      found := found + [ParseRecord(sha, rest, false).record];
      rest := rest[48 + size..];
    }
    if count != manifest.records {
      return Failure(CountMismatch);
    }
    return Success(count);
  }

  lemma NothingToParse(sha: Hash, strict: bool)
    ensures ParseStream(sha, [], strict) == Records([])
  {
  }

  function Prepend(found: seq<Record>, s: Stream): Stream {
    match s
    case Malformed(fault, after) => Malformed(fault, |found| + after)
    case Records(records) => Records(found + records)
  }

  lemma ParseStreamStep(sha: Hash, s: seq<u8>, strict: bool, found: seq<Record>)
    requires s != []
    ensures Prepend(found, ParseStream(sha, s, strict)) ==
            match ParseRecord(sha, s, strict)
            case Bad(fault) => Malformed(fault, |found|)
            case Good(record, rest) => Prepend(found + [record], ParseStream(sha, rest, strict))
  {
    hide ParseRecord;
    match ParseRecord(sha, s, strict)
    case Bad(_) =>
    case Good(record, rest) =>
      match ParseStream(sha, rest, strict)
      case Malformed(_, _) =>
      case Records(records) => assert found + ([record] + records) == found + [record] + records;
  }

  /** One loop turn of the analyser on its table. */
  lemma TabulatesMore(slots: map<u32, SlotStats>, records: seq<Record>, r: Record, entry: SlotStats)
    requires AllCommitted(records) && Committed(r) && Tabulates(slots, records)
    requires if r.slot in slots then Describes(entry, r.slot, Select(records, r.slot) + [r])
             else Describes(entry, r.slot, [r])
    ensures AllCommitted(records + [r]) && Tabulates(slots[r.slot := entry], records + [r])
  {
    hide Describes, Select;
    var more := records + [r];
    assert AllCommitted(more);
    forall slot: u32
      ensures if Select(more, slot) == [] then slot !in slots[r.slot := entry]
              else slot in slots[r.slot := entry] &&
                   Describes(slots[r.slot := entry][slot], slot, Select(more, slot))
    {
      SelectSnoc(records, r, slot);
      assert Select(records, slot) + [] == Select(records, slot);
      if slot == r.slot && slot !in slots {
        assert Select(more, slot) == [r];
      }
    }
  }

  lemma NothingTabulated()
    ensures Tabulates(map[], [])
  {
  }

  method AnalyzeArchive(sha: Hash, file: seq<u8>, manifest: Manifest) returns (r: Result<Report>)
    ensures r.Success? <==> Analyzes(sha, file, manifest)
    ensures r.Failure? ==> r.error == AnalyzeError(sha, file, manifest)
    ensures r.Success? ==> AddsUp(r.value)
    ensures r.Success? ==>
              && r.value.recorder == manifest && r.value.compressedBytes == |file|
              && r.value.records == manifest.records && r.value.rawBytes == manifest.rawBytes
    ensures r.Success? ==> Reported(r.value.slots, ParseStream(sha, file[8..], true))
    ensures r.Success? ==>
              forall i, j :: 0 <= i < j < |r.value.slots| ==> r.value.slots[i].slot < r.value.slots[j].slot
  {
    hide LittleEndian, Value, ParseStream, Tabulates, Describes, Select, Add64, InOrder;
    NothingToParse(sha, true);
    NothingTabulated();
    if manifest.format != FORMAT {
      return Failure(UnsupportedManifest);
    }
    if |file| < 8 {
      return Failure(UnexpectedEnd);
    }
    if file[..8] != PREFIX {
      return Failure(UnsupportedFormat);
    }
    var records: u64, rawBytes: u64 := 0, 8;
    var slots: map<u32, SlotStats> := map[];
    var rest := file[8..];
    ghost var found: seq<Record> := [];
    while rest != []
      invariant AllStorable(found) && AllCommitted(found)
      invariant records == |found| % MOD_64 && |rest| <= |file|
      invariant rawBytes == (|file| - |rest|) % MOD_64
      invariant Tabulates(slots, found)
      invariant ParseStream(sha, file[8..], true) == Prepend(found, ParseStream(sha, rest, true))
      decreases |rest|
    {
      ParseStreamStep(sha, rest, true, found);
      if |rest| < 16 {
        return Failure(UnexpectedEnd);
      }
      var slot, size, revision := GetU32(rest, 0), GetU32(rest, 4), GetU64(rest, 8);
      if slot >= 8 || size == 0 || size > CAPACITY || revision == 0 || revision % 2 != 0 {
        return Failure(BadRecordHeader(records));
      }
      if |rest| < 48 + size {
        return Failure(UnexpectedEnd);
      }
      if sha(rest[..16] + rest[16..16 + size]) != rest[16 + size..48 + size] {
        return Failure(RecordHashMismatch(records));
      }
      ghost var record := ParseRecord(sha, rest, true).record;
      slots := CountRecord(slots, slot, size, revision, found, record);
      AddWraps(|found|, 1);
      AddWraps(|file| - |rest|, 48 + size);
      records := Add64(records, 1);
      rawBytes := Add64(rawBytes, 48 + size);
      found := found + [record];
      rest := rest[48 + size..];
    }
    if sha(file) != manifest.sha256 {
      return Failure(ArchiveHashMismatch);
    }
    if records != manifest.records || rawBytes != manifest.rawBytes || |file| != manifest.compressedBytes {
      return Failure(CountMismatch);
    }
    assert found + [] == found;
    ReportAddsUp(sha, file, slots, found, manifest);
    ReportIsExact(InOrder(slots, 8), ParseStream(sha, file[8..], true));
    return Success(Report(records, rawBytes, |file|, InOrder(slots, 8), manifest));
  }

  lemma ReportAddsUp(sha: Hash, file: seq<u8>, slots: map<u32, SlotStats>, records: seq<Record>, m: Manifest)
    requires HasPrefix(file) && ParseStream(sha, file[8..], true) == Records(records)
    requires AllCommitted(records) && Tabulates(slots, records)
    ensures AddsUp(Report(|records| % MOD_64, |file| % MOD_64, |file|, InOrder(slots, 8), m))
  {
    hide Total, InOrder, Tabulates, ParseStream, AllCommitted;
    ColumnsAddUp(slots, records);
    RawBytesAddUp(sha, file);
    SizeWraps(|records|, PayloadBytes(records), Total(InOrder(slots, 8), PayloadColumn()));
  }

  lemma SizeWraps(n: nat, payload: nat, total: nat)
    requires total % MOD_64 == payload % MOD_64
    ensures (8 + 48 * (n % MOD_64) + total) % MOD_64 == (8 + 48 * n + payload) % MOD_64
  {
    var r := n % MOD_64;
    AddWraps(total, 8 + 48 * r);
    AddWraps(payload, 8 + 48 * r);
    var size := 8 + 48 * r + payload;
    RemainderIs(8 + 48 * n + payload, 48 * (n / MOD_64) + size / MOD_64, size % MOD_64);
  }

  /** The part of the loop body that updates the partition's entry. */
  method CountRecord(slots: map<u32, SlotStats>, slot: u32, size: u32, revision: u64,
                     ghost found: seq<Record>, ghost record: Record)
    returns (slots': map<u32, SlotStats>)
    requires AllCommitted(found) && Committed(record) && Tabulates(slots, found)
    requires slot == record.slot && size == |record.packet| && revision == record.revision
    ensures AllCommitted(found + [record]) && Tabulates(slots', found + [record])
  {
    hide Gaps, Reversals, PayloadBytes, Select;
    ghost var mine := Select(found, slot);
    var s: SlotStats;
    if slot !in slots {
      s := SlotStats(slot, 0, 0, revision, 0, 0, 0, size, 0);
    } else {
      s := slots[slot];
      assert Committed(mine[|mine| - 1]);
      if revision <= s.lastRevision {
        s := s.(nonIncreasing := Add64(s.nonIncreasing, 1));
      } else {
        s := s.(skippedRevisions := Add64(s.skippedRevisions, (revision - s.lastRevision) / 2 - 1));
      }
    }
    s := s.(records := Add64(s.records, 1), payloadBytes := Add64(s.payloadBytes, size), lastRevision := revision);
    if size < s.minPayload {
      s := s.(minPayload := size);
    }
    if size > s.maxPayload {
      s := s.(maxPayload := size);
    }
    if slot in slots {
      assert s == Updated(slots[slot], record);
      DescribesMore(slots[slot], mine, record);
    } else {
      DescribesOne(record);
    }
    TabulatesMore(slots, found, record, s);
    slots' := slots[slot := s];
  }
}

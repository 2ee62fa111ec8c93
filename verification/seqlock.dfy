/** One partition of the shared-state board as a step system: a writer that performs one atomic
    load or store per step, may die between any two of them and be replaced, and any number of
    readers, which change nothing.

    The revision word is odd while a payload is being replaced and even when one is committed. It
    is 64 bits wide and wraps; the number of commits is not bounded here. */
module Seqlock {
  import opened Words

  const CAPACITY: nat := 1024
  const PARTITION_WORDS: nat := 136
  const HALF_RANGE: nat := 0x8000_0000_0000_0000

  /** Word 0 is the revision, word 1 the payload size in bytes, the payload starts at word 2. */
  type Partition = w: seq<u64> | |w| == 136 witness seq(136, _ => 0)

  type Payload = d: seq<u8> | 1 <= |d| <= 1024 witness [0]

  /** Where the owner of the partition is in `publish`. */
  datatype Writer =
    | Absent
    | Ready
    | Loaded(data: Payload, previous: u64)
    | Marked(data: Payload, next: u64)
    | Copying(data: Payload, next: u64, offset: nat)

  /** The shared words, the writer, and the payloads committed so far. */
  datatype Slot = Slot(words: Partition, writer: Writer, commits: seq<Payload>)

  datatype Action = Open | Die | Begin(data: Payload) | Mark | StoreSize | StoreWord | Commit

  /** `(previous | 1) + 1`: the even revision that follows, whether or not the last writer died at
      an odd one. */
  function Following(previous: u64): u64 {
    Add64(if previous % 2 == 0 then previous + 1 else previous, 1)
  }

  /** `revision - 1` on 64 bits. */
  function Preceding(revision: u64): u64 {
    if revision == 0 then MOD_64 - 1 else revision - 1
  }

  function Least(a: nat, b: nat): nat {
    if a < b then a else b
  }

  /** Up to eight payload bytes as one zero-padded word. */
  function PackWord(data: seq<u8>, offset: nat): u64
    requires offset < |data|
  {
    var piece := data[offset..Least(offset + 8, |data|)];
    PieceFits(piece);
    Value(piece)
  }

  lemma PieceFits(piece: seq<u8>)
    requires |piece| <= 8
    ensures Value(piece) < MOD_64
  {
    ValueBound(piece);
    Widths();
    PowersGrow(|piece|, 8);
  }

  lemma {:induction false} PowersGrow(a: nat, b: nat)
    requires a <= b
    ensures Pow256(a) <= Pow256(b)
  {
    if a >= b {
    } else {
      PowersGrow(a, b - 1);
    }
  }

  predicate Enabled(s: Slot, a: Action) {
    match a
    case Open => s.writer == Absent
    case Die => s.writer != Absent
    case Begin(_) => s.writer == Ready
    case Mark => s.writer.Loaded?
    case StoreSize => s.writer.Marked?
    case StoreWord => s.writer.Copying? && s.writer.offset < |s.writer.data|
    case Commit => s.writer.Copying? && s.writer.offset >= |s.writer.data|
  }

  function Apply(s: Slot, a: Action): Slot
    requires Enabled(s, a)
  {
    var w := s.writer;
    match a
    case Open => s.(writer := Ready)
    case Die => s.(writer := Absent)
    case Begin(data) => s.(writer := Loaded(data, s.words[0]))
    case Mark =>
      var next := Following(w.previous);
      s.(words := s.words[0 := Preceding(next)], writer := Marked(w.data, next))
    case StoreSize => s.(words := s.words[1 := |w.data|], writer := Copying(w.data, w.next, 0))
    case StoreWord =>
      s.(words := s.words[2 + w.offset / 8 := PackWord(w.data, w.offset)],
         writer := w.(offset := w.offset + 8))
    case Commit => Slot(s.words[0 := w.next], Ready, s.commits + [w.data])
  }

  ghost predicate SlotNext(s: Slot, s': Slot) {
    s' == s || exists a :: Enabled(s, a) && s' == Apply(s, a)
  }

  /** A partition of a freshly initialized board. */
  function Zeroed(): Slot {
    Slot(seq(136, _ => 0), Absent, [])
  }

  ghost predicate IsRun(run: seq<Slot>) {
    && |run| > 0
    && run[0] == Zeroed()
    && forall i :: 0 < i < |run| ==> SlotNext(run[i - 1], run[i])
  }

  // ---------- The invariant ----------

  /** The part of `data` before `offset` is in the payload words. */
  ghost predicate Stored(words: Partition, data: Payload, offset: nat) {
    forall k: nat :: 8 * k < offset && 8 * k < |data| ==> words[2 + k] == PackWord(data, 8 * k)
  }

  ghost predicate Holds(words: Partition, data: Payload) {
    words[1] == |data| && Stored(words, data, |data|)
  }

  /** The revision without wrap-around: twice the number of commits, plus one while the next one
      is under way. */
  function Unwrapped(s: Slot): nat {
    2 * |s.commits| + s.words[0] % 2
  }

  ghost predicate Inv(s: Slot) {
    var n := |s.commits|;
    && s.words[0] == Unwrapped(s) % MOD_64
    && (n == 0 && s.words[0] % 2 == 0 ==> s.words[0] == 0)
    && (n > 0 && s.words[0] % 2 == 0 ==> Holds(s.words, s.commits[n - 1]))
    && (match s.writer
        case Absent => true
        case Ready => true
        case Loaded(_, previous) => previous == s.words[0]
        case Marked(_, next) => s.words[0] % 2 == 1 && next == (2 * n + 2) % MOD_64
        case Copying(data, next, offset) =>
          && s.words[0] % 2 == 1 && next == (2 * n + 2) % MOD_64
          && offset % 8 == 0 && offset < |data| + 8
          && s.words[1] == |data| && Stored(s.words, data, offset))
  }

  lemma FollowingUnwrapped(n: nat, previous: u64)
    requires previous == (2 * n + previous % 2) % MOD_64
    ensures Following(previous) == (2 * n + 2) % MOD_64
    ensures Preceding(Following(previous)) == (2 * n + 1) % MOD_64
    ensures Preceding(Following(previous)) % 2 == 1
  {
    var m := 2 * n % MOD_64;
    assert (2 * n + 1) % MOD_64 == m + 1;
    assert previous == m + previous % 2;
  }

  /** Every step keeps the invariant, never lowers the unwrapped revision, and changes neither the
      words nor the commits while that stays even. */
  lemma StepKeepsInv(s: Slot, s': Slot)
    requires Inv(s) && SlotNext(s, s')
    ensures Inv(s')
    ensures Unwrapped(s) <= Unwrapped(s') <= Unwrapped(s) + 1
    ensures s.commits <= s'.commits
    ensures Unwrapped(s) == Unwrapped(s') && Unwrapped(s) % 2 == 0 ==>
              s'.words == s.words && s'.commits == s.commits
  {
    if s' != s {
      var a :| Enabled(s, a) && s' == Apply(s, a);
      match a
      case Open =>
      case Die =>
      case Begin(_) =>
      case Mark =>
        FollowingUnwrapped(|s.commits|, s.words[0]);
      case StoreSize =>
      case StoreWord =>
        StoreWordKeepsInv(s, s');
      case Commit =>
        CommitKeepsInv(s, s');
    }
  }

  lemma StoreWordKeepsInv(s: Slot, s': Slot)
    requires Inv(s) && Enabled(s, StoreWord) && s' == Apply(s, StoreWord)
    ensures Inv(s') && s'.words[0] == s.words[0] && s'.commits == s.commits
  {
    var data, offset := s.writer.data, s.writer.offset;
    forall k: nat | 8 * k < offset + 8 && 8 * k < |data|
      ensures s'.words[2 + k] == PackWord(data, 8 * k)
    {
      if 8 * k < offset {
        assert 2 + k != 2 + offset / 8;
      } else {
        assert 8 * k == offset;
      }
    }
  }

  lemma CommitKeepsInv(s: Slot, s': Slot)
    requires Inv(s) && Enabled(s, Commit) && s' == Apply(s, Commit)
    ensures Inv(s') && Unwrapped(s') == Unwrapped(s) + 1
    ensures s'.words[0] == 2 * |s'.commits| % MOD_64
  {
    var data := s.writer.data;
    assert Stored(s.words, data, |data|);
    forall k: nat | 8 * k < |data|
      ensures s'.words[2 + k] == PackWord(data, 8 * k)
    {
      assert s'.words[2 + k] == s.words[2 + k];
    }
    assert s'.commits[|s'.commits| - 1] == data;
    assert (2 * |s'.commits|) % MOD_64 % 2 == 0;
  }

  lemma {:induction false} RunKeepsInv(run: seq<Slot>, i: nat)
    requires IsRun(run) && i < |run|
    ensures Inv(run[i])
  {
    if i == 0 {
    } else {
      RunKeepsInv(run, i - 1);
      StepKeepsInv(run[i - 1], run[i]);
    }
  }

  /** Along a run the unwrapped revision and the list of commits only grow. */
  lemma {:induction false} RunGrows(run: seq<Slot>, i: nat, j: nat)
    requires IsRun(run) && i <= j < |run|
    ensures Unwrapped(run[i]) <= Unwrapped(run[j])
    ensures run[i].commits <= run[j].commits
    decreases j
  {
    if i >= j {
    } else {
      RunGrows(run, i, j - 1);
      RunKeepsInv(run, j - 1);
      StepKeepsInv(run[j - 1], run[j]);
    }
  }

  // ---------- Revision discipline ----------

  /** For up to `2^63 - 1` commits the revision word is exactly twice the number of commits, plus
      one while another is under way: no revision is reused or skipped, whatever writers died. */
  lemma RevisionCountsCommits(run: seq<Slot>, i: nat)
    requires IsRun(run) && i < |run| && |run[i].commits| < HALF_RANGE
    ensures run[i].words[0] == 2 * |run[i].commits| || run[i].words[0] == 2 * |run[i].commits| + 1
    ensures run[i].words[0] == Unwrapped(run[i])
  {
    RunKeepsInv(run, i);
  }

  /** A step adds a commit exactly when it takes the revision word from odd to even, and what it
      then holds is twice the number of commits, on 64 bits. */
  lemma CommitsAreEvenRevisions(run: seq<Slot>, i: nat)
    requires IsRun(run) && 0 < i < |run|
    ensures run[i].commits != run[i - 1].commits <==>
            run[i - 1].words[0] % 2 == 1 && run[i].words[0] % 2 == 0
    ensures run[i].commits != run[i - 1].commits ==>
            |run[i].commits| == |run[i - 1].commits| + 1 &&
            run[i].words[0] == 2 * |run[i].commits| % MOD_64
  {
    RunKeepsInv(run, i - 1);
    RunKeepsInv(run, i);
    StepKeepsInv(run[i - 1], run[i]);
    var s, s' := run[i - 1], run[i];
    if s'.commits != s.commits {
      var a :| Enabled(s, a) && s' == Apply(s, a);
      assert a == Commit;
      CommitKeepsInv(s, s');
    }
  }

  ghost predicate RevisionNeverDecreases(run: seq<Slot>) {
    forall i, j :: 0 <= i <= j < |run| ==> run[i].words[0] <= run[j].words[0]
  }

  /** The step at which the commit count first reaches a given number. */
  lemma {:induction false} FirstWith(run: seq<Slot>, j: nat, count: nat) returns (i: nat)
    requires IsRun(run) && j < |run| && 0 < count <= |run[j].commits|
    ensures 0 < i <= j && |run[i].commits| == count && |run[i - 1].commits| < count
  {
    assert |run[0].commits| == 0;
    if |run[j - 1].commits| >= count {
      i := FirstWith(run, j - 1, count);
    } else {
      RunKeepsInv(run, j - 1);
      StepKeepsInv(run[j - 1], run[j]);
      i := j;
    }
  }

  /** The revision word never decreases in a run exactly when the run stays below `2^63` commits. */
  lemma NeverDecreasesIffNoWrap(run: seq<Slot>)
    requires IsRun(run)
    ensures RevisionNeverDecreases(run) <==> |run[|run| - 1].commits| < HALF_RANGE
  {
    var last := |run| - 1;
    if |run[last].commits| < HALF_RANGE {
      forall i, j | 0 <= i <= j < |run|
        ensures run[i].words[0] <= run[j].words[0]
      {
        RunGrows(run, i, j);
        RunGrows(run, j, last);
        RevisionCountsCommits(run, i);
        RevisionCountsCommits(run, j);
      }
    } else {
      var i := FirstWith(run, last, HALF_RANGE);
      CommitsAreEvenRevisions(run, i);
      assert run[i].words[0] == 0;
      assert run[i - 1].words[0] % 2 == 1;
      assert run[i - 1].words[0] > run[i].words[0];
    }
  }

  // ---------- Untorn reads ----------

  /** `data` is the latest commit and `revision` the revision word. */
  ghost predicate LatestIs(s: Slot, revision: u64, data: seq<u8>) {
    && |s.commits| > 0
    && data == s.commits[|s.commits| - 1]
    && revision == s.words[0] == 2 * |s.commits| % MOD_64
  }

  lemma SameEvenRevision(n: nat, m: nat)
    requires n <= m < n + HALF_RANGE && 2 * n % MOD_64 == 2 * m % MOD_64
    ensures n == m
  {
    var d := 2 * m - 2 * n;
    assert 2 * m == 2 * n + d;
    assert (2 * n % MOD_64 + d) % MOD_64 == 2 * n % MOD_64;
  }

  /** If the same even revision is seen at two instants, less than `2^63` commits apart, then
      nothing at all changed in between. */
  lemma NothingChanged(run: seq<Slot>, from: nat, to: nat, t: nat)
    requires IsRun(run) && from <= t <= to < |run|
    requires run[from].words[0] == run[to].words[0] && run[from].words[0] % 2 == 0
    requires |run[to].commits| < |run[from].commits| + HALF_RANGE
    ensures run[t].words == run[from].words && run[t].commits == run[from].commits
  {
    hide IsRun;
    RunKeepsInv(run, from);
    RunKeepsInv(run, to);
    RunGrows(run, from, to);
    SameEvenRevision(|run[from].commits|, |run[to].commits|);
    Frozen(run, from, to, t);
  }

  lemma {:induction false} Frozen(run: seq<Slot>, from: nat, to: nat, t: nat)
    requires IsRun(run) && from <= t <= to < |run|
    requires Unwrapped(run[from]) == Unwrapped(run[to]) && Unwrapped(run[from]) % 2 == 0
    ensures run[t].words == run[from].words && run[t].commits == run[from].commits
    decreases t
  {
    if from >= t {
    } else {
      Frozen(run, from, to, t - 1);
      RunGrows(run, from, t);
      RunGrows(run, t, to);
      RunKeepsInv(run, t - 1);
      StepKeepsInv(run[t - 1], run[t]);
    }
  }

  /** The bytes of a list of payload words. */
  function Unpack(values: seq<u64>): (s: seq<u8>)
    ensures |s| == 8 * |values|
  {
    if values == [] then [] else Unpack(values[..|values| - 1]) + LittleEndian(values[|values| - 1], 8)
  }

  function WordCount(length: nat): nat {
    (length + 7) / 8
  }

  /** Reassembling the words of a stored payload gives the payload. */
  lemma {:induction false} UnpackStored(data: Payload, values: seq<u64>)
    requires |values| <= WordCount(|data|)
    requires forall k :: 0 <= k < |values| ==> values[k] == PackWord(data, 8 * k)
    ensures Unpack(values)[..Least(8 * |values|, |data|)] == data[..Least(8 * |values|, |data|)]
  {
    hide LittleEndian, Value, PackWord;
    if values == [] {
    } else {
      var n := |values| - 1;
      var at, end := 8 * n, Least(8 * n + 8, |data|);
      UnpackStored(data, values[..n]);
      PackWordImage(data, at);
      AppendPiece(Unpack(values[..n]), LittleEndian(values[n], 8), data, at, end);
    }
  }

  /** A payload word holds its bytes in order and zeros behind them. */
  lemma PackWordImage(data: seq<u8>, at: nat)
    requires at < |data|
    ensures var end := if at + 8 < |data| then at + 8 else |data|;
            && LittleEndian(PackWord(data, at), 8) == data[at..end] + Zeros(8 - (end - at))
            && LittleEndian(PackWord(data, at), 8)[..end - at] == data[at..end]
  {
    hide LittleEndian, Value;
    LittleEndianOfValue(data[at..Least(at + 8, |data|)], 8);
  }

  lemma AppendPiece(head: seq<u8>, tail: seq<u8>, data: seq<u8>, at: nat, end: nat)
    requires |head| == at <= end <= |data| && end - at <= |tail|
    requires head == data[..at] && tail[..end - at] == data[at..end]
    ensures (head + tail)[..end] == data[..end]
  {
    assert (head + tail)[..end] == head + tail[..end - at];
    assert data[..end] == data[..at] + data[at..end];
  }

  /** The heart of the protocol. A reader loads the revision, the size, each payload word and the
      revision again, at any non-decreasing instants of any run. If the revision was even, nonzero
      and unchanged, what it assembled is the whole of the one payload committed under that
      revision, and that payload was the latest from the first load to the last. */
  lemma ReadIsUntorn(run: seq<Slot>, first: nat, sized: nat, stamps: seq<nat>, last: nat, values: seq<u64>)
    requires IsRun(run) && first <= sized <= last < |run|
    requires forall k :: 0 <= k < |stamps| ==> first <= stamps[k] <= last
    requires run[first].words[0] == run[last].words[0] != 0 && run[first].words[0] % 2 == 0
    requires |run[last].commits| < |run[first].commits| + HALF_RANGE
    requires |values| == |stamps| == WordCount(run[sized].words[1]) && run[sized].words[1] <= CAPACITY
    requires forall k :: 0 <= k < |values| ==> values[k] == run[stamps[k]].words[2 + k]
    ensures forall t :: first <= t <= last ==>
              LatestIs(run[t], run[first].words[0], Unpack(values)[..run[sized].words[1]])
  {
    hide LittleEndian, Value;
    RunKeepsInv(run, first);
    var s := run[first];
    var data := s.commits[|s.commits| - 1];
    NothingChanged(run, first, last, sized);
    forall k | 0 <= k < |values|
      ensures values[k] == PackWord(data, 8 * k)
    {
      NothingChanged(run, first, last, stamps[k]);
    }
    UnpackStored(data, values);
    forall t | first <= t <= last
      ensures LatestIs(run[t], run[first].words[0], Unpack(values)[..run[sized].words[1]])
    {
      NothingChanged(run, first, last, t);
    }
  }

  /** Successive successful reads that share the remembered revision return rising revisions: each
      differs from the one before, and what is latest at a later instant is never older. */
  lemma LaterReadsRise(run: seq<Slot>, t: nat, t': nat, r: u64, data: seq<u8>, r': u64, data': seq<u8>)
    requires IsRun(run) && t <= t' < |run| && |run[t'].commits| < HALF_RANGE
    requires LatestIs(run[t], r, data) && LatestIs(run[t'], r', data') && r' != r
    ensures r < r' && run[t].commits < run[t'].commits
  {
    RunGrows(run, t, t');
  }

  // ---------- Where the wrap-around bites ----------

  lemma Extend(run: seq<Slot>, a: Action) returns (run': seq<Slot>)
    requires IsRun(run) && Enabled(run[|run| - 1], a)
    ensures IsRun(run') && run' == run + [Apply(run[|run| - 1], a)]
  {
    run' := run + [Apply(run[|run| - 1], a)];
    forall i | 0 < i < |run'|
      ensures SlotNext(run'[i - 1], run'[i])
    {
      if i < |run| {
        assert SlotNext(run[i - 1], run[i]);
      }
    }
  }

  /** One undisturbed `publish` of a single byte, step by step. */
  lemma PublishByte(run: seq<Slot>, b: u8) returns (run': seq<Slot>)
    requires IsRun(run) && run[|run| - 1].writer == Ready
    ensures IsRun(run') && run <= run' && run'[|run'| - 1].writer == Ready
    ensures run'[|run'| - 1].commits == run[|run| - 1].commits + [[b]]
    ensures run'[|run'| - 1].words[0] % 2 == 0
  {
    hide IsRun, PackWord;
    run' := Extend(run, Begin([b]));
    run' := Extend(run', Mark);
    run' := Extend(run', StoreSize);
    run' := Extend(run', StoreWord);
    run' := Extend(run', Commit);
  }

  lemma {:induction false} PublishMany(run: seq<Slot>, b: u8, n: nat) returns (run': seq<Slot>)
    requires IsRun(run) && run[|run| - 1].writer == Ready && |run[|run| - 1].commits| > 0
    requires n > 0
    ensures IsRun(run') && run <= run' && run'[|run'| - 1].writer == Ready
    ensures |run'[|run'| - 1].commits| == |run[|run| - 1].commits| + n
    ensures run'[|run'| - 1].commits[|run'[|run'| - 1].commits| - 1] == [b]
    ensures run'[|run'| - 1].words[0] % 2 == 0
    decreases n
  {
    hide IsRun;
    if n == 1 {
      run' := PublishByte(run, b);
    } else {
      var shorter := PublishMany(run, b, n - 1);
      run' := PublishByte(shorter, b);
    }
  }

  /** Exactly `2^63` commits apart, a reader sees the same nonzero even revision over a different
      payload: the bound of `NothingChanged` cannot be relaxed by one. */
  lemma BoundIsTight()
    ensures exists run: seq<Slot>, i: nat, j: nat ::
              && IsRun(run) && i < j < |run|
              && run[i].words[0] == run[j].words[0] == 2
              && |run[j].commits| == |run[i].commits| + HALF_RANGE
              && LatestIs(run[i], 2, [1]) && LatestIs(run[j], 2, [2])
  {
    var run := Extend([Zeroed()], Open);
    run := PublishByte(run, 1);
    var i := |run| - 1;
    assert run[i].commits == [[1]];
    var long := PublishMany(run, 2, HALF_RANGE);
    var j := |long| - 1;
    assert long[i] == run[i];
    if i == j {
      assert false;
    }
    EvenRevision(long, i);
    EvenRevision(long, j);
  }

  lemma EvenRevision(run: seq<Slot>, i: nat)
    requires IsRun(run) && i < |run| && |run[i].commits| > 0
    requires run[i].words[0] % 2 == 0
    ensures run[i].words[0] == 2 * |run[i].commits| % MOD_64
  {
    RunKeepsInv(run, i);
  }
}

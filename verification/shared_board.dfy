/** The board itself: eight partitions in memory shared by several processes, the C++ handle class
    with `open`, `close`, `publish` and `snapshot`, and the Go reader `readBoardSlot`.

    Between any two atomic accesses of the code below, the writers of all other partitions may take
    any number of steps; nothing but the contract of `Interfere` is known about them. */
module SharedBoard {
  import opened Words
  import opened Seqlock
  import opened Attempts

  const SLOTS: nat := 8

  type Instant = b: seq<Slot> | |b| == 8 witness seq(8, _ => Zeroed())

  /** The history of one partition. */
  function History(trace: seq<Instant>, slot: nat): (run: seq<Slot>)
    requires slot < SLOTS
    ensures |run| == |trace|
    ensures forall t :: 0 <= t < |trace| ==> run[t] == trace[t][slot]
  {
    seq(|trace|, t requires 0 <= t < |trace| => trace[t][slot])
  }

  ghost predicate BoardRun(trace: seq<Instant>) {
    forall slot: nat :: slot < SLOTS ==> IsRun(History(trace, slot))
  }

  lemma ExtendRun(trace: seq<Instant>, next: Instant)
    requires BoardRun(trace) && |trace| > 0
    requires forall slot: nat :: slot < SLOTS ==> SlotNext(trace[|trace| - 1][slot], next[slot])
    ensures BoardRun(trace + [next])
  {
    forall slot: nat | slot < SLOTS
      ensures IsRun(History(trace + [next], slot))
    {
      var run, run' := History(trace, slot), History(trace + [next], slot);
      assert IsRun(run);
      assert run' == run + [next[slot]];
      forall i | 0 < i < |run'|
        ensures SlotNext(run'[i - 1], run'[i])
      {
        if i < |run| {
          assert SlotNext(run[i - 1], run[i]);
        }
      }
    }
  }

  lemma SomeoneCanStep(b: Instant, own: nat)
    ensures exists slot: nat, action: Action ::
              slot < SLOTS && slot != own && Enabled(b[slot], action)
  {
    var slot: nat := if own == 0 then 1 else 0;
    assert Enabled(b[slot], if b[slot].writer == Absent then Open else Die);
  }

  /** Every load so far gave what the word was at its instant. */
  ghost predicate Recorded(trace: seq<Instant>, loads: seq<Access>) {
    && (forall k :: 0 <= k < |loads| ==> loads[k].slot < SLOTS)
    && (forall slot: nat :: slot < SLOTS ==> Observed(History(trace, slot), loads, slot))
  }

  lemma RecordedLonger(trace: seq<Instant>, more: seq<Instant>, loads: seq<Access>)
    requires Recorded(trace, loads) && trace <= more
    ensures Recorded(more, loads)
  {
    forall slot: nat | slot < SLOTS
      ensures Observed(History(more, slot), loads, slot)
    {
      assert Observed(History(trace, slot), loads, slot);
    }
  }

  lemma RecordedLoad(trace: seq<Instant>, loads: seq<Access>, slot: nat, word: nat)
    requires |trace| > 0 && Recorded(trace, loads) && slot < SLOTS && word < PARTITION_WORDS
    ensures Recorded(trace, loads + [Access(|trace| - 1, slot, word, trace[|trace| - 1][slot].words[word])])
  {
    var more := loads + [Access(|trace| - 1, slot, word, trace[|trace| - 1][slot].words[word])];
    forall k | 0 <= k < |loads|
      ensures loads[k].instant < |trace|
    {
      assert Observed(History(trace, loads[k].slot), loads, loads[k].slot);
    }
    forall own: nat | own < SLOTS
      ensures Observed(History(trace, own), more, own)
    {
      assert Observed(History(trace, own), loads, own);
    }
  }

  /** The mapped file together with the processes that own its partitions. What happened to it is its
      trace; what the process at hand has loaded is kept beside it. */
  class Memory {
    var now: Instant
    ghost var trace: seq<Instant>
    ghost var loads: seq<Access>

    ghost predicate Valid()
      reads this
    {
      |trace| > 0 && trace[|trace| - 1] == now && BoardRun(trace) && Recorded(trace, loads)
    }

    /** `initializeBoard`: all partitions zero, no writers. */
    constructor ()
      ensures Valid() && trace == [now] && now == seq(8, _ => Zeroed()) && loads == []
    {
      now := seq(8, _ => Zeroed());
      trace, loads := [seq(8, _ => Zeroed())], [];
      new;
      forall slot: nat | slot < SLOTS
        ensures IsRun(History(trace, slot))
      {
        assert History(trace, slot)[0] == Zeroed();
      }
    }

    /** Any number of steps of any writers but the owner of `own`. A reader owns no partition. */
    method Interfere(own: nat)
      requires Valid()
      modifies this`now, this`trace
      ensures Valid() && old(trace) <= trace
      ensures own < SLOTS ==> forall t :: |old(trace)| <= t < |trace| ==> trace[t][own] == old(now)[own]
    {
      var steps: nat :| true;
      for i := 0 to steps
        invariant Valid() && old(trace) <= trace
        invariant own < SLOTS ==> now[own] == old(now)[own]
        invariant own < SLOTS ==>
                    forall t :: |old(trace)| <= t < |trace| ==> trace[t][own] == old(now)[own]
      {
        SomeoneCanStep(now, own);
        var slot: nat, action: Action :| slot < SLOTS && slot != own && Enabled(now[slot], action);
        var after: Instant := now[slot := Apply(now[slot], action)];
        ExtendRun(trace, after);
        RecordedLonger(trace, trace + [after], loads);
        now := after;
        trace := trace + [after];
      }
    }

    /** One `__ATOMIC_SEQ_CST` load. */
    method Load(slot: nat, word: nat, own: nat) returns (value: u64)
      requires Valid() && slot < SLOTS && word < PARTITION_WORDS
      modifies this
      ensures Valid() && old(trace) <= trace && value == now[slot].words[word]
      ensures loads == old(loads) + [Access(|trace| - 1, slot, word, value)]
      ensures own < SLOTS ==> forall t :: |old(trace)| <= t < |trace| ==> trace[t][own] == old(now)[own]
    {
      Interfere(own);
      value := now[slot].words[word];
      RecordedLoad(trace, loads, slot, word);
      loads := loads + [Access(|trace| - 1, slot, word, value)];
    }

    /** One step of the owner of `own`, after whatever the others did. */
    method Act(own: nat, action: Action)
      requires Valid() && own < SLOTS && Enabled(now[own], action)
      modifies this`now, this`trace
      ensures Valid() && old(trace) < trace
      ensures now[own] == Apply(old(now)[own], action)
      ensures forall t :: |old(trace)| <= t < |trace| - 1 ==> trace[t][own] == old(now)[own]
    {
      Interfere(own);
      var after: Instant := now[own := Apply(now[own], action)];
      ExtendRun(trace, after);
      RecordedLonger(trace, trace + [after], loads);
      now := after;
      trace := trace + [after];
    }

    /** One `__ATOMIC_SEQ_CST` store by the owner. The action names the step of the protocol that
        this store is; it must be the right one for the word and the value. */
    method Store(own: nat, word: nat, value: u64, action: Action)
      requires Valid() && own < SLOTS && word < PARTITION_WORDS && Enabled(now[own], action)
      requires Apply(now[own], action).words == now[own].words[word := value]
      modifies this`now, this`trace
      ensures Valid() && old(trace) < trace
      ensures now[own] == Apply(old(now)[own], action)
      ensures forall t :: |old(trace)| <= t < |trace| - 1 ==> trace[t][own] == old(now)[own]
    {
      Act(own, action);
    }
  }

  /** The layout constants of the board, version 1, and the number of attempts. */
  lemma Limits()
    ensures SLOTS == 8 && CAPACITY == 1024 && MAX_ATTEMPTS == 3
    ensures 8 * PARTITION_WORDS == 1088 && PARTITION_WORDS == 2 + CAPACITY / 8 + 6
    ensures |Zeroed().words| == PARTITION_WORDS
  {
  }

  // ---------- Publishing ----------

  lemma FollowingIsEven(previous: u64)
    ensures Following(previous) % 2 == 0
  {
  }

  /** While the revision is even, the last commit is the latest payload. */
  lemma CommittedIsLatest(trace: seq<Instant>, slot: nat)
    requires |trace| > 0 && BoardRun(trace) && slot < SLOTS
    requires var s := trace[|trace| - 1][slot]; s.words[0] % 2 == 0 && |s.commits| > 0
    ensures var s := trace[|trace| - 1][slot];
            LatestIs(s, 2 * |s.commits| % MOD_64, s.commits[|s.commits| - 1])
  {
    RunKeepsInv(History(trace, slot), |trace| - 1);
  }

  // ---------- Collecting the payload words ----------

  /** `memcpy(scratch + offset, &value, count)`. */
  method CopyWord(value: u64, scratch: array<u8>, offset: nat, count: nat)
    requires offset + count <= scratch.Length && count <= 8
    modifies scratch
    ensures scratch[..offset + count] == old(scratch[..offset]) + LittleEndian(value, 8)[..count]
  {
    hide LittleEndian;
    ghost var start := scratch[..offset];
    var bytes := LittleEndian(value, 8);
    for i := 0 to count
      invariant scratch[..offset + i] == start + bytes[..i]
    {
      scratch[offset + i] := bytes[i];
      assert scratch[..offset + i + 1] == scratch[..offset + i] + [bytes[i]];
    }
  }

  lemma UnpackSnoc(values: seq<u64>, v: u64)
    ensures Unpack(values + [v]) == Unpack(values) + LittleEndian(v, 8)
  {
    hide LittleEndian;
    assert (values + [v])[..|values|] == values;
  }

  lemma UnpackMore(values: seq<u64>, v: u64, at: nat, end: nat)
    requires at == 8 * |values| && at <= end <= at + 8
    ensures Unpack(values + [v])[..end] == Unpack(values) + LittleEndian(v, 8)[..end - at]
  {
    hide LittleEndian, Unpack;
    UnpackSnoc(values, v);
  }

  /** The copy loop of an attempt, into the scratch buffer. */
  method Collect(shared: Memory, slot: nat, length: nat, own: nat, scratch: array<u8>)
    requires shared.Valid() && slot < SLOTS && length <= CAPACITY <= scratch.Length
    modifies shared, scratch
    ensures shared.Valid() && old(shared.trace) <= shared.trace && old(shared.loads) <= shared.loads
    ensures own < SLOTS ==> shared.now[own] == old(shared.now)[own]
    ensures PayloadLoads(shared.loads, slot, |old(shared.loads)|, WordCount(length))
    ensures scratch[..length] == Unpack(ValuesFrom(shared.loads, |old(shared.loads)|, WordCount(length)))[..length]
  {
    hide LittleEndian, BoardRun, Unpack, Value, Recorded, ValuesFrom;
    ghost var at, n := |shared.loads|, 0;
    var offset := 0;
    NoValues(shared.loads);
    while offset < length
      invariant shared.Valid() && old(shared.trace) <= shared.trace && old(shared.loads) <= shared.loads
      invariant own < SLOTS ==> shared.now[own] == old(shared.now)[own]
      invariant offset == 8 * n < length + 8
      invariant PayloadLoads(shared.loads, slot, at, n)
      invariant scratch[..Least(offset, length)] == Unpack(ValuesFrom(shared.loads, at, n))[..Least(offset, length)]
      decreases length - offset
    {
      ghost var loads := shared.loads;
      var value := shared.Load(slot, 2 + offset / 8, own);
      var count := if length - offset < 8 then length - offset else 8;
      CopyWord(value, scratch, offset, count);
      ValuesSnoc(loads, at, n, shared.loads[|loads|]);
      UnpackMore(ValuesFrom(loads, at, n), value, offset, offset + count);
      assert Unpack(ValuesFrom(loads, at, n))[..offset] == Unpack(ValuesFrom(loads, at, n));
      n := n + 1;
      offset := offset + 8;
    }
  }

  lemma NoValues(loads: seq<Access>)
    ensures ValuesFrom(loads, |loads|, 0) == [] && Unpack([]) == []
  {
  }

  // ---------- One attempt of a reader ----------

  datatype Attempt = Refused | Retry | Success(length: nat, revision: u64)

  /** The attempt whose loads are those that were added. */
  ghost function Added(before: seq<Access>, after: seq<Access>): Try
    requires |before| < |after|
  {
    Try(|before|, |after| - 1)
  }

  /** What an attempt's result says about its loads. */
  ghost predicate Explains(r: Attempt, loads: seq<Access>, q: Request, a: Try) {
    match r
    case Refused => GaveUp(loads, q, a)
    case Retry => Disturbed(loads, q, a)
    case Success(length, revision) =>
      Succeeded(loads, q, a) && revision == loads[a.first].value && length == loads[a.first + 1].value
  }

  /** From the first load of the attempt to its last, `data` was the latest payload. */
  ghost predicate LatestDuring(trace: seq<Instant>, slot: nat, loads: seq<Access>, a: Try, revision: u64, data: seq<u8>)
    requires slot < SLOTS
  {
    && a.first <= a.last < |loads| && loads[a.first].instant <= loads[a.last].instant < |trace|
    && (forall t :: loads[a.first].instant <= t <= loads[a.last].instant ==> LatestIs(trace[t][slot], revision, data))
  }

  /** Every successful attempt is untorn, provided that less than `2^63` commits fall into the call. */
  lemma SuccessIsLatest(trace: seq<Instant>, loads: seq<Access>, q: Request, a: Try, start: nat)
    requires |trace| > 0 && BoardRun(trace) && Recorded(trace, loads) && q.slot < SLOTS && Succeeded(loads, q, a)
    requires start <= loads[a.first].instant
    requires start < |trace| && |trace[|trace| - 1][q.slot].commits| < |trace[start][q.slot].commits| + HALF_RANGE
    ensures LatestDuring(trace, q.slot, loads, a, loads[a.first].value, Assembled(loads, q, a))
  {
    hide IsRun, LatestIs, Assembled;
    var run := History(trace, q.slot);
    assert Observed(run, loads, q.slot);
    Attempts.SuccessIsUntorn(run, loads, q, a);
    RunGrows(run, start, loads[a.first].instant);
    RunGrows(run, loads[a.last].instant, |run| - 1);
    forall t | loads[a.first].instant <= t <= loads[a.last].instant
      ensures LatestIs(trace[t][q.slot], loads[a.first].value, Assembled(loads, q, a))
    {
      assert LatestIs(run[t], loads[a.first].value, Assembled(loads, q, a));
    }
  }

  /** The body of the retry loop of `snapshot`: its result is explained by its own loads. */
  method TryRead(shared: Memory, q: Request, own: nat, scratch: array<u8>) returns (r: Attempt)
    requires shared.Valid() && q.slot < SLOTS && CAPACITY <= scratch.Length
    modifies shared, scratch
    ensures shared.Valid() && old(shared.trace) <= shared.trace
    ensures own < SLOTS ==> shared.now[own] == old(shared.now)[own]
    ensures old(shared.loads) < shared.loads && shared.loads[|old(shared.loads)|].instant >= |old(shared.trace)| - 1
    ensures Explains(r, shared.loads, q, Added(old(shared.loads), shared.loads))
    ensures r.Success? ==>
              scratch[..r.length] == Assembled(shared.loads, q, Added(old(shared.loads), shared.loads))
  {
    hide LittleEndian, BoardRun, Unpack, Value, Recorded, Complete, Assembled, PayloadLoads, ValuesFrom;
    ghost var past := shared.loads;
    var before := shared.Load(q.slot, 0, own);
    ghost var x := shared.loads[|past|];
    if before == 0 || before == q.known {
      return Refused;
    }
    if before % 2 == 1 {
      return Retry;
    }
    var length := shared.Load(q.slot, 1, own);
    ghost var y := shared.loads[|past| + 1];
    if length == 0 || length > CAPACITY || length > q.available {
      return Refused;
    }
    assert shared.loads == past + [x] + [y];
    Collect(shared, q.slot, length, own, scratch);
    ghost var collected := shared.loads;
    var after := shared.Load(q.slot, 0, own);
    ghost var z := shared.loads[|collected|];
    Completed(past, q, x, y, collected, z);
    if after != before {
      return Retry;
    }
    return Success(length, before);
  }

  /** `memcpy(output, scratch, length)`. */
  method CopyOut(scratch: array<u8>, length: nat, output: array<u8>)
    requires length <= scratch.Length && length <= output.Length && scratch != output
    modifies output
    ensures output[..length] == scratch[..length] && output[length..] == old(output[length..])
  {
    forall i | 0 <= i < length {
      output[i] := scratch[i];
    }
  }

  // ---------- The C++ handle ----------

  class Board {
    const shared: Memory
    var mapped: bool
    var writer: nat

    constructor (shared: Memory)
      ensures this.shared == shared && !mapped && writer == 0
    {
      this.shared := shared;
      mapped := false;
      writer := 0;
    }

    /** A handle that is open for writing owns its partition. */
    ghost predicate Valid()
      reads this, shared
    {
      shared.Valid() && (mapped ==> writer <= SLOTS && (writer < SLOTS ==> shared.now[writer].writer == Ready))
    }

    /** The lock makes the owner unique: opening a partition for writing fails while it has one.
        `opens` is whether the path names a regular file of the right size that can be opened, `maps`
        whether it can be mapped and has the version word; if not, the lock is given back. */
    method Open(opens: bool, writerSlot: nat, maps: bool) returns (ok: bool)
      requires Valid()
      modifies this, shared
      ensures Valid()
      ensures old(mapped) ==> ok == (writer == writerSlot) && unchanged(this) && unchanged(shared)
      ensures !old(mapped) ==>
                && mapped == ok
                && ok == (opens && maps && writerSlot <= SLOTS &&
                          (writerSlot < SLOTS ==> old(shared.now)[writerSlot].writer == Absent))
                && (ok ==> writer == writerSlot && (writerSlot < SLOTS ==> shared.now[writerSlot].writer == Ready))
      ensures !ok ==> shared.now == old(shared.now)
      ensures forall slot: nat :: slot < SLOTS ==> shared.now[slot].words == old(shared.now)[slot].words
    {
      if mapped {
        return writer == writerSlot;
      }
      if writerSlot > SLOTS || !opens {
        return false;
      }
      if writerSlot < SLOTS {
        if shared.now[writerSlot].writer != Absent {
          return false;
        }
        Own(writerSlot, Action.Open);
      }
      if !maps {
        if writerSlot < SLOTS {
          Own(writerSlot, Die);
        }
        return false;
      }
      mapped := true;
      writer := writerSlot;
      return true;
    }

    /** Taking or giving up the ownership of a partition. */
    method Own(slot: nat, action: Action)
      requires shared.Valid() && slot < SLOTS && action in {Action.Open, Die} && Enabled(shared.now[slot], action)
      modifies shared`now, shared`trace
      ensures shared.Valid() && old(shared.trace) < shared.trace
      ensures shared.now == old(shared.now)[slot := Apply(old(shared.now)[slot], action)]
    {
      var next: Instant := shared.now[slot := Apply(shared.now[slot], action)];
      ExtendRun(shared.trace, next);
      RecordedLonger(shared.trace, shared.trace + [next], shared.loads);
      shared.now := next;
      shared.trace := shared.trace + [next];
    }

    /** Closing, like dying, gives up the ownership and leaves the words as they are. */
    method Close()
      requires Valid()
      modifies this, shared
      ensures Valid() && !mapped
      ensures old(mapped) && old(writer) < SLOTS ==> shared.now[old(writer)].writer == Absent
      ensures forall slot: nat :: slot < SLOTS ==> shared.now[slot].words == old(shared.now)[slot].words
    {
      if mapped {
        if writer < SLOTS {
          Own(writer, Die);
        }
        mapped := false;
      }
    }

    /** Each store of `publish` is one step of the protocol, in order, so dying between any two of
        them is the step `Die` of a run; a call that returns has added exactly one commit. */
    method Publish(data: seq<u8>) returns (ok: bool)
      requires Valid()
      modifies shared
      ensures Valid() && old(shared.trace) <= shared.trace
      ensures ok <==> mapped && writer < 8 && 1 <= |data| <= 1024
      ensures !ok ==> unchanged(shared)
      ensures ok ==> shared.now[writer].commits == old(shared.now)[writer].commits + [data]
      ensures ok ==> LatestIs(shared.now[writer], 2 * |shared.now[writer].commits| % MOD_64, data)
    {
      if !mapped || writer >= SLOTS || |data| == 0 || |data| > CAPACITY {
        return false;
      }
      hide PackWord, Following, Preceding, BoardRun, IsRun, LittleEndian, Value, Inv, Recorded;
      var size: u64 := |data|;
      ghost var before := shared.now[writer].commits;
      var previous := shared.Load(writer, 0, writer);
      shared.Act(writer, Begin(data));
      var next := Following(previous);
      shared.Store(writer, 0, Preceding(next), Mark);
      shared.Store(writer, 1, size, StoreSize);
      var offset := 0;
      while offset < size
        invariant shared.Valid() && old(shared.trace) <= shared.trace
        invariant shared.now[writer].writer == Copying(data, next, offset)
        invariant shared.now[writer].commits == before
        decreases size - offset
      {
        var value := PackWord(data, offset);
        shared.Store(writer, 2 + offset / 8, value, StoreWord);
        offset := offset + 8;
      }
      shared.Store(writer, 0, next, Commit);
      var s := shared.now[writer];
      FollowingIsEven(previous);
      CommittedIsLatest(shared.trace, writer);
      return true;
    }

    /** A successful snapshot is the whole payload that was the latest during its last attempt, with
        its revision; a failed one changes nothing. The loads of the call are those of its attempts,
        and say why each of them ended as it did. */
    method Snapshot(slot: nat, output: array<u8>, available: nat, size: nat, lastRevision: u64)
      returns (ok: bool, size': nat, lastRevision': u64, ghost tries: seq<Try>)
      requires Valid() && available <= output.Length
      modifies shared, output
      ensures shared.Valid() && old(shared.trace) <= shared.trace && old(shared.loads) <= shared.loads
      ensures !ok ==> size' == size && lastRevision' == lastRevision && output[..] == old(output[..])
      ensures !(mapped && slot < SLOTS) ==> !ok && unchanged(shared)
      ensures mapped && slot < SLOTS ==>
                && Call(shared.loads, Request(slot, lastRevision, available), |old(shared.loads)|, tries, ok)
                && shared.loads[|old(shared.loads)|].instant >= |old(shared.trace)| - 1
      ensures ok ==>
                var a := tries[|tries| - 1];
                && shared.loads[a.first].instant >= |old(shared.trace)| - 1
                && 1 <= size' <= 1024 && size' <= available
                && lastRevision' != lastRevision && lastRevision' != 0 && lastRevision' % 2 == 0
                && size' == shared.loads[a.first + 1].value && lastRevision' == shared.loads[a.first].value
                && size' <= |output[..]| && output[size'..] == old(output[size'..])
                && (|shared.now[slot].commits| < |old(shared.now)[slot].commits| + HALF_RANGE ==>
                      LatestDuring(shared.trace, slot, shared.loads, a, lastRevision', output[..size']))
    {
      hide LittleEndian, BoardRun, Value, IsRun, Inv, LatestDuring, Recorded, AllDisturbed, Succeeded, GaveUp, Disturbed,
           Assembled;
      size', lastRevision', tries := size, lastRevision, [];
      if !mapped || slot >= SLOTS {
        return false, size', lastRevision', tries;
      }
      var q := Request(slot, lastRevision, available);
      var scratch := new u8[CAPACITY](_ => 0);
      ghost var start, first := |shared.trace| - 1, |shared.loads|;
      NoTries(shared.loads, q, first);
      for attempt := 0 to MAX_ATTEMPTS
        invariant shared.Valid() && old(shared.trace) <= shared.trace && output[..] == old(output[..])
        invariant writer < SLOTS ==> shared.now[writer] == old(shared.now)[writer]
        invariant |tries| == attempt && Trying(shared.loads, q, old(shared.loads), tries, start)
        invariant attempt == MAX_ATTEMPTS ==> Call(shared.loads, q, first, tries, false)
      {
        ghost var loads := shared.loads;
        var r := TryRead(shared, q, writer, scratch);
        ghost var a := Added(loads, shared.loads);
        OneMoreTry(loads, shared.loads, q, old(shared.loads), tries, start, r);
        tries := tries + [a];
        if r.Refused? {
          return false, size', lastRevision', tries;
        }
        if r.Success? {
          FitsRequest(shared.loads, q, a);
          if |shared.now[slot].commits| < |old(shared.now)[slot].commits| + HALF_RANGE {
            SuccessIsLatest(shared.trace, shared.loads, q, a, start);
          }
          CopyOut(scratch, r.length, output);
          return true, r.length, r.revision, tries;
        }
      }
      return false, size', lastRevision', tries;
    }
  }

  /** So far all attempts of the call were disturbed, and it made no other loads. */
  ghost predicate Trying(loads: seq<Access>, q: Request, past: seq<Access>, tries: seq<Try>, start: nat) {
    && past <= loads && AllDisturbed(loads, q, |past|, tries) && Next(|past|, tries) == |loads|
    && (tries != [] ==> |past| < |loads| && loads[|past|].instant >= start)
  }

  lemma NoTries(loads: seq<Access>, q: Request, start: nat)
    requires start == |loads|
    ensures Trying(loads, q, loads, [], start)
  {
  }

  /** What one more attempt makes of the call. */
  lemma OneMoreTry(loads: seq<Access>, more: seq<Access>, q: Request, past: seq<Access>, tries: seq<Try>, start: nat, r: Attempt)
    requires Trying(loads, q, past, tries, start) && |tries| < MAX_ATTEMPTS
    requires loads < more && more[|loads|].instant >= start && Explains(r, more, q, Added(loads, more))
    ensures past < more && more[|past|].instant >= start
    ensures r.Retry? ==> Trying(more, q, past, tries + [Added(loads, more)], start)
    ensures r.Success? || r.Refused? || |tries| == MAX_ATTEMPTS - 1 ==>
              Call(more, q, |past|, tries + [Added(loads, more)], r.Success?)
  {
    hide AllDisturbed, Disturbed, GaveUp, Succeeded, Call;
    var a := Added(loads, more);
    AllDisturbedStays(loads, more, q, |past|, tries);
    if r.Retry? {
      AllDisturbedMore(more, q, |past|, tries, a);
    }
    if r.Success? || r.Refused? || |tries| == MAX_ATTEMPTS - 1 {
      CallEnds(more, q, |past|, tries, a, r.Success?);
    }
  }

  lemma FitsRequest(loads: seq<Access>, q: Request, a: Try)
    requires Succeeded(loads, q, a)
    ensures 1 <= loads[a.first + 1].value <= Least(CAPACITY, q.available)
    ensures loads[a.first].value !in {0, q.known} && loads[a.first].value % 2 == 0
  {
  }

  // ---------- The Go reader ----------

  /** The copy loop of `readBoardSlot`: whole words into a packet rounded up to eight bytes. */
  method CollectPacket(shared: Memory, slot: nat, size: nat) returns (packet: seq<u8>)
    requires shared.Valid() && slot < SLOTS && size <= CAPACITY
    modifies shared
    ensures shared.Valid() && old(shared.trace) <= shared.trace && old(shared.loads) <= shared.loads
    ensures PayloadLoads(shared.loads, slot, |old(shared.loads)|, WordCount(size))
    ensures packet == Unpack(ValuesFrom(shared.loads, |old(shared.loads)|, WordCount(size)))
  {
    hide LittleEndian, BoardRun, Unpack, Value, Recorded, ValuesFrom;
    var buffer := new u8[(size + 7) / 8 * 8](_ => 0);
    ghost var at, n := |shared.loads|, 0;
    NoValues(shared.loads);
    var i := 0;
    while i < size
      invariant shared.Valid() && old(shared.trace) <= shared.trace && old(shared.loads) <= shared.loads
      invariant i == 8 * n < size + 8
      invariant PayloadLoads(shared.loads, slot, at, n)
      invariant buffer[..i] == Unpack(ValuesFrom(shared.loads, at, n))
      decreases size - i
    {
      ghost var loads := shared.loads;
      var value := shared.Load(slot, 2 + i / 8, SLOTS);
      PutU64(buffer, i, value);
      ValuesSnoc(loads, at, n, shared.loads[|loads|]);
      UnpackSnoc(ValuesFrom(loads, at, n), value);
      n := n + 1;
      i := i + 8;
    }
    assert buffer[..] == buffer[..i];
    packet := buffer[..];
  }

  /** What `readBoardSlot` asks for: anything committed, up to the capacity. */
  function Anything(slot: nat): Request {
    Request(slot, 0, CAPACITY)
  }

  /** The body of the retry loop of `readBoardSlot`, with the revision it loaded first. */
  method TryPacket(shared: Memory, slot: nat) returns (r: Attempt, packet: seq<u8>, revision: u64)
    requires shared.Valid() && slot < SLOTS
    modifies shared
    ensures shared.Valid() && old(shared.trace) <= shared.trace
    ensures old(shared.loads) < shared.loads && shared.loads[|old(shared.loads)|].instant >= |old(shared.trace)| - 1
    ensures Explains(r, shared.loads, Anything(slot), Added(old(shared.loads), shared.loads))
    ensures revision == shared.loads[|old(shared.loads)|].value
    ensures r.Success? ==>
              r.revision == revision &&
              packet == Assembled(shared.loads, Anything(slot), Added(old(shared.loads), shared.loads))
  {
    hide LittleEndian, BoardRun, Unpack, Value, Recorded, Complete, Assembled, PayloadLoads, ValuesFrom;
    packet := [];
    ghost var past, q := shared.loads, Anything(slot);
    revision := shared.Load(slot, 0, SLOTS);
    ghost var x := shared.loads[|past|];
    if revision == 0 {
      return Refused, packet, revision;
    }
    if revision % 2 != 0 {
      return Retry, packet, revision;
    }
    var size := shared.Load(slot, 1, SLOTS);
    ghost var y := shared.loads[|past| + 1];
    if size == 0 || size > CAPACITY {
      return Refused, packet, revision;
    }
    assert shared.loads == past + [x] + [y];
    var padded := CollectPacket(shared, slot, size);
    ghost var collected := shared.loads;
    var after := shared.Load(slot, 0, SLOTS);
    ghost var z := shared.loads[|collected|];
    Completed(past, q, x, y, collected, z);
    if after != revision {
      return Retry, packet, revision;
    }
    return Success(size, revision), padded[..size], revision;
  }

  /** The recorder's and the inspector's read: like `snapshot`, without a remembered revision. The
      revision it returns, also when it fails, is the one its last attempt loaded first. */
  method ReadBoardSlot(shared: Memory, slot: nat)
    returns (packet: seq<u8>, revision: u64, ok: bool, ghost tries: seq<Try>)
    requires shared.Valid() && slot < SLOTS
    modifies shared
    ensures shared.Valid() && old(shared.trace) <= shared.trace && old(shared.loads) < shared.loads
    ensures Call(shared.loads, Anything(slot), |old(shared.loads)|, tries, ok)
    ensures shared.loads[|old(shared.loads)|].instant >= |old(shared.trace)| - 1
    ensures var a := tries[|tries| - 1];
            && revision == shared.loads[a.first].value
            && shared.loads[a.first].instant >= |old(shared.trace)| - 1
            && (!ok ==> packet == [])
            && (ok ==> |packet| == shared.loads[a.first + 1].value && 1 <= |packet| <= 1024)
            && (ok ==> revision != 0 && revision % 2 == 0)
            && (ok && |shared.now[slot].commits| < |old(shared.now)[slot].commits| + HALF_RANGE ==>
                  LatestDuring(shared.trace, slot, shared.loads, a, revision, packet))
  {
    hide LittleEndian, BoardRun, Value, IsRun, Inv, LatestDuring, Recorded, AllDisturbed, Succeeded, GaveUp, Disturbed,
         Assembled;
    revision, tries := 0, [];
    ghost var q, start, first := Anything(slot), |shared.trace| - 1, |shared.loads|;
    NoTries(shared.loads, q, first);
    for attempt := 0 to MAX_ATTEMPTS
      invariant shared.Valid() && old(shared.trace) <= shared.trace
      invariant |tries| == attempt && Trying(shared.loads, q, old(shared.loads), tries, start)
      invariant attempt == MAX_ATTEMPTS ==> Call(shared.loads, q, first, tries, false)
      invariant tries != [] ==>
                  var a := tries[attempt - 1];
                  a.first < |shared.loads| && shared.loads[a.first].value == revision &&
                  shared.loads[a.first].instant >= start
    {
      ghost var loads := shared.loads;
      var r, found, loaded := TryPacket(shared, slot);
      revision := loaded;
      ghost var a := Added(loads, shared.loads);
      OneMoreTry(loads, shared.loads, q, old(shared.loads), tries, start, r);
      tries := tries + [a];
      if r.Refused? {
        return [], revision, false, tries;
      }
      if r.Success? {
        if |shared.now[slot].commits| < |old(shared.now)[slot].commits| + HALF_RANGE {
          SuccessIsLatest(shared.trace, shared.loads, q, a, start);
        }
        AssembledLength(shared.loads, q, a);
        FitsRequest(shared.loads, q, a);
        return found, revision, true, tries;
      }
    }
    return [], revision, false, tries;
  }

  lemma AssembledLength(loads: seq<Access>, q: Request, a: Try)
    requires Succeeded(loads, q, a)
    ensures |Assembled(loads, q, a)| == loads[a.first + 1].value
  {
  }

  // ---------- Progress ----------

  /** No word of the partition changes between two instants. */
  ghost predicate LeftAlone(trace: seq<Instant>, slot: nat, from: nat, to: nat)
    requires slot < SLOTS
  {
    from <= to < |trace| && forall t :: from <= t <= to ==> trace[t][slot].words == trace[from][slot].words
  }

  /** There is something to read, and it is left alone for the whole attempt. */
  ghost predicate Undisturbed(trace: seq<Instant>, loads: seq<Access>, q: Request, a: Try)
    requires q.slot < SLOTS
  {
    && a.first <= a.last < |loads|
    && LeftAlone(trace, q.slot, loads[a.first].instant, loads[a.last].instant)
    && Readable(trace[loads[a.first].instant][q.slot], q)
  }

  /** Such an attempt succeeds, whatever the ones before it met. */
  lemma UndisturbedAttemptSucceeds(trace: seq<Instant>, loads: seq<Access>, q: Request, start: nat, tries: seq<Try>, ok: bool, i: nat)
    requires BoardRun(trace) && Recorded(trace, loads) && q.slot < SLOTS
    requires Call(loads, q, start, tries, ok) && i < |tries| && Undisturbed(trace, loads, q, tries[i])
    ensures ok && i == |tries| - 1
  {
    hide IsRun, Call, Readable;
    var run := History(trace, q.slot);
    assert Observed(run, loads, q.slot) && IsRun(run);
    UndisturbedSucceeds(run, loads, q, start, tries, ok, i);
  }

  /** A committed partition, left alone between two instants. */
  ghost predicate Settled(trace: seq<Instant>, slot: nat, from: nat, to: nat)
    requires slot < SLOTS
  {
    && LeftAlone(trace, slot, from, to)
    && trace[from][slot].words[0] % 2 == 0 && trace[from][slot].words[0] != 0
  }

  /** A call during which the partition is settled reads it, at the first attempt. */
  lemma SettledIsRead(trace: seq<Instant>, loads: seq<Access>, slot: nat, from: nat, start: nat, tries: seq<Try>, ok: bool)
    requires BoardRun(trace) && Recorded(trace, loads) && slot < SLOTS && |trace| > 0
    requires Call(loads, Anything(slot), start, tries, ok)
    requires start < |loads| && from <= loads[start].instant && Settled(trace, slot, from, |trace| - 1)
    ensures ok && |tries| == 1 && loads[tries[0].first].value == trace[|trace| - 1][slot].words[0]
  {
    hide IsRun, Disturbed, GaveUp, Succeeded;
    var run, a, q := History(trace, slot), tries[0], Anything(slot);
    assert Observed(run, loads, slot) && IsRun(run);
    FirstStarts(loads, q, start, tries, ok);
    DisturbedInCall(loads, q, start, tries, ok, 0);
    assert loads[a.first].slot == slot && loads[a.last].slot == slot;
    RunKeepsInv(run, loads[a.first].instant);
    assert run[loads[a.first].instant].words == trace[from][slot].words;
    UndisturbedAttemptSucceeds(trace, loads, q, start, tries, ok, 0);
  }

  lemma FirstStarts(loads: seq<Access>, q: Request, start: nat, tries: seq<Try>, ok: bool)
    requires Call(loads, q, start, tries, ok)
    ensures tries[0].first == start
  {
    var n := |tries| - 1;
    if n > 0 {
      assert tries[..n][0] == tries[0] && tries[..n][..0] == [];
    }
  }

  /** What any load of a call gave is what the word was at that instant, and the loads happened one
      after the other: the reasons for a failure are facts about the partition. */
  lemma LoadsWereSeen(trace: seq<Instant>, loads: seq<Access>, k: nat)
    requires Recorded(trace, loads) && k < |loads|
    ensures loads[k].slot < 8 && loads[k].instant < |trace| && loads[k].word < 136
    ensures loads[k].value == trace[loads[k].instant][loads[k].slot].words[loads[k].word]
    ensures k > 0 ==> loads[k - 1].instant <= loads[k].instant
  {
    assert Observed(History(trace, loads[k].slot), loads, loads[k].slot);
  }
}

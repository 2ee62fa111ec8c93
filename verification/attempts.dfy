/** The attempts of a reader, in terms of the atomic loads it performs.

    Both readers make up to three attempts. An attempt loads the revision, the size, the payload
    words and the revision again; what it saw decides whether the call gives up, tries again or
    succeeds. */
module Attempts {
  import opened Words
  import opened Seqlock

  const MAX_ATTEMPTS: nat := 3

  /** One atomic load: when it happened, of which word, and what it gave. */
  datatype Access = Access(instant: nat, slot: nat, word: nat, value: u64)

  /** One attempt, by the indices of its first and its last load. */
  datatype Try = Try(first: nat, last: nat)

  /** What the caller asks for: a revision other than `known`, in at most `available` bytes. */
  datatype Request = Request(slot: nat, known: u64, available: nat)

  // ---------- One attempt ----------

  /** All loads of the attempt are of the partition, and the first is of its revision. */
  ghost predicate Begun(loads: seq<Access>, q: Request, a: Try) {
    && a.first <= a.last < |loads|
    && (forall k :: a.first <= k <= a.last ==> loads[k].slot == q.slot)
    && loads[a.first].word == 0
  }

  predicate Fits(length: u64, q: Request) {
    1 <= length <= Least(CAPACITY, q.available)
  }

  /** The attempt found nothing to read, nothing new, or nothing that fits. */
  ghost predicate GaveUp(loads: seq<Access>, q: Request, a: Try) {
    && Begun(loads, q, a)
    && var revision := loads[a.first].value;
       if revision in {0, q.known} then a.last == a.first
       else revision % 2 == 0 && a.last == a.first + 1 && loads[a.last].word == 1 && !Fits(loads[a.last].value, q)
  }

  /** The attempt loaded everything, in order. */
  ghost predicate Complete(loads: seq<Access>, q: Request, a: Try) {
    && Begun(loads, q, a)
    && loads[a.first].value !in {0, q.known} && loads[a.first].value % 2 == 0
    && a.first + 1 < a.last && loads[a.first + 1].word == 1
    && var length := loads[a.first + 1].value;
       && Fits(length, q)
       && a.last == a.first + 2 + WordCount(length) && loads[a.last].word == 0
       && forall k :: a.first + 1 < k < a.last ==> loads[k].word == k - a.first
  }

  /** The revision was odd, or it had changed by the end. */
  ghost predicate Disturbed(loads: seq<Access>, q: Request, a: Try) {
    if Begun(loads, q, a) && a.last == a.first
    then loads[a.first].value % 2 == 1 && loads[a.first].value != q.known
    else Complete(loads, q, a) && loads[a.last].value != loads[a.first].value
  }

  ghost predicate Succeeded(loads: seq<Access>, q: Request, a: Try) {
    Complete(loads, q, a) && loads[a.last].value == loads[a.first].value
  }

  ghost function ValuesFrom(loads: seq<Access>, at: nat, n: nat): (values: seq<u64>)
    requires at + n <= |loads|
    ensures |values| == n
  {
    seq<u64>(n, k requires 0 <= k < n => loads[at + k].value)
  }

  /** The bytes that a complete attempt assembled. */
  ghost function Assembled(loads: seq<Access>, q: Request, a: Try): seq<u8>
    requires Complete(loads, q, a)
  {
    var length := loads[a.first + 1].value;
    Unpack(ValuesFrom(loads, a.first + 2, WordCount(length)))[..length]
  }

  /** The payload loads of an attempt so far. */
  ghost predicate PayloadLoads(loads: seq<Access>, slot: nat, at: nat, n: nat) {
    at + n == |loads| && forall k :: at <= k < |loads| ==> loads[k].slot == slot && loads[k].word == k - at + 2
  }

  lemma ValuesSnoc(loads: seq<Access>, at: nat, n: nat, x: Access)
    requires at + n == |loads|
    ensures ValuesFrom(loads + [x], at, n + 1) == ValuesFrom(loads, at, n) + [x.value]
  {
  }

  /** The loads of a finished attempt, piece by piece. */
  lemma Completed(past: seq<Access>, q: Request, x: Access, y: Access, collected: seq<Access>, z: Access)
    requires x.slot == y.slot == z.slot == q.slot && x.word == z.word == 0 && y.word == 1
    requires x.value !in {0, q.known} && x.value % 2 == 0 && Fits(y.value, q)
    requires past + [x] + [y] <= collected && PayloadLoads(collected, q.slot, |past| + 2, WordCount(y.value))
    ensures var loads, a := collected + [z], Try(|past|, |collected|);
            && Complete(loads, q, a) && loads[a.first] == x && loads[a.last] == z && loads[a.first + 1] == y
            && Assembled(loads, q, a) == Unpack(ValuesFrom(collected, |past| + 2, WordCount(y.value)))[..y.value]
  {
    hide Unpack;
    var loads, n := collected + [z], WordCount(y.value);
    assert collected[..|past| + 2] == past + [x] + [y];
    assert loads[|past|] == collected[..|past| + 2][|past|] && loads[|past| + 1] == collected[..|past| + 2][|past| + 1];
    assert ValuesFrom(loads, |past| + 2, n) == ValuesFrom(collected, |past| + 2, n);
  }

  // ---------- One call ----------

  ghost function Next(start: nat, tries: seq<Try>): nat {
    if tries == [] then start else tries[|tries| - 1].last + 1
  }

  /** Successive attempts, each of loads of its own, that were all disturbed. */
  ghost predicate AllDisturbed(loads: seq<Access>, q: Request, start: nat, tries: seq<Try>) {
    forall i :: 0 <= i < |tries| ==> tries[i].first == Next(start, tries[..i]) && Disturbed(loads, q, tries[i])
  }

  /** A whole call, whose loads are all those from `start` on: every attempt but the last was
      disturbed, and the last succeeded, gave up, or was the third to be disturbed. */
  ghost predicate Call(loads: seq<Access>, q: Request, start: nat, tries: seq<Try>, ok: bool) {
    && 1 <= |tries| <= MAX_ATTEMPTS
    && var n := |tries| - 1;
       && AllDisturbed(loads, q, start, tries[..n])
       && tries[n].first == Next(start, tries[..n]) && tries[n].last + 1 == |loads|
       && if ok then Succeeded(loads, q, tries[n])
          else GaveUp(loads, q, tries[n]) || (|tries| == MAX_ATTEMPTS && Disturbed(loads, q, tries[n]))
  }

  lemma DisturbedStays(loads: seq<Access>, more: seq<Access>, q: Request, a: Try)
    requires Disturbed(loads, q, a) && loads <= more
    ensures Disturbed(more, q, a)
  {
  }

  lemma AllDisturbedStays(loads: seq<Access>, more: seq<Access>, q: Request, start: nat, tries: seq<Try>)
    requires AllDisturbed(loads, q, start, tries) && loads <= more
    ensures AllDisturbed(more, q, start, tries)
  {
    hide Disturbed;
    forall i | 0 <= i < |tries|
      ensures Disturbed(more, q, tries[i])
    {
      DisturbedStays(loads, more, q, tries[i]);
    }
  }

  lemma AllDisturbedMore(loads: seq<Access>, q: Request, start: nat, tries: seq<Try>, a: Try)
    requires AllDisturbed(loads, q, start, tries)
    requires a.first == Next(start, tries) && Disturbed(loads, q, a)
    ensures AllDisturbed(loads, q, start, tries + [a]) && Next(start, tries + [a]) == a.last + 1
  {
    hide Disturbed;
    var more := tries + [a];
    forall i | 0 <= i < |more|
      ensures more[i].first == Next(start, more[..i]) && Disturbed(loads, q, more[i])
    {
      assert more[..i] == tries[..i];
      assert i == |tries| ==> tries[..i] == tries;
    }
  }

  /** The attempt that ends a call. */
  lemma CallEnds(loads: seq<Access>, q: Request, start: nat, tries: seq<Try>, a: Try, ok: bool)
    requires AllDisturbed(loads, q, start, tries) && |tries| < MAX_ATTEMPTS
    requires a.first == Next(start, tries) && a.last + 1 == |loads|
    requires if ok then Succeeded(loads, q, a)
             else GaveUp(loads, q, a) || (|tries| == MAX_ATTEMPTS - 1 && Disturbed(loads, q, a))
    ensures Call(loads, q, start, tries + [a], ok)
  {
    assert (tries + [a])[..|tries|] == tries;
  }

  // ---------- What the attempts mean for the partition ----------

  /** The loads of the partition gave what its words were at their instants. */
  ghost predicate Observed(run: seq<Slot>, loads: seq<Access>, slot: nat) {
    && (forall k :: 0 <= k < |loads| && loads[k].slot == slot ==>
          loads[k].instant < |run| && loads[k].word < PARTITION_WORDS &&
          loads[k].value == run[loads[k].instant].words[loads[k].word])
    && (forall i, j :: 0 <= i <= j < |loads| ==> loads[i].instant <= loads[j].instant)
  }

  /** The words do not change from the first load of the attempt to its last. */
  ghost predicate Alone(run: seq<Slot>, loads: seq<Access>, a: Try) {
    && a.first <= a.last < |loads| && loads[a.last].instant < |run|
    && (forall t :: loads[a.first].instant <= t <= loads[a.last].instant ==>
          run[t].words == run[loads[a.first].instant].words)
  }

  /** There is something to read that the caller does not know and has room for. */
  ghost predicate Readable(s: Slot, q: Request) {
    && |s.commits| > 0 && s.words[0] % 2 == 0 && s.words[0] !in {0, q.known}
    && |s.commits[|s.commits| - 1]| <= q.available
  }

  /** Progress: an attempt during which the words do not change succeeds whenever there is something
      to read, whatever happened before it in the same call. */
  lemma UndisturbedSucceeds(run: seq<Slot>, loads: seq<Access>, q: Request, start: nat, tries: seq<Try>, ok: bool, i: nat)
    requires IsRun(run) && Observed(run, loads, q.slot) && Call(loads, q, start, tries, ok) && i < |tries|
    requires Alone(run, loads, tries[i]) && Readable(run[loads[tries[i].first].instant], q)
    ensures ok && i == |tries| - 1
  {
    hide IsRun, AllDisturbed;
    var a, n := tries[i], |tries| - 1;
    DisturbedInCall(loads, q, start, tries, ok, i);
    assert Begun(loads, q, a);
    assert loads[a.first].value == run[loads[a.first].instant].words[0];
    RunKeepsInv(run, loads[a.first].instant);
    assert loads[a.last].instant >= loads[a.first].instant;
    assert !Disturbed(loads, q, a);
    assert !GaveUp(loads, q, a);
  }

  /** Every attempt of a call is disturbed, unless it is the last. */
  lemma DisturbedInCall(loads: seq<Access>, q: Request, start: nat, tries: seq<Try>, ok: bool, i: nat)
    requires Call(loads, q, start, tries, ok) && i < |tries|
    ensures i < |tries| - 1 ==> Disturbed(loads, q, tries[i])
    ensures Begun(loads, q, tries[i])
  {
    var n := |tries| - 1;
    if i < n {
      assert tries[..n][i] == tries[i];
    }
  }

  /** A successful attempt assembled the payload that was the latest all the time. */
  lemma SuccessIsUntorn(run: seq<Slot>, loads: seq<Access>, q: Request, a: Try)
    requires IsRun(run) && Observed(run, loads, q.slot) && Succeeded(loads, q, a)
    ensures loads[a.first].instant <= loads[a.last].instant < |run|
    ensures |run[loads[a.last].instant].commits| < |run[loads[a.first].instant].commits| + HALF_RANGE ==>
              forall t :: loads[a.first].instant <= t <= loads[a.last].instant ==>
                LatestIs(run[t], loads[a.first].value, Assembled(loads, q, a))
  {
    hide IsRun, LatestIs, Unpack;
    var first, sized, last := loads[a.first].instant, loads[a.first + 1].instant, loads[a.last].instant;
    var n := WordCount(loads[a.first + 1].value);
    if |run[last].commits| < |run[first].commits| + HALF_RANGE {
      var stamps: seq<nat> := seq(n, k requires 0 <= k < n => loads[a.first + 2 + k].instant);
      var values := ValuesFrom(loads, a.first + 2, n);
      forall k | 0 <= k < n
        ensures values[k] == run[stamps[k]].words[2 + k] && first <= stamps[k] <= last
      {
        assert loads[a.first + 2 + k].word == 2 + k;
      }
      ReadIsUntorn(run, first, sized, stamps, last, values);
    }
  }

  // ---------- What a failure means, spelled out ----------

  /** The three ways in which the last attempt of a failed call can have ended are the only reasons
      to fail: it loaded revision 0 or the known one; or an even revision and then a size that is
      0, above 1024 or more than the caller has room for; or it was the third of three successive
      attempts, each of which loaded an odd revision, or another one at its end. */
  lemma FailureHasReason(loads: seq<Access>, q: Request, start: nat, tries: seq<Try>)
    requires Call(loads, q, start, tries, false)
    ensures |tries| > 0 && tries[|tries| - 1].last == |loads| - 1
    ensures forall i :: 0 <= i < |tries| ==>
              && start <= tries[i].first <= tries[i].last < |loads|
              && tries[i].first == (if i == 0 then start else tries[i - 1].last + 1)
              && loads[tries[i].first].slot == q.slot && loads[tries[i].first].word == 0
    ensures var a := tries[|tries| - 1];
            || loads[a.first].value == 0 || loads[a.first].value == q.known
            || (&& loads[a.first].value % 2 == 0
                && a.last == a.first + 1 && loads[a.last].slot == q.slot && loads[a.last].word == 1
                && (loads[a.last].value == 0 || loads[a.last].value > 1024 || loads[a.last].value > q.available))
            || (&& |tries| == 3
                && forall i :: 0 <= i < 3 ==>
                     || loads[tries[i].first].value % 2 == 1
                     || (&& tries[i].first < tries[i].last
                         && loads[tries[i].last].slot == q.slot && loads[tries[i].last].word == 0
                         && loads[tries[i].last].value != loads[tries[i].first].value))
  {
    hide AllDisturbed, Disturbed, GaveUp, Begun;
    forall i | 0 <= i < |tries|
      ensures Begun(loads, q, tries[i]) && start <= tries[i].first <= tries[i].last < |loads|
      ensures tries[i].first == (if i == 0 then start else tries[i - 1].last + 1)
      ensures loads[tries[i].first].slot == q.slot && loads[tries[i].first].word == 0
      ensures |tries| == 3 && Disturbed(loads, q, tries[2]) ==> Disturbed(loads, q, tries[i])
    {
      TryInCall(loads, q, start, tries, false, i);
      BegunMeans(loads, q, tries[i]);
    }
    var a := tries[|tries| - 1];
    if GaveUp(loads, q, a) {
      GaveUpMeans(loads, q, a);
    } else {
      forall i | 0 <= i < 3
        ensures loads[tries[i].first].value % 2 == 1 ||
                (&& tries[i].first < tries[i].last
                 && loads[tries[i].last].slot == q.slot && loads[tries[i].last].word == 0
                 && loads[tries[i].last].value != loads[tries[i].first].value)
      {
        DisturbedMeans(loads, q, tries[i]);
      }
    }
  }

  lemma GaveUpMeans(loads: seq<Access>, q: Request, a: Try)
    requires GaveUp(loads, q, a)
    ensures a.first <= a.last < |loads|
    ensures || loads[a.first].value == 0 || loads[a.first].value == q.known
            || (&& loads[a.first].value % 2 == 0
                && a.last == a.first + 1 && loads[a.last].slot == q.slot && loads[a.last].word == 1
                && (loads[a.last].value == 0 || loads[a.last].value > 1024 || loads[a.last].value > q.available))
  {
  }

  lemma DisturbedMeans(loads: seq<Access>, q: Request, a: Try)
    requires Disturbed(loads, q, a)
    ensures a.first <= a.last < |loads|
    ensures || loads[a.first].value % 2 == 1
            || (&& a.first < a.last && loads[a.last].slot == q.slot && loads[a.last].word == 0
                && loads[a.last].value != loads[a.first].value)
  {
  }

  lemma BegunMeans(loads: seq<Access>, q: Request, a: Try)
    requires Begun(loads, q, a)
    ensures a.first <= a.last < |loads| && loads[a.first].slot == q.slot && loads[a.first].word == 0
  {
  }

  /** The attempts of a call, one after the other. */
  lemma TryInCall(loads: seq<Access>, q: Request, start: nat, tries: seq<Try>, ok: bool, i: nat)
    requires Call(loads, q, start, tries, ok) && i < |tries|
    ensures Begun(loads, q, tries[i]) && start <= tries[i].first
    ensures tries[i].first == if i == 0 then start else tries[i - 1].last + 1
    ensures i < |tries| - 1 ==> Disturbed(loads, q, tries[i])
  {
    hide AllDisturbed, Begun;
    var n := |tries| - 1;
    DisturbedInCall(loads, q, start, tries, ok, i);
    if i < n {
      assert tries[..n][i] == tries[i];
      TryAt(loads, q, start, tries[..n], i);
    } else if n > 0 {
      assert tries[..n][n - 1] == tries[n - 1];
      TryAt(loads, q, start, tries[..n], n - 1);
      BegunMeans(loads, q, tries[n - 1]);
    }
  }

  lemma DisturbedHasBegun(loads: seq<Access>, q: Request, a: Try)
    requires Disturbed(loads, q, a)
    ensures Begun(loads, q, a)
  {
  }

  /** The disturbed attempts, one after the other. */
  lemma {:induction false} TryAt(loads: seq<Access>, q: Request, start: nat, tries: seq<Try>, i: nat)
    requires AllDisturbed(loads, q, start, tries) && i < |tries|
    ensures Disturbed(loads, q, tries[i]) && Begun(loads, q, tries[i]) && start <= tries[i].first
    ensures tries[i].first == if i == 0 then start else tries[i - 1].last + 1
  {
    hide Disturbed, Begun;
    assert Disturbed(loads, q, tries[i]) && tries[i].first == Next(start, tries[..i]);
    DisturbedHasBegun(loads, q, tries[i]);
    if i == 0 {
    } else {
      TryAt(loads, q, start, tries, i - 1);
      BegunMeans(loads, q, tries[i - 1]);
      assert tries[..i][i - 1] == tries[i - 1];
    }
  }

  lemma OddIsNotTheLast(loads: seq<Access>, q: Request, start: nat, tries: seq<Try>, ok: bool)
    requires Call(loads, q, start, tries, ok)
    requires start < |loads| && loads[start].value % 2 == 1 && loads[start].value != q.known
    ensures |tries| > 1
  {
    hide AllDisturbed;
  }

  /** So an odd revision that the caller does not know is never a reason to give up at once: after
      loading one first, every call loads the revision again. */
  lemma OddIsTriedAgain(loads: seq<Access>, q: Request, start: nat, tries: seq<Try>, ok: bool)
    requires Call(loads, q, start, tries, ok)
    requires start < |loads| && loads[start].value % 2 == 1 && loads[start].value != q.known
    ensures start + 1 < |loads| && loads[start + 1].slot == q.slot && loads[start + 1].word == 0
  {
    hide AllDisturbed;
    OddIsNotTheLast(loads, q, start, tries, ok);
    TryInCall(loads, q, start, tries, ok, 0);
    TryInCall(loads, q, start, tries, ok, 1);
  }
}

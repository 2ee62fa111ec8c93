/** What holds of every run of the relay: where each forwarded frame comes from and goes to, when a
    lease ends, and what the counters add up to. */
module RelayRuns {
  import opened Words
  import Frames
  import RelayParser
  import Archive
  import opened Relay

  // ---------- Events of a run ----------

  function VerdictAt(lease: int, events: seq<Event>, k: nat): Verdict
    requires AllSound(events) && k < |events|
  {
    Judge(lease, StateAt(lease, events, k).peers, events[k])
  }

  /** A packet in that role. */
  predicate OfRole(e: Event, role: nat) {
    e.Packet? && e.validation == RelayParser.Ok && e.h.role == role
  }

  /** A tenure of the role begins with this event. */
  predicate Begins(lease: int, events: seq<Event>, k: nat, role: nat)
    requires AllSound(events) && k < |events|
  {
    OfRole(events[k], role) && VerdictAt(lease, events, k).Registered?
  }

  /** The endpoint of the role, if there is one, is replaced, unregistered or expired. */
  predicate Ends(lease: int, events: seq<Event>, k: nat, role: nat)
    requires AllSound(events) && k < |events|
  {
    var v := VerdictAt(lease, events, k);
    || (OfRole(events[k], role) && (v.Registered? || v.Unregistered?))
    || (v.Expired? && (if role == Frames.GUIDE then v.guide else v.controller))
  }

  /** A data frame from the role is accepted, and given to `route`. */
  predicate Forwards(lease: int, events: seq<Event>, k: nat, role: nat)
    requires AllSound(events) && k < |events|
  {
    OfRole(events[k], role) && VerdictAt(lease, events, k).Accepted?
  }

  /** The event renews the lease of the role. */
  predicate Touches(lease: int, events: seq<Event>, k: nat, role: nat)
    requires AllSound(events) && k < |events|
  {
    var v := VerdictAt(lease, events, k);
    OfRole(events[k], role) && (v.Registered? || v.Refreshed? || v.Accepted?)
  }

  /** The tenure that began at `j` still lasts when event `n` arrives. */
  predicate Lasts(lease: int, events: seq<Event>, j: nat, n: nat, role: nat)
    requires AllSound(events) && n <= |events|
  {
    j < n && Begins(lease, events, j, role) && forall k :: j < k < n ==> !Ends(lease, events, k, role)
  }

  /** What one event does to the endpoint of a role. */
  lemma EndpointStep(lease: int, events: seq<Event>, n: nat, role: nat)
    requires AllSound(events) && n < |events| && IsRole(role)
    ensures var e, v := events[n], VerdictAt(lease, events, n);
            var peer, peer' := StateAt(lease, events, n).peers[role], StateAt(lease, events, n + 1).peers[role];
            && (Begins(lease, events, n, role) ==>
                  peer' == Endpoint(e.source, e.now, e.h.sessionId, 0, e.h.sequence, true, false))
            && (Ends(lease, events, n, role) && !Begins(lease, events, n, role) ==> peer' == Vacant() && peer.active)
            && (OfRole(e, role) && v.Refreshed? ==>
                  peer' == peer.(lastControlSequence := e.h.sequence, lastSeen := e.now) && peer.active)
            && (Forwards(lease, events, n, role) ==>
                  && FromPeer(StateAt(lease, events, n).peers, e.h, e.source)
                  && (peer.dataSequenceSet ==> peer.lastDataSequence < e.h.sequence)
                  && v.gap == Gap(peer, e.h.sequence)
                  && peer' == peer.(lastDataSequence := e.h.sequence, dataSequenceSet := true, lastSeen := e.now))
            && (!Ends(lease, events, n, role) && !Touches(lease, events, n, role) ==> peer' == peer)
  {
    hide Add, Sent, Elapsed;
  }

  // ---------- Provenance ----------

  /** An active endpoint comes from a registration that still lasts; `lastSeen` is the time of the
      last event that renewed its lease. */
  lemma {:induction false} TenureOf(lease: int, events: seq<Event>, n: nat, role: nat) returns (j: nat, t: nat)
    requires AllSound(events) && n <= |events| && IsRole(role)
    requires StateAt(lease, events, n).peers[role].active
    ensures Lasts(lease, events, j, n, role)
    ensures j <= t < n && Touches(lease, events, t, role)
    ensures StateAt(lease, events, n).peers[role].lastSeen == events[t].now
    ensures forall k :: t < k < n ==> !Touches(lease, events, k, role)
  {
    hide StateAt, VerdictAt;
    EmptyStart(lease, events);
    var i := n - 1;
    EndpointStep(lease, events, i, role);
    if Begins(lease, events, i, role) {
      j, t := i, i;
    } else {
      j, t := TenureOf(lease, events, i, role);
      if Touches(lease, events, i, role) {
        t := i;
      }
    }
  }

  lemma EmptyStart(lease: int, events: seq<Event>)
    requires AllSound(events)
    ensures StateAt(lease, events, 0) == Start()
  {
  }

  /** While a tenure lasts, the endpoint has the address and session of its registration, and its
      last data sequence is the greatest one accepted in the tenure, if any. */
  lemma {:induction false} WhileItLasts(lease: int, events: seq<Event>, j: nat, n: nat, role: nat)
    requires AllSound(events) && n <= |events| && IsRole(role) && Lasts(lease, events, j, n, role)
    ensures var peer := StateAt(lease, events, n).peers[role];
            && peer.active && peer.address == events[j].source && peer.sessionId == events[j].h.sessionId
            && (forall k :: j < k < n && Forwards(lease, events, k, role) ==>
                  peer.dataSequenceSet && events[k].h.sequence <= peer.lastDataSequence)
            && (peer.dataSequenceSet ==>
                  exists k :: j < k < n && Forwards(lease, events, k, role) && events[k].h.sequence == peer.lastDataSequence)
  {
    hide StateAt, VerdictAt;
    var i := n - 1;
    EndpointStep(lease, events, i, role);
    if i <= j {
    } else {
      WhileItLasts(lease, events, j, i, role);
    }
  }

  /** The sender's registration for a data frame at `i`: same role, address and session, not ended
      in between, and no data frame accepted under it had as great a sequence number. */
  predicate Authorizes(lease: int, events: seq<Event>, j: nat, i: nat)
    requires AllSound(events) && i < |events| && events[i].Packet?
  {
    var role := events[i].h.role;
    && Lasts(lease, events, j, i, role)
    && events[j].h.messageType == Frames.REGISTER
    && SameAddress(events[j].source, events[i].source) && events[j].h.sessionId == events[i].h.sessionId
    && (forall k :: j < k < i && Forwards(lease, events, k, role) ==> events[k].h.sequence < events[i].h.sequence)
  }

  predicate IsData(e: Event) {
    e.Packet? && e.validation == RelayParser.Ok && e.h.messageType in {Frames.COMMAND, Frames.STATE}
  }

  /** A valid data frame is forwarded exactly when a registration authorizes it. */
  lemma Provenance(lease: int, events: seq<Event>, i: nat)
    requires AllSound(events) && i < |events| && IsData(events[i])
    ensures Forwards(lease, events, i, events[i].h.role) <==>
            exists j: nat :: j < i && Authorizes(lease, events, j, i)
  {
    hide StateAt, VerdictAt;
    var h, role := events[i].h, events[i].h.role;
    assert Sound(events[i]);
    DataVerdict(lease, events, i);
    var peers := StateAt(lease, events, i).peers;
    if Forwards(lease, events, i, role) {
      var j, t := TenureOf(lease, events, i, role);
      WhileItLasts(lease, events, j, i, role);
      BeginsIsRegister(lease, events, j, role);
      assert Authorizes(lease, events, j, i);
    }
    if j: nat :| j < i && Authorizes(lease, events, j, i) {
      WhileItLasts(lease, events, j, i, role);
    }
  }

  lemma DataVerdict(lease: int, events: seq<Event>, i: nat)
    requires AllSound(events) && i < |events| && IsData(events[i])
    ensures IsRole(events[i].h.role)
    ensures var h, peers := events[i].h, StateAt(lease, events, i).peers;
            VerdictAt(lease, events, i).Accepted? <==>
              && FromPeer(peers, h, events[i].source)
              && (peers[h.role].dataSequenceSet ==> h.sequence > peers[h.role].lastDataSequence)
  {
    hide StateAt;
    assert Sound(events[i]);
  }

  lemma BeginsIsRegister(lease: int, events: seq<Event>, j: nat, role: nat)
    requires AllSound(events) && j < |events| && Begins(lease, events, j, role)
    ensures events[j].h.messageType == Frames.REGISTER && events[j].source.Some?
  {
    hide StateAt;
    assert Sound(events[j]);
  }

  /** Every datagram the relay sends is a forwarded frame, byte for byte, and goes to the address of
      a registration of the other role that still lasts. */
  lemma {:induction false} SentWasForwarded(lease: int, events: seq<Event>, n: nat, d: Datagram)
    requires AllSound(events) && n <= |events| && d in StateAt(lease, events, n).sent
    ensures exists i: nat, j: nat ::
              && j < i < n && IsData(events[i]) && Forwards(lease, events, i, events[i].h.role)
              && d.packet == events[i].bytes
              && Lasts(lease, events, j, i, Other(events[i].h.role)) && events[j].source == Some(d.to)
  {
    hide VerdictAt;
    if d in StateAt(lease, events, n - 1).sent {
      SentWasForwarded(lease, events, n - 1, d);
    } else {
      var i := n - 1;
      SentAt(lease, events, i, d);
      var j, t := TenureOf(lease, events, i, Other(events[i].h.role));
      WhileItLasts(lease, events, j, i, Other(events[i].h.role));
    }
  }

  lemma SentAt(lease: int, events: seq<Event>, i: nat, d: Datagram)
    requires AllSound(events) && i < |events|
    requires d in StateAt(lease, events, i + 1).sent && d !in StateAt(lease, events, i).sent
    ensures IsData(events[i]) && IsRole(events[i].h.role) && Forwards(lease, events, i, events[i].h.role)
    ensures d.packet == events[i].bytes
    ensures var to := StateAt(lease, events, i).peers[Other(events[i].h.role)];
            to.active && to.address == Some(d.to)
  {
    var e, s := events[i], StateAt(lease, events, i);
    assert Sound(e);
    assert d in Sent(e, Judge(lease, s.peers, e));
  }

  // ---------- Leases ----------

  predicate Monotone(events: seq<Event>) {
    forall i, j :: 0 <= i <= j < |events| ==> events[i].now <= events[j].now
  }

  /** A maintenance tick ends a tenure exactly when every event that renewed its lease is longer ago
      than the lease. */
  lemma ExpiresIffSilent(lease: int, events: seq<Event>, i: nat, role: nat)
    requires AllSound(events) && Monotone(events) && i < |events| && events[i].Tick? && IsRole(role)
    ensures Ends(lease, events, i, role) <==>
            exists j: nat :: j < i && Lasts(lease, events, j, i, role) &&
              forall k :: j <= k < i && Touches(lease, events, k, role) ==>
                Elapsed(events[i].now, events[k].now) > lease
  {
    hide StateAt, VerdictAt, Elapsed;
    TickVerdict(lease, events, i, role);
    var peer := StateAt(lease, events, i).peers[role];
    if peer.active {
      var j, t := TenureOf(lease, events, i, role);
      WhileItLasts(lease, events, j, i, role);
      if Ends(lease, events, i, role) {
        forall k | j <= k < i && Touches(lease, events, k, role)
          ensures Elapsed(events[i].now, events[k].now) > lease
        {
          assert k <= t;
          ElapsedGrows(events[i].now, events[t].now, events[k].now);
        }
      }
      forall j': nat | j' < i && Lasts(lease, events, j', i, role)
        ensures j' == j
      {
        OneTenure(lease, events, j, j', i, role);
      }
    }
    if j: nat :| j < i && Lasts(lease, events, j, i, role) {
      WhileItLasts(lease, events, j, i, role);
    }
  }

  lemma OneTenure(lease: int, events: seq<Event>, j: nat, j': nat, n: nat, role: nat)
    requires AllSound(events) && n <= |events|
    requires Lasts(lease, events, j, n, role) && Lasts(lease, events, j', n, role)
    ensures j == j'
  {
    hide StateAt, VerdictAt;
    assert Ends(lease, events, j, role) && Ends(lease, events, j', role);
  }

  lemma TickVerdict(lease: int, events: seq<Event>, i: nat, role: nat)
    requires AllSound(events) && i < |events| && events[i].Tick? && IsRole(role)
    ensures var peer := StateAt(lease, events, i).peers[role];
            Ends(lease, events, i, role) <==> peer.active && Elapsed(events[i].now, peer.lastSeen) > lease
  {
    hide StateAt, Elapsed;
  }

  lemma ElapsedGrows(now: int, later: int, earlier: int)
    requires earlier <= later
    ensures Elapsed(now, later) <= Elapsed(now, earlier)
  {
  }

  // ---------- Gaps ----------

  /** The data sequences accepted so far in the tenure of a role that lasts now. */
  function Current(lease: int, events: seq<Event>, n: nat, role: nat): seq<u64>
    requires AllSound(events) && n <= |events|
  {
    if n == 0 || Ends(lease, events, n - 1, role) then []
    else
      var before := Current(lease, events, n - 1, role);
      if Forwards(lease, events, n - 1, role) then before + [events[n - 1].h.sequence] else before
  }

  /** The data sequences of every tenure that has ended. */
  function Ended(lease: int, events: seq<Event>, n: nat): seq<seq<u64>>
    requires AllSound(events) && n <= |events|
  {
    if n == 0 then []
    else
      Ended(lease, events, n - 1)
      + (if Ends(lease, events, n - 1, 1) then [Current(lease, events, n - 1, 1)] else [])
      + (if Ends(lease, events, n - 1, 2) then [Current(lease, events, n - 1, 2)] else [])
  }

  ghost predicate Ascends(accepted: seq<u64>) {
    forall i, j :: 0 <= i < j < |accepted| ==> accepted[i] < accepted[j]
  }

  /** Last accepted minus first accepted plus one minus the number accepted. */
  function Missing(accepted: seq<u64>): int {
    if accepted == [] then 0 else accepted[|accepted| - 1] - accepted[0] + 1 - |accepted|
  }

  function MissingInAll(tenures: seq<seq<u64>>): int {
    if tenures == [] then 0 else MissingInAll(tenures[..|tenures| - 1]) + Missing(tenures[|tenures| - 1])
  }

  lemma MissingSnoc(tenures: seq<seq<u64>>, accepted: seq<u64>)
    ensures MissingInAll(tenures + [accepted]) == MissingInAll(tenures) + Missing(accepted)
  {
    assert (tenures + [accepted])[..|tenures|] == tenures;
  }

  /** The numbers left out between the first and the last of a list. */
  ghost function LeftOut(accepted: seq<u64>): set<nat> {
    if accepted == [] then {}
    else set k: nat | accepted[0] < k < accepted[|accepted| - 1] && k !in accepted
  }

  /** In an ascending list, `Missing` counts them. */
  lemma {:induction false} MissingCounts(accepted: seq<u64>)
    requires Ascends(accepted)
    ensures Missing(accepted) == |LeftOut(accepted)|
  {
    if |accepted| == 1 {
      assert LeftOut(accepted) == {};
    } else if |accepted| >= 2 {
      var n := |accepted| - 1;
      MissingCounts(accepted[..n]);
      Archive.BetweenHolds(accepted[n - 1], accepted[n]);
      LeftOutSplits(accepted);
      assert LeftOut(accepted[..n]) !! Archive.Between(accepted[n - 1], accepted[n]);
    }
  }

  lemma LeftOutSplits(accepted: seq<u64>)
    requires Ascends(accepted) && |accepted| >= 2
    ensures var n := |accepted| - 1;
            LeftOut(accepted) == LeftOut(accepted[..n]) + Archive.Between(accepted[n - 1], accepted[n])
  {
    var n := |accepted| - 1;
    var before, low, high := accepted[..n], accepted[n - 1], accepted[n];
    Archive.BetweenHolds(low, high);
    assert accepted == before + [high];
    forall k: nat
      ensures k in LeftOut(accepted) <==> k in LeftOut(before) || k in Archive.Between(low, high)
    {
      if k in Archive.Between(low, high) {
        forall i | 0 <= i < n
          ensures accepted[i] != k
        {
          assert i < n - 1 ==> accepted[i] < low;
        }
      }
    }
  }

  /** The endpoint remembers the last element of its tenure's list, which ascends. */
  lemma {:induction false} CurrentOf(lease: int, events: seq<Event>, n: nat, role: nat)
    requires AllSound(events) && n <= |events| && IsRole(role)
    ensures var peer, accepted := StateAt(lease, events, n).peers[role], Current(lease, events, n, role);
            && Ascends(accepted)
            && (peer.dataSequenceSet <==> accepted != [])
            && (accepted != [] ==> peer.lastDataSequence == accepted[|accepted| - 1])
  {
    hide StateAt, VerdictAt;
    if n == 0 {
      EmptyStart(lease, events);
    } else {
      CurrentOf(lease, events, n - 1, role);
      EndpointStep(lease, events, n - 1, role);
    }
  }

  /** What one event adds to the gap total is what it adds to the list of its tenure. */
  lemma GapStep(lease: int, events: seq<Event>, n: nat)
    requires AllSound(events) && n < |events|
    ensures var v := VerdictAt(lease, events, n);
            StateAt(lease, events, n + 1).totals.sequenceGaps ==
            StateAt(lease, events, n).totals.sequenceGaps + (if v.Accepted? then v.gap else 0)
    ensures VerdictAt(lease, events, n).Accepted? ==>
              (Forwards(lease, events, n, 1) && !Forwards(lease, events, n, 2)) ||
              (Forwards(lease, events, n, 2) && !Forwards(lease, events, n, 1))
  {
    assert Sound(events[n]);
  }

  /** How the missing numbers of a role change with one event. */
  lemma MissingStep(lease: int, events: seq<Event>, n: nat, role: nat)
    requires AllSound(events) && n < |events| && IsRole(role)
    ensures var before, after := Current(lease, events, n, role), Current(lease, events, n + 1, role);
            if Ends(lease, events, n, role) then after == []
            else Missing(after) == Missing(before) +
                 (if Forwards(lease, events, n, role) then VerdictAt(lease, events, n).gap else 0)
  {
    hide StateAt, VerdictAt;
    CurrentOf(lease, events, n, role);
    EndpointStep(lease, events, n, role);
  }

  /** Over any run, the gap total is the sum over all tenures of the sequence numbers missing
      between the first and the last accepted one. */
  lemma {:induction false} GapsTelescope(lease: int, events: seq<Event>, n: nat)
    requires AllSound(events) && n <= |events|
    ensures StateAt(lease, events, n).totals.sequenceGaps ==
            MissingInAll(Ended(lease, events, n))
            + Missing(Current(lease, events, n, 1)) + Missing(Current(lease, events, n, 2))
  {
    hide StateAt, VerdictAt, Current, Missing, MissingInAll, Forwards, Ends;
    if n == 0 {
      NoGapsAtStart(lease, events, n);
      NothingMissing();
    } else {
      var i := n - 1;
      GapsTelescope(lease, events, i);
      GapStep(lease, events, i);
      MissingStep(lease, events, i, 1);
      MissingStep(lease, events, i, 2);
      var ended := Ended(lease, events, i);
      MissingSnoc(ended, Current(lease, events, i, 1));
      MissingSnoc(ended, Current(lease, events, i, 2));
      MissingSnoc(ended + [Current(lease, events, i, 1)], Current(lease, events, i, 2));
      ForwardsDoesNotEnd(lease, events, i);
      assert ended + [] == ended;
      assert ended + [Current(lease, events, i, 1)] + [] == ended + [Current(lease, events, i, 1)];
    }
  }

  /** Every list in that sum ascends, so each term counts the numbers its tenure left out. */
  lemma {:induction false} TenuresAscend(lease: int, events: seq<Event>, n: nat, accepted: seq<u64>)
    requires AllSound(events) && n <= |events|
    requires accepted in Ended(lease, events, n) + [Current(lease, events, n, 1), Current(lease, events, n, 2)]
    ensures Ascends(accepted) && Missing(accepted) == |LeftOut(accepted)|
  {
    hide VerdictAt, StateAt, Current, Ends, Missing;
    if accepted in Ended(lease, events, n) && n > 0 {
      CurrentOf(lease, events, n - 1, 1);
      CurrentOf(lease, events, n - 1, 2);
      if accepted in Ended(lease, events, n - 1) {
        TenuresAscend(lease, events, n - 1, accepted);
      }
    } else {
      CurrentOf(lease, events, n, 1);
      CurrentOf(lease, events, n, 2);
    }
    MissingCounts(accepted);
  }

  lemma {:induction false} NoGapsAtStart(lease: int, events: seq<Event>, n: nat)
    requires AllSound(events) && n == 0
    ensures StateAt(lease, events, n).totals.sequenceGaps == 0
    ensures Current(lease, events, n, 1) == []
    ensures Current(lease, events, n, 2) == []
  {
    hide Next, Ends, Forwards, VerdictAt;
  }

  lemma NothingMissing()
    ensures Missing([]) == 0
    ensures MissingInAll([]) == 0
  {
  }

  lemma ForwardsDoesNotEnd(lease: int, events: seq<Event>, i: nat)
    requires AllSound(events) && i < |events|
    ensures forall role: nat :: VerdictAt(lease, events, i).Accepted? ==> !Ends(lease, events, i, role)
    ensures forall role: nat :: Forwards(lease, events, i, role) ==> VerdictAt(lease, events, i).Accepted?
    ensures Missing([]) == 0
  {
    hide StateAt, VerdictAt;
  }

  // ---------- Conservation ----------

  /** Endpoint 0 is never active; every registration is still active or was replaced, unregistered
      or expired; every forwarded frame was sent or dropped; and every packet was counted once, or
      renewed a lease. */
  ghost predicate Conserved(s: State) {
    var t := s.totals;
    && !s.peers[0].active
    && t.registrations == Active(s.peers) + t.replacements + t.unregisters + t.expirations
    && t.commands + t.states == |s.sent| + t.dropped
    && t.packets == t.invalid + t.oldSequence + t.unauthorized + t.registrations + t.unregisters
                    + t.commands + t.states + t.refreshes
    && t.crcErrors <= t.invalid
  }

  /** The totals are conserved in every run. */
  lemma {:induction false} Conservation(lease: int, events: seq<Event>, n: nat)
    requires AllSound(events) && n <= |events|
    ensures Conserved(StateAt(lease, events, n))
  {
    if n == 0 {
      EmptyStart(lease, events);
    } else {
      Conservation(lease, events, n - 1);
      ConservationStep(lease, StateAt(lease, events, n - 1), events[n - 1]);
    }
  }

  lemma ConservationStep(lease: int, s: State, e: Event)
    requires Sound(e) && Conserved(s)
    ensures Conserved(Next(lease, s, e))
  {
    hide Elapsed;
  }

  /** The same of the program's counters, on 64 bits. */
  lemma CountersConserve(lease: int, events: seq<Event>, n: nat)
    requires AllSound(events) && n <= |events|
    ensures var s := StateAt(lease, events, n);
            var c := Wrapped(s.totals);
            && c.registrations == (Active(s.peers) + c.replacements + c.unregisters + c.expirations) % MOD_64
            && (c.commands + c.states) % MOD_64 == (|s.sent| + c.dropped) % MOD_64
            && s.totals.packets % MOD_64 ==
               (c.invalid + c.oldSequence + c.unauthorized + c.registrations + c.unregisters
                + c.commands + c.states + s.totals.refreshes) % MOD_64
  {
    hide StateAt, Active;
    Conservation(lease, events, n);
    var s := StateAt(lease, events, n);
    var t := s.totals;
    WrapThree(Active(s.peers), t.replacements, t.unregisters, t.expirations);
    WrapThree(0, t.commands, t.states, 0);
    WrapThree(|s.sent|, t.dropped, 0, 0);
    WrapThree(t.refreshes + t.commands % MOD_64 + t.states % MOD_64 + t.unregisters % MOD_64 + t.registrations % MOD_64,
              t.invalid, t.oldSequence, t.unauthorized);
    WrapThree(t.refreshes + t.commands % MOD_64 + t.invalid + t.oldSequence + t.unauthorized,
              t.states, t.unregisters, t.registrations);
    WrapThree(t.refreshes + t.invalid + t.oldSequence + t.unauthorized + t.states + t.unregisters + t.registrations,
              t.commands, 0, 0);
  }

  lemma WrapOne(a: nat, b: nat)
    ensures (a + b % MOD_64) % MOD_64 == (a + b) % MOD_64
  {
    AddWraps(b, a);
  }

  lemma WrapThree(a: nat, b: nat, c: nat, d: nat)
    ensures (a + b % MOD_64 + c % MOD_64 + d % MOD_64) % MOD_64 == (a + b + c + d) % MOD_64
  {
    WrapOne(a + b % MOD_64 + c % MOD_64, d);
    WrapOne(a + b % MOD_64 + d, c);
    WrapOne(a + c + d, b);
  }
}

/** What each event does to the relay, in terms of the events before it: when a lease is renewed, when
    a tenure begins or ends, and which counter moves. */
module RelayLaws {
  import opened Words
  import Frames
  import RelayParser
  import opened Relay
  import opened RelayRuns

  // ---------- Words for events ----------

  predicate IsMessage(e: Event, messageType: nat, role: nat) {
    e.Packet? && e.validation == RelayParser.Ok && e.h.messageType == messageType && e.h.role == role
  }

  /** Both come from the same address, in the same session. */
  predicate SameEndpoint(e: Event, f: Event) {
    && e.Packet? && f.Packet? && e.source.Some? && f.source.Some?
    && e.source.value == f.source.value && e.h.sessionId == f.h.sessionId
  }

  /** The role is taken when event `i` arrives. */
  ghost predicate Taken(lease: int, events: seq<Event>, i: nat, role: nat)
    requires AllSound(events) && i < |events|
  {
    exists j: nat :: Lasts(lease, events, j, i, role)
  }

  /** It is taken by the endpoint that event `i` comes from. */
  ghost predicate Held(lease: int, events: seq<Event>, i: nat, role: nat)
    requires AllSound(events) && i < |events|
  {
    exists j: nat :: Lasts(lease, events, j, i, role) && SameEndpoint(events[j], events[i])
  }

  /** The sequence number of event `i` is above those of the registration and of all repeated
      registrations of the tenure. */
  ghost predicate AboveRegistrations(lease: int, events: seq<Event>, i: nat, role: nat)
    requires AllSound(events) && i < |events| && events[i].Packet?
  {
    forall j: nat, k: nat :: j <= k < i && Lasts(lease, events, j, i, role) && IsMessage(events[k], 1, role) ==>
      events[k].h.sequence < events[i].h.sequence
  }

  /** It is above those of all data frames that were accepted in the tenure. */
  ghost predicate AboveData(lease: int, events: seq<Event>, i: nat, role: nat)
    requires AllSound(events) && i < |events| && events[i].Packet?
  {
    forall j: nat, k: nat :: j < k < i && Lasts(lease, events, j, i, role) && Forwards(lease, events, k, role) ==>
      events[k].h.sequence < events[i].h.sequence
  }

  // ---------- The table in terms of the events ----------

  lemma TakenIffActive(lease: int, events: seq<Event>, i: nat, role: nat)
    requires AllSound(events) && i < |events| && IsRole(role)
    ensures Taken(lease, events, i, role) <==> StateAt(lease, events, i).peers[role].active
  {
    hide StateAt, Lasts;
    if StateAt(lease, events, i).peers[role].active {
      var j, t := TenureOf(lease, events, i, role);
    }
    if j: nat :| Lasts(lease, events, j, i, role) {
      LastsIsEarlier(lease, events, j, i, role);
      WhileItLasts(lease, events, j, i, role);
    }
  }

  lemma LastsIsEarlier(lease: int, events: seq<Event>, j: nat, i: nat, role: nat)
    requires AllSound(events) && i <= |events| && Lasts(lease, events, j, i, role)
    ensures j < i && events[j].Packet? && IsMessage(events[j], 1, role) && events[j].source.Some?
  {
    hide StateAt, VerdictAt;
    BeginsIsRegister(lease, events, j, role);
  }

  lemma HeldIffFromPeer(lease: int, events: seq<Event>, i: nat, role: nat)
    requires AllSound(events) && i < |events| && events[i].Packet? && events[i].h.role == role && IsRole(role)
    ensures Held(lease, events, i, role) <==>
            FromPeer(StateAt(lease, events, i).peers, events[i].h, events[i].source)
  {
    hide StateAt, VerdictAt;
    var e := events[i];
    if FromPeer(StateAt(lease, events, i).peers, e.h, e.source) {
      var j, t := TenureOf(lease, events, i, role);
      LastsIsEarlier(lease, events, j, i, role);
      WhileItLasts(lease, events, j, i, role);
      assert SameEndpoint(events[j], e);
    }
    if j: nat :| Lasts(lease, events, j, i, role) && SameEndpoint(events[j], e) {
      LastsIsEarlier(lease, events, j, i, role);
      WhileItLasts(lease, events, j, i, role);
    }
  }

  /** What a repeated registration does, and that nothing else moves the control sequence. */
  lemma ControlStep(lease: int, events: seq<Event>, n: nat, role: nat)
    requires AllSound(events) && n < |events| && IsRole(role) && !Ends(lease, events, n, role)
    ensures var last, last' := StateAt(lease, events, n).peers[role].lastControlSequence,
                               StateAt(lease, events, n + 1).peers[role].lastControlSequence;
            if IsMessage(events[n], 1, role) && events[n].h.sequence > last
            then last' == events[n].h.sequence else last' == last
  {
    hide Add, Sent, Elapsed;
  }

  /** While a tenure lasts, the control sequence is the greatest of its registrations. */
  lemma {:induction false} ControlWhileItLasts(lease: int, events: seq<Event>, j: nat, n: nat, role: nat)
    requires AllSound(events) && n <= |events| && IsRole(role) && Lasts(lease, events, j, n, role)
    ensures var last := StateAt(lease, events, n).peers[role].lastControlSequence;
            && (forall k :: j <= k < n && IsMessage(events[k], 1, role) ==> events[k].h.sequence <= last)
            && (exists k :: j <= k < n && IsMessage(events[k], 1, role) && events[k].h.sequence == last)
  {
    hide StateAt, VerdictAt;
    var i := n - 1;
    EndpointStep(lease, events, i, role);
    if i == j {
      BeginsIsRegister(lease, events, j, role);
      assert IsMessage(events[j], 1, role);
    } else {
      ControlWhileItLasts(lease, events, j, i, role);
      ControlStep(lease, events, i, role);
    }
  }

  lemma AboveRegistrationsMeans(lease: int, events: seq<Event>, i: nat, role: nat)
    requires AllSound(events) && i < |events| && events[i].Packet? && IsRole(role) && Taken(lease, events, i, role)
    ensures AboveRegistrations(lease, events, i, role) <==>
            events[i].h.sequence > StateAt(lease, events, i).peers[role].lastControlSequence
  {
    hide StateAt, Lasts, IsMessage;
    var j: nat :| Lasts(lease, events, j, i, role);
    LastsIsEarlier(lease, events, j, i, role);
    ControlWhileItLasts(lease, events, j, i, role);
    forall j': nat | Lasts(lease, events, j', i, role)
      ensures j' == j
    {
      OneTenure(lease, events, j, j', i, role);
    }
  }

  lemma AboveDataMeans(lease: int, events: seq<Event>, i: nat, role: nat)
    requires AllSound(events) && i < |events| && events[i].Packet? && IsRole(role) && Taken(lease, events, i, role)
    ensures var peer := StateAt(lease, events, i).peers[role];
            AboveData(lease, events, i, role) <==>
            (peer.dataSequenceSet ==> events[i].h.sequence > peer.lastDataSequence)
  {
    hide StateAt, Lasts, Forwards;
    var j: nat :| Lasts(lease, events, j, i, role);
    LastsIsEarlier(lease, events, j, i, role);
    WhileItLasts(lease, events, j, i, role);
    forall j': nat | Lasts(lease, events, j', i, role)
      ensures j' == j
    {
      OneTenure(lease, events, j, j', i, role);
    }
  }

  // ---------- One step ----------

  lemma RegisterStep(lease: int, s: State, e: Event)
    requires Sound(e) && e.Packet? && IsMessage(e, 1, e.h.role)
    ensures IsRole(e.h.role)
    ensures var peer, role := s.peers[e.h.role], e.h.role;
            var t := s.totals.(packets := s.totals.packets + 1);
            Next(lease, s, e) ==
            if FromPeer(s.peers, e.h, e.source) && e.h.sequence > peer.lastControlSequence then
              State(s.peers[role := peer.(lastControlSequence := e.h.sequence, lastSeen := e.now)],
                    t.(refreshes := t.refreshes + 1), s.sent)
            else if FromPeer(s.peers, e.h, e.source) then
              State(s.peers, t.(oldSequence := t.oldSequence + 1), s.sent)
            else
              State(s.peers[role := Endpoint(e.source, e.now, e.h.sessionId, 0, e.h.sequence, true, false)],
                    t.(registrations := t.registrations + 1,
                       replacements := t.replacements + if peer.active then 1 else 0), s.sent)
    ensures Judge(lease, s.peers, e).Registered? <==> !FromPeer(s.peers, e.h, e.source)
  {
    assert s.sent + [] == s.sent;
  }

  lemma UnregisterStep(lease: int, s: State, e: Event)
    requires Sound(e) && e.Packet? && IsMessage(e, 2, e.h.role)
    ensures IsRole(e.h.role)
    ensures var peer, role := s.peers[e.h.role], e.h.role;
            var t := s.totals.(packets := s.totals.packets + 1);
            Next(lease, s, e) ==
            if FromPeer(s.peers, e.h, e.source) && e.h.sequence > peer.lastControlSequence then
              State(s.peers[role := Endpoint(None, 0, 0, 0, 0, false, false)],
                    t.(unregisters := t.unregisters + 1), s.sent)
            else
              State(s.peers, t.(unauthorized := t.unauthorized + 1), s.sent)
    ensures Judge(lease, s.peers, e) ==
            if FromPeer(s.peers, e.h, e.source) && e.h.sequence > s.peers[e.h.role].lastControlSequence
            then Unregistered else Unauthorized
  {
    assert s.sent + [] == s.sent;
  }

  // ---------- The laws ----------

  /** A registration renews the tenure that lasts exactly if it comes from its endpoint and its
      sequence is above those of all registrations of the tenure; from that endpoint with no greater
      sequence it is only counted as old; from any other it begins a new tenure. */
  lemma RegisterLaw(lease: int, events: seq<Event>, i: nat, role: nat)
    requires AllSound(events) && i < |events| && IsMessage(events[i], 1, role)
    ensures role == 1 || role == 2
    ensures var s, s', e := StateAt(lease, events, i), StateAt(lease, events, i + 1), events[i];
            var t := s.totals.(packets := s.totals.packets + 1);
            if Held(lease, events, i, role) && AboveRegistrations(lease, events, i, role) then
              s' == State(s.peers[role := s.peers[role].(lastControlSequence := e.h.sequence, lastSeen := e.now)],
                          t.(refreshes := t.refreshes + 1), s.sent)
            else if Held(lease, events, i, role) then
              s' == State(s.peers, t.(oldSequence := t.oldSequence + 1), s.sent)
            else
              s' == State(s.peers[role := Endpoint(e.source, e.now, e.h.sessionId, 0, e.h.sequence, true, false)],
                          t.(registrations := t.registrations + 1,
                             replacements := t.replacements + if Taken(lease, events, i, role) then 1 else 0), s.sent)
    ensures Begins(lease, events, i, role) <==> !Held(lease, events, i, role)
  {
    hide StateAt, Held, Taken, AboveRegistrations, Next, Judge, FromPeer;
    assert Sound(events[i]);
    RegisterStep(lease, StateAt(lease, events, i), events[i]);
    HeldIffFromPeer(lease, events, i, role);
    TakenIffActive(lease, events, i, role);
    HeldIsTaken(lease, events, i, role);
    if Taken(lease, events, i, role) {
      AboveRegistrationsMeans(lease, events, i, role);
    }
    NextIs(lease, events, i);
  }

  lemma HeldIsTaken(lease: int, events: seq<Event>, i: nat, role: nat)
    requires AllSound(events) && i < |events|
    ensures Held(lease, events, i, role) ==> Taken(lease, events, i, role)
  {
    hide Lasts, StateAt;
  }

  lemma NextIs(lease: int, events: seq<Event>, i: nat)
    requires AllSound(events) && i < |events|
    ensures StateAt(lease, events, i + 1) == Next(lease, StateAt(lease, events, i), events[i])
  {
    hide Next;
  }

  /** An unregistration ends the tenure that lasts exactly if it comes from its endpoint and its
      sequence is above those of all its registrations; otherwise it is only counted. */
  lemma UnregisterLaw(lease: int, events: seq<Event>, i: nat, role: nat)
    requires AllSound(events) && i < |events| && IsMessage(events[i], 2, role)
    ensures role == 1 || role == 2
    ensures var s, s', e := StateAt(lease, events, i), StateAt(lease, events, i + 1), events[i];
            var t := s.totals.(packets := s.totals.packets + 1);
            if Held(lease, events, i, role) && AboveRegistrations(lease, events, i, role) then
              s' == State(s.peers[role := Endpoint(None, 0, 0, 0, 0, false, false)],
                          t.(unregisters := t.unregisters + 1), s.sent)
            else
              s' == State(s.peers, t.(unauthorized := t.unauthorized + 1), s.sent)
    ensures Ends(lease, events, i, role) <==>
            Held(lease, events, i, role) && AboveRegistrations(lease, events, i, role)
  {
    hide StateAt, Held, Taken, AboveRegistrations, Next, Judge, FromPeer;
    assert Sound(events[i]);
    UnregisterStep(lease, StateAt(lease, events, i), events[i]);
    HeldIffFromPeer(lease, events, i, role);
    HeldIsTaken(lease, events, i, role);
    if Taken(lease, events, i, role) {
      AboveRegistrationsMeans(lease, events, i, role);
    }
    NextIs(lease, events, i);
  }

  /** A data frame: unauthorized unless it comes from the endpoint that holds its role; old unless it
      is above all accepted ones of the tenure; otherwise it renews the lease, and a command goes to
      the controller and a state to the guide, byte for byte, or is dropped if that role is not
      taken or the socket refuses. */
  lemma DataLaw(lease: int, events: seq<Event>, i: nat, role: nat)
    requires AllSound(events) && i < |events|
    requires IsMessage(events[i], 3, role) || IsMessage(events[i], 4, role)
    ensures role == if events[i].h.messageType == 3 then 1 else 2
    ensures var s, s', e := StateAt(lease, events, i), StateAt(lease, events, i + 1), events[i];
            var t := s.totals.(packets := s.totals.packets + 1);
            var delivered := Taken(lease, events, i, 3 - role) && !e.refused;
            if !Held(lease, events, i, role) then
              s' == State(s.peers, t.(unauthorized := t.unauthorized + 1), s.sent)
            else if !AboveData(lease, events, i, role) then
              s' == State(s.peers, t.(oldSequence := t.oldSequence + 1), s.sent)
            else
              && s'.peers == s.peers[role := s.peers[role].(lastDataSequence := e.h.sequence, dataSequenceSet := true,
                                                            lastSeen := e.now)]
              && s'.totals == t.(commands := t.commands + if role == 1 then 1 else 0,
                                 states := t.states + if role == 2 then 1 else 0,
                                 dropped := t.dropped + if delivered then 0 else 1,
                                 sequenceGaps := s'.totals.sequenceGaps)
              && |s'.sent| == |s.sent| + (if delivered then 1 else 0) && s.sent <= s'.sent
              && (delivered ==>
                    s'.sent[|s.sent|].packet == e.bytes && s.peers[3 - role].address == Some(s'.sent[|s.sent|].to))
  {
    hide StateAt, Held, Taken, AboveData;
    assert Sound(events[i]);
    HeldIffFromPeer(lease, events, i, role);
    TakenIffActive(lease, events, i, role);
    TakenIffActive(lease, events, i, 3 - role);
    if Taken(lease, events, i, role) {
      AboveDataMeans(lease, events, i, role);
    }
    ActiveHasAddress(lease, events, i);
    NextIs(lease, events, i);
    assert StateAt(lease, events, i).sent + [] == StateAt(lease, events, i).sent;
  }

  /** A packet that does not parse is only counted, twice if its checksum is wrong. */
  lemma InvalidLaw(lease: int, events: seq<Event>, i: nat)
    requires AllSound(events) && i < |events| && events[i].Packet? && events[i].validation != RelayParser.Ok
    ensures var s, s' := StateAt(lease, events, i), StateAt(lease, events, i + 1);
            s' == State(s.peers,
                        s.totals.(packets := s.totals.packets + 1, invalid := s.totals.invalid + 1,
                                  crcErrors := s.totals.crcErrors +
                                    if events[i].validation == RelayParser.CrcError then 1 else 0), s.sent)
  {
    hide StateAt;
    NextIs(lease, events, i);
    assert StateAt(lease, events, i).sent + [] == StateAt(lease, events, i).sent;
  }

  /** A tick clears and counts the endpoints whose time has run out, and does nothing else. */
  lemma TickLaw(lease: int, events: seq<Event>, i: nat)
    requires AllSound(events) && i < |events| && events[i].Tick?
    ensures var s, s', now := StateAt(lease, events, i), StateAt(lease, events, i + 1), events[i].now;
            var guide := s.peers[1].active && Elapsed(now, s.peers[1].lastSeen) > lease;
            var controller := s.peers[2].active && Elapsed(now, s.peers[2].lastSeen) > lease;
            var none := Endpoint(None, 0, 0, 0, 0, false, false);
            s' == State([s.peers[0], if guide then none else s.peers[1], if controller then none else s.peers[2]],
                        s.totals.(expirations := s.totals.expirations + (if guide then 1 else 0)
                                                                      + (if controller then 1 else 0)), s.sent)
  {
    hide StateAt, Elapsed;
    NextIs(lease, events, i);
    assert StateAt(lease, events, i).sent + [] == StateAt(lease, events, i).sent;
  }

  /** Each of the program's counters is the total of the same name, modulo 2^64. */
  lemma CountersAreTotals(r: Relay)
    requires r.Valid()
    ensures var s, c := StateAt(r.lease, r.trace, |r.trace|), r.counters;
            var t, m := s.totals, 0x1_0000_0000_0000_0000;
            && r.peers[..] == s.peers && r.sent == s.sent
            && c.commands == t.commands % m && c.states == t.states % m && c.dropped == t.dropped % m
            && c.invalid == t.invalid % m && c.crcErrors == t.crcErrors % m && c.unauthorized == t.unauthorized % m
            && c.sequenceGaps == t.sequenceGaps % m && c.oldSequence == t.oldSequence % m
            && c.registrations == t.registrations % m && c.replacements == t.replacements % m
            && c.unregisters == t.unregisters % m && c.expirations == t.expirations % m
  {
    hide StateAt;
  }

  /** `Elapsed` is the 64-bit duration closest to the true one. */
  lemma ElapsedIsClosest(now: int, since: int, other: int)
    requires -0x8000_0000_0000_0000 <= other < 0x8000_0000_0000_0000
    ensures -0x8000_0000_0000_0000 <= Elapsed(now, since) < 0x8000_0000_0000_0000
    ensures var d := now - since;
            (if d < Elapsed(now, since) then Elapsed(now, since) - d else d - Elapsed(now, since)) <=
            (if d < other then other - d else d - other)
  {
  }
}

/** The relay: two endpoints register under a lease, exchange command and state frames with rising
    sequence numbers, and are replaced, unregistered or expired.

    What every packet or maintenance tick must do is stated first, as a verdict and its effects; the
    class that changes its table and counters in place is proved against it. */
module Relay {
  import opened Words
  import Frames
  import RelayParser

  datatype Option<T> = None | Some(value: T)

  type Header = Frames.Header

  datatype Address = Address(net: string, name: string)

  datatype Endpoint = Endpoint(
    address: Option<Address>, lastSeen: int, sessionId: u64, lastDataSequence: u64,
    lastControlSequence: u64, active: bool, dataSequenceSet: bool)

  type Peers = p: seq<Endpoint> | |p| == 3 witness seq(3, _ => Vacant())

  datatype Counters = Counters(
    commands: u64, states: u64, dropped: u64, invalid: u64, crcErrors: u64, unauthorized: u64,
    sequenceGaps: u64, oldSequence: u64, registrations: u64, replacements: u64, unregisters: u64,
    expirations: u64)

  datatype Datagram = Datagram(to: Address, packet: seq<u8>)

  /** What happens to the relay: a packet arrives, with what `parsePacket` makes of it and whether
      the socket would refuse to forward it; or a maintenance tick. Times are nanoseconds. */
  datatype Event =
    | Packet(h: Header, validation: RelayParser.Validation, bytes: seq<u8>, source: Option<Address>,
             now: int, refused: bool)
    | Tick(now: int)

  const DURATION_LIMIT: int := 0x8000_0000_0000_0000

  function Vacant(): Endpoint {
    Endpoint(None, 0, 0, 0, 0, false, false)
  }

  /** `now.Sub(since)`: a `time.Duration` saturates at 64 bits. */
  function Elapsed(now: int, since: int): int {
    if now - since >= DURATION_LIMIT then DURATION_LIMIT - 1
    else if now - since < -DURATION_LIMIT then -DURATION_LIMIT
    else now - since
  }

  predicate SameAddress(left: Option<Address>, right: Option<Address>) {
    left.Some? && right.Some? && left.value.net == right.value.net && left.value.name == right.value.name
  }

  predicate IsRole(role: nat) {
    role == Frames.GUIDE || role == Frames.CONTROLLER
  }

  /** What `parsePacket` guarantees of an accepted header; and a registration has a source address,
      which the code dereferences. */
  predicate Sound(e: Event) {
    e.Packet? && e.validation == RelayParser.Ok ==>
      && IsRole(e.h.role) && e.h.sequence != 0 && e.h.sessionId != 0
      && e.h.messageType in {Frames.REGISTER, Frames.UNREGISTER, Frames.COMMAND, Frames.STATE}
      && (e.h.messageType == Frames.COMMAND ==> e.h.role == Frames.GUIDE)
      && (e.h.messageType == Frames.STATE ==> e.h.role == Frames.CONTROLLER)
      && (e.h.messageType == Frames.REGISTER ==> e.source.Some?)
  }

  predicate Registration(packet: seq<u8>) {
    var r := RelayParser.ParsePacket(packet);
    r.1 == RelayParser.Ok && r.0.messageType == Frames.REGISTER
  }

  lemma ParsedIsSound(packet: seq<u8>, source: Option<Address>, now: int, refused: bool)
    requires Registration(packet) ==> source.Some?
    ensures Sound(Packet(RelayParser.ParsePacket(packet).0, RelayParser.ParsePacket(packet).1, packet, source, now, refused))
  {
  }

  // ---------- Verdicts ----------

  datatype Verdict =
    | Invalid(crc: bool)
    | Old
    | Unauthorized
    | Refreshed
    | Registered(replaced: bool)
    | Unregistered
    | Accepted(command: bool, gap: nat, delivery: Option<Address>)
    | Expired(guide: bool, controller: bool)

  /** The packet comes from the registered endpoint of its role. */
  predicate FromPeer(peers: Peers, h: Header, source: Option<Address>)
    requires h.role < 3
  {
    var peer := peers[h.role];
    peer.active && SameAddress(peer.address, source) && peer.sessionId == h.sessionId
  }

  predicate Lapsed(lease: int, peer: Endpoint, now: int) {
    peer.active && Elapsed(now, peer.lastSeen) > lease
  }

  function Other(role: nat): nat {
    if role == Frames.GUIDE then Frames.CONTROLLER else Frames.GUIDE
  }

  function JudgeRegister(peers: Peers, h: Header, source: Option<Address>): Verdict
    requires h.role < 3
  {
    if !FromPeer(peers, h, source) then Registered(peers[h.role].active)
    else if h.sequence <= peers[h.role].lastControlSequence then Old
    else Refreshed
  }

  function JudgeUnregister(peers: Peers, h: Header, source: Option<Address>): Verdict
    requires h.role < 3
  {
    if FromPeer(peers, h, source) && h.sequence > peers[h.role].lastControlSequence then Unregistered
    else Unauthorized
  }

  /** Sequence numbers left out since the last accepted one of the tenure. */
  function Gap(peer: Endpoint, sequence: u64): nat
    requires peer.dataSequenceSet ==> peer.lastDataSequence < sequence
  {
    if peer.dataSequenceSet then sequence - peer.lastDataSequence - 1 else 0
  }

  function JudgeData(peers: Peers, h: Header, source: Option<Address>, refused: bool): Verdict
    requires IsRole(h.role)
  {
    var peer, to := peers[h.role], peers[Other(h.role)];
    if !FromPeer(peers, h, source) then Unauthorized
    else if h.sequence == 0 || (peer.dataSequenceSet && h.sequence <= peer.lastDataSequence) then Old
    else Accepted(h.messageType == Frames.COMMAND, Gap(peer, h.sequence), if to.active && !refused then to.address else None)
  }

  function Judge(lease: int, peers: Peers, e: Event): Verdict
    requires Sound(e)
  {
    if e.Tick? then
      Expired(Lapsed(lease, peers[Frames.GUIDE], e.now), Lapsed(lease, peers[Frames.CONTROLLER], e.now))
    else if e.validation != RelayParser.Ok then Invalid(e.validation == RelayParser.CrcError)
    else if e.h.messageType == Frames.REGISTER then JudgeRegister(peers, e.h, e.source)
    else if e.h.messageType == Frames.UNREGISTER then JudgeUnregister(peers, e.h, e.source)
    else JudgeData(peers, e.h, e.source, e.refused)
  }

  // ---------- Effects ----------

  function PacketEffect(peers: Peers, h: Header, source: Option<Address>, now: int, v: Verdict): Peers
    requires h.role < 3
  {
    var peer := peers[h.role];
    match v
    case Refreshed => peers[h.role := peer.(lastControlSequence := h.sequence, lastSeen := now)]
    case Registered(_) => peers[h.role := Endpoint(source, now, h.sessionId, 0, h.sequence, true, false)]
    case Unregistered => peers[h.role := Vacant()]
    case Accepted(_, _, _) =>
      peers[h.role := peer.(lastDataSequence := h.sequence, dataSequenceSet := true, lastSeen := now)]
    case _ => peers
  }

  function Effect(peers: Peers, e: Event, v: Verdict): Peers
    requires Sound(e)
  {
    match e
    case Tick(_) =>
      (match v
       case Expired(guide, controller) =>
         [peers[0], if guide then Vacant() else peers[1], if controller then Vacant() else peers[2]]
       case _ => peers)
    case Packet(h, validation, _, source, now, _) =>
      if validation == RelayParser.Ok then PacketEffect(peers, h, source, now, v) else peers
  }

  /** Running totals, which do not wrap; the last two are not kept by the program. */
  datatype Totals = Totals(
    commands: nat, states: nat, dropped: nat, invalid: nat, crcErrors: nat, unauthorized: nat,
    sequenceGaps: nat, oldSequence: nat, registrations: nat, replacements: nat, unregisters: nat,
    expirations: nat, refreshes: nat, packets: nat)

  function One(b: bool): nat {
    if b then 1 else 0
  }

  function Add(t: Totals, v: Verdict): Totals {
    Totals(
      t.commands + One(v.Accepted? && v.command),
      t.states + One(v.Accepted? && !v.command),
      t.dropped + One(v.Accepted? && v.delivery.None?),
      t.invalid + One(v.Invalid?),
      t.crcErrors + One(v.Invalid? && v.crc),
      t.unauthorized + One(v.Unauthorized?),
      t.sequenceGaps + (if v.Accepted? then v.gap else 0),
      t.oldSequence + One(v.Old?),
      t.registrations + One(v.Registered?),
      t.replacements + One(v.Registered? && v.replaced),
      t.unregisters + One(v.Unregistered?),
      t.expirations + One(v.Expired? && v.guide) + One(v.Expired? && v.controller),
      t.refreshes + One(v.Refreshed?),
      t.packets + One(!v.Expired?))
  }

  /** The same on counters that wrap. */
  function Counted(c: Counters, v: Verdict): Counters {
    Counters(
      Add64(c.commands, One(v.Accepted? && v.command)),
      Add64(c.states, One(v.Accepted? && !v.command)),
      Add64(c.dropped, One(v.Accepted? && v.delivery.None?)),
      Add64(c.invalid, One(v.Invalid?)),
      Add64(c.crcErrors, One(v.Invalid? && v.crc)),
      Add64(c.unauthorized, One(v.Unauthorized?)),
      Add64(c.sequenceGaps, if v.Accepted? then v.gap else 0),
      Add64(c.oldSequence, One(v.Old?)),
      Add64(c.registrations, One(v.Registered?)),
      Add64(c.replacements, One(v.Registered? && v.replaced)),
      Add64(c.unregisters, One(v.Unregistered?)),
      Add64(c.expirations, One(v.Expired? && v.guide) + One(v.Expired? && v.controller)))
  }

  /** The program's counters for these totals. */
  function Wrapped(t: Totals): Counters {
    Counters(Wrap64(t.commands), Wrap64(t.states), Wrap64(t.dropped), Wrap64(t.invalid),
             Wrap64(t.crcErrors), Wrap64(t.unauthorized), Wrap64(t.sequenceGaps), Wrap64(t.oldSequence),
             Wrap64(t.registrations), Wrap64(t.replacements), Wrap64(t.unregisters), Wrap64(t.expirations))
  }

  function Sent(e: Event, v: Verdict): seq<Datagram> {
    if e.Packet? && v.Accepted? && v.delivery.Some? then [Datagram(v.delivery.value, e.bytes)] else []
  }

  datatype State = State(peers: Peers, totals: Totals, sent: seq<Datagram>)

  function Start(): State {
    State([Vacant(), Vacant(), Vacant()], Totals(0, 0, 0, 0, 0, 0, 0, 0, 0, 0, 0, 0, 0, 0), [])
  }

  function Next(lease: int, s: State, e: Event): State
    requires Sound(e)
  {
    var v := Judge(lease, s.peers, e);
    State(Effect(s.peers, e, v), Add(s.totals, v), s.sent + Sent(e, v))
  }

  predicate AllSound(events: seq<Event>) {
    forall i :: 0 <= i < |events| ==> Sound(events[i])
  }

  /** The state after the first `n` events. */
  function StateAt(lease: int, events: seq<Event>, n: nat): State
    requires AllSound(events) && n <= |events|
  {
    if n == 0 then Start() else Next(lease, StateAt(lease, events, n - 1), events[n - 1])
  }

  lemma {:induction false} SamePast(lease: int, events: seq<Event>, more: seq<Event>, n: nat)
    requires AllSound(events) && AllSound(more) && n <= |events| && events <= more
    ensures StateAt(lease, events, n) == StateAt(lease, more, n)
  {
    hide Next;
    if n == 0 {
    } else {
      SamePast(lease, events, more, n - 1);
    }
  }

  /** Counters that wrap after every step are the wrapped totals. */
  lemma WrappedSum(t: Totals, v: Verdict)
    ensures Wrapped(Add(t, v)) == Counted(Wrapped(t), v)
  {
    hide One, Add64, Wrap64;
    var m := Add(t, v);
    WrapAdds(t.commands, m.commands - t.commands);
    WrapAdds(t.states, m.states - t.states);
    WrapAdds(t.dropped, m.dropped - t.dropped);
    WrapAdds(t.invalid, m.invalid - t.invalid);
    WrapAdds(t.crcErrors, m.crcErrors - t.crcErrors);
    WrapAdds(t.unauthorized, m.unauthorized - t.unauthorized);
    WrapAdds(t.sequenceGaps, m.sequenceGaps - t.sequenceGaps);
    WrapAdds(t.oldSequence, m.oldSequence - t.oldSequence);
    WrapAdds(t.registrations, m.registrations - t.registrations);
    WrapAdds(t.replacements, m.replacements - t.replacements);
    WrapAdds(t.unregisters, m.unregisters - t.unregisters);
    WrapAdds(t.expirations, m.expirations - t.expirations);
  }

  function Active(peers: Peers): nat {
    One(peers[Frames.GUIDE].active) + One(peers[Frames.CONTROLLER].active)
  }

  lemma NothingAdded()
    ensures forall x: u64 :: Add64(x, 0) == x
  {
  }

  lemma AddTwice(x: u64, a: nat, b: nat)
    ensures Add64(Add64(x, a), b) == Add64(x, a + b)
  {
    AddWraps(x + a, b);
  }

  /** Wherever the program computes them, neither `lastDataSequence + 1` nor the gap wraps, even at
      the largest sequence number. */
  lemma NextNeverWraps(last: u64, sequence: u64)
    requires last < sequence
    ensures Add64(last, 1) == last + 1
    ensures Sub64(Sub64(sequence, last), 1) == sequence - last - 1
  {
  }

  ghost predicate Addressed(peers: Peers) {
    forall role: nat :: role < 3 && peers[role].active ==> peers[role].address.Some?
  }

  lemma EffectKeepsAddresses(lease: int, peers: Peers, e: Event)
    requires Sound(e) && Addressed(peers)
    ensures Addressed(Effect(peers, e, Judge(lease, peers, e)))
  {
    hide Elapsed;
  }

  lemma {:induction false} ActiveHasAddress(lease: int, events: seq<Event>, n: nat)
    requires AllSound(events) && n <= |events|
    ensures Addressed(StateAt(lease, events, n).peers)
  {
    hide Effect, Judge, Add, Sent;
    if n == 0 {
    } else {
      ActiveHasAddress(lease, events, n - 1);
      EffectKeepsAddresses(lease, StateAt(lease, events, n - 1).peers, events[n - 1]);
    }
  }

  lemma IsLapsed(lease: int, peer: Endpoint, now: int)
    ensures Lapsed(lease, peer, now) == (peer.active && Elapsed(now, peer.lastSeen) > lease)
  {
  }

  lemma ControlVerdicts(peers: Peers, h: Header, source: Option<Address>, now: int)
    requires h.role < 3
    ensures JudgeRegister(peers, h, source) in {Old, Refreshed, Registered(true), Registered(false)}
    ensures JudgeUnregister(peers, h, source) in {Unauthorized, Unregistered}
    ensures var v := JudgeUnregister(peers, h, source);
            PacketEffect(peers, h, source, 0, v) == PacketEffect(peers, h, source, now, v)
  {
  }

  lemma DataVerdicts(peers: Peers, h: Header, source: Option<Address>, now: int, refused: bool)
    requires IsRole(h.role)
    ensures var v, to := JudgeData(peers, h, source, refused), peers[Other(h.role)];
            if v.Accepted? then
              && v.command == (h.messageType == Frames.COMMAND)
              && v.delivery == (if to.active && !refused then to.address else None)
              && PacketEffect(peers, h, source, now, v)[Other(h.role)] == to
            else v in {Old, Unauthorized}
  {
  }

  /** One more event: the new table, counters and datagrams in terms of the old ones. */
  lemma OneMore(lease: int, events: seq<Event>, e: Event)
    requires AllSound(events) && Sound(e)
    ensures AllSound(events + [e])
    ensures var s, s' := StateAt(lease, events, |events|), StateAt(lease, events + [e], |events| + 1);
            var v := Judge(lease, s.peers, e);
            && s'.peers == Effect(s.peers, e, v) && s'.sent == s.sent + Sent(e, v)
            && Wrapped(s'.totals) == Counted(Wrapped(s.totals), v)
  {
    hide Judge, Effect, Sent, Counted, Wrapped, Add;
    var more := events + [e];
    SamePast(lease, events, more, |events|);
    var s := StateAt(lease, events, |events|);
    WrappedSum(s.totals, Judge(lease, s.peers, e));
    assert StateAt(lease, more, |events| + 1) == Next(lease, StateAt(lease, more, |events|), more[|events|]);
  }

  // ---------- The program ----------

  class Relay {
    const lease: int
    const peers: array<Endpoint>
    var counters: Counters
    var sent: seq<Datagram>
    ghost var trace: seq<Event>

    ghost predicate Valid()
      reads this, peers
    {
      && peers.Length == 3 && AllSound(trace)
      && var s := StateAt(lease, trace, |trace|);
         peers[..] == s.peers && counters == Wrapped(s.totals) && sent == s.sent
    }

    constructor (lease: int)
      ensures Valid() && fresh(peers) && trace == [] && this.lease == lease
    {
      this.lease := lease;
      peers := new Endpoint[3](_ => Vacant());
      counters := Counters(0, 0, 0, 0, 0, 0, 0, 0, 0, 0, 0, 0);
      sent, trace := [], [];
      new;
      assert peers[..] == [Vacant(), Vacant(), Vacant()];
    }

    method Register(h: Header, source: Option<Address>, now: int)
      requires peers.Length == 3 && IsRole(h.role) && source.Some?
      modifies peers, this`counters
      ensures var v := JudgeRegister(old(peers[..]), h, source);
              && peers[..] == PacketEffect(old(peers[..]), h, source, now, v)
              && counters == Counted(old(counters), v)
    {
      hide Add64;
      NothingAdded();
      var peer := peers[h.role];
      if peer.active && SameAddress(peer.address, source) && peer.sessionId == h.sessionId {
        if h.sequence <= peer.lastControlSequence {
          counters := counters.(oldSequence := Add64(counters.oldSequence, 1));
          return;
        }
        peers[h.role] := peer.(lastControlSequence := h.sequence, lastSeen := now);
        return;
      }
      if peer.active {
        counters := counters.(replacements := Add64(counters.replacements, 1));
      }
      var addressCopy := Some(source.value);
      peers[h.role] := Endpoint(addressCopy, now, h.sessionId, 0, h.sequence, true, false);
      counters := counters.(registrations := Add64(counters.registrations, 1));
    }

    method Unregister(h: Header, source: Option<Address>)
      requires peers.Length == 3 && IsRole(h.role)
      modifies peers, this`counters
      ensures var v := JudgeUnregister(old(peers[..]), h, source);
              && peers[..] == PacketEffect(old(peers[..]), h, source, 0, v)
              && counters == Counted(old(counters), v)
    {
      hide Add64;
      NothingAdded();
      var peer := peers[h.role];
      if peer.active && SameAddress(peer.address, source) && peer.sessionId == h.sessionId &&
         h.sequence > peer.lastControlSequence
      {
        peers[h.role] := Vacant();
        counters := counters.(unregisters := Add64(counters.unregisters, 1));
        return;
      }
      counters := counters.(unauthorized := Add64(counters.unauthorized, 1));
    }

    /** Whether the data frame is passed on. The sum `lastDataSequence + 1` is computed on 64 bits,
        and so is the gap. */
    method AcceptData(h: Header, source: Option<Address>, now: int, ghost refused: bool) returns (ok: bool)
      requires peers.Length == 3 && IsRole(h.role)
      modifies peers, this`counters
      ensures var v := JudgeData(old(peers[..]), h, source, refused);
              && ok == v.Accepted?
              && peers[..] == PacketEffect(old(peers[..]), h, source, now, v)
              && counters == (if ok then old(counters).(sequenceGaps := Add64(old(counters.sequenceGaps), v.gap))
                              else Counted(old(counters), v))
    {
      hide Add64, Sub64;
      NothingAdded();
      var peer := peers[h.role];
      if !peer.active || !SameAddress(peer.address, source) || peer.sessionId != h.sessionId {
        counters := counters.(unauthorized := Add64(counters.unauthorized, 1));
        return false;
      }
      if h.sequence == 0 || (peer.dataSequenceSet && h.sequence <= peer.lastDataSequence) {
        counters := counters.(oldSequence := Add64(counters.oldSequence, 1));
        return false;
      }
      if peer.dataSequenceSet {
        NextNeverWraps(peer.lastDataSequence, h.sequence);
      }
      if peer.dataSequenceSet && h.sequence > Add64(peer.lastDataSequence, 1) {
        counters := counters.(sequenceGaps :=
          Add64(counters.sequenceGaps, Sub64(Sub64(h.sequence, peer.lastDataSequence), 1)));
      }
      peer := peer.(lastDataSequence := h.sequence, dataSequenceSet := true, lastSeen := now);
      peers[h.role] := peer;
      return true;
    }

    method Route(packet: seq<u8>, destination: nat, refused: bool)
      requires peers.Length == 3 && IsRole(destination)
      requires peers[destination].active ==> peers[destination].address.Some?
      modifies this`counters, this`sent
      ensures var to := peers[destination];
              if to.active && !refused
              then counters == old(counters) && sent == old(sent) + [Datagram(to.address.value, packet)]
              else counters == old(counters).(dropped := Add64(old(counters.dropped), 1)) && sent == old(sent)
    {
      var peer := peers[destination];
      if !peer.active {
        counters := counters.(dropped := Add64(counters.dropped, 1));
        return;
      }
      if refused {
        counters := counters.(dropped := Add64(counters.dropped, 1));
      } else {
        sent := sent + [Datagram(peer.address.value, packet)];
      }
    }

    /** The maintenance tick. */
    method Expire(now: int)
      requires Valid()
      modifies this, peers
      ensures Valid() && trace == old(trace) + [Tick(now)]
    {
      hide Wrapped, Add, Add64, Judge, Effect, Counted, StateAt;
      OneMore(lease, trace, Tick(now));
      ExpirePeers(now);
      trace := trace + [Tick(now)];
      assert sent + [] == sent;
    }

    method ExpirePeers(now: int)
      requires peers.Length == 3
      modifies peers, this`counters
      ensures var v := Judge(lease, old(peers[..]), Tick(now));
              && peers[..] == Effect(old(peers[..]), Tick(now), v)
              && counters == Counted(old(counters), v)
    {
      hide Add64, Lapsed, Elapsed;
      NothingAdded();
      ghost var p := peers[..];
      ghost var guide, controller := Lapsed(lease, p[1], now), Lapsed(lease, p[2], now);
      AddTwice(counters.expirations, One(guide), 1);
      for role: nat := Frames.GUIDE to Frames.CONTROLLER + 1
        invariant peers[0] == p[0]
        invariant peers[1] == if role > 1 && guide then Vacant() else p[1]
        invariant peers[2] == if role > 2 && controller then Vacant() else p[2]
        invariant counters == old(counters).(expirations :=
                    Add64(old(counters.expirations), One(role > 1 && guide) + One(role > 2 && controller)))
      {
        var peer := peers[role];
        IsLapsed(lease, peer, now);
        if peer.active && Elapsed(now, peer.lastSeen) > lease {
          peers[role] := Vacant();
          counters := counters.(expirations := Add64(counters.expirations, 1));
        }
      }
      assert peers[..] == [peers[0], peers[1], peers[2]];
    }

    method ActivePeers() returns (count: nat)
      requires peers.Length == 3
      ensures count == Active(peers[..])
      ensures count == (if peers[1].active then 1 else 0) + (if peers[2].active then 1 else 0)
    {
      count := 0;
      for role: nat := Frames.GUIDE to Frames.CONTROLLER + 1
        invariant count == One(role > 1 && peers[1].active) + One(role > 2 && peers[2].active)
      {
        if peers[role].active {
          count := count + 1;
        }
      }
    }

    /** One packet: the state follows the specification. */
    method Handle(packet: seq<u8>, source: Option<Address>, now: int, refused: bool)
      requires Valid()
      requires Registration(packet) ==> source.Some?
      modifies this, peers
      ensures Valid()
      ensures trace == old(trace) + [Packet(RelayParser.ParsePacket(packet).0, RelayParser.ParsePacket(packet).1,
                                            packet, source, now, refused)]
    {
      hide RelayParser.ParsePacket, Wrapped, Add, Add64, Judge, Effect, Sent, Counted, StateAt;
      ParsedIsSound(packet, source, now, refused);
      ghost var e := Packet(RelayParser.ParsePacket(packet).0, RelayParser.ParsePacket(packet).1,
                            packet, source, now, refused);
      OneMore(lease, trace, e);
      ActiveHasAddress(lease, trace, |trace|);
      Dispatch(packet, source, now, refused);
      trace := trace + [e];
    }

    method Dispatch(packet: seq<u8>, source: Option<Address>, now: int, refused: bool)
      requires peers.Length == 3 && Addressed(peers[..])
      requires Registration(packet) ==> source.Some?
      modifies peers, this`counters, this`sent
      ensures var r := RelayParser.ParsePacket(packet);
              var e := Packet(r.0, r.1, packet, source, now, refused);
              Sound(e) &&
              var v := Judge(lease, old(peers[..]), e);
              && peers[..] == Effect(old(peers[..]), e, v)
              && counters == Counted(old(counters), v)
              && sent == old(sent) + Sent(e, v)
    {
      hide RelayParser.ParsePacket, Add64, JudgeRegister, JudgeUnregister, JudgeData, PacketEffect;
      ParsedIsSound(packet, source, now, refused);
      NothingAdded();
      var r := RelayParser.ParsePacket(packet);
      var h, validation := r.0, r.1;
      if validation == RelayParser.Ok {
        ControlVerdicts(peers[..], h, source, now);
        DataVerdicts(peers[..], h, source, now, refused);
      }
      assert sent + [] == sent;
      if validation != RelayParser.Ok {
        counters := counters.(invalid := Add64(counters.invalid, 1));
        if validation == RelayParser.CrcError {
          counters := counters.(crcErrors := Add64(counters.crcErrors, 1));
        }
      } else if h.messageType == Frames.REGISTER {
        Register(h, source, now);
      } else if h.messageType == Frames.UNREGISTER {
        Unregister(h, source);
      } else if h.messageType == Frames.COMMAND {
        var ok := AcceptData(h, source, now, refused);
        if ok {
          Route(packet, Frames.CONTROLLER, refused);
          counters := counters.(commands := Add64(counters.commands, 1));
        }
      } else if h.messageType == Frames.STATE {
        var ok := AcceptData(h, source, now, refused);
        if ok {
          Route(packet, Frames.GUIDE, refused);
          counters := counters.(states := Add64(counters.states, 1));
        }
      }
    }
  }
}

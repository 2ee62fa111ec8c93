/** The relay's own validator, written independently in Go, and its agreement with the C++
    decoders. */
module RelayParser {
  import opened Words
  import opened Crc32c
  import opened Frames

  datatype Validation =
    Ok | SizeError | MagicError | VersionError | FlagsError | TypeError | RoleError | PayloadError | CrcError

  datatype Contract = Contract(payload: u32, role: u8, known: bool)

  /** Payload size and role that each message type demands; role 0 means any. */
  function MessageContract(messageType: u8): Contract {
    if messageType == REGISTER || messageType == UNREGISTER then Contract(0, 0, true)
    else if messageType == COMMAND then Contract(COMMAND_PAYLOAD, GUIDE, true)
    else if messageType == STATE then Contract(STATE_PAYLOAD, CONTROLLER, true)
    else Contract(0, 0, false)
  }

  function NoHeader(): Header {
    Header(0, 0, 0, 0, 0)
  }

  function ParsePacket(packet: seq<u8>): (r: (Header, Validation))
    ensures r.1 == Ok ==> |packet| >= CONTROL_SIZE && r.0 == HeaderOf(packet)
  {
    if |packet| < CONTROL_SIZE then (NoHeader(), SizeError)
    else if GetU32(packet, 0) != MAGIC then (NoHeader(), MagicError)
    else if packet[4] != VERSION then (NoHeader(), VersionError)
    else if packet[7] != 0 then (NoHeader(), FlagsError)
    else
      var h := HeaderOf(packet);
      if !ValidRole(h.role) then (NoHeader(), RoleError)
      else
        var contract := MessageContract(h.messageType);
        if !contract.known then (NoHeader(), TypeError)
        else if (contract.role != 0 && h.role != contract.role) || GetU32(packet, 8) != contract.payload ||
                |packet| != HEADER_SIZE + contract.payload + CRC_SIZE
        then (NoHeader(), PayloadError)
        else if !Passes(packet) then (NoHeader(), CrcError)
        else if h.sequence == 0 || h.sessionId == 0 then (NoHeader(), PayloadError)
        else (h, Ok)
  }

  /** The relay accepts a byte string as a command exactly when the C++ decoder does and neither
      its sequence number nor its session is zero; likewise for states. */
  lemma AgreesWithDecoders(packet: seq<u8>)
    ensures ParsePacket(packet).1 == Ok && ParsePacket(packet).0.messageType == COMMAND
            <==> AcceptsCommand(packet) && CommandOf(packet).header.sequence != 0 &&
                 CommandOf(packet).header.sessionId != 0
    ensures ParsePacket(packet).1 == Ok && ParsePacket(packet).0.messageType == STATE
            <==> AcceptsState(packet) && StateOf(packet).header.sequence != 0 &&
                 StateOf(packet).header.sessionId != 0
  {
    hide LittleEndian, Value, Checksum, WordsOf, CommandsOf, StatesOf;
  }

  /** What the relay accepts is exactly what the C++ encoders write: every accepted packet is the
      image of one control, command or state frame with nonzero sequence and session. */
  lemma AcceptedPacketsAreImages(packet: seq<u8>)
    ensures ParsePacket(packet).1 == Ok <==>
            |packet| >= HEADER_SIZE &&
            HeaderOf(packet).sequence != 0 && HeaderOf(packet).sessionId != 0 &&
            ((HeaderOf(packet).messageType in {REGISTER, UNREGISTER} &&
              ValidRole(HeaderOf(packet).role) && packet == ControlImage(HeaderOf(packet))) ||
             (exists f: CommandFrame ::
                f.header.messageType == COMMAND && f.header.role == GUIDE && packet == CommandImage(f)) ||
             (exists f: StateFrame ::
                f.header.messageType == STATE && f.header.role == CONTROLLER && packet == StateImage(f)))
  {
    hide LittleEndian, Value, Checksum, CommandImage, StateImage, CommandOf, StateOf, ControlImage;
    if ParsePacket(packet).1 == Ok {
      AgreesWithDecoders(packet);
      if AcceptsCommand(packet) {
        AcceptedCommandIsImage(packet);
      } else if AcceptsState(packet) {
        AcceptedStateIsImage(packet);
      } else {
        ControlIsImage(packet);
      }
    }
    if |packet| >= HEADER_SIZE && packet == ControlImage(HeaderOf(packet)) &&
       HeaderOf(packet).messageType in {REGISTER, UNREGISTER} && ValidRole(HeaderOf(packet).role) &&
       HeaderOf(packet).sequence != 0 && HeaderOf(packet).sessionId != 0
    {
      ControlIsAccepted(HeaderOf(packet));
    }
    forall f: CommandFrame |
      f.header.messageType == COMMAND && f.header.role == GUIDE && packet == CommandImage(f)
      ensures AcceptsCommand(packet) && CommandOf(packet) == f
    {
      CommandRoundTrip(f);
    }
    forall f: StateFrame |
      f.header.messageType == STATE && f.header.role == CONTROLLER && packet == StateImage(f)
      ensures AcceptsState(packet) && StateOf(packet) == f
    {
      StateRoundTrip(f);
    }
    if |packet| == COMMAND_SIZE {
      HeaderOfFrames(packet);
    }
    if |packet| == STATE_SIZE {
      HeaderOfFrames(packet);
    }
    AgreesWithDecoders(packet);
  }

  lemma HeaderOfFrames(packet: seq<u8>)
    ensures |packet| == COMMAND_SIZE ==> CommandOf(packet).header == HeaderOf(packet)
    ensures |packet| == STATE_SIZE ==> StateOf(packet).header == HeaderOf(packet)
  {
  }

  lemma ControlIsImage(packet: seq<u8>)
    requires ParsePacket(packet).1 == Ok
    requires HeaderOf(packet).messageType in {REGISTER, UNREGISTER}
    ensures packet == ControlImage(HeaderOf(packet))
  {
    hide LittleEndian, Value, Checksum;
    PassesIsSealed(packet);
    HeaderWritesBack(packet);
  }

  lemma ControlIsAccepted(h: Header)
    requires h.messageType in {REGISTER, UNREGISTER} && ValidRole(h.role)
    requires h.sequence != 0 && h.sessionId != 0
    ensures ParsePacket(ControlImage(h)) == (h, Ok)
  {
    hide LittleEndian, Value, Checksum;
    SealedPasses(HeaderImage(h, 0));
    HeaderReadsBack(ControlImage(h), h, 0);
  }
}

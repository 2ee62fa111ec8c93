/** The fixed-size frames of the motor protocol, as the C++ endpoints write and read them.

    Every multi-byte field is little-endian; floating-point fields are carried as their bit
    patterns. A frame is a 36-byte header, a payload of 32-bit words and a CRC32C trailer. */
module Frames {
  import opened Words
  import opened Crc32c

  const MAGIC: u32 := 0x4731534D
  const VERSION: u8 := 2
  const JOINTS: nat := 12
  const HEADER_SIZE: nat := 36
  const CRC_SIZE: nat := 4
  const COMMAND_PAYLOAD: u32 := 288
  const STATE_PAYLOAD: u32 := 240
  const CONTROL_SIZE: nat := 40
  const COMMAND_SIZE: nat := 328
  const STATE_SIZE: nat := 280

  const REGISTER: u8 := 1
  const UNREGISTER: u8 := 2
  const COMMAND: u8 := 3
  const STATE: u8 := 4

  const GUIDE: u8 := 1
  const CONTROLLER: u8 := 2

  datatype DecodeError =
    NoError | BadSize | BadMagic | BadVersion | BadFlags | BadType | BadRole | BadPayloadSize | BadCrc

  /** `MessageType` and `Role` are byte-sized enumerations that any byte can be cast to. */
  datatype Header =
    Header(messageType: u8, role: u8, sequence: u64, timestampNs: u64, sessionId: u64)

  datatype MotorCommand = MotorCommand(mode: u32, q: u32, dq: u32, tau: u32, kp: u32, kd: u32)
  datatype MotorState = MotorState(mode: u32, q: u32, dq: u32, ddq: u32, tauEst: u32)

  type CommandMotors = m: seq<MotorCommand> | |m| == 12
    witness seq(12, _ => MotorCommand(0, 0, 0, 0, 0, 0))
  type StateMotors = m: seq<MotorState> | |m| == 12
    witness seq(12, _ => MotorState(0, 0, 0, 0, 0))

  datatype CommandFrame = CommandFrame(header: Header, motors: CommandMotors)
  datatype StateFrame = StateFrame(header: Header, motors: StateMotors)

  predicate ValidRole(role: u8) {
    role == GUIDE || role == CONTROLLER
  }

  predicate ValidType(messageType: u8) {
    messageType == REGISTER || messageType == UNREGISTER || messageType == COMMAND || messageType == STATE
  }

  // ---------- What frames look like on the wire ----------

  function HeaderImage(h: Header, payloadSize: u32): (s: seq<u8>)
    ensures |s| == HEADER_SIZE
  {
    LittleEndian(MAGIC, 4) + [VERSION, h.messageType, h.role, 0] + LittleEndian(payloadSize, 4)
    + LittleEndian(h.sequence, 8) + LittleEndian(h.timestampNs, 8) + LittleEndian(h.sessionId, 8)
  }

  function WordsImage(words: seq<u32>): (s: seq<u8>)
    ensures |s| == 4 * |words|
  {
    if words == [] then [] else LittleEndian(words[0], 4) + WordsImage(words[1..])
  }

  function Sealed(body: seq<u8>): (s: seq<u8>)
    ensures |s| == |body| + CRC_SIZE
  {
    body + LittleEndian(Checksum(body), 4)
  }

  function CommandWords(m: MotorCommand): (words: seq<u32>)
    ensures |words| == 6
  {
    [m.mode, m.q, m.dq, m.tau, m.kp, m.kd]
  }

  function StateWords(m: MotorState): (words: seq<u32>)
    ensures |words| == 5
  {
    [m.mode, m.q, m.dq, m.ddq, m.tauEst]
  }

  function AllCommandWords(motors: seq<MotorCommand>): (words: seq<u32>)
    ensures |words| == 6 * |motors|
  {
    if motors == [] then [] else CommandWords(motors[0]) + AllCommandWords(motors[1..])
  }

  function AllStateWords(motors: seq<MotorState>): (words: seq<u32>)
    ensures |words| == 5 * |motors|
  {
    if motors == [] then [] else StateWords(motors[0]) + AllStateWords(motors[1..])
  }

  function ControlImage(h: Header): (s: seq<u8>)
    ensures |s| == CONTROL_SIZE
  {
    Sealed(HeaderImage(h, 0))
  }

  function CommandImage(f: CommandFrame): (s: seq<u8>)
    ensures |s| == COMMAND_SIZE
  {
    Sealed(HeaderImage(f.header, COMMAND_PAYLOAD) + WordsImage(AllCommandWords(f.motors)))
  }

  function StateImage(f: StateFrame): (s: seq<u8>)
    ensures |s| == STATE_SIZE
  {
    Sealed(HeaderImage(f.header, STATE_PAYLOAD) + WordsImage(AllStateWords(f.motors)))
  }

  // ---------- What a byte string says ----------

  function HeaderOf(s: seq<u8>): Header
    requires |s| >= HEADER_SIZE
  {
    Header(s[5], s[6], GetU64(s, 12), GetU64(s, 20), GetU64(s, 28))
  }

  function WordsOf(s: seq<u8>, n: nat): (words: seq<u32>)
    requires |s| == 4 * n
    ensures |words| == n
    decreases n
  {
    if n == 0 then [] else [GetU32(s, 0)] + WordsOf(s[4..], n - 1)
  }

  function CommandsOf(words: seq<u32>, n: nat): (motors: seq<MotorCommand>)
    requires |words| == 6 * n
    ensures |motors| == n
    decreases n
  {
    if n == 0 then []
    else [MotorCommand(words[0], words[1], words[2], words[3], words[4], words[5])] + CommandsOf(words[6..], n - 1)
  }

  function StatesOf(words: seq<u32>, n: nat): (motors: seq<MotorState>)
    requires |words| == 5 * n
    ensures |motors| == n
    decreases n
  {
    if n == 0 then []
    else [MotorState(words[0], words[1], words[2], words[3], words[4])] + StatesOf(words[5..], n - 1)
  }

  /** The first test of `decodeHeader` that a byte string fails. */
  function HeaderError(s: seq<u8>): DecodeError {
    if |s| < CONTROL_SIZE then BadSize
    else if GetU32(s, 0) != MAGIC then BadMagic
    else if s[4] != VERSION then BadVersion
    else if s[7] != 0 then BadFlags
    else if !ValidType(s[5]) then BadType
    else if !ValidRole(s[6]) then BadRole
    else if |s| != HEADER_SIZE + GetU32(s, 8) + CRC_SIZE then BadPayloadSize
    else if !Passes(s) then BadCrc
    else NoError
  }

  /** What a decoder for one kind of frame makes of a byte string. */
  function FrameError(s: seq<u8>, messageType: u8, role: u8, size: nat): DecodeError {
    var e := HeaderError(s);
    if e != NoError then e
    else if s[5] != messageType || s[6] != role then BadType
    else if |s| != size then BadPayloadSize
    else NoError
  }

  predicate AcceptsCommand(s: seq<u8>) {
    FrameError(s, COMMAND, GUIDE, COMMAND_SIZE) == NoError
  }

  predicate AcceptsState(s: seq<u8>) {
    FrameError(s, STATE, CONTROLLER, STATE_SIZE) == NoError
  }

  function CommandOf(s: seq<u8>): CommandFrame
    requires |s| == COMMAND_SIZE
  {
    CommandFrame(HeaderOf(s), CommandsOf(WordsOf(s[36..324], 72), 12))
  }

  function StateOf(s: seq<u8>): StateFrame
    requires |s| == STATE_SIZE
  {
    StateFrame(HeaderOf(s), StatesOf(WordsOf(s[36..276], 60), 12))
  }

  // ---------- Images and meanings are inverse to each other ----------

  lemma {:induction false} WordsOfImage(words: seq<u32>)
    ensures WordsOf(WordsImage(words), |words|) == words
  {
    if words == [] {
    } else {
      var image := WordsImage(words);
      assert image[0..4] == LittleEndian(words[0], 4);
      assert image[4..] == WordsImage(words[1..]);
      GetU32Is(image, 0, words[0]);
      WordsOfImage(words[1..]);
    }
  }

  lemma {:induction false} ImageOfWords(s: seq<u8>, n: nat)
    requires |s| == 4 * n
    ensures WordsImage(WordsOf(s, n)) == s
    decreases n
  {
    if n == 0 {
    } else {
      GetU32Image(s, 0);
      ImageOfWords(s[4..], n - 1);
      assert WordsOf(s, n)[1..] == WordsOf(s[4..], n - 1);
      assert s == s[0..4] + s[4..];
    }
  }

  lemma {:induction false} CommandsOfWords(motors: seq<MotorCommand>)
    ensures CommandsOf(AllCommandWords(motors), |motors|) == motors
  {
    if motors == [] {
    } else {
      CommandsOfWords(motors[1..]);
      assert AllCommandWords(motors)[6..] == AllCommandWords(motors[1..]);
    }
  }

  lemma WordsOfOne(words: seq<u32>)
    requires |words| >= 6
    ensures CommandWords(MotorCommand(words[0], words[1], words[2], words[3], words[4], words[5])) == words[..6]
  {
  }

  lemma {:induction false} WordsOfCommands(words: seq<u32>, n: nat)
    requires |words| == 6 * n
    ensures AllCommandWords(CommandsOf(words, n)) == words
    decreases n
  {
    hide CommandWords;
    if n == 0 {
    } else {
      WordsOfCommands(words[6..], n - 1);
      WordsOfOne(words);
      assert CommandsOf(words, n)[1..] == CommandsOf(words[6..], n - 1);
      assert words == words[..6] + words[6..];
    }
  }

  lemma {:induction false} StatesOfWords(motors: seq<MotorState>)
    ensures StatesOf(AllStateWords(motors), |motors|) == motors
  {
    if motors == [] {
    } else {
      StatesOfWords(motors[1..]);
      assert AllStateWords(motors)[5..] == AllStateWords(motors[1..]);
    }
  }

  lemma {:induction false} WordsOfStates(words: seq<u32>, n: nat)
    requires |words| == 5 * n
    ensures AllStateWords(StatesOf(words, n)) == words
    decreases n
  {
    if n == 0 {
    } else {
      WordsOfStates(words[5..], n - 1);
      assert StatesOf(words, n)[1..] == StatesOf(words[5..], n - 1);
      assert StateWords(StatesOf(words, n)[0]) == words[..5];
      assert words == words[..5] + words[5..];
    }
  }

  /** Any frame that starts with the image of a header reads back as that header. */
  lemma HeaderReadsBack(s: seq<u8>, h: Header, payloadSize: u32)
    requires |s| >= HEADER_SIZE && s[..HEADER_SIZE] == HeaderImage(h, payloadSize)
    ensures HeaderOf(s) == h
    ensures GetU32(s, 0) == MAGIC && s[4] == VERSION && s[7] == 0 && GetU32(s, 8) == payloadSize
  {
    hide LittleEndian, Value;
    var image := HeaderImage(h, payloadSize);
    assert s[0..4] == image[0..4] == LittleEndian(MAGIC, 4);
    assert s[8..12] == image[8..12] == LittleEndian(payloadSize, 4);
    assert s[12..20] == image[12..20] == LittleEndian(h.sequence, 8);
    assert s[20..28] == image[20..28] == LittleEndian(h.timestampNs, 8);
    assert s[28..36] == image[28..36] == LittleEndian(h.sessionId, 8);
    assert forall i :: 4 <= i < 8 ==> s[i] == image[i];
    GetU32Is(s, 0, MAGIC);
    GetU32Is(s, 8, payloadSize);
    GetU64Is(s, 12, h.sequence);
    GetU64Is(s, 20, h.timestampNs);
    GetU64Is(s, 28, h.sessionId);
  }

  /** Conversely, a string with the right fixed fields starts with the image of what it says. */
  lemma HeaderWritesBack(s: seq<u8>)
    requires |s| >= HEADER_SIZE && GetU32(s, 0) == MAGIC && s[4] == VERSION && s[7] == 0
    ensures s[..HEADER_SIZE] == HeaderImage(HeaderOf(s), GetU32(s, 8))
  {
    hide LittleEndian, Value;
    var h := HeaderOf(s);
    GetU32Image(s, 0);
    GetU32Image(s, 8);
    GetU64Image(s, 12);
    GetU64Image(s, 20);
    GetU64Image(s, 28);
    assert s[4..8] == [VERSION, h.messageType, h.role, 0];
    assert s[..36] == s[0..4] + s[4..8] + s[8..12] + s[12..20] + s[20..28] + s[28..36];
  }

  lemma SealedPasses(body: seq<u8>)
    ensures Passes(Sealed(body)) && Sealed(body)[..|body|] == body
  {
    hide LittleEndian, Checksum, Value;
    var s := Sealed(body);
    assert s[..|body|] == body;
    assert s[|body|..|body| + 4] == LittleEndian(Checksum(body), 4);
    GetU32Is(s, |body|, Checksum(body));
  }

  lemma PassesIsSealed(s: seq<u8>)
    requires Passes(s)
    ensures s == Sealed(s[..|s| - 4])
  {
    hide LittleEndian, Checksum, Value;
    var n := |s| - 4;
    GetU32Image(s, n);
    assert s == s[..n] + s[n..n + 4];
  }

  /** The command decoder accepts exactly the images of guide commands, and reads back the frame
      that was written. */
  lemma CommandRoundTrip(f: CommandFrame)
    ensures AcceptsCommand(CommandImage(f)) <==>
            f.header.messageType == COMMAND && f.header.role == GUIDE
    ensures CommandOf(CommandImage(f)) == f
  {
    hide LittleEndian, Checksum, Value, HeaderImage, WordsImage, WordsOf, CommandsOf, AllCommandWords;
    var s := CommandImage(f);
    var head, payload := HeaderImage(f.header, COMMAND_PAYLOAD), WordsImage(AllCommandWords(f.motors));
    SealedPasses(head + payload);
    assert s[..HEADER_SIZE] == head && s[36..324] == payload;
    HeaderReadsBack(s, f.header, COMMAND_PAYLOAD);
    WordsOfImage(AllCommandWords(f.motors));
    CommandsOfWords(f.motors);
  }

  lemma AcceptedCommandIsImage(s: seq<u8>)
    requires AcceptsCommand(s)
    ensures CommandImage(CommandOf(s)) == s
    ensures CommandOf(s).header.messageType == COMMAND && CommandOf(s).header.role == GUIDE
  {
    hide LittleEndian, Checksum, Value, HeaderImage, WordsImage, WordsOf, CommandsOf, AllCommandWords;
    PassesIsSealed(s);
    HeaderWritesBack(s);
    ImageOfWords(s[36..324], 72);
    WordsOfCommands(WordsOf(s[36..324], 72), 12);
    assert s[..324] == s[..36] + s[36..324];
  }

  lemma StateRoundTrip(f: StateFrame)
    ensures AcceptsState(StateImage(f)) <==>
            f.header.messageType == STATE && f.header.role == CONTROLLER
    ensures StateOf(StateImage(f)) == f
  {
    hide LittleEndian, Checksum, Value, HeaderImage, WordsImage, WordsOf, StatesOf, AllStateWords;
    var s := StateImage(f);
    var head, payload := HeaderImage(f.header, STATE_PAYLOAD), WordsImage(AllStateWords(f.motors));
    SealedPasses(head + payload);
    assert s[..HEADER_SIZE] == head && s[36..276] == payload;
    HeaderReadsBack(s, f.header, STATE_PAYLOAD);
    WordsOfImage(AllStateWords(f.motors));
    StatesOfWords(f.motors);
  }

  lemma AcceptedStateIsImage(s: seq<u8>)
    requires AcceptsState(s)
    ensures StateImage(StateOf(s)) == s
    ensures StateOf(s).header.messageType == STATE && StateOf(s).header.role == CONTROLLER
  {
    hide LittleEndian, Checksum, Value, HeaderImage, WordsImage, WordsOf, StatesOf, AllStateWords;
    PassesIsSealed(s);
    HeaderWritesBack(s);
    ImageOfWords(s[36..276], 60);
    WordsOfStates(WordsOf(s[36..276], 60), 12);
    assert s[..276] == s[..36] + s[36..276];
  }
}

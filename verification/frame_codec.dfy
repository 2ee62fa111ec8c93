/** `encodeHeader`, `encodeFrame`, `decodeFrame` and their companions: the routines that fill an
    output buffer with a moving offset and the ones that assign a frame field by field. */
module FrameCodec {
  import opened Words
  import opened Frames
  import Crc32c

  // ---------- Encoders ----------

  method EncodeHeader(header: Header, payloadSize: u32, output: array<u8>)
    requires output.Length >= HEADER_SIZE
    modifies output
    ensures output[..HEADER_SIZE] == HeaderImage(header, payloadSize)
    ensures forall k :: HEADER_SIZE <= k < output.Length ==> output[k] == old(output[k])
  {
    hide LittleEndian;
    PutU32(output, 0, MAGIC);
    output[4] := VERSION;
    output[5] := header.messageType;
    output[6] := header.role;
    output[7] := 0;
    assert output[..8] == LittleEndian(MAGIC, 4) + [VERSION, header.messageType, header.role, 0] by {
      assert output[..8] == output[..4] + [output[4], output[5], output[6], output[7]];
    }
    PutU32(output, 8, payloadSize);
    PutU64(output, 12, header.sequence);
    PutU64(output, 20, header.timestampNs);
    PutU64(output, 28, header.sessionId);
  }

  /** Appends the checksum of everything written so far. */
  method Seal(output: array<u8>, offset: nat)
    requires offset + CRC_SIZE <= output.Length
    modifies output
    ensures output[..offset + CRC_SIZE] == Sealed(old(output[..offset]))
    ensures forall k :: offset + CRC_SIZE <= k < output.Length ==> output[k] == old(output[k])
  {
    var crc := Crc32c.Compute(output[..offset]);
    PutU32(output, offset, crc);
  }

  method EncodeControlPacket(header: Header, output: array<u8>, written: nat)
    returns (ok: bool, written': nat)
    modifies output
    ensures ok <==> output.Length >= 40 && (header.messageType == 1 || header.messageType == 2)
    ensures ok ==> written' == CONTROL_SIZE && output[..CONTROL_SIZE] == ControlImage(header) &&
                   output[CONTROL_SIZE..] == old(output[CONTROL_SIZE..])
    ensures !ok ==> written' == written && output[..] == old(output[..])
  {
    if output.Length < CONTROL_SIZE ||
       (header.messageType != REGISTER && header.messageType != UNREGISTER)
    {
      return false, written;
    }
    EncodeHeader(header, 0, output);
    Seal(output, HEADER_SIZE);
    return true, CONTROL_SIZE;
  }

  method EncodeCommand(frame: CommandFrame, output: array<u8>, written: nat)
    returns (ok: bool, written': nat)
    modifies output
    ensures ok <==> output.Length >= 328
    ensures ok ==> written' == COMMAND_SIZE && output[..COMMAND_SIZE] == CommandImage(frame) &&
                   output[COMMAND_SIZE..] == old(output[COMMAND_SIZE..])
    ensures !ok ==> written' == written && output[..] == old(output[..])
  {
    hide LittleEndian, Crc32c.Checksum, HeaderImage;
    if output.Length < COMMAND_SIZE {
      return false, written;
    }
    EncodeHeader(frame.header, COMMAND_PAYLOAD, output);
    var offset := HEADER_SIZE;
    ghost var head := output[..HEADER_SIZE];
    for i := 0 to JOINTS
      invariant offset == HEADER_SIZE + 24 * i
      invariant output[..offset] == head + WordsImage(AllCommandWords(frame.motors[..i]))
      invariant forall k :: COMMAND_SIZE <= k < output.Length ==> output[k] == old(output[k])
    {
      var motor := frame.motors[i];
      PutCommand(motor, output, offset);
      OneMoreCommand(frame.motors, i);
      offset := offset + 24;
    }
    assert frame.motors[..12] == frame.motors;
    Seal(output, offset);
    return true, COMMAND_SIZE;
  }

  /** The body of the encoding loop. */
  method PutCommand(motor: MotorCommand, output: array<u8>, offset: nat)
    requires offset + 24 <= output.Length
    modifies output
    ensures output[..offset + 24] == old(output[..offset]) + WordsImage(CommandWords(motor))
    ensures forall k :: offset + 24 <= k < output.Length ==> output[k] == old(output[k])
  {
    hide WordsImage;
    ghost var start, words := output[..offset], CommandWords(motor);
    NoWords();
    assert words[..0] == [] && words[..6] == words;
    PutWord(motor.mode, output, offset, start, words, 0);
    PutWord(motor.q, output, offset + 4, start, words, 1);
    PutWord(motor.dq, output, offset + 8, start, words, 2);
    PutWord(motor.tau, output, offset + 12, start, words, 3);
    PutWord(motor.kp, output, offset + 16, start, words, 4);
    PutWord(motor.kd, output, offset + 20, start, words, 5);
  }

  /** `putU32`, and `putFloat` on a bit pattern: one more word of the payload. */
  method PutWord(word: u32, output: array<u8>, at: nat, ghost start: seq<u8>, ghost words: seq<u32>, ghost i: nat)
    requires at + 4 <= output.Length
    requires i < |words| && words[i] == word
    requires output[..at] == start + WordsImage(words[..i])
    modifies output
    ensures output[..at + 4] == start + WordsImage(words[..i + 1])
    ensures forall k :: at + 4 <= k < output.Length ==> output[k] == old(output[k])
  {
    hide LittleEndian;
    PutU32(output, at, word);
    assert words[..i + 1] == words[..i] + [word];
    WordsImageConcat(words[..i], [word]);
    assert WordsImage([word]) == LittleEndian(word, 4) + WordsImage([]);
    assert output[..at + 4] == start + (WordsImage(words[..i]) + WordsImage([word]));
  }

  lemma NoWords()
    ensures WordsImage([]) == []
  {
  }

  lemma {:induction false} WordsImageConcat(x: seq<u32>, y: seq<u32>)
    ensures WordsImage(x + y) == WordsImage(x) + WordsImage(y)
  {
    if x == [] {
      assert x + y == y;
    } else {
      assert (x + y)[1..] == x[1..] + y;
      WordsImageConcat(x[1..], y);
    }
  }

  lemma {:induction false} CommandWordsConcat(x: seq<MotorCommand>, y: seq<MotorCommand>)
    ensures AllCommandWords(x + y) == AllCommandWords(x) + AllCommandWords(y)
  {
    if x == [] {
      assert x + y == y;
    } else {
      assert (x + y)[1..] == x[1..] + y;
      CommandWordsConcat(x[1..], y);
    }
  }

  lemma {:induction false} StateWordsConcat(x: seq<MotorState>, y: seq<MotorState>)
    ensures AllStateWords(x + y) == AllStateWords(x) + AllStateWords(y)
  {
    if x == [] {
      assert x + y == y;
    } else {
      assert (x + y)[1..] == x[1..] + y;
      StateWordsConcat(x[1..], y);
    }
  }

  lemma OneMoreCommand(motors: seq<MotorCommand>, i: nat)
    requires i < |motors|
    ensures WordsImage(AllCommandWords(motors[..i + 1])) ==
            WordsImage(AllCommandWords(motors[..i])) + WordsImage(CommandWords(motors[i]))
  {
    assert motors[..i + 1] == motors[..i] + [motors[i]];
    CommandWordsConcat(motors[..i], [motors[i]]);
    assert AllCommandWords([motors[i]]) == CommandWords(motors[i]) + AllCommandWords([]);
    assert AllCommandWords([motors[i]]) == CommandWords(motors[i]);
    WordsImageConcat(AllCommandWords(motors[..i]), CommandWords(motors[i]));
  }

  lemma OneMoreState(motors: seq<MotorState>, i: nat)
    requires i < |motors|
    ensures WordsImage(AllStateWords(motors[..i + 1])) ==
            WordsImage(AllStateWords(motors[..i])) + WordsImage(StateWords(motors[i]))
  {
    assert motors[..i + 1] == motors[..i] + [motors[i]];
    StateWordsConcat(motors[..i], [motors[i]]);
    assert AllStateWords([motors[i]]) == StateWords(motors[i]) + AllStateWords([]);
    assert AllStateWords([motors[i]]) == StateWords(motors[i]);
    WordsImageConcat(AllStateWords(motors[..i]), StateWords(motors[i]));
  }

  method EncodeState(frame: StateFrame, output: array<u8>, written: nat)
    returns (ok: bool, written': nat)
    modifies output
    ensures ok <==> output.Length >= 280
    ensures ok ==> written' == STATE_SIZE && output[..STATE_SIZE] == StateImage(frame) &&
                   output[STATE_SIZE..] == old(output[STATE_SIZE..])
    ensures !ok ==> written' == written && output[..] == old(output[..])
  {
    hide LittleEndian, Crc32c.Checksum, HeaderImage;
    if output.Length < STATE_SIZE {
      return false, written;
    }
    EncodeHeader(frame.header, STATE_PAYLOAD, output);
    var offset := HEADER_SIZE;
    ghost var head := output[..HEADER_SIZE];
    for i := 0 to JOINTS
      invariant offset == HEADER_SIZE + 20 * i
      invariant output[..offset] == head + WordsImage(AllStateWords(frame.motors[..i]))
      invariant forall k :: STATE_SIZE <= k < output.Length ==> output[k] == old(output[k])
    {
      var motor := frame.motors[i];
      PutState(motor, output, offset);
      OneMoreState(frame.motors, i);
      offset := offset + 20;
    }
    assert frame.motors[..12] == frame.motors;
    Seal(output, offset);
    return true, STATE_SIZE;
  }

  method PutState(motor: MotorState, output: array<u8>, offset: nat)
    requires offset + 20 <= output.Length
    modifies output
    ensures output[..offset + 20] == old(output[..offset]) + WordsImage(StateWords(motor))
    ensures forall k :: offset + 20 <= k < output.Length ==> output[k] == old(output[k])
  {
    hide WordsImage;
    ghost var start, words := output[..offset], StateWords(motor);
    NoWords();
    assert words[..0] == [] && words[..5] == words;
    PutWord(motor.mode, output, offset, start, words, 0);
    PutWord(motor.q, output, offset + 4, start, words, 1);
    PutWord(motor.dq, output, offset + 8, start, words, 2);
    PutWord(motor.ddq, output, offset + 12, start, words, 3);
    PutWord(motor.tauEst, output, offset + 16, start, words, 4);
  }

  // ---------- Decoders ----------

  /** The caller's header after the call: overwritten as far as the checks got. */
  function HeaderAfter(input: seq<u8>, header: Header): Header {
    match HeaderError(input)
    case NoError => HeaderOf(input)
    case BadSize => header
    case BadMagic => header
    case BadVersion => header
    case BadFlags => header
    case _ => header.(messageType := input[5], role := input[6])
  }

  method DecodeHeader(input: seq<u8>, header: Header, payloadSize: u32)
    returns (ok: bool, header': Header, payloadSize': u32, error: DecodeError)
    ensures error == HeaderError(input) && (ok <==> error == NoError)
    ensures header' == HeaderAfter(input, header) && (ok ==> header' == HeaderOf(input))
    ensures ok ==> |input| == HEADER_SIZE + payloadSize' + CRC_SIZE
    ensures payloadSize' == if error in {NoError, BadPayloadSize, BadCrc} then GetU32(input, 8) else payloadSize
  {
    hide LittleEndian, Crc32c.Checksum, Value;
    header', payloadSize' := header, payloadSize;
    if |input| < CONTROL_SIZE {
      return false, header', payloadSize', BadSize;
    }
    if GetU32(input, 0) != MAGIC {
      return false, header', payloadSize', BadMagic;
    }
    if input[4] != VERSION {
      return false, header', payloadSize', BadVersion;
    }
    if input[7] != 0 {
      return false, header', payloadSize', BadFlags;
    }
    header' := header'.(messageType := input[5]);
    header' := header'.(role := input[6]);
    if !ValidType(header'.messageType) {
      return false, header', payloadSize', BadType;
    }
    if !ValidRole(header'.role) {
      return false, header', payloadSize', BadRole;
    }
    payloadSize' := GetU32(input, 8);
    if |input| != HEADER_SIZE + payloadSize' + CRC_SIZE {
      return false, header', payloadSize', BadPayloadSize;
    }
    var expected := GetU32(input, |input| - CRC_SIZE);
    var actual := Crc32c.Compute(input[..|input| - CRC_SIZE]);
    if actual != expected {
      return false, header', payloadSize', BadCrc;
    }
    header' := header'.(sequence := GetU64(input, 12));
    header' := header'.(timestampNs := GetU64(input, 20));
    header' := header'.(sessionId := GetU64(input, 28));
    return true, header', payloadSize', NoError;
  }

  /** Accepts exactly the images of guide commands and returns the frame written; a rejected
      string leaves the caller's motors alone. */
  method DecodeCommand(input: seq<u8>, frame: CommandFrame)
    returns (ok: bool, frame': CommandFrame, error: DecodeError)
    ensures error == FrameError(input, COMMAND, GUIDE, COMMAND_SIZE)
    ensures ok <==> AcceptsCommand(input)
    ensures ok ==> frame' == CommandOf(input)
    ensures frame'.header == HeaderAfter(input, frame.header) && (!ok ==> frame'.motors == frame.motors)
  {
    hide LittleEndian, Crc32c.Checksum, Value, HeaderError, WordsOf, CommandsOf, StatesOf;
    frame' := frame;
    var valid, header, payloadSize, e := DecodeHeader(input, frame.header, 0);
    frame' := frame'.(header := header);
    if !valid {
      return false, frame', e;
    }
    if header.messageType != COMMAND || header.role != GUIDE {
      return false, frame', BadType;
    }
    if payloadSize != COMMAND_PAYLOAD || |input| != COMMAND_SIZE {
      return false, frame', BadPayloadSize;
    }
    var offset := HEADER_SIZE;
    ghost var motors := CommandOf(input).motors;
    for i := 0 to JOINTS
      invariant offset == HEADER_SIZE + 24 * i
      invariant frame'.header == header
      invariant frame'.motors[..i] == motors[..i]
    {
      var motor := MotorCommand(
        GetU32(input, offset), GetU32(input, offset + 4), GetU32(input, offset + 8),
        GetU32(input, offset + 12), GetU32(input, offset + 16), GetU32(input, offset + 20));
      CommandField(input, i);
      assert motors[..i + 1] == motors[..i] + [motor];
      frame' := frame'.(motors := frame'.motors[i := motor]);
      offset := offset + 24;
    }
    assert frame'.motors[..12] == frame'.motors && motors[..12] == motors;
    return true, frame', NoError;
  }

  method DecodeState(input: seq<u8>, frame: StateFrame)
    returns (ok: bool, frame': StateFrame, error: DecodeError)
    ensures error == FrameError(input, STATE, CONTROLLER, STATE_SIZE)
    ensures ok <==> AcceptsState(input)
    ensures ok ==> frame' == StateOf(input)
    ensures frame'.header == HeaderAfter(input, frame.header) && (!ok ==> frame'.motors == frame.motors)
  {
    hide LittleEndian, Crc32c.Checksum, Value, HeaderError, WordsOf, CommandsOf, StatesOf;
    frame' := frame;
    var valid, header, payloadSize, e := DecodeHeader(input, frame.header, 0);
    frame' := frame'.(header := header);
    if !valid {
      return false, frame', e;
    }
    if header.messageType != STATE || header.role != CONTROLLER {
      return false, frame', BadType;
    }
    if payloadSize != STATE_PAYLOAD || |input| != STATE_SIZE {
      return false, frame', BadPayloadSize;
    }
    var offset := HEADER_SIZE;
    ghost var motors := StateOf(input).motors;
    for i := 0 to JOINTS
      invariant offset == HEADER_SIZE + 20 * i
      invariant frame'.header == header
      invariant frame'.motors[..i] == motors[..i]
    {
      var motor := MotorState(
        GetU32(input, offset), GetU32(input, offset + 4), GetU32(input, offset + 8),
        GetU32(input, offset + 12), GetU32(input, offset + 16));
      StateField(input, i);
      assert motors[..i + 1] == motors[..i] + [motor];
      frame' := frame'.(motors := frame'.motors[i := motor]);
      offset := offset + 20;
    }
    assert frame'.motors[..12] == frame'.motors && motors[..12] == motors;
    return true, frame', NoError;
  }

  /** The words of a payload, found at their offsets in the packet. */
  lemma {:induction false} WordAt(s: seq<u8>, at: nat, n: nat, k: nat)
    requires at + 4 * n <= |s| && k < n
    ensures WordsOf(s[at..at + 4 * n], n)[k] == GetU32(s, at + 4 * k)
    decreases k
  {
    hide LittleEndian, Value;
    var payload := s[at..at + 4 * n];
    if k == 0 {
      assert payload[0..4] == s[at..at + 4];
      assert WordsOf(payload, n)[0] == GetU32(payload, 0);
    } else {
      var rest := s[at + 4..at + 4 + 4 * (n - 1)];
      assert payload[4..] == rest;
      assert WordsOf(payload, n)[k] == WordsOf(rest, n - 1)[k - 1];
      WordAt(s, at + 4, n - 1, k - 1);
    }
  }

  lemma {:induction false} CommandAt(words: seq<u32>, n: nat, i: nat)
    requires |words| == 6 * n && i < n
    ensures CommandsOf(words, n)[i] ==
            MotorCommand(words[6 * i], words[6 * i + 1], words[6 * i + 2], words[6 * i + 3],
                         words[6 * i + 4], words[6 * i + 5])
    decreases i
  {
    if i == 0 {
    } else {
      CommandAt(words[6..], n - 1, i - 1);
    }
  }

  lemma {:induction false} StateAt(words: seq<u32>, n: nat, i: nat)
    requires |words| == 5 * n && i < n
    ensures StatesOf(words, n)[i] ==
            MotorState(words[5 * i], words[5 * i + 1], words[5 * i + 2], words[5 * i + 3],
                       words[5 * i + 4])
    decreases i
  {
    if i == 0 {
    } else {
      StateAt(words[5..], n - 1, i - 1);
    }
  }

  lemma CommandField(s: seq<u8>, i: nat)
    requires |s| == COMMAND_SIZE && i < 12
    ensures CommandOf(s).motors[i] ==
            MotorCommand(GetU32(s, 36 + 24 * i), GetU32(s, 36 + 24 * i + 4), GetU32(s, 36 + 24 * i + 8),
                         GetU32(s, 36 + 24 * i + 12), GetU32(s, 36 + 24 * i + 16), GetU32(s, 36 + 24 * i + 20))
  {
    hide LittleEndian, Value, WordsOf, CommandsOf;
    CommandAt(WordsOf(s[36..324], 72), 12, i);
    WordAt(s, 36, 72, 6 * i);
    WordAt(s, 36, 72, 6 * i + 1);
    WordAt(s, 36, 72, 6 * i + 2);
    WordAt(s, 36, 72, 6 * i + 3);
    WordAt(s, 36, 72, 6 * i + 4);
    WordAt(s, 36, 72, 6 * i + 5);
  }

  lemma StateField(s: seq<u8>, i: nat)
    requires |s| == STATE_SIZE && i < 12
    ensures StateOf(s).motors[i] ==
            MotorState(GetU32(s, 36 + 20 * i), GetU32(s, 36 + 20 * i + 4), GetU32(s, 36 + 20 * i + 8),
                         GetU32(s, 36 + 20 * i + 12), GetU32(s, 36 + 20 * i + 16))
  {
    hide LittleEndian, Value, WordsOf, StatesOf;
    StateAt(WordsOf(s[36..276], 60), 12, i);
    WordAt(s, 36, 60, 5 * i);
    WordAt(s, 36, 60, 5 * i + 1);
    WordAt(s, 36, 60, 5 * i + 2);
    WordAt(s, 36, 60, 5 * i + 3);
    WordAt(s, 36, 60, 5 * i + 4);
  }
}

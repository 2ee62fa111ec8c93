/** The motor frames byte by byte, and the checks of the two validators in their order, spelled out
    with the numbers of the protocol. */
module WireLayout {
  import opened Words
  import opened Crc32c
  import opened Frames
  import RelayParser

  // ---------- Places ----------

  lemma HeaderLayout(h: Header, payloadSize: u32)
    ensures var s := HeaderImage(h, payloadSize);
            && |s| == 36
            && s[0..4] == LittleEndian(0x4731534D, 4) && s[4] == 2 && s[7] == 0
            && s[5] == h.messageType && s[6] == h.role
            && s[8..12] == LittleEndian(payloadSize, 4)
            && s[12..20] == LittleEndian(h.sequence, 8)
            && s[20..28] == LittleEndian(h.timestampNs, 8)
            && s[28..36] == LittleEndian(h.sessionId, 8)
  {
    hide LittleEndian;
  }

  lemma ControlLayout(h: Header)
    ensures var s := ControlImage(h);
            |s| == 40 && s[..36] == HeaderImage(h, 0) && s[36..] == LittleEndian(Checksum(s[..36]), 4)
  {
    hide LittleEndian, Checksum, HeaderImage;
  }

  lemma {:induction false} WordPlace(words: seq<u32>, k: nat)
    requires k < |words|
    ensures WordsImage(words)[4 * k..4 * k + 4] == LittleEndian(words[k], 4)
  {
    hide LittleEndian;
    var image := WordsImage(words);
    if k == 0 {
      assert image[0..4] == LittleEndian(words[0], 4);
    } else {
      WordPlace(words[1..], k - 1);
      assert image[4..] == WordsImage(words[1..]);
      assert image[4 * k..4 * k + 4] == image[4..][4 * (k - 1)..4 * (k - 1) + 4];
    }
  }

  lemma {:induction false} CommandPlace(motors: seq<MotorCommand>, i: nat)
    requires i < |motors|
    ensures var words, m := AllCommandWords(motors), motors[i];
            && words[6 * i] == m.mode && words[6 * i + 1] == m.q && words[6 * i + 2] == m.dq
            && words[6 * i + 3] == m.tau && words[6 * i + 4] == m.kp && words[6 * i + 5] == m.kd
  {
    if i == 0 {
    } else {
      CommandPlace(motors[1..], i - 1);
      assert AllCommandWords(motors)[6..] == AllCommandWords(motors[1..]);
    }
  }

  lemma {:induction false} StatePlace(motors: seq<MotorState>, i: nat)
    requires i < |motors|
    ensures var words, m := AllStateWords(motors), motors[i];
            && words[5 * i] == m.mode && words[5 * i + 1] == m.q && words[5 * i + 2] == m.dq
            && words[5 * i + 3] == m.ddq && words[5 * i + 4] == m.tauEst
  {
    if i == 0 {
    } else {
      StatePlace(motors[1..], i - 1);
      assert AllStateWords(motors)[5..] == AllStateWords(motors[1..]);
    }
  }

  /** The header, payload and trailer of a sealed frame with these words. */
  lemma SealedPlace(h: Header, payloadSize: u32, words: seq<u32>, k: nat)
    requires k < |words|
    ensures var s := Sealed(HeaderImage(h, payloadSize) + WordsImage(words));
            && |s| == 40 + 4 * |words|
            && s[..36] == HeaderImage(h, payloadSize)
            && s[36 + 4 * k..40 + 4 * k] == LittleEndian(words[k], 4)
            && s[36 + 4 * |words|..] == LittleEndian(Checksum(s[..36 + 4 * |words|]), 4)
  {
    hide LittleEndian, Checksum, HeaderImage, WordsImage;
    WordPlace(words, k);
    var body := HeaderImage(h, payloadSize) + WordsImage(words);
    var s := Sealed(body);
    assert s[..36 + 4 * |words|] == body;
    assert body[36..] == WordsImage(words);
    assert s[36 + 4 * k..40 + 4 * k] == body[36..][4 * k..4 * k + 4];
  }

  /** A command frame: motor `i` occupies 24 bytes from 36 + 24 * i on. */
  lemma CommandLayout(f: CommandFrame, i: nat)
    requires i < 12
    ensures var s, m, at := CommandImage(f), f.motors[i], 36 + 24 * i;
            && |s| == 328 && s[..36] == HeaderImage(f.header, 288)
            && s[at..at + 4] == LittleEndian(m.mode, 4) && s[at + 4..at + 8] == LittleEndian(m.q, 4)
            && s[at + 8..at + 12] == LittleEndian(m.dq, 4) && s[at + 12..at + 16] == LittleEndian(m.tau, 4)
            && s[at + 16..at + 20] == LittleEndian(m.kp, 4) && s[at + 20..at + 24] == LittleEndian(m.kd, 4)
            && s[324..] == LittleEndian(Checksum(s[..324]), 4)
  {
    hide LittleEndian, Checksum, HeaderImage, WordsImage, Sealed, AllCommandWords;
    var words := AllCommandWords(f.motors);
    CommandPlace(f.motors, i);
    SealedPlace(f.header, 288, words, 6 * i);
    SealedPlace(f.header, 288, words, 6 * i + 1);
    SealedPlace(f.header, 288, words, 6 * i + 2);
    SealedPlace(f.header, 288, words, 6 * i + 3);
    SealedPlace(f.header, 288, words, 6 * i + 4);
    SealedPlace(f.header, 288, words, 6 * i + 5);
  }

  /** A state frame: motor `i` occupies 20 bytes from 36 + 20 * i on. */
  lemma StateLayout(f: StateFrame, i: nat)
    requires i < 12
    ensures var s, m, at := StateImage(f), f.motors[i], 36 + 20 * i;
            && |s| == 280 && s[..36] == HeaderImage(f.header, 240)
            && s[at..at + 4] == LittleEndian(m.mode, 4) && s[at + 4..at + 8] == LittleEndian(m.q, 4)
            && s[at + 8..at + 12] == LittleEndian(m.dq, 4) && s[at + 12..at + 16] == LittleEndian(m.ddq, 4)
            && s[at + 16..at + 20] == LittleEndian(m.tauEst, 4)
            && s[276..] == LittleEndian(Checksum(s[..276]), 4)
  {
    hide LittleEndian, Checksum, HeaderImage, WordsImage, Sealed, AllStateWords;
    var words := AllStateWords(f.motors);
    StatePlace(f.motors, i);
    SealedPlace(f.header, 240, words, 5 * i);
    SealedPlace(f.header, 240, words, 5 * i + 1);
    SealedPlace(f.header, 240, words, 5 * i + 2);
    SealedPlace(f.header, 240, words, 5 * i + 3);
    SealedPlace(f.header, 240, words, 5 * i + 4);
  }

  // ---------- Checks ----------

  /** The first failing check of `decodeHeader`. */
  lemma HeaderErrorIs(s: seq<u8>)
    ensures HeaderError(s) ==
            if |s| < 40 then BadSize
            else if GetU32(s, 0) != 0x4731534D then BadMagic
            else if s[4] != 2 then BadVersion
            else if s[7] != 0 then BadFlags
            else if s[5] == 0 || s[5] > 4 then BadType
            else if s[6] == 0 || s[6] > 2 then BadRole
            else if |s| != 40 + GetU32(s, 8) then BadPayloadSize
            else if GetU32(s, |s| - 4) != Checksum(s[..|s| - 4]) then BadCrc
            else NoError
  {
    hide LittleEndian, Value, Checksum;
  }

  /** After the header, the decoders of commands and states look at type and role, then at the size. */
  lemma FrameErrorsAre(s: seq<u8>)
    ensures FrameError(s, COMMAND, GUIDE, COMMAND_SIZE) ==
            if HeaderError(s) != NoError then HeaderError(s)
            else if s[5] != 3 || s[6] != 1 then BadType
            else if |s| != 328 then BadPayloadSize
            else NoError
    ensures FrameError(s, STATE, CONTROLLER, STATE_SIZE) ==
            if HeaderError(s) != NoError then HeaderError(s)
            else if s[5] != 4 || s[6] != 2 then BadType
            else if |s| != 280 then BadPayloadSize
            else NoError
  {
    hide LittleEndian, Value, Checksum;
  }

  /** The first failing check of Go's `parsePacket`; the role comes before the type, and the checksum
      before the zero tests. */
  lemma ValidationIs(s: seq<u8>)
    ensures RelayParser.ParsePacket(s).1 ==
            if |s| < 40 then RelayParser.SizeError
            else if GetU32(s, 0) != 0x4731534D then RelayParser.MagicError
            else if s[4] != 2 then RelayParser.VersionError
            else if s[7] != 0 then RelayParser.FlagsError
            else if s[6] == 0 || s[6] > 2 then RelayParser.RoleError
            else if s[5] == 0 || s[5] > 4 then RelayParser.TypeError
            else if (s[5] == 3 && s[6] != 1) || (s[5] == 4 && s[6] != 2) then RelayParser.PayloadError
            else if GetU32(s, 8) != (if s[5] == 3 then 288 else if s[5] == 4 then 240 else 0) then RelayParser.PayloadError
            else if |s| != 40 + GetU32(s, 8) then RelayParser.PayloadError
            else if GetU32(s, |s| - 4) != Checksum(s[..|s| - 4]) then RelayParser.CrcError
            else if GetU64(s, 12) == 0 || GetU64(s, 28) == 0 then RelayParser.PayloadError
            else RelayParser.Ok
  {
    hide LittleEndian, Value, Checksum;
  }
}

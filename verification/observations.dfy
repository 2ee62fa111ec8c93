/** Observation (OBS1) and odometry (ODO1) frames: one 160-byte envelope with two 64-byte names,
    10 or 85 double-precision bit patterns, and a CRC32C trailer. */
module Observations {
  import opened Words
  import opened Crc32c
  import Frames

  const OBSERVATION_MAGIC: u32 := 0x3142534F
  const ODOMETRY_MAGIC: u32 := 0x314F444F
  const ODOMETRY_KIND: u32 := 3
  const NAME_SIZE: nat := 64
  const ENVELOPE_SIZE: nat := 160
  const OBSERVATION_SIZE: nat := 244
  const ODOMETRY_SIZE: nat := 844

  /** The fields that both structures share; values are the bit patterns of doubles. */
  datatype Content = Content(
    simNs: u64, steadyNs: u64, sequence: u64, parent: seq<u8>, child: seq<u8>, values: seq<u64>)

  type ObservationContent = c: Content | |c.values| == 10
    witness Content(0, 0, 0, [], [], seq(10, _ => 0))
  type OdometryContent = c: Content | |c.values| == 85
    witness Content(0, 0, 0, [], [], seq(85, _ => 0))

  /** Neither infinite nor a NaN: the eleven exponent bits are not all ones. */
  predicate Finite(bits: u64) {
    bits / 0x10_0000_0000_0000 % 0x800 != 0x7FF
  }

  /** A double by its fields: one sign bit, eleven exponent bits, 52 mantissa bits. */
  function Double(sign: nat, exponent: nat, mantissa: nat): u64
    requires sign < 2 && exponent < 2048 && mantissa < 0x10_0000_0000_0000
  {
    sign * 0x8000_0000_0000_0000 + exponent * 0x10_0000_0000_0000 + mantissa
  }

  lemma FiniteByFields(sign: nat, exponent: nat, mantissa: nat)
    requires sign < 2 && exponent < 2048 && mantissa < 0x10_0000_0000_0000
    ensures Finite(Double(sign, exponent, mantissa)) <==> exponent != 2047
  {
    var v := Double(sign, exponent, mantissa);
    assert v == (2048 * sign + exponent) * 0x10_0000_0000_0000 + mantissa;
    assert v / 0x10_0000_0000_0000 == 2048 * sign + exponent;
  }

  /** An infinity or a NaN: either sign, exponent 2047, any mantissa. */
  ghost predicate Special(bits: u64) {
    exists sign: nat, mantissa: nat ::
      sign < 2 && mantissa < 0x10_0000_0000_0000 && bits == Double(sign, 2047, mantissa)
  }

  /** The finite bit patterns are all others. */
  lemma FiniteIffNotSpecial(bits: u64)
    ensures Finite(bits) <==> !Special(bits)
  {
    var sign, exponent, mantissa := Fields(bits);
    FiniteByFields(sign, exponent, mantissa);
    if s: nat, m: nat :| s < 2 && m < 0x10_0000_0000_0000 && bits == Double(s, 2047, m) {
      FiniteByFields(s, 2047, m);
    }
  }

  lemma Fields(bits: u64) returns (sign: nat, exponent: nat, mantissa: nat)
    ensures sign < 2 && exponent < 2048 && mantissa < 0x10_0000_0000_0000
    ensures bits == Double(sign, exponent, mantissa)
  {
    mantissa := bits % 0x10_0000_0000_0000;
    var high := bits / 0x10_0000_0000_0000;
    exponent, sign := high % 2048, high / 2048;
  }

  lemma AllFiniteMeans(values: seq<u64>)
    ensures AllFinite(values) <==> forall i :: 0 <= i < |values| ==> !Special(values[i])
  {
    hide Finite, Special;
    forall i | 0 <= i < |values|
      ensures Finite(values[i]) <==> !Special(values[i])
    {
      FiniteIffNotSpecial(values[i]);
    }
  }

  predicate AllFinite(values: seq<u64>) {
    forall i :: 0 <= i < |values| ==> Finite(values[i])
  }

  predicate Encodable(c: Content) {
    |c.parent| < NAME_SIZE && |c.child| < NAME_SIZE && AllFinite(c.values)
  }

  predicate ObservationKind(kind: u32) {
    kind == 1 || kind == 2
  }

  // ---------- Images ----------

  function NameImage(name: seq<u8>): (s: seq<u8>)
    requires |name| <= NAME_SIZE
    ensures |s| == NAME_SIZE
  {
    name + Zeros(NAME_SIZE - |name|)
  }

  function LongsImage(values: seq<u64>): (s: seq<u8>)
    ensures |s| == 8 * |values|
  {
    if values == [] then [] else LittleEndian(values[0], 8) + LongsImage(values[1..])
  }

  function StampImage(magic: u32, kind: u32, c: Content): (s: seq<u8>)
    ensures |s| == 32
  {
    LittleEndian(magic, 4) + LittleEndian(kind, 4) + LittleEndian(c.simNs, 8)
    + LittleEndian(c.steadyNs, 8) + LittleEndian(c.sequence, 8)
  }

  function EnvelopeImage(magic: u32, kind: u32, c: Content): (s: seq<u8>)
    requires |c.parent| <= NAME_SIZE && |c.child| <= NAME_SIZE
    ensures |s| == ENVELOPE_SIZE + 8 * |c.values| + 4
  {
    Frames.Sealed(StampImage(magic, kind, c) + NameImage(c.parent) + NameImage(c.child) + LongsImage(c.values))
  }

  // ---------- Meanings ----------

  /** A byte string read as a C string: everything before the first NUL. */
  function CString(s: seq<u8>): (name: seq<u8>)
    ensures |name| <= |s| && 0 !in name
  {
    if s == [] || s[0] == 0 then [] else [s[0]] + CString(s[1..])
  }

  function LongsOf(s: seq<u8>, n: nat): (values: seq<u64>)
    requires |s| == 8 * n
    ensures |values| == n
    decreases n
  {
    if n == 0 then [] else [GetU64(s, 0)] + LongsOf(s[8..], n - 1)
  }

  function ContentOf(s: seq<u8>, n: nat): (c: Content)
    requires |s| == ENVELOPE_SIZE + 8 * n + 4
    ensures |c.values| == n
  {
    Content(GetU64(s, 8), GetU64(s, 16), GetU64(s, 24), CString(s[32..96]), CString(s[96..160]),
            LongsOf(s[160..160 + 8 * n], n))
  }

  /** Both name fields contain a NUL. */
  predicate NamesTerminated(s: seq<u8>)
    requires |s| >= ENVELOPE_SIZE
  {
    0 in s[32..96] && 0 in s[96..160]
  }

  /** What `decodeObservation` (magic OBS1, kinds 1 and 2) and `decodeOdometry` (magic ODO1, kind 3)
      accept. */
  predicate Accepts(s: seq<u8>, magic: u32, kinds: set<u32>, n: nat) {
    && |s| == ENVELOPE_SIZE + 8 * n + 4
    && GetU32(s, 0) == magic
    && GetU32(s, 4) in kinds
    && Passes(s)
    && NamesTerminated(s)
    && AllFinite(LongsOf(s[160..160 + 8 * n], n))
  }

  predicate AcceptsObservation(s: seq<u8>) {
    Accepts(s, OBSERVATION_MAGIC, {1, 2}, 10)
  }

  predicate AcceptsOdometry(s: seq<u8>) {
    Accepts(s, ODOMETRY_MAGIC, {ODOMETRY_KIND}, 85)
  }

  /** The Go relay's test, `validObservationPacket`. */
  predicate ValidObservationPacket(packet: seq<u8>) {
    if |packet| != OBSERVATION_SIZE && |packet| != ODOMETRY_SIZE then false
    else
      var magic, kind := GetU32(packet, 0), GetU32(packet, 4);
      if !((|packet| == OBSERVATION_SIZE && magic == OBSERVATION_MAGIC && (kind == 1 || kind == 2)) ||
           (|packet| == ODOMETRY_SIZE && magic == ODOMETRY_MAGIC && kind == ODOMETRY_KIND))
      then false
      else GetU32(packet, |packet| - 4) == Checksum(packet[..|packet| - 4])
  }

  // ---------- Acceptance, spelled out ----------

  lemma {:induction false} LongAt(s: seq<u8>, at: nat, n: nat, k: nat)
    requires at + 8 * n <= |s| && k < n
    ensures LongsOf(s[at..at + 8 * n], n)[k] == GetU64(s, at + 8 * k)
    decreases k
  {
    hide LittleEndian, Value;
    var longs := s[at..at + 8 * n];
    if k == 0 {
      assert longs[0..8] == s[at..at + 8];
      assert LongsOf(longs, n)[0] == GetU64(longs, 0);
    } else {
      var rest := s[at + 8..at + 8 + 8 * (n - 1)];
      assert longs[8..] == rest;
      assert LongsOf(longs, n)[k] == LongsOf(rest, n - 1)[k - 1];
      LongAt(s, at + 8, n - 1, k - 1);
    }
  }

  lemma ValuesMean(s: seq<u8>, n: nat)
    requires 160 + 8 * n <= |s|
    ensures AllFinite(LongsOf(s[160..160 + 8 * n], n)) <==>
            forall k: nat :: k < n ==> !Special(GetU64(s, 160 + 8 * k))
  {
    hide LittleEndian, Value, Finite, Special, LongsOf;
    var values := LongsOf(s[160..160 + 8 * n], n);
    AllFiniteMeans(values);
    forall k: nat | k < n
      ensures Special(values[k]) == Special(GetU64(s, 160 + 8 * k))
      ensures AllFinite(values) ==> !Special(GetU64(s, 160 + 8 * k))
    {
      LongAt(s, 160, n, k);
      assert Special(values[k]) == Special(GetU64(s, 160 + 8 * k));
    }
  }

  /** The observations that are accepted, by size, words, trailer, names and values. */
  lemma AcceptsObservationMeans(s: seq<u8>)
    ensures AcceptsObservation(s) <==>
            && |s| == 244
            && GetU32(s, 0) == 0x3142534F && (GetU32(s, 4) == 1 || GetU32(s, 4) == 2)
            && GetU32(s, 240) == Checksum(s[..240])
            && 0 in s[32..96] && 0 in s[96..160]
            && forall k: nat :: k < 10 ==> !Special(GetU64(s, 160 + 8 * k))
  {
    hide LittleEndian, Value, Checksum, Special, LongsOf, AllFinite;
    if |s| == 244 {
      ValuesMean(s, 10);
    }
  }

  /** The same for odometry. */
  lemma AcceptsOdometryMeans(s: seq<u8>)
    ensures AcceptsOdometry(s) <==>
            && |s| == 844
            && GetU32(s, 0) == 0x314F444F && GetU32(s, 4) == 3
            && GetU32(s, 840) == Checksum(s[..840])
            && 0 in s[32..96] && 0 in s[96..160]
            && forall k: nat :: k < 85 ==> !Special(GetU64(s, 160 + 8 * k))
  {
    hide LittleEndian, Value, Checksum, Special, LongsOf, AllFinite;
    if |s| == 844 {
      ValuesMean(s, 85);
    }
  }

  /** The bytes of an envelope, place by place. */
  lemma EnvelopeLayout(magic: u32, kind: u32, c: Content)
    requires |c.parent| < 64 && |c.child| < 64
    ensures var s, n := EnvelopeImage(magic, kind, c), |c.values|;
            && |s| == 164 + 8 * n
            && s[0..4] == LittleEndian(magic, 4) && s[4..8] == LittleEndian(kind, 4)
            && s[8..16] == LittleEndian(c.simNs, 8) && s[16..24] == LittleEndian(c.steadyNs, 8)
            && s[24..32] == LittleEndian(c.sequence, 8)
            && s[32..96] == c.parent + Zeros(64 - |c.parent|) && s[96..160] == c.child + Zeros(64 - |c.child|)
            && s[160 + 8 * n..] == LittleEndian(Checksum(s[..160 + 8 * n]), 4)
    ensures forall k :: 0 <= k < |c.values| ==>
              EnvelopeImage(magic, kind, c)[160 + 8 * k..168 + 8 * k] == LittleEndian(c.values[k], 8)
  {
    hide LittleEndian, Checksum, LongsImage;
    var n := |c.values|;
    var stamp, longs := StampImage(magic, kind, c), LongsImage(c.values);
    var body := stamp + NameImage(c.parent) + NameImage(c.child) + longs;
    var s := EnvelopeImage(magic, kind, c);
    assert s[..160 + 8 * n] == body && s[..32] == stamp;
    assert s[0..4] == stamp[0..4] && s[4..8] == stamp[4..8] && s[8..16] == stamp[8..16];
    assert s[16..24] == stamp[16..24] && s[24..32] == stamp[24..32];
    forall k | 0 <= k < n
      ensures s[160 + 8 * k..168 + 8 * k] == LittleEndian(c.values[k], 8)
    {
      LongPlace(c.values, k);
      assert s[160..160 + 8 * n] == longs;
      assert s[160 + 8 * k..168 + 8 * k] == longs[8 * k..8 * k + 8];
    }
  }

  lemma {:induction false} LongPlace(values: seq<u64>, k: nat)
    requires k < |values|
    ensures LongsImage(values)[8 * k..8 * k + 8] == LittleEndian(values[k], 8)
  {
    hide LittleEndian;
    var image := LongsImage(values);
    if k == 0 {
      assert image[0..8] == LittleEndian(values[0], 8);
    } else {
      LongPlace(values[1..], k - 1);
      assert image[8..] == LongsImage(values[1..]);
      assert image[8 * k..8 * k + 8] == image[8..][8 * (k - 1)..8 * (k - 1) + 8];
    }
  }

  // ---------- Round trips ----------

  lemma {:induction false} LongsOfImage(values: seq<u64>)
    ensures LongsOf(LongsImage(values), |values|) == values
  {
    if values == [] {
    } else {
      var image := LongsImage(values);
      assert image[0..8] == LittleEndian(values[0], 8);
      assert image[8..] == LongsImage(values[1..]);
      GetU64Is(image, 0, values[0]);
      LongsOfImage(values[1..]);
    }
  }

  lemma {:induction false} ImageOfLongs(s: seq<u8>, n: nat)
    requires |s| == 8 * n
    ensures LongsImage(LongsOf(s, n)) == s
    decreases n
  {
    if n == 0 {
    } else {
      GetU64Image(s, 0);
      ImageOfLongs(s[8..], n - 1);
      assert LongsOf(s, n)[1..] == LongsOf(s[8..], n - 1);
      assert s == s[0..8] + s[8..];
    }
  }

  /** A name without NUL survives being written into a zeroed field; one with a NUL is cut there. */
  lemma {:induction false} CStringOfPadded(name: seq<u8>, n: nat)
    requires n > 0
    ensures CString(name + Zeros(n)) == CString(name)
  {
    if name == [] {
      assert name + Zeros(n) == Zeros(n);
    } else {
      assert (name + Zeros(n))[1..] == name[1..] + Zeros(n);
      CStringOfPadded(name[1..], n);
    }
  }

  lemma {:induction false} CStringIsWhole(name: seq<u8>)
    ensures CString(name) == name <==> 0 !in name
  {
    if name == [] || name[0] == 0 {
    } else {
      CStringIsWhole(name[1..]);
      assert name == [name[0]] + name[1..];
      assert CString(name)[1..] == CString(name[1..]);
    }
  }

  lemma {:induction false} CStringIsPrefix(s: seq<u8>)
    ensures CString(s) == s[..|CString(s)|]
    ensures 0 in s ==> |CString(s)| < |s| && s[|CString(s)|] == 0
  {
    if s == [] || s[0] == 0 {
    } else {
      CStringIsPrefix(s[1..]);
      assert s == [s[0]] + s[1..];
    }
  }

  /** What the decoder reads from an encoder's output: the content, with names cut at a NUL. */
  lemma ImageReadsBack(magic: u32, kind: u32, c: Content)
    requires |c.parent| < NAME_SIZE && |c.child| < NAME_SIZE
    ensures var s := EnvelopeImage(magic, kind, c);
            && GetU32(s, 0) == magic && GetU32(s, 4) == kind && Passes(s) && NamesTerminated(s)
            && ContentOf(s, |c.values|) == c.(parent := CString(c.parent), child := CString(c.child))
  {
    hide LittleEndian, Value, Checksum, CString, LongsImage, LongsOf, Passes;
    var s, n := EnvelopeImage(magic, kind, c), |c.values|;
    var stamp := StampImage(magic, kind, c);
    var parent, child := NameImage(c.parent), NameImage(c.child);
    Frames.SealedPasses(stamp + parent + child + LongsImage(c.values));
    assert s[0..4] == stamp[0..4] == LittleEndian(magic, 4);
    assert s[4..8] == stamp[4..8] == LittleEndian(kind, 4);
    assert s[8..16] == stamp[8..16] == LittleEndian(c.simNs, 8);
    assert s[16..24] == stamp[16..24] == LittleEndian(c.steadyNs, 8);
    assert s[24..32] == stamp[24..32] == LittleEndian(c.sequence, 8);
    assert s[32..96] == parent && parent[63] == 0;
    assert s[96..160] == child && child[63] == 0;
    assert s[160..160 + 8 * n] == LongsImage(c.values);
    GetU32Is(s, 0, magic);
    GetU32Is(s, 4, kind);
    GetU64Is(s, 8, c.simNs);
    GetU64Is(s, 16, c.steadyNs);
    GetU64Is(s, 24, c.sequence);
    CStringOfPadded(c.parent, NAME_SIZE - |c.parent|);
    CStringOfPadded(c.child, NAME_SIZE - |c.child|);
    LongsOfImage(c.values);
  }

  /** Decoding undoes encoding exactly for names without NUL. */
  lemma ObservationRoundTrip(kind: u32, c: ObservationContent)
    requires Encodable(c) && ObservationKind(kind)
    ensures var s := EnvelopeImage(OBSERVATION_MAGIC, kind, c);
            && AcceptsObservation(s) && GetU32(s, 4) == kind
            && (ContentOf(s, 10) == c <==> 0 !in c.parent && 0 !in c.child)
  {
    hide LittleEndian, Value, Checksum, CString, EnvelopeImage, LongsOf, Finite;
    ImageReadsBack(OBSERVATION_MAGIC, kind, c);
    CStringIsWhole(c.parent);
    CStringIsWhole(c.child);
  }

  lemma OdometryRoundTrip(c: OdometryContent)
    requires Encodable(c)
    ensures var s := EnvelopeImage(ODOMETRY_MAGIC, ODOMETRY_KIND, c);
            && AcceptsOdometry(s)
            && (ContentOf(s, 85) == c <==> 0 !in c.parent && 0 !in c.child)
  {
    hide LittleEndian, Value, Checksum, CString, EnvelopeImage, LongsOf, Finite;
    ImageReadsBack(ODOMETRY_MAGIC, ODOMETRY_KIND, c);
    CStringIsWhole(c.parent);
    CStringIsWhole(c.child);
  }

  lemma StampReadsBack(s: seq<u8>, c: Content)
    requires |s| >= ENVELOPE_SIZE
    requires c.simNs == GetU64(s, 8) && c.steadyNs == GetU64(s, 16) && c.sequence == GetU64(s, 24)
    ensures StampImage(GetU32(s, 0), GetU32(s, 4), c) == s[..32]
  {
    hide LittleEndian, Value;
    GetU32Image(s, 0);
    GetU32Image(s, 4);
    GetU64Image(s, 8);
    GetU64Image(s, 16);
    GetU64Image(s, 24);
    assert s[..8] == s[0..4] + s[4..8];
    assert s[..16] == s[..8] + s[8..16];
    assert s[..24] == s[..16] + s[16..24];
    assert s[..32] == s[..24] + s[24..32];
  }

  /** Encoding undoes decoding exactly when the bytes after each name's NUL are zero. */
  lemma EncodeOfDecode(s: seq<u8>, n: nat)
    requires |s| == ENVELOPE_SIZE + 8 * n + 4 && Passes(s) && NamesTerminated(s)
    ensures EnvelopeImage(GetU32(s, 0), GetU32(s, 4), ContentOf(s, n)) == s
            <==> s[32..96] == NameImage(CString(s[32..96])) && s[96..160] == NameImage(CString(s[96..160]))
  {
    hide LittleEndian, Value, Checksum, CString, LongsImage, LongsOf, Passes;
    var c := ContentOf(s, n);
    var stamp := StampImage(GetU32(s, 0), GetU32(s, 4), c);
    var body := s[..160 + 8 * n];
    Frames.PassesIsSealed(s);
    ImageOfLongs(s[160..160 + 8 * n], n);
    StampReadsBack(s, c);
    var image := stamp + NameImage(c.parent) + NameImage(c.child) + s[160..160 + 8 * n];
    Frames.SealedPasses(image);
    assert body == s[..32] + s[32..96] + s[96..160] + s[160..160 + 8 * n];
    assert image[32..96] == NameImage(c.parent) && image[96..160] == NameImage(c.child);
  }

  // ---------- The two validators ----------

  /** The values of a frame of either size. */
  function ValuesOf(s: seq<u8>): seq<u64>
    requires |s| == OBSERVATION_SIZE || |s| == ODOMETRY_SIZE
  {
    if |s| == OBSERVATION_SIZE then LongsOf(s[160..240], 10) else LongsOf(s[160..840], 85)
  }

  /** The Go validator accepts a frame that the matching C++ decoder rejects exactly when a name is
      unterminated or a value is not finite. */
  lemma GoAcceptsMore(s: seq<u8>)
    ensures AcceptsObservation(s) || AcceptsOdometry(s) <==>
            ValidObservationPacket(s) && NamesTerminated(s) && AllFinite(ValuesOf(s))
  {
    hide LittleEndian, Value, Checksum, AllFinite, LongsOf, NamesTerminated;
  }

  /** A frame on which the two validators disagree: all 64 bytes of a name in use. */
  lemma GoAcceptsUnterminatedName()
    ensures exists s :: ValidObservationPacket(s) && !AcceptsObservation(s) && !AcceptsOdometry(s)
  {
    hide LittleEndian, Value, Checksum, CString, LongsOf, LongsImage, Finite, Passes;
    var name := seq(64, _ => 1);
    var c := Content(0, 0, 0, name, [], seq(10, _ => 0));
    var stamp := StampImage(OBSERVATION_MAGIC, 1, c);
    var body := stamp + name + Zeros(64) + Zeros(80);
    var s := Frames.Sealed(body);
    Frames.SealedPasses(body);
    assert s[0..4] == stamp[0..4] == LittleEndian(OBSERVATION_MAGIC, 4);
    assert s[4..8] == stamp[4..8] == LittleEndian(1, 4);
    GetU32Is(s, 0, OBSERVATION_MAGIC);
    GetU32Is(s, 4, 1);
    assert s[32..96] == name;
    assert !NamesTerminated(s);
    PassesMeans(s);
    assert ValidObservationPacket(s);
  }

  /** Another one: its names are in order, its first value is infinite. */
  lemma GoAcceptsInfinity()
    ensures exists s :: ValidObservationPacket(s) && NamesTerminated(s) && !AcceptsObservation(s) && !AcceptsOdometry(s)
  {
    hide LittleEndian, Value, Checksum, CString, LongsOf, EnvelopeImage, Passes, NamesTerminated, ContentOf;
    var infinity: u64 := 0x7FF0_0000_0000_0000;
    var c := Content(0, 0, 0, [], [], [infinity] + seq(9, _ => 0));
    assert c.values[0] == infinity && !Finite(infinity);
    var s := EnvelopeImage(OBSERVATION_MAGIC, 1, c);
    ImageReadsBack(OBSERVATION_MAGIC, 1, c);
    ValuesOfContent(s);
    PassesMeans(s);
    assert ValidObservationPacket(s);
  }

  lemma ValuesOfContent(s: seq<u8>)
    requires |s| == OBSERVATION_SIZE
    ensures ContentOf(s, 10).values == LongsOf(s[160..240], 10)
  {
  }

  lemma PassesMeans(s: seq<u8>)
    requires Passes(s)
    ensures |s| >= 4 && GetU32(s, |s| - 4) == Checksum(s[..|s| - 4])
  {
  }
}

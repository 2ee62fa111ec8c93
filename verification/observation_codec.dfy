/** `encodeObservation`, `decodeObservation`, `encodeOdometry` and `decodeOdometry`: fixed buffers
    filled in place, value loops with early exits. */
module ObservationCodec {
  import opened Words
  import opened Observations
  import Crc32c
  import Frames
  import FrameCodec

  // ---------- Pieces shared by the encoders ----------

  /** `data.fill(0)` and the five fixed fields. */
  method PutStamp(magic: u32, kind: u32, c: Content, data: array<u8>)
    requires data.Length >= ENVELOPE_SIZE
    modifies data
    ensures data[..32] == StampImage(magic, kind, c)
    ensures forall k :: 32 <= k < data.Length ==> data[k] == 0
  {
    hide LittleEndian;
    for i := 0 to data.Length
      invariant forall k :: 0 <= k < i ==> data[k] == 0
    {
      data[i] := 0;
    }
    PutU32(data, 0, magic);
    PutU32(data, 4, kind);
    PutU64(data, 8, c.simNs);
    PutU64(data, 16, c.steadyNs);
    PutU64(data, 24, c.sequence);
  }

  /** `memcpy` of a name into its zeroed field. */
  method PutName(name: seq<u8>, data: array<u8>, at: nat)
    requires |name| < NAME_SIZE && at + NAME_SIZE <= data.Length
    requires forall k :: at <= k < data.Length ==> data[k] == 0
    modifies data
    ensures data[..at + NAME_SIZE] == old(data[..at]) + NameImage(name)
    ensures forall k :: at + NAME_SIZE <= k < data.Length ==> data[k] == 0
  {
    ghost var start := data[..at];
    for i := 0 to |name|
      invariant data[..at] == start
      invariant data[at..at + i] == name[..i]
      invariant forall k :: at + i <= k < data.Length ==> data[k] == 0
    {
      data[at + i] := name[i];
      assert data[at..at + i + 1] == data[at..at + i] + [name[i]];
    }
    assert data[at..at + NAME_SIZE] == NameImage(name);
  }

  /** Everything up to the values. */
  function Preamble(magic: u32, kind: u32, c: Content): (s: seq<u8>)
    requires |c.parent| < NAME_SIZE && |c.child| < NAME_SIZE
    ensures |s| == ENVELOPE_SIZE
  {
    StampImage(magic, kind, c) + NameImage(c.parent) + NameImage(c.child)
  }

  lemma {:induction false} LongsImageSnoc(values: seq<u64>, v: u64)
    ensures LongsImage(values + [v]) == LongsImage(values) + LittleEndian(v, 8)
  {
    hide LittleEndian;
    if values == [] {
      assert LongsImage([v]) == LittleEndian(v, 8) + LongsImage([]);
    } else {
      assert (values + [v])[1..] == values[1..] + [v];
      LongsImageSnoc(values[1..], v);
    }
  }

  /** What an encoder leaves behind that stopped at a value: the values before it, then zeros. */
  ghost predicate HalfWritten(start: seq<u8>, values: seq<u64>, data: seq<u8>) {
    exists k: nat :: StopsAt(values, k) && data == start + LongsImage(values[..k]) + Zeros(8 * (|values| - k) + 4)
  }

  /** The value loop and the trailer; it stops at the first value that is not finite. */
  method PutValues(values: seq<u64>, data: array<u8>) returns (ok: bool)
    requires data.Length == ENVELOPE_SIZE + 8 * |values| + 4
    requires forall j :: ENVELOPE_SIZE <= j < data.Length ==> data[j] == 0
    modifies data
    ensures ok <==> AllFinite(values)
    ensures !ok ==> HalfWritten(old(data[..ENVELOPE_SIZE]), values, data[..])
    ensures ok ==> data[..] == Frames.Sealed(old(data[..ENVELOPE_SIZE]) + LongsImage(values))
  {
    hide LittleEndian, Crc32c.Checksum, Finite;
    ghost var start := data[..ENVELOPE_SIZE];
    assert values[..0] == [];
    for i := 0 to |values|
      invariant data[..ENVELOPE_SIZE + 8 * i] == start + LongsImage(values[..i])
      invariant AllFinite(values[..i])
      invariant forall j :: ENVELOPE_SIZE + 8 * i <= j < data.Length ==> data[j] == 0
    {
      if !Finite(values[i]) {
        assert StopsAt(values, i);
        assert data[..] == start + LongsImage(values[..i]) + Zeros(8 * (|values| - i) + 4);
        return false;
      }
      PutU64(data, ENVELOPE_SIZE + 8 * i, values[i]);
      assert values[..i + 1] == values[..i] + [values[i]];
      LongsImageSnoc(values[..i], values[i]);
    }
    assert values[..|values|] == values;
    FrameCodec.Seal(data, ENVELOPE_SIZE + 8 * |values|);
    assert data[..data.Length] == data[..];
    return true;
  }

  // ---------- The encoders ----------

  /** Fails without touching the buffer when a name is too long or the kind is unknown. */
  method EncodeObservation(kind: u32, o: ObservationContent, data: array<u8>) returns (ok: bool)
    requires data.Length == OBSERVATION_SIZE
    modifies data
    ensures ok <==>
            && |o.parent| < 64 && |o.child| < 64 && (kind == 1 || kind == 2)
            && forall i :: 0 <= i < 10 ==> !Special(o.values[i])
    ensures ok <==> Encodable(o) && ObservationKind(kind)
    ensures ok ==> data[..] == EnvelopeImage(OBSERVATION_MAGIC, kind, o)
    ensures !ok ==>
              if |o.parent| >= NAME_SIZE || |o.child| >= NAME_SIZE || !ObservationKind(kind)
              then data[..] == old(data[..])
              else HalfWritten(Preamble(OBSERVATION_MAGIC, kind, o), o.values, data[..])
  {
    hide Special, Finite;
    AllFiniteMeans(o.values);
    if |o.parent| >= NAME_SIZE || |o.child| >= NAME_SIZE || (kind != 1 && kind != 2) {
      return false;
    }
    PutStamp(OBSERVATION_MAGIC, kind, o, data);
    PutName(o.parent, data, 32);
    PutName(o.child, data, 96);
    assert data[..ENVELOPE_SIZE] == Preamble(OBSERVATION_MAGIC, kind, o);
    ok := PutValues(o.values, data);
  }

  method EncodeOdometry(o: OdometryContent, data: array<u8>) returns (ok: bool)
    requires data.Length == ODOMETRY_SIZE
    modifies data
    ensures ok <==>
            && |o.parent| < 64 && |o.child| < 64
            && forall i :: 0 <= i < 85 ==> !Special(o.values[i])
    ensures ok <==> Encodable(o)
    ensures ok ==> data[..] == EnvelopeImage(ODOMETRY_MAGIC, ODOMETRY_KIND, o)
    ensures !ok ==>
              if |o.parent| >= NAME_SIZE || |o.child| >= NAME_SIZE then data[..] == old(data[..])
              else HalfWritten(Preamble(ODOMETRY_MAGIC, ODOMETRY_KIND, o), o.values, data[..])
  {
    hide Special, Finite;
    AllFiniteMeans(o.values);
    if |o.parent| >= NAME_SIZE || |o.child| >= NAME_SIZE {
      return false;
    }
    PutStamp(ODOMETRY_MAGIC, ODOMETRY_KIND, o, data);
    PutName(o.parent, data, 32);
    PutName(o.child, data, 96);
    assert data[..ENVELOPE_SIZE] == Preamble(ODOMETRY_MAGIC, ODOMETRY_KIND, o);
    ok := PutValues(o.values, data);
  }

  // ---------- The decoders ----------

  /** `std::memchr(s, 0, n)` as a test. */
  method ContainsNul(s: seq<u8>) returns (found: bool)
    ensures found <==> 0 in s
  {
    for i := 0 to |s|
      invariant 0 !in s[..i]
    {
      if s[i] == 0 {
        return true;
      }
      assert s[..i + 1] == s[..i] + [s[i]];
    }
    assert s[..|s|] == s;
    return false;
  }

  /** `before`, overwritten by the first `k` decoded values. */
  function Overwritten(before: seq<u64>, all: seq<u64>, k: nat): (values: seq<u64>)
    requires k <= |all| == |before|
    ensures |values| == |all|
  {
    all[..k] + before[k..]
  }

  lemma OverwrittenMore(before: seq<u64>, all: seq<u64>, k: nat)
    requires k < |all| == |before|
    ensures Overwritten(before, all, k)[k := all[k]] == Overwritten(before, all, k + 1)
  {
  }

  lemma OverwrittenEnds(before: seq<u64>, all: seq<u64>)
    requires |all| == |before|
    ensures Overwritten(before, all, 0) == before && Overwritten(before, all, |all|) == all
  {
  }

  /** The value that stops a decoder: the first that is not finite. It is stored all the same. */
  ghost predicate StopsAt(all: seq<u64>, k: nat) {
    k < |all| && AllFinite(all[..k]) && !Finite(all[k])
  }

  ghost predicate Stopped(before: seq<u64>, all: seq<u64>, values: seq<u64>)
    requires |before| == |all|
  {
    exists k: nat :: StopsAt(all, k) && values == Overwritten(before, all, k + 1)
  }

  /** The value loop of a decoder. */
  method GetValues(data: seq<u8>, n: nat, before: seq<u64>) returns (ok: bool, values: seq<u64>)
    requires |data| == ENVELOPE_SIZE + 8 * n + 4 && |before| == n
    ensures |values| == n && (ok <==> AllFinite(LongsOf(data[160..160 + 8 * n], n)))
    ensures ok ==> values == LongsOf(data[160..160 + 8 * n], n)
    ensures !ok ==> Stopped(before, LongsOf(data[160..160 + 8 * n], n), values)
  {
    hide LittleEndian, Value, Finite, LongsOf, Overwritten;
    ghost var all := LongsOf(data[160..160 + 8 * n], n);
    values := before;
    OverwrittenEnds(before, all);
    for i := 0 to n
      invariant |values| == n && values == Overwritten(before, all, i)
      invariant AllFinite(all[..i])
    {
      var bits := GetU64(data, 160 + 8 * i);
      LongAt(data, 160, n, i);
      values := values[i := bits];
      assert all[..i + 1] == all[..i] + [bits];
      OverwrittenMore(before, all, i);
      if !Finite(bits) {
        assert StopsAt(all, i);
        assert all[i] == bits;
        return false, values;
      }
    }
    assert all[..n] == all;
    return true, values;
  }

  /** The fields that are assigned before the names are looked at. */
  function Stamped(o: Content, data: seq<u8>): Content
    requires |data| >= ENVELOPE_SIZE
  {
    o.(simNs := GetU64(data, 8), steadyNs := GetU64(data, 16), sequence := GetU64(data, 24))
  }

  /** What a decoder that got as far as the values leaves behind when one is not finite. */
  ghost predicate StoppedAtValue(o: Content, data: seq<u8>, n: nat, o': Content)
    requires |data| == ENVELOPE_SIZE + 8 * n + 4 && |o.values| == n
  {
    && Stopped(o.values, LongsOf(data[160..160 + 8 * n], n), o'.values)
    && o' == Stamped(o, data).(parent := CString(data[32..96]), child := CString(data[96..160]), values := o'.values)
  }

  /** On failure the caller's fields have been overwritten as far as the checks got. */
  method DecodeObservation(data: seq<u8>, kind: u32, o: ObservationContent)
    returns (ok: bool, kind': u32, o': ObservationContent)
    ensures ok <==> AcceptsObservation(data)
    ensures ok ==> kind' == GetU32(data, 4) && o' == ContentOf(data, 10)
    ensures |data| != OBSERVATION_SIZE || GetU32(data, 0) != OBSERVATION_MAGIC || !Crc32c.Passes(data) ==>
              kind' == kind && o' == o
    ensures |data| == OBSERVATION_SIZE && GetU32(data, 0) == OBSERVATION_MAGIC && Crc32c.Passes(data) ==>
              && kind' == GetU32(data, 4)
              && (!ObservationKind(kind') ==> o' == o)
              && (ObservationKind(kind') && !NamesTerminated(data) ==> o' == Stamped(o, data))
              && (ObservationKind(kind') && NamesTerminated(data) && !ok ==> StoppedAtValue(o, data, 10, o'))
  {
    hide LittleEndian, Value, Crc32c.Checksum, CString, LongsOf, Finite;
    kind', o' := kind, o;
    if |data| != OBSERVATION_SIZE || GetU32(data, 0) != OBSERVATION_MAGIC {
      return false, kind', o';
    }
    var crc := Crc32c.Compute(data[..240]);
    if GetU32(data, 240) != crc {
      return false, kind', o';
    }
    kind' := GetU32(data, 4);
    if kind' != 1 && kind' != 2 {
      return false, kind', o';
    }
    o' := o'.(simNs := GetU64(data, 8), steadyNs := GetU64(data, 16), sequence := GetU64(data, 24));
    var parentEnds := ContainsNul(data[32..96]);
    var childEnds := ContainsNul(data[96..160]);
    if !parentEnds || !childEnds {
      return false, kind', o';
    }
    o' := o'.(parent := CString(data[32..96]), child := CString(data[96..160]));
    var finite, values := GetValues(data, 10, o.values);
    o' := o'.(values := values);
    return finite, kind', o';
  }

  method DecodeOdometry(data: seq<u8>, o: OdometryContent) returns (ok: bool, o': OdometryContent)
    ensures ok <==> AcceptsOdometry(data)
    ensures ok ==> o' == ContentOf(data, 85)
    ensures !ok ==>
              if |data| == ODOMETRY_SIZE && GetU32(data, 0) == ODOMETRY_MAGIC && GetU32(data, 4) == ODOMETRY_KIND &&
                 Crc32c.Passes(data) && NamesTerminated(data)
              then StoppedAtValue(o, data, 85, o') else o' == o
  {
    hide LittleEndian, Value, Crc32c.Checksum, CString, LongsOf, Finite;
    o' := o;
    if |data| != ODOMETRY_SIZE || GetU32(data, 0) != ODOMETRY_MAGIC || GetU32(data, 4) != ODOMETRY_KIND {
      return false, o';
    }
    var crc := Crc32c.Compute(data[..840]);
    var parentEnds := ContainsNul(data[32..96]);
    var childEnds := ContainsNul(data[96..160]);
    if GetU32(data, 840) != crc || !parentEnds || !childEnds {
      return false, o';
    }
    o' := o'.(simNs := GetU64(data, 8), steadyNs := GetU64(data, 16), sequence := GetU64(data, 24));
    o' := o'.(parent := CString(data[32..96]), child := CString(data[96..160]));
    var finite, values := GetValues(data, 85, o.values);
    o' := o'.(values := values);
    return finite, o';
  }
}

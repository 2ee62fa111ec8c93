/** The G1REC1 stream: a prefix and a sequence of self-checking records, and what its two readers
    make of it.

    Compression is the identity here and SHA-256 is any function with 32-byte results. */
module ArchiveFormat {
  import opened Words

  type Digest = d: seq<u8> | |d| == 32 witness Zeros(32)
  type Hash = seq<u8> -> Digest

  const CAPACITY: nat := 1024
  const PREFIX: seq<u8> := [0x47, 0x31, 0x52, 0x45, 0x43, 0x31, 0, 0]

  datatype Record = Record(slot: u32, revision: u64, packet: seq<u8>)

  /** What `verifyRecord` asks of a record header. */
  predicate Storable(r: Record) {
    r.slot < 8 && 1 <= |r.packet| <= CAPACITY
  }

  /** What `analyzeArchive` asks: the revision must be one a writer can have committed. */
  predicate Committed(r: Record) {
    Storable(r) && r.revision != 0 && r.revision % 2 == 0
  }

  // ---------- The writer ----------

  function RecordHeader(r: Record): (s: seq<u8>)
    requires |r.packet| < MOD_32
    ensures |s| == 16
  {
    LittleEndian(r.slot, 4) + LittleEndian(|r.packet|, 4) + LittleEndian(r.revision, 8)
  }

  /** The bytes of `writeRecordedSnapshot`. */
  function RecordImage(sha: Hash, r: Record): (s: seq<u8>)
    requires |r.packet| < MOD_32
    ensures |s| == 48 + |r.packet|
  {
    RecordHeader(r) + r.packet + sha(RecordHeader(r) + r.packet)
  }

  predicate AllStorable(records: seq<Record>) {
    forall i :: 0 <= i < |records| ==> Storable(records[i])
  }

  predicate AllCommitted(records: seq<Record>) {
    forall i :: 0 <= i < |records| ==> Committed(records[i])
  }

  function Image(sha: Hash, records: seq<Record>): seq<u8>
    requires AllStorable(records)
  {
    if records == [] then [] else RecordImage(sha, records[0]) + Image(sha, records[1..])
  }

  lemma {:induction false} ImageConcat(sha: Hash, x: seq<Record>, y: seq<Record>)
    requires AllStorable(x) && AllStorable(y)
    ensures AllStorable(x + y) && Image(sha, x + y) == Image(sha, x) + Image(sha, y)
  {
    hide RecordImage;
    if x == [] {
      assert x + y == y;
    } else {
      assert (x + y)[1..] == x[1..] + y;
      ImageConcat(sha, x[1..], y);
    }
  }

  lemma ImageOfOne(sha: Hash, r: Record)
    requires Storable(r)
    ensures Image(sha, [r]) == RecordImage(sha, r)
  {
    assert Image(sha, [r]) == RecordImage(sha, r) + Image(sha, []);
  }

  function PayloadBytes(records: seq<Record>): nat {
    if records == [] then 0 else |records[0].packet| + PayloadBytes(records[1..])
  }

  lemma {:induction false} ImageLength(sha: Hash, records: seq<Record>)
    requires AllStorable(records)
    ensures |Image(sha, records)| == 48 * |records| + PayloadBytes(records)
  {
    if records == [] {
    } else {
      ImageLength(sha, records[1..]);
    }
  }

  // ---------- One record read back ----------

  datatype Fault = Truncated | WrongHeader | WrongDigest

  datatype Parsed = Bad(fault: Fault) | Good(record: Record, rest: seq<u8>)

  /** One turn of a reading loop on a non-empty stream; `strict` adds the analyser's test of the
      revision. */
  function ParseRecord(sha: Hash, s: seq<u8>, strict: bool): (p: Parsed)
    ensures p.Good? ==> Storable(p.record) && |p.rest| < |s|
  {
    if |s| < 16 then Bad(Truncated)
    else
      var slot, size, revision := GetU32(s, 0), GetU32(s, 4), GetU64(s, 8);
      if slot >= 8 || size == 0 || size > CAPACITY || (strict && (revision == 0 || revision % 2 != 0))
      then Bad(WrongHeader)
      else if |s| < 48 + size then Bad(Truncated)
      else if sha(s[..16] + s[16..16 + size]) != s[16 + size..48 + size] then Bad(WrongDigest)
      else Good(Record(slot, revision, s[16..16 + size]), s[48 + size..])
  }

  /** What the loop makes of a stream: its first fault, after that many records, or all its records. */
  datatype Stream = Malformed(fault: Fault, after: nat) | Records(records: seq<Record>)

  /** The whole loop: records until the stream ends exactly between two of them. */
  function ParseStream(sha: Hash, s: seq<u8>, strict: bool): (r: Stream)
    ensures r.Records? ==> AllStorable(r.records)
    decreases |s|
  {
    if s == [] then Records([])
    else
      match ParseRecord(sha, s, strict)
      case Bad(fault) => Malformed(fault, 0)
      case Good(record, rest) =>
        match ParseStream(sha, rest, strict)
        case Malformed(fault, after) => Malformed(fault, after + 1)
        case Records(records) => Records([record] + records)
  }

  /** A parsed record is the image of itself. */
  lemma ParsedIsImage(sha: Hash, s: seq<u8>, strict: bool)
    requires ParseRecord(sha, s, strict).Good?
    ensures var p := ParseRecord(sha, s, strict);
            s == RecordImage(sha, p.record) + p.rest && (strict ==> Committed(p.record))
  {
    hide LittleEndian, Value;
    var p := ParseRecord(sha, s, strict);
    var size := |p.record.packet|;
    GetU32Image(s, 0);
    GetU32Image(s, 4);
    GetU64Image(s, 8);
    assert s[..16] == s[0..4] + s[4..8] + s[8..16];
    assert RecordHeader(p.record) == s[..16];
    assert s == s[..16] + s[16..16 + size] + s[16 + size..48 + size] + s[48 + size..];
  }

  lemma ImageParses(sha: Hash, r: Record, rest: seq<u8>, strict: bool)
    requires Storable(r) && (strict ==> Committed(r))
    ensures ParseRecord(sha, RecordImage(sha, r) + rest, strict) == Good(r, rest)
  {
    hide LittleEndian, Value;
    var s, head, size := RecordImage(sha, r) + rest, RecordHeader(r), |r.packet|;
    assert s[..16] == head;
    assert s[0..4] == head[0..4] == LittleEndian(r.slot, 4);
    assert s[4..8] == head[4..8] == LittleEndian(size, 4);
    assert s[8..16] == head[8..16] == LittleEndian(r.revision, 8);
    GetU32Is(s, 0, r.slot);
    GetU32Is(s, 4, size);
    GetU64Is(s, 8, r.revision);
    assert s[16..16 + size] == r.packet;
    assert s[16 + size..48 + size] == sha(head + r.packet);
    assert s[48 + size..] == rest;
  }

  // ---------- Printer and parser are inverse ----------

  lemma {:induction false} StreamOfImage(sha: Hash, records: seq<Record>, strict: bool)
    requires AllStorable(records) && (strict ==> AllCommitted(records))
    ensures ParseStream(sha, Image(sha, records), strict) == Records(records)
  {
    if records == [] {
    } else {
      var rest := Image(sha, records[1..]);
      StreamOfImage(sha, records[1..], strict);
      ImageParses(sha, records[0], rest, strict);
      assert records == [records[0]] + records[1..];
    }
  }

  lemma {:induction false} ImageOfStream(sha: Hash, s: seq<u8>, strict: bool)
    requires ParseStream(sha, s, strict).Records?
    ensures var records := ParseStream(sha, s, strict).records;
            s == Image(sha, records) && (strict ==> AllCommitted(records))
    decreases |s|
  {
    if s == [] {
    } else {
      var p := ParseRecord(sha, s, strict);
      ParsedIsImage(sha, s, strict);
      ImageOfStream(sha, p.rest, strict);
      var records := ParseStream(sha, s, strict).records;
      assert records[1..] == ParseStream(sha, p.rest, strict).records;
    }
  }

  /** The analyser's loop accepts a stream with a given record list exactly when the stream is the
      concatenated output of the writer for that list, so the list is unique; and `verifyRecord`'s
      loop then finds the same records. */
  lemma StreamIffImage(sha: Hash, s: seq<u8>, records: seq<Record>)
    ensures ParseStream(sha, s, true) == Records(records) <==>
            AllCommitted(records) && AllStorable(records) && s == Image(sha, records)
    ensures ParseStream(sha, s, true).Records? ==> ParseStream(sha, s, false) == ParseStream(sha, s, true)
  {
    if ParseStream(sha, s, true).Records? {
      ImageOfStream(sha, s, true);
      var found := ParseStream(sha, s, true).records;
      StreamOfImage(sha, found, false);
    }
    if AllCommitted(records) && AllStorable(records) && s == Image(sha, records) {
      StreamOfImage(sha, records, true);
    }
  }

  // ---------- Where a stream goes wrong ----------

  /** A record fails to parse for one of three reasons, in this order. */
  lemma FaultIs(sha: Hash, s: seq<u8>, strict: bool)
    ensures var p := ParseRecord(sha, s, strict);
            && (p.Bad? && |s| < 16 ==> p.fault == Truncated)
            && (|s| >= 16 ==>
                  var slot, size, revision := GetU32(s, 0), GetU32(s, 4), GetU64(s, 8);
                  var refused := slot > 7 || size < 1 || size > 1024 || (strict && (revision == 0 || revision % 2 == 1));
                  && (p == Bad(WrongHeader) <==> refused)
                  && (p == Bad(Truncated) <==> !refused && |s| < 48 + size)
                  && (p == Bad(WrongDigest) <==>
                        !refused && |s| >= 48 + size && sha(s[..16 + size]) != s[16 + size..48 + size])
                  && (p.Good? ==> p.record.slot == slot && p.record.revision == revision && |p.record.packet| == size))
  {
    hide LittleEndian, Value;
    if |s| >= 16 {
      var size := GetU32(s, 4);
      if 16 + size <= |s| {
        assert s[..16] + s[16..16 + size] == s[..16 + size];
      }
    }
  }

  ghost predicate StopsAfter(sha: Hash, s: seq<u8>, strict: bool, fault: Fault, n: nat, records: seq<Record>, rest: seq<u8>) {
    && |records| == n && AllStorable(records) && (strict ==> AllCommitted(records))
    && s == Image(sha, records) + rest
    && rest != [] && ParseRecord(sha, rest, strict) == Bad(fault)
  }

  lemma StopsLater(sha: Hash, record: Record, tail: seq<u8>, strict: bool, fault: Fault, n: nat, records: seq<Record>, rest: seq<u8>)
    requires Storable(record) && (strict ==> Committed(record)) && StopsAfter(sha, tail, strict, fault, n, records, rest)
    ensures StopsAfter(sha, RecordImage(sha, record) + tail, strict, fault, n + 1, [record] + records, rest)
  {
    hide RecordImage, ParseRecord;
    var more := [record] + records;
    assert more[1..] == records && more[0] == record;
    assert RecordImage(sha, record) + Image(sha, records) == Image(sha, more);
  }

  /** What a stream that stops tells about its first record. */
  lemma StopIsUnique(sha: Hash, s: seq<u8>, strict: bool, fault: Fault, n: nat, records: seq<Record>, rest: seq<u8>)
    requires StopsAfter(sha, s, strict, fault, n, records, rest)
    ensures n == 0 ==> ParseRecord(sha, s, strict) == Bad(fault)
    ensures n > 0 ==>
              && ParseRecord(sha, s, strict).Good?
              && StopsAfter(sha, ParseRecord(sha, s, strict).rest, strict, fault, n - 1, records[1..], rest)
  {
    hide RecordImage, ParseRecord;
    if n == 0 {
      assert s == rest;
    } else {
      var tail := Image(sha, records[1..]) + rest;
      assert s == RecordImage(sha, records[0]) + tail;
      ImageParses(sha, records[0], tail, strict);
    }
  }

  lemma {:induction false} FaultMeansStop(sha: Hash, s: seq<u8>, strict: bool)
    returns (records: seq<Record>, rest: seq<u8>)
    requires ParseStream(sha, s, strict).Malformed?
    ensures var m := ParseStream(sha, s, strict); StopsAfter(sha, s, strict, m.fault, m.after, records, rest)
    decreases |s|
  {
    hide ParseRecord, RecordImage, StopsAfter;
    match ParseRecord(sha, s, strict)
    case Bad(fault) =>
      records, rest := [], s;
      StopsAtOnce(sha, s, strict, fault);
    case Good(record, tail) =>
      ParsedIsImage(sha, s, strict);
      records, rest := FaultMeansStop(sha, tail, strict);
      var m := ParseStream(sha, tail, strict);
      StopsLater(sha, record, tail, strict, m.fault, m.after, records, rest);
      records := [record] + records;
  }

  lemma StopsAtOnce(sha: Hash, s: seq<u8>, strict: bool, fault: Fault)
    requires s != [] && ParseRecord(sha, s, strict) == Bad(fault)
    ensures StopsAfter(sha, s, strict, fault, 0, [], s)
  {
    hide ParseRecord;
  }

  lemma {:induction false} StopMeansFault(sha: Hash, s: seq<u8>, strict: bool, fault: Fault, n: nat, records: seq<Record>, rest: seq<u8>)
    requires StopsAfter(sha, s, strict, fault, n, records, rest)
    ensures ParseStream(sha, s, strict) == Malformed(fault, n)
    decreases n
  {
    hide ParseRecord, RecordImage;
    StopIsUnique(sha, s, strict, fault, n, records, rest);
    if n == 0 {
      assert s == rest;
    } else {
      StopMeansFault(sha, ParseRecord(sha, s, strict).rest, strict, fault, n - 1, records[1..], rest);
      assert |RecordImage(sha, records[0])| > 0 && s != [];
    }
  }

  /** The loop stops with a fault after `n` records exactly when the stream is the image of `n`
      records and then something that does not parse, for that reason. */
  lemma MalformedIff(sha: Hash, s: seq<u8>, strict: bool, fault: Fault, n: nat)
    ensures ParseStream(sha, s, strict) == Malformed(fault, n) <==>
            exists records: seq<Record>, rest: seq<u8> :: StopsAfter(sha, s, strict, fault, n, records, rest)
  {
    hide StopsAfter, ParseStream;
    if ParseStream(sha, s, strict) == Malformed(fault, n) {
      var records, rest := FaultMeansStop(sha, s, strict);
    }
    if records: seq<Record>, rest: seq<u8> :| StopsAfter(sha, s, strict, fault, n, records, rest) {
      StopMeansFault(sha, s, strict, fault, n, records, rest);
    }
  }

  /** The bytes of a record, place by place, and those of the prefix. */
  lemma RecordLayout(sha: Hash, r: Record)
    requires |r.packet| < MOD_32
    ensures var s, n := RecordImage(sha, r), |r.packet|;
            && s[0..4] == LittleEndian(r.slot, 4) && s[4..8] == LittleEndian(n, 4) && s[8..16] == LittleEndian(r.revision, 8)
            && s[16..16 + n] == r.packet && s[16 + n..] == sha(s[..16 + n])
    ensures PREFIX == ['G' as int, '1' as int, 'R' as int, 'E' as int, 'C' as int, '1' as int, 0, 0]
  {
    hide LittleEndian;
    assert RecordImage(sha, r)[..16 + |r.packet|] == RecordHeader(r) + r.packet;
  }
}

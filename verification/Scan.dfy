/**
 The log file as the store opens it: the header, and the scan that delivers records in order and
 ends at the end of the file, at a torn record, or at corruption.
 */
module Scan {
  import opened Bytes
  import opened Crc32c
  import opened Record
  import opened Damage
  import opened Legacy

  const HEADER_SIZE := 16
  const LOG_VERSION := 5
  const MAGIC: Bytes := [72, 89, 66, 82]

  // --------------------------------------------------------------- header

  datatype Header = Header(version: nat, incompatible: nat, readOnly: nat)

  datatype HeaderResult = Readable(header: Header) | CorruptHeader | UnsupportedVersion | UnsupportedFeature

  predicate HeaderFits(h: Header) {
    h.version < 0x1_0000_0000 && h.incompatible < 0x1_0000_0000 && h.readOnly < 0x1_0000_0000
  }

  function HeaderBytes(h: Header): (b: Bytes)
    ensures |b| == HEADER_SIZE
  {
    MAGIC + LittleEndian(h.version, 4) + LittleEndian(h.incompatible, 4) + LittleEndian(h.readOnly, 4)
  }

  /** Reads the header; only a version 5 header carries feature masks, and this build knows no feature. */
  function ReadHeader(file: Bytes): HeaderResult {
    if |file| < HEADER_SIZE || file[..4] != MAGIC then CorruptHeader
    else
      var version := Number(file[4..8]);
      if version == 0 then CorruptHeader
      else if version > LOG_VERSION then UnsupportedVersion
      else if version < 5 then Readable(Header(version, 0, 0))
      else
        var incompatible, readOnly := Number(file[8..12]), Number(file[12..16]);
        if incompatible != 0 then UnsupportedFeature else Readable(Header(version, incompatible, readOnly))
  }

  const EMPTY_LOG: Bytes := HeaderBytes(Header(LOG_VERSION, 0, 0))

  const V4_HEADER: Bytes := HeaderBytes(Header(4, 0, 0))

  /**
   Which header is read how, for all bytes: `version`, `incompatible` and `readOnly` are the three 32-bit
   numbers behind the magic. The masks count from version 5 on.
   */
  lemma HeaderOutcome(file: Bytes)
    ensures |file| < 16 ==> ReadHeader(file) == CorruptHeader
    ensures |file| >= 16 ==>
      var version, incompatible, readOnly := Number(file[4..8]), Number(file[8..12]), Number(file[12..16]);
      && (ReadHeader(file) == CorruptHeader <==> file[..4] != [72, 89, 66, 82] || version == 0)
      && (ReadHeader(file) == UnsupportedVersion <==> file[..4] == [72, 89, 66, 82] && version > 5)
      && (ReadHeader(file) == UnsupportedFeature <==> file[..4] == [72, 89, 66, 82] && version == 5 && incompatible != 0)
      && (ReadHeader(file).Readable? <==>
          file[..4] == [72, 89, 66, 82] && 1 <= version <= 5 && (version == 5 ==> incompatible == 0))
      && (ReadHeader(file).Readable? ==>
          ReadHeader(file).header == Header(version, 0, if version == 5 then readOnly else 0))
  {
    hide Number;
  }

  /** What a header of any version with any masks, written by any build, is read as. */
  lemma HeaderWritten(h: Header, rest: Bytes)
    requires HeaderFits(h)
    ensures ReadHeader(HeaderBytes(h) + rest) ==
      if h.version == 0 then CorruptHeader
      else if h.version > 5 then UnsupportedVersion
      else if h.version == 5 && h.incompatible != 0 then UnsupportedFeature
      else Readable(if h.version == 5 then h else Header(h.version, 0, 0))
  {
    hide LittleEndian, Number, MAGIC;
    HeaderParts(h, rest);
  }

  lemma HeaderParts(h: Header, rest: Bytes)
    requires HeaderFits(h)
    ensures var file := HeaderBytes(h) + rest;
      && file[..4] == MAGIC && Number(file[4..8]) == h.version
      && Number(file[8..12]) == h.incompatible && Number(file[12..16]) == h.readOnly
  {
    hide LittleEndian, Number, MAGIC;
    RadixValues();
    var file := HeaderBytes(h) + rest;
    var v, i, r := LittleEndian(h.version, 4), LittleEndian(h.incompatible, 4), LittleEndian(h.readOnly, 4);
    assert file[0..0 + |MAGIC + v + i| + |r|] == MAGIC + v + i + r;
    Split(file, 0, MAGIC + v + i, r);
    Split(file, 0, MAGIC + v, i);
    Split(file, 0, MAGIC, v);
    NumberOfLittleEndian(h.version, 4);
    NumberOfLittleEndian(h.incompatible, 4);
    NumberOfLittleEndian(h.readOnly, 4);
  }

  /** A header is read back as it was written, when this build can read it. */
  lemma HeaderReadBack(h: Header, rest: Bytes)
    requires HeaderFits(h) && 1 <= h.version <= LOG_VERSION && h.incompatible == 0
    requires h.version < 5 ==> h.readOnly == 0
    ensures ReadHeader(HeaderBytes(h) + rest) == Readable(h)
  {
    hide HeaderBytes, ReadHeader;
    HeaderWritten(h, rest);
  }

  /** Only the first sixteen bytes matter to the header. */
  lemma HeaderLocal(a: Bytes, b: Bytes)
    requires |a| >= HEADER_SIZE && |b| >= HEADER_SIZE && a[..HEADER_SIZE] == b[..HEADER_SIZE]
    ensures ReadHeader(a) == ReadHeader(b)
  {
    hide Number, MAGIC;
    SharedSlice(a, b, HEADER_SIZE, 0, 4);
    SharedSlice(a, b, HEADER_SIZE, 4, 8);
    SharedSlice(a, b, HEADER_SIZE, 8, 12);
    SharedSlice(a, b, HEADER_SIZE, 12, 16);
  }

  // --------------------------------------------------------------- scan

  /** Why a scan stopped. */
  datatype Outcome = Done | Torn | Corrupt

  datatype ScanResult = ScanResult(records: seq<LogRecord>, end: nat, outcome: Outcome)

  function ParseAt(data: Bytes, pos: nat, version: nat): (p: Parse)
    requires pos <= |data|
    ensures p.Parsed? ==> pos < p.next <= |data|
  {
    if version >= 4 then ParseRecord(data, pos) else ParseLegacy(data, pos, version)
  }

  /** Scans `data` from `pos` for records that end by `limit`. */
  function ScanFrom(data: Bytes, limit: nat, pos: nat, version: nat): (s: ScanResult)
    requires pos <= limit <= |data|
    ensures pos <= s.end <= limit
    ensures s.outcome == Done ==> s.end == limit
    decreases limit - pos
  {
    if pos >= limit then ScanResult([], pos, Done)
    else match ParseAt(data, pos, version)
      case EndOfInput => ScanResult([], pos, Torn)
      case Malformed => ScanResult([], pos, Corrupt)
      case Parsed(record, next) =>
        if next > limit then ScanResult([], pos, Corrupt)
        else
          var rest := ScanFrom(data, limit, next, version);
          ScanResult([record] + rest.records, rest.end, rest.outcome)
  }

  /** The scan of a whole file, as at open. */
  function ScanLog(file: Bytes, version: nat): ScanResult
    requires |file| >= HEADER_SIZE
  {
    ScanFrom(file, |file|, HEADER_SIZE, version)
  }

  // --------------------------------------------------------------- locality

  lemma TextLocal(a: Bytes, b: Bytes, pos: nat)
    requires pos <= |a| && TextAt(a, pos).Some?
    requires TextAt(a, pos).value.next <= |b| && a[..TextAt(a, pos).value.next] == b[..TextAt(a, pos).value.next]
    ensures TextAt(b, pos) == TextAt(a, pos)
  {
    hide Number;
    var next := TextAt(a, pos).value.next;
    SharedSlice(a, b, next, pos, pos + 2);
    SharedSlice(a, b, next, pos + 2, next);
  }

  lemma IntLocal(a: Bytes, b: Bytes, pos: nat)
    requires pos <= |a| && IntAt(a, pos).Some?
    requires pos + 8 <= |b| && a[..pos + 8] == b[..pos + 8]
    ensures IntAt(b, pos) == IntAt(a, pos)
  {
    hide Number;
    SharedSlice(a, b, pos + 8, pos, pos + 8);
  }

  lemma FieldsLocal(a: Bytes, b: Bytes, pos: nat, version: nat)
    requires pos <= |a| && FieldsAt(a, pos, version).Some?
    requires var n := FieldsAt(a, pos, version).value.next; n <= |b| && a[..n] == b[..n]
    ensures FieldsAt(b, pos, version) == FieldsAt(a, pos, version)
  {
    hide TextAt, IntAt;
    var n := FieldsAt(a, pos, version).value.next;
    var category := TextAt(a, pos).value;
    var provider := TextAt(a, category.next).value;
    var status := TextAt(a, provider.next).value;
    var name := TextAt(a, status.next).value;
    SharedSlice(a, b, n, 0, category.next);
    TextLocal(a, b, pos);
    SharedSlice(a, b, n, 0, provider.next);
    TextLocal(a, b, category.next);
    SharedSlice(a, b, n, 0, status.next);
    TextLocal(a, b, provider.next);
    SharedSlice(a, b, n, 0, name.next);
    TextLocal(a, b, status.next);
    SharedSlice(a, b, n, 0, name.next + 8);
    IntLocal(a, b, name.next);
    if version >= 3 {
      var protocol := TextAt(a, name.next + 8).value;
      SharedSlice(a, b, n, 0, protocol.next);
      TextLocal(a, b, name.next + 8);
      IntLocal(a, b, protocol.next);
    }
  }

  lemma LegacyLocal(a: Bytes, b: Bytes, pos: nat, version: nat)
    requires pos <= |a| && ParseLegacy(a, pos, version).Parsed?
    requires var n := ParseLegacy(a, pos, version).next; n <= |b| && a[..n] == b[..n]
    ensures ParseLegacy(b, pos, version) == ParseLegacy(a, pos, version)
  {
    hide Number, FieldsAt, LegacyAttributes;
    var n := ParseLegacy(a, pos, version).next;
    var keyLen := Number(a[pos..pos + 4]);
    var at := pos + 4 + keyLen;
    var valueLen := Number(a[at..at + 4]);
    var f := at + 4 + valueLen;
    FieldsLocal(a, b, f + 1, version);
    assert a[f] == a[..n][f] == b[f];
    SharedSlice(a, b, n, pos, pos + 4);
    SharedSlice(a, b, n, at, at + 4);
    SharedSlice(a, b, n, pos + 4, at);
  }

  /** A legacy record is refused only for its two lengths; whatever else is missing is a torn tail. */
  lemma LegacyMalformedIff(data: Bytes, pos: nat, version: nat)
    requires pos <= |data|
    ensures ParseLegacy(data, pos, version) == Malformed <==>
      && pos + 4 <= |data|
      && var n := Number(data[pos..pos + 4]);
         n > 0x10_0000 || (pos + 8 + n <= |data| && Number(data[pos + 4 + n..pos + 8 + n]) > 0x7FFF_FFFF)
  {
    hide Number, FieldsAt, LegacyAttributes;
  }

  lemma LegacyLengths(data: Bytes, pos: nat, key: Bytes, value: Bytes, flags: byte, f: Fields, version: nat)
    requires FieldSizesFit(f) && |key| <= MAX_KEY_SIZE && |value| <= MAX_VALUE_SIZE
    requires var frame := LegacyFrame(key, value, flags, f, version);
      pos + |frame| <= |data| && data[pos..pos + |frame|] == frame
    ensures pos + 8 + |key| <= |data|
    ensures Number(data[pos..pos + 4]) == |key| && Number(data[pos + 4 + |key|..pos + 8 + |key|]) == |value|
  {
    hide LittleEndian, Number, FieldBytes;
    RadixValues();
    var k, v := LittleEndian(|key|, 4), LittleEndian(|value|, 4);
    Split(data, pos, k + key + v + value + [flags], FieldBytes(f, version));
    Split(data, pos, k + key + v + value, [flags]);
    Split(data, pos, k + key + v, value);
    Split(data, pos, k + key, v);
    Split(data, pos, k, key);
    NumberOfLittleEndian(|key|, 4);
    NumberOfLittleEndian(|value|, 4);
  }

  /** A strict prefix of a version 1, 2 or 3 frame at the end of the data reads as end of input. */
  lemma TornLegacyFrame(before: Bytes, key: Bytes, value: Bytes, flags: byte, f: Fields, version: nat, n: nat)
    requires FieldSizesFit(f) && |key| <= MAX_KEY_SIZE && |value| <= MAX_VALUE_SIZE
    requires n < |LegacyFrame(key, value, flags, f, version)|
    ensures ParseLegacy(before + LegacyFrame(key, value, flags, f, version)[..n], |before|, version) == EndOfInput
  {
    hide ParseLegacy, LegacyFrame, LegacyAttributes, Number;
    var frame, pos := LegacyFrame(key, value, flags, f, version), |before|;
    var data, whole := before + frame[..n], before + frame;
    assert whole[pos..pos + |frame|] == frame;
    assert whole[..|data|] == data;
    ParseOfLegacyFrame(whole, pos, key, value, flags, f, version);
    LegacyLengths(whole, pos, key, value, flags, f, version);
    match ParseLegacy(data, pos, version)
    case Parsed(_, next) =>
      assert data[..next] == whole[..next];
      LegacyLocal(data, whole, pos, version);
    case Malformed =>
      LegacyMalformedIff(data, pos, version);
      SharedSlice(data, whole, |data|, pos, pos + 4);
      if pos + 8 + |key| <= |data| {
        SharedSlice(data, whole, |data|, pos + 4 + |key|, pos + 8 + |key|);
      }
    case EndOfInput =>
  }

  lemma RecordLocal(a: Bytes, b: Bytes, pos: nat)
    requires pos <= |a| && ParseRecord(a, pos).Parsed?
    requires var n := ParseRecord(a, pos).next; n <= |b| && a[..n] == b[..n]
    ensures ParseRecord(b, pos) == ParseRecord(a, pos)
  {
    hide FieldsFit, ChecksumMatches, RawAt, LengthField, Frame;
    var n := ParseRecord(a, pos).next;
    FrameOfFields(a, pos);
    var r := RawAt(a, pos);
    assert n == pos + |Frame(r)|;
    SharedSlice(a, b, n, pos, n);
    ParseOfFrame(a, pos, r);
    ParseOfFrame(b, pos, r);
  }

  /** An accepted record is read the same wherever the bytes up to its end are the same. */
  lemma ParseLocal(a: Bytes, b: Bytes, pos: nat, version: nat)
    requires pos <= |a| && ParseAt(a, pos, version).Parsed?
    requires var n := ParseAt(a, pos, version).next; n <= |b| && a[..n] == b[..n]
    ensures ParseAt(b, pos, version) == ParseAt(a, pos, version)
  {
    hide ParseRecord, ParseLegacy;
    if version >= 4 {
      RecordLocal(a, b, pos);
    } else {
      LegacyLocal(a, b, pos, version);
    }
  }

  function Prepend(records: seq<LogRecord>, s: ScanResult): ScanResult {
    ScanResult(records + s.records, s.end, s.outcome)
  }

  /** What follows a cleanly scanned log is scanned as if it stood alone, after the same records. */
  lemma {:induction false} ScanSplit(log: Bytes, rest: Bytes, pos: nat, version: nat)
    requires pos <= |log| && ScanFrom(log, |log|, pos, version).outcome == Done
    ensures var whole := log + rest;
      ScanFrom(whole, |whole|, pos, version)
      == Prepend(ScanFrom(log, |log|, pos, version).records, ScanFrom(whole, |whole|, |log|, version))
    decreases |log| - pos
  {
    hide ParseAt, ScanFrom;
    var whole := log + rest;
    var t := ScanFrom(whole, |whole|, |log|, version);
    if pos == |log| {
      ScanEnd(log, version);
      assert [] + t.records == t.records;
    } else {
      CleanStep(log, |log|, pos, version);
      var p := ParseAt(log, pos, version);
      assert whole[..p.next] == log[..p.next];
      ParseLocal(log, whole, pos, version);
      ScanStep(whole, |whole|, pos, version);
      ScanSplit(log, rest, p.next, version);
      var s := ScanFrom(log, |log|, p.next, version);
      assert ([p.record] + s.records) + t.records == [p.record] + (s.records + t.records);
    }
  }

  lemma ScanEnd(data: Bytes, version: nat)
    ensures ScanFrom(data, |data|, |data|, version) == ScanResult([], |data|, Done)
  {
  }

  lemma ScanStep(data: Bytes, limit: nat, pos: nat, version: nat)
    requires pos < limit <= |data| && ParseAt(data, pos, version).Parsed? && ParseAt(data, pos, version).next <= limit
    ensures var p := ParseAt(data, pos, version);
      ScanFrom(data, limit, pos, version) == Prepend([p.record], ScanFrom(data, limit, p.next, version))
  {
    hide ParseAt;
  }

  /** A clean scan goes on from its first record to a clean end. */
  lemma CleanStep(data: Bytes, limit: nat, pos: nat, version: nat)
    requires pos < limit <= |data| && ScanFrom(data, limit, pos, version).outcome == Done
    ensures var p := ParseAt(data, pos, version);
      && p.Parsed? && p.next <= limit && ScanFrom(data, limit, p.next, version).outcome == Done
      && ScanFrom(data, limit, pos, version) == Prepend([p.record], ScanFrom(data, limit, p.next, version))
  {
    hide ParseAt;
  }

  /** Cutting a log where its scan stopped leaves the same records and a clean end. */
  lemma {:induction false} ScanTruncated(data: Bytes, pos: nat, version: nat)
    requires pos <= |data|
    ensures var s := ScanFrom(data, |data|, pos, version);
      ScanFrom(data[..s.end], s.end, pos, version) == ScanResult(s.records, s.end, Done)
    decreases |data| - pos
  {
    hide ParseAt;
    var s := ScanFrom(data, |data|, pos, version);
    if pos < |data| && ParseAt(data, pos, version).Parsed? {
      var p := ParseAt(data, pos, version);
      ScanTruncated(data, p.next, version);
      assert data[..s.end][..p.next] == data[..p.next];
      ParseLocal(data, data[..s.end], pos, version);
    }
  }

  /** A cleanly scanned log followed by one record scans cleanly to one more record. */
  lemma ScanAppended(log: Bytes, frame: Bytes, record: LogRecord, version: nat)
    requires |log| >= HEADER_SIZE && ScanLog(log, version).outcome == Done
    requires ParseAt(log + frame, |log|, version) == Parsed(record, |log| + |frame|)
    ensures ScanLog(log + frame, version) ==
      ScanResult(ScanLog(log, version).records + [record], |log| + |frame|, Done)
  {
    hide ParseAt;
    var whole := log + frame;
    ScanSplit(log, frame, HEADER_SIZE, version);
    assert ScanFrom(whole, |whole|, |whole|, version) == ScanResult([], |whole|, Done);
    assert ScanFrom(whole, |whole|, |log|, version) == ScanResult([record], |whole|, Done);
  }

  // --------------------------------------------------------------- the header does not matter to the scan

  /** Reading a record looks only at the bytes from its start on. */
  lemma RecordIgnoresBefore(a: Bytes, b: Bytes, pos: nat)
    requires pos <= |a| == |b| && a[pos..] == b[pos..]
    ensures ParseRecord(a, pos) == ParseRecord(b, pos)
  {
    hide Number, Checksum, Interpret;
    assert forall i :: pos <= i < |a| ==> a[i] == a[pos..][i - pos] == b[i];
    if |a| - pos >= 4 {
      assert a[pos..pos + 4] == b[pos..pos + 4];
      if |a| - pos >= 20 {
        FixedSame(a, b, pos);
        var n := LengthField(a, pos);
        if FieldsFit(a, pos) && Complete(a, pos, n) {
          assert a[pos + 4..pos + n] == b[pos + 4..pos + n];
          assert a[pos + n..pos + n + 4] == b[pos + n..pos + n + 4];
          RawSame(a, b, pos);
        }
      }
    }
  }

  lemma FixedSame(a: Bytes, b: Bytes, pos: nat)
    requires pos + 20 <= |a| == |b| && forall i :: pos <= i < |a| ==> a[i] == b[i]
    ensures LengthField(a, pos) == LengthField(b, pos) && KeyLen(a, pos) == KeyLen(b, pos)
    ensures BlockLen(a, pos) == BlockLen(b, pos) && ValueLen(a, pos) == ValueLen(b, pos)
  {
    hide Number;
    assert a[pos..pos + 4] == b[pos..pos + 4];
    assert a[pos + 8..pos + 12] == b[pos + 8..pos + 12];
    assert a[pos + 12..pos + 16] == b[pos + 12..pos + 16];
    assert a[pos + 16..pos + 20] == b[pos + 16..pos + 20];
  }

  lemma RawSame(a: Bytes, b: Bytes, pos: nat)
    requires pos + 20 <= |a| == |b| && forall i :: pos <= i < |a| ==> a[i] == b[i]
    requires FieldsFit(a, pos) && Complete(a, pos, LengthField(a, pos))
    requires FieldsFit(b, pos) && Complete(b, pos, LengthField(b, pos))
    ensures RawAt(a, pos) == RawAt(b, pos)
  {
    hide LengthField, KeyLen, BlockLen, ValueLen;
    FixedSame(a, b, pos);
    var k, n := pos + 20, pos + LengthField(a, pos);
    var c := k + KeyLen(a, pos);
    var v := c + BlockLen(a, pos);
    var e := v + ValueLen(a, pos);
    assert a[pos + 5..pos + 8] == b[pos + 5..pos + 8];
    assert a[k..c] == b[k..c];
    assert a[c..v] == b[c..v];
    assert a[v..e] == b[v..e];
    assert a[e..n] == b[e..n];
  }

  /** A version 4 log and a version 5 log with the same body scan alike, whatever their headers say. */
  lemma {:induction false} ScanIgnoresHeader(a: Bytes, b: Bytes, pos: nat, v: nat, w: nat)
    requires pos <= |a| == |b| && a[pos..] == b[pos..] && v >= 4 && w >= 4
    ensures ScanFrom(a, |a|, pos, v) == ScanFrom(b, |b|, pos, w)
    decreases |a| - pos
  {
    hide ParseRecord;
    RecordIgnoresBefore(a, b, pos);
    if pos < |a| && ParseRecord(a, pos).Parsed? {
      var next := ParseRecord(a, pos).next;
      assert a[next..] == a[pos..][next - pos..] == b[next..];
      ScanIgnoresHeader(a, b, next, v, w);
    }
  }

  // --------------------------------------------------------------- damage to a log

  /**
   Torn-tail recovery is exact: a clean log followed by a strict, non-empty prefix of one more
   frame scans to exactly the log's records and stops at its end.
   */
  lemma TornTailExact(log: Bytes, r: Raw, n: nat)
    requires |log| >= HEADER_SIZE && ScanLog(log, LOG_VERSION).outcome == Done
    requires WithinLimits(r) && 0 < n < |Frame(r)|
    ensures ScanLog(log + Frame(r)[..n], LOG_VERSION) == ScanResult(ScanLog(log, LOG_VERSION).records, |log|, Torn)
  {
    hide ParseRecord, Frame;
    TornFrame(log, r, n);
    ScanSplit(log, Frame(r)[..n], HEADER_SIZE, LOG_VERSION);
    assert ScanLog(log, LOG_VERSION).records + [] == ScanLog(log, LOG_VERSION).records;
  }

  /** The same of a log of version 1, 2 or 3. */
  lemma LegacyTornTailExact(
    log: Bytes, key: Bytes, value: Bytes, flags: byte, f: Fields, version: nat, n: nat)
    requires version < 4 && |log| >= HEADER_SIZE && ScanLog(log, version).outcome == Done
    requires FieldSizesFit(f) && |key| <= MAX_KEY_SIZE && |value| <= MAX_VALUE_SIZE
    requires 0 < n < |LegacyFrame(key, value, flags, f, version)|
    ensures ScanLog(log + LegacyFrame(key, value, flags, f, version)[..n], version)
         == ScanResult(ScanLog(log, version).records, |log|, Torn)
  {
    hide ParseLegacy, LegacyFrame;
    TornLegacyFrame(log, key, value, flags, f, version, n);
    ScanSplit(log, LegacyFrame(key, value, flags, f, version)[..n], HEADER_SIZE, version);
    assert ScanLog(log, version).records + [] == ScanLog(log, version).records;
  }

  /**
   One changed byte after the length field of any complete record, wherever it is in the log,
   makes the scan report corruption at that record.
   */
  lemma ChangedByteRefused(before: Bytes, r: Raw, after: Bytes, i: nat, b: byte)
    requires |before| >= HEADER_SIZE && ScanLog(before, LOG_VERSION).outcome == Done
    requires WithinLimits(r) && |before| + 4 <= i < |before| + |Frame(r)|
    requires b != (before + Frame(r) + after)[i]
    ensures ScanLog((before + Frame(r) + after)[i := b], LOG_VERSION)
         == ScanResult(ScanLog(before, LOG_VERSION).records, |before|, Corrupt)
  {
    hide ParseRecord, Frame;
    var file := before + Frame(r) + after;
    var rest := (Frame(r) + after)[i - |before| := b];
    assert file[|before|..|before| + |Frame(r)|] == Frame(r);
    ChangedByteIsMalformed(file, |before|, r, i, b);
    assert file[i := b] == before + rest;
    ScanSplit(before, rest, HEADER_SIZE, LOG_VERSION);
    assert ScanLog(before, LOG_VERSION).records + [] == ScanLog(before, LOG_VERSION).records;
  }
}

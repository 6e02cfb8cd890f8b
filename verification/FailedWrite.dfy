/**
 An append whose write fails half way leaves bytes behind the write position, and the next append
 writes over them. What is left of them after that is behind a complete record, where a scan reads
 it as the next one.
 */
module FailedWrite {
  import opened Bytes
  import opened Crc32c
  import opened Attributes
  import opened Record
  import opened Damage
  import opened Scan
  import opened LogMap
  import opened Log
  import opened FileMeaning

  /** The file after `n` bytes of a failed write and the complete write of `b` at the same place. */
  function AfterRetry(file: Bytes, failed: Bytes, n: nat, b: Bytes): Bytes
    requires n <= |failed|
  {
    Overlay(file + failed[..n], |file|, b)
  }

  lemma RetryLeaves(file: Bytes, failed: Bytes, n: nat, b: Bytes)
    requires n <= |failed|
    ensures n <= |b| ==> AfterRetry(file, failed, n, b) == file + b
    ensures n > |b| ==> AfterRetry(file, failed, n, b) == (file + b) + failed[|b|..n]
  {
    var torn := file + failed[..n];
    assert torn[..|file|] == file;
    if n >= |b| {
      assert torn[|file| + |b|..] == failed[|b|..n];
    }
  }

  lemma ConcatSlice(before: Bytes, tail: Bytes, i: nat, j: nat)
    requires i <= j <= |tail|
    ensures (before + tail)[|before| + i..|before| + j] == tail[i..j]
  {
  }

  lemma TailFields(before: Bytes, tail: Bytes)
    requires |tail| >= 20
    ensures var data, pos := before + tail, |before|;
      && LengthField(data, pos) == LengthField(tail, 0) && KeyLen(data, pos) == KeyLen(tail, 0)
      && BlockLen(data, pos) == BlockLen(tail, 0) && ValueLen(data, pos) == ValueLen(tail, 0)
  {
    hide Number;
    ConcatSlice(before, tail, 0, 4);
    ConcatSlice(before, tail, 8, 12);
    ConcatSlice(before, tail, 12, 16);
    ConcatSlice(before, tail, 16, 20);
  }

  lemma TailRaw(before: Bytes, tail: Bytes)
    requires |tail| >= 20 && FieldsFit(tail, 0) && Complete(tail, 0, LengthField(tail, 0))
    requires var data, pos := before + tail, |before|; FieldsFit(data, pos) && Complete(data, pos, LengthField(data, pos))
    ensures RawAt(before + tail, |before|) == RawAt(tail, 0)
  {
    hide KeyLen, BlockLen, ValueLen, LengthField;
    TailFields(before, tail);
    var a := 20 + KeyLen(tail, 0);
    var v := a + BlockLen(tail, 0);
    var e := v + ValueLen(tail, 0);
    ConcatSlice(before, tail, 5, 8);
    ConcatSlice(before, tail, 20, a);
    ConcatSlice(before, tail, a, v);
    ConcatSlice(before, tail, v, e);
    ConcatSlice(before, tail, e, LengthField(tail, 0));
  }

  lemma TailChecksum(before: Bytes, tail: Bytes, n: nat)
    requires n >= MINIMUM_LENGTH && Complete(tail, 0, n)
    ensures ChecksumMatches(before + tail, |before|, n) <==> ChecksumMatches(tail, 0, n)
  {
    hide Number, Checksum;
    ConcatSlice(before, tail, 4, n);
    ConcatSlice(before, tail, n, n + 4);
  }

  /** Whether the end of input is found does not depend on what stands before. */
  lemma TailAlone(before: Bytes, tail: Bytes)
    ensures ParseRecord(before + tail, |before|) == EndOfInput <==> ParseRecord(tail, 0) == EndOfInput
  {
    hide Number, ChecksumMatches, RawAt, ExtensionsFramed, DecodeAttributes;
    if |tail| >= 4 {
      ConcatSlice(before, tail, 0, 4);
    }
    if |tail| >= 20 {
      TailFields(before, tail);
      var n := LengthField(tail, 0);
      if n >= MINIMUM_LENGTH && FieldsFit(tail, 0) && Complete(tail, 0, n) {
        TailChecksum(before, tail, n);
        TailRaw(before, tail);
      }
    }
  }

  /** What follows a clean log is dropped by the repair exactly when no record and no error can be read there. */
  lemma LeftoverDroppedIff(file: Bytes, junk: Bytes)
    requires Serving(file) && |junk| > 0
    ensures var file' := file + junk;
      Good(file') && Repaired(file') == file <==> ParseRecord(junk, 0) == EndOfInput
  {
    hide ReadHeader, ParseRecord;
    var file' := file + junk;
    TailAlone(file, junk);
    PrefixOfConcat(file, junk, HEADER_SIZE);
    HeaderLocal(file', file);
    ScanSplit(file, junk, HEADER_SIZE, LOG_VERSION);
    var rest := ScanFrom(file', |file'|, |file|, LOG_VERSION);
    assert file'[..|file|] == file;
    if ParseRecord(file', |file|) != EndOfInput && rest.outcome != Corrupt {
      assert rest.end > |file|;
      assert |file'[..rest.end]| == rest.end;
    }
  }

  /**
   After a failed write and a later accepted append, reopening finds exactly the acknowledged log if
   and only if the append covered what the failed write had left, or what remains of it, read by
   itself, is a torn record.
   */
  lemma RetrySafeIff(file: Bytes, failed: Bytes, n: nat, key: Bytes, value: Bytes, deleted: bool, attributes: Attributes)
    requires Serving(file) && n <= |failed| && AppendAccepts(key, value, attributes, [])
    ensures var b := AppendBytes(key, value, deleted, attributes, []);
      var file' := AfterRetry(file, failed, n, b);
      Good(file') && Repaired(file') == file + b
      <==> n <= |b| || ParseRecord(failed[|b|..n], 0) == EndOfInput
  {
    hide Serving, Good, Repaired, ParseRecord, AppendAccepts, AppendBytes, AfterRetry, ApplyItem;
    var b := AppendBytes(key, value, deleted, attributes, []);
    RetryLeaves(file, failed, n, b);
    AppendServes(file, key, value, deleted, attributes);
    if n <= |b| {
      ServingIsGood(file + b);
    } else {
      LeftoverDroppedIff(file + b, failed[|b|..n]);
    }
  }

  const ZEROS: Bytes := [0, 0, 0, 0, 0, 0, 0, 0]

  lemma FailedBytes()
    ensures var b := AppendBytes([], ZEROS, false, map[], []);
      |b| == 36 && b[28..32] == [0, 0, 0, 0] && |AppendBytes([], [], false, map[], [])| == 28
  {
    hide LittleEndian, Checksum, EncodeBlock;
    EmptyBlock();
    var raw := MakeRaw([], ZEROS, false, map[], []);
    var b := Frame(raw);
    assert b[0..|b|] == b;
    FrameParts(b, 0, raw);
    BodyParts(b, 4, raw);
    assert b[24..32] == ZEROS;
    assert b[28..32] == b[24..32][4..8];
  }

  /**
   It need not be so: after 32 of the 36 bytes of one record and all 28 of another, acknowledged
   one, the file cannot be opened again, whatever it held before.
   */
  lemma RetryCanRefuse(file: Bytes)
    requires Serving(file)
    ensures AppendAccepts([], ZEROS, map[], []) && AppendAccepts([], [], map[], [])
    ensures |AppendBytes([], ZEROS, false, map[], [])| > 32
    ensures !Good(AfterRetry(file, AppendBytes([], ZEROS, false, map[], []), 32, AppendBytes([], [], false, map[], [])))
  {
    hide ReadHeader, AppendBytes, AfterRetry, Acceptable, EncodeBlock;
    EmptyBlock();
    FailedBytes();
    var failed, b := AppendBytes([], ZEROS, false, map[], []), AppendBytes([], [], false, map[], []);
    assert ExtensionsFramed([]);
    AppendServes(file, [], [], false, map[]);
    RetryLeaves(file, failed, 32, b);
    ZeroLengthRefused(file + b, failed[28..32]);
  }

  lemma ZeroLengthMalformed(data: Bytes, pos: nat)
    requires pos + 4 <= |data| && data[pos..pos + 4] == [0, 0, 0, 0]
    ensures ParseRecord(data, pos) == Malformed
  {
    hide Number;
    ZeroNumber(data[pos..pos + 4]);
  }

  lemma ZeroLengthRefused(file: Bytes, junk: Bytes)
    requires Serving(file) && junk == [0, 0, 0, 0]
    ensures !Good(file + junk)
  {
    hide ReadHeader, ParseRecord;
    var file' := file + junk;
    PrefixOfConcat(file, junk, HEADER_SIZE);
    HeaderLocal(file', file);
    ScanSplit(file, junk, HEADER_SIZE, LOG_VERSION);
    assert file'[|file|..|file| + 4] == junk;
    ZeroLengthMalformed(file', |file|);
  }

  // --------------------------------------------------------------- writing behind a torn tail

  /** A record read at a torn tail that was written behind reaches past the place it was written behind. */
  lemma StraddlesOrStops(file: Bytes, r: Raw, n: nat, after: Bytes)
    requires WithinLimits(r) && n < |Frame(r)|
    ensures var p := ParseRecord(file + Frame(r)[..n] + after, |file|); p.Parsed? ==> p.next > |file| + n
  {
    hide ParseRecord, Frame;
    var torn := file + Frame(r)[..n];
    var p := ParseRecord(torn + after, |file|);
    if p.Parsed? && p.next <= |torn| {
      PrefixOfConcat(torn, after, p.next);
      ParseLocal(torn + after, torn, |file|, LOG_VERSION);
      TornFrame(file, r, n);
      assert false;
    }
  }

  /** The records of a scan lie between where it starts and where it ends. */
  lemma ScanBetween(data: Bytes, pos: nat, rec: LogRecord)
    requires pos <= |data| && rec in ScanFrom(data, |data|, pos, LOG_VERSION).records
    ensures pos <= rec.recordOffset < |data|
  {
    hide ScanFrom, Tiles;
    var s := ScanFrom(data, |data|, pos, LOG_VERSION);
    ScanTiles(data, |data|, pos, LOG_VERSION);
    var i :| 0 <= i < |s.records| && s.records[i] == rec;
    TilesAt(s.records, pos, s.end, i);
  }

  /** No scan of a file with a torn tail starts a record directly behind it, whatever is there. */
  lemma LostBehindTornTail(file: Bytes, r: Raw, n: nat, after: Bytes, rec: LogRecord)
    requires Serving(file) && WithinLimits(r) && 0 < n < |Frame(r)|
    requires rec in ScanLog(file + Frame(r)[..n] + after, LOG_VERSION).records
    ensures rec.recordOffset != |file| + n
  {
    hide ReadHeader, ParseRecord, Frame;
    var tail := Frame(r)[..n] + after;
    Associative(file, Frame(r)[..n], after);
    var file' := file + tail;
    ScanSplit(file, tail, HEADER_SIZE, LOG_VERSION);
    var head, rest := ScanLog(file, LOG_VERSION), ScanFrom(file', |file'|, |file|, LOG_VERSION);
    if rec in head.records {
      ScanBetween(file, HEADER_SIZE, rec);
    } else {
      assert rec in rest.records;
      StraddlesOrStops(file, r, n, after);
      RestOffsets(file', |file|, |file| + n, rec);
    }
  }

  lemma RestOffsets(data: Bytes, pos: nat, gap: nat, rec: LogRecord)
    requires pos < gap <= |data| && (ParseRecord(data, pos).Parsed? ==> ParseRecord(data, pos).next > gap)
    requires rec in ScanFrom(data, |data|, pos, LOG_VERSION).records
    ensures rec.recordOffset != gap
  {
    hide ParseRecord;
    var p := ParseRecord(data, pos);
    var rest := ScanFrom(data, |data|, p.next, LOG_VERSION);
    if rec in rest.records {
      ScanBetween(data, p.next, rec);
    } else {
      assert rec == p.record;
      ParsedPlaced(data, pos, LOG_VERSION);
    }
  }

  /**
   A failed compaction reopens the log without scanning it, so a torn tail from an earlier failed
   write stays and the next append goes behind it. A scan finds the record of that append if and only
   if there was no torn tail.
   */
  lemma AppendBehindIff(
    file: Bytes, r: Raw, n: nat, key: Bytes, value: Bytes, deleted: bool, attributes: Attributes)
    requires Serving(file) && WithinLimits(r) && n < |Frame(r)| && AppendAccepts(key, value, attributes, [])
    ensures var b := AppendBytes(key, value, deleted, attributes, []);
      AppendedRecord(|file| + n, key, value, deleted, attributes, [])
        in ScanLog(file + Frame(r)[..n] + b, LOG_VERSION).records
      <==> n == 0
  {
    hide ReadHeader, Frame, AppendBytes, AppendAccepts, ScanLog, FileIndex, Contents;
    var b := AppendBytes(key, value, deleted, attributes, []);
    var record := AppendedRecord(|file| + n, key, value, deleted, attributes, []);
    var records := ScanLog(file + Frame(r)[..n] + b, LOG_VERSION).records;
    if n == 0 {
      assert file + Frame(r)[..0] + b == file + b;
      AppendRefines(file, key, value, deleted, attributes, []);
      assert record == records[|records| - 1];
    } else if record in records {
      LostBehindTornTail(file, r, n, b, record);
    }
  }

  // --------------------------------------------------------------- what is found instead

  /** The bytes of a failed put up to and with the first four of its value. */
  lemma FrameStart(key: Bytes, w: Bytes, rest: Bytes, other: Bytes)
    requires |key| <= MAX_KEY_SIZE && |w| == 4 && |rest| == |other| && |w + rest| <= MAX_VALUE_SIZE
    ensures var n := 28 + |key|;
      && n < |AppendBytes(key, w + rest, false, map[], [])|
      && AppendBytes(key, w + rest, false, map[], [])[..n] == AppendBytes(key, w + other, false, map[], [])[..n]
      && AppendBytes(key, w + rest, false, map[], [])[n..] == rest + LittleEndian(Checksum(Body(MakeRaw(key, w + rest, false, map[], []))), 4)
  {
    hide LittleEndian, Checksum, EncodeBlock;
    EmptyBlock();
    var a, b := MakeRaw(key, w + rest, false, map[], []), MakeRaw(key, w + other, false, map[], []);
    var head := LittleEndian(RecordLength(a), 4) + (Fixed(a) + key + [0, 0, 0, 0] + w);
    FixedSize(a);
    assert Fixed(a) == Fixed(b) && RecordLength(a) == RecordLength(b);
    FrameSplit(a, w, rest, head);
    FrameSplit(b, w, other, head);
  }

  lemma FrameSplit(r: Raw, w: Bytes, rest: Bytes, head: Bytes)
    requires |r.reserved| == 3 && r.value == w + rest && r.extensions == [] && |Fixed(r)| == 16
    requires head == LittleEndian(RecordLength(r), 4) + (Fixed(r) + r.key + r.block + w)
    ensures Frame(r) == head + (rest + LittleEndian(Checksum(Body(r)), 4))
  {
    hide LittleEndian, Checksum, Fixed;
    assert Body(r) == (Fixed(r) + r.key + r.block + w) + rest;
  }

  /** Four bytes of a value can be chosen so that the record with the rest of the value ends in a given checksum. */
  lemma ValueForChecksum(key: Bytes, rest: Bytes, end: Bytes) returns (w: Bytes)
    requires |end| == 4
    ensures |w| == 4 && LittleEndian(Checksum(Body(MakeRaw(key, w + rest, false, map[], []))), 4) == end
  {
    hide LittleEndian, Number, Checksum, EncodeBlock, Fixed;
    var zero: Bytes := [0, 0, 0, 0];
    var before := Fixed(MakeRaw(key, zero + rest, false, map[], [])) + key + EncodeBlock(map[]);
    RadixValues();
    w := FourBytesGiveChecksum(before, rest, Number(end));
    LittleEndianOfNumber(end);
    FixedSame(key, w + rest, zero + rest);
    assert Body(MakeRaw(key, w + rest, false, map[], [])) == before + w + rest;
  }

  lemma FixedSame(key: Bytes, value: Bytes, other: Bytes)
    requires |value| == |other|
    ensures Fixed(MakeRaw(key, value, false, map[], [])) == Fixed(MakeRaw(key, other, false, map[], []))
  {
    hide LittleEndian, EncodeBlock;
  }

  function Zeros(n: nat): (z: Bytes)
    ensures |z| == n
  {
    seq(n, i => 0)
  }

  /** A log, a torn tail, a record behind it, and a put behind that. */
  ghost function BehindTail(file: Bytes, tail: Bytes, first: Bytes, key: Bytes, value: Bytes): Bytes {
    file + tail + first + AppendBytes(key, value, false, map[], [])
  }

  /**
   What goes behind a torn tail need not all be lost. For every clean log and any two further puts
   there is a put that fails after 29 bytes such that an open then finds no trace of the first put,
   finds a value under the key of the failed one, which was never acknowledged, and finds the second.
   */
  lemma LaterAppendsCanBeFound(
    file: Bytes, first: Bytes, key: Bytes, value: Bytes, deleted: bool, attributes: Attributes, key': Bytes, value': Bytes)
    returns (failed: Bytes)
    requires Serving(file) && AppendAccepts(key, value, attributes, []) && AppendAccepts(key', value', map[], [])
    requires first == AppendBytes(key, value, deleted, attributes, []) && 4 <= |first| <= MAX_VALUE_SIZE
    ensures AppendAccepts([1], failed, map[], []) && |failed| == |first|
    ensures |AppendBytes([1], failed, false, map[], [])| > 29
    ensures Serving(BehindTail(file, AppendBytes([1], failed, false, map[], [])[..29], first, key', value'))
    ensures Meaning(BehindTail(file, AppendBytes([1], failed, false, map[], [])[..29], first, key', value'))
      == Meaning(file)[[1] := Item(failed[..4] + first[..|first| - 4], map[], [])][key' := Item(value', map[], [])]
  {
    hide Serving, Meaning, AppendBytes, Acceptable, EncodeBlock, LittleEndian, Checksum, Body, Zeros;
    var rest, end := first[..|first| - 4], first[|first| - 4..];
    var w := ValueForChecksum([1], rest, end);
    failed := w + Zeros(|rest|);
    EmptyBlock();
    assert ExtensionsFramed([]);
    FrameStart([1], w, rest, Zeros(|rest|));
    var whole := AppendBytes([1], w + rest, false, map[], []);
    assert whole == whole[..29] + whole[29..];
    assert rest + end == first;
    assert failed[..4] == w;
    AppendServes(file, [1], w + rest, false, map[]);
    Associative(file, whole[..29], first);
    AppendServes(file + whole, key', value', false, map[]);
  }
}

/**
 The append-only log object: an open file, a write position, a reused encode buffer and a memory
 map that shows the file's bytes. The operating system's part of each call (a write that fails
 after some bytes, a map that cannot be made) comes in as a parameter.
 */
module Log {
  import opened Bytes
  import opened Crc32c
  import opened Attributes
  import opened Record
  import opened Damage
  import opened Legacy
  import opened Scan
  import opened LogMap
  import opened Reader

  const MAX_RETAINED_SCRATCH := 0x10_0000

  datatype LogError =
    | WrongVersion
    | ReadOnlyFeature
    | InvalidKey
    | ValueTooLarge
    | BadExtensions
    | BadAttributes
    | WriteError

  datatype AppendResult =
    | Appended(offset: nat, size: nat, recordOffset: nat, storedSize: nat)
    | Failed(error: LogError)

  /**
   What the operating system does: how many bytes a failing write gets out, whether mapping works, and
   whether the sync that follows a write, if one does, fails.
   */
  datatype Environment = Environment(writeFailsAfter: Option<nat>, mapOk: bool, mapSlack: nat, syncFails: bool) {
    predicate Fails(size: nat) {
      writeFailsAfter.Some? && writeFailsAfter.value < size
    }
  }

  /** The file after writing `b` at `pos`. */
  function Overlay(file: Bytes, pos: nat, b: Bytes): Bytes
    requires pos <= |file|
  {
    file[..pos] + b + (if pos + |b| <= |file| then file[pos + |b|..] else [])
  }

  lemma OverlaySize(file: Bytes, pos: nat, b: Bytes)
    requires pos <= |file|
    ensures |Overlay(file, pos, b)| >= pos + |b| && |Overlay(file, pos, b)| >= |file|
    ensures pos == |file| ==> Overlay(file, pos, b) == file + b
  {
    assert file[..|file|] == file;
  }

  // --------------------------------------------------------------- random access, as a function of the file

  /** The stored bytes at an extent, when the size is possible and the file has them. */
  function StoredAt(file: Bytes, recordOffset: int, storedSize: int): Option<Bytes> {
    if storedSize < 4 + MINIMUM_LENGTH || recordOffset < 0 || recordOffset + storedSize > |file| then None
    else Some(file[recordOffset..recordOffset + storedSize])
  }

  datatype Areas = Areas(value: Bytes, extensions: Bytes)

  /** The value and extension area of a stored record, if it is valid. */
  function AreasAt(file: Bytes, recordOffset: int, storedSize: int): Option<Areas> {
    var record :- StoredAt(file, recordOffset, storedSize);
    var b :- ValidateStored(record);
    Some(Areas(record[b.valueStart..b.valueStart + b.valueLen],
               record[b.extensionsStart..b.extensionsStart + b.extensionsLen]))
  }

  /** Random access finds exactly what the scan located, for every record the scan delivers. */
  lemma AreasOfScanned(file: Bytes, pos: nat)
    requires pos <= |file| && ParseRecord(file, pos).Parsed?
    ensures var r := ParseRecord(file, pos).record;
      var item := ItemAt(file, LOG_VERSION, EntryOf(r));
      AreasAt(file, r.recordOffset, r.storedSize) == Some(Areas(item.value, item.extensions))
  {
    hide ParseRecord, ValidateStored;
    ReadersAgree(file, pos);
    var r, next := ParseRecord(file, pos).record, ParseRecord(file, pos).next;
    var v, e := r.offset - pos, r.offset + r.size - pos;
    ParsedPlaced(file, pos, LOG_VERSION);
    SubSlice(file, pos, next, v, e);
    SubSlice(file, pos, next, e, next - 4 - pos);
  }

  /** Changing any one byte of a stored record makes every random read of it fail. */
  lemma ChangedByteUnreadable(file: Bytes, recordOffset: nat, storedSize: nat, i: nat, b: byte)
    requires AreasAt(file, recordOffset, storedSize).Some?
    requires recordOffset <= i < recordOffset + storedSize && b != file[i]
    ensures AreasAt(file[i := b], recordOffset, storedSize).None?
  {
    hide ValidateStored;
    var record := file[recordOffset..recordOffset + storedSize];
    ChangedByteIsRejected(record, i - recordOffset, b);
    assert file[i := b][recordOffset..recordOffset + storedSize] == record[i - recordOffset := b];
  }

  /** Random reads depend only on the bytes of the extent. */
  lemma AreasLocal(a: Bytes, b: Bytes, n: nat, recordOffset: nat, storedSize: nat)
    requires n <= |a| && n <= |b| && a[..n] == b[..n] && recordOffset + storedSize <= n
    ensures AreasAt(a, recordOffset, storedSize) == AreasAt(b, recordOffset, storedSize)
  {
    hide ValidateStored;
    SharedSlice(a, b, n, recordOffset, recordOffset + storedSize);
  }

  // --------------------------------------------------------------- the log

  class AppendLog {
    var file: Bytes
    var writePos: nat
    var version: nat
    var readOnly: nat
    var appendBuf: array<byte>
    var mapped: Option<nat>
    var mapDisabled: bool

    ghost predicate Valid()
      reads this
    {
      && HEADER_SIZE <= writePos <= |file|
      && 1 <= version <= LOG_VERSION
      && (version < LOG_VERSION ==> readOnly == 0)
    }

    /** A new, empty log. */
    constructor ()
      ensures Valid() && fresh(appendBuf)
      ensures file == EMPTY_LOG && writePos == |file| && version == LOG_VERSION && readOnly == 0
    {
      file := EMPTY_LOG;
      writePos := HEADER_SIZE;
      version := LOG_VERSION;
      readOnly := 0;
      appendBuf := new byte[0];
      mapped := None;
      mapDisabled := false;
    }

    /** An open handle on a file whose header was read. */
    constructor OnFile(bytes: Bytes, header: Header)
      requires |bytes| >= HEADER_SIZE && 1 <= header.version <= LOG_VERSION
      requires header.version < LOG_VERSION ==> header.readOnly == 0
      ensures Valid() && fresh(appendBuf)
      ensures file == bytes && writePos == |bytes| && version == header.version && readOnly == header.readOnly
    {
      file := bytes;
      writePos := |bytes|;
      version := header.version;
      readOnly := header.readOnly;
      appendBuf := new byte[0];
      mapped := None;
      mapDisabled := false;
    }

    /** Re-establishes the memory map over the file and some headroom; failure disables mapping for good. */
    method Remap(ok: bool, slack: nat)
      modifies this`mapped, this`mapDisabled
    {
      if mapDisabled {
        return;
      }
      if !ok {
        mapped := None;
        mapDisabled := true;
        return;
      }
      mapped := Some(writePos + slack);
    }

    /** The stored record through the map, when the map covers it. */
    method MappedRecord(recordOffset: int, storedSize: int) returns (r: Option<Bytes>)
      requires Valid() && storedSize >= 4 + MINIMUM_LENGTH
      ensures r.Some? ==> r == StoredAt(file, recordOffset, storedSize)
    {
      var end := recordOffset + storedSize;
      if mapped.None? || recordOffset < HEADER_SIZE || end > writePos || end > mapped.value {
        return None;
      }
      return Some(file[recordOffset..end]);
    }

    /** Reads a stored record through the map or, failing that, from the file. */
    method ReadAreas(recordOffset: int, storedSize: int) returns (r: Option<Areas>)
      requires Valid()
      ensures r == AreasAt(file, recordOffset, storedSize)
    {
      hide ValidateStored;
      if storedSize < 4 + MINIMUM_LENGTH {
        return None;
      }
      var record := MappedRecord(recordOffset, storedSize);
      if record.None? {
        if recordOffset < 0 || recordOffset + storedSize > |file| {
          return None;
        }
        record := Some(file[recordOffset..recordOffset + storedSize]);
      }
      var bounds := ValidateStored(record.value);
      match bounds
      case None => return None;
      case Some(b) =>
        return Some(Areas(record.value[b.valueStart..b.valueStart + b.valueLen],
                          record.value[b.extensionsStart..b.extensionsStart + b.extensionsLen]));
    }

    /** The checks the writer makes before it touches the buffer or the file. */
    method CheckAppend(key: Bytes, value: Bytes, attributes: Attributes, extensions: Bytes)
      returns (refusal: Option<LogError>, block: Bytes)
      requires Valid()
      ensures refusal.None? <==> version == LOG_VERSION && readOnly == 0 && AppendAccepts(key, value, attributes, extensions)
      ensures refusal.None? ==> block == EncodeBlock(attributes)
      ensures refusal == Some(WrongVersion) <==> version != LOG_VERSION
      ensures refusal == Some(ReadOnlyFeature) <==> version == LOG_VERSION && readOnly != 0
      ensures refusal == Some(InvalidKey) <==> version == LOG_VERSION && readOnly == 0 && |key| > MAX_KEY_SIZE
      ensures refusal == Some(ValueTooLarge) <==>
        && version == LOG_VERSION && readOnly == 0 && |key| <= MAX_KEY_SIZE
        && (|value| > MAX_VALUE_SIZE || |extensions| > MAX_EXTENSIONS_SIZE)
      ensures refusal == Some(BadExtensions) <==>
        && version == LOG_VERSION && readOnly == 0 && |key| <= MAX_KEY_SIZE
        && |value| <= MAX_VALUE_SIZE && |extensions| <= MAX_EXTENSIONS_SIZE && !ExtensionsFramed(extensions)
      ensures refusal == Some(BadAttributes) <==>
        && version == LOG_VERSION && readOnly == 0 && |key| <= MAX_KEY_SIZE
        && |value| <= MAX_VALUE_SIZE && |extensions| <= MAX_EXTENSIONS_SIZE && ExtensionsFramed(extensions)
        && !Acceptable(attributes)
      ensures refusal != Some(WriteError)
    {
      hide ExtensionsFramed, Acceptable, EncodeBlock;
      block := [];
      if version != LOG_VERSION {
        return Some(WrongVersion), [];
      }
      if readOnly != 0 {
        return Some(ReadOnlyFeature), [];
      }
      if |key| > MAX_KEY_SIZE {
        return Some(InvalidKey), [];
      }
      if |value| > MAX_VALUE_SIZE {
        return Some(ValueTooLarge), [];
      }
      if |extensions| > MAX_EXTENSIONS_SIZE {
        return Some(ValueTooLarge), [];
      }
      var framed := ValidateExtensions(extensions);
      if !framed {
        return Some(BadExtensions), [];
      }
      var encoded := EncodeAttributes(attributes);
      if !encoded.Encoded? {
        return Some(BadAttributes), [];
      }
      return None, encoded.block;
    }

    /**
     Appends one record. Whatever the encode buffer held before, the bytes written depend only on
     the arguments; a refusal changes nothing; a failed write leaves the write position where it was.
     */
    method Append(key: Bytes, value: Bytes, deleted: bool, attributes: Attributes, extensions: Bytes, env: Environment)
      returns (r: AppendResult)
      requires Valid()
      modifies this, appendBuf
      ensures Valid() && (appendBuf == old(appendBuf) || fresh(appendBuf))
      ensures version == old(version) && readOnly == old(readOnly)
      ensures r.Appended? || r == Failed(WriteError)
        <==> version == LOG_VERSION && readOnly == 0 && AppendAccepts(key, value, attributes, extensions)
      ensures r.Appended? ==> !env.Fails(|AppendBytes(key, value, deleted, attributes, extensions)|)
      ensures r == Failed(WriteError) ==> env.Fails(|AppendBytes(key, value, deleted, attributes, extensions)|)
      ensures r.Failed? && r.error != WriteError ==> file == old(file) && writePos == old(writePos)
      ensures r == Failed(WriteError) ==>
        var b := AppendBytes(key, value, deleted, attributes, extensions);
        && file == Overlay(old(file), old(writePos), b[..env.writeFailsAfter.value])
        && writePos == old(writePos)
      ensures r.Appended? ==>
        var b := AppendBytes(key, value, deleted, attributes, extensions);
        && file == Overlay(old(file), old(writePos), b)
        && writePos == old(writePos) + |b|
        && r == Appended(old(writePos) + FIELDS_OFFSET + |key| + |EncodeBlock(attributes)|, |value|, old(writePos), |b|)
    {
      hide AppendAccepts, EncodeBlock, AppendBytes, Overlay, FilledBytes;
      var refusal, block := CheckAppend(key, value, attributes, extensions);
      if refusal.Some? {
        return Failed(refusal.value);
      }
      var b := Encode(key, value, deleted, block, extensions);
      FilledIsAppendBytes(key, value, deleted, attributes, extensions);
      OverlaySize(file, writePos, b);
      if env.Fails(|b|) {
        OverlaySize(file, writePos, b[..env.writeFailsAfter.value]);
        file := Overlay(file, writePos, b[..env.writeFailsAfter.value]);
        return Failed(WriteError);
      }
      var recordStart := writePos;
      file := Overlay(file, writePos, b);
      writePos := writePos + |b|;
      if mapped.None? || writePos > mapped.value {
        Remap(env.mapOk, env.mapSlack);
      }
      return Appended(recordStart + FIELDS_OFFSET + |key| + |block|, |value|, recordStart, |b|);
    }

    /** Encodes a record in the reused buffer, or in a new one when the record does not fit it. */
    method Encode(key: Bytes, value: Bytes, deleted: bool, block: Bytes, extensions: Bytes) returns (b: Bytes)
      modifies this`appendBuf, appendBuf
      ensures appendBuf == old(appendBuf) || fresh(appendBuf)
      ensures b == FilledBytes(key, value, deleted, block, extensions)
    {
      hide FilledBytes;
      var totalSize := 24 + |key| + |block| + |value| + |extensions|;
      var buf := appendBuf;
      if buf.Length < totalSize {
        buf := new byte[totalSize];
        if totalSize <= MAX_RETAINED_SCRATCH {
          appendBuf := buf;
        }
      }
      FillRecord(buf, key, value, deleted, block, extensions);
      b := buf[..totalSize];
    }

    /** Cuts the file back to the end of the last complete record. */
    method TruncateAt(pos: nat)
      requires Valid() && HEADER_SIZE <= pos <= |file|
      modifies this`file, this`writePos
      ensures Valid() && file == old(file)[..pos] && writePos == pos
    {
      file := file[..pos];
      writePos := pos;
    }

    /**
     Scans the log, delivering records in order. A torn record ends the scan: the file is cut there,
     unless an unknown read-only feature forbids the repair, and the write position moves to it.
     */
    method Iterate() returns (records: seq<LogRecord>, outcome: Outcome)
      requires Valid()
      modifies this`file, this`writePos
      ensures Valid()
      ensures var s := ScanFrom(old(file), old(writePos), HEADER_SIZE, version);
        && records == s.records && outcome == s.outcome
        && (outcome == Torn ==> writePos == s.end)
        && (outcome != Torn ==> writePos == old(writePos))
        && (outcome == Torn && readOnly == 0 ==> file == old(file)[..s.end])
        && (outcome != Torn || readOnly != 0 ==> file == old(file))
    {
      hide ParseAt;
      var r := new ByteReader(file, HEADER_SIZE);
      var pos := HEADER_SIZE;
      records := [];
      while pos < writePos
        invariant HEADER_SIZE <= pos <= writePos && r.at == pos && r.data == file
        invariant file == old(file) && writePos == old(writePos)
        invariant ScanFrom(file, writePos, HEADER_SIZE, version)
               == Prepend(records, ScanFrom(file, writePos, pos, version))
        decreases writePos - pos
      {
        ghost var rest := ScanFrom(file, writePos, pos, version);
        var p := ReadNext(r, version);
        match p
        case EndOfInput =>
          assert records + [] == records;
          if readOnly == 0 {
            TruncateAt(pos);
          } else {
            writePos := pos;
          }
          return records, Torn;
        case Malformed =>
          assert records + [] == records;
          return records, Corrupt;
        case Parsed(record, next) =>
          if next > writePos {
            assert records + [] == records;
            return records, Corrupt;
          }
          ghost var tail := ScanFrom(file, writePos, next, version);
          assert records + ([record] + tail.records) == (records + [record]) + tail.records;
          records := records + [record];
          pos := next;
      }
      assert records + [] == records;
      return records, Done;
    }

    /** Rewrites the header with another format version. */
    method SetVersion(newVersion: nat)
      requires Valid() && readOnly == 0 && 1 <= newVersion <= LOG_VERSION
      modifies this`file, this`version
      ensures Valid() && version == newVersion
      ensures file == HeaderBytes(Header(newVersion, 0, 0)) + old(file)[HEADER_SIZE..]
      ensures ReadHeader(file) == Readable(Header(newVersion, 0, 0))
      ensures old(version) >= 4 && newVersion >= 4 ==> ScanLog(file, newVersion) == old(ScanLog(file, version))
    {
      hide ReadHeader, HeaderBytes, ParseAt;
      version := newVersion;
      HeaderReadBack(Header(newVersion, 0, 0), file[HEADER_SIZE..]);
      file := HeaderBytes(Header(newVersion, 0, 0)) + file[HEADER_SIZE..];
      if old(version) >= 4 && newVersion >= 4 {
        assert file[HEADER_SIZE..] == old(file)[HEADER_SIZE..];
        ScanIgnoresHeader(old(file), file, HEADER_SIZE, old(version), newVersion);
      }
    }
  }

  /** Opens existing bytes: an empty file gets a fresh header, anything else must have a readable one. */
  method OpenLog(bytes: Bytes) returns (header: HeaderResult, log: AppendLog?)
    ensures header == (if |bytes| == 0 then Readable(Header(LOG_VERSION, 0, 0)) else ReadHeader(bytes))
    ensures log != null <==> header.Readable?
    ensures log != null ==>
      && fresh(log) && fresh(log.appendBuf) && log.Valid() && log.writePos == |log.file|
      && log.version == header.header.version && log.readOnly == header.header.readOnly
      && log.file == (if |bytes| == 0 then EMPTY_LOG else bytes)
  {
    if |bytes| == 0 {
      log := new AppendLog();
      return Readable(Header(LOG_VERSION, 0, 0)), log;
    }
    header := ReadHeader(bytes);
    if !header.Readable? {
      return header, null;
    }
    log := new AppendLog.OnFile(bytes, header.header);
  }

  method ReadNext(r: ByteReader, version: nat) returns (p: Parse)
    requires r.Valid()
    modifies r
    ensures r.Valid()
    ensures p == ParseAt(r.data, old(r.at), version)
    ensures p.Parsed? ==> r.at == p.next
  {
    hide ParseRecord, ParseLegacy;
    if version >= 4 {
      p := ReadRecordFrom(r);
    } else {
      p := ReadLegacyRecordFrom(r, version);
    }
  }

  /** The bytes the fill below leaves in the buffer. */
  function FilledBytes(key: Bytes, value: Bytes, deleted: bool, block: Bytes, extensions: Bytes): (b: Bytes)
    ensures |b| == 24 + |key| + |block| + |value| + |extensions|
  {
    Frame(Raw(if deleted then 1 else 0, [0, 0, 0], key, block, value, extensions))
  }

  lemma FilledIsAppendBytes(key: Bytes, value: Bytes, deleted: bool, attributes: Attributes, extensions: Bytes)
    ensures FilledBytes(key, value, deleted, EncodeBlock(attributes), extensions)
         == AppendBytes(key, value, deleted, attributes, extensions)
  {
  }

  /** Fills the front of the buffer with one record, field by field. */
  method FillRecord(buf: array<byte>, key: Bytes, value: Bytes, deleted: bool, block: Bytes, extensions: Bytes)
    requires buf.Length >= 24 + |key| + |block| + |value| + |extensions|
    modifies buf
    ensures buf[..24 + |key| + |block| + |value| + |extensions|] == FilledBytes(key, value, deleted, block, extensions)
  {
    hide LittleEndian, Checksum, Fixed, Body;
    ghost var r := Raw(if deleted then 1 else 0, [0, 0, 0], key, block, value, extensions);
    var recordLength := 20 + |key| + |block| + |value| + |extensions|;
    assert buf[..0] == [];
    CopyInto(buf, 0, LittleEndian(recordLength, 4));
    FillFixed(buf, key, value, deleted, block, r);
    var pos := FillAreas(buf, key, block, value, extensions);
    BodyInBuffer(buf[..pos], r);
    SubSlice(buf[..], 0, pos, 4, pos);
    assert buf[..][0..pos] == buf[..pos] && buf[..][4..pos] == buf[4..pos] && buf[..pos][4..pos] == buf[..pos][4..];
    CopyInto(buf, pos, LittleEndian(Checksum(buf[4..pos]), 4));
  }

  /** The variable-length areas, one after the other behind the fixed fields. */
  method FillAreas(buf: array<byte>, key: Bytes, block: Bytes, value: Bytes, extensions: Bytes) returns (pos: nat)
    requires buf.Length >= 20 + |key| + |block| + |value| + |extensions|
    modifies buf
    ensures pos == 20 + |key| + |block| + |value| + |extensions|
    ensures buf[..pos] == old(buf[..20]) + key + block + value + extensions
  {
    pos := 20;
    CopyInto(buf, pos, key);
    pos := pos + |key|;
    CopyInto(buf, pos, block);
    pos := pos + |block|;
    CopyInto(buf, pos, value);
    pos := pos + |value|;
    CopyInto(buf, pos, extensions);
    pos := pos + |extensions|;
  }

  lemma BodyInBuffer(filled: Bytes, r: Raw)
    requires |r.reserved| == 3
    requires filled == LittleEndian(RecordLength(r), 4) + Fixed(r) + r.key + r.block + r.value + r.extensions
    ensures filled == LittleEndian(RecordLength(r), 4) + Body(r) && filled[4..] == Body(r)
  {
    hide LittleEndian, Fixed;
  }

  /** The flags, the reserved bytes and the three lengths. */
  method FillFixed(buf: array<byte>, key: Bytes, value: Bytes, deleted: bool, block: Bytes, ghost r: Raw)
    requires buf.Length >= 20
    requires r == Raw(if deleted then 1 else 0, [0, 0, 0], key, block, value, r.extensions)
    modifies buf
    ensures buf[..20] == old(buf[..4]) + Fixed(r)
  {
    hide LittleEndian;
    buf[4] := 0;
    if deleted {
      buf[4] := 1;
    }
    buf[5], buf[6], buf[7] := 0, 0, 0;
    assert buf[..8] == old(buf[..4]) + [if deleted then 1 else 0] + [0, 0, 0];
    CopyInto(buf, 8, LittleEndian(|key|, 4));
    CopyInto(buf, 12, LittleEndian(|block|, 4));
    CopyInto(buf, 16, LittleEndian(|value|, 4));
  }
}

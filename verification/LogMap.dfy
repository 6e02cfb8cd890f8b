/**
 What a log means: the index is the left fold of its records, and the contents are the values,
 attributes and extension areas that the index entries locate in the file.
 */
module LogMap {
  import opened Bytes
  import opened Crc32c
  import opened Order
  import opened Attributes
  import opened Record
  import opened Damage
  import opened Legacy
  import opened Scan

  /** Where a live record lies, and its attributes. */
  datatype Entry = Entry(offset: nat, size: nat, recordOffset: nat, storedSize: nat, attributes: Attributes)

  type Entries = map<Bytes, Entry>

  /** The contents of a live key. */
  datatype Item = Item(value: Bytes, attributes: Attributes, extensions: Bytes)

  type Items = map<Bytes, Item>

  function EntryOf(r: LogRecord): Entry {
    Entry(r.offset, r.size, r.recordOffset, r.storedSize, r.attributes)
  }

  /** A tombstone removes its key; any other record replaces the key's entry. */
  function Apply(m: Entries, r: LogRecord): Entries {
    if r.deleted then m - {r.key} else m[r.key := EntryOf(r)]
  }

  /** The left fold of the records. */
  function IndexOf(rs: seq<LogRecord>): Entries {
    if |rs| == 0 then map[] else Apply(IndexOf(rs[..|rs| - 1]), rs[|rs| - 1])
  }

  lemma IndexOfSnoc(rs: seq<LogRecord>, r: LogRecord)
    ensures IndexOf(rs + [r]) == Apply(IndexOf(rs), r)
  {
    assert (rs + [r])[..|rs|] == rs;
  }

  predicate IsLast(rs: seq<LogRecord>, k: Bytes, i: nat) {
    i < |rs| && rs[i].key == k && forall j :: i < j < |rs| ==> rs[j].key != k
  }

  /** Last writer wins: an entry is that of the key's last record, and a last tombstone means absent. */
  lemma {:induction false} LastRecordWins(rs: seq<LogRecord>, k: Bytes, i: nat)
    requires IsLast(rs, k, i)
    ensures k in IndexOf(rs) <==> !rs[i].deleted
    ensures k in IndexOf(rs) ==> IndexOf(rs)[k] == EntryOf(rs[i])
  {
    if i < |rs| - 1 {
      var init := rs[..|rs| - 1];
      assert IsLast(init, k, i);
      LastRecordWins(init, k, i);
    }
  }

  /** Every entry comes from a record, its key's last one. */
  lemma {:induction false} EntryHasRecord(rs: seq<LogRecord>, k: Bytes) returns (i: nat)
    requires k in IndexOf(rs)
    ensures IsLast(rs, k, i) && !rs[i].deleted && IndexOf(rs)[k] == EntryOf(rs[i])
  {
    var n := |rs| - 1;
    if rs[n].key == k {
      i := n;
    } else {
      i := EntryHasRecord(rs[..n], k);
    }
  }

  // --------------------------------------------------------------- placement

  /** The records cover [from, to) without gap or overlap. */
  predicate Tiles(rs: seq<LogRecord>, from: nat, to: nat) {
    if |rs| == 0 then from == to
    else rs[0].recordOffset == from && rs[0].storedSize > 0 && Tiles(rs[1..], from + rs[0].storedSize, to)
  }

  lemma {:induction false} TilesAt(rs: seq<LogRecord>, from: nat, to: nat, i: nat)
    requires Tiles(rs, from, to) && i < |rs|
    ensures from <= rs[i].recordOffset && rs[i].storedSize > 0 && rs[i].recordOffset + rs[i].storedSize <= to
  {
    if i > 0 {
      TilesAt(rs[1..], from + rs[0].storedSize, to, i - 1);
    } else {
      TilesOrder(rs[1..], from + rs[0].storedSize, to);
    }
  }

  lemma {:induction false} TilesOrder(rs: seq<LogRecord>, from: nat, to: nat)
    requires Tiles(rs, from, to)
    ensures from <= to
  {
    if |rs| > 0 {
      TilesOrder(rs[1..], from + rs[0].storedSize, to);
    }
  }

  lemma {:induction false} TilesApart(rs: seq<LogRecord>, from: nat, to: nat, i: nat, j: nat)
    requires Tiles(rs, from, to) && i < j < |rs|
    ensures rs[i].recordOffset + rs[i].storedSize <= rs[j].recordOffset
  {
    if i > 0 {
      TilesApart(rs[1..], from + rs[0].storedSize, to, i - 1, j - 1);
    } else {
      TilesAt(rs[1..], from + rs[0].storedSize, to, j - 1);
    }
  }

  lemma {:induction false} TilesInit(rs: seq<LogRecord>, from: nat, to: nat)
    requires Tiles(rs, from, to) && |rs| > 0
    ensures Tiles(rs[..|rs| - 1], from, rs[|rs| - 1].recordOffset)
    ensures rs[|rs| - 1].recordOffset + rs[|rs| - 1].storedSize == to
  {
    if |rs| > 1 {
      TilesInit(rs[1..], from + rs[0].storedSize, to);
      assert rs[..|rs| - 1][1..] == rs[1..][..|rs| - 2];
    }
  }

  /** The bytes after the extensions: the checksum, which legacy records do not have. */
  function Trailer(version: nat): nat {
    if version >= 4 then 4 else 0
  }

  predicate Placed(r: LogRecord, version: nat) {
    && r.recordOffset <= r.offset
    && r.offset + r.size + Trailer(version) <= r.recordOffset + r.storedSize
  }

  lemma ParsedPlaced(data: Bytes, pos: nat, version: nat)
    requires pos <= |data| && ParseAt(data, pos, version).Parsed?
    ensures var p := ParseAt(data, pos, version);
      && p.record.recordOffset == pos && p.record.storedSize == p.next - pos && Placed(p.record, version)
  {
    if version >= 4 {
      hide ParseRecord;
      ReadersAgree(data, pos);
    } else {
      hide Number, FieldsAt, LegacyAttributes;
    }
  }

  /** The records of a scan tile the file from the header to where the scan stopped. */
  lemma {:induction false} ScanTiles(data: Bytes, limit: nat, pos: nat, version: nat)
    requires pos <= limit <= |data|
    ensures var s := ScanFrom(data, limit, pos, version);
      && Tiles(s.records, pos, s.end)
      && forall i :: 0 <= i < |s.records| ==> Placed(s.records[i], version)
    decreases limit - pos
  {
    hide ParseAt, Placed;
    if pos < limit && ParseAt(data, pos, version).Parsed? && ParseAt(data, pos, version).next <= limit {
      var p := ParseAt(data, pos, version);
      ParsedPlaced(data, pos, version);
      ScanTiles(data, limit, p.next, version);
      var s, t := ScanFrom(data, limit, pos, version), ScanFrom(data, limit, p.next, version);
      assert s.records == [p.record] + t.records && s.records[1..] == t.records;
    }
  }

  // --------------------------------------------------------------- space

  function SizeOf(m: Entries): Bytes -> int {
    k => if k in m then m[k].storedSize else 0
  }

  /** The stored size of all live records. */
  ghost function TotalSize(m: Entries): int {
    Sum(m.Keys, SizeOf(m))
  }

  lemma TotalSizeWithout(m: Entries, k: Bytes)
    ensures TotalSize(m - {k}) == TotalSize(m) - (if k in m then m[k].storedSize else 0)
  {
    hide Sum;
    var rest := m - {k};
    assert rest.Keys == m.Keys - {k};
    SumSame(rest.Keys, SizeOf(rest), SizeOf(m));
    if k in m {
      SumRemove(m.Keys, SizeOf(m), k);
    } else {
      assert m.Keys - {k} == m.Keys;
    }
  }

  lemma TotalSizeWith(m: Entries, k: Bytes, e: Entry)
    ensures TotalSize(m[k := e]) == TotalSize(m - {k}) + e.storedSize
  {
    hide Sum;
    var put := m[k := e];
    TotalSizeWithout(put, k);
    assert put - {k} == m - {k};
  }

  /** Live records never take more space than the records that were scanned. */
  lemma {:induction false} SpaceConserved(rs: seq<LogRecord>, from: nat, to: nat)
    requires Tiles(rs, from, to)
    ensures 0 <= TotalSize(IndexOf(rs)) <= to - from
    decreases |rs|
  {
    hide Sum;
    if |rs| == 0 {
      var none: Entries := map[];
      assert none.Keys == {};
      SumEmpty(SizeOf(none));
    } else {
      var init, r := rs[..|rs| - 1], rs[|rs| - 1];
      TilesInit(rs, from, to);
      SpaceConserved(init, from, r.recordOffset);
      var m := IndexOf(init);
      TotalSizeWithout(m, r.key);
      TotalSizeNonNegative(m - {r.key});
      if !r.deleted {
        TotalSizeWith(m, r.key, EntryOf(r));
      }
    }
  }

  lemma TotalSizeNonNegative(m: Entries)
    ensures TotalSize(m) >= 0
    decreases |m|
  {
    hide Sum;
    if m.Keys == {} {
      SumEmpty(SizeOf(m));
    } else {
      var k :| k in m.Keys;
      TotalSizeWithout(m, k);
      assert (m - {k}).Keys == m.Keys - {k};
      TotalSizeNonNegative(m - {k});
    }
  }

  /** Entries occupy pairwise disjoint extents inside the scanned part of the file. */
  lemma ExtentsDisjoint(rs: seq<LogRecord>, from: nat, to: nat, k: Bytes, l: Bytes)
    requires Tiles(rs, from, to) && k in IndexOf(rs) && l in IndexOf(rs) && k != l
    ensures var e, f := IndexOf(rs)[k], IndexOf(rs)[l];
      && from <= e.recordOffset && e.recordOffset + e.storedSize <= to && e.storedSize > 0
      && (e.recordOffset + e.storedSize <= f.recordOffset || f.recordOffset + f.storedSize <= e.recordOffset)
  {
    hide IndexOf, Tiles;
    var i := EntryHasRecord(rs, k);
    var j := EntryHasRecord(rs, l);
    TilesAt(rs, from, to, i);
    if i < j {
      TilesApart(rs, from, to, i, j);
    } else {
      TilesApart(rs, from, to, j, i);
    }
  }

  // --------------------------------------------------------------- contents

  function Slice(data: Bytes, i: int, j: int): Bytes {
    if 0 <= i <= j <= |data| then data[i..j] else []
  }

  /** The contents an entry locates. Legacy records have no extension area. */
  function ItemAt(data: Bytes, version: nat, e: Entry): Item {
    Item(Slice(data, e.offset, e.offset + e.size), e.attributes,
         if version >= 4 then Slice(data, e.offset + e.size, e.recordOffset + e.storedSize - 4) else [])
  }

  function ItemsAt(data: Bytes, version: nat, m: Entries): Items {
    map k | k in m :: ItemAt(data, version, m[k])
  }

  /** The index a scan of the file builds. */
  function FileIndex(file: Bytes, version: nat): Entries
    requires |file| >= HEADER_SIZE
  {
    IndexOf(ScanLog(file, version).records)
  }

  /** What the log means: the contents of every live key. */
  function Contents(file: Bytes, version: nat): Items
    requires |file| >= HEADER_SIZE
  {
    ItemsAt(file, version, FileIndex(file, version))
  }

  /** Every entry of a log's index lies inside the scanned part of the file. */
  lemma EntriesPlaced(file: Bytes, version: nat, k: Bytes)
    requires |file| >= HEADER_SIZE && k in FileIndex(file, version)
    ensures var e := FileIndex(file, version)[k];
      && HEADER_SIZE <= e.recordOffset <= e.offset
      && e.offset + e.size + Trailer(version) <= e.recordOffset + e.storedSize <= ScanLog(file, version).end
  {
    hide ScanFrom, IndexOf;
    var s := ScanLog(file, version);
    ScanTiles(file, |file|, HEADER_SIZE, version);
    var i := EntryHasRecord(s.records, k);
    TilesAt(s.records, HEADER_SIZE, s.end, i);
    assert Placed(s.records[i], version);
  }

  lemma ItemLocal(a: Bytes, b: Bytes, n: nat, version: nat, e: Entry)
    requires n <= |a| && n <= |b| && a[..n] == b[..n]
    requires e.recordOffset <= e.offset && e.offset + e.size + Trailer(version) <= e.recordOffset + e.storedSize <= n
    ensures ItemAt(a, version, e) == ItemAt(b, version, e)
  {
    SharedSlice(a, b, n, e.offset, e.offset + e.size);
    if version >= 4 {
      SharedSlice(a, b, n, e.offset + e.size, e.recordOffset + e.storedSize - 4);
    }
  }

  /** Contents depend only on the part of the file that was scanned, and on the records found. */
  lemma ContentsLocal(a: Bytes, b: Bytes, version: nat)
    requires |a| >= HEADER_SIZE && |b| >= HEADER_SIZE
    requires ScanLog(a, version).records == ScanLog(b, version).records
    requires var n := ScanLog(a, version).end; n <= |b| && a[..n] == b[..n]
    ensures Contents(a, version) == Contents(b, version)
  {
    hide ScanFrom, IndexOf, ItemAt;
    var m := FileIndex(a, version);
    forall k | k in m
      ensures ItemAt(a, version, m[k]) == ItemAt(b, version, m[k])
    {
      EntriesPlaced(a, version, k);
      ItemLocal(a, b, ScanLog(a, version).end, version, m[k]);
    }
  }

  /** The contents an open of this file would serve. */
  function Meaning(file: Bytes): Items {
    match ReadHeader(file)
    case Readable(h) => if |file| >= HEADER_SIZE then Contents(file, h.version) else map[]
    case _ => map[]
  }

  /** The file can be opened: it is new, or its header is readable and nothing before its end or its torn tail is corrupt. */
  predicate Good(file: Bytes) {
    |file| == 0 ||
    (ReadHeader(file).Readable? && |file| >= HEADER_SIZE
     && ScanLog(file, ReadHeader(file).header.version).outcome != Corrupt)
  }

  /** Cutting off a torn tail loses nothing and leaves a log that needs no further repair. */
  lemma RepairPreserves(file: Bytes, version: nat)
    requires |file| >= HEADER_SIZE
    ensures var n := ScanLog(file, version).end;
      && n >= HEADER_SIZE
      && ScanLog(file[..n], version) == ScanResult(ScanLog(file, version).records, n, Done)
      && FileIndex(file[..n], version) == FileIndex(file, version)
      && Contents(file[..n], version) == Contents(file, version)
  {
    hide Contents;
    var n := ScanLog(file, version).end;
    ScanTruncated(file, HEADER_SIZE, version);
    assert file[..n][..n] == file[..n];
    ContentsLocal(file, file[..n], version);
  }

  /** Only the header tells a version 4 log from a version 5 log without extensions: the meaning is the same. */
  lemma ContentsIgnoreHeader(a: Bytes, b: Bytes, v: nat, w: nat)
    requires HEADER_SIZE <= |a| == |b| && a[HEADER_SIZE..] == b[HEADER_SIZE..] && v >= 4 && w >= 4
    ensures ScanLog(a, v) == ScanLog(b, w) && FileIndex(a, v) == FileIndex(b, w)
    ensures Contents(a, v) == Contents(b, w)
  {
    hide ScanFrom, IndexOf;
    ScanIgnoresHeader(a, b, HEADER_SIZE, v, w);
    var m := FileIndex(a, v);
    forall k | k in m
      ensures ItemAt(a, v, m[k]) == ItemAt(b, w, m[k])
    {
      EntriesPlaced(a, v, k);
      var e := m[k];
      SharedTail(a, b, HEADER_SIZE, e.offset, e.offset + e.size);
      SharedTail(a, b, HEADER_SIZE, e.offset + e.size, e.recordOffset + e.storedSize - 4);
    }
  }

  lemma SharedTail(a: Bytes, b: Bytes, from: nat, i: nat, j: nat)
    requires from <= i <= j <= |a| == |b| && a[from..] == b[from..]
    ensures a[i..j] == b[i..j]
  {
    SubSlice(a, from, |a|, i - from, j - from);
    SubSlice(b, from, |b|, i - from, j - from);
  }

  // --------------------------------------------------------------- appending

  /** The stored fields the writer produces. */
  ghost function MakeRaw(key: Bytes, value: Bytes, deleted: bool, attributes: Attributes, extensions: Bytes): Raw {
    Raw(if deleted then 1 else 0, [0, 0, 0], key, EncodeBlock(attributes), value, extensions)
  }

  /** The writer's checks, in one predicate. */
  ghost predicate AppendAccepts(key: Bytes, value: Bytes, attributes: Attributes, extensions: Bytes) {
    && |key| <= MAX_KEY_SIZE
    && |value| <= MAX_VALUE_SIZE
    && |extensions| <= MAX_EXTENSIONS_SIZE
    && ExtensionsFramed(extensions)
    && Acceptable(attributes)
  }

  /** The bytes the writer appends. */
  ghost function AppendBytes(key: Bytes, value: Bytes, deleted: bool, attributes: Attributes, extensions: Bytes): (b: Bytes)
    ensures |b| == 24 + |key| + |EncodeBlock(attributes)| + |value| + |extensions|
  {
    Frame(MakeRaw(key, value, deleted, attributes, extensions))
  }

  /** The record a scan delivers for what was appended at `pos`. */
  ghost function AppendedRecord(pos: nat, key: Bytes, value: Bytes, deleted: bool, attributes: Attributes, extensions: Bytes): LogRecord {
    LogRecord(key, pos + FIELDS_OFFSET + |key| + |EncodeBlock(attributes)|, |value|, pos,
              |AppendBytes(key, value, deleted, attributes, extensions)|, deleted, attributes)
  }

  /** Whatever passes the writer's limits is within the reader's, and its length fits 32 bits. */
  lemma AcceptedWithinLimits(key: Bytes, value: Bytes, deleted: bool, attributes: Attributes, extensions: Bytes)
    requires AppendAccepts(key, value, attributes, extensions)
    ensures WithinLimits(MakeRaw(key, value, deleted, attributes, extensions))
    ensures RecordLength(MakeRaw(key, value, deleted, attributes, extensions)) < 0x1_0000_0000
  {
    hide EncodeBlock, Sum, SizeIn;
    EncodedBlockSize(attributes);
  }

  /** The writer's limits in numbers. */
  lemma AppendAcceptsIff(key: Bytes, value: Bytes, attributes: Attributes, extensions: Bytes)
    ensures AppendAccepts(key, value, attributes, extensions) <==>
      && |key| <= 0x10_0000 && |value| <= 0x7FFF_FFFF && |extensions| <= 0x100_0000
      && (exists es: seq<Extension> :: (forall e :: e in es ==> ExtensionFits(e)) && extensions == ExtensionArea(es))
      && |attributes| <= 4096 && |EncodeBlock(attributes)| <= 0x100_0000
      && forall name :: name in attributes ==> 0 < |name| <= 0xFFFF && |attributes[name]| <= 0xFFFF_FFFF
  {
    hide EncodeBlock, ExtensionsFramed, ExtensionArea, ExtensionFits, Sum, SizeIn;
    FramedIff(extensions);
    EncodedBlockSize(attributes);
  }

  /** Where the writer puts what: the layout of a record, byte by byte. */
  lemma AppendLayout(key: Bytes, value: Bytes, deleted: bool, attributes: Attributes, extensions: Bytes)
    requires AppendAccepts(key, value, attributes, extensions)
    ensures var b, block := AppendBytes(key, value, deleted, attributes, extensions), EncodeBlock(attributes);
      && |b| == 24 + |key| + |block| + |value| + |extensions|
      && Number(b[0..4]) == |b| - 4
      && b[4] == (if deleted then 1 else 0) && b[5..8] == [0, 0, 0]
      && Number(b[8..12]) == |key| && Number(b[12..16]) == |block| && Number(b[16..20]) == |value|
      && b[20..|b| - 4] == key + block + value + extensions
      && Number(b[|b| - 4..|b|]) == Checksum(b[4..|b| - 4])
  {
    hide EncodeBlock, Checksum, LittleEndian, Number, Acceptable, ExtensionsFramed, Frame, Body;
    var r, b := MakeRaw(key, value, deleted, attributes, extensions), AppendBytes(key, value, deleted, attributes, extensions);
    AcceptedWithinLimits(key, value, deleted, attributes, extensions);
    RadixValues();
    assert IsFrameAt(b, 0, r);
    FrameRead(b, 0, r);
    FrameParts(b, 0, r);
    BodyParts(b, 4, r);
    FixedParts(b, 4, r);
    NumberOfLittleEndian(Checksum(Body(r)), 4);
    LayoutBehind(b, r);
  }

  lemma LayoutBehind(b: Bytes, r: Raw)
    requires |r.reserved| == 3 && |b| == 4 + RecordLength(r) && b[4..|b| - 4] == Body(r)
    ensures b[20..|b| - 4] == r.key + r.block + r.value + r.extensions
  {
    hide LittleEndian, Fixed;
    FixedSize(r);
    var body := b[4..|b| - 4];
    assert body[16..] == r.key + r.block + r.value + r.extensions;
    SubSlice(b, 4, |b| - 4, 16, |b| - 8);
  }

  /** What the writer appends is read back as exactly the arguments it was given. */
  lemma ParseOfAppend(data: Bytes, pos: nat, key: Bytes, value: Bytes, deleted: bool, attributes: Attributes, extensions: Bytes)
    requires AppendAccepts(key, value, attributes, extensions)
    requires var b := AppendBytes(key, value, deleted, attributes, extensions);
      pos + |b| <= |data| && data[pos..pos + |b|] == b
    ensures var b := AppendBytes(key, value, deleted, attributes, extensions);
      ParseRecord(data, pos)
      == Parsed(AppendedRecord(pos, key, value, deleted, attributes, extensions), pos + |b|)
  {
    hide EncodeBlock, Frame, ParseRecord, DecodeAttributes, Acceptable, ExtensionsFramed;
    var r := MakeRaw(key, value, deleted, attributes, extensions);
    AcceptedWithinLimits(key, value, deleted, attributes, extensions);
    ParseOfFrame(data, pos, r);
    DecodeOfEncode(attributes);
  }

  /** Where the value and the extensions of an appended record sit. */
  lemma AppendedParts(data: Bytes, pos: nat, key: Bytes, value: Bytes, deleted: bool, attributes: Attributes, extensions: Bytes)
    requires AppendAccepts(key, value, attributes, extensions)
    requires var b := AppendBytes(key, value, deleted, attributes, extensions);
      pos + |b| <= |data| && data[pos..pos + |b|] == b
    ensures var e := EntryOf(AppendedRecord(pos, key, value, deleted, attributes, extensions));
      ItemAt(data, LOG_VERSION, e) == Item(value, attributes, extensions)
  {
    hide EncodeBlock, Body, Acceptable, ExtensionsFramed, Checksum, LittleEndian;
    var r := MakeRaw(key, value, deleted, attributes, extensions);
    FrameParts(data, pos, r);
    BodyParts(data, pos + 4, r);
  }

  /** What an operation does to the contents. */
  function ApplyItem(m: Items, key: Bytes, deleted: bool, item: Item): Items {
    if deleted then m - {key} else m[key := item]
  }

  /** One more complete record, in any version: the scan, the index and the contents gain exactly it. */
  lemma RecordRefines(log: Bytes, frame: Bytes, record: LogRecord, version: nat)
    requires |log| >= HEADER_SIZE && ScanLog(log, version).outcome == Done
    requires ParseAt(log + frame, |log|, version) == Parsed(record, |log| + |frame|)
    ensures var log' := log + frame;
      && ScanLog(log', version) == ScanResult(ScanLog(log, version).records + [record], |log'|, Done)
      && FileIndex(log', version) == Apply(FileIndex(log, version), record)
      && Contents(log', version)
         == ApplyItem(Contents(log, version), record.key, record.deleted, ItemAt(log', version, EntryOf(record)))
  {
    hide ParseAt, ScanFrom, ItemAt, IndexOf, EntryOf;
    var log' := log + frame;
    ScanAppended(log, frame, record, version);
    IndexOfSnoc(ScanLog(log, version).records, record);
    var m := FileIndex(log, version);
    forall k | k in m
      ensures ItemAt(log', version, m[k]) == ItemAt(log, version, m[k])
    {
      EntriesPlaced(log, version, k);
      assert log'[..|log|] == log[..|log|];
      ItemLocal(log', log, |log|, version, m[k]);
    }
  }

  /**
   One append: the scan gains exactly the appended record, the index its entry, and the contents
   change as the operation says.
   */
  lemma AppendRefines(log: Bytes, key: Bytes, value: Bytes, deleted: bool, attributes: Attributes, extensions: Bytes)
    requires |log| >= HEADER_SIZE && ScanLog(log, LOG_VERSION).outcome == Done
    requires AppendAccepts(key, value, attributes, extensions)
    ensures var log' := log + AppendBytes(key, value, deleted, attributes, extensions);
      var record := AppendedRecord(|log|, key, value, deleted, attributes, extensions);
      && ScanLog(log', LOG_VERSION) == ScanResult(ScanLog(log, LOG_VERSION).records + [record], |log'|, Done)
      && FileIndex(log', LOG_VERSION) == Apply(FileIndex(log, LOG_VERSION), record)
      && Contents(log', LOG_VERSION)
         == ApplyItem(Contents(log, LOG_VERSION), key, deleted, Item(value, attributes, extensions))
  {
    hide EncodeBlock, AppendBytes, ParseRecord, AppendAccepts, ScanLog, FileIndex, Contents, ItemAt, AppendedRecord, EntryOf;
    var b := AppendBytes(key, value, deleted, attributes, extensions);
    var log' := log + b;
    assert log'[|log|..|log| + |b|] == b;
    ParseOfAppend(log', |log|, key, value, deleted, attributes, extensions);
    AppendedParts(log', |log|, key, value, deleted, attributes, extensions);
    AppendedKey(|log|, key, value, deleted, attributes, extensions);
    RecordRefines(log, b, AppendedRecord(|log|, key, value, deleted, attributes, extensions), LOG_VERSION);
  }

  lemma AppendedKey(pos: nat, key: Bytes, value: Bytes, deleted: bool, attributes: Attributes, extensions: Bytes)
    ensures var r := AppendedRecord(pos, key, value, deleted, attributes, extensions);
      r.key == key && r.deleted == deleted
  {
  }

  /** Whatever the scanner accepts, the writer accepts again. */
  lemma ScannedIsRewritable(data: Bytes, pos: nat, version: nat)
    requires pos <= |data| && ParseAt(data, pos, version).Parsed?
    ensures var rec := ParseAt(data, pos, version).record;
      var item := ItemAt(data, version, EntryOf(rec));
      && AppendAccepts(rec.key, item.value, rec.attributes, item.extensions)
      && |item.value| == rec.size
  {
    hide ParseRecord, ParseLegacy, Acceptable, EncodeBlock;
    if version >= 4 {
      CurrentIsRewritable(data, pos);
    } else {
      LegacyIsRewritable(data, pos, version);
      assert ExtensionsFramed([]);
    }
  }

  lemma CurrentIsRewritable(data: Bytes, pos: nat)
    requires pos <= |data| && ParseRecord(data, pos).Parsed?
    ensures var rec := ParseRecord(data, pos).record;
      var item := ItemAt(data, LOG_VERSION, EntryOf(rec));
      && AppendAccepts(rec.key, item.value, rec.attributes, item.extensions)
      && |item.value| == rec.size
  {
    hide Number, Checksum, ExtensionsFramed, DecodeAttributes, Acceptable, FieldsFit, ChecksumMatches, Frame, RawAt;
    FrameOfFields(data, pos);
    var r := RawAt(data, pos);
    ItemOfRaw(data, pos);
    DecodedIsAcceptable(r.block);
  }

  /** Where the value and the extensions of a record's fields are. */
  lemma RawAreas(data: Bytes, pos: nat)
    requires pos + 20 <= |data| && FieldsFit(data, pos) && Complete(data, pos, LengthField(data, pos))
    ensures var r := RawAt(data, pos);
      var v := pos + FIELDS_OFFSET + |r.key| + |r.block|;
      && pos + RecordLength(r) <= |data|
      && r.value == data[v..v + |r.value|] && r.extensions == data[v + |r.value|..pos + RecordLength(r)]
  {
    hide Number;
  }

  /** The item of an accepted record is made of its stored fields. */
  lemma ItemOfRaw(data: Bytes, pos: nat)
    requires pos <= |data| && ParseRecord(data, pos).Parsed?
    ensures var rec, r := ParseRecord(data, pos).record, RawAt(data, pos);
      && rec.key == r.key && DecodeAttributes(r.block) == Map(rec.attributes)
      && ExtensionsFramed(r.extensions)
      && ItemAt(data, LOG_VERSION, EntryOf(rec)) == Item(r.value, rec.attributes, r.extensions)
  {
    hide Number, Checksum, ExtensionsFramed, DecodeAttributes, ChecksumMatches, FieldsFit, RawAt;
    RawAreas(data, pos);
  }
}

/**
 Compaction as a function on log files: the live records, in file order, appended to an empty log.
 */
module Compaction {
  import opened Bytes
  import opened Order
  import opened Attributes
  import opened Record
  import opened Scan
  import opened LogMap
  import opened KeyOrder

  /** Every item passes the writer's checks. */
  ghost predicate Writable(items: Items) {
    forall k :: k in items ==> AppendAccepts(k, items[k].value, items[k].attributes, items[k].extensions)
  }

  /** The log that holds exactly the given items, written in the given order. */
  ghost function Rewrite(items: Items, keys: seq<Bytes>): Bytes
    requires forall k :: k in keys ==> k in items
  {
    if |keys| == 0 then EMPTY_LOG
    else
      var k := keys[|keys| - 1];
      Rewrite(items, keys[..|keys| - 1])
      + AppendBytes(k, items[k].value, false, items[k].attributes, items[k].extensions)
  }

  function Restrict(items: Items, keys: seq<Bytes>): Items {
    map k | k in items && k in keys :: items[k]
  }

  lemma EmptyLogScans()
    ensures |EMPTY_LOG| == HEADER_SIZE
    ensures ScanLog(EMPTY_LOG, LOG_VERSION) == ScanResult([], HEADER_SIZE, Done)
    ensures Contents(EMPTY_LOG, LOG_VERSION) == map[]
    ensures ReadHeader(EMPTY_LOG) == Readable(Header(LOG_VERSION, 0, 0))
  {
    hide LittleEndian;
    HeaderReadBack(Header(LOG_VERSION, 0, 0), []);
    assert EMPTY_LOG + [] == EMPTY_LOG;
  }

  /** A rewritten log starts with the header of an empty one. */
  lemma {:induction false} RewriteHeader(items: Items, keys: seq<Bytes>)
    requires forall k :: k in keys ==> k in items
    ensures |Rewrite(items, keys)| >= HEADER_SIZE && Rewrite(items, keys)[..HEADER_SIZE] == EMPTY_LOG
  {
    hide AppendBytes, EMPTY_LOG;
    EmptyLogScans();
    if |keys| == 0 {
      assert EMPTY_LOG[..HEADER_SIZE] == EMPTY_LOG;
    } else {
      var init, k := keys[..|keys| - 1], keys[|keys| - 1];
      RewriteHeader(items, init);
      PrefixOfConcat(Rewrite(items, init), AppendBytes(k, items[k].value, false, items[k].attributes, items[k].extensions), HEADER_SIZE);
    }
  }

  /** A rewritten log scans cleanly, in the order written, to exactly the items written, with no dead space. */
  lemma {:induction false} RewriteScans(items: Items, keys: seq<Bytes>)
    requires Writable(items) && NoRepeats(keys) && (forall k :: k in keys ==> k in items)
    ensures var log := Rewrite(items, keys);
      && |log| >= HEADER_SIZE
      && ScanLog(log, LOG_VERSION).outcome == Done
      && Contents(log, LOG_VERSION) == Restrict(items, keys)
      && IsOffsetOrder(FileIndex(log, LOG_VERSION), keys)
      && |log| == HEADER_SIZE + TotalSize(FileIndex(log, LOG_VERSION))
    decreases |keys|
  {
    hide AppendBytes, AppendAccepts, ScanLog, Contents, FileIndex, EMPTY_LOG, TotalSize, EncodeBlock, IsOffsetOrder, Restrict;
    if |keys| == 0 {
      EmptyLogScans();
      EmptyIndex();
      assert Restrict(items, keys) == map[] by { RestrictNothing(items); }
    } else {
      var init, k := keys[..|keys| - 1], keys[|keys| - 1];
      assert keys == init + [k];
      RewriteScans(items, init);
      var log, item := Rewrite(items, init), items[k];
      AppendRefines(log, k, item.value, false, item.attributes, item.extensions);
      RestrictSnoc(items, init, k);
      var record := AppendedRecord(|log|, k, item.value, false, item.attributes, item.extensions);
      IndexSnoc(log, init, k, record);
    }
  }

  lemma RestrictNothing(items: Items)
    ensures Restrict(items, []) == map[]
  {
  }

  lemma RestrictSnoc(items: Items, init: seq<Bytes>, k: Bytes)
    requires k in items
    ensures Restrict(items, init + [k]) == ApplyItem(Restrict(items, init), k, false, items[k])
  {
  }

  /** The index after one more record, of a new key, at the end of the log. */
  lemma IndexSnoc(log: Bytes, init: seq<Bytes>, k: Bytes, record: LogRecord)
    requires |log| >= HEADER_SIZE && IsOffsetOrder(FileIndex(log, LOG_VERSION), init) && NoRepeats(init + [k])
    requires record.recordOffset == |log| && record.key == k && !record.deleted
    ensures var m := FileIndex(log, LOG_VERSION);
      && IsOffsetOrder(Apply(m, record), init + [k])
      && TotalSize(Apply(m, record)) == TotalSize(m) + record.storedSize
  {
    hide FileIndex, TotalSize;
    var m, keys := FileIndex(log, LOG_VERSION), init + [k];
    assert keys[|init|] == k && forall i :: 0 <= i < |init| ==> keys[i] == init[i];
    assert k !in init;
    assert k !in m;
    TotalSizeWith(m, k, EntryOf(record));
    assert m - {k} == m;
    forall i | 0 <= i < |init|
      ensures init[i] in m && m[init[i]].recordOffset < |log|
    {
      assert init[i] in init;
      EntriesPlacedIn(log, init[i]);
    }
  }

  lemma EmptyIndex()
    ensures |EMPTY_LOG| == HEADER_SIZE
    ensures FileIndex(EMPTY_LOG, LOG_VERSION) == map[]
    ensures IsOffsetOrder(FileIndex(EMPTY_LOG, LOG_VERSION), []) && TotalSize(FileIndex(EMPTY_LOG, LOG_VERSION)) == 0
  {
    hide Sum;
    EmptyLogScans();
    var none: Entries := map[];
    assert FileIndex(EMPTY_LOG, LOG_VERSION) == none && none.Keys == {};
    SumEmpty(SizeOf(none));
  }

  lemma EntriesPlacedIn(log: Bytes, k: Bytes)
    requires |log| >= HEADER_SIZE && k in FileIndex(log, LOG_VERSION)
    ensures FileIndex(log, LOG_VERSION)[k].recordOffset < |log|
  {
    hide ScanFrom, IndexOf;
    EntriesPlaced(log, LOG_VERSION, k);
  }

  // --------------------------------------------------------------- compaction of a log

  lemma IndexDistinct(file: Bytes, version: nat)
    requires |file| >= HEADER_SIZE
    ensures DistinctOffsets(FileIndex(file, version))
  {
    hide ScanFrom, IndexOf, Tiles, DistinctOffsets;
    ScanTiles(file, |file|, HEADER_SIZE, version);
    IndexOffsetsDistinct(ScanLog(file, version).records, HEADER_SIZE, ScanLog(file, version).end);
  }

  lemma ContentsKeys(file: Bytes, version: nat)
    requires |file| >= HEADER_SIZE
    ensures Contents(file, version).Keys == FileIndex(file, version).Keys
  {
    hide ScanLog, IndexOf, ItemAt;
  }

  /** The live keys in file order. */
  ghost function LiveKeys(file: Bytes, version: nat): (keys: seq<Bytes>)
    requires |file| >= HEADER_SIZE
    ensures IsOffsetOrder(FileIndex(file, version), keys)
    ensures NoRepeats(keys) && (forall k :: k in keys <==> k in Contents(file, version))
  {
    IndexDistinct(file, version);
    ContentsKeys(file, version);
    var keys := KeysByOffset(FileIndex(file, version));
    assert NoRepeats(keys) by {
      forall i, j | 0 <= i < j < |keys|
        ensures keys[i] != keys[j]
      {
        KeysDistinct(FileIndex(file, version), keys, i, j);
      }
    }
    assert forall k :: k in keys <==> k in FileIndex(file, version).Keys;
    keys
  }

  /** The compacted file. */
  ghost function CompactFile(file: Bytes, version: nat): Bytes
    requires |file| >= HEADER_SIZE
  {
    Rewrite(Contents(file, version), LiveKeys(file, version))
  }

  /** Every delivered record is read at its own offset. */
  lemma {:induction false} ScannedParses(data: Bytes, limit: nat, pos: nat, version: nat, i: nat)
    requires pos <= limit <= |data| && i < |ScanFrom(data, limit, pos, version).records|
    ensures var r := ScanFrom(data, limit, pos, version).records[i];
      && r.recordOffset <= |data|
      && ParseAt(data, r.recordOffset, version) == Parsed(r, r.recordOffset + r.storedSize)
    decreases limit - pos
  {
    hide ParseAt;
    var p := ParseAt(data, pos, version);
    ParsedPlaced(data, pos, version);
    if i > 0 {
      ScannedParses(data, limit, p.next, version, i - 1);
    }
  }

  /** Everything a scan delivers passes the writer's checks. */
  lemma ContentsWritable(file: Bytes, version: nat)
    requires |file| >= HEADER_SIZE
    ensures Writable(Contents(file, version))
  {
    hide ScanFrom, IndexOf, ItemAt, AppendAccepts, ParseAt;
    var items, rs := Contents(file, version), ScanLog(file, version).records;
    forall k | k in items
      ensures AppendAccepts(k, items[k].value, items[k].attributes, items[k].extensions)
    {
      var i := EntryHasRecord(rs, k);
      ScannedParses(file, |file|, HEADER_SIZE, version, i);
      ScannedIsRewritable(file, rs[i].recordOffset, version);
      ItemAttributes(file, version, EntryOf(rs[i]));
    }
  }

  lemma ItemAttributes(file: Bytes, version: nat, e: Entry)
    ensures ItemAt(file, version, e).attributes == e.attributes
  {
  }

  lemma RestrictAll(items: Items, keys: seq<Bytes>)
    requires forall k :: k in keys <==> k in items
    ensures Restrict(items, keys) == items
  {
  }

  /**
   Compaction preserves meaning, from any readable version: same keys, values, attributes and
   extension areas; the result scans cleanly, keeps the file order, and has no dead space.
   */
  lemma CompactionPreserves(file: Bytes, version: nat)
    requires |file| >= HEADER_SIZE
    ensures var log := CompactFile(file, version);
      && |log| >= HEADER_SIZE && log[..HEADER_SIZE] == EMPTY_LOG
      && ScanLog(log, LOG_VERSION).outcome == Done
      && Contents(log, LOG_VERSION) == Contents(file, version)
      && LiveKeys(log, LOG_VERSION) == LiveKeys(file, version)
      && |log| == HEADER_SIZE + TotalSize(FileIndex(log, LOG_VERSION))
  {
    hide ScanLog, Rewrite, Contents, LiveKeys, EMPTY_LOG, TotalSize, FileIndex, Restrict, Writable, IsOffsetOrder, NoRepeats;
    var items, keys := Contents(file, version), LiveKeys(file, version);
    ContentsWritable(file, version);
    RewriteHeader(items, keys);
    RewriteScans(items, keys);
    RestrictAll(items, keys);
    var log := CompactFile(file, version);
    OffsetOrderUnique(FileIndex(log, LOG_VERSION), LiveKeys(log, LOG_VERSION), keys);
  }

  /** The header of a compacted log is that of an empty one. */
  lemma CompactedHeader(file: Bytes, version: nat)
    requires |file| >= HEADER_SIZE
    ensures ReadHeader(CompactFile(file, version)) == Readable(Header(LOG_VERSION, 0, 0))
    ensures |CompactFile(file, version)| >= HEADER_SIZE
  {
    hide CompactFile, LittleEndian, Contents, LiveKeys, ScanLog, TotalSize;
    CompactionPreserves(file, version);
    var log := CompactFile(file, version);
    assert log == EMPTY_LOG + log[HEADER_SIZE..];
    HeaderReadBack(Header(LOG_VERSION, 0, 0), log[HEADER_SIZE..]);
  }

  /** Compacting twice gives the same bytes as compacting once. */
  lemma CompactionIdempotent(file: Bytes, version: nat)
    requires |file| >= HEADER_SIZE
    ensures |CompactFile(file, version)| >= HEADER_SIZE
    ensures CompactFile(CompactFile(file, version), LOG_VERSION) == CompactFile(file, version)
  {
    hide ScanLog, Contents, LiveKeys, Rewrite, FileIndex;
    CompactionPreserves(file, version);
  }

  // --------------------------------------------------------------- byte-for-byte

  /** The record's bytes are what the writer writes for its contents. */
  ghost predicate CanonicalRecord(file: Bytes, r: LogRecord) {
    var item := ItemAt(file, LOG_VERSION, EntryOf(r));
    && r.recordOffset + r.storedSize <= |file|
    && file[r.recordOffset..r.recordOffset + r.storedSize]
       == AppendBytes(r.key, item.value, r.deleted, item.attributes, item.extensions)
  }

  /** Every record of the log was written by the current writer. */
  ghost predicate CanonicalLog(file: Bytes) {
    && |file| >= HEADER_SIZE
    && ScanLog(file, LOG_VERSION).outcome == Done
    && var rs := ScanLog(file, LOG_VERSION).records;
       forall i :: 0 <= i < |rs| ==> CanonicalRecord(file, rs[i])
  }

  lemma EmptyLogCanonical()
    ensures CanonicalLog(EMPTY_LOG)
  {
    hide EMPTY_LOG, CanonicalRecord;
    EmptyLogScans();
  }

  /** Appending keeps a log canonical. */
  lemma AppendKeepsCanonical(log: Bytes, key: Bytes, value: Bytes, deleted: bool, attributes: Attributes, extensions: Bytes)
    requires CanonicalLog(log) && AppendAccepts(key, value, attributes, extensions)
    ensures CanonicalLog(log + AppendBytes(key, value, deleted, attributes, extensions))
  {
    hide AppendBytes, AppendAccepts, ScanFrom, ItemAt, IndexOf, EncodeBlock, CanonicalRecord;
    var b := AppendBytes(key, value, deleted, attributes, extensions);
    var log' := log + b;
    var rs := ScanLog(log, LOG_VERSION).records;
    var record := AppendedRecord(|log|, key, value, deleted, attributes, extensions);
    AppendRefines(log, key, value, deleted, attributes, extensions);
    ScanTiles(log, |log|, HEADER_SIZE, LOG_VERSION);
    forall i | 0 <= i < |rs| + 1
      ensures CanonicalRecord(log', (rs + [record])[i])
    {
      if i < |rs| {
        TilesAt(rs, HEADER_SIZE, |log|, i);
        assert Placed(rs[i], LOG_VERSION);
        CanonicalStays(log, b, rs[i]);
      } else {
        AppendedCanonical(log, key, value, deleted, attributes, extensions);
      }
    }
  }

  lemma CanonicalStays(log: Bytes, b: Bytes, r: LogRecord)
    requires CanonicalRecord(log, r) && Placed(r, LOG_VERSION) && r.recordOffset + r.storedSize <= |log|
    ensures CanonicalRecord(log + b, r)
  {
    hide CanonicalRecord, ItemAt;
    var log' := log + b;
    assert log'[..|log|] == log[..|log|];
    ItemLocal(log', log, |log|, LOG_VERSION, EntryOf(r));
    SharedSlice(log', log, |log|, r.recordOffset, r.recordOffset + r.storedSize);
    CanonicalSame(log, log', r);
  }

  lemma CanonicalSame(a: Bytes, b: Bytes, r: LogRecord)
    requires CanonicalRecord(a, r) && r.recordOffset + r.storedSize <= |a| && r.recordOffset + r.storedSize <= |b|
    requires b[r.recordOffset..r.recordOffset + r.storedSize] == a[r.recordOffset..r.recordOffset + r.storedSize]
    requires ItemAt(b, LOG_VERSION, EntryOf(r)) == ItemAt(a, LOG_VERSION, EntryOf(r))
    ensures CanonicalRecord(b, r)
  {
    hide AppendBytes, ItemAt;
  }

  lemma AppendedCanonical(log: Bytes, key: Bytes, value: Bytes, deleted: bool, attributes: Attributes, extensions: Bytes)
    requires AppendAccepts(key, value, attributes, extensions)
    ensures CanonicalRecord(log + AppendBytes(key, value, deleted, attributes, extensions),
                            AppendedRecord(|log|, key, value, deleted, attributes, extensions))
  {
    hide AppendBytes, AppendAccepts, ItemAt, EncodeBlock;
    var b := AppendBytes(key, value, deleted, attributes, extensions);
    var log' := log + b;
    assert log'[|log|..|log| + |b|] == b;
    AppendedParts(log', |log|, key, value, deleted, attributes, extensions);
  }

  /** The original bytes of the given keys' records, one after the other. */
  ghost function OriginalBytes(file: Bytes, m: Entries, keys: seq<Bytes>): Bytes
    requires forall k :: k in keys ==> k in m
  {
    if |keys| == 0 then []
    else
      var e := m[keys[|keys| - 1]];
      OriginalBytes(file, m, keys[..|keys| - 1]) + Slice(file, e.recordOffset, e.recordOffset + e.storedSize)
  }

  /**
   For a log written by this writer, the compacted body is exactly the original bytes of the live
   records, in file order.
   */
  lemma CompactionCopiesBytes(file: Bytes)
    requires CanonicalLog(file)
    ensures CompactFile(file, LOG_VERSION)
         == EMPTY_LOG + OriginalBytes(file, FileIndex(file, LOG_VERSION), LiveKeys(file, LOG_VERSION))
  {
    assert |file| >= HEADER_SIZE;
    hide FileIndex, Contents, CanonicalLog, EMPTY_LOG, AppendBytes, Rewrite, OriginalBytes;
    var m, items, keys := FileIndex(file, LOG_VERSION), Contents(file, LOG_VERSION), LiveKeys(file, LOG_VERSION);
    ContentsKeys(file, LOG_VERSION);
    forall k | k in keys
      ensures k in m && k in items && Locates(file, m[k], k, items[k])
    {
      LiveRecordBytes(file, k);
    }
    RewriteCopies(file, m, items, keys);
  }

  /** The entry locates the bytes an append of the item would write. */
  ghost predicate Locates(file: Bytes, e: Entry, k: Bytes, item: Item) {
    Slice(file, e.recordOffset, e.recordOffset + e.storedSize)
    == AppendBytes(k, item.value, false, item.attributes, item.extensions)
  }

  lemma {:induction false} RewriteCopies(file: Bytes, m: Entries, items: Items, keys: seq<Bytes>)
    requires forall k :: k in keys ==> k in m && k in items && Locates(file, m[k], k, items[k])
    ensures Rewrite(items, keys) == EMPTY_LOG + OriginalBytes(file, m, keys)
    decreases |keys|
  {
    if |keys| == 0 {
      assert EMPTY_LOG + [] == EMPTY_LOG;
    } else {
      hide EMPTY_LOG, AppendBytes, Slice, Locates, Rewrite, OriginalBytes;
      var init, k := keys[..|keys| - 1], keys[|keys| - 1];
      RewriteCopies(file, m, items, init);
      CopyStep(file, m, items, keys);
    }
  }

  lemma RewriteLast(items: Items, keys: seq<Bytes>)
    requires |keys| > 0 && forall k :: k in keys ==> k in items
    ensures var k := keys[|keys| - 1];
      Rewrite(items, keys)
      == Rewrite(items, keys[..|keys| - 1]) + AppendBytes(k, items[k].value, false, items[k].attributes, items[k].extensions)
  {
    hide EMPTY_LOG, AppendBytes;
  }

  lemma OriginalLast(file: Bytes, m: Entries, keys: seq<Bytes>)
    requires |keys| > 0 && forall k :: k in keys ==> k in m
    ensures var e := m[keys[|keys| - 1]];
      OriginalBytes(file, m, keys)
      == OriginalBytes(file, m, keys[..|keys| - 1]) + Slice(file, e.recordOffset, e.recordOffset + e.storedSize)
  {
    hide Slice;
  }

  lemma LocatedBytes(file: Bytes, e: Entry, k: Bytes, item: Item)
    requires Locates(file, e, k, item)
    ensures Slice(file, e.recordOffset, e.recordOffset + e.storedSize)
         == AppendBytes(k, item.value, false, item.attributes, item.extensions)
  {
  }

  lemma CopyStep(file: Bytes, m: Entries, items: Items, keys: seq<Bytes>)
    requires |keys| > 0 && forall k :: k in keys ==> k in m && k in items
    requires Rewrite(items, keys[..|keys| - 1]) == EMPTY_LOG + OriginalBytes(file, m, keys[..|keys| - 1])
    requires Locates(file, m[keys[|keys| - 1]], keys[|keys| - 1], items[keys[|keys| - 1]])
    ensures Rewrite(items, keys) == EMPTY_LOG + OriginalBytes(file, m, keys)
  {
    hide *;
    RewriteLast(items, keys);
    OriginalLast(file, m, keys);
    LocatedBytes(file, m[keys[|keys| - 1]], keys[|keys| - 1], items[keys[|keys| - 1]]);
    var e := m[keys[|keys| - 1]];
    Associative(EMPTY_LOG, OriginalBytes(file, m, keys[..|keys| - 1]),
                Slice(file, e.recordOffset, e.recordOffset + e.storedSize));
  }

  lemma LiveRecordBytes(file: Bytes, k: Bytes)
    requires CanonicalLog(file) && k in FileIndex(file, LOG_VERSION)
    ensures k in Contents(file, LOG_VERSION)
    ensures var e, item := FileIndex(file, LOG_VERSION)[k], Contents(file, LOG_VERSION)[k];
      Slice(file, e.recordOffset, e.recordOffset + e.storedSize)
      == AppendBytes(k, item.value, false, item.attributes, item.extensions)
  {
    hide ScanLog, IndexOf, ItemAt, AppendBytes;
    var rs := ScanLog(file, LOG_VERSION).records;
    var i := EntryHasRecord(rs, k);
    assert CanonicalRecord(file, rs[i]);
  }

  // --------------------------------------------------------------- dead space

  /** The share of the data that is not live, as an exact ratio. */
  function DeadRatio(live: int, dataSize: int): real
    requires dataSize > 0
  {
    1.0 - live as real / dataSize as real
  }

  /** The ratio is over the threshold exactly when the dead bytes are more than that share of the data. */
  lemma RatioOver(live: int, dataSize: int, threshold: real)
    requires dataSize > 0
    ensures DeadRatio(live, dataSize) > threshold <==> (dataSize - live) as real > threshold * dataSize as real
  {
    var share, size := live as real / dataSize as real, dataSize as real;
    assert share * size == live as real;
    assert DeadRatio(live, dataSize) * size == (dataSize - live) as real;
    TimesPositive(DeadRatio(live, dataSize), threshold, size);
  }

  lemma TimesPositive(a: real, b: real, size: real)
    requires size > 0.0
    ensures a > b <==> a * size > b * size
  {
    if a > b {
      assert (a - b) * size > 0.0;
    } else {
      assert (b - a) * size >= 0.0;
    }
  }

  lemma {:induction false} OriginalSize(file: Bytes, m: Entries, keys: seq<Bytes>, s: set<Bytes>)
    requires NoRepeats(keys) && (forall k :: k in keys <==> k in s) && (forall k :: k in keys ==> k in m)
    requires forall k :: k in keys ==> m[k].recordOffset + m[k].storedSize <= |file|
    ensures |OriginalBytes(file, m, keys)| == Sum(s, SizeOf(m))
    decreases |keys|
  {
    hide Sum;
    if |keys| == 0 {
      assert s == {};
      SumEmpty(SizeOf(m));
    } else {
      var init, last := keys[..|keys| - 1], keys[|keys| - 1];
      LastLeaves(keys, s);
      OriginalSize(file, m, init, s - {last});
      SumRemove(s, SizeOf(m), last);
      SliceSize(file, m[last].recordOffset, m[last].recordOffset + m[last].storedSize);
    }
  }

  lemma LastLeaves(keys: seq<Bytes>, s: set<Bytes>)
    requires |keys| > 0 && NoRepeats(keys) && (forall k :: k in keys <==> k in s)
    ensures NoRepeats(keys[..|keys| - 1]) && keys[|keys| - 1] in s
    ensures forall k :: k in keys[..|keys| - 1] <==> k in s && k != keys[|keys| - 1]
  {
    var init, last := keys[..|keys| - 1], keys[|keys| - 1];
    assert keys == init + [last];
  }

  lemma SliceSize(file: Bytes, i: nat, j: nat)
    requires i <= j <= |file|
    ensures |Slice(file, i, j)| == j - i
  {
  }

  /** Compacting a log of this writer leaves the header and the live records, so it reclaims the rest. */
  lemma CompactionReclaims(file: Bytes)
    requires CanonicalLog(file)
    ensures |CompactFile(file, LOG_VERSION)| == HEADER_SIZE + TotalSize(FileIndex(file, LOG_VERSION))
  {
    assert |file| >= HEADER_SIZE;
    hide CanonicalLog, FileIndex, ScanLog, CompactFile, LiveKeys, OriginalBytes, EMPTY_LOG, NoRepeats, Contents, Sum;
    var m, keys := FileIndex(file, LOG_VERSION), LiveKeys(file, LOG_VERSION);
    CompactionCopiesBytes(file);
    EmptyLogScans();
    forall k | k in keys
      ensures m[k].recordOffset + m[k].storedSize <= |file|
    {
      EntriesPlaced(file, LOG_VERSION, k);
    }
    OriginalSize(file, m, keys, m.Keys);
  }

  /** In every cleanly scanned log the dead share is between nothing and everything. */
  lemma DeadRatioInRange(file: Bytes, version: nat)
    requires |file| > HEADER_SIZE
    ensures 0.0 <= DeadRatio(TotalSize(FileIndex(file, version)), |file| - HEADER_SIZE) <= 1.0
  {
    hide ScanFrom, IndexOf, TotalSize, Tiles;
    ScanTiles(file, |file|, HEADER_SIZE, version);
    SpaceConserved(ScanLog(file, version).records, HEADER_SIZE, ScanLog(file, version).end);
    RatioBounds(TotalSize(FileIndex(file, version)), |file| - HEADER_SIZE);
  }

  lemma RatioBounds(live: int, size: int)
    requires 0 <= live <= size && size > 0
    ensures 0.0 <= live as real / size as real <= 1.0
  {
  }

  /** A compacted log never asks for compaction: all its data is live. */
  lemma CompactedNeedsNoCompaction(file: Bytes, version: nat, threshold: real)
    requires |file| >= HEADER_SIZE && threshold >= 0.0
    ensures var log := CompactFile(file, version);
      && |log| >= HEADER_SIZE
      && var data := |log| - HEADER_SIZE;
         !((data - TotalSize(FileIndex(log, LOG_VERSION))) as real > threshold * data as real)
  {
    hide CompactFile, ScanLog, FileIndex, TotalSize, Contents, LiveKeys;
    CompactionPreserves(file, version);
  }
}

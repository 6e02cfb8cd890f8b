/**
 The store: a log, an index over it and a cache in front of it, kept in agreement by every operation.
 */
module Store {
  import opened Bytes
  import opened Order
  import opened Attributes
  import opened Record
  import opened Scan
  import opened LogMap
  import opened KeyOrder
  import opened Compaction
  import opened Log
  import opened Cache
  import Runs
  import I = Index

  // --------------------------------------------------------------- the cache agrees with the contents

  /** Every cached value is the live value of its key. */
  predicate Coherent(q: Recency, items: Items) {
    forall i :: 0 <= i < |q| ==> q[i].key in items && items[q[i].key].value == q[i].value
  }

  lemma {:induction false} WithoutMember(q: Recency, key: Bytes, i: nat)
    requires i < |Without(q, key)|
    ensures exists j :: 0 <= j < |q| && q[j] == Without(q, key)[i]
  {
    if q[0].key == key {
      assert q[i + 1] == Without(q, key)[i];
    } else if i > 0 {
      WithoutMember(q[1..], key, i - 1);
      var j :| 0 <= j < |q[1..]| && q[1..][j] == Without(q[1..], key)[i - 1];
      assert q[j + 1] == Without(q, key)[i];
    }
  }

  /** Dropping a key keeps the cache coherent with contents that differ at most on that key. */
  lemma WithoutCoherent(q: Recency, key: Bytes, items: Items, items': Items)
    requires Coherent(q, items) && KeysDiffer(q)
    requires forall k :: k in items && k != key ==> k in items' && items'[k] == items[k]
    ensures Coherent(Without(q, key), items')
  {
    hide Without;
    var w := Without(q, key);
    WithoutDiffer(q, key);
    forall i | 0 <= i < |w|
      ensures w[i].key in items' && items'[w[i].key].value == w[i].value
    {
      WithoutMember(q, key, i);
      var j :| 0 <= j < |q| && q[j] == w[i];
    }
  }

  lemma {:induction false} LookupCoherent(q: Recency, items: Items, key: Bytes)
    requires Coherent(q, items) && Lookup(q, key).Some?
    ensures key in items && items[key].value == Lookup(q, key).value
  {
    if q[0].key != key {
      LookupCoherent(q[1..], items, key);
    }
  }

  lemma GetCoherent(q: Recency, items: Items, key: Bytes)
    requires Coherent(q, items) && KeysDiffer(q)
    ensures Coherent(AfterGet(q, key), items)
  {
    hide Lookup, Without;
    if Lookup(q, key).Some? {
      LookupCoherent(q, items, key);
      WithoutCoherent(q, key, items, items);
    }
  }

  lemma PutCoherent(q: Recency, items: Items, capacity: nat, key: Bytes, value: Bytes)
    requires Coherent(q, items) && KeysDiffer(q)
    requires key in items && items[key].value == value
    ensures Coherent(AfterPut(q, capacity, key, value), items)
  {
    hide Lookup, Without;
    WithoutCoherent(q, key, items, items);
  }

  // --------------------------------------------------------------- reading what the index locates

  /** The index holds, for every key, an extent where random access finds the key's contents. */
  lemma LiveIsReadable(file: Bytes, version: nat, key: Bytes)
    requires |file| >= HEADER_SIZE && version >= 4 && key in FileIndex(file, version)
    ensures key in Contents(file, version)
    ensures var e, item := FileIndex(file, version)[key], Contents(file, version)[key];
      && AreasAt(file, e.recordOffset, e.storedSize) == Some(Areas(item.value, item.extensions))
      && item.attributes == e.attributes
  {
    hide ScanFrom, IndexOf, ParseRecord, AreasAt;
    var rs := ScanLog(file, version).records;
    var i := EntryHasRecord(rs, key);
    ScannedParses(file, |file|, HEADER_SIZE, version, i);
    AreasOfScanned(file, rs[i].recordOffset);
  }

  datatype Result =
    | Ok
    | Closed
    | ReadOnly
    | NotFound
    | LogFailed(error: LogError)
    | ReadFailed
    | SyncFailed       // the change is made, and may not be durable
    | SwapFailed       // the old log was closed or moved, and is open again
    | CleanupFailed    // the new log is in place, and something after that failed
    | CallbackFailed

  /** Where a compaction fails, if it does: at the i-th record, on the way to the new log, or after it. */
  datatype CompactFault = NoFault | WhileCopying(i: nat) | BeforeSwap | AfterSwap

  datatype GetResult = Value(value: Bytes) | Missing | StoreClosed | Unreadable

  class Store {
    var log: AppendLog
    var index: I.Index
    var cache: LruCache
    var readOnly: bool
    var closed: bool
    const indexedFields: seq<Bytes>

    /** The part of the file the store has written or scanned. */
    ghost function Data(): Bytes
      reads this, log
      requires log.Valid()
    {
      log.file[..log.writePos]
    }

    /** What the store means: the contents its log has. */
    ghost function Live(): Items
      reads this, log
      requires log.Valid()
    {
      Contents(Data(), log.version)
    }

    /** The index is the fold of the log's records, and the cache agrees with the contents. */
    ghost predicate Valid()
      reads this, log, index, cache, cache.order
    {
      && log.Valid() && index.Valid() && cache.Valid()
      && ReadHeader(Data()) == Readable(Header(log.version, 0, log.readOnly))
      && ScanLog(Data(), log.version).outcome == Done
      && index.entries == FileIndex(Data(), log.version)
      && Coherent(cache.Contents(), Live())
      && (readOnly <==> log.readOnly != 0)
    }

    /** Everything an operation may change. */
    ghost function Footprint(): set<object>
      reads this, log, cache
    {
      {this, log, log.appendBuf, index, cache} + set e: Element | e in cache.order
    }

    /** A store over a log that was just opened and not yet scanned. */
    constructor (log: AppendLog, cacheSize: nat, fields: seq<Bytes>)
      requires log.Valid()
      ensures this.log == log && fresh(index) && fresh(cache) && index.Valid() && cache.Valid()
      ensures index.entries == map[] && cache.order == [] && indexedFields == fields && !closed
      ensures readOnly <==> log.readOnly != 0
    {
      this.log := log;
      index := new I.Index(fields);
      cache := new LruCache(cacheSize);
      readOnly := log.readOnly != 0;
      closed := false;
      indexedFields := fields;
    }

    /** Rebuilds the index from the log; on success the store refines what the file held. */
    method Recover() returns (ok: bool)
      requires log.Valid() && log.writePos == |log.file| && index.Valid() && cache.Valid()
      requires ReadHeader(log.file) == Readable(Header(log.version, 0, log.readOnly))
      requires index.entries == map[] && cache.order == [] && (readOnly <==> log.readOnly != 0)
      modifies log`file, log`writePos, index, cache
      ensures log.version == old(log.version)
      ensures ok <==> ScanLog(old(log.file), log.version).outcome != Corrupt
      ensures ok ==>
        && Valid() && Live() == Contents(old(log.file), log.version)
        && index.entries == FileIndex(old(log.file), log.version)
        && Data() == old(log.file)[..ScanLog(old(log.file), log.version).end]
      ensures cache.order == []
      ensures readOnly ==> log.file == old(log.file)
      ensures !readOnly && ok ==> log.writePos == |log.file|
    {
      hide ScanFrom, IndexOf, ItemAt, Coherent, I.Agree, ReadHeader;
      RepairPreserves(log.file, log.version);
      ghost var file := log.file;
      ghost var s := ScanLog(file, log.version);
      var records, outcome := log.Iterate();
      NoRecords();
      assert records[..0] == [];
      for i := 0 to |records|
        invariant index.Valid() && cache.Valid() && index.entries == IndexOf(records[..i]) && cache.order == []
        modifies index, cache
      {
        var record := records[i];
        IndexOfSnoc(records[..i], record);
        assert records[..i + 1] == records[..i] + [record];
        if record.deleted {
          index.Delete(record.key);
          cache.Remove(record.key);
        } else {
          index.Put(record.key, EntryOf(record));
        }
      }
      assert records[..|records|] == records;
      ok := outcome != Corrupt;
      if ok {
        assert log.file[..log.writePos] == file[..s.end];
        assert file[..s.end][..HEADER_SIZE] == file[..HEADER_SIZE];
        HeaderLocal(file[..s.end], file);
        NothingCached(Live());
      }
    }

    lemma NothingCached(items: Items)
      requires cache.order == []
      ensures Coherent(cache.Contents(), items)
    {
    }

    /** Stores a value. A refusal changes nothing the store means; success is exactly a map update. */
    method Put(key: Bytes, value: Bytes, attributes: Attributes, env: Environment) returns (r: Result)
      requires Valid()
      modifies log, log.appendBuf, index, cache
      ensures Valid() && log.version == old(log.version)
      ensures fresh(Footprint() - old(Footprint()))
      ensures r == Ok || r == SyncFailed ==> Live() == old(Live())[key := Item(value, attributes, [])]
      ensures r == Ok || r == SyncFailed ==> Data() == old(Data()) + AppendBytes(key, value, false, attributes, [])
      ensures r != Ok && r != SyncFailed ==> Live() == old(Live()) && Data() == old(Data())
      ensures r == Closed <==> closed
      ensures r == ReadOnly <==> !closed && readOnly
      ensures r == Ok || r == SyncFailed || r == LogFailed(WriteError) <==>
        !closed && !readOnly && log.version == LOG_VERSION && AppendAccepts(key, value, attributes, [])
      ensures r == Ok ==> !env.Fails(|AppendBytes(key, value, false, attributes, [])|) && !env.syncFails
      ensures r == SyncFailed ==> !env.Fails(|AppendBytes(key, value, false, attributes, [])|) && env.syncFails
      ensures r == LogFailed(WriteError) ==> env.Fails(|AppendBytes(key, value, false, attributes, [])|)
      ensures r != Ok && r != SyncFailed && r != LogFailed(WriteError) ==> log.file == old(log.file) && log.writePos == old(log.writePos)
      ensures r != LogFailed(WriteError) && old(log.writePos == |log.file|) ==> log.writePos == |log.file|
    {
      hide ScanLog, FileIndex, Contents, AppendBytes, AppendAccepts, Coherent, EncodeBlock, Overlay, I.Agree, Without, Linked, ReadHeader;
      assert ExtensionsFramed([]);
      if closed {
        return Closed;
      }
      if readOnly {
        return ReadOnly;
      }
      ghost var data := Data();
      OverlaySize(log.file, log.writePos, AppendBytes(key, value, false, attributes, []));
      var a := log.Append(key, value, false, attributes, [], env);
      if a.Failed? {
        if a.error == WriteError {
          OverlayKeeps(old(log.file), old(log.writePos), AppendBytes(key, value, false, attributes, [])[..env.writeFailsAfter.value]);
        }
        return LogFailed(a.error);
      }
      ghost var b := AppendBytes(key, value, false, attributes, []);
      OverlayKeeps(old(log.file), old(log.writePos), b);
      assert Data() == data + b;
      PrefixOfConcat(data, b, HEADER_SIZE);
      HeaderLocal(data + b, data);
      AppendRefines(data, key, value, false, attributes, []);
      EntryAppended(|data|, key, value, attributes, []);
      index.Put(key, Entry(a.offset, a.size, a.recordOffset, a.storedSize, attributes));
      cache.ContentsDiffer();
      WithoutCoherent(cache.Contents(), key, old(Live()), Live());
      cache.Remove(key);
      return if env.syncFails then SyncFailed else Ok;
    }

    /** Removes a key, leaving a tombstone in the log. */
    method Delete(key: Bytes, env: Environment) returns (r: Result)
      requires Valid()
      modifies log, log.appendBuf, index, cache
      ensures Valid() && log.version == old(log.version)
      ensures fresh(Footprint() - old(Footprint()))
      ensures r == Ok || r == SyncFailed ==> key in old(Live()) && Live() == old(Live()) - {key}
      ensures r == Ok || r == SyncFailed ==> Data() == old(Data()) + AppendBytes(key, [], true, map[], [])
      ensures r != Ok && r != SyncFailed ==> Live() == old(Live()) && Data() == old(Data())
      ensures r == NotFound <==> !closed && !readOnly && key !in old(Live())
      ensures r == Closed <==> closed
      ensures r == ReadOnly <==> !closed && readOnly
      ensures r == Ok || r == SyncFailed || r == LogFailed(WriteError) <==>
        !closed && !readOnly && key in old(Live()) && log.version == LOG_VERSION
      ensures r == Ok ==> !env.Fails(|AppendBytes(key, [], true, map[], [])|) && !env.syncFails
      ensures r == SyncFailed ==> !env.Fails(|AppendBytes(key, [], true, map[], [])|) && env.syncFails
      ensures r == LogFailed(WriteError) ==> env.Fails(|AppendBytes(key, [], true, map[], [])|)
      ensures r != Ok && r != SyncFailed && r != LogFailed(WriteError) ==> log.file == old(log.file) && log.writePos == old(log.writePos)
      ensures r != LogFailed(WriteError) && old(log.writePos == |log.file|) ==> log.writePos == |log.file|
    {
      hide ScanLog, FileIndex, Contents, AppendBytes, AppendAccepts, Coherent, EncodeBlock, Overlay, I.Agree, Without, Linked, ReadHeader;
      ContentsKeys(Data(), log.version);
      assert key in index.entries <==> key in Live().Keys;
      if closed {
        return Closed;
      }
      if readOnly {
        return ReadOnly;
      }
      if key !in index.entries {
        return NotFound;
      }
      ghost var data := Data();
      Runs.TombstoneAccepted(data, log.version, key);
      OverlaySize(log.file, log.writePos, AppendBytes(key, [], true, map[], []));
      var a := log.Append(key, [], true, map[], [], env);
      if a.Failed? {
        if a.error == WriteError {
          OverlayKeeps(old(log.file), old(log.writePos), AppendBytes(key, [], true, map[], [])[..env.writeFailsAfter.value]);
        }
        return LogFailed(a.error);
      }
      ghost var b := AppendBytes(key, [], true, map[], []);
      OverlayKeeps(old(log.file), old(log.writePos), b);
      assert Data() == data + b;
      PrefixOfConcat(data, b, HEADER_SIZE);
      HeaderLocal(data + b, data);
      AppendRefines(data, key, [], true, map[], []);
      AppendedKey(|data|, key, [], true, map[], []);
      index.Delete(key);
      cache.ContentsDiffer();
      WithoutCoherent(cache.Contents(), key, old(Live()), Live());
      cache.Remove(key);
      return if env.syncFails then SyncFailed else Ok;
    }

    /** Reads a value through the cache: the live value, or that there is none; a valid store never fails to read. */
    method Get(key: Bytes) returns (r: GetResult)
      requires Valid() && log.version >= 4
      modifies cache, cache.order
      ensures Valid() && Live() == old(Live()) && fresh(Footprint() - old(Footprint()))
      ensures closed ==> r == StoreClosed
      ensures !closed ==> r == (if key in Live() then Value(Live()[key].value) else Missing)
    {
      hide ScanLog, FileIndex, Contents, AreasAt, Coherent, I.Agree, Lookup, Without, Linked, ReadHeader;
      if closed {
        return StoreClosed;
      }
      ghost var q := cache.Contents();
      cache.ContentsDiffer();
      GetCoherent(q, Live(), key);
      var hit := cache.Get(key);
      if hit.Some? {
        LookupCoherent(q, Live(), key);
        return Value(hit.value);
      }
      ContentsKeys(Data(), log.version);
      assert key in index.entries <==> key in Live().Keys;
      if key !in index.entries {
        return Missing;
      }
      var e := index.entries[key];
      LiveIsReadable(Data(), log.version, key);
      EntryInside(Data(), log.version, key);
      assert log.file[..log.writePos] == Data()[..log.writePos];
      AreasLocal(log.file, Data(), log.writePos, e.recordOffset, e.storedSize);
      var areas := log.ReadAreas(e.recordOffset, e.storedSize);
      if areas.None? {
        return Unreadable;
      }
      cache.ContentsDiffer();
      PutCoherent(cache.Contents(), Live(), cache.capacity, key, areas.value.value);
      cache.Put(key, areas.value.value);
      return Value(areas.value.value);
    }

    /** Reads one live record for copying: by its extent in current logs, by its value's place in legacy ones. */
    method ReadForCopy(key: Bytes) returns (areas: Areas)
      requires Valid() && key in index.entries
      ensures key in Live() && areas == Areas(Live()[key].value, Live()[key].extensions)
      ensures Live()[key].attributes == index.entries[key].attributes
    {
      hide ScanLog, FileIndex, AreasAt, Coherent, I.Agree, Linked, ReadHeader;
      var e := index.entries[key];
      EntryInside(Data(), log.version, key);
      ContentsKeys(Data(), log.version);
      assert key in Live().Keys;
      if log.version >= 4 {
        LiveIsReadable(Data(), log.version, key);
        AreasLocal(log.file, Data(), log.writePos, e.recordOffset, e.storedSize);
        var read := log.ReadAreas(e.recordOffset, e.storedSize);
        return read.value;
      }
      ValueInside(Data(), log.version, key);
      SharedSlice(log.file, Data(), log.writePos, e.offset, e.offset + e.size);
      return Areas(log.file[e.offset..e.offset + e.size], []);
    }

    /** Appends the live records, in file order, to a new log, indexing them as it goes. */
    method BuildCompacted(failAfter: Option<nat>) returns (newLog: AppendLog, newIndex: I.Index, ok: bool)
      requires Valid()
      modifies index`sortedKeys, index`sortedDirty
      ensures Valid()
      ensures ok <==> failAfter.None? || failAfter.value >= |LiveKeys(Data(), log.version)|
      ensures ok ==>
        && fresh(newLog) && fresh(newLog.appendBuf) && fresh(newIndex) && newIndex.Valid()
        && newLog.file == CompactFile(Data(), log.version)
        && newIndex.entries == FileIndex(newLog.file, LOG_VERSION)
    {
      hide ScanLog, FileIndex, Contents, Coherent, I.Agree, Linked, ReadHeader, AppendAccepts, AppendBytes, EMPTY_LOG, Rewrite, IsOffsetOrder, DistinctOffsets, EncodeBlock, LiveKeys, KeysByOffset, Overlay, TotalSize, Restrict, Copied;
      newLog := new AppendLog();
      newIndex := new I.Index(indexedFields);
      ghost var items := Live();
      IndexDistinct(Data(), log.version);
      var keys := index.KeysSortedByOffset();
      OffsetOrderUnique(index.entries, keys, LiveKeys(Data(), log.version));
      ContentsWritable(Data(), log.version);
      ContentsKeys(Data(), log.version);
      NothingCopied(newLog, newIndex, items, keys);
      ok := true;
      for i := 0 to |keys|
        invariant Valid() && Live() == items && log == old(log) && log.file == old(log.file) && log.version == old(log.version)
        invariant fresh(newLog) && fresh(newLog.appendBuf) && fresh(newIndex)
        invariant Copied(newLog, newIndex, items, keys, i)
        invariant failAfter.None? || failAfter.value >= i
      {
        if failAfter == Some(i) {
          ok := false;
          return;
        }
        assert keys[i] in keys && keys[i] in items.Keys;
        CopyOne(newLog, newIndex, items, keys, i);
      }
      AllCopied(newLog, newIndex, items, keys);
    }

    /** Copies the i-th live record. */
    method CopyOne(newLog: AppendLog, newIndex: I.Index, ghost items: Items, keys: seq<Bytes>, i: nat)
      requires Valid() && items == Live() && Writable(items) && i < |keys| && NoRepeats(keys) && keys[i] in index.entries
      requires forall k :: k in keys ==> k in items
      requires newLog != log && newIndex != index && newLog.appendBuf != log.appendBuf
      requires Copied(newLog, newIndex, items, keys, i)
      modifies newLog, newLog.appendBuf, newIndex
      ensures newLog.appendBuf == old(newLog.appendBuf) || fresh(newLog.appendBuf)
      ensures Copied(newLog, newIndex, items, keys, i + 1)
    {
      hide ScanLog, FileIndex, Contents, Coherent, I.Agree, Linked, ReadHeader, AppendAccepts, AppendBytes, EMPTY_LOG, Rewrite, EncodeBlock, Overlay;
      var key := keys[i];
      var areas := ReadForCopy(key);
      ghost var before := newLog.file;
      ghost var item := items[key];
      StepRewrite(items, keys, i);
      AppendRefines(before, key, item.value, false, item.attributes, item.extensions);
      EntryAppended(|before|, key, item.value, item.attributes, item.extensions);
      OverlaySize(before, |before|, AppendBytes(key, item.value, false, item.attributes, item.extensions));
      var a := newLog.Append(key, areas.value, false, index.entries[key].attributes, areas.extensions,
                             Environment(None, true, 0, false));
      newIndex.Put(key, Entry(a.offset, a.size, a.recordOffset, a.storedSize, index.entries[key].attributes));
    }

    /**
     Replaces the log by its compacted form: same contents, the compacted bytes, an index over them,
     and an empty cache. A failure before the replacement leaves the store as it was, but for the
     bytes a failed write left behind the write position: a log that is opened again counts them in.
     */
    method Compact(fault: CompactFault) returns (r: Result)
      requires Valid()
      modifies this, index, cache
      ensures fresh(Footprint() - old(Footprint())) && closed == old(closed) && readOnly == old(readOnly)
      ensures r != SwapFailed || old(log.writePos == |log.file|) ==> Valid() && Live() == old(Live())
      ensures r == Ok || r == CleanupFailed ==>
        && Data() == CompactFile(old(Data()), old(log.version)) && log.version == LOG_VERSION
        && log.writePos == |log.file|
      ensures r != Ok && r != CleanupFailed ==>
        log.Valid() && log.file == old(log.file) && log.version == old(log.version)
      ensures r != Ok && r != CleanupFailed && r != SwapFailed ==> log == old(log) && log.writePos == old(log.writePos)
      ensures r == SwapFailed ==> log.writePos == |log.file|
      ensures r == Closed <==> closed
      ensures r == ReadOnly <==> !closed && readOnly
      ensures r == ReadFailed <==>
        !closed && !readOnly && fault.WhileCopying? && fault.i < |LiveKeys(old(Data()), old(log.version))|
      ensures r == SwapFailed <==> !closed && !readOnly && fault.BeforeSwap?
      ensures r == CleanupFailed <==> !closed && !readOnly && fault.AfterSwap?
      ensures r == Ok <==>
        && !closed && !readOnly
        && (fault.NoFault? || (fault.WhileCopying? && fault.i >= |LiveKeys(old(Data()), old(log.version))|))
    {
      hide ScanLog, FileIndex, Contents, Coherent, I.Agree, Linked, CompactFile, LiveKeys, ReadHeader, TotalSize, EMPTY_LOG;
      if closed {
        return Closed;
      }
      if readOnly {
        return ReadOnly;
      }
      ghost var data, version := Data(), log.version;
      var newLog, newIndex, ok := BuildCompacted(if fault.WhileCopying? then Some(fault.i) else None);
      if !ok {
        return ReadFailed;
      }
      if fault.BeforeSwap? {
        ReopenOld();
        return SwapFailed;
      }
      Install(newLog.file, newIndex, data, version);
      return if fault.AfterSwap? then CleanupFailed else Ok;
    }

    /** Takes over the compacted log and its index. */
    method Install(file: Bytes, newIndex: I.Index, ghost data: Bytes, ghost version: nat)
      requires Valid() && !readOnly && |data| >= HEADER_SIZE && file == CompactFile(data, version)
      requires newIndex.Valid() && newIndex.entries == FileIndex(CompactFile(data, version), LOG_VERSION)
      requires newIndex != index
      modifies this`log, this`index, cache`items, cache`order
      ensures Valid() && Live() == Contents(data, version) && index == newIndex && cache.order == []
      ensures fresh(log) && fresh(log.appendBuf) && log.version == LOG_VERSION
      ensures log.file == file && log.writePos == |file| && Data() == file
    {
      hide ScanLog, FileIndex, Contents, Coherent, I.Agree, Linked, CompactFile, LiveKeys, ReadHeader, TotalSize, EMPTY_LOG;
      CompactionPreserves(data, version);
      CompactedHeader(data, version);
      var header, reopened := OpenLog(file);
      log := reopened;
      index := newIndex;
      cache.Clear();
      assert Data() == file;
      NothingCached(Live());
    }

    /** Opens the log again, without a scan: the write position is the end of the file. */
    method ReopenOld()
      requires Valid()
      modifies this`log
      ensures fresh(log) && fresh(log.appendBuf) && log.Valid()
      ensures log.file == old(log.file) && log.version == old(log.version) && log.writePos == |log.file|
      ensures old(log.writePos == |log.file|) ==> Valid() && Live() == old(Live())
    {
      hide ScanLog, FileIndex, Contents, Coherent, I.Agree, Linked, ReadHeader;
      assert Data()[..HEADER_SIZE] == log.file[..HEADER_SIZE];
      HeaderLocal(log.file, Data());
      var header, reopened := OpenLog(log.file);
      log := reopened;
      assert old(log.writePos == |log.file|) ==> Data() == old(Data());
    }

    /**
     Visits the entries in file order, reading each from the log and not through the cache, until the
     callback fails, at the visit numbered `failAt` if there is one.
     */
    method ForEach(failAt: Option<nat>) returns (r: Result, visited: seq<Cached>)
      requires Valid() && log.version >= 4
      modifies index`sortedKeys, index`sortedDirty
      ensures Valid() && Live() == old(Live())
      ensures r == Closed <==> closed
      ensures r == CallbackFailed <==> !closed && failAt.Some? && failAt.value < |LiveKeys(Data(), log.version)|
      ensures r == Closed || r == CallbackFailed || r == Ok
      ensures |visited| == (if r == Closed then 0 else if r == CallbackFailed then failAt.value + 1
                            else |LiveKeys(Data(), log.version)|)
      ensures Cache.KeysOf(visited) <= LiveKeys(Data(), log.version)
      ensures forall i :: 0 <= i < |visited| ==> visited[i].key in Live() && visited[i].value == Live()[visited[i].key].value
    {
      hide ScanLog, FileIndex, Contents, Coherent, I.Agree, Linked, ReadHeader, IsOffsetOrder, DistinctOffsets, LiveKeys, KeysByOffset;
      if closed {
        return Closed, [];
      }
      IndexDistinct(Data(), log.version);
      var keys := index.KeysSortedByOffset();
      OffsetOrderUnique(index.entries, keys, LiveKeys(Data(), log.version));
      ContentsKeys(Data(), log.version);
      assert forall k :: k in keys ==> k in Live().Keys;
      var ok;
      ok, visited := Visit(keys, failAt);
      r := if ok then Ok else CallbackFailed;
    }

    /** Reads the given live keys one by one, and hands each to the callback. */
    method Visit(keys: seq<Bytes>, failAt: Option<nat>) returns (ok: bool, visited: seq<Cached>)
      requires Valid() && forall k :: k in keys ==> k in Live() && k in index.entries
      ensures !ok <==> failAt.Some? && failAt.value < |keys|
      ensures |visited| == if ok then |keys| else failAt.value + 1
      ensures Cache.KeysOf(visited) <= keys
      ensures forall i :: 0 <= i < |visited| ==> visited[i].key in Live() && visited[i].value == Live()[visited[i].key].value
    {
      hide ScanLog, FileIndex, Contents, Coherent, I.Agree, Linked, ReadHeader;
      visited := [];
      for i := 0 to |keys|
        invariant |visited| == i && forall j :: 0 <= j < i ==> visited[j].key == keys[j]
        invariant forall j :: 0 <= j < i ==> visited[j].key in Live() && visited[j].value == Live()[visited[j].key].value
        invariant failAt.None? || failAt.value >= i
      {
        assert keys[i] in keys;
        var areas := ReadForCopy(keys[i]);
        visited := visited + [Cached(keys[i], areas.value)];
        if failAt == Some(i) {
          assert Cache.KeysOf(visited) == keys[..i + 1];
          return false, visited;
        }
      }
      assert Cache.KeysOf(visited) == keys;
      return true, visited;
    }

    /**
     Whether the dead bytes are more than the given share of the data. In a log of this writer they are
     what a compaction would reclaim.
     */
    method CompactionDue(threshold: real) returns (due: bool)
      requires Valid()
      ensures var data := |Data()| - HEADER_SIZE;
        due <==> data > 0 && (data - TotalSize(FileIndex(Data(), log.version))) as real > threshold * data as real
      ensures log.version == LOG_VERSION && CanonicalLog(Data()) ==>
        (due <==>
          && |Data()| > HEADER_SIZE
          && (|Data()| - |CompactFile(Data(), log.version)|) as real > threshold * (|Data()| - HEADER_SIZE) as real)
    {
      hide ScanLog, FileIndex, Contents, Coherent, I.Agree, Linked, ReadHeader, TotalSize, CanonicalLog, CompactFile;
      if log.version == LOG_VERSION && CanonicalLog(Data()) {
        CompactionReclaims(Data());
      }
      var live := index.StoredTotal();
      var dataSize := log.writePos - HEADER_SIZE;
      if dataSize <= 0 {
        return false;
      }
      RatioOver(live, dataSize, threshold);
      var deadRatio := 1.0 - live as real / dataSize as real;
      return deadRatio > threshold;
    }
  }

  lemma NoRecords()
    ensures IndexOf([]) == map[]
  {
  }

  lemma OverlayKeeps(file: Bytes, pos: nat, b: Bytes)
    requires pos <= |file|
    ensures pos + |b| <= |Overlay(file, pos, b)|
    ensures Overlay(file, pos, b)[..pos] == file[..pos]
    ensures Overlay(file, pos, b)[..pos + |b|] == file[..pos] + b
  {
  }

  lemma EntryAppended(pos: nat, key: Bytes, value: Bytes, attributes: Attributes, extensions: Bytes)
    ensures var r := AppendedRecord(pos, key, value, false, attributes, extensions);
      && r.key == key && !r.deleted
      && EntryOf(r) == Entry(pos + FIELDS_OFFSET + |key| + |EncodeBlock(attributes)|, |value|, pos,
                             |AppendBytes(key, value, false, attributes, extensions)|, attributes)
  {
  }

  /** The store was just opened on this file, and scanned it. */
  ghost predicate OpenOn(store: Store, bytes: Bytes)
    requires Good(bytes)
    reads store, store.log, store.index, store.cache, store.cache.order
  {
    && store.Valid() && !store.closed && store.cache.order == []
    && store.log.version == (if |bytes| == 0 then LOG_VERSION else ReadHeader(bytes).header.version)
    && store.log.readOnly == (if |bytes| == 0 then 0 else ReadHeader(bytes).header.readOnly)
    && store.Live() == Meaning(bytes)
    && (|bytes| > 0 ==> store.Data() == bytes[..ScanLog(bytes, store.log.version).end])
    && (|bytes| == 0 ==> store.log.file == EMPTY_LOG)
    && (store.readOnly ==> store.log.file == bytes)
    && (!store.readOnly ==> store.log.writePos == |store.log.file|)
  }

  /** Opens a file that is not empty. */
  method OpenExisting(bytes: Bytes, cacheSize: nat, fields: seq<Bytes>) returns (store: Store?)
    requires |bytes| > 0
    ensures store != null <==> Good(bytes)
    ensures store != null ==> OpenOn(store, bytes) && fresh(store.Footprint())
  {
    hide ScanLog, FileIndex, Contents, Coherent, I.Agree, Linked, EMPTY_LOG, ReadHeader;
    var header, log := OpenLog(bytes);
    if log == null {
      return null;
    }
    ReadableHeader(bytes);
    store := new Store(log, cacheSize, fields);
    var ok := store.Recover();
    if !ok {
      return null;
    }
  }

  /** Opens a file and scans it, in whatever version it is. */
  method OpenScanned(bytes: Bytes, cacheSize: nat, fields: seq<Bytes>) returns (store: Store?)
    ensures store != null <==> Good(bytes)
    ensures store != null ==> OpenOn(store, bytes) && fresh(store.Footprint())
  {
    hide ScanLog, FileIndex, Contents, Coherent, I.Agree, Linked, EMPTY_LOG, ReadHeader;
    if |bytes| == 0 {
      store := OpenNew(cacheSize, fields);
    } else {
      store := OpenExisting(bytes, cacheSize, fields);
    }
  }

  /** Opens a new file. */
  method OpenNew(cacheSize: nat, fields: seq<Bytes>) returns (store: Store)
    ensures store.Valid() && fresh(store.Footprint()) && !store.closed && !store.readOnly && store.cache.order == []
    ensures store.log.version == LOG_VERSION && store.log.readOnly == 0 && store.Live() == Meaning([]) == map[]
    ensures store.log.file == EMPTY_LOG && store.log.writePos == |EMPTY_LOG|
  {
    hide ScanLog, FileIndex, Contents, Coherent, I.Agree, Linked, EMPTY_LOG, ReadHeader, Meaning;
    EmptyOpens();
    EmptyLogScans();
    var header, log := OpenLog([]);
    store := new Store(log, cacheSize, fields);
    var ok := store.Recover();
    assert store.log.file[..store.log.writePos] == store.log.file;
  }

  /**
   Opens a file and brings it to the current format: a store exists exactly when the file can be
   opened and, if it is old, may be migrated; and it holds exactly what the file meant.
   */
  method OpenStore(bytes: Bytes, cacheSize: nat, fields: seq<Bytes>, mayMigrate: bool) returns (store: Store?)
    ensures store != null <==>
      Good(bytes) && (|bytes| > 0 && ReadHeader(bytes).header.version < LOG_VERSION ==> mayMigrate)
    ensures store != null ==>
      && store.Valid() && store.log.version == LOG_VERSION && !store.closed
      && store.Live() == Meaning(bytes)
      && fresh(store.Footprint()) && (|bytes| == 0 ==> store.log.file == EMPTY_LOG && !store.readOnly)
      && (store.readOnly ==> store.log.file == bytes)
      && (!store.readOnly ==> store.log.writePos == |store.log.file|)
  {
    hide ScanLog, FileIndex, Contents, Coherent, I.Agree, Linked, ReadHeader, Meaning;
    store := OpenScanned(bytes, cacheSize, fields);
    if store == null {
      return null;
    }
    if store.log.version < LOG_VERSION {
      if !mayMigrate {
        return null;
      }
      Migrate(store);
    }
  }

  /** Brings an old log to the current format: a version 4 one by its header, older ones by rewriting them. */
  method Migrate(store: Store)
    requires store.Valid() && store.log.version < LOG_VERSION && !store.closed && !store.readOnly
    requires store.cache.order == [] && store.log.writePos == |store.log.file|
    modifies store, store.log, store.index, store.cache
    ensures store.Valid() && store.log.version == LOG_VERSION && store.Live() == old(store.Live())
    ensures !store.closed && !store.readOnly && store.log.writePos == |store.log.file|
    ensures fresh(store.Footprint() - old(store.Footprint()))
  {
    hide ScanLog, FileIndex, Contents, Coherent, I.Agree, Linked, CompactFile, ReadHeader, LiveKeys;
    if store.log.version == 4 {
      UpgradeHeader(store);
    } else {
      var r := store.Compact(NoFault);
    }
  }

  lemma ReadableHeader(bytes: Bytes)
    requires ReadHeader(bytes).Readable?
    ensures var h := ReadHeader(bytes).header;
      |bytes| >= HEADER_SIZE && 1 <= h.version <= LOG_VERSION && h.incompatible == 0
  {
  }

  lemma EmptyOpens()
    ensures |EMPTY_LOG| == HEADER_SIZE && ReadHeader(EMPTY_LOG) == Readable(Header(LOG_VERSION, 0, 0))
    ensures Contents(EMPTY_LOG, LOG_VERSION) == map[] && ScanLog(EMPTY_LOG, LOG_VERSION).outcome == Done
    ensures Meaning([]) == map[] && !ReadHeader([]).Readable?
  {
    hide EMPTY_LOG;
    EmptyLogScans();
  }

  /** Migrates a version 4 log by rewriting its header only. */
  method UpgradeHeader(store: Store)
    requires store.Valid() && store.log.version == 4 && store.cache.order == [] && store.log.writePos == |store.log.file|
    modifies store.log`file, store.log`version
    ensures store.Valid() && store.log.version == LOG_VERSION && store.Live() == old(store.Live())
    ensures store.log.writePos == |store.log.file| && store.log.file[HEADER_SIZE..] == old(store.log.file)[HEADER_SIZE..]
  {
    hide ScanLog, FileIndex, Contents, Coherent, I.Agree, Linked, HeaderBytes, ReadHeader;
    ghost var before := store.Data();
    assert before == store.log.file;
    store.log.SetVersion(LOG_VERSION);
    ghost var after := store.Data();
    assert after == store.log.file;
    assert after[HEADER_SIZE..] == before[HEADER_SIZE..];
    ContentsIgnoreHeader(before, after, 4, LOG_VERSION);
    HeaderReadBack(Header(LOG_VERSION, 0, 0), before[HEADER_SIZE..]);
    store.NothingCached(store.Live());
  }

  /**
   Closing a store and opening its file again: possible exactly when what lies behind the write
   position does not read as corruption. If the scan ends at the write position, as it does when
   nothing lies there, it rebuilds the same index, entry for entry, and the same contents.
   */
  method Reopen(store: Store, cacheSize: nat) returns (again: Store?)
    requires store.Valid() && store.log.version == LOG_VERSION
    ensures again != null <==> ScanLog(store.log.file, LOG_VERSION).outcome != Corrupt
    ensures store.log.writePos == |store.log.file| ==> again != null && again.log.file == store.log.file
    ensures again != null ==>
      && again.Valid() && fresh(again.Footprint()) && !again.closed && again.readOnly == store.readOnly
      && again.log.version == LOG_VERSION && again.Live() == Contents(store.log.file, LOG_VERSION)
      && (again.readOnly ==> again.log.file == store.log.file)
      && (!again.readOnly ==> again.log.writePos == |again.log.file|)
    ensures again != null && ScanLog(store.log.file, LOG_VERSION).end == store.log.writePos ==>
      again.index.entries == store.index.entries && again.Live() == store.Live() && again.Data() == store.Data()
  {
    hide ScanFrom, FileIndex, Contents, Coherent, I.Agree, Linked, ReadHeader;
    var bytes := store.log.file;
    assert store.Data()[..HEADER_SIZE] == bytes[..HEADER_SIZE];
    HeaderLocal(bytes, store.Data());
    assert store.log.writePos == |bytes| ==> store.Data() == bytes == bytes[..|bytes|];
    again := OpenScanned(bytes, cacheSize, store.indexedFields);
  }

  /** The new log holds the first `i` records, and the new index locates them. */
  ghost predicate Copied(newLog: AppendLog, newIndex: I.Index, items: Items, keys: seq<Bytes>, i: nat)
    requires i <= |keys|
    reads newLog, newIndex
  {
    && newLog.Valid() && newIndex.Valid()
    && newLog.version == LOG_VERSION && newLog.readOnly == 0 && newLog.writePos == |newLog.file|
    && (forall k :: k in keys[..i] ==> k in items)
    && newLog.file == Rewrite(items, keys[..i])
    && newIndex.entries == FileIndex(newLog.file, LOG_VERSION)
  }

  lemma StartRewrite(items: Items, keys: seq<Bytes>)
    ensures keys[..0] == [] && Rewrite(items, keys[..0]) == EMPTY_LOG && |EMPTY_LOG| == HEADER_SIZE
    ensures FileIndex(EMPTY_LOG, LOG_VERSION) == map[]
  {
    hide EMPTY_LOG, FileIndex;
    EmptyIndex();
  }

  lemma NothingCopied(newLog: AppendLog, newIndex: I.Index, items: Items, keys: seq<Bytes>)
    requires newLog.Valid() && newIndex.Valid() && newLog.version == LOG_VERSION && newLog.readOnly == 0
    requires newLog.file == EMPTY_LOG && newLog.writePos == |newLog.file| && newIndex.entries == map[]
    ensures Copied(newLog, newIndex, items, keys, 0)
  {
    hide EMPTY_LOG, FileIndex, Rewrite, I.Agree;
    StartRewrite(items, keys);
  }

  lemma AllCopied(newLog: AppendLog, newIndex: I.Index, items: Items, keys: seq<Bytes>)
    requires Copied(newLog, newIndex, items, keys, |keys|)
    ensures newLog.Valid() && newIndex.Valid() && forall k :: k in keys ==> k in items
    ensures newLog.file == Rewrite(items, keys) && newIndex.entries == FileIndex(newLog.file, LOG_VERSION)
  {
    hide FileIndex, Rewrite, I.Agree;
    assert keys[..|keys|] == keys;
  }

  lemma StepRewrite(items: Items, keys: seq<Bytes>, i: nat)
    requires i < |keys| && Writable(items) && NoRepeats(keys) && (forall k :: k in keys ==> k in items)
    ensures (forall k :: k in keys[..i] ==> k in items) && (forall k :: k in keys[..i + 1] ==> k in items)
    ensures |Rewrite(items, keys[..i])| >= HEADER_SIZE
    ensures ScanLog(Rewrite(items, keys[..i]), LOG_VERSION).outcome == Done
    ensures var item := items[keys[i]];
      Rewrite(items, keys[..i + 1]) ==
      Rewrite(items, keys[..i]) + AppendBytes(keys[i], item.value, false, item.attributes, item.extensions)
  {
    hide AppendAccepts, ScanLog, Contents, FileIndex, EMPTY_LOG, AppendBytes, TotalSize, Restrict, IsOffsetOrder;
    assert keys[..i + 1][..i] == keys[..i];
    RewriteScans(items, keys[..i]);
  }

  lemma ValueInside(file: Bytes, version: nat, key: Bytes)
    requires |file| >= HEADER_SIZE && key in FileIndex(file, version)
    ensures FileIndex(file, version)[key].offset + FileIndex(file, version)[key].size <= |file|
  {
    hide ScanFrom, IndexOf;
    EntriesPlaced(file, version, key);
  }

  lemma EntryInside(file: Bytes, version: nat, key: Bytes)
    requires |file| >= HEADER_SIZE && key in FileIndex(file, version)
    ensures FileIndex(file, version)[key].recordOffset + FileIndex(file, version)[key].storedSize <= |file|
  {
    hide ScanFrom, IndexOf;
    EntriesPlaced(file, version, key);
  }
}

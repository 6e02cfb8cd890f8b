/**
 A store used through its own operations, one after the other: the class keeps what the model of
 whole runs promises of files and maps.
 */
module StoreRuns {
  import opened Bytes
  import opened Attributes
  import opened Record
  import opened Scan
  import opened LogMap
  import opened Compaction
  import opened Log
  import Cache
  import Runs
  import I = Index
  import S = Store

  /** A store that is open for writing and whose last write succeeded, on exactly this file. */
  ghost predicate Running(store: S.Store, file: Bytes)
    reads store, store.log, store.index, store.cache, store.cache.order
  {
    && store.Valid() && !store.closed && !store.readOnly
    && store.log.version == LOG_VERSION && store.log.file == file && store.log.writePos == |file|
  }

  lemma RunningMeans(store: S.Store, file: Bytes)
    requires Running(store, file)
    ensures store.log.Valid() && store.Data() == file && |file| >= HEADER_SIZE && store.Live() == Contents(file, LOG_VERSION)
  {
    assert file[..|file|] == file;
  }

  /** Nothing fails. */
  const FINE := Environment(None, true, 0, false)

  /** The whole file is the store's data. */
  lemma WholeFile(store: S.Store)
    requires store.log.Valid() && store.log.writePos == |store.log.file|
    ensures store.Data() == store.log.file
  {
  }

  method DoPut(store: S.Store, key: Bytes, value: Bytes, attributes: Attributes, ghost file: Bytes)
    requires Running(store, file) && Runs.Sound(file)
    modifies store.log, store.log.appendBuf, store.index, store.cache
    ensures fresh(store.Footprint() - old(store.Footprint()))
    ensures |file| >= HEADER_SIZE && Running(store, Runs.StepFile(file, Runs.PutOp(key, value, attributes)))
  {
    hide Contents, FileIndex, ScanLog, AppendAccepts, AppendBytes, Runs.Sound, S.Coherent, I.Agree, Cache.Linked, ReadHeader;
    RunningMeans(store, file);
    var r := store.Put(key, value, attributes, FINE);
    WholeFile(store);
  }

  method DoDelete(store: S.Store, key: Bytes, ghost file: Bytes)
    requires Running(store, file) && Runs.Sound(file)
    modifies store.log, store.log.appendBuf, store.index, store.cache
    ensures fresh(store.Footprint() - old(store.Footprint()))
    ensures |file| >= HEADER_SIZE && Running(store, Runs.StepFile(file, Runs.DeleteOp(key)))
  {
    hide Contents, FileIndex, ScanLog, AppendAccepts, AppendBytes, Runs.Sound, S.Coherent, I.Agree, Cache.Linked, ReadHeader;
    RunningMeans(store, file);
    ContentsKeys(file, LOG_VERSION);
    assert key in FileIndex(file, LOG_VERSION) <==> key in Contents(file, LOG_VERSION).Keys;
    if key in FileIndex(file, LOG_VERSION) {
      Runs.TombstoneAccepted(file, LOG_VERSION, key);
    }
    var r := store.Delete(key, FINE);
    WholeFile(store);
  }

  method DoCompact(store: S.Store, ghost file: Bytes)
    requires Running(store, file) && Runs.Sound(file)
    modifies store, store.index, store.cache
    ensures fresh(store.Footprint() - old(store.Footprint()))
    ensures |file| >= HEADER_SIZE && Running(store, Runs.StepFile(file, Runs.CompactOp))
  {
    hide Contents, FileIndex, ScanLog, CompactFile, LiveKeys, Runs.Sound, S.Coherent, I.Agree, Cache.Linked, ReadHeader;
    RunningMeans(store, file);
    var r := store.Compact(S.NoFault);
    WholeFile(store);
  }

  method DoReopen(store: S.Store, cacheSize: nat, ghost file: Bytes) returns (again: S.Store)
    requires Running(store, file) && Runs.Sound(file)
    ensures fresh(again.Footprint())
    ensures |file| >= HEADER_SIZE && Running(again, Runs.StepFile(file, Runs.ReopenOp))
  {
    hide Contents, FileIndex, ScanLog, Runs.Sound, S.Coherent, I.Agree, Cache.Linked, ReadHeader;
    RunningMeans(store, file);
    Runs.SoundScans(file);
    assert file[..|file|] == file;
    var reopened := S.Reopen(store, cacheSize);
    again := reopened;
    WholeFile(again);
  }

  /** Carries out one operation; reopening gives another store. */
  method Step(store: S.Store, op: Runs.Op, cacheSize: nat, ghost file: Bytes) returns (next: S.Store)
    requires Running(store, file) && Runs.Sound(file)
    modifies store.Footprint()
    ensures fresh(next.Footprint() - old(store.Footprint()))
    ensures |file| >= HEADER_SIZE && Running(next, Runs.StepFile(file, op))
  {
    hide Running, Runs.StepFile, Runs.Sound;
    next := store;
    match op
    case PutOp(key, value, attributes) => DoPut(store, key, value, attributes, file);
    case DeleteOp(key) => DoDelete(store, key, file);
    case CompactOp => DoCompact(store, file);
    case ReopenOp => next := DoReopen(store, cacheSize, file);
  }

  /** Opens a store on a new file and carries out the operations one by one. */
  method CarryOut(ops: seq<Runs.Op>, cacheSize: nat, fields: seq<Bytes>) returns (store: S.Store)
    ensures fresh(store.Footprint()) && Running(store, Runs.RunFile(ops))
    decreases |ops|
  {
    hide Runs.StepFile, Runs.Sound, Running, Contents, EMPTY_LOG;
    if |ops| == 0 {
      store := Fresh(cacheSize, fields);
    } else {
      var init := ops[..|ops| - 1];
      var before := CarryOut(init, cacheSize, fields);
      Runs.RunRefines(init);
      store := Step(before, ops[|ops| - 1], cacheSize, Runs.RunFile(init));
    }
  }

  /**
   The store refines a map: a store opened on a new file and put through any sequence of puts,
   deletes, compactions and reopenings, accepted or refused, holds exactly what the same operations
   make of an empty map, and its file is exactly the one the operations make byte by byte.
   */
  method RunStore(ops: seq<Runs.Op>, cacheSize: nat, fields: seq<Bytes>) returns (store: S.Store)
    ensures fresh(store.Footprint()) && Running(store, Runs.RunFile(ops))
    ensures store.log.Valid() && store.Live() == Runs.RunItems(ops)
  {
    hide Runs.Sound, Running, Runs.RunFile, Runs.RunItems, Contents;
    store := CarryOut(ops, cacheSize, fields);
    Runs.RunRefines(ops);
    RunningMeans(store, Runs.RunFile(ops));
  }

  /** A store on a file that was not there. */
  method Fresh(cacheSize: nat, fields: seq<Bytes>) returns (store: S.Store)
    ensures fresh(store.Footprint()) && Running(store, EMPTY_LOG)
  {
    hide Contents, FileIndex, ScanLog, S.Coherent, I.Agree, Cache.Linked, ReadHeader, EMPTY_LOG, Meaning;
    var created := S.OpenStore([], cacheSize, fields, false);
    store := created;
  }
}

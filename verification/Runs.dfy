/**
 Whole runs of a store on its log file: puts, deletes, compactions and reopenings, against the
 same operations on a map.
 */
module Runs {
  import opened Bytes
  import opened Attributes
  import opened Record
  import opened Scan
  import opened LogMap
  import opened KeyOrder
  import opened Compaction

  datatype Op =
    | PutOp(key: Bytes, value: Bytes, attributes: Attributes)
    | DeleteOp(key: Bytes)
    | CompactOp
    | ReopenOp

  /** What an operation does to the log file; a refused operation leaves it as it was. */
  ghost function StepFile(file: Bytes, op: Op): (after: Bytes)
    requires |file| >= HEADER_SIZE
    ensures |after| >= HEADER_SIZE
  {
    match op
    case PutOp(key, value, attributes) =>
      if AppendAccepts(key, value, attributes, []) then file + AppendBytes(key, value, false, attributes, []) else file
    case DeleteOp(key) =>
      if key in FileIndex(file, LOG_VERSION) && AppendAccepts(key, [], map[], [])
      then file + AppendBytes(key, [], true, map[], []) else file
    case CompactOp =>
      CompactionPreserves(file, LOG_VERSION);
      CompactFile(file, LOG_VERSION)
    case ReopenOp => file[..ScanLog(file, LOG_VERSION).end]
  }

  /** What an operation does to the map. */
  ghost function StepItems(items: Items, op: Op): Items {
    match op
    case PutOp(key, value, attributes) =>
      if AppendAccepts(key, value, attributes, []) then items[key := Item(value, attributes, [])] else items
    case DeleteOp(key) => items - {key}
    case CompactOp => items
    case ReopenOp => items
  }

  /** The log is a version 5 log without features, scans cleanly, and every record was written by this writer. */
  ghost predicate Sound(file: Bytes) {
    && |file| >= HEADER_SIZE && file[..HEADER_SIZE] == EMPTY_LOG
    && CanonicalLog(file)
  }

  ghost function RunFile(ops: seq<Op>): (file: Bytes)
    ensures |file| >= HEADER_SIZE
  {
    if |ops| == 0 then
      EmptyLogScans();
      EMPTY_LOG
    else
      StepFile(RunFile(ops[..|ops| - 1]), ops[|ops| - 1])
  }

  ghost function RunItems(ops: seq<Op>): Items {
    if |ops| == 0 then map[] else StepItems(RunItems(ops[..|ops| - 1]), ops[|ops| - 1])
  }

  lemma AppendKeepsSound(file: Bytes, key: Bytes, value: Bytes, deleted: bool, attributes: Attributes, extensions: Bytes)
    requires Sound(file) && AppendAccepts(key, value, attributes, extensions)
    ensures Sound(file + AppendBytes(key, value, deleted, attributes, extensions))
  {
    hide CanonicalLog, AppendAccepts, AppendBytes, EMPTY_LOG;
    AppendKeepsCanonical(file, key, value, deleted, attributes, extensions);
    PrefixOfConcat(file, AppendBytes(key, value, deleted, attributes, extensions), HEADER_SIZE);
  }

  lemma {:induction false} RewriteKeepsSound(items: Items, keys: seq<Bytes>)
    requires Writable(items) && (forall k :: k in keys ==> k in items)
    ensures Sound(Rewrite(items, keys))
  {
    hide AppendAccepts, AppendBytes, EMPTY_LOG, CanonicalLog;
    if |keys| == 0 {
      EmptyLogCanonical();
      EmptyLogScans();
      assert EMPTY_LOG[..HEADER_SIZE] == EMPTY_LOG;
    } else {
      var init, k := keys[..|keys| - 1], keys[|keys| - 1];
      RewriteKeepsSound(items, init);
      AppendKeepsSound(Rewrite(items, init), k, items[k].value, false, items[k].attributes, items[k].extensions);
    }
  }

  lemma CompactionKeepsSound(file: Bytes, version: nat)
    requires |file| >= HEADER_SIZE
    ensures Sound(CompactFile(file, version))
  {
    hide Contents, LiveKeys, Rewrite, Sound;
    ContentsWritable(file, version);
    RewriteKeepsSound(Contents(file, version), LiveKeys(file, version));
  }

  /** A key that a scan delivered can be deleted: its tombstone is always accepted. */
  lemma TombstoneAccepted(file: Bytes, version: nat, key: Bytes)
    requires |file| >= HEADER_SIZE && key in FileIndex(file, version)
    ensures AppendAccepts(key, [], map[], [])
  {
    hide ScanLog, IndexOf, ItemAt, Acceptable;
    ContentsKeys(file, version);
    ContentsWritable(file, version);
    assert key in Contents(file, version);
    EmptyBlock();
    assert ExtensionsFramed([]);
  }

  /** One operation on the file is the same operation on the map it means. */
  lemma StepRefines(file: Bytes, op: Op)
    requires Sound(file)
    ensures Sound(StepFile(file, op))
    ensures Contents(StepFile(file, op), LOG_VERSION) == StepItems(Contents(file, LOG_VERSION), op)
  {
    hide ScanLog, FileIndex, Contents, AppendAccepts, AppendBytes, EMPTY_LOG, CompactFile, CanonicalLog;
    assert ScanLog(file, LOG_VERSION).outcome == Done by { SoundScans(file); }
    ContentsKeys(file, LOG_VERSION);
    match op
    case PutOp(key, value, attributes) =>
      if AppendAccepts(key, value, attributes, []) {
        AppendKeepsSound(file, key, value, false, attributes, []);
        AppendRefines(file, key, value, false, attributes, []);
      }
    case DeleteOp(key) =>
      if key in FileIndex(file, LOG_VERSION) {
        TombstoneAccepted(file, LOG_VERSION, key);
        AppendKeepsSound(file, key, [], true, map[], []);
        AppendRefines(file, key, [], true, map[], []);
      } else {
        assert key !in Contents(file, LOG_VERSION).Keys;
        assert Contents(file, LOG_VERSION) - {key} == Contents(file, LOG_VERSION);
      }
    case CompactOp =>
      CompactionKeepsSound(file, LOG_VERSION);
      CompactionPreserves(file, LOG_VERSION);
    case ReopenOp =>
      SoundScans(file);
      assert file[..|file|] == file;
  }

  lemma SoundScans(file: Bytes)
    requires Sound(file)
    ensures ScanLog(file, LOG_VERSION).outcome == Done && ScanLog(file, LOG_VERSION).end == |file|
  {
    hide CanonicalRecord;
  }

  /**
   The store refines a map: after any run, the log means exactly what the same operations make of
   an empty map, and it is sound, so it can be reopened, extended or compacted further.
   */
  lemma {:induction false} RunRefines(ops: seq<Op>)
    ensures Sound(RunFile(ops))
    ensures Contents(RunFile(ops), LOG_VERSION) == RunItems(ops)
  {
    hide Contents, Sound, StepFile, StepItems, EMPTY_LOG;
    if |ops| == 0 {
      EmptyLogScans();
      EmptyIsSound();
    } else {
      RunRefines(ops[..|ops| - 1]);
      StepRefines(RunFile(ops[..|ops| - 1]), ops[|ops| - 1]);
    }
  }

  /** The operation changes what is stored under the key: an accepted put of it, or its deletion. */
  ghost predicate WritesKey(op: Op, key: Bytes) {
    || (op.PutOp? && op.key == key && AppendAccepts(key, op.value, op.attributes, []))
    || (op.DeleteOp? && op.key == key)
  }

  /**
   The last write of a key decides: after any run, the log holds the key exactly when that write was a
   put, and then with its value and attributes.
   */
  lemma LastWriteDecides(ops: seq<Op>, key: Bytes, i: nat)
    requires i < |ops| && WritesKey(ops[i], key) && forall j :: i < j < |ops| ==> !WritesKey(ops[j], key)
    ensures var items := Contents(RunFile(ops), LOG_VERSION);
      if ops[i].PutOp? then key in items && items[key] == Item(ops[i].value, ops[i].attributes, []) else key !in items
  {
    hide Contents, RunFile, Sound, WritesKey;
    RunRefines(ops);
    LastWriteOnMap(ops, key, i);
  }

  lemma {:induction false} LastWriteOnMap(ops: seq<Op>, key: Bytes, i: nat)
    requires i < |ops| && WritesKey(ops[i], key) && forall j :: i < j < |ops| ==> !WritesKey(ops[j], key)
    ensures var items := RunItems(ops);
      if ops[i].PutOp? then key in items && items[key] == Item(ops[i].value, ops[i].attributes, []) else key !in items
  {
    hide AppendAccepts;
    if i < |ops| - 1 {
      assert !WritesKey(ops[|ops| - 1], key);
      LastWriteOnMap(ops[..|ops| - 1], key, i);
    }
  }

  /** A key that was never written is not in the log. */
  lemma NeverWritten(ops: seq<Op>, key: Bytes)
    requires forall j :: 0 <= j < |ops| ==> !WritesKey(ops[j], key)
    ensures key !in Contents(RunFile(ops), LOG_VERSION)
  {
    hide Contents, RunFile, Sound, WritesKey;
    RunRefines(ops);
    NeverWrittenOnMap(ops, key);
  }

  lemma {:induction false} NeverWrittenOnMap(ops: seq<Op>, key: Bytes)
    requires forall j :: 0 <= j < |ops| ==> !WritesKey(ops[j], key)
    ensures key !in RunItems(ops)
  {
    hide AppendAccepts;
    if |ops| > 0 {
      assert !WritesKey(ops[|ops| - 1], key);
      NeverWrittenOnMap(ops[..|ops| - 1], key);
    }
  }

  lemma EmptyIsSound()
    ensures Sound(EMPTY_LOG)
  {
    hide EMPTY_LOG, CanonicalLog;
    EmptyLogScans();
    EmptyLogCanonical();
    assert EMPTY_LOG[..HEADER_SIZE] == EMPTY_LOG;
  }

  /** After any run, live records occupy no more than the data, and the dead share stays within [0, 1]. */
  lemma RunConservesSpace(ops: seq<Op>)
    ensures var file := RunFile(ops);
      && 0 <= TotalSize(FileIndex(file, LOG_VERSION)) <= |file| - HEADER_SIZE
      && (|file| > HEADER_SIZE ==> 0.0 <= DeadRatio(TotalSize(FileIndex(file, LOG_VERSION)), |file| - HEADER_SIZE) <= 1.0)
  {
    hide ScanFrom, IndexOf, TotalSize, RunFile, Tiles;
    var file := RunFile(ops);
    ScanTiles(file, |file|, HEADER_SIZE, LOG_VERSION);
    SpaceConserved(ScanLog(file, LOG_VERSION).records, HEADER_SIZE, ScanLog(file, LOG_VERSION).end);
    if |file| > HEADER_SIZE {
      DeadRatioInRange(file, LOG_VERSION);
    }
  }
}

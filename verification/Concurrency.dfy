/**
 Any number of goroutines on one store: each call is a sequence of steps under the store's
 read/write lock. The cache has a lock of its own, so its operations are single steps that readers
 interleave freely; the index's memo of sorted keys has none, so every access to it is a step.
 */
module Concurrency {
  import opened Bytes
  import opened Order
  import opened Attributes
  import opened Record
  import opened Scan
  import opened LogMap
  import opened KeyOrder
  import opened Compaction
  import opened Log
  import opened Cache
  import opened Store
  import Runs

  type Tid = nat

  /** Where a goroutine stands in a call. */
  datatype Pc =
    | Idle
    // Get
    | GetWait(key: Bytes)
    | GetCheck(key: Bytes)
    | GetLookup(key: Bytes)
    | GetRead(key: Bytes, entry: Entry)
    | GetFill(key: Bytes, value: Bytes)
    | GetDone(key: Bytes, result: GetResult)
    // Put
    | PutWait(key: Bytes, value: Bytes, attributes: Attributes)
    | PutAppend(key: Bytes, value: Bytes, attributes: Attributes)
    | PutIndex(key: Bytes, entry: Entry)
    | PutCache(key: Bytes)
    // Delete
    | DeleteWait(key: Bytes)
    | DeleteCheck(key: Bytes)
    | DeleteAppend(key: Bytes)
    | DeleteIndex(key: Bytes)
    | DeleteCache(key: Bytes)
    // Compact
    | CompactWait
    | CompactSort
    | CompactBuild(keys: seq<Bytes>)
    | CompactLog(newFile: Bytes, newEntries: Entries)
    | CompactIndex(newEntries: Entries)
    | CompactClear
    // the end of any writing call
    | Release
    // ForEach
    | ScanWait
    | ScanCheck
    | ScanLength
    | ScanSort
    | ScanPublish(keys: seq<Bytes>)
    | ScanFill(keys: seq<Bytes>, i: nat)
    | ScanClear
    | ScanHeader
    | ScanCopy(slot: nat, copied: seq<Bytes>)
    | ScanSnapshot(keys: seq<Bytes>)
    | ScanNext(keys: seq<Bytes>, i: nat, delivered: seq<Cached>)
    | ScanLookup(keys: seq<Bytes>, i: nat, delivered: seq<Cached>)
    | ScanRead(keys: seq<Bytes>, i: nat, delivered: seq<Cached>, entry: Entry)
    | ScanGot(keys: seq<Bytes>, i: nat, delivered: seq<Cached>, value: Bytes)
    | ScanSkip(keys: seq<Bytes>, i: nat, delivered: seq<Cached>)

  predicate HoldsRead(pc: Pc) {
    || pc.GetCheck? || pc.GetLookup? || pc.GetRead? || pc.GetFill? || pc.GetDone?
    || pc.ScanCheck? || pc.ScanLength? || pc.ScanSort? || pc.ScanPublish? || pc.ScanFill? || pc.ScanClear?
    || pc.ScanHeader? || pc.ScanCopy?
    || pc.ScanSnapshot? || pc.ScanLookup? || pc.ScanRead? || pc.ScanGot? || pc.ScanSkip?
  }

  predicate HoldsWrite(pc: Pc) {
    || pc.PutAppend? || pc.PutIndex? || pc.PutCache?
    || pc.DeleteCheck? || pc.DeleteAppend? || pc.DeleteIndex? || pc.DeleteCache?
    || pc.CompactSort? || pc.CompactBuild? || pc.CompactLog? || pc.CompactIndex? || pc.CompactClear? || pc.Release?
  }

  /**
   The index's memo of its sorted keys: the arrays ever made for it, the one the field refers to, and
   the dirty flag. Readers write it without excluding each other.
   */
  datatype Memo = Memo(
    arrays: seq<seq<Bytes>>,
    current: nat,
    dirty: bool,
    filled: seq<set<nat>>,       // history: the places of each array that have been written
    order: Option<seq<Bytes>>,   // history: what the current array is filled with, since the index last changed
    filler: Option<Tid>)         // history: the goroutine that made the current array and is still filling it

  function Blank(n: nat): (b: seq<Bytes>)
    ensures |b| == n && forall i :: 0 <= i < n ==> b[i] == []
  {
    seq(n, i => [])
  }

  /** A new array of blanks for `keys`. */
  function Publish(m: Memo, t: Tid, keys: seq<Bytes>): Memo {
    Memo(m.arrays + [Blank(|keys|)], |m.arrays|, m.dirty, m.filled + [{}], Some(keys), Some(t))
  }

  predicate CanFill(m: Memo, i: nat) {
    m.current < |m.arrays| && m.current < |m.filled| && i < |m.arrays[m.current]|
  }

  /** Writing one place of whatever array is the current one. */
  function Fill(m: Memo, i: nat, key: Bytes): Memo
    requires CanFill(m, i)
  {
    m.(arrays := m.arrays[m.current := m.arrays[m.current][i := key]],
       filled := m.filled[m.current := m.filled[m.current] + {i}])
  }

  function FillDone(m: Memo, t: Tid): Memo {
    if m.filler == Some(t) then m.(filler := None) else m
  }

  function Places(n: nat): (p: set<nat>)
    ensures forall i :: 0 <= i < n ==> i in p
  {
    if n == 0 then {} else Places(n - 1) + {n - 1}
  }

  /** Sorting under the write lock: nobody else is at the memo, so it is one step. */
  function Rebuilt(m: Memo, keys: seq<Bytes>): Memo {
    Memo(m.arrays + [keys], |m.arrays|, false, m.filled + [Places(|keys|)], Some(keys), None)
  }

  /** The index has changed. */
  function Touch(m: Memo): Memo {
    m.(dirty := true, order := None)
  }

  /** The memo of an index that was filled entry by entry and never sorted. */
  function NewMemo(arrays: seq<seq<Bytes>>, filled: seq<set<nat>>, entries: Entries): Memo {
    Memo(arrays + [[]], |arrays|, |entries| != 0, filled + [{}], if |entries| != 0 then None else Some([]), None)
  }

  datatype State = State(
    file: Bytes,                 // the log's data
    entries: Entries,            // the index
    memo: Memo,
    cache: Recency,
    readers: set<Tid>,           // the read/write lock
    writer: Option<Tid>,
    threads: map<Tid, Pc>,
    live: Items)                 // what the completed and committed operations amount to

  function PcOf(s: State, t: Tid): Pc {
    if t in s.threads then s.threads[t] else Idle
  }

  function Goto(s: State, t: Tid, pc: Pc): State {
    s.(threads := s.threads[t := pc])
  }

  /** What a read of `key` must answer. */
  function Answer(items: Items, key: Bytes): GetResult {
    if key in items then Value(items[key].value) else Missing
  }

  function Forget<V>(m: map<Bytes, V>, key: Bytes): map<Bytes, V> {
    m - {key}
  }

  // --------------------------------------------------------------- steps

  predicate LockRead(s: State, t: Tid, pc: Pc, s': State) {
    s.writer.None? && s' == Goto(s, t, pc).(readers := s.readers + {t})
  }

  predicate UnlockRead(s: State, t: Tid, pc: Pc, s': State) {
    s' == Goto(s, t, pc).(readers := s.readers - {t})
  }

  predicate LockWrite(s: State, t: Tid, pc: Pc, s': State) {
    s.writer.None? && s.readers == {} && s' == Goto(s, t, pc).(writer := Some(t))
  }

  /** A goroutine starts any call. */
  predicate Begin(s: State, t: Tid, s': State) {
    && PcOf(s, t).Idle?
    && t in s'.threads && s' == Goto(s, t, s'.threads[t])
    && var pc := s'.threads[t];
       pc.GetWait? || pc.PutWait? || pc.DeleteWait? || pc.CompactWait? || pc.ScanWait?
  }

  predicate GetStep(capacity: nat, s: State, t: Tid, s': State) {
    match PcOf(s, t)
    case GetWait(key) => LockRead(s, t, GetCheck(key), s')
    case GetCheck(key) =>
      s' == Goto(s, t, match Lookup(s.cache, key) case Some(v) => GetDone(key, Value(v)) case None => GetLookup(key))
            .(cache := AfterGet(s.cache, key))
    case GetLookup(key) =>
      s' == Goto(s, t, if key in s.entries then GetRead(key, s.entries[key]) else GetDone(key, Missing))
    case GetRead(key, e) =>
      s' == Goto(s, t, match AreasAt(s.file, e.recordOffset, e.storedSize)
                       case Some(a) => GetFill(key, a.value) case None => GetDone(key, Unreadable))
    case GetFill(key, v) =>
      s' == Goto(s, t, GetDone(key, Value(v))).(cache := AfterPut(s.cache, capacity, key, v))
    case GetDone(_, _) => UnlockRead(s, t, Idle, s')
    case _ => false
  }

  ghost predicate PutStep(s: State, t: Tid, s': State) {
    match PcOf(s, t)
    case PutWait(key, value, attributes) => LockWrite(s, t, PutAppend(key, value, attributes), s')
    case PutAppend(key, value, attributes) =>
      || s' == Goto(s, t, Release)
      || (AppendAccepts(key, value, attributes, [])
          && s' == Goto(s, t, PutIndex(key, EntryOf(AppendedRecord(|s.file|, key, value, false, attributes, []))))
                   .(file := s.file + AppendBytes(key, value, false, attributes, []),
                     live := s.live[key := Item(value, attributes, [])]))
    case PutIndex(key, e) => s' == Goto(s, t, PutCache(key)).(entries := s.entries[key := e], memo := Touch(s.memo))
    case PutCache(key) => s' == Goto(s, t, Release).(cache := Without(s.cache, key))
    case _ => false
  }

  ghost predicate DeleteStep(s: State, t: Tid, s': State) {
    match PcOf(s, t)
    case DeleteWait(key) => LockWrite(s, t, DeleteCheck(key), s')
    case DeleteCheck(key) => s' == Goto(s, t, if key in s.entries then DeleteAppend(key) else Release)
    case DeleteAppend(key) =>
      || s' == Goto(s, t, Release)
      || (AppendAccepts(key, [], map[], [])
          && s' == Goto(s, t, DeleteIndex(key))
                   .(file := s.file + AppendBytes(key, [], true, map[], []), live := Forget(s.live, key)))
    case DeleteIndex(key) =>
      s' == Goto(s, t, DeleteCache(key)).(entries := Forget(s.entries, key), memo := Touch(s.memo))
    case DeleteCache(key) => s' == Goto(s, t, Release).(cache := Without(s.cache, key))
    case _ => false
  }

  /** The keys among `keys` that are live, as compaction's loop takes them. */
  function Kept(keys: seq<Bytes>, items: Items): (kept: seq<Bytes>)
    ensures forall k :: k in kept ==> k in items
  {
    if |keys| == 0 then []
    else
      var init, k := Kept(keys[..|keys| - 1], items), keys[|keys| - 1];
      if k in items then init + [k] else init
  }

  /** The log compaction writes when it goes by `keys`. */
  ghost function CopiedLog(file: Bytes, keys: seq<Bytes>): (log: Bytes)
    requires |file| >= HEADER_SIZE
    ensures |log| >= HEADER_SIZE
  {
    var items := Contents(file, LOG_VERSION);
    RewriteSize(items, Kept(keys, items));
    Rewrite(items, Kept(keys, items))
  }

  lemma {:induction false} RewriteSize(items: Items, keys: seq<Bytes>)
    requires forall k :: k in keys ==> k in items
    ensures |Rewrite(items, keys)| >= HEADER_SIZE
  {
    hide EMPTY_LOG, AppendBytes;
    if |keys| == 0 {
      EmptyLogScans();
    } else {
      RewriteSize(items, keys[..|keys| - 1]);
    }
  }

  ghost function CopiedIndex(file: Bytes, keys: seq<Bytes>): Entries
    requires |file| >= HEADER_SIZE
  {
    FileIndex(CopiedLog(file, keys), LOG_VERSION)
  }

  predicate MemoHit(m: Memo, entries: Entries) {
    !m.dirty && m.current < |m.arrays| && |m.arrays[m.current]| == |entries|
  }

  /** Compaction up to the new log; the store is unchanged but for the memo. */
  ghost predicate BuildStep(s: State, t: Tid, s': State) {
    match PcOf(s, t)
    case CompactWait => LockWrite(s, t, CompactSort, s')
    case CompactSort =>
      || s' == Goto(s, t, Release)
      || (MemoHit(s.memo, s.entries) && s' == Goto(s, t, CompactBuild(s.memo.arrays[s.memo.current])))
      || (!MemoHit(s.memo, s.entries) && DistinctOffsets(s.entries)
          && var keys := KeysByOffset(s.entries);
             s' == Goto(s, t, CompactBuild(keys)).(memo := Rebuilt(s.memo, keys)))
    case CompactBuild(keys) =>
      || s' == Goto(s, t, Release)
      || (|s.file| >= HEADER_SIZE && s' == Goto(s, t, CompactLog(CopiedLog(s.file, keys), CopiedIndex(s.file, keys))))
    case _ => false
  }

  /** Compaction from the new log on, and the end of any writing call. */
  predicate SwapStep(s: State, t: Tid, s': State) {
    match PcOf(s, t)
    case CompactLog(newFile, newEntries) => s' == Goto(s, t, CompactIndex(newEntries)).(file := newFile)
    case CompactIndex(newEntries) =>
      s' == Goto(s, t, CompactClear).(entries := newEntries, memo := NewMemo(s.memo.arrays, s.memo.filled, newEntries))
    case CompactClear => s' == Goto(s, t, Release).(cache := [])
    case Release => s' == Goto(s, t, Idle).(writer := None)
    case _ => false
  }

  ghost predicate CompactStep(s: State, t: Tid, s': State) {
    BuildStep(s, t, s') || SwapStep(s, t, s')
  }

  /** How a scan gets its snapshot: one access to the memo at a time, under the read lock only. */
  ghost predicate SnapshotStep(s: State, t: Tid, s': State) {
    match PcOf(s, t)
    case ScanCheck => s' == Goto(s, t, if s.memo.dirty then ScanSort else ScanLength)
    case ScanLength =>
      s' == Goto(s, t, if s.memo.current < |s.memo.arrays| && |s.memo.arrays[s.memo.current]| == |s.entries|
                       then ScanHeader else ScanSort)
    case ScanSort => DistinctOffsets(s.entries) && s' == Goto(s, t, ScanPublish(KeysByOffset(s.entries)))
    case ScanPublish(keys) => s' == Goto(s, t, ScanFill(keys, 0)).(memo := Publish(s.memo, t, keys))
    case ScanFill(keys, i) =>
      if i < |keys|
      then CanFill(s.memo, i) && s' == Goto(s, t, ScanFill(keys, i + 1)).(memo := Fill(s.memo, i, keys[i]))
      else s' == Goto(s, t, ScanClear).(memo := FillDone(s.memo, t))
    case ScanClear => s' == Goto(s, t, ScanHeader).(memo := s.memo.(dirty := false))
    case ScanHeader => s' == Goto(s, t, ScanCopy(s.memo.current, []))
    case ScanCopy(slot, copied) =>
      && slot < |s.memo.arrays|
      && s' == Goto(s, t, if |copied| < |s.memo.arrays[slot]| then ScanCopy(slot, copied + [s.memo.arrays[slot][|copied|]])
                          else ScanSnapshot(copied))
    case _ => false
  }

  /** How a scan visits the keys of its snapshot. */
  predicate VisitStep(s: State, t: Tid, s': State) {
    match PcOf(s, t)
    case ScanWait => LockRead(s, t, ScanCheck, s')
    case ScanSnapshot(keys) => UnlockRead(s, t, ScanNext(keys, 0, []), s')
    case ScanNext(keys, i, delivered) =>
      || s' == Goto(s, t, Idle)
      || (i < |keys| && LockRead(s, t, ScanLookup(keys, i, delivered), s'))
    case ScanLookup(keys, i, delivered) =>
      i < |keys| && s' == Goto(s, t, if keys[i] in s.entries then ScanRead(keys, i, delivered, s.entries[keys[i]])
                                     else ScanSkip(keys, i, delivered))
    case ScanSkip(keys, i, delivered) => UnlockRead(s, t, ScanNext(keys, i + 1, delivered), s')
    case ScanRead(keys, i, delivered, e) =>
      (match AreasAt(s.file, e.recordOffset, e.storedSize)
       case Some(a) => s' == Goto(s, t, ScanGot(keys, i, delivered, a.value))
       case None => UnlockRead(s, t, Idle, s'))
    case ScanGot(keys, i, delivered, v) =>
      i < |keys| && UnlockRead(s, t, ScanNext(keys, i + 1, delivered + [Cached(keys[i], v)]), s')
    case _ => false
  }

  ghost predicate ScanStep(s: State, t: Tid, s': State) {
    SnapshotStep(s, t, s') || VisitStep(s, t, s')
  }

  ghost predicate Step(capacity: nat, s: State, t: Tid, s': State) {
    Begin(s, t, s') || GetStep(capacity, s, t, s') || PutStep(s, t, s') || DeleteStep(s, t, s')
    || CompactStep(s, t, s') || ScanStep(s, t, s')
  }

  // --------------------------------------------------------------- what every state keeps

  ghost predicate LockInv(s: State) {
    && (forall t: Tid :: t in s.readers <==> HoldsRead(PcOf(s, t)))
    && (forall t: Tid :: s.writer == Some(t) <==> HoldsWrite(PcOf(s, t)))
    && (s.writer.Some? ==> s.readers == {})
  }

  /** The log is clean and means what was committed. */
  ghost predicate LogMeans(s: State) {
    && |s.file| >= HEADER_SIZE && ScanLog(s.file, LOG_VERSION).outcome == Done
    && Contents(s.file, LOG_VERSION) == s.live
    && KeysDiffer(s.cache)
  }

  /** Log, index and cache agree. */
  ghost predicate Settled(s: State) {
    LogMeans(s) && s.entries == FileIndex(s.file, LOG_VERSION) && Coherent(s.cache, s.live)
  }

  /** What holds at each point of a writing call, which no other goroutine can see. */
  ghost predicate WriterInv(s: State, pc: Pc) {
    match pc
    case PutIndex(key, e) =>
      LogMeans(s) && FileIndex(s.file, LOG_VERSION) == s.entries[key := e] && Coherent(Without(s.cache, key), s.live)
    case PutCache(key) =>
      LogMeans(s) && FileIndex(s.file, LOG_VERSION) == s.entries && Coherent(Without(s.cache, key), s.live)
    case DeleteIndex(key) =>
      LogMeans(s) && FileIndex(s.file, LOG_VERSION) == Forget(s.entries, key) && Coherent(Without(s.cache, key), s.live)
    case DeleteCache(key) =>
      LogMeans(s) && FileIndex(s.file, LOG_VERSION) == s.entries && Coherent(Without(s.cache, key), s.live)
    case CompactLog(newFile, newEntries) =>
      && Settled(s) && |newFile| >= HEADER_SIZE && ScanLog(newFile, LOG_VERSION).outcome == Done
      && Contents(newFile, LOG_VERSION) == s.live && newEntries == FileIndex(newFile, LOG_VERSION)
    case CompactIndex(newEntries) =>
      LogMeans(s) && newEntries == FileIndex(s.file, LOG_VERSION) && Coherent(s.cache, s.live)
    case CompactClear => Settled(s)
    case CompactBuild(keys) => Settled(s) && IsOffsetOrder(s.entries, keys)
    case DeleteAppend(key) => Settled(s) && key in s.entries
    case _ => Settled(s)
  }

  ghost predicate SharedInv(s: State) {
    match s.writer
    case None => Settled(s)
    case Some(t) => WriterInv(s, PcOf(s, t))
  }

  /** The pairs a scan has delivered so far, each key at most once and from the part already visited. */
  ghost predicate ScanInv(keys: seq<Bytes>, i: nat, delivered: seq<Cached>) {
    && i <= |keys|
    && (NoRepeats(keys) ==> KeysDiffer(delivered))
    && forall d :: d in delivered ==> d.key in keys[..i]
  }

  ghost predicate ThreadInv(s: State, pc: Pc) {
    match pc
    case GetRead(key, e) => key in s.entries && s.entries[key] == e
    case GetFill(key, v) => key in s.live && s.live[key].value == v
    case GetDone(key, r) => r == Answer(s.live, key)
    case ScanPublish(keys) => IsOffsetOrder(s.entries, keys)
    case ScanFill(keys, i) => IsOffsetOrder(s.entries, keys) && i <= |keys|
    case ScanNext(keys, i, delivered) => ScanInv(keys, i, delivered)
    case ScanLookup(keys, i, delivered) => ScanInv(keys, i, delivered) && i < |keys|
    case ScanSkip(keys, i, delivered) => ScanInv(keys, i, delivered) && i < |keys| && keys[i] !in s.live
    case ScanRead(keys, i, delivered, e) =>
      ScanInv(keys, i, delivered) && i < |keys| && keys[i] in s.entries && s.entries[keys[i]] == e
    case ScanGot(keys, i, delivered, v) =>
      ScanInv(keys, i, delivered) && i < |keys| && keys[i] in s.live && s.live[keys[i]].value == v
    case _ => true
  }

  ghost predicate Inv(s: State) {
    LockInv(s) && SharedInv(s) && forall t: Tid :: ThreadInv(s, PcOf(s, t))
  }

  /** The array at `slot` is being filled with `order`: what was written is right and the rest is blank. */
  ghost predicate Shaped(m: Memo, slot: nat, order: seq<Bytes>) {
    && slot < |m.arrays| && slot < |m.filled| && |m.arrays[slot]| == |order|
    && forall k :: 0 <= k < |order| ==> m.arrays[slot][k] == if k in m.filled[slot] then order[k] else []
  }

  predicate Full(m: Memo, order: seq<Bytes>)
    requires m.current < |m.filled|
  {
    forall k :: 0 <= k < |order| ==> k in m.filled[m.current]
  }

  /** A clean memo is for the index as it is, and full unless the goroutine that made it is still filling it. */
  ghost predicate MemoOk(m: Memo, entries: Entries) {
    && m.current < |m.arrays| == |m.filled|
    && (!m.dirty ==> m.order.Some?)
    && (m.filler.Some? ==> m.order.Some?)
    && (m.order.Some? ==>
        && IsOffsetOrder(entries, m.order.value) && Shaped(m, m.current, m.order.value)
        && (m.filler.None? ==> Full(m, m.order.value)))
  }

  /** The goroutine relies on a memo for the index as it is. */
  predicate UsesMemo(pc: Pc) {
    pc.ScanLength? || pc.ScanFill? || pc.ScanClear? || pc.ScanHeader? || pc.ScanCopy?
  }

  /** What the memo owes goroutine `t` at `pc`. */
  ghost predicate MemoUse(m: Memo, t: Tid, pc: Pc) {
    && (UsesMemo(pc) ==> m.order.Some?)
    && (pc.ScanCopy? ==> Shaped(m, pc.slot, m.order.value) && |pc.copied| <= |m.order.value|)
    && (m.filler == Some(t) ==>
        pc.ScanFill? && m.current < |m.filled| && forall k :: 0 <= k < pc.i ==> k in m.filled[m.current])
  }

  ghost predicate MemoInv(s: State) {
    MemoOk(s.memo, s.entries) && forall t: Tid :: MemoUse(s.memo, t, PcOf(s, t))
  }

  ghost predicate Init(s: State) {
    && Settled(s) && s.readers == {} && s.writer.None? && s.threads == map[]
    && (s.memo == NewMemo([], [], s.entries) || s.memo == Touch(NewMemo([], [], s.entries)))
  }

  lemma InitInv(s: State)
    requires Init(s)
    ensures Inv(s)
  {
    hide Settled;
  }

  /** What a goroutine that holds no lock knows does not depend on the shared state. */
  lemma UnlockedInv(s: State, s': State, pc: Pc)
    requires ThreadInv(s, pc) && !HoldsRead(pc)
    ensures ThreadInv(s', pc)
  {
  }

  /** What a reader knows depends only on the index and the contents. */
  lemma ReaderInv(s: State, s': State, pc: Pc)
    requires ThreadInv(s, pc) && s'.entries == s.entries && s'.live == s.live
    ensures ThreadInv(s', pc)
  {
  }

  /** A step that changes neither index nor contents leaves the other goroutines' knowledge as it was. */
  lemma OthersKeepIfSame(s: State, t: Tid, s': State)
    requires Inv(s) && s'.entries == s.entries && s'.live == s.live
    requires forall u: Tid :: u != t ==> PcOf(s', u) == PcOf(s, u)
    ensures forall u: Tid :: u != t ==> ThreadInv(s', PcOf(s', u))
  {
    hide SharedInv, ThreadInv, PcOf;
    forall u: Tid | u != t
      ensures ThreadInv(s', PcOf(s', u))
    {
      ReaderInv(s, s', PcOf(s, u));
    }
  }

  /** A writer's steps are seen by nobody: every other goroutine holds no lock. */
  lemma OthersKeepIfWriter(s: State, t: Tid, s': State)
    requires Inv(s) && HoldsWrite(PcOf(s, t))
    requires forall u: Tid :: u != t ==> PcOf(s', u) == PcOf(s, u)
    ensures forall u: Tid :: u != t ==> ThreadInv(s', PcOf(s', u))
  {
    hide SharedInv, ThreadInv, PcOf, HoldsWrite, HoldsRead;
    forall u: Tid | u != t
      ensures ThreadInv(s', PcOf(s', u))
    {
      assert u !in s.readers;
      UnlockedInv(s, s', PcOf(s, u));
    }
  }

  /** Only one goroutine moved, and the lock moved with it. */
  ghost predicate LockMoves(s: State, t: Tid, s': State) {
    && (forall u: Tid :: u != t ==> PcOf(s', u) == PcOf(s, u))
    && s'.readers == (if HoldsRead(PcOf(s', t)) then s.readers + {t} else s.readers - {t})
    && s'.writer == (if HoldsWrite(PcOf(s', t)) then Some(t) else if HoldsWrite(PcOf(s, t)) then None else s.writer)
    && (HoldsWrite(PcOf(s', t)) && !HoldsWrite(PcOf(s, t)) ==> s.readers == {} && s.writer.None?)
    && (HoldsRead(PcOf(s', t)) && !HoldsRead(PcOf(s, t)) ==> s.writer.None?)
    && !(HoldsRead(PcOf(s', t)) && HoldsWrite(PcOf(s, t)))
  }

  lemma LockMovesInv(s: State, t: Tid, s': State)
    requires LockInv(s) && LockMoves(s, t, s')
    ensures LockInv(s')
  {
    hide PcOf, HoldsRead, HoldsWrite;
    BothLocks(PcOf(s', t));
    BothLocks(PcOf(s, t));
  }

  lemma BothLocks(pc: Pc)
    ensures !(HoldsRead(pc) && HoldsWrite(pc))
  {
  }

  /** A step's effect on the lock, the shared state and the moving goroutine is enough for the invariant. */
  lemma Assemble(s: State, t: Tid, s': State)
    requires Inv(s) && LockMoves(s, t, s') && SharedInv(s') && ThreadInv(s', PcOf(s', t))
    requires (s'.entries == s.entries && s'.live == s.live) || HoldsWrite(PcOf(s, t))
    ensures Inv(s')
  {
    hide SharedInv, ThreadInv, PcOf, HoldsWrite, HoldsRead, LockInv;
    LockMovesInv(s, t, s');
    assert forall u: Tid :: u != t ==> PcOf(s', u) == PcOf(s, u);
    if HoldsWrite(PcOf(s, t)) {
      OthersKeepIfWriter(s, t, s');
    } else {
      OthersKeepIfSame(s, t, s');
    }
  }

  /** While a goroutine holds the read lock there is no writer, so the store is settled. */
  lemma ReaderSettled(s: State, t: Tid)
    requires Inv(s) && HoldsRead(PcOf(s, t))
    ensures s.writer.None? && Settled(s) && t in s.readers
  {
    hide Settled, WriterInv, ThreadInv, HoldsRead, HoldsWrite, PcOf;
    assert t in s.readers;
  }

  lemma GotoPc(s: State, t: Tid, pc: Pc)
    ensures PcOf(Goto(s, t, pc), t) == pc
    ensures forall u: Tid :: u != t ==> PcOf(Goto(s, t, pc), u) == PcOf(s, u)
  {
  }

  /** A step of a reader that keeps its lock moves nothing in the lock. */
  lemma ReaderStays(s: State, t: Tid, s': State)
    requires LockInv(s) && HoldsRead(PcOf(s, t)) && HoldsRead(PcOf(s', t))
    requires s'.readers == s.readers && s'.writer == s.writer
    requires forall u: Tid :: u != t ==> PcOf(s', u) == PcOf(s, u)
    ensures LockMoves(s, t, s')
  {
    hide PcOf, HoldsRead, HoldsWrite;
    BothLocks(PcOf(s, t));
    BothLocks(PcOf(s', t));
    assert t in s.readers;
    assert s.readers + {t} == s.readers;
  }

  /** A waiting goroutine that gets the read lock. */
  lemma ReaderEnters(s: State, t: Tid, pc: Pc, s': State)
    requires LockInv(s) && LockRead(s, t, pc, s') && HoldsRead(pc) && !HoldsRead(PcOf(s, t)) && !HoldsWrite(PcOf(s, t))
    ensures LockMoves(s, t, s') && PcOf(s', t) == pc
  {
    GotoPc(s, t, pc);
    hide HoldsRead, HoldsWrite;
    BothLocks(pc);
  }

  /** A reader that releases its lock. */
  lemma ReaderLeaves(s: State, t: Tid, pc: Pc, s': State)
    requires LockInv(s) && UnlockRead(s, t, pc, s') && HoldsRead(PcOf(s, t)) && !HoldsRead(pc) && !HoldsWrite(pc)
    ensures LockMoves(s, t, s') && PcOf(s', t) == pc
  {
    GotoPc(s, t, pc);
    hide HoldsRead, HoldsWrite;
    BothLocks(PcOf(s, t));
  }

  /** A writer that goes on, or gets or releases the lock. */
  lemma WriterMoves(s: State, t: Tid, pc: Pc, s': State)
    requires LockInv(s) && !HoldsRead(PcOf(s, t)) && !HoldsRead(pc)
    requires PcOf(s', t) == pc && (forall u: Tid :: u != t ==> PcOf(s', u) == PcOf(s, u))
    requires s'.readers == s.readers
    requires s'.writer == (if HoldsWrite(pc) then Some(t) else if HoldsWrite(PcOf(s, t)) then None else s.writer)
    requires HoldsWrite(pc) && !HoldsWrite(PcOf(s, t)) ==> s.readers == {} && s.writer.None?
    ensures LockMoves(s, t, s')
  {
    hide PcOf, HoldsRead, HoldsWrite;
    assert t !in s.readers;
    assert s.readers - {t} == s.readers;
  }

  lemma BeginInv(s: State, t: Tid, s': State)
    requires Inv(s) && Begin(s, t, s')
    ensures Inv(s')
  {
    hide Settled, WriterInv;
    GotoPc(s, t, s'.threads[t]);
    WriterMoves(s, t, s'.threads[t], s');
    SharedSame(s, t, s');
    hide SharedInv, LockInv, LockMoves;
    Assemble(s, t, s');
  }

  /** The shared state is as it was, and so is the writer, if there is one and it is someone else. */
  lemma SharedSame(s: State, t: Tid, s': State)
    requires Inv(s) && !HoldsWrite(PcOf(s, t)) && LockMoves(s, t, s') && !HoldsWrite(PcOf(s', t))
    requires s'.file == s.file && s'.entries == s.entries && s'.live == s.live && s'.cache == s.cache
    ensures SharedInv(s')
  {
    hide PcOf, HoldsWrite, HoldsRead, ThreadInv;
    if s.writer.Some? {
      assert HoldsWrite(PcOf(s, s.writer.value));
      assert s.writer.value != t;
    }
  }

  lemma GetInv(capacity: nat, s: State, t: Tid, s': State)
    requires Inv(s) && GetStep(capacity, s, t, s')
    ensures Inv(s')
  {
    hide Settled, WriterInv, AreasAt, Lookup, AfterGet, AfterPut, LockMoves, LockInv, SharedInv;
    match PcOf(s, t)
    case GetWait(key) =>
      ReaderEnters(s, t, GetCheck(key), s');
      SharedSame(s, t, s');
      Assemble(s, t, s');
    case GetDone(_, _) =>
      ReaderLeaves(s, t, Idle, s');
      SharedSame(s, t, s');
      Assemble(s, t, s');
    case GetLookup(key) =>
      GetKnows(capacity, s, t, s');
      ReaderStays(s, t, s');
      SharedSame(s, t, s');
      Assemble(s, t, s');
    case GetRead(key, e) =>
      GetKnows(capacity, s, t, s');
      ReaderStays(s, t, s');
      SharedSame(s, t, s');
      Assemble(s, t, s');
    case GetCheck(key) =>
      GetKnows(capacity, s, t, s');
      ReaderStays(s, t, s');
      GetSettles(capacity, s, t, s');
      Assemble(s, t, s');
    case GetFill(key, v) =>
      GetKnows(capacity, s, t, s');
      ReaderStays(s, t, s');
      GetSettles(capacity, s, t, s');
      Assemble(s, t, s');
  }

  /** What a reading goroutine learns in each step is true. */
  lemma GetKnows(capacity: nat, s: State, t: Tid, s': State)
    requires Inv(s) && GetStep(capacity, s, t, s') && HoldsRead(PcOf(s, t)) && !PcOf(s, t).GetDone?
    ensures HoldsRead(PcOf(s', t)) && ThreadInv(s', PcOf(s', t))
    ensures s'.readers == s.readers && s'.writer == s.writer && s'.file == s.file && s'.entries == s.entries && s'.live == s.live
    ensures forall u: Tid :: u != t ==> PcOf(s', u) == PcOf(s, u)
    ensures !HoldsWrite(PcOf(s, t)) && !HoldsWrite(PcOf(s', t))
    ensures PcOf(s, t).GetLookup? || PcOf(s, t).GetRead? ==> s'.cache == s.cache
  {
    hide AreasAt, Lookup, AfterGet, AfterPut, LockInv, SharedInv, ScanLog, FileIndex, Contents, Coherent;
    ReaderSettled(s, t);
    assert ThreadInv(s, PcOf(s, t));
    match PcOf(s, t)
    case GetCheck(key) =>
      if Lookup(s.cache, key).Some? {
        LookupCoherent(s.cache, s.live, key);
      }
    case GetLookup(key) =>
      ContentsKeys(s.file, LOG_VERSION);
      assert key in s.entries <==> key in s.live.Keys;
    case GetRead(key, e) =>
      LiveIsReadable(s.file, LOG_VERSION, key);
    case GetFill(key, v) =>
  }

  /** Refreshing or filling the cache under the read lock keeps it coherent. */
  lemma GetSettles(capacity: nat, s: State, t: Tid, s': State)
    requires Inv(s) && GetStep(capacity, s, t, s') && (PcOf(s, t).GetCheck? || PcOf(s, t).GetFill?)
    ensures SharedInv(s')
  {
    hide Lookup, Without, LockInv, ScanLog, FileIndex, Contents, Coherent;
    ReaderSettled(s, t);
    assert ThreadInv(s, PcOf(s, t));
    match PcOf(s, t)
    case GetCheck(key) =>
      GetCoherent(s.cache, s.live, key);
      AfterGetDiffers(s.cache, key);
    case GetFill(key, v) =>
      PutCoherent(s.cache, s.live, capacity, key, v);
      AfterPutDiffers(s.cache, capacity, key, v);
  }

  lemma AfterGetDiffers(q: Recency, key: Bytes)
    requires KeysDiffer(q)
    ensures KeysDiffer(AfterGet(q, key))
  {
    hide Lookup, Without;
    WithoutDiffer(q, key);
  }

  lemma AfterPutDiffers(q: Recency, capacity: nat, key: Bytes, value: Bytes)
    requires KeysDiffer(q)
    ensures KeysDiffer(AfterPut(q, capacity, key, value))
  {
    hide Lookup, Without;
    WithoutDiffer(q, key);
    LookupIff(q, key);
  }

  /** The goroutine that holds the write lock is the writer. */
  lemma WriterKnows(s: State, t: Tid)
    requires Inv(s) && HoldsWrite(PcOf(s, t))
    ensures s.writer == Some(t) && WriterInv(s, PcOf(s, t)) && s.readers == {}
  {
    hide Settled, WriterInv, ThreadInv, HoldsRead, HoldsWrite, PcOf;
  }

  /** Getting the write lock changes nothing else. */
  lemma WriterEnters(s: State, t: Tid, pc: Pc, s': State)
    requires Inv(s) && LockWrite(s, t, pc, s') && !HoldsRead(PcOf(s, t)) && !HoldsWrite(PcOf(s, t))
    requires pc.PutAppend? || pc.DeleteCheck? || pc.CompactSort?
    ensures Inv(s')
  {
    hide Settled;
    GotoPc(s, t, pc);
    WriterMoves(s, t, pc, s');
    SettledSame(s, s');
    hide LockInv, LockMoves;
    Assemble(s, t, s');
  }

  lemma SettledSame(s: State, s': State)
    requires Settled(s)
    requires s'.file == s.file && s'.entries == s.entries && s'.live == s.live && s'.cache == s.cache
    ensures Settled(s')
  {
    hide ScanLog, FileIndex, Contents, Coherent, KeysDiffer;
  }

  /** A step of the writer that leaves a true description of what it has done so far. */
  lemma WriterGoesOn(s: State, t: Tid, pc: Pc, s': State)
    requires Inv(s) && HoldsWrite(PcOf(s, t)) && (HoldsWrite(pc) || pc.Idle?)
    requires PcOf(s', t) == pc && (forall u: Tid :: u != t ==> PcOf(s', u) == PcOf(s, u))
    requires s'.readers == s.readers && s'.writer == (if HoldsWrite(pc) then Some(t) else None)
    requires if HoldsWrite(pc) then WriterInv(s', pc) else Settled(s')
    ensures Inv(s')
  {
    hide Settled, WriterInv, PcOf;
    BothLocks(PcOf(s, t));
    BothLocks(pc);
    WriterMoves(s, t, pc, s');
    assert ThreadInv(s', pc);
    assert SharedInv(s');
    hide LockInv, LockMoves, SharedInv;
    Assemble(s, t, s');
  }

  lemma PutInv(s: State, t: Tid, s': State)
    requires Inv(s) && PutStep(s, t, s')
    ensures Inv(s')
  {
    hide Inv, WriterInv, PutStep, PcOf, HoldsWrite, HoldsRead, LockWrite;
    if PcOf(s, t).PutWait? {
      PutWaits(s, t, s');
      var pc := PcOf(s, t);
      WriterEnters(s, t, PutAppend(pc.key, pc.value, pc.attributes), s');
    } else {
      PutLocks(s, t, s');
      forall u: Tid | u != t
        ensures PcOf(s', u) == PcOf(s, u)
      {
        OthersOfPut(s, t, s', u);
      }
      WriterKnows(s, t);
      PutShared(s, t, s');
      WriterGoesOn(s, t, PcOf(s', t), s');
    }
  }

  lemma PutWaits(s: State, t: Tid, s': State)
    requires PutStep(s, t, s') && PcOf(s, t).PutWait?
    ensures var pc := PcOf(s, t);
      LockWrite(s, t, PutAppend(pc.key, pc.value, pc.attributes), s') && !HoldsRead(pc) && !HoldsWrite(pc)
  {
  }

  lemma PutLocks(s: State, t: Tid, s': State)
    requires PutStep(s, t, s') && !PcOf(s, t).PutWait?
    ensures HoldsWrite(PcOf(s, t)) && HoldsWrite(PcOf(s', t)) && s'.readers == s.readers && s'.writer == s.writer
  {
    hide AppendAccepts, AppendBytes, AppendedRecord, EntryOf, Without, Touch;
  }

  lemma PutShared(s: State, t: Tid, s': State)
    requires WriterInv(s, PcOf(s, t)) && PutStep(s, t, s') && !PcOf(s, t).PutWait?
    ensures WriterInv(s', PcOf(s', t))
  {
    hide ScanLog, FileIndex, Contents, Coherent, Without, AppendAccepts, AppendBytes, EncodeBlock, KeysDiffer;
    match PcOf(s, t)
    case PutAppend(key, value, attributes) =>
      if !PcOf(s', t).Release? {
        AppendRefines(s.file, key, value, false, attributes, []);
        WithoutCoherent(s.cache, key, s.live, s'.live);
      }
    case PutIndex(key, e) =>
    case PutCache(key) =>
      WithoutDiffer(s.cache, key);
  }

  lemma DeleteInv(s: State, t: Tid, s': State)
    requires Inv(s) && DeleteStep(s, t, s')
    ensures Inv(s')
  {
    hide Inv, WriterInv, DeleteStep, PcOf, HoldsWrite, HoldsRead;
    if PcOf(s, t).DeleteWait? {
      DeleteWaits(s, t, s');
      WriterEnters(s, t, DeleteCheck(PcOf(s, t).key), s');
    } else {
      DeleteMoves(s, t, s');
      WriterKnows(s, t);
      DeleteShared(s, t, s');
      WriterGoesOn(s, t, PcOf(s', t), s');
    }
  }

  /** How a deleting goroutine moves. */
  lemma DeleteMoves(s: State, t: Tid, s': State)
    requires DeleteStep(s, t, s') && !PcOf(s, t).DeleteWait?
    ensures HoldsWrite(PcOf(s, t)) && HoldsWrite(PcOf(s', t)) && s'.readers == s.readers && s'.writer == s.writer
    ensures forall u: Tid :: u != t ==> PcOf(s', u) == PcOf(s, u)
  {
    DeleteLocks(s, t, s');
    hide DeleteStep, PcOf;
    forall u: Tid | u != t
      ensures PcOf(s', u) == PcOf(s, u)
    {
      OthersOfDelete(s, t, s', u);
    }
  }

  lemma DeleteLocks(s: State, t: Tid, s': State)
    requires DeleteStep(s, t, s') && !PcOf(s, t).DeleteWait?
    ensures HoldsWrite(PcOf(s, t)) && HoldsWrite(PcOf(s', t)) && s'.readers == s.readers && s'.writer == s.writer
  {
    hide AppendAccepts, AppendBytes, Without, Forget, Touch;
  }

  lemma DeleteWaits(s: State, t: Tid, s': State)
    requires DeleteStep(s, t, s') && PcOf(s, t).DeleteWait?
    ensures LockWrite(s, t, DeleteCheck(PcOf(s, t).key), s') && !HoldsRead(PcOf(s, t)) && !HoldsWrite(PcOf(s, t))
  {
    hide AppendAccepts, AppendBytes, Without, Forget, Touch;
  }

  lemma DeleteShared(s: State, t: Tid, s': State)
    requires WriterInv(s, PcOf(s, t)) && DeleteStep(s, t, s') && !PcOf(s, t).DeleteWait?
    ensures WriterInv(s', PcOf(s', t))
  {
    hide LogMeans, FileIndex, Coherent, Without, AppendAccepts, AppendBytes, Forget;
    match PcOf(s, t)
    case DeleteAppend(key) =>
      if PcOf(s', t).Release? {
        SettledSame(s, s');
      } else {
        DeleteCommits(s, key, s');
      }
    case DeleteCheck(key) => SettledSame(s, s');
    case DeleteIndex(key) => LogMeansSame(s, s');
    case DeleteCache(key) => CacheDropped(s, key, s');
  }

  lemma LogMeansSame(s: State, s': State)
    requires LogMeans(s) && s'.file == s.file && s'.live == s.live && s'.cache == s.cache
    ensures LogMeans(s')
  {
    hide ScanLog, Contents, KeysDiffer;
  }

  /** Dropping the written key from the cache settles the store. */
  lemma CacheDropped(s: State, key: Bytes, s': State)
    requires LogMeans(s) && FileIndex(s.file, LOG_VERSION) == s.entries && Coherent(Without(s.cache, key), s.live)
    requires s'.file == s.file && s'.entries == s.entries && s'.live == s.live && s'.cache == Without(s.cache, key)
    ensures Settled(s')
  {
    hide ScanLog, FileIndex, Contents, Coherent, Without, KeysDiffer;
    WithoutDiffer(s.cache, key);
  }

  /** The tombstone is the moment of the deletion. */
  lemma DeleteCommits(s: State, key: Bytes, s': State)
    requires Settled(s) && key in s.entries && AppendAccepts(key, [], map[], [])
    requires s'.file == s.file + AppendBytes(key, [], true, map[], []) && s'.live == Forget(s.live, key)
    requires s'.entries == s.entries && s'.cache == s.cache
    ensures LogMeans(s') && FileIndex(s'.file, LOG_VERSION) == Forget(s'.entries, key) && Coherent(Without(s'.cache, key), s'.live)
  {
    hide ScanLog, FileIndex, Contents, Coherent, Without, AppendAccepts, AppendBytes, AppendedRecord, KeysDiffer;
    AppendRefines(s.file, key, [], true, map[], []);
    AppendedKey(|s.file|, key, [], true, map[], []);
    WithoutCoherent(s.cache, key, s.live, s'.live);
  }

  lemma CompactInv(s: State, t: Tid, s': State)
    requires Inv(s) && MemoInv(s) && CompactStep(s, t, s')
    ensures Inv(s')
  {
    hide Inv, MemoInv, WriterInv, BuildStep, SwapStep, Settled;
    CompactMoves(s, t, s');
    if PcOf(s, t).CompactWait? {
      hide PcOf;
      WriterEnters(s, t, CompactSort, s');
    } else {
      hide PcOf;
      WriterKnows(s, t);
      if SwapStep(s, t, s') {
        SwapShared(s, t, s');
      } else if PcOf(s, t).CompactSort? {
        SortShared(s, t, s');
      } else {
        BuildPlaces(s, t, s');
        BuildShared(s, t, s');
      }
      WriterGoesOn(s, t, PcOf(s', t), s');
    }
  }

  /** How a compacting goroutine, or any goroutine that ends a writing call, moves. */
  lemma CompactMoves(s: State, t: Tid, s': State)
    requires CompactStep(s, t, s')
    ensures PcOf(s, t).CompactWait? ==> LockWrite(s, t, CompactSort, s')
    ensures !PcOf(s, t).CompactWait? ==> WriterLock(s, t, s')
    ensures forall u: Tid :: u != t ==> PcOf(s', u) == PcOf(s, u)
  {
    hide BuildStep, SwapStep, LockWrite, PcOf, WriterLock;
    if BuildStep(s, t, s') {
      BuildLocks(s, t, s');
    } else {
      SwapLocks(s, t, s');
    }
    forall u: Tid | u != t
      ensures PcOf(s', u) == PcOf(s, u)
    {
      OthersOfCompact(s, t, s', u);
    }
  }

  /** What a step of compaction does to the lock. */
  predicate WriterLock(s: State, t: Tid, s': State) {
    && HoldsWrite(PcOf(s, t)) && (HoldsWrite(PcOf(s', t)) || PcOf(s', t).Idle?) && s'.readers == s.readers
    && s'.writer == (if HoldsWrite(PcOf(s', t)) then s.writer else None)
  }

  lemma BuildLocks(s: State, t: Tid, s': State)
    requires BuildStep(s, t, s')
    ensures PcOf(s, t).CompactWait? ==> LockWrite(s, t, CompactSort, s')
    ensures !PcOf(s, t).CompactWait? ==> WriterLock(s, t, s')
  {
    hide CopiedLog, CopiedIndex, KeysByOffset, DistinctOffsets, MemoHit, Rebuilt;
  }

  lemma SwapLocks(s: State, t: Tid, s': State)
    requires SwapStep(s, t, s')
    ensures WriterLock(s, t, s') && !PcOf(s, t).CompactWait? && !PcOf(s, t).CompactSort? && !PcOf(s, t).CompactBuild?
  {
    hide NewMemo;
  }

  /** Sorting under the write lock gives the file order: no reader has left the memo half filled. */
  lemma SortShared(s: State, t: Tid, s': State)
    requires Inv(s) && MemoInv(s) && BuildStep(s, t, s') && PcOf(s, t).CompactSort?
    ensures WriterInv(s', PcOf(s', t)) && HoldsWrite(PcOf(s', t))
  {
    hide MemoInv, Settled, KeysByOffset, DistinctOffsets, Rebuilt, IsOffsetOrder, LockInv, ThreadInv;
    WriterKnows(s, t);
    SettledSame(s, s');
    if !PcOf(s', t).Release? && MemoHit(s.memo, s.entries) {
      QuietMemo(s);
    }
  }

  lemma BuildPlaces(s: State, t: Tid, s': State)
    requires BuildStep(s, t, s')
    ensures PcOf(s, t).CompactWait? || PcOf(s, t).CompactSort? || PcOf(s, t).CompactBuild?
  {
  }

  lemma BuildShared(s: State, t: Tid, s': State)
    requires WriterInv(s, PcOf(s, t)) && BuildStep(s, t, s') && PcOf(s, t).CompactBuild?
    ensures WriterInv(s', PcOf(s', t)) && HoldsWrite(PcOf(s', t))
  {
    hide BuildStep, PcOf, FileIndex, Coherent, LogMeans, CopiedLog, CopiedIndex, IsOffsetOrder, Kept;
    BuildResult(s, t, s');
    SettledSame(s, s');
    if !PcOf(s', t).Release? {
      CopiedInv(s', PcOf(s, t).keys);
    }
  }

  lemma CopiedInv(s: State, keys: seq<Bytes>)
    requires Settled(s) && IsOffsetOrder(s.entries, keys)
    ensures WriterInv(s, CompactLog(CopiedLog(s.file, keys), CopiedIndex(s.file, keys)))
  {
    SettledFacts(s);
    hide *;
    CopiedMeans(s.file, keys);
    CompactLogInv(s, CopiedLog(s.file, keys), CopiedIndex(s.file, keys));
  }

  lemma SettledFacts(s: State)
    requires Settled(s)
    ensures |s.file| >= HEADER_SIZE && s.entries == FileIndex(s.file, LOG_VERSION) && Contents(s.file, LOG_VERSION) == s.live
  {
    hide ScanLog, FileIndex, Contents, Coherent, KeysDiffer;
  }

  lemma CompactLogInv(s: State, newFile: Bytes, newEntries: Entries)
    requires Settled(s) && |newFile| >= HEADER_SIZE && ScanLog(newFile, LOG_VERSION).outcome == Done
    requires Contents(newFile, LOG_VERSION) == s.live && newEntries == FileIndex(newFile, LOG_VERSION)
    ensures WriterInv(s, CompactLog(newFile, newEntries))
  {
    hide ScanLog, FileIndex, Contents, Settled;
  }

  lemma BuildResult(s: State, t: Tid, s': State)
    requires BuildStep(s, t, s') && PcOf(s, t).CompactBuild?
    ensures s'.file == s.file && s'.entries == s.entries && s'.live == s.live && s'.cache == s.cache
    ensures PcOf(s', t).Release? ||
      (|s.file| >= HEADER_SIZE
       && PcOf(s', t) == CompactLog(CopiedLog(s.file, PcOf(s, t).keys), CopiedIndex(s.file, PcOf(s, t).keys)))
  {
    hide CopiedLog, CopiedIndex;
  }

  lemma SwapShared(s: State, t: Tid, s': State)
    requires WriterInv(s, PcOf(s, t)) && SwapStep(s, t, s')
    ensures if HoldsWrite(PcOf(s', t)) then WriterInv(s', PcOf(s', t)) else Settled(s')
  {
    hide ScanLog, FileIndex, Contents, Coherent, KeysDiffer, NewMemo, IsOffsetOrder;
    if PcOf(s, t).CompactClear? {
      NothingCoherent(s'.live);
    }
  }

  lemma {:induction false} KeptAll(keys: seq<Bytes>, items: Items)
    requires forall k :: k in keys ==> k in items
    ensures Kept(keys, items) == keys
  {
    if |keys| > 0 {
      KeptAll(keys[..|keys| - 1], items);
      assert keys == keys[..|keys| - 1] + [keys[|keys| - 1]];
    }
  }

  /** Going by the file order, the copy is the compacted log: clean, with the same contents. */
  lemma CopiedMeans(file: Bytes, keys: seq<Bytes>)
    requires |file| >= HEADER_SIZE && IsOffsetOrder(FileIndex(file, LOG_VERSION), keys)
    ensures var newFile := CopiedLog(file, keys);
      && newFile == CompactFile(file, LOG_VERSION)
      && ScanLog(newFile, LOG_VERSION).outcome == Done
      && Contents(newFile, LOG_VERSION) == Contents(file, LOG_VERSION)
      && CopiedIndex(file, keys) == FileIndex(newFile, LOG_VERSION)
  {
    hide ScanLog, FileIndex, Contents, LiveKeys, TotalSize, Rewrite;
    CompactionPreserves(file, LOG_VERSION);
    OffsetOrderUnique(FileIndex(file, LOG_VERSION), keys, LiveKeys(file, LOG_VERSION));
    KeptAll(keys, Contents(file, LOG_VERSION));
  }

  lemma NothingCoherent(items: Items)
    ensures Coherent([], items) && KeysDiffer([])
  {
  }

  lemma ScanStepInv(s: State, t: Tid, s': State)
    requires Inv(s) && ScanStep(s, t, s')
    ensures Inv(s')
  {
    hide Inv, SnapshotStep, VisitStep, LockMoves, SharedInv, ThreadInv, PcOf, HoldsRead, HoldsWrite;
    ScanLockMoves(s, t, s');
    SharedSame(s, t, s');
    if SnapshotStep(s, t, s') {
      SortKnows(s, t, s');
    } else {
      ScanKnows(s, t, s');
    }
    Assemble(s, t, s');
  }

  /** A scan takes and releases the read lock around its snapshot and around each entry. */
  lemma ScanLockMoves(s: State, t: Tid, s': State)
    requires Inv(s) && ScanStep(s, t, s')
    ensures LockMoves(s, t, s') && !HoldsWrite(PcOf(s, t)) && !HoldsWrite(PcOf(s', t))
    ensures s'.file == s.file && s'.entries == s.entries && s'.live == s.live && s'.cache == s.cache
  {
    hide ScanStep, LockMoves, LockInv, SharedInv, ThreadInv, PcOf, HoldsRead, HoldsWrite;
    ScanMovement(s, t, s');
    BothLocks(PcOf(s, t));
    BothLocks(PcOf(s', t));
    if HoldsRead(PcOf(s, t)) && HoldsRead(PcOf(s', t)) {
      ReaderStays(s, t, s');
    } else if HoldsRead(PcOf(s', t)) {
      ReaderEnters(s, t, PcOf(s', t), s');
    } else if HoldsRead(PcOf(s, t)) {
      ReaderLeaves(s, t, PcOf(s', t), s');
    } else {
      WriterMoves(s, t, PcOf(s', t), s');
    }
  }

  /** A step that writes nothing, and takes or releases the read lock as its new place demands. */
  ghost predicate ReadOnlyMove(s: State, t: Tid, s': State) {
    var pc, pc' := PcOf(s, t), PcOf(s', t);
    && !HoldsWrite(pc) && !HoldsWrite(pc')
    && s'.file == s.file && s'.entries == s.entries && s'.live == s.live && s'.cache == s.cache
    && (forall u: Tid :: u != t ==> PcOf(s', u) == PcOf(s, u))
    && (if HoldsRead(pc') && !HoldsRead(pc) then LockRead(s, t, pc', s')
        else if HoldsRead(pc) && !HoldsRead(pc') then UnlockRead(s, t, pc', s')
        else s'.readers == s.readers && s'.writer == s.writer)
  }

  lemma ScanOutside(s: State, t: Tid, s': State)
    requires VisitStep(s, t, s') && (PcOf(s, t).ScanWait? || PcOf(s, t).ScanSnapshot? || PcOf(s, t).ScanNext?)
    ensures ReadOnlyMove(s, t, s')
  {
  }

  lemma ScanReads(s: State, t: Tid, s': State)
    requires VisitStep(s, t, s') && (PcOf(s, t).ScanLookup? || PcOf(s, t).ScanRead?)
    ensures ReadOnlyMove(s, t, s')
  {
    hide AreasAt;
  }

  lemma ScanLeaves(s: State, t: Tid, s': State)
    requires VisitStep(s, t, s') && (PcOf(s, t).ScanSkip? || PcOf(s, t).ScanGot?)
    ensures ReadOnlyMove(s, t, s')
  {
  }

  /** The steps in which a scan gets its snapshot. */
  predicate TakesSnapshot(pc: Pc) {
    || pc.ScanCheck? || pc.ScanLength? || pc.ScanSort? || pc.ScanPublish? || pc.ScanFill? || pc.ScanClear?
    || pc.ScanHeader? || pc.ScanCopy?
  }

  lemma SnapshotOthers(s: State, t: Tid, s': State, u: Tid)
    requires SnapshotStep(s, t, s') && u != t
    ensures PcOf(s', u) == PcOf(s, u)
  {
    hide Publish, Fill, FillDone, KeysByOffset, DistinctOffsets;
  }

  lemma SnapshotFrame(s: State, t: Tid, s': State)
    requires SnapshotStep(s, t, s')
    ensures s'.file == s.file && s'.entries == s.entries && s'.live == s.live && s'.cache == s.cache
    ensures s'.readers == s.readers && s'.writer == s.writer
  {
    hide Publish, Fill, FillDone, KeysByOffset, DistinctOffsets;
  }

  lemma SnapshotLocks(s: State, t: Tid, s': State)
    requires SnapshotStep(s, t, s')
    ensures HoldsRead(PcOf(s, t)) && HoldsRead(PcOf(s', t)) && TakesSnapshot(PcOf(s, t))
  {
    hide Publish, Fill, FillDone, KeysByOffset, DistinctOffsets;
  }

  lemma ScanSorts(s: State, t: Tid, s': State)
    requires SnapshotStep(s, t, s')
    ensures ReadOnlyMove(s, t, s') && TakesSnapshot(PcOf(s, t))
  {
    hide SnapshotStep, PcOf, HoldsRead, HoldsWrite;
    SnapshotFrame(s, t, s');
    SnapshotLocks(s, t, s');
    BothLocks(PcOf(s, t));
    BothLocks(PcOf(s', t));
    forall u: Tid | u != t
      ensures PcOf(s', u) == PcOf(s, u)
    {
      SnapshotOthers(s, t, s', u);
    }
  }

  lemma VisitPlaces(s: State, t: Tid, s': State)
    requires VisitStep(s, t, s')
    ensures var pc := PcOf(s, t);
      && !TakesSnapshot(pc)
      && (|| pc.ScanWait? || pc.ScanSnapshot? || pc.ScanNext? || pc.ScanLookup? || pc.ScanRead?
          || pc.ScanSkip? || pc.ScanGot?)
  {
  }

  /** Each step of a scan keeps its lock, takes it, releases it, or needs none. */
  lemma ScanMovement(s: State, t: Tid, s': State)
    requires ScanStep(s, t, s')
    ensures ReadOnlyMove(s, t, s')
  {
    hide SnapshotStep, VisitStep, ReadOnlyMove, TakesSnapshot;
    if SnapshotStep(s, t, s') {
      ScanSorts(s, t, s');
    } else {
      VisitPlaces(s, t, s');
      if PcOf(s, t).ScanWait? || PcOf(s, t).ScanSnapshot? || PcOf(s, t).ScanNext? {
        ScanOutside(s, t, s');
      } else if PcOf(s, t).ScanLookup? || PcOf(s, t).ScanRead? {
        ScanReads(s, t, s');
      } else {
        ScanLeaves(s, t, s');
      }
    }
  }

  /** What a scanning goroutine learns in each step is true. */
  lemma ScanKnows(s: State, t: Tid, s': State)
    requires Inv(s) && VisitStep(s, t, s')
    ensures ThreadInv(s', PcOf(s', t))
  {
    hide VisitStep, Inv, PcOf, ThreadInv;
    VisitPlaces(s, t, s');
    if PcOf(s, t).ScanLookup? {
      LookupKnows(s, t, s');
    } else if PcOf(s, t).ScanRead? {
      ReadKnows(s, t, s');
    } else {
      MoveKnows(s, t, s');
    }
  }

  lemma LookupKnows(s: State, t: Tid, s': State)
    requires Inv(s) && VisitStep(s, t, s') && PcOf(s, t).ScanLookup?
    ensures ThreadInv(s', PcOf(s', t))
  {
    hide LockInv, SharedInv, ScanLog, FileIndex, Contents, Coherent, NoRepeats, ScanInv, KeysDiffer;
    assert ThreadInv(s, PcOf(s, t));
    ReaderSettled(s, t);
    ContentsKeys(s.file, LOG_VERSION);
    assert PcOf(s, t).keys[PcOf(s, t).i] in s.entries <==> PcOf(s, t).keys[PcOf(s, t).i] in s.live.Keys;
  }

  lemma ReadKnows(s: State, t: Tid, s': State)
    requires Inv(s) && VisitStep(s, t, s') && PcOf(s, t).ScanRead?
    ensures ThreadInv(s', PcOf(s', t))
  {
    hide AreasAt, LockInv, SharedInv, ScanLog, FileIndex, Contents, Coherent, NoRepeats, ScanInv, KeysDiffer;
    assert ThreadInv(s, PcOf(s, t));
    ReaderSettled(s, t);
    LiveIsReadable(s.file, LOG_VERSION, PcOf(s, t).keys[PcOf(s, t).i]);
  }

  lemma MoveKnows(s: State, t: Tid, s': State)
    requires Inv(s) && VisitStep(s, t, s') && !PcOf(s, t).ScanLookup? && !PcOf(s, t).ScanRead?
    ensures ThreadInv(s', PcOf(s', t))
  {
    hide LockInv, SharedInv, NoRepeats, ScanInv;
    assert ThreadInv(s, PcOf(s, t));
    match PcOf(s, t)
    case ScanSnapshot(keys) => ScanBegins(keys);
    case ScanSkip(keys, i, delivered) => ScanAdvances(keys, i, delivered);
    case ScanGot(keys, i, delivered, v) => ScanDelivers(keys, i, delivered, v);
    case _ =>
  }

  lemma SortKnows(s: State, t: Tid, s': State)
    requires Inv(s) && SnapshotStep(s, t, s')
    ensures ThreadInv(s', PcOf(s', t))
  {
    hide LockInv, SharedInv, KeysByOffset, DistinctOffsets, IsOffsetOrder, Publish, Fill, FillDone;
    assert ThreadInv(s, PcOf(s, t));
  }

  lemma ScanBegins(keys: seq<Bytes>)
    ensures ScanInv(keys, 0, [])
  {
  }

  lemma ScanAdvances(keys: seq<Bytes>, i: nat, delivered: seq<Cached>)
    requires ScanInv(keys, i, delivered) && i < |keys|
    ensures ScanInv(keys, i + 1, delivered)
  {
    hide NoRepeats;
    assert keys[..i + 1] == keys[..i] + [keys[i]];
  }

  lemma ScanDelivers(keys: seq<Bytes>, i: nat, delivered: seq<Cached>, v: Bytes)
    requires ScanInv(keys, i, delivered) && i < |keys|
    ensures ScanInv(keys, i + 1, delivered + [Cached(keys[i], v)])
  {
    assert keys[..i + 1] == keys[..i] + [keys[i]];
    if NoRepeats(keys) {
      assert keys[i] !in keys[..i];
      forall j | 0 <= j < |delivered|
        ensures delivered[j].key != keys[i]
      {
        assert delivered[j] in delivered;
      }
    }
  }

  /** Every step of every goroutine keeps the invariant. */
  lemma StepInv(capacity: nat, s: State, t: Tid, s': State)
    requires Inv(s) && MemoInv(s) && Step(capacity, s, t, s')
    ensures Inv(s')
  {
    hide Inv, MemoInv, Begin, GetStep, PutStep, DeleteStep, CompactStep, ScanStep;
    if Begin(s, t, s') {
      BeginInv(s, t, s');
    } else if GetStep(capacity, s, t, s') {
      GetInv(capacity, s, t, s');
    } else if PutStep(s, t, s') {
      PutInv(s, t, s');
    } else if DeleteStep(s, t, s') {
      DeleteInv(s, t, s');
    } else if CompactStep(s, t, s') {
      CompactInv(s, t, s');
    } else {
      ScanStepInv(s, t, s');
    }
  }

  // --------------------------------------------------------------- the memo

  /** With no reader inside, nobody is filling: a clean memo is the file order. */
  lemma QuietMemo(s: State)
    requires LockInv(s) && MemoInv(s) && s.readers == {}
    ensures s.memo.filler.None?
    ensures !s.memo.dirty ==> s.memo.current < |s.memo.arrays| && IsOffsetOrder(s.entries, s.memo.arrays[s.memo.current])
  {
    hide IsOffsetOrder;
    var m := s.memo;
    assert forall t: Tid :: !HoldsRead(PcOf(s, t));
    assert m.filler.Some? ==> MemoUse(m, m.filler.value, PcOf(s, m.filler.value));
    if !m.dirty {
      assert m.arrays[m.current] == m.order.value;
    }
  }

  lemma InitMemo(s: State)
    requires Init(s)
    ensures MemoInv(s)
  {
    hide Settled;
  }

  /** A step that leaves the memo and the index alone. */
  lemma MemoKept(s: State, t: Tid, s': State)
    requires MemoInv(s) && s'.memo == s.memo && s'.entries == s.entries
    requires forall u: Tid :: u != t ==> PcOf(s', u) == PcOf(s, u)
    requires MemoUse(s.memo, t, PcOf(s', t))
    ensures MemoInv(s')
  {
    hide MemoUse, MemoOk, PcOf;
  }

  /** A goroutine that is not filling and goes on to something that does not use the memo. */
  lemma NoMemoUse(s: State, t: Tid, pc': Pc)
    requires MemoInv(s) && !PcOf(s, t).ScanFill? && !UsesMemo(pc')
    ensures MemoUse(s.memo, t, pc')
  {
    hide MemoOk, PcOf, Shaped;
    assert MemoUse(s.memo, t, PcOf(s, t));
  }

  /** Under the write lock nobody uses the memo, so it may be set to anything that is right. */
  lemma MemoWritten(s: State, t: Tid, s': State)
    requires Inv(s) && HoldsWrite(PcOf(s, t)) && !UsesMemo(PcOf(s', t))
    requires forall u: Tid :: u != t ==> PcOf(s', u) == PcOf(s, u)
    requires MemoOk(s'.memo, s'.entries) && s'.memo.filler.None?
    ensures MemoInv(s')
  {
    hide MemoOk, PcOf, SharedInv, ThreadInv, Shaped, UsesMemo, HoldsRead, HoldsWrite;
    WriterKnows(s, t);
    forall u: Tid
      ensures MemoUse(s'.memo, u, PcOf(s', u))
    {
      if u != t {
        assert u !in s.readers;
        UsersHoldRead(PcOf(s, u));
        assert !UsesMemo(PcOf(s', u));
      }
      NotUsing(s'.memo, u, PcOf(s', u));
    }
  }

  lemma UsersHoldRead(pc: Pc)
    ensures UsesMemo(pc) ==> HoldsRead(pc)
  {
  }

  lemma NotUsing(m: Memo, t: Tid, pc: Pc)
    requires !UsesMemo(pc) && m.filler.None?
    ensures MemoUse(m, t, pc)
  {
  }

  /** Steps of a Get, and the start of any call, leave the memo alone. */
  lemma GetMemo(capacity: nat, s: State, t: Tid, s': State)
    requires Begin(s, t, s') || GetStep(capacity, s, t, s')
    ensures s'.memo == s.memo && s'.entries == s.entries && !PcOf(s, t).ScanFill? && !UsesMemo(PcOf(s', t))
  {
    hide AreasAt, Lookup, AfterGet, AfterPut;
  }

  /** Writing the index dirties the memo; the other steps of a writer leave both alone. */
  predicate WriterMemo(s: State, t: Tid, s': State) {
    && !PcOf(s, t).ScanFill? && !UsesMemo(PcOf(s', t))
    && ((s'.memo == s.memo && s'.entries == s.entries) || (HoldsWrite(PcOf(s, t)) && s'.memo == Touch(s.memo)))
  }

  lemma PutTouches(s: State, t: Tid, s': State)
    requires PutStep(s, t, s')
    ensures (s'.memo == s.memo && s'.entries == s.entries) || (PcOf(s, t).PutIndex? && s'.memo == Touch(s.memo))
  {
    hide AppendAccepts, AppendBytes, AppendedRecord, EntryOf, Without, Touch;
  }

  lemma PutPlacesAppending(s: State, t: Tid, s': State)
    requires PutStep(s, t, s') && PcOf(s, t).PutAppend?
    ensures !PcOf(s, t).ScanFill? && !UsesMemo(PcOf(s', t))
  {
    hide AppendAccepts, AppendBytes, AppendedRecord, EntryOf, Without, Touch;
  }

  lemma PutPlacesElsewhere(s: State, t: Tid, s': State)
    requires PutStep(s, t, s') && !PcOf(s, t).PutAppend?
    ensures !PcOf(s, t).ScanFill? && !UsesMemo(PcOf(s', t))
  {
    hide AppendAccepts, AppendBytes, AppendedRecord, EntryOf, Without, Touch;
  }

  lemma PutPlaces(s: State, t: Tid, s': State)
    requires PutStep(s, t, s')
    ensures !PcOf(s, t).ScanFill? && !UsesMemo(PcOf(s', t))
  {
    hide PutStep, PcOf, UsesMemo;
    if PcOf(s, t).PutAppend? {
      PutPlacesAppending(s, t, s');
    } else {
      PutPlacesElsewhere(s, t, s');
    }
  }

  lemma PutMemo(s: State, t: Tid, s': State)
    requires PutStep(s, t, s')
    ensures WriterMemo(s, t, s')
  {
    hide PutStep, PcOf, Touch, UsesMemo;
    PutTouches(s, t, s');
    PutPlaces(s, t, s');
  }

  lemma DeleteTouches(s: State, t: Tid, s': State)
    requires DeleteStep(s, t, s')
    ensures (s'.memo == s.memo && s'.entries == s.entries) || (PcOf(s, t).DeleteIndex? && s'.memo == Touch(s.memo))
  {
    hide AppendAccepts, AppendBytes, Without, Touch, Forget;
  }

  lemma DeletePlacesAppending(s: State, t: Tid, s': State)
    requires DeleteStep(s, t, s') && PcOf(s, t).DeleteAppend?
    ensures !PcOf(s, t).ScanFill? && !UsesMemo(PcOf(s', t))
  {
    hide AppendAccepts, AppendBytes, Without, Forget, Touch;
  }

  lemma DeletePlacesElsewhere(s: State, t: Tid, s': State)
    requires DeleteStep(s, t, s') && !PcOf(s, t).DeleteAppend?
    ensures !PcOf(s, t).ScanFill? && !UsesMemo(PcOf(s', t))
  {
    hide AppendAccepts, AppendBytes, Without, Forget, Touch;
  }

  lemma DeletePlaces(s: State, t: Tid, s': State)
    requires DeleteStep(s, t, s')
    ensures !PcOf(s, t).ScanFill? && !UsesMemo(PcOf(s', t))
  {
    hide DeleteStep, PcOf, UsesMemo;
    if PcOf(s, t).DeleteAppend? {
      DeletePlacesAppending(s, t, s');
    } else {
      DeletePlacesElsewhere(s, t, s');
    }
  }

  lemma DeleteMemo(s: State, t: Tid, s': State)
    requires DeleteStep(s, t, s')
    ensures WriterMemo(s, t, s')
  {
    hide DeleteStep, PcOf, Touch, UsesMemo;
    DeleteTouches(s, t, s');
    DeletePlaces(s, t, s');
  }

  lemma WriterMemoInv(s: State, t: Tid, s': State)
    requires Inv(s) && MemoInv(s) && WriterMemo(s, t, s')
    requires forall u: Tid :: u != t ==> PcOf(s', u) == PcOf(s, u)
    ensures MemoInv(s')
  {
    hide Inv, PcOf, UsesMemo, HoldsWrite, MemoUse, Shaped, IsOffsetOrder;
    if s'.memo == s.memo && s'.entries == s.entries {
      NoMemoUse(s, t, PcOf(s', t));
      MemoKept(s, t, s');
    } else {
      assert s'.memo.filler.None? by { WriterKnows(s, t); LockOf(s); QuietMemo(s); }
      MemoWritten(s, t, s');
    }
  }

  lemma LockOf(s: State)
    requires Inv(s)
    ensures LockInv(s)
  {
  }

  /** Compaction sets the memo to the file order, or to that of a new index. */
  ghost predicate CompactsMemo(s: State, t: Tid, s': State) {
    && !PcOf(s, t).ScanFill? && !UsesMemo(PcOf(s', t))
    && (|| (s'.memo == s.memo && s'.entries == s.entries)
        || (HoldsWrite(PcOf(s, t)) && s'.memo == NewMemo(s.memo.arrays, s.memo.filled, s'.entries))
        || (HoldsWrite(PcOf(s, t)) && DistinctOffsets(s.entries) && s'.entries == s.entries
            && s'.memo == Rebuilt(s.memo, KeysByOffset(s.entries))))
  }

  lemma BuildMemo(s: State, t: Tid, s': State)
    requires BuildStep(s, t, s')
    ensures CompactsMemo(s, t, s')
  {
    hide CopiedLog, CopiedIndex, KeysByOffset, DistinctOffsets, MemoHit, Rebuilt, NewMemo;
  }

  lemma SwapMemo(s: State, t: Tid, s': State)
    requires SwapStep(s, t, s')
    ensures CompactsMemo(s, t, s')
  {
    hide KeysByOffset, DistinctOffsets, Rebuilt, NewMemo;
  }

  lemma CompactMemoInv(s: State, t: Tid, s': State)
    requires Inv(s) && MemoInv(s) && CompactStep(s, t, s')
    requires forall u: Tid :: u != t ==> PcOf(s', u) == PcOf(s, u)
    ensures MemoInv(s')
  {
    assert CompactsMemo(s, t, s') by {
      hide BuildStep, SwapStep, CompactsMemo;
      if BuildStep(s, t, s') {
        BuildMemo(s, t, s');
      } else {
        SwapMemo(s, t, s');
      }
    }
    hide Inv, BuildStep, SwapStep, PcOf, UsesMemo, HoldsWrite, MemoUse, MemoOk, NewMemo, Rebuilt, KeysByOffset, DistinctOffsets;
    if s'.memo == s.memo && s'.entries == s.entries {
      NoMemoUse(s, t, PcOf(s', t));
      MemoKept(s, t, s');
    } else {
      if s'.memo == NewMemo(s.memo.arrays, s.memo.filled, s'.entries) {
        NewMemoOk(s.memo, s.entries, s'.entries);
      } else {
        RebuiltOk(s.memo, s.entries);
      }
      MemoWritten(s, t, s');
    }
  }

  lemma NewMemoOk(m: Memo, entries: Entries, entries': Entries)
    requires MemoOk(m, entries)
    ensures MemoOk(NewMemo(m.arrays, m.filled, entries'), entries') && NewMemo(m.arrays, m.filled, entries').filler.None?
  {
  }

  lemma RebuiltOk(m: Memo, entries: Entries)
    requires MemoOk(m, entries) && DistinctOffsets(entries)
    ensures MemoOk(Rebuilt(m, KeysByOffset(entries)), entries) && Rebuilt(m, KeysByOffset(entries)).filler.None?
  {
    hide KeysByOffset, IsOffsetOrder, DistinctOffsets;
  }

  /** Steps of a snapshot that do not write the memo. */
  lemma SnapshotMemoKept(s: State, t: Tid, s': State)
    requires MemoInv(s) && SnapshotStep(s, t, s')
    requires !PcOf(s, t).ScanPublish? && !PcOf(s, t).ScanFill? && !PcOf(s, t).ScanClear?
    ensures s'.memo == s.memo && s'.entries == s.entries && MemoUse(s.memo, t, PcOf(s', t))
  {
    hide KeysByOffset, DistinctOffsets, IsOffsetOrder;
    assert MemoUse(s.memo, t, PcOf(s, t));
  }

  lemma VisitMemo(s: State, t: Tid, s': State)
    requires VisitStep(s, t, s')
    ensures s'.memo == s.memo && s'.entries == s.entries && !PcOf(s, t).ScanFill? && !UsesMemo(PcOf(s', t))
  {
    hide AreasAt;
  }

  /** A new array of blanks: for the same index, so for the same order. */
  lemma PublishInv(s: State, t: Tid, s': State, keys: seq<Bytes>)
    requires MemoInv(s) && IsOffsetOrder(s.entries, keys) && PcOf(s, t) == ScanPublish(keys)
    requires s'.memo == Publish(s.memo, t, keys) && s'.entries == s.entries && PcOf(s', t) == ScanFill(keys, 0)
    requires forall u: Tid :: u != t ==> PcOf(s', u) == PcOf(s, u)
    ensures MemoInv(s')
  {
    hide IsOffsetOrder, PcOf;
    if s.memo.order.Some? {
      OffsetOrderUnique(s.entries, s.memo.order.value, keys);
    }
    forall u: Tid
      ensures MemoUse(s'.memo, u, PcOf(s', u))
    {
      assert MemoUse(s.memo, u, PcOf(s, u));
    }
  }

  lemma FillUse(m: Memo, i: nat, order: seq<Bytes>, u: Tid, pc: Pc)
    requires MemoUse(m, u, pc) && m.order == Some(order) && i < |order| && CanFill(m, i)
    ensures MemoUse(Fill(m, i, order[i]), u, pc)
  {
    if pc.ScanCopy? {
      FillShaped(m, i, order, pc.slot);
    }
  }

  lemma FillShaped(m: Memo, i: nat, order: seq<Bytes>, slot: nat)
    requires Shaped(m, slot, order) && i < |order| && CanFill(m, i)
    ensures Shaped(Fill(m, i, order[i]), slot, order)
  {
  }

  /** Writing a place: whoever made the array, the place gets the right key. */
  lemma FillInv(s: State, t: Tid, s': State, keys: seq<Bytes>, i: nat)
    requires MemoInv(s) && IsOffsetOrder(s.entries, keys) && i < |keys| && CanFill(s.memo, i)
    requires PcOf(s, t) == ScanFill(keys, i) && PcOf(s', t) == ScanFill(keys, i + 1)
    requires s'.memo == Fill(s.memo, i, keys[i]) && s'.entries == s.entries
    requires forall u: Tid :: u != t ==> PcOf(s', u) == PcOf(s, u)
    ensures MemoInv(s')
  {
    hide IsOffsetOrder, PcOf, Shaped;
    assert MemoUse(s.memo, t, PcOf(s, t));
    OffsetOrderUnique(s.entries, s.memo.order.value, keys);
    FillShaped(s.memo, i, keys, s.memo.current);
    forall u: Tid
      ensures MemoUse(s'.memo, u, PcOf(s', u))
    {
      assert MemoUse(s.memo, u, PcOf(s, u));
      FillUse(s.memo, i, keys, u, PcOf(s, u));
    }
  }

  lemma FillDoneInv(s: State, t: Tid, s': State, keys: seq<Bytes>)
    requires MemoInv(s) && IsOffsetOrder(s.entries, keys)
    requires PcOf(s, t) == ScanFill(keys, |keys|) && PcOf(s', t) == ScanClear
    requires s'.memo == FillDone(s.memo, t) && s'.entries == s.entries
    requires forall u: Tid :: u != t ==> PcOf(s', u) == PcOf(s, u)
    ensures MemoInv(s')
  {
    hide IsOffsetOrder, PcOf;
    assert MemoUse(s.memo, t, PcOf(s, t));
    OffsetOrderUnique(s.entries, s.memo.order.value, keys);
    forall u: Tid
      ensures MemoUse(s'.memo, u, PcOf(s', u))
    {
      assert MemoUse(s.memo, u, PcOf(s, u));
    }
  }

  lemma ClearInv(s: State, t: Tid, s': State)
    requires MemoInv(s) && PcOf(s, t) == ScanClear && PcOf(s', t) == ScanHeader
    requires s'.memo == s.memo.(dirty := false) && s'.entries == s.entries
    requires forall u: Tid :: u != t ==> PcOf(s', u) == PcOf(s, u)
    ensures MemoInv(s')
  {
    hide IsOffsetOrder, PcOf;
    forall u: Tid
      ensures MemoUse(s'.memo, u, PcOf(s', u))
    {
      assert MemoUse(s.memo, u, PcOf(s, u));
    }
    assert MemoUse(s.memo, t, PcOf(s, t));
  }

  /** A goroutine that fills the memo always finds the place it writes, whoever made the array. */
  lemma FillInBounds(s: State, t: Tid)
    requires Inv(s) && MemoInv(s) && PcOf(s, t).ScanFill? && PcOf(s, t).i < |PcOf(s, t).keys|
    ensures CanFill(s.memo, PcOf(s, t).i)
  {
    hide IsOffsetOrder, LockInv, SharedInv;
    var keys := PcOf(s, t).keys;
    assert MemoUse(s.memo, t, PcOf(s, t));
    assert ThreadInv(s, PcOf(s, t));
    OffsetOrderUnique(s.entries, s.memo.order.value, keys);
  }

  lemma SnapshotMemoInv(s: State, t: Tid, s': State)
    requires Inv(s) && MemoInv(s) && SnapshotStep(s, t, s')
    requires forall u: Tid :: u != t ==> PcOf(s', u) == PcOf(s, u)
    ensures MemoInv(s')
  {
    hide MemoInv, LockInv, SharedInv, IsOffsetOrder, Publish, Fill, FillDone, CanFill, KeysByOffset, DistinctOffsets;
    assert ThreadInv(s, PcOf(s, t));
    match PcOf(s, t)
    case ScanPublish(keys) => PublishInv(s, t, s', keys);
    case ScanFill(keys, i) =>
      if i < |keys| {
        FillInv(s, t, s', keys, i);
      } else {
        FillDoneInv(s, t, s', keys);
      }
    case ScanClear => ClearInv(s, t, s');
    case _ =>
      SnapshotMemoKept(s, t, s');
      MemoKept(s, t, s');
  }

  /** Every step of every goroutine keeps the memo's invariant. */
  lemma MemoStepInv(capacity: nat, s: State, t: Tid, s': State)
    requires Inv(s) && MemoInv(s) && Step(capacity, s, t, s')
    ensures MemoInv(s')
  {
    forall u: Tid | u != t
      ensures PcOf(s', u) == PcOf(s, u)
    {
      OthersDoNotMove(capacity, s, t, s', u);
    }
    hide Inv, MemoInv, PcOf, Begin, GetStep, PutStep, DeleteStep, CompactStep, SnapshotStep, VisitStep, WriterMemo;
    if Begin(s, t, s') || GetStep(capacity, s, t, s') {
      GetMemo(capacity, s, t, s');
      NoMemoUse(s, t, PcOf(s', t));
      MemoKept(s, t, s');
    } else if PutStep(s, t, s') {
      PutMemo(s, t, s');
      WriterMemoInv(s, t, s');
    } else if DeleteStep(s, t, s') {
      DeleteMemo(s, t, s');
      WriterMemoInv(s, t, s');
    } else if CompactStep(s, t, s') {
      CompactMemoInv(s, t, s');
    } else if SnapshotStep(s, t, s') {
      SnapshotMemoInv(s, t, s');
    } else {
      VisitMemo(s, t, s');
      NoMemoUse(s, t, PcOf(s', t));
      MemoKept(s, t, s');
    }
  }

  lemma OthersDoNotMove(capacity: nat, s: State, u: Tid, s': State, t: Tid)
    requires Step(capacity, s, u, s') && u != t
    ensures PcOf(s', t) == PcOf(s, t)
  {
    hide GetStep, PutStep, DeleteStep, CompactStep, ScanStep;
    if GetStep(capacity, s, u, s') || ScanStep(s, u, s') {
      OthersOfReader(capacity, s, u, s', t);
    } else if PutStep(s, u, s') {
      OthersOfPut(s, u, s', t);
    } else if DeleteStep(s, u, s') {
      OthersOfDelete(s, u, s', t);
    } else if CompactStep(s, u, s') {
      OthersOfCompact(s, u, s', t);
    }
  }

  lemma OthersOfGet(capacity: nat, s: State, u: Tid, s': State, t: Tid)
    requires GetStep(capacity, s, u, s') && u != t
    ensures PcOf(s', t) == PcOf(s, t)
  {
    hide AreasAt, Lookup, AfterGet, AfterPut;
  }

  lemma OthersOfReader(capacity: nat, s: State, u: Tid, s': State, t: Tid)
    requires (GetStep(capacity, s, u, s') || ScanStep(s, u, s')) && u != t
    ensures PcOf(s', t) == PcOf(s, t)
  {
    hide GetStep, ScanStep;
    if GetStep(capacity, s, u, s') {
      OthersOfGet(capacity, s, u, s', t);
    } else {
      ScanMovement(s, u, s');
    }
  }

  lemma OthersOfPutAppending(s: State, u: Tid, s': State, t: Tid)
    requires PutStep(s, u, s') && PcOf(s, u).PutAppend? && u != t
    ensures PcOf(s', t) == PcOf(s, t)
  {
    hide AppendAccepts, AppendBytes, AppendedRecord, EntryOf, Without, Touch;
  }

  lemma OthersOfPutElsewhere(s: State, u: Tid, s': State, t: Tid)
    requires PutStep(s, u, s') && !PcOf(s, u).PutAppend? && u != t
    ensures PcOf(s', t) == PcOf(s, t)
  {
    hide AppendAccepts, AppendBytes, AppendedRecord, EntryOf, Without, Touch;
  }

  lemma OthersOfPut(s: State, u: Tid, s': State, t: Tid)
    requires PutStep(s, u, s') && u != t
    ensures PcOf(s', t) == PcOf(s, t)
  {
    hide PutStep, PcOf, UsesMemo;
    if PcOf(s, u).PutAppend? {
      OthersOfPutAppending(s, u, s', t);
    } else {
      OthersOfPutElsewhere(s, u, s', t);
    }
  }

  lemma OthersOfDeleteAppending(s: State, u: Tid, s': State, t: Tid)
    requires DeleteStep(s, u, s') && PcOf(s, u).DeleteAppend? && u != t
    ensures PcOf(s', t) == PcOf(s, t)
  {
    hide AppendAccepts, AppendBytes, Without, Forget, Touch;
  }

  lemma OthersOfDeleteElsewhere(s: State, u: Tid, s': State, t: Tid)
    requires DeleteStep(s, u, s') && !PcOf(s, u).DeleteAppend? && u != t
    ensures PcOf(s', t) == PcOf(s, t)
  {
    hide AppendAccepts, AppendBytes, Without, Forget, Touch;
  }

  lemma OthersOfDelete(s: State, u: Tid, s': State, t: Tid)
    requires DeleteStep(s, u, s') && u != t
    ensures PcOf(s', t) == PcOf(s, t)
  {
    hide DeleteStep, PcOf, UsesMemo;
    if PcOf(s, u).DeleteAppend? {
      OthersOfDeleteAppending(s, u, s', t);
    } else {
      OthersOfDeleteElsewhere(s, u, s', t);
    }
  }

  lemma OthersOfBuild(s: State, u: Tid, s': State, t: Tid)
    requires BuildStep(s, u, s') && u != t
    ensures PcOf(s', t) == PcOf(s, t)
  {
    hide CopiedLog, CopiedIndex, KeysByOffset, DistinctOffsets, MemoHit, Rebuilt;
  }

  lemma OthersOfSwap(s: State, u: Tid, s': State, t: Tid)
    requires SwapStep(s, u, s') && u != t
    ensures PcOf(s', t) == PcOf(s, t)
  {
    hide NewMemo;
  }

  lemma OthersOfCompact(s: State, u: Tid, s': State, t: Tid)
    requires CompactStep(s, u, s') && u != t
    ensures PcOf(s', t) == PcOf(s, t)
  {
    hide BuildStep, SwapStep;
    if BuildStep(s, u, s') {
      OthersOfBuild(s, u, s', t);
    } else {
      OthersOfSwap(s, u, s', t);
    }
  }

  // --------------------------------------------------------------- whole runs

  /** An interleaving: step i is made by goroutine who[i]. */
  ghost predicate Path(capacity: nat, run: seq<State>, who: seq<Tid>) {
    && |run| == |who| + 1
    && forall i :: 0 <= i < |who| ==> Step(capacity, run[i], who[i], run[i + 1])
  }

  /** An interleaving from the start. */
  ghost predicate Run(capacity: nat, run: seq<State>, who: seq<Tid>) {
    Path(capacity, run, who) && Init(run[0])
  }

  lemma {:induction false} PathInv(capacity: nat, run: seq<State>, who: seq<Tid>, i: nat)
    requires Path(capacity, run, who) && i < |run| && Inv(run[0]) && MemoInv(run[0])
    ensures Inv(run[i]) && MemoInv(run[i])
  {
    hide Step, Inv, MemoInv;
    if i > 0 {
      PathInv(capacity, run, who, i - 1);
      StepInv(capacity, run[i - 1], who[i - 1], run[i]);
      MemoStepInv(capacity, run[i - 1], who[i - 1], run[i]);
    }
  }

  lemma RunInv(capacity: nat, run: seq<State>, who: seq<Tid>, i: nat)
    requires Run(capacity, run, who) && i < |run|
    ensures Inv(run[i]) && MemoInv(run[i])
  {
    hide Init, Step, Inv, MemoInv;
    InitInv(run[0]);
    InitMemo(run[0]);
    PathInv(capacity, run, who, i);
  }

  /**
   Cache coherence: in every interleaving, whenever no goroutine is inside a writing call, every
   cached value is the live value of its key, and log and index agree.
   */
  lemma CacheAlwaysCoherent(capacity: nat, run: seq<State>, who: seq<Tid>, i: nat)
    requires Run(capacity, run, who) && i < |run| && run[i].writer.None?
    ensures Coherent(run[i].cache, run[i].live) && Settled(run[i])
  {
    hide Init, Step, LockInv, ThreadInv;
    RunInv(capacity, run, who, i);
  }

  /** While a goroutine holds the read lock, nobody changes the contents. */
  lemma LiveFrozen(capacity: nat, s: State, u: Tid, s': State, t: Tid)
    requires Inv(s) && Step(capacity, s, u, s') && HoldsRead(PcOf(s, t))
    ensures s'.live == s.live
  {
    hide SharedInv, ThreadInv, Settled, HoldsWrite, HoldsRead, PcOf, Step;
    ReaderSettled(s, t);
    assert s.writer != Some(u);
    if s'.live != s.live {
      OnlyWritersChange(capacity, s, u, s');
    }
  }

  /** The contents change only in a step made under the write lock. */
  lemma OnlyWritersChange(capacity: nat, s: State, u: Tid, s': State)
    requires Step(capacity, s, u, s') && s'.live != s.live
    ensures HoldsWrite(PcOf(s, u))
  {
    hide AreasAt, Lookup, AfterGet, AfterPut, KeysByOffset, DistinctOffsets, AppendAccepts, AppendBytes, AppendedRecord, CopiedLog, CopiedIndex, Rebuilt, NewMemo, Publish, Fill, FillDone, MemoHit, Without;
  }

  /**
   Linearizable reads: a Get that ends its locked interval with a result returns what was live at
   every instant of that interval: the value, or that there is none. It never fails to read.
   */
  lemma {:induction false} GetReturnsLive(capacity: nat, run: seq<State>, who: seq<Tid>, t: Tid, i: nat, j: nat, m: nat)
    requires Run(capacity, run, who) && i <= m <= j < |run|
    requires forall n :: i <= n <= j ==> HoldsRead(PcOf(run[n], t))
    requires PcOf(run[j], t).GetDone?
    ensures PcOf(run[j], t).result == Answer(run[m].live, PcOf(run[j], t).key)
  {
    hide Init, Step, HoldsRead, LockInv, SharedInv, PcOf;
    RunInv(capacity, run, who, j);
    assert ThreadInv(run[j], PcOf(run[j], t));
    FrozenBetween(capacity, run, who, t, m, j);
  }

  lemma {:induction false} FrozenBetween(capacity: nat, run: seq<State>, who: seq<Tid>, t: Tid, m: nat, j: nat)
    requires Run(capacity, run, who) && m <= j < |run|
    requires forall n :: m <= n <= j ==> HoldsRead(PcOf(run[n], t))
    ensures run[m].live == run[j].live
    decreases j - m
  {
    hide Init, Step, HoldsRead, Inv, PcOf;
    if m < j {
      FrozenBetween(capacity, run, who, t, m, j - 1);
      RunInv(capacity, run, who, j - 1);
      assert HoldsRead(PcOf(run[j - 1], t));
      LiveFrozen(capacity, run[j - 1], who[j - 1], run[j], t);
    }
  }
}

/**
 What a completed write means for the reads that come after it, in every interleaving: the last Put
 or Delete of a key that was committed decides what a Get of that key answers.
 */
module Visibility {
  import opened Bytes
  import opened Attributes
  import opened Record
  import opened Scan
  import opened LogMap
  import opened KeyOrder
  import opened Compaction
  import opened Log
  import opened Cache
  import opened Store
  import opened Concurrency
  import Runs
  import Scans

  // --------------------------------------------------------------- commits

  /** The step of `t` from `s` to `s'` puts a record of a Put of `key` into the log. */
  predicate CommitsPut(s: State, t: Tid, s': State, key: Bytes) {
    PcOf(s, t).PutAppend? && PcOf(s, t).key == key && PcOf(s', t).PutIndex?
  }

  /** The same of a Delete. */
  predicate CommitsDelete(s: State, t: Tid, s': State, key: Bytes) {
    PcOf(s, t).DeleteAppend? && PcOf(s, t).key == key && PcOf(s', t).DeleteIndex?
  }

  predicate Commits(s: State, t: Tid, s': State, key: Bytes) {
    CommitsPut(s, t, s', key) || CommitsDelete(s, t, s', key)
  }

  /** Between `i` and `j` no write of `key` is committed. */
  ghost predicate NoCommit(run: seq<State>, who: seq<Tid>, key: Bytes, i: nat, j: nat)
    requires j < |run| == |who| + 1
  {
    forall l :: i <= l < j ==> !Commits(run[l], who[l], run[l + 1], key)
  }

  /** A committed Put changes the item of its key to what was put, and no other. */
  lemma PutChanges(capacity: nat, s: State, t: Tid, s': State, key: Bytes)
    requires Step(capacity, s, t, s') && CommitsPut(s, t, s', key)
    ensures s'.live == s.live[key := Item(PcOf(s, t).value, PcOf(s, t).attributes, [])]
    ensures forall k :: k != key ==> (k in s'.live <==> k in s.live) && (k in s.live ==> s'.live[k] == s.live[k])
  {
    hide AppendAccepts, AppendBytes, AppendedRecord;
  }

  /** A committed Delete removes the item of its key, and no other. */
  lemma DeleteChanges(capacity: nat, s: State, t: Tid, s': State, key: Bytes)
    requires Step(capacity, s, t, s') && CommitsDelete(s, t, s', key)
    ensures key !in s'.live
    ensures forall k :: k != key ==> (k in s'.live <==> k in s.live) && (k in s.live ==> s'.live[k] == s.live[k])
  {
    hide AppendAccepts, AppendBytes, AppendedRecord;
  }

  lemma PutChangesNoOther(s: State, t: Tid, s': State, key: Bytes)
    requires PutStep(s, t, s') && !CommitsPut(s, t, s', key)
    ensures key in s'.live <==> key in s.live
    ensures key in s.live ==> s'.live[key] == s.live[key]
  {
    hide AppendAccepts, AppendBytes, AppendedRecord, Without;
  }

  lemma DeleteChangesNoOther(s: State, t: Tid, s': State, key: Bytes)
    requires DeleteStep(s, t, s') && !CommitsDelete(s, t, s', key)
    ensures key in s'.live <==> key in s.live
    ensures key in s.live ==> s'.live[key] == s.live[key]
  {
    hide AppendAccepts, AppendBytes, Without, Touch;
    if PcOf(s, t).DeleteAppend? {
      if s' != Goto(s, t, Release) {
        assert s'.live == Forget(s.live, PcOf(s, t).key);
      }
    } else {
      assert s'.live == s.live;
    }
  }

  lemma GetChangesNothing(capacity: nat, s: State, t: Tid, s': State)
    requires GetStep(capacity, s, t, s')
    ensures s'.live == s.live
  {
    hide AreasAt, Lookup, AfterGet, AfterPut;
  }

  lemma CompactChangesNothing(s: State, t: Tid, s': State)
    requires CompactStep(s, t, s')
    ensures s'.live == s.live
  {
    hide KeysByOffset, DistinctOffsets, CopiedLog, CopiedIndex, Rebuilt, NewMemo, MemoHit;
  }

  lemma SnapshotChangesNothing(s: State, t: Tid, s': State)
    requires SnapshotStep(s, t, s')
    ensures s'.live == s.live
  {
    hide KeysByOffset, DistinctOffsets, Publish, Fill, FillDone, CanFill;
  }

  lemma VisitChangesNothing(s: State, t: Tid, s': State)
    requires VisitStep(s, t, s')
    ensures s'.live == s.live
  {
    hide AreasAt;
  }

  lemma BeginChangesNothing(s: State, t: Tid, s': State)
    requires Begin(s, t, s')
    ensures s'.live == s.live
  {
  }

  /** No other step changes anything. */
  lemma OnlyCommitsChange(capacity: nat, s: State, t: Tid, s': State, key: Bytes)
    requires Step(capacity, s, t, s') && !Commits(s, t, s', key)
    ensures key in s'.live <==> key in s.live
    ensures key in s.live ==> s'.live[key] == s.live[key]
  {
    hide Begin, GetStep, PutStep, DeleteStep, CompactStep, SnapshotStep, VisitStep, CommitsPut, CommitsDelete;
    if PutStep(s, t, s') {
      PutChangesNoOther(s, t, s', key);
    } else if DeleteStep(s, t, s') {
      DeleteChangesNoOther(s, t, s', key);
    } else if GetStep(capacity, s, t, s') {
      GetChangesNothing(capacity, s, t, s');
    } else if CompactStep(s, t, s') {
      CompactChangesNothing(s, t, s');
    } else if SnapshotStep(s, t, s') {
      SnapshotChangesNothing(s, t, s');
    } else if VisitStep(s, t, s') {
      VisitChangesNothing(s, t, s');
    } else {
      BeginChangesNothing(s, t, s');
    }
  }

  /** Without a commit of `key` its item stays, whatever else is written, compacted, read or scanned. */
  lemma {:induction false} ItemStays(capacity: nat, run: seq<State>, who: seq<Tid>, key: Bytes, i: nat, j: nat)
    requires Path(capacity, run, who) && i <= j < |run| && NoCommit(run, who, key, i, j)
    ensures key in run[j].live <==> key in run[i].live
    ensures key in run[i].live ==> run[j].live[key] == run[i].live[key]
    decreases j - i
  {
    hide Step, Commits;
    if i < j {
      ItemStays(capacity, run, who, key, i, j - 1);
      OnlyCommitsChange(capacity, run[j - 1], who[j - 1], run[j], key);
    }
  }

  // --------------------------------------------------------------- calls

  /** From `i` to `j` goroutine `t` is inside one call. */
  ghost predicate InCall(run: seq<State>, t: Tid, i: nat, j: nat)
    requires j < |run|
  {
    forall l :: i <= l <= j ==> !PcOf(run[l], t).Idle?
  }

  predicate InGet(pc: Pc, key: Bytes) {
    (pc.GetWait? || pc.GetCheck? || pc.GetLookup? || pc.GetRead? || pc.GetFill? || pc.GetDone?) && pc.key == key
  }

  predicate InPut(pc: Pc, key: Bytes, value: Bytes, attributes: Attributes) {
    || pc == PutWait(key, value, attributes) || pc == PutAppend(key, value, attributes)
    || pc.PutIndex? || pc.PutCache? || pc.Release?
  }

  predicate InDelete(pc: Pc, key: Bytes) {
    || pc == DeleteWait(key) || pc == DeleteCheck(key) || pc == DeleteAppend(key)
    || pc.DeleteIndex? || pc.DeleteCache? || pc.Release?
  }

  lemma GetMoves(capacity: nat, s: State, t: Tid, s': State, key: Bytes)
    requires Step(capacity, s, t, s') && InGet(PcOf(s, t), key) && !PcOf(s', t).Idle?
    ensures InGet(PcOf(s', t), key) && !PcOf(s', t).GetWait?
  {
    hide AreasAt, Lookup, AfterGet, AfterPut;
  }

  lemma PutMoves(capacity: nat, s: State, t: Tid, s': State, key: Bytes, value: Bytes, attributes: Attributes)
    requires Step(capacity, s, t, s') && InPut(PcOf(s, t), key, value, attributes) && !PcOf(s', t).Idle?
    ensures InPut(PcOf(s', t), key, value, attributes)
  {
    hide AppendAccepts, AppendBytes, AppendedRecord, Without;
  }

  lemma DeleteMoves(capacity: nat, s: State, t: Tid, s': State, key: Bytes)
    requires Step(capacity, s, t, s') && InDelete(PcOf(s, t), key) && !PcOf(s', t).Idle?
    ensures InDelete(PcOf(s', t), key)
  {
    hide AppendAccepts, AppendBytes, AppendedRecord, Without;
  }

  lemma {:induction false} GetGoesOn(capacity: nat, run: seq<State>, who: seq<Tid>, t: Tid, key: Bytes, i: nat, j: nat)
    requires Path(capacity, run, who) && i <= j < |run| && InCall(run, t, i, j) && InGet(PcOf(run[i], t), key)
    ensures InGet(PcOf(run[j], t), key) && (PcOf(run[j], t).GetWait? ==> PcOf(run[i], t).GetWait?)
    decreases j - i
  {
    hide Step, InGet, PcOf;
    if i < j {
      GetGoesOn(capacity, run, who, t, key, i, j - 1);
      if who[j - 1] == t {
        GetMoves(capacity, run[j - 1], t, run[j], key);
      } else {
        OthersDoNotMove(capacity, run[j - 1], who[j - 1], run[j], t);
      }
    }
  }

  lemma {:induction false} PutGoesOn(
    capacity: nat, run: seq<State>, who: seq<Tid>, t: Tid, key: Bytes, value: Bytes, attributes: Attributes, i: nat, j: nat)
    requires Path(capacity, run, who) && i <= j < |run| && InCall(run, t, i, j)
    requires InPut(PcOf(run[i], t), key, value, attributes)
    ensures InPut(PcOf(run[j], t), key, value, attributes)
    decreases j - i
  {
    hide Step, InPut, PcOf;
    if i < j {
      PutGoesOn(capacity, run, who, t, key, value, attributes, i, j - 1);
      if who[j - 1] == t {
        PutMoves(capacity, run[j - 1], t, run[j], key, value, attributes);
      } else {
        OthersDoNotMove(capacity, run[j - 1], who[j - 1], run[j], t);
      }
    }
  }

  lemma {:induction false} DeleteGoesOn(capacity: nat, run: seq<State>, who: seq<Tid>, t: Tid, key: Bytes, i: nat, j: nat)
    requires Path(capacity, run, who) && i <= j < |run| && InCall(run, t, i, j) && InDelete(PcOf(run[i], t), key)
    ensures InDelete(PcOf(run[j], t), key)
    decreases j - i
  {
    hide Step, InDelete, PcOf;
    if i < j {
      DeleteGoesOn(capacity, run, who, t, key, i, j - 1);
      if who[j - 1] == t {
        DeleteMoves(capacity, run[j - 1], t, run[j], key);
      } else {
        OthersDoNotMove(capacity, run[j - 1], who[j - 1], run[j], t);
      }
    }
  }

  // --------------------------------------------------------------- reads after writes

  /** A call Get(key) of goroutine `u` takes the read lock in step `n` and has its answer at `j`. */
  ghost predicate Reads(run: seq<State>, who: seq<Tid>, u: Tid, key: Bytes, n: nat, j: nat)
    requires n < j < |run| == |who| + 1
  {
    PcOf(run[n], u) == GetWait(key) && who[n] == u && InCall(run, u, n, j) && PcOf(run[j], u).GetDone?
  }

  /** What the store holds of `key`: in its log, in its index, and as the item that reads go by. */
  ghost predicate Holds(s: State, key: Bytes, value: Bytes, attributes: Attributes) {
    && key in s.live && s.live[key] == Item(value, attributes, [])
    && |s.file| >= HEADER_SIZE && key in Contents(s.file, LOG_VERSION)
    && Contents(s.file, LOG_VERSION)[key] == Item(value, attributes, [])
    && key in s.entries && s.entries[key].attributes == attributes
  }

  ghost predicate HoldsNot(s: State, key: Bytes) {
    && key !in s.live && key !in s.entries
    && |s.file| >= HEADER_SIZE && key !in Contents(s.file, LOG_VERSION)
  }

  lemma SettledHolds(s: State, key: Bytes, value: Bytes, attributes: Attributes)
    requires Settled(s) && key in s.live && s.live[key] == Item(value, attributes, [])
    ensures Holds(s, key, value, attributes)
  {
    hide ScanLog, FileIndex, Coherent;
  }

  lemma SettledHoldsNot(s: State, key: Bytes)
    requires Settled(s) && key !in s.live
    ensures HoldsNot(s, key)
  {
    hide ScanLog, FileIndex, Coherent;
    assert Contents(s.file, LOG_VERSION).Keys == FileIndex(s.file, LOG_VERSION).Keys;
  }

  /** From the lock on, nothing the reader could see changes, and its answer is what was live when it locked. */
  lemma ReadAnswers(capacity: nat, run: seq<State>, who: seq<Tid>, u: Tid, key: Bytes, n: nat, j: nat)
    requires Run(capacity, run, who) && n < j < |run| && Reads(run, who, u, key, n, j)
    ensures PcOf(run[j], u) == GetDone(key, Answer(run[n].live, key))
    ensures run[j].live == run[n].live && Settled(run[j])
  {
    hide Init, Step, LockInv, SharedInv, Settled;
    GetMoves(capacity, run[n], u, run[n + 1], key);
    forall l | n + 1 <= l <= j
      ensures HoldsRead(PcOf(run[l], u))
    {
      GetGoesOn(capacity, run, who, u, key, n + 1, l);
    }
    GetGoesOn(capacity, run, who, u, key, n + 1, j);
    GetReturnsLive(capacity, run, who, u, n + 1, j, j);
    FrozenBetween(capacity, run, who, u, n + 1, j);
    RunInv(capacity, run, who, j);
    ReaderSettled(run[j], u);
    if run[n + 1].live != run[n].live {
      OnlyWritersChange(capacity, run[n], u, run[n + 1]);
      assert false;
    }
  }

  /**
   Read your writes, and everybody's: when a call Put(key, value, attributes) commits, every Get of that
   key that takes the lock before the next write of the key commits answers that value, and log and index
   hold that value with those attributes.
   */
  lemma PutIsSeen(
    capacity: nat, run: seq<State>, who: seq<Tid>, key: Bytes, value: Bytes, attributes: Attributes,
    c: nat, i: nat, u: Tid, n: nat, j: nat)
    requires Run(capacity, run, who) && c <= i < n < j < |run|
    requires PcOf(run[c], who[i]) == PutWait(key, value, attributes) && InCall(run, who[i], c, i + 1)
    requires PcOf(run[i], who[i]).PutAppend? && PcOf(run[i + 1], who[i]).PutIndex?
    requires NoCommit(run, who, key, i + 1, n)
    requires Reads(run, who, u, key, n, j)
    ensures PcOf(run[j], u) == GetDone(key, Value(value)) && Holds(run[j], key, value, attributes)
  {
    hide Init, Step, Settled, Reads, Holds;
    PutGoesOn(capacity, run, who, who[i], key, value, attributes, c, i);
    PutChanges(capacity, run[i], who[i], run[i + 1], key);
    ItemStays(capacity, run, who, key, i + 1, n);
    ReadAnswers(capacity, run, who, u, key, n, j);
    SettledHolds(run[j], key, value, attributes);
  }

  /** A full scan that reads the key before the next write of it commits reads that value too. */
  lemma PutIsScanned(
    capacity: nat, run: seq<State>, who: seq<Tid>, key: Bytes, value: Bytes, attributes: Attributes,
    c: nat, i: nat, u: Tid, j: nat)
    requires Run(capacity, run, who) && c <= i < j < |run|
    requires PcOf(run[c], who[i]) == PutWait(key, value, attributes) && InCall(run, who[i], c, i + 1)
    requires PcOf(run[i], who[i]).PutAppend? && PcOf(run[i + 1], who[i]).PutIndex?
    requires NoCommit(run, who, key, i + 1, j)
    requires var pc := PcOf(run[j], u); pc.ScanGot? && pc.i < |pc.keys| && pc.keys[pc.i] == key
    ensures PcOf(run[j], u).value == value
  {
    hide Init, Step, LockInv, SharedInv;
    PutGoesOn(capacity, run, who, who[i], key, value, attributes, c, i);
    PutChanges(capacity, run[i], who[i], run[i + 1], key);
    ItemStays(capacity, run, who, key, i + 1, j);
    RunInv(capacity, run, who, j);
    assert ThreadInv(run[j], PcOf(run[j], u));
  }

  /** The same of a Delete: every Get that comes before the next write of the key finds nothing. */
  lemma DeleteIsSeen(
    capacity: nat, run: seq<State>, who: seq<Tid>, key: Bytes, c: nat, i: nat, u: Tid, n: nat, j: nat)
    requires Run(capacity, run, who) && c <= i < n < j < |run|
    requires PcOf(run[c], who[i]) == DeleteWait(key) && InCall(run, who[i], c, i + 1)
    requires PcOf(run[i], who[i]).DeleteAppend? && PcOf(run[i + 1], who[i]).DeleteIndex?
    requires NoCommit(run, who, key, i + 1, n)
    requires Reads(run, who, u, key, n, j)
    ensures PcOf(run[j], u) == GetDone(key, Missing) && HoldsNot(run[j], key)
  {
    hide Init, Step, Settled, Reads, HoldsNot;
    DeleteGoesOn(capacity, run, who, who[i], key, c, i);
    DeleteChanges(capacity, run[i], who[i], run[i + 1], key);
    ItemStays(capacity, run, who, key, i + 1, n);
    ReadAnswers(capacity, run, who, u, key, n, j);
    SettledHoldsNot(run[j], key);
  }

  /** A key that nobody has written is read as the store was opened with it. */
  lemma UnwrittenIsSeen(capacity: nat, run: seq<State>, who: seq<Tid>, key: Bytes, u: Tid, n: nat, j: nat)
    requires Run(capacity, run, who) && n < j < |run|
    requires NoCommit(run, who, key, 0, n) && Reads(run, who, u, key, n, j)
    ensures PcOf(run[j], u) == GetDone(key, if key in run[0].live then Value(run[0].live[key].value) else Missing)
  {
    hide Init, Step, Settled, Reads;
    ItemStays(capacity, run, who, key, 0, n);
    ReadAnswers(capacity, run, who, u, key, n, j);
  }

  lemma CheckMoves(capacity: nat, s: State, t: Tid, s': State, key: Bytes)
    requires Step(capacity, s, t, s') && PcOf(s, t) == DeleteCheck(key)
    ensures PcOf(s', t) == (if key in s.entries then DeleteAppend(key) else Release)
  {
  }

  lemma SettledKeys(s: State, key: Bytes)
    requires Settled(s)
    ensures |s.file| >= HEADER_SIZE && s.entries == FileIndex(s.file, LOG_VERSION)
    ensures key in s.entries <==> key in s.live
  {
    hide ScanLog, FileIndex, Coherent;
    assert Contents(s.file, LOG_VERSION).Keys == FileIndex(s.file, LOG_VERSION).Keys;
  }

  /** A call Delete(key) goes on to write exactly when the key is live, and then its record is accepted. */
  lemma DeleteProceedsIff(capacity: nat, run: seq<State>, who: seq<Tid>, i: nat, key: Bytes)
    requires Run(capacity, run, who) && i < |who| && PcOf(run[i], who[i]) == DeleteCheck(key)
    ensures PcOf(run[i + 1], who[i]) == (if key in run[i].live then DeleteAppend(key) else Release)
    ensures key in run[i].live ==> AppendAccepts(key, [], map[], [])
  {
    hide Init, Step, Inv, Settled, FileIndex, AppendAccepts;
    RunInv(capacity, run, who, i);
    WriterKnows(run[i], who[i]);
    CheckMoves(capacity, run[i], who[i], run[i + 1], key);
    SettledKeys(run[i], key);
    if key in run[i].live {
      Runs.TombstoneAccepted(run[i].file, LOG_VERSION, key);
    }
  }

  // --------------------------------------------------------------- compaction

  predicate InCompact(pc: Pc) {
    pc.CompactBuild? || pc.CompactLog? || pc.CompactIndex? || pc.CompactClear?
  }

  /** How far a compaction at `pc` has got, in which the log `before` is to become `after`. */
  ghost predicate Compacts(s: State, pc: Pc, before: Bytes, after: Bytes)
    requires |after| >= HEADER_SIZE
  {
    match pc
    case CompactBuild(_) => s.file == before
    case CompactLog(newFile, newEntries) => newFile == after && newEntries == FileIndex(after, LOG_VERSION)
    case CompactIndex(newEntries) => s.file == after && newEntries == FileIndex(after, LOG_VERSION)
    case CompactClear => s.file == after && s.entries == FileIndex(after, LOG_VERSION)
    case _ => false
  }

  lemma CompactAdvances(capacity: nat, s: State, t: Tid, s': State, before: Bytes, after: Bytes)
    requires Step(capacity, s, t, s') && |after| >= HEADER_SIZE
    requires Compacts(s, PcOf(s, t), before, after) && InCompact(PcOf(s', t))
    requires PcOf(s, t).CompactBuild? ==> |s.file| >= HEADER_SIZE && CopiedLog(s.file, PcOf(s, t).keys) == after
    ensures Compacts(s', PcOf(s', t), before, after)
  {
    hide CopiedLog, FileIndex, NewMemo;
  }

  lemma ReadersKeepFile(capacity: nat, s: State, u: Tid, s': State)
    requires GetStep(capacity, s, u, s') || SnapshotStep(s, u, s') || VisitStep(s, u, s') || Begin(s, u, s')
    ensures s'.file == s.file && s'.entries == s.entries
  {
    hide AreasAt, Lookup, AfterGet, AfterPut, KeysByOffset, DistinctOffsets, Publish, Fill, FillDone, CanFill;
  }

  lemma WritersHoldWrite(s: State, u: Tid, s': State)
    requires PutStep(s, u, s') || DeleteStep(s, u, s') || CompactStep(s, u, s')
    requires s'.file != s.file || s'.entries != s.entries
    ensures HoldsWrite(PcOf(s, u))
  {
    hide KeysByOffset, DistinctOffsets, AppendAccepts, AppendBytes, AppendedRecord, CopiedLog, CopiedIndex, Rebuilt, NewMemo, MemoHit, Without, Touch;
  }

  lemma OnlyWritersChangeFiles(capacity: nat, s: State, u: Tid, s': State)
    requires Step(capacity, s, u, s') && (s'.file != s.file || s'.entries != s.entries)
    ensures HoldsWrite(PcOf(s, u))
  {
    hide Begin, GetStep, PutStep, DeleteStep, CompactStep, SnapshotStep, VisitStep, HoldsWrite, PcOf;
    if PutStep(s, u, s') || DeleteStep(s, u, s') || CompactStep(s, u, s') {
      WritersHoldWrite(s, u, s');
    } else {
      ReadersKeepFile(capacity, s, u, s');
    }
  }

  lemma OthersKeepFile(capacity: nat, s: State, u: Tid, s': State, t: Tid)
    requires Inv(s) && Step(capacity, s, u, s') && HoldsWrite(PcOf(s, t)) && u != t
    ensures s'.file == s.file && s'.entries == s.entries
  {
    hide SharedInv, ThreadInv, HoldsWrite, HoldsRead, PcOf, Step;
    if s'.file != s.file || s'.entries != s.entries {
      OnlyWritersChangeFiles(capacity, s, u, s');
      assert false;
    }
  }

  lemma CompactsSame(s: State, s': State, pc: Pc, before: Bytes, after: Bytes)
    requires |after| >= HEADER_SIZE && Compacts(s, pc, before, after) && s'.file == s.file && s'.entries == s.entries
    ensures Compacts(s', pc, before, after)
  {
    hide FileIndex;
  }

  lemma CompactsHoldsWrite(s: State, pc: Pc, before: Bytes, after: Bytes)
    requires |after| >= HEADER_SIZE && Compacts(s, pc, before, after)
    ensures HoldsWrite(pc)
  {
    hide FileIndex;
  }

  lemma AnyoneAdvances(capacity: nat, s: State, u: Tid, s': State, t: Tid, before: Bytes, after: Bytes)
    requires Inv(s) && Step(capacity, s, u, s') && |after| >= HEADER_SIZE
    requires Compacts(s, PcOf(s, t), before, after) && InCompact(PcOf(s', t))
    requires PcOf(s, t).CompactBuild? ==> |s.file| >= HEADER_SIZE && CopiedLog(s.file, PcOf(s, t).keys) == after
    ensures Compacts(s', PcOf(s', t), before, after)
  {
    hide Step, Inv, Compacts, CopiedLog, PcOf, InCompact, HoldsWrite;
    if u == t {
      CompactAdvances(capacity, s, t, s', before, after);
    } else {
      CompactsHoldsWrite(s, PcOf(s, t), before, after);
      OthersDoNotMove(capacity, s, u, s', t);
      OthersKeepFile(capacity, s, u, s', t);
      CompactsSame(s, s', PcOf(s, t), before, after);
    }
  }

  lemma {:induction false} CompactGoesOn(capacity: nat, run: seq<State>, who: seq<Tid>, t: Tid, i: nat, j: nat)
    requires Run(capacity, run, who) && i <= j < |run| && PcOf(run[i], t).CompactBuild?
    requires forall l :: i <= l <= j ==> InCompact(PcOf(run[l], t))
    ensures |run[i].file| >= HEADER_SIZE && |CompactFile(run[i].file, LOG_VERSION)| >= HEADER_SIZE
    ensures Compacts(run[j], PcOf(run[j], t), run[i].file, CompactFile(run[i].file, LOG_VERSION))
    decreases j - i
  {
    hide Init, Step, Inv, CompactFile, CopiedLog, FileIndex, Contents, ScanLog, TotalSize, EMPTY_LOG, InCompact, PcOf, IsOffsetOrder;
    Scans.CompactionGoesByFileOrder(capacity, run, who, i, t);
    CompactedSize(run[i].file);
    if i < j {
      CompactGoesOn(capacity, run, who, t, i, j - 1);
      RunInv(capacity, run, who, j - 1);
      if PcOf(run[j - 1], t).CompactBuild? {
        Scans.CompactionGoesByFileOrder(capacity, run, who, j - 1, t);
      }
      AnyoneAdvances(capacity, run[j - 1], who[j - 1], run[j], t, run[i].file, CompactFile(run[i].file, LOG_VERSION));
    }
  }

  lemma CompactedSize(file: Bytes)
    requires |file| >= HEADER_SIZE
    ensures |CompactFile(file, LOG_VERSION)| >= HEADER_SIZE
  {
    hide ScanLog, FileIndex, CompactFile, Contents, TotalSize, EMPTY_LOG, LiveKeys;
    CompactionPreserves(file, LOG_VERSION);
  }

  /**
   A compaction that has replaced log and index has replaced them by exactly the compacted form of the log
   it found, whatever other goroutines were doing.
   */
  lemma CompactionTakesEffect(capacity: nat, run: seq<State>, who: seq<Tid>, t: Tid, i: nat, j: nat)
    requires Run(capacity, run, who) && i <= j < |run| && PcOf(run[i], t).CompactBuild?
    requires (forall l :: i <= l <= j ==> InCompact(PcOf(run[l], t))) && PcOf(run[j], t).CompactClear?
    ensures |run[i].file| >= HEADER_SIZE && |run[j].file| >= HEADER_SIZE
    ensures run[j].file == CompactFile(run[i].file, LOG_VERSION) && run[j].entries == FileIndex(run[j].file, LOG_VERSION)
  {
    hide Run, CompactFile, FileIndex;
    CompactGoesOn(capacity, run, who, t, i, j);
  }
}

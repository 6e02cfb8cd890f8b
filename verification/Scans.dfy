/**
 Full scans by several goroutines. A scan first takes a snapshot of the keys in file order, from a
 memo that scans share and write under the read lock only, and then visits its keys one by one.
 */
module Scans {
  import opened Bytes
  import opened Order
  import opened Attributes
  import opened Record
  import opened Scan
  import opened LogMap
  import opened KeyOrder
  import opened Compaction
  import opened Log
  import opened Cache
  import opened Store
  import opened Concurrency

  // --------------------------------------------------------------- visiting the snapshot

  /** The goroutine is inside a ForEach whose snapshot was `keys`. */
  predicate InScan(pc: Pc, keys: seq<Bytes>) {
    (pc.ScanSnapshot? || pc.ScanNext? || pc.ScanLookup? || pc.ScanSkip? || pc.ScanRead? || pc.ScanGot?) && pc.keys == keys
  }

  function Visited(pc: Pc): nat {
    if pc.ScanNext? || pc.ScanLookup? || pc.ScanSkip? || pc.ScanRead? || pc.ScanGot? then pc.i else 0
  }

  function Delivered(pc: Pc): seq<Cached> {
    if pc.ScanNext? || pc.ScanLookup? || pc.ScanSkip? || pc.ScanRead? || pc.ScanGot? then pc.delivered else []
  }

  /** How a scan advances: it visits a key by delivering it or by skipping it. */
  ghost predicate ScanMoves(keys: seq<Bytes>, pc: Pc, pc': Pc) {
    || (Visited(pc') == Visited(pc) && Delivered(pc') == Delivered(pc))
    || (pc.ScanSkip? && Visited(pc') == Visited(pc) + 1 && Delivered(pc') == Delivered(pc))
    || (pc.ScanGot? && pc.i < |keys| && Visited(pc') == Visited(pc) + 1
        && Delivered(pc') == Delivered(pc) + [Cached(keys[pc.i], pc.value)])
  }

  lemma ScanAdvance(capacity: nat, s: State, u: Tid, s': State, t: Tid, keys: seq<Bytes>)
    requires Step(capacity, s, u, s') && InScan(PcOf(s, t), keys) && InScan(PcOf(s', t), keys)
    ensures ScanMoves(keys, PcOf(s, t), PcOf(s', t))
  {
    hide Step, PcOf;
    if u == t {
      OwnStep(capacity, s, t, s', keys);
      ScanOwnMove(s, t, s', keys);
    } else {
      OthersDoNotMove(capacity, s, u, s', t);
    }
  }

  lemma OwnStep(capacity: nat, s: State, t: Tid, s': State, keys: seq<Bytes>)
    requires Step(capacity, s, t, s') && InScan(PcOf(s, t), keys)
    ensures VisitStep(s, t, s')
  {
    hide SnapshotStep, VisitStep, AreasAt, Lookup, AfterGet, AfterPut, AppendAccepts, AppendBytes, AppendedRecord, CopiedLog, CopiedIndex, Rebuilt, NewMemo, MemoHit, Touch, Without, Forget, PcOf;
    if SnapshotStep(s, t, s') {
      SnapshotLocks(s, t, s');
    }
  }

  lemma ScanOwnMove(s: State, t: Tid, s': State, keys: seq<Bytes>)
    requires VisitStep(s, t, s') && InScan(PcOf(s, t), keys) && InScan(PcOf(s', t), keys)
    ensures ScanMoves(keys, PcOf(s, t), PcOf(s', t))
  {
    hide AreasAt;
  }

  /** Whatever its snapshot was, a scan delivers keys of it only, and none twice unless the snapshot repeats it. */
  lemma NoKeyTwice(capacity: nat, run: seq<State>, who: seq<Tid>, j: nat, t: Tid)
    requires Run(capacity, run, who) && j < |run| && PcOf(run[j], t).ScanNext?
    ensures var ScanNext(keys, i, delivered) := PcOf(run[j], t);
      (forall d :: d in delivered ==> d.key in keys) && (NoRepeats(keys) ==> KeysDiffer(delivered))
  {
    hide Init, Step, LockInv, SharedInv, PcOf, MemoInv, NoRepeats, KeysDiffer;
    RunInv(capacity, run, who, j);
    assert ThreadInv(run[j], PcOf(run[j], t));
  }

  /**
   Every pair a scan delivered was live at the instant of its read: the goroutine had just read the
   key's record and still held the read lock.
   */
  lemma {:induction false} DeliveredWasLive(
    capacity: nat, run: seq<State>, who: seq<Tid>, t: Tid, keys: seq<Bytes>, a: nat, j: nat, d: Cached)
    returns (m: nat)
    requires Run(capacity, run, who) && a <= j < |run| && PcOf(run[a], t) == ScanSnapshot(keys)
    requires forall n :: a <= n <= j ==> InScan(PcOf(run[n], t), keys)
    requires d in Delivered(PcOf(run[j], t))
    ensures a <= m < j && Answer(run[m].live, d.key) == Value(d.value)
    ensures var pc := PcOf(run[m], t);
      pc.ScanGot? && HoldsRead(pc) && pc.i < |keys| && d == Cached(keys[pc.i], pc.value)
    decreases j - a
  {
    hide Init, Step, LockInv, SharedInv, PcOf, ScanInv, MemoInv;
    assert j > a;
    assert InScan(PcOf(run[j - 1], t), keys);
    ScanAdvance(capacity, run[j - 1], who[j - 1], run[j], t, keys);
    if d in Delivered(PcOf(run[j - 1], t)) {
      m := DeliveredWasLive(capacity, run, who, t, keys, a, j - 1, d);
    } else {
      m := j - 1;
      RunInv(capacity, run, who, m);
      assert ThreadInv(run[m], PcOf(run[m], t));
    }
  }

  /** A key that stays live is delivered as soon as the scan has passed it. */
  lemma {:induction false} VisitedMeansDelivered(
    capacity: nat, run: seq<State>, who: seq<Tid>, t: Tid, keys: seq<Bytes>, a: nat, j: nat, k: Bytes, n: nat)
    requires Run(capacity, run, who) && a <= j < |run| && PcOf(run[a], t) == ScanSnapshot(keys)
    requires forall m :: a <= m <= j ==> InScan(PcOf(run[m], t), keys) && k in run[m].live
    requires n < Visited(PcOf(run[j], t)) && n < |keys| && keys[n] == k
    ensures Holds(Delivered(PcOf(run[j], t)), k)
    decreases j - a
  {
    hide Init, Step, LockInv, SharedInv, PcOf, ScanInv, MemoInv;
    assert j > a;
    assert InScan(PcOf(run[j - 1], t), keys);
    var pc, pc' := PcOf(run[j - 1], t), PcOf(run[j], t);
    ScanAdvance(capacity, run[j - 1], who[j - 1], run[j], t, keys);
    RunInv(capacity, run, who, j - 1);
    assert ThreadInv(run[j - 1], pc);
    if n < Visited(pc) {
      VisitedMeansDelivered(capacity, run, who, t, keys, a, j - 1, k, n);
      var i :| 0 <= i < |Delivered(pc)| && Delivered(pc)[i].key == k;
      assert Delivered(pc')[i].key == k;
    } else {
      assert pc.ScanGot? ==> Delivered(pc')[|Delivered(pc)|].key == k;
    }
  }

  /** A finished scan has delivered a key that was live throughout if and only if the key is in its snapshot. */
  lemma ScanIsComplete(capacity: nat, run: seq<State>, who: seq<Tid>, t: Tid, keys: seq<Bytes>, a: nat, j: nat, k: Bytes)
    requires Run(capacity, run, who) && a <= j < |run| && PcOf(run[a], t) == ScanSnapshot(keys)
    requires forall m :: a <= m <= j ==> InScan(PcOf(run[m], t), keys) && k in run[m].live
    requires PcOf(run[j], t).ScanNext? && PcOf(run[j], t).i == |keys|
    ensures Holds(PcOf(run[j], t).delivered, k) <==> k in keys
  {
    hide Init, Step, PcOf, NoRepeats, KeysDiffer;
    NoKeyTwice(capacity, run, who, j, t);
    if k in keys {
      var n :| 0 <= n < |keys| && keys[n] == k;
      VisitedMeansDelivered(capacity, run, who, t, keys, a, j, k, n);
    }
  }

  // --------------------------------------------------------------- the snapshot

  /** The goroutine's next read of the memo takes a place that was written, or that is for the empty key. */
  ghost predicate ReadsInTime(s: State, t: Tid, order: seq<Bytes>) {
    var pc := PcOf(s, t);
    pc.ScanCopy? && pc.slot < |s.memo.filled| && |pc.copied| < |order| ==>
      |pc.copied| in s.memo.filled[pc.slot] || order[|pc.copied|] == []
  }

  /** While a goroutine holds the read lock, nobody changes the index. */
  lemma IndexFrozen(capacity: nat, s: State, u: Tid, s': State, t: Tid)
    requires Inv(s) && Step(capacity, s, u, s') && HoldsRead(PcOf(s, t))
    ensures s'.entries == s.entries
  {
    hide SharedInv, ThreadInv, Settled, HoldsWrite, HoldsRead, PcOf, Step;
    ReaderSettled(s, t);
    assert s.writer != Some(u);
    if s'.entries != s.entries {
      OnlyWritersIndex(capacity, s, u, s');
    }
  }

  lemma OnlyWritersIndex(capacity: nat, s: State, u: Tid, s': State)
    requires Step(capacity, s, u, s') && s'.entries != s.entries
    ensures HoldsWrite(PcOf(s, u))
  {
    hide PcOf, HoldsWrite, Begin, GetStep, PutStep, DeleteStep, BuildStep, SwapStep, SnapshotStep, VisitStep;
    if Begin(s, u, s') || GetStep(capacity, s, u, s') {
      GetMemo(capacity, s, u, s');
    } else if PutStep(s, u, s') {
      PutMemo(s, u, s');
    } else if DeleteStep(s, u, s') {
      DeleteMemo(s, u, s');
    } else if BuildStep(s, u, s') {
      BuildMemo(s, u, s');
    } else if SwapStep(s, u, s') {
      SwapMemo(s, u, s');
    } else if SnapshotStep(s, u, s') {
      SnapshotFrame(s, u, s');
    } else {
      VisitMemo(s, u, s');
    }
  }

  /** What one step of another goroutine, or of this one, does to a copy in progress. */
  lemma CopyStep(capacity: nat, s: State, u: Tid, s': State, t: Tid, order: seq<Bytes>)
    requires Inv(s) && MemoInv(s) && Step(capacity, s, u, s') && PcOf(s, t).ScanCopy? && IsOffsetOrder(s.entries, order)
    ensures s'.entries == s.entries
    ensures |PcOf(s, t).copied| <= |order|
    ensures u != t ==> PcOf(s', t) == PcOf(s, t)
    ensures u == t && |PcOf(s, t).copied| == |order| ==> PcOf(s', t) == ScanSnapshot(PcOf(s, t).copied)
    ensures u == t && |PcOf(s, t).copied| < |order| ==>
      var slot, copied := PcOf(s, t).slot, PcOf(s, t).copied;
      && PcOf(s', t).ScanCopy? && PcOf(s', t).slot == slot && slot < |s.memo.filled|
      && PcOf(s', t).copied == copied + [if |copied| in s.memo.filled[slot] then order[|copied|] else []]
  {
    hide Inv, Step, SnapshotStep, PcOf, IsOffsetOrder, HoldsRead;
    IndexFrozen(capacity, s, u, s', t) by { CopyReads(PcOf(s, t)); }
    assert MemoUse(s.memo, t, PcOf(s, t));
    OffsetOrderUnique(s.entries, s.memo.order.value, order);
    if u == t {
      OwnCopy(capacity, s, t, s');
      CopyMove(s, t, s');
    } else {
      OthersDoNotMove(capacity, s, u, s', t);
    }
  }

  lemma CopyReads(pc: Pc)
    requires pc.ScanCopy?
    ensures HoldsRead(pc)
  {
  }

  lemma OwnCopy(capacity: nat, s: State, t: Tid, s': State)
    requires Step(capacity, s, t, s') && PcOf(s, t).ScanCopy?
    ensures SnapshotStep(s, t, s')
  {
    hide SnapshotStep, VisitStep, AreasAt, Lookup, AfterGet, AfterPut, AppendAccepts, AppendBytes, AppendedRecord, CopiedLog, CopiedIndex, Rebuilt, NewMemo, MemoHit, Touch, Without, Forget, PcOf;
    if VisitStep(s, t, s') {
      VisitPlaces(s, t, s');
    }
  }

  lemma CopyMove(s: State, t: Tid, s': State)
    requires SnapshotStep(s, t, s') && PcOf(s, t).ScanCopy?
    ensures var slot, copied := PcOf(s, t).slot, PcOf(s, t).copied;
      && slot < |s.memo.arrays|
      && PcOf(s', t) == if |copied| < |s.memo.arrays[slot]| then ScanCopy(slot, copied + [s.memo.arrays[slot][|copied|]])
                        else ScanSnapshot(copied)
  {
  }

  /** What has been copied is right so far if and only if every read so far was in time. */
  lemma {:induction false} CopiedSoFar(
    capacity: nat, run: seq<State>, who: seq<Tid>, t: Tid, c: nat, n: nat, order: seq<Bytes>)
    requires Run(capacity, run, who) && c <= n < |run|
    requires forall m :: c <= m <= n ==> PcOf(run[m], t).ScanCopy?
    requires PcOf(run[c], t).copied == [] && IsOffsetOrder(run[c].entries, order)
    ensures run[n].entries == run[c].entries && |PcOf(run[n], t).copied| <= |order|
    ensures PcOf(run[n], t).copied == order[..|PcOf(run[n], t).copied|] <==>
      forall m :: c <= m < n && who[m] == t ==> ReadsInTime(run[m], t, order)
    decreases n - c
  {
    hide Init, Step, PcOf, Inv, MemoInv, IsOffsetOrder;
    if n == c {
      RunInv(capacity, run, who, c);
    } else {
      CopiedSoFar(capacity, run, who, t, c, n - 1, order);
      RunInv(capacity, run, who, n - 1);
      var before, after := PcOf(run[n - 1], t).copied, PcOf(run[n], t).copied;
      assert PcOf(run[n - 1], t).ScanCopy? && PcOf(run[n], t).ScanCopy?;
      CopyStep(capacity, run[n - 1], who[n - 1], run[n], t, order);
      if who[n - 1] == t {
        assert after[..|before|] == before;
        if after == order[..|after|] {
          assert before == order[..|before|];
          assert after[|before|] == order[|before|];
        } else if before == order[..|before|] {
          assert order[..|after|] == order[..|before|] + [order[|before|]];
        }
      }
    }
  }

  /**
   The snapshot of a scan is the file order of the index if and only if every place of the memo was
   written, or is for the empty key, by the time this scan read it.
   */
  lemma SnapshotExactIff(
    capacity: nat, run: seq<State>, who: seq<Tid>, t: Tid, c: nat, a: nat, keys: seq<Bytes>, order: seq<Bytes>)
    requires Run(capacity, run, who) && c < a < |run|
    requires (forall m :: c <= m < a ==> PcOf(run[m], t).ScanCopy?) && PcOf(run[a], t) == ScanSnapshot(keys)
    requires PcOf(run[c], t).copied == [] && IsOffsetOrder(run[c].entries, order)
    ensures run[a].entries == run[c].entries
    ensures keys == order <==> forall m :: c <= m < a && who[m] == t ==> ReadsInTime(run[m], t, order)
  {
    hide Init, Step, PcOf, Inv, MemoInv, IsOffsetOrder;
    CopiedSoFar(capacity, run, who, t, c, a - 1, order);
    RunInv(capacity, run, who, a - 1);
    assert PcOf(run[a - 1], t).ScanCopy?;
    CopyStep(capacity, run[a - 1], who[a - 1], run[a], t, order);
    assert order[..|order|] == order;
  }

  /** A place once written stays written, and arrays stay where they are. */
  ghost predicate Grows(m: Memo, m': Memo) {
    |m.filled| <= |m'.filled| && forall slot :: 0 <= slot < |m.filled| ==> m.filled[slot] <= m'.filled[slot]
  }

  lemma SnapshotGrows(s: State, t: Tid, s': State)
    requires SnapshotStep(s, t, s')
    ensures Grows(s.memo, s'.memo)
  {
    hide KeysByOffset, DistinctOffsets;
  }

  lemma StepGrows(capacity: nat, s: State, u: Tid, s': State)
    requires Step(capacity, s, u, s')
    ensures Grows(s.memo, s'.memo)
  {
    hide PcOf, HoldsWrite, Begin, GetStep, PutStep, DeleteStep, BuildStep, SwapStep, SnapshotStep, VisitStep, KeysByOffset, DistinctOffsets, UsesMemo;
    if Begin(s, u, s') || GetStep(capacity, s, u, s') {
      GetMemo(capacity, s, u, s');
    } else if PutStep(s, u, s') {
      PutMemo(s, u, s');
    } else if DeleteStep(s, u, s') {
      DeleteMemo(s, u, s');
    } else if BuildStep(s, u, s') {
      BuildMemo(s, u, s');
    } else if SwapStep(s, u, s') {
      SwapMemo(s, u, s');
    } else if SnapshotStep(s, u, s') {
      SnapshotGrows(s, u, s');
    } else {
      VisitMemo(s, u, s');
    }
  }

  lemma {:induction false} RunGrows(capacity: nat, run: seq<State>, who: seq<Tid>, i: nat, j: nat)
    requires Run(capacity, run, who) && i <= j < |run|
    ensures Grows(run[i].memo, run[j].memo)
    decreases j - i
  {
    hide Init, Step;
    if i < j {
      RunGrows(capacity, run, who, i, j - 1);
      StepGrows(capacity, run[j - 1], who[j - 1], run[j]);
    }
  }

  /** A scan that reads the memo's header while its maker is not filling it gets the file order. */
  lemma QuietSnapshotExact(
    capacity: nat, run: seq<State>, who: seq<Tid>, t: Tid, h: nat, a: nat, keys: seq<Bytes>)
    requires Run(capacity, run, who) && h + 1 < a < |run| && PcOf(run[h], t).ScanHeader? && who[h] == t
    requires (forall m :: h < m < a ==> PcOf(run[m], t).ScanCopy?) && PcOf(run[a], t) == ScanSnapshot(keys)
    requires run[h].memo.filler.None?
    ensures IsOffsetOrder(run[a].entries, keys)
  {
    hide Init, Step, PcOf, Inv, IsOffsetOrder, Grows, ReadsInTime, Shaped;
    RunInv(capacity, run, who, h);
    assert MemoUse(run[h].memo, t, PcOf(run[h], t));
    var order := run[h].memo.order.value;
    HeaderMove(capacity, run[h], t, run[h + 1]);
    forall m | h + 1 <= m < a && who[m] == t
      ensures ReadsInTime(run[m], t, order)
    {
      RunGrows(capacity, run, who, h, m);
      SlotStays(capacity, run, who, t, h + 1, m);
      FullInTime(run[h], run[m], t, order);
    }
    SnapshotExactIff(capacity, run, who, t, h + 1, a, keys, order);
  }

  lemma FullInTime(s: State, s': State, t: Tid, order: seq<Bytes>)
    requires s.memo.current < |s.memo.filled| && Full(s.memo, order) && Grows(s.memo, s'.memo)
    requires PcOf(s', t).ScanCopy? && PcOf(s', t).slot == s.memo.current
    ensures ReadsInTime(s', t, order)
  {
    hide PcOf;
  }

  lemma HeaderMove(capacity: nat, s: State, t: Tid, s': State)
    requires Step(capacity, s, t, s') && PcOf(s, t).ScanHeader?
    ensures PcOf(s', t) == ScanCopy(s.memo.current, []) && s'.entries == s.entries
  {
    OwnSnapshot(capacity, s, t, s');
    hide Step;
  }

  lemma OwnSnapshot(capacity: nat, s: State, t: Tid, s': State)
    requires Step(capacity, s, t, s') && TakesSnapshot(PcOf(s, t))
    ensures SnapshotStep(s, t, s')
  {
    hide SnapshotStep, VisitStep, AreasAt, Lookup, AfterGet, AfterPut, AppendAccepts, AppendBytes, AppendedRecord, CopiedLog, CopiedIndex, Rebuilt, NewMemo, MemoHit, Touch, Without, Forget, PcOf;
    if VisitStep(s, t, s') {
      VisitPlaces(s, t, s');
    }
  }

  /** A copy in progress stays with its array. */
  lemma {:induction false} SlotStays(capacity: nat, run: seq<State>, who: seq<Tid>, t: Tid, c: nat, n: nat)
    requires Run(capacity, run, who) && c <= n < |run| && forall m :: c <= m <= n ==> PcOf(run[m], t).ScanCopy?
    ensures PcOf(run[n], t).slot == PcOf(run[c], t).slot
    decreases n - c
  {
    hide Init, Step, PcOf, SnapshotStep;
    if c < n {
      SlotStays(capacity, run, who, t, c, n - 1);
      assert PcOf(run[n - 1], t).ScanCopy? && PcOf(run[n], t).ScanCopy?;
      if who[n - 1] == t {
        OwnCopy(capacity, run[n - 1], t, run[n]);
        CopyMove(run[n - 1], t, run[n]);
      } else {
        OthersDoNotMove(capacity, run[n - 1], who[n - 1], run[n], t);
      }
    }
  }

  // --------------------------------------------------------------- nobody else makes a new memo

  /** A step of another goroutine that makes no new memo takes the filler's place from nobody but itself. */
  lemma OthersFiller(capacity: nat, s: State, u: Tid, s': State, t: Tid)
    requires Inv(s) && Step(capacity, s, u, s') && u != t && HoldsRead(PcOf(s, t)) && !PcOf(s, u).ScanPublish?
    ensures s'.memo.filler == s.memo.filler || (s.memo.filler == Some(u) && s'.memo.filler.None?)
  {
    hide Inv, PcOf, HoldsWrite, HoldsRead, Begin, GetStep, PutStep, DeleteStep, BuildStep, SwapStep, SnapshotStep, VisitStep, KeysByOffset, DistinctOffsets, UsesMemo;
    assert !HoldsWrite(PcOf(s, u)) by { OneWriter(s, t, u); }
    if Begin(s, u, s') || GetStep(capacity, s, u, s') {
      GetMemo(capacity, s, u, s');
    } else if PutStep(s, u, s') {
      PutMemo(s, u, s');
    } else if DeleteStep(s, u, s') {
      DeleteMemo(s, u, s');
    } else if BuildStep(s, u, s') {
      BuildMemo(s, u, s');
    } else if SwapStep(s, u, s') {
      SwapMemo(s, u, s');
    } else if SnapshotStep(s, u, s') {
      SnapshotFiller(s, u, s');
    } else {
      VisitMemo(s, u, s');
    }
  }

  lemma OneWriter(s: State, t: Tid, u: Tid)
    requires Inv(s) && HoldsRead(PcOf(s, t))
    ensures !HoldsWrite(PcOf(s, u))
  {
    hide SharedInv, ThreadInv, Settled, HoldsWrite, HoldsRead, PcOf;
    ReaderSettled(s, t);
  }

  lemma SnapshotFiller(s: State, t: Tid, s': State)
    requires SnapshotStep(s, t, s') && !PcOf(s, t).ScanPublish?
    ensures s'.memo.filler == s.memo.filler || (s.memo.filler == Some(t) && s'.memo.filler.None?)
    ensures PcOf(s, t).ScanFill? && PcOf(s', t).ScanFill? ==> s'.memo.filler == s.memo.filler
    ensures PcOf(s, t).ScanFill? && !PcOf(s', t).ScanFill? ==> PcOf(s', t).ScanClear? && s'.memo.filler != Some(t)
    ensures !PcOf(s, t).ScanFill? ==> s'.memo.filler == s.memo.filler && !PcOf(s', t).ScanFill?
  {
    hide KeysByOffset, DistinctOffsets;
  }

  lemma PublishMove(s: State, t: Tid, s': State)
    requires SnapshotStep(s, t, s') && PcOf(s, t).ScanPublish?
    ensures s'.memo.filler == Some(t) && PcOf(s', t).ScanFill?
  {
  }

  /** From its own new memo on, a goroutine stays the filler until it is done, if nobody else makes one. */
  lemma {:induction false} StaysFiller(capacity: nat, run: seq<State>, who: seq<Tid>, t: Tid, p: nat, n: nat)
    requires Run(capacity, run, who) && p < n < |run| && PcOf(run[p], t).ScanPublish? && who[p] == t
    requires forall m :: p < m <= n ==> PcOf(run[m], t).ScanFill? || PcOf(run[m], t).ScanClear? || PcOf(run[m], t).ScanHeader?
    requires forall m :: p < m < n && who[m] != t ==> !PcOf(run[m], who[m]).ScanPublish?
    ensures run[n].memo.filler == if PcOf(run[n], t).ScanFill? then Some(t) else None
    decreases n - p
  {
    hide Init, Step, PcOf, Inv, MemoInv, SnapshotStep;
    var s, s' := run[n - 1], run[n];
    if n == p + 1 {
      OwnSnapshot(capacity, s, t, s');
      PublishMove(s, t, s');
    } else {
      StaysFiller(capacity, run, who, t, p, n - 1);
      RunInv(capacity, run, who, n - 1);
      assert PcOf(s, t).ScanFill? || PcOf(s, t).ScanClear? || PcOf(s, t).ScanHeader?;
      if who[n - 1] == t {
        OwnSnapshot(capacity, s, t, s');
        SnapshotFiller(s, t, s');
      } else {
        OthersFiller(capacity, s, who[n - 1], s', t);
        OthersDoNotMove(capacity, s, who[n - 1], s', t);
      }
    }
  }

  /** A scan that makes a new memo gets the file order if no other makes one before it reads the header. */
  lemma SoleSnapshotExact(
    capacity: nat, run: seq<State>, who: seq<Tid>, t: Tid, p: nat, h: nat, a: nat, keys: seq<Bytes>)
    requires Run(capacity, run, who) && p < h && h + 1 < a < |run|
    requires PcOf(run[p], t).ScanPublish? && who[p] == t && PcOf(run[h], t).ScanHeader? && who[h] == t
    requires forall m :: p < m <= h ==> PcOf(run[m], t).ScanFill? || PcOf(run[m], t).ScanClear? || PcOf(run[m], t).ScanHeader?
    requires (forall m :: h < m < a ==> PcOf(run[m], t).ScanCopy?) && PcOf(run[a], t) == ScanSnapshot(keys)
    requires forall m :: p < m < h && who[m] != t ==> !PcOf(run[m], who[m]).ScanPublish?
    ensures IsOffsetOrder(run[a].entries, keys)
  {
    hide Init, Step, PcOf, IsOffsetOrder;
    StaysFiller(capacity, run, who, t, p, h);
    QuietSnapshotExact(capacity, run, who, t, h, a, keys);
  }

  /**
   A scan whose reads of the memo were all in time is exact: it delivers no key twice, and when it is
   done it has delivered every key that was live from the snapshot to the end.
   */
  lemma TimelyScanIsExact(
    capacity: nat, run: seq<State>, who: seq<Tid>, t: Tid, c: nat, a: nat, j: nat, keys: seq<Bytes>, order: seq<Bytes>)
    requires Run(capacity, run, who) && c < a <= j < |run|
    requires (forall m :: c <= m < a ==> PcOf(run[m], t).ScanCopy?) && PcOf(run[a], t) == ScanSnapshot(keys)
    requires PcOf(run[c], t).copied == [] && IsOffsetOrder(run[c].entries, order)
    requires forall m :: c <= m < a && who[m] == t ==> ReadsInTime(run[m], t, order)
    requires (forall m :: a <= m <= j ==> InScan(PcOf(run[m], t), keys)) && PcOf(run[j], t).ScanNext?
    ensures KeysDiffer(PcOf(run[j], t).delivered)
    ensures PcOf(run[j], t).i == |keys| ==>
      forall k :: (forall m :: a <= m <= j ==> k in run[m].live) ==> Holds(PcOf(run[j], t).delivered, k)
  {
    hide Init, Step, PcOf, ReadsInTime, KeysDiffer, NoRepeats, Holds, Run, Inv, MemoInv, Settled;
    SnapshotExactIff(capacity, run, who, t, c, a, keys, order);
    OrderDiffers(run[a].entries, keys);
    NoKeyTwice(capacity, run, who, j, t);
    RunInv(capacity, run, who, a);
    assert HoldsRead(PcOf(run[a], t));
    ReaderSettled(run[a], t);
    SettledKeys(run[a]);
    if PcOf(run[j], t).i == |keys| {
      forall k | forall m :: a <= m <= j ==> k in run[m].live
        ensures Holds(PcOf(run[j], t).delivered, k)
      {
        assert k in run[a].live;
        ScanIsComplete(capacity, run, who, t, keys, a, j, k);
      }
    }
  }

  lemma OrderDiffers(m: Entries, keys: seq<Bytes>)
    requires IsOffsetOrder(m, keys)
    ensures NoRepeats(keys)
  {
    forall i, j | 0 <= i < j < |keys|
      ensures keys[i] != keys[j]
    {
      KeysDistinct(m, keys, i, j);
    }
  }

  /** Compaction always goes by the file order: whatever scans did to the memo, it is settled when they are gone. */
  lemma CompactionGoesByFileOrder(capacity: nat, run: seq<State>, who: seq<Tid>, i: nat, t: Tid)
    requires Run(capacity, run, who) && i < |run| && PcOf(run[i], t).CompactBuild?
    ensures IsOffsetOrder(run[i].entries, PcOf(run[i], t).keys)
    ensures |run[i].file| >= HEADER_SIZE && CopiedLog(run[i].file, PcOf(run[i], t).keys) == CompactFile(run[i].file, LOG_VERSION)
  {
    hide Init, Step, PcOf, MemoInv, IsOffsetOrder, CopiedLog, CompactFile, FileIndex, ScanLog, Contents, CopiedIndex;
    RunInv(capacity, run, who, i);
    assert HoldsWrite(PcOf(run[i], t));
    assert Settled(run[i]) && IsOffsetOrder(run[i].entries, PcOf(run[i], t).keys) by {
      hide Settled;
      WriterKnows(run[i], t);
    }
    CopiedMeans(run[i].file, PcOf(run[i], t).keys);
  }

  // --------------------------------------------------------------- two scans that collide

  /** Nobody holds the lock: nobody is reading, writing or taking a snapshot. */
  ghost predicate Quiet(s: State) {
    Inv(s) && MemoInv(s) && s.readers == {} && s.writer.None?
  }

  /** `s` is reached from a quiet `origin` without a writer, so that the contents never change. */
  ghost predicate Reachable(capacity: nat, origin: State, s: State) {
    && Quiet(origin)
    && exists run: seq<State>, who: seq<Tid> :: Frozen(capacity, origin, run, who) && run[|run| - 1] == s
  }

  ghost predicate Frozen(capacity: nat, origin: State, run: seq<State>, who: seq<Tid>) {
    && Path(capacity, run, who) && run[0] == origin
    && forall i :: 0 <= i < |run| ==> run[i].live == origin.live && run[i].writer.None?
  }

  lemma Start(capacity: nat, origin: State)
    requires Quiet(origin)
    ensures Reachable(capacity, origin, origin)
  {
    hide Inv, MemoInv, Step;
    assert Frozen(capacity, origin, [origin], []);
  }

  lemma Extend(capacity: nat, origin: State, s: State, t: Tid, s': State)
    requires Reachable(capacity, origin, s) && Step(capacity, s, t, s') && s'.live == s.live && s'.writer == s.writer
    ensures Reachable(capacity, origin, s')
  {
    hide Quiet, Step;
    var run, who :| Frozen(capacity, origin, run, who) && run[|run| - 1] == s;
    var longer, whom := run + [s'], who + [t];
    forall i | 0 <= i < |whom|
      ensures Step(capacity, longer[i], whom[i], longer[i + 1])
    {
      if i < |who| {
        assert Step(capacity, run[i], who[i], run[i + 1]);
      }
    }
    assert Frozen(capacity, origin, longer, whom);
  }

  lemma ReachableInv(capacity: nat, origin: State, s: State)
    requires Reachable(capacity, origin, s)
    ensures Inv(s) && MemoInv(s)
  {
    hide Step, Inv, MemoInv;
    var run, who :| Frozen(capacity, origin, run, who) && run[|run| - 1] == s;
    PathInv(capacity, run, who, |run| - 1);
  }

  lemma ExtendSnapshot(capacity: nat, origin: State, s: State, t: Tid, s': State)
    requires Reachable(capacity, origin, s) && SnapshotStep(s, t, s')
    ensures Reachable(capacity, origin, s')
  {
    SnapshotFrame(s, t, s');
    hide SnapshotStep, Reachable, Begin, GetStep, PutStep, DeleteStep, CompactStep, VisitStep;
    Extend(capacity, origin, s, t, s');
  }

  lemma ExtendVisit(capacity: nat, origin: State, s: State, t: Tid, s': State)
    requires Reachable(capacity, origin, s) && VisitStep(s, t, s') && s'.live == s.live && s'.writer == s.writer
    ensures Reachable(capacity, origin, s')
  {
    hide SnapshotStep, Reachable, Begin, GetStep, PutStep, DeleteStep, CompactStep, VisitStep;
    Extend(capacity, origin, s, t, s');
  }

  /** Nothing differs but the goroutine's place, the readers and the memo. */
  ghost predicate OnlyMoves(s: State, t: Tid, s': State) {
    && s'.file == s.file && s'.entries == s.entries && s'.cache == s.cache && s'.live == s.live && s'.writer == s.writer
    && forall u: Tid :: u != t ==> PcOf(s', u) == PcOf(s, u)
  }

  /** A goroutine starts a scan and gets the read lock. */
  lemma Enters(capacity: nat, origin: State, s: State, t: Tid) returns (s': State)
    requires Reachable(capacity, origin, s) && PcOf(s, t).Idle? && s.writer.None?
    ensures Reachable(capacity, origin, s') && PcOf(s', t) == ScanCheck && OnlyMoves(s, t, s') && s'.memo == s.memo
  {
    hide Reachable;
    var s1 := Goto(s, t, ScanWait);
    assert Begin(s, t, s1);
    BeginExtends(capacity, origin, s, t, s1);
    s' := Goto(s1, t, ScanCheck).(readers := s1.readers + {t});
    assert VisitStep(s1, t, s');
    ExtendVisit(capacity, origin, s1, t, s');
  }

  /** It finds the memo dirty, and is about to make a new one. */
  lemma Arrives(capacity: nat, origin: State, s: State, t: Tid, order: seq<Bytes>) returns (s': State)
    requires Reachable(capacity, origin, s) && PcOf(s, t).Idle? && s.writer.None? && s.memo.dirty
    requires DistinctOffsets(s.entries) && order == KeysByOffset(s.entries)
    ensures Reachable(capacity, origin, s') && PcOf(s', t) == ScanPublish(order) && OnlyMoves(s, t, s') && s'.memo == s.memo
  {
    hide Reachable, KeysByOffset, DistinctOffsets;
    var s2 := Enters(capacity, origin, s, t);
    var s3 := Goto(s2, t, ScanSort);
    assert SnapshotStep(s2, t, s3);
    ExtendSnapshot(capacity, origin, s2, t, s3);
    s' := Goto(s3, t, ScanPublish(order));
    assert SnapshotStep(s3, t, s');
    ExtendSnapshot(capacity, origin, s3, t, s');
  }

  lemma BeginExtends(capacity: nat, origin: State, s: State, t: Tid, s': State)
    requires Reachable(capacity, origin, s) && Begin(s, t, s')
    ensures Reachable(capacity, origin, s')
  {
    assert s'.live == s.live && s'.writer == s.writer;
    hide SnapshotStep, Reachable, Begin, GetStep, PutStep, DeleteStep, CompactStep, VisitStep;
    Extend(capacity, origin, s, t, s');
  }

  /** A goroutine fills the memo to the end. */
  lemma {:induction false} FillsAll(capacity: nat, origin: State, s: State, t: Tid, order: seq<Bytes>, i: nat)
    returns (s': State)
    requires Reachable(capacity, origin, s) && PcOf(s, t) == ScanFill(order, i) && i <= |order|
    ensures Reachable(capacity, origin, s') && PcOf(s', t) == ScanClear && OnlyMoves(s, t, s')
    decreases |order| - i
  {
    hide Reachable, Inv, MemoInv, Fill, CanFill;
    ReachableInv(capacity, origin, s);
    if i < |order| {
      FillInBounds(s, t);
      var s1 := Goto(s, t, ScanFill(order, i + 1)).(memo := Fill(s.memo, i, order[i]));
      assert SnapshotStep(s, t, s1);
      ExtendSnapshot(capacity, origin, s, t, s1);
      s' := FillsAll(capacity, origin, s1, t, order, i + 1);
    } else {
      s' := Goto(s, t, ScanClear).(memo := FillDone(s.memo, t));
      assert SnapshotStep(s, t, s');
      ExtendSnapshot(capacity, origin, s, t, s');
    }
  }

  /** A goroutine copies an array of blanks. */
  lemma {:induction false} CopiesBlanks(capacity: nat, origin: State, s: State, t: Tid, slot: nat, n: nat, i: nat)
    returns (s': State)
    requires Reachable(capacity, origin, s) && i <= n && PcOf(s, t) == ScanCopy(slot, Blank(i))
    requires slot < |s.memo.arrays| && s.memo.arrays[slot] == Blank(n)
    ensures Reachable(capacity, origin, s') && PcOf(s', t) == ScanSnapshot(Blank(n)) && OnlyMoves(s, t, s')
    decreases n - i
  {
    hide Reachable;
    if i < n {
      assert Blank(i) + [[]] == Blank(i + 1);
      var s1 := Goto(s, t, ScanCopy(slot, Blank(i + 1)));
      assert SnapshotStep(s, t, s1);
      ExtendSnapshot(capacity, origin, s, t, s1);
      s' := CopiesBlanks(capacity, origin, s1, t, slot, n, i + 1);
    } else {
      s' := Goto(s, t, ScanSnapshot(Blank(n)));
      assert SnapshotStep(s, t, s');
      ExtendSnapshot(capacity, origin, s, t, s');
    }
  }

  /**
   The losing interleaving: a fills its memo, b makes a new one of blanks, a marks the memo clean and
   copies the blanks.
   */
  lemma BlankSnapshot(capacity: nat, origin: State, a: Tid, b: Tid) returns (s: State)
    requires Quiet(origin) && origin.memo.dirty && a != b && PcOf(origin, a).Idle? && PcOf(origin, b).Idle?
    requires DistinctOffsets(origin.entries)
    ensures Reachable(capacity, origin, s) && s.writer.None? && s.entries == origin.entries && s.live == origin.live
    ensures PcOf(s, a) == ScanSnapshot(Blank(|KeysByOffset(origin.entries)|))
  {
    var order := KeysByOffset(origin.entries);
    assert origin.writer.None?;
    hide Reachable, KeysByOffset, DistinctOffsets, Publish, Quiet, PcOf;
    Start(capacity, origin);
    var s1 := Arrives(capacity, origin, origin, a, order);
    var s2 := Arrives(capacity, origin, s1, b, order);
    var s3 := Publishes(capacity, origin, s2, a, order);
    var s4 := FillsAll(capacity, origin, s3, a, order, 0);
    var s5 := Publishes(capacity, origin, s4, b, order);
    PublishedBlank(s4.memo, b, order);
    s := BlanksTaken(capacity, origin, s5, a, |order|);
  }

  lemma Publishes(capacity: nat, origin: State, s: State, t: Tid, order: seq<Bytes>) returns (s': State)
    requires Reachable(capacity, origin, s) && PcOf(s, t) == ScanPublish(order)
    ensures Reachable(capacity, origin, s') && PcOf(s', t) == ScanFill(order, 0) && OnlyMoves(s, t, s')
    ensures s'.memo == Publish(s.memo, t, order)
  {
    hide Reachable, Publish;
    s' := Goto(s, t, ScanFill(order, 0)).(memo := Publish(s.memo, t, order));
    assert SnapshotStep(s, t, s');
    ExtendSnapshot(capacity, origin, s, t, s');
  }

  lemma PublishedBlank(m: Memo, t: Tid, order: seq<Bytes>)
    ensures var m' := Publish(m, t, order); m'.current < |m'.arrays| && m'.arrays[m'.current] == Blank(|order|)
  {
  }

  lemma BlanksTaken(capacity: nat, origin: State, s: State, a: Tid, n: nat) returns (s': State)
    requires Reachable(capacity, origin, s) && PcOf(s, a) == ScanClear
    requires s.memo.current < |s.memo.arrays| && s.memo.arrays[s.memo.current] == Blank(n)
    ensures Reachable(capacity, origin, s') && PcOf(s', a) == ScanSnapshot(Blank(n)) && OnlyMoves(s, a, s')
  {
    hide Reachable, PcOf;
    var s6 := MarksClean(capacity, origin, s, a);
    var s7 := ReadsHeader(capacity, origin, s6, a);
    s' := CopiesBlanks(capacity, origin, s7, a, s.memo.current, n, 0);
  }

  lemma MarksClean(capacity: nat, origin: State, s: State, a: Tid) returns (s': State)
    requires Reachable(capacity, origin, s) && PcOf(s, a) == ScanClear
    ensures Reachable(capacity, origin, s') && PcOf(s', a) == ScanHeader && OnlyMoves(s, a, s')
    ensures s'.memo == s.memo.(dirty := false)
  {
    hide Reachable;
    s' := Goto(s, a, ScanHeader).(memo := s.memo.(dirty := false));
    assert SnapshotStep(s, a, s');
    ExtendSnapshot(capacity, origin, s, a, s');
  }

  lemma ReadsHeader(capacity: nat, origin: State, s: State, a: Tid) returns (s': State)
    requires Reachable(capacity, origin, s) && PcOf(s, a) == ScanHeader
    ensures Reachable(capacity, origin, s') && PcOf(s', a) == ScanCopy(s.memo.current, Blank(0)) && OnlyMoves(s, a, s')
    ensures s'.memo == s.memo
  {
    hide Reachable;
    s' := Goto(s, a, ScanCopy(s.memo.current, []));
    assert SnapshotStep(s, a, s');
    ExtendSnapshot(capacity, origin, s, a, s');
    assert Blank(0) == [];
  }

  /** Every delivered pair is for the empty key, and there is one for each visit if the empty key is live. */
  predicate Blanks(delivered: seq<Cached>, i: nat, live: Items) {
    && (forall d :: d in delivered ==> d.key == [])
    && ([] in live ==> |delivered| == i)
  }

  lemma LooksUp(capacity: nat, origin: State, s: State, t: Tid, n: nat, i: nat, delivered: seq<Cached>) returns (s': State)
    requires Reachable(capacity, origin, s) && s.writer.None? && i < n && PcOf(s, t) == ScanNext(Blank(n), i, delivered)
    ensures Reachable(capacity, origin, s') && OnlyMoves(s, t, s') && PcOf(s', t) == ScanLookup(Blank(n), i, delivered)
  {
    hide Reachable;
    s' := Goto(s, t, ScanLookup(Blank(n), i, delivered)).(readers := s.readers + {t});
    assert VisitStep(s, t, s');
    ExtendVisit(capacity, origin, s, t, s');
  }

  lemma Skips(capacity: nat, origin: State, s: State, t: Tid, n: nat, i: nat, delivered: seq<Cached>) returns (s': State)
    requires Reachable(capacity, origin, s) && i < n && PcOf(s, t) == ScanLookup(Blank(n), i, delivered) && [] !in s.entries
    ensures Reachable(capacity, origin, s') && OnlyMoves(s, t, s') && PcOf(s', t) == ScanNext(Blank(n), i + 1, delivered)
  {
    hide Reachable;
    var s2 := Goto(s, t, ScanSkip(Blank(n), i, delivered));
    assert VisitStep(s, t, s2);
    ExtendVisit(capacity, origin, s, t, s2);
    s' := Goto(s2, t, ScanNext(Blank(n), i + 1, delivered)).(readers := s2.readers - {t});
    assert VisitStep(s2, t, s');
    ExtendVisit(capacity, origin, s2, t, s');
  }

  lemma Reads(capacity: nat, origin: State, s: State, t: Tid, n: nat, i: nat, delivered: seq<Cached>)
    returns (s': State, value: Bytes)
    requires Reachable(capacity, origin, s) && i < n && PcOf(s, t) == ScanLookup(Blank(n), i, delivered) && [] in s.entries
    ensures Reachable(capacity, origin, s') && OnlyMoves(s, t, s') && PcOf(s', t) == ScanGot(Blank(n), i, delivered, value)
  {
    hide Reachable, AreasAt;
    var e := s.entries[[]];
    Readable(capacity, origin, s, t);
    value := AreasAt(s.file, e.recordOffset, e.storedSize).value.value;
    var s2 := Goto(s, t, ScanRead(Blank(n), i, delivered, e));
    assert VisitStep(s, t, s2);
    ExtendVisit(capacity, origin, s, t, s2);
    s' := Goto(s2, t, ScanGot(Blank(n), i, delivered, value));
    assert VisitStep(s2, t, s');
    ExtendVisit(capacity, origin, s2, t, s');
  }

  lemma Delivers(capacity: nat, origin: State, s: State, t: Tid, n: nat, i: nat, delivered: seq<Cached>, value: Bytes)
    returns (s': State)
    requires Reachable(capacity, origin, s) && i < n && PcOf(s, t) == ScanGot(Blank(n), i, delivered, value)
    ensures Reachable(capacity, origin, s') && OnlyMoves(s, t, s')
    ensures PcOf(s', t) == ScanNext(Blank(n), i + 1, delivered + [Cached([], value)])
  {
    hide Reachable;
    s' := Goto(s, t, ScanNext(Blank(n), i + 1, delivered + [Cached([], value)])).(readers := s.readers - {t});
    assert VisitStep(s, t, s');
    ExtendVisit(capacity, origin, s, t, s');
  }

  /** A visit of a blank key: it is skipped, or the value of the empty key is delivered. */
  lemma VisitsOne(capacity: nat, origin: State, s: State, t: Tid, n: nat, i: nat, delivered: seq<Cached>)
    returns (s': State, delivered': seq<Cached>)
    requires Reachable(capacity, origin, s) && s.writer.None? && i < n && PcOf(s, t) == ScanNext(Blank(n), i, delivered)
    requires Blanks(delivered, i, s.live)
    ensures Reachable(capacity, origin, s') && OnlyMoves(s, t, s')
    ensures PcOf(s', t) == ScanNext(Blank(n), i + 1, delivered') && Blanks(delivered', i + 1, s.live)
  {
    hide Reachable, PcOf;
    var s1 := LooksUp(capacity, origin, s, t, n, i, delivered);
    NotLive(capacity, origin, s1, t);
    if [] in s1.entries {
      var s2, value := Reads(capacity, origin, s1, t, n, i, delivered);
      s' := Delivers(capacity, origin, s2, t, n, i, delivered, value);
      delivered' := delivered + [Cached([], value)];
    } else {
      s' := Skips(capacity, origin, s1, t, n, i, delivered);
      delivered' := delivered;
    }
  }

  lemma NotLive(capacity: nat, origin: State, s: State, t: Tid)
    requires Reachable(capacity, origin, s) && HoldsRead(PcOf(s, t))
    ensures forall k :: k in s.entries <==> k in s.live
  {
    hide Reachable, Inv, MemoInv, Settled, PcOf;
    ReachableInv(capacity, origin, s);
    ReaderSettled(s, t);
    SettledKeys(s);
  }

  lemma Readable(capacity: nat, origin: State, s: State, t: Tid)
    requires Reachable(capacity, origin, s) && HoldsRead(PcOf(s, t)) && [] in s.entries
    ensures AreasAt(s.file, s.entries[[]].recordOffset, s.entries[[]].storedSize).Some?
  {
    hide Reachable, Inv, MemoInv, PcOf, ScanLog, FileIndex, Contents, Coherent, AreasAt, KeysDiffer;
    ReachableInv(capacity, origin, s);
    ReaderSettled(s, t);
    LiveIsReadable(s.file, LOG_VERSION, []);
  }

  lemma {:induction false} VisitsBlanks(capacity: nat, origin: State, s: State, t: Tid, n: nat, i: nat, delivered: seq<Cached>)
    returns (s': State, delivered': seq<Cached>)
    requires Reachable(capacity, origin, s) && s.writer.None? && i <= n && PcOf(s, t) == ScanNext(Blank(n), i, delivered)
    requires Blanks(delivered, i, s.live)
    ensures Reachable(capacity, origin, s')
    ensures PcOf(s', t) == ScanNext(Blank(n), n, delivered') && Blanks(delivered', n, s.live)
    decreases n - i
  {
    hide Reachable, PcOf, Blanks;
    if i == n {
      s', delivered' := s, delivered;
    } else {
      var s1, delivered1 := VisitsOne(capacity, origin, s, t, n, i, delivered);
      s', delivered' := VisitsBlanks(capacity, origin, s1, t, n, i + 1, delivered1);
    }
  }

  /**
   Two scans on a dirty memo can collide. From every quiet state with a live key other than the empty
   one there is a run, without a writer and so with the same contents throughout, where a scan ends
   without having delivered any key but the empty one; if that is live, it is delivered more than once.
   */
  lemma ScansCollide(capacity: nat, origin: State, a: Tid, b: Tid, k: Bytes) returns (run: seq<State>, who: seq<Tid>)
    requires Quiet(origin) && origin.memo.dirty && a != b && PcOf(origin, a).Idle? && PcOf(origin, b).Idle?
    requires k in origin.live && k != []
    ensures Frozen(capacity, origin, run, who)
    ensures var pc := PcOf(run[|run| - 1], a);
      && pc.ScanNext? && pc.i == |pc.keys| && (forall d :: d in pc.delivered ==> d.key == [])
      && ([] in origin.live ==> !KeysDiffer(pc.delivered))
  {
    QuietSettled(origin);
    hide Step, Settled, KeysByOffset, DistinctOffsets, Reachable, PcOf, Path, Quiet;
    SettledDistinct(origin);
    SettledKeys(origin);
    var order := KeysByOffset(origin.entries);
    var n := |order|;
    var s := BlankSnapshot(capacity, origin, a, b);
    var s', delivered := BlanksVisited(capacity, origin, s, a, n);
    assert k in order;
    if [] in origin.live {
      assert [] in order;
      TwoKeys(order, k, []);
      assert delivered[0] in delivered && delivered[1] in delivered;
    }
    run, who := PathTo(capacity, origin, s');
  }

  lemma QuietSettled(s: State)
    requires Quiet(s)
    ensures Settled(s)
  {
    hide Settled, MemoInv, LockInv, ThreadInv;
  }

  // --------------------------------------------------------------- when no scan can go wrong

  /** A continuation of `s` in which nobody gets the write lock. */
  ghost predicate Continues(capacity: nat, s: State, run: seq<State>, who: seq<Tid>) {
    Path(capacity, run, who) && run[0] == s && forall i :: 0 <= i < |run| ==> run[i].writer.None?
  }

  /** The goroutine has just taken a snapshot that is not the file order. */
  ghost predicate WrongSnapshot(s: State, t: Tid) {
    PcOf(s, t).ScanSnapshot? && !IsOffsetOrder(s.entries, PcOf(s, t).keys)
  }

  /** In no continuation without a writer is any snapshot wrong. */
  ghost predicate AlwaysExact(capacity: nat, s: State) {
    forall run: seq<State>, who: seq<Tid>, i: nat, t: Tid ::
      Continues(capacity, s, run, who) && i < |run| ==> !WrongSnapshot(run[i], t)
  }

  predicate OnlyEmptyKey(entries: Entries) {
    forall k :: k in entries ==> k == []
  }

  /** Where a goroutine can be while the memo is clean: it never sorts, and copies the memo as it is. */
  predicate CleanPlace(memo: seq<Bytes>, current: nat, pc: Pc) {
    && !pc.ScanSort? && !pc.ScanPublish? && !pc.ScanFill? && !pc.ScanClear?
    && (pc.ScanCopy? ==> pc.slot == current && pc.copied <= memo)
    && (pc.ScanSnapshot? ==> pc.keys == memo)
  }

  /** Where a goroutine can be while only the empty key is live: whatever it copies is blank. */
  ghost predicate BlankPlace(entries: Entries, pc: Pc) {
    && (pc.ScanCopy? ==> forall k :: 0 <= k < |pc.copied| ==> pc.copied[k] == [])
    && (pc.ScanSnapshot? ==> IsOffsetOrder(entries, pc.keys))
  }

  /** Without a writer every step leaves the index alone, and only snapshots write the memo. */
  lemma QuietStep(capacity: nat, s: State, t: Tid, s': State)
    requires Inv(s) && s.writer.None? && Step(capacity, s, t, s')
    ensures s'.entries == s.entries && (s'.memo == s.memo || SnapshotStep(s, t, s'))
  {
    hide Inv, PcOf, HoldsWrite, Begin, GetStep, PutStep, DeleteStep, BuildStep, SwapStep, SnapshotStep, VisitStep, KeysByOffset, DistinctOffsets, UsesMemo;
    assert !HoldsWrite(PcOf(s, t)) by { NoWriter(s, t); }
    if Begin(s, t, s') || GetStep(capacity, s, t, s') {
      GetMemo(capacity, s, t, s');
    } else if PutStep(s, t, s') {
      PutMemo(s, t, s');
    } else if DeleteStep(s, t, s') {
      DeleteMemo(s, t, s');
    } else if BuildStep(s, t, s') {
      BuildMemo(s, t, s');
    } else if SwapStep(s, t, s') {
      SwapMemo(s, t, s');
    } else if SnapshotStep(s, t, s') {
      SnapshotFrame(s, t, s');
    } else {
      VisitMemo(s, t, s');
    }
  }

  lemma NoWriter(s: State, t: Tid)
    requires Inv(s) && s.writer.None?
    ensures !HoldsWrite(PcOf(s, t))
  {
    hide SharedInv, ThreadInv, HoldsWrite, HoldsRead, PcOf;
  }

  /** A step that is not one of a snapshot leads to its start at most. */
  lemma OtherPlaces(capacity: nat, s: State, t: Tid, s': State)
    requires Step(capacity, s, t, s') && !SnapshotStep(s, t, s')
    ensures PcOf(s', t).ScanCheck? || (!TakesSnapshot(PcOf(s', t)) && !PcOf(s', t).ScanSnapshot?)
  {
    hide Begin, GetStep, PutStep, DeleteStep, BuildStep, SwapStep, SnapshotStep, VisitStep, PcOf, TakesSnapshot;
    if Begin(s, t, s') {
      BeginPlaces(s, t, s');
    } else if GetStep(capacity, s, t, s') {
      GetPlaces(capacity, s, t, s');
    } else if PutStep(s, t, s') {
      PutAway(s, t, s');
    } else if DeleteStep(s, t, s') {
      DeleteAway(s, t, s');
    } else if BuildStep(s, t, s') {
      BuildAway(s, t, s');
    } else if SwapStep(s, t, s') {
      SwapAway(s, t, s');
    } else {
      VisitAway(s, t, s');
    }
  }

  lemma BeginPlaces(s: State, t: Tid, s': State)
    requires Begin(s, t, s')
    ensures !TakesSnapshot(PcOf(s', t)) && !PcOf(s', t).ScanSnapshot?
  {
  }

  lemma GetPlaces(capacity: nat, s: State, t: Tid, s': State)
    requires GetStep(capacity, s, t, s')
    ensures !TakesSnapshot(PcOf(s', t)) && !PcOf(s', t).ScanSnapshot?
  {
    hide AreasAt, Lookup, AfterGet, AfterPut;
  }

  lemma WritersAway(pc: Pc)
    requires HoldsWrite(pc)
    ensures !TakesSnapshot(pc) && !pc.ScanSnapshot?
  {
  }

  lemma PutAway(s: State, t: Tid, s': State)
    requires PutStep(s, t, s')
    ensures !TakesSnapshot(PcOf(s', t)) && !PcOf(s', t).ScanSnapshot?
  {
    if !PcOf(s, t).PutWait? {
      PutLocks(s, t, s');
      WritersAway(PcOf(s', t));
      hide *;
    }
  }

  lemma DeleteAway(s: State, t: Tid, s': State)
    requires DeleteStep(s, t, s')
    ensures !TakesSnapshot(PcOf(s', t)) && !PcOf(s', t).ScanSnapshot?
  {
    if !PcOf(s, t).DeleteWait? {
      DeleteLocks(s, t, s');
      WritersAway(PcOf(s', t));
      hide *;
    }
  }

  lemma BuildAway(s: State, t: Tid, s': State)
    requires BuildStep(s, t, s')
    ensures !TakesSnapshot(PcOf(s', t)) && !PcOf(s', t).ScanSnapshot?
  {
    hide CopiedLog, CopiedIndex, KeysByOffset, DistinctOffsets, MemoHit, Rebuilt;
  }

  lemma SwapAway(s: State, t: Tid, s': State)
    requires SwapStep(s, t, s')
    ensures !TakesSnapshot(PcOf(s', t)) && !PcOf(s', t).ScanSnapshot?
  {
    hide NewMemo;
  }

  lemma VisitAway(s: State, t: Tid, s': State)
    requires VisitStep(s, t, s')
    ensures PcOf(s', t).ScanCheck? || (!TakesSnapshot(PcOf(s', t)) && !PcOf(s', t).ScanSnapshot?)
  {
    hide AreasAt;
  }

  // --------------------------------------------------------------- a clean memo

  /** The memo is clean and as long as the index, and nobody does anything but copy it. */
  ghost predicate Clean(s: State, m: Memo) {
    && s.memo == m && MemoHit(m, s.entries)
    && forall t: Tid :: CleanPlace(m.arrays[m.current], m.current, PcOf(s, t))
  }

  lemma CleanSnapshotStep(s: State, t: Tid, s': State, m: Memo)
    requires Clean(s, m) && SnapshotStep(s, t, s')
    ensures s'.memo == m && CleanPlace(m.arrays[m.current], m.current, PcOf(s', t))
  {
    hide KeysByOffset, DistinctOffsets, Publish, Fill, FillDone;
    assert CleanPlace(m.arrays[m.current], m.current, PcOf(s, t));
  }

  lemma CleanStays(capacity: nat, s: State, t: Tid, s': State, m: Memo)
    requires Inv(s) && s.writer.None? && Clean(s, m) && Step(capacity, s, t, s')
    ensures Clean(s', m)
  {
    hide Inv, PcOf, Step, SnapshotStep, CleanPlace, TakesSnapshot;
    QuietStep(capacity, s, t, s');
    forall u: Tid | u != t
      ensures PcOf(s', u) == PcOf(s, u)
    {
      OthersDoNotMove(capacity, s, t, s', u);
    }
    if SnapshotStep(s, t, s') {
      CleanSnapshotStep(s, t, s', m);
    } else {
      OtherPlaces(capacity, s, t, s');
      AwayIsClean(m, PcOf(s', t));
    }
  }

  lemma AwayIsClean(m: Memo, pc: Pc)
    requires m.current < |m.arrays| && (pc.ScanCheck? || (!TakesSnapshot(pc) && !pc.ScanSnapshot?))
    ensures CleanPlace(m.arrays[m.current], m.current, pc)
  {
  }

  lemma QuietIsClean(s: State)
    requires Quiet(s) && !s.memo.dirty
    ensures Clean(s, s.memo) && IsOffsetOrder(s.entries, s.memo.arrays[s.memo.current])
  {
    hide SharedInv, IsOffsetOrder, ThreadInv;
    QuietMemo(s);
    OrderLength(s.entries, s.memo.arrays[s.memo.current]);
  }

  lemma OrderLength(m: Entries, keys: seq<Bytes>)
    requires IsOffsetOrder(m, keys)
    ensures |keys| == |m|
  {
    OrderDiffers(m, keys);
    SeqOfSet(keys, m.Keys);
  }

  lemma {:induction false} SeqOfSet(keys: seq<Bytes>, s: set<Bytes>)
    requires NoRepeats(keys) && forall k :: k in keys <==> k in s
    ensures |keys| == |s|
    decreases |keys|
  {
    if |keys| == 0 {
      assert s == {};
    } else {
      var init, last := keys[..|keys| - 1], keys[|keys| - 1];
      assert keys == init + [last];
      assert last !in init;
      SeqOfSet(init, s - {last});
    }
  }

  lemma {:induction false} CleanThroughout(capacity: nat, s: State, run: seq<State>, who: seq<Tid>, i: nat)
    requires Quiet(s) && !s.memo.dirty && Continues(capacity, s, run, who) && i < |run|
    ensures Clean(run[i], s.memo) && run[i].entries == s.entries
  {
    hide Inv, MemoInv, Step, Clean;
    QuietIsClean(s);
    if i > 0 {
      CleanThroughout(capacity, s, run, who, i - 1);
      PathInv(capacity, run, who, i - 1);
      QuietStep(capacity, run[i - 1], who[i - 1], run[i]);
      CleanStays(capacity, run[i - 1], who[i - 1], run[i], s.memo);
    }
  }

  // --------------------------------------------------------------- nothing but the empty key

  ghost predicate Blankest(s: State) {
    forall t: Tid :: BlankPlace(s.entries, PcOf(s, t))
  }

  lemma BlankCopy(s: State, t: Tid, s': State)
    requires MemoInv(s) && OnlyEmptyKey(s.entries) && BlankPlace(s.entries, PcOf(s, t))
    requires PcOf(s, t).ScanCopy? && SnapshotStep(s, t, s')
    ensures BlankPlace(s.entries, PcOf(s', t))
  {
    hide SnapshotStep, PcOf, MemoOk;
    CopyMove(s, t, s');
    assert MemoUse(s.memo, t, PcOf(s, t));
    OrderIsBlank(s);
    var slot, copied, order := PcOf(s, t).slot, PcOf(s, t).copied, s.memo.order.value;
    if |copied| >= |s.memo.arrays[slot]| {
      assert copied == order;
    }
  }

  lemma OrderIsBlank(s: State)
    requires MemoInv(s) && OnlyEmptyKey(s.entries) && s.memo.order.Some?
    ensures IsOffsetOrder(s.entries, s.memo.order.value)
    ensures forall k :: 0 <= k < |s.memo.order.value| ==> s.memo.order.value[k] == []
  {
    var order := s.memo.order.value;
    assert forall k :: 0 <= k < |order| ==> order[k] in order;
  }

  lemma SnapshotElsewhere(s: State, t: Tid, s': State)
    requires SnapshotStep(s, t, s') && !PcOf(s, t).ScanCopy?
    ensures BlankPlace(s.entries, PcOf(s', t))
  {
    hide KeysByOffset, DistinctOffsets, Publish, Fill, FillDone, IsOffsetOrder;
  }

  lemma BlankStays(capacity: nat, s: State, t: Tid, s': State)
    requires Inv(s) && MemoInv(s) && s.writer.None? && OnlyEmptyKey(s.entries) && Blankest(s) && Step(capacity, s, t, s')
    ensures Blankest(s')
  {
    hide Inv, MemoInv, PcOf, Step, SnapshotStep, BlankPlace, TakesSnapshot, OnlyEmptyKey;
    QuietStep(capacity, s, t, s');
    forall u: Tid | u != t
      ensures PcOf(s', u) == PcOf(s, u)
    {
      OthersDoNotMove(capacity, s, t, s', u);
    }
    if SnapshotStep(s, t, s') {
      if PcOf(s, t).ScanCopy? {
        BlankCopy(s, t, s');
      } else {
        SnapshotElsewhere(s, t, s');
      }
    } else {
      OtherPlaces(capacity, s, t, s');
      AwayIsBlank(s.entries, PcOf(s', t));
    }
  }

  lemma AwayIsBlank(entries: Entries, pc: Pc)
    requires pc.ScanCheck? || (!TakesSnapshot(pc) && !pc.ScanSnapshot?)
    ensures BlankPlace(entries, pc)
  {
  }

  lemma {:induction false} BlankThroughout(capacity: nat, s: State, run: seq<State>, who: seq<Tid>, i: nat)
    requires Quiet(s) && OnlyEmptyKey(s.entries) && Continues(capacity, s, run, who) && i < |run|
    ensures Blankest(run[i]) && run[i].entries == s.entries
  {
    if i == 0 {
      hide SharedInv, ThreadInv, MemoInv, Step, IsOffsetOrder;
    } else {
      hide Inv, MemoInv, Step, Blankest, OnlyEmptyKey;
      BlankThroughout(capacity, s, run, who, i - 1);
      PathInv(capacity, run, who, i - 1);
      QuietStep(capacity, run[i - 1], who[i - 1], run[i]);
      BlankStays(capacity, run[i - 1], who[i - 1], run[i]);
    }
  }

  // --------------------------------------------------------------- the condition

  lemma {:induction false} Above(s: set<nat>) returns (m: nat)
    ensures forall x :: x in s ==> x < m
  {
    if s == {} {
      m := 0;
    } else {
      var x :| x in s;
      var n := Above(s - {x});
      m := if n > x then n else x + 1;
      assert forall y :: y in s ==> y == x || y in s - {x};
    }
  }

  /** From a dirty memo and a live non-empty key, some continuation takes a wrong snapshot. */
  lemma DirtyGoesWrong(capacity: nat, s: State, k: Bytes)
    requires Quiet(s) && s.memo.dirty && k in s.live && k != []
    ensures !AlwaysExact(capacity, s)
  {
    QuietSettled(s);
    var a := Above(s.threads.Keys);
    assert PcOf(s, a).Idle? && PcOf(s, a + 1).Idle?;
    hide Quiet, Settled, PcOf, KeysByOffset, DistinctOffsets, Reachable, Path, IsOffsetOrder;
    SettledDistinct(s);
    SettledKeys(s);
    var wrong := BlankSnapshot(capacity, s, a, a + 1);
    var run, who := PathTo(capacity, s, wrong);
    assert Continues(capacity, s, run, who);
    BlankIsWrong(s.entries, |KeysByOffset(s.entries)|, k);
    assert WrongSnapshot(run[|run| - 1], a);
  }

  lemma BlankIsWrong(entries: Entries, n: nat, k: Bytes)
    requires k in entries && k != []
    ensures !IsOffsetOrder(entries, Blank(n))
  {
  }

  /**
   Exactly when scans are safe. From a quiet point no scan can take a wrong snapshot before the next
   write, however many run at once, if and only if the memo is clean there or no key but the empty one
   is live. It is clean from the first completed snapshot after a write on (ScanLeavesClean).
   */
  lemma ScansSafeIff(capacity: nat, s: State)
    requires Quiet(s)
    ensures AlwaysExact(capacity, s) <==> !s.memo.dirty || forall k :: k in s.live ==> k == []
  {
    QuietSettled(s);
    hide Quiet, Settled, MemoInv, Inv, Continues;
    SettledKeys(s);
    if !s.memo.dirty || forall k :: k in s.live ==> k == [] {
      forall run: seq<State>, who: seq<Tid>, i: nat, t: Tid | Continues(capacity, s, run, who) && i < |run|
        ensures !WrongSnapshot(run[i], t)
      {
        SafeAt(capacity, s, run, who, i, t);
      }
    } else {
      var k :| k in s.live && k != [];
      DirtyGoesWrong(capacity, s, k);
    }
  }

  lemma SafeAt(capacity: nat, s: State, run: seq<State>, who: seq<Tid>, i: nat, t: Tid)
    requires Quiet(s) && Continues(capacity, s, run, who) && i < |run| && (!s.memo.dirty || OnlyEmptyKey(s.entries))
    ensures !WrongSnapshot(run[i], t)
  {
    hide Quiet, Continues, OnlyEmptyKey, PcOf, IsOffsetOrder;
    if !s.memo.dirty {
      CleanThroughout(capacity, s, run, who, i);
      QuietIsClean(s);
      assert CleanPlace(s.memo.arrays[s.memo.current], s.memo.current, PcOf(run[i], t));
    } else {
      BlankThroughout(capacity, s, run, who, i);
      assert BlankPlace(s.entries, PcOf(run[i], t));
    }
  }

  /** The goroutine found the memo clean, or has marked it so. */
  predicate PastCheck(pc: Pc) {
    pc.ScanLength? || pc.ScanHeader? || pc.ScanCopy? || pc.ScanSnapshot?
  }

  ghost predicate CleanPast(s: State) {
    forall t: Tid :: PastCheck(PcOf(s, t)) ==> !s.memo.dirty
  }

  /** Only a step made under the write lock dirties the memo. */
  lemma DirtiedByWriter(capacity: nat, s: State, t: Tid, s': State)
    requires Step(capacity, s, t, s') && !s.memo.dirty && s'.memo.dirty
    ensures HoldsWrite(PcOf(s, t))
  {
    hide PcOf, HoldsWrite, Begin, GetStep, PutStep, DeleteStep, BuildStep, SwapStep, SnapshotStep, VisitStep, KeysByOffset, DistinctOffsets, UsesMemo;
    if Begin(s, t, s') || GetStep(capacity, s, t, s') {
      GetMemo(capacity, s, t, s');
    } else if PutStep(s, t, s') {
      PutMemo(s, t, s');
    } else if DeleteStep(s, t, s') {
      DeleteMemo(s, t, s');
    } else if BuildStep(s, t, s') {
      BuildMemo(s, t, s');
    } else if SwapStep(s, t, s') {
      SwapMemo(s, t, s');
    } else if SnapshotStep(s, t, s') {
      SnapshotDirt(s, t, s');
    } else {
      VisitMemo(s, t, s');
    }
  }

  lemma SnapshotDirt(s: State, t: Tid, s': State)
    requires SnapshotStep(s, t, s')
    ensures s'.memo.dirty ==> s.memo.dirty
    ensures PastCheck(PcOf(s', t)) && !PastCheck(PcOf(s, t)) ==> !s'.memo.dirty
  {
    hide KeysByOffset, DistinctOffsets;
  }

  lemma CleanPastStep(capacity: nat, s: State, t: Tid, s': State)
    requires Inv(s) && CleanPast(s) && Step(capacity, s, t, s')
    ensures CleanPast(s')
  {
    hide Inv, PcOf, Step, SnapshotStep, TakesSnapshot, PastCheck, HoldsRead, HoldsWrite;
    forall u: Tid | PastCheck(PcOf(s', u))
      ensures !s'.memo.dirty
    {
      if u == t && !PastCheck(PcOf(s, t)) {
        if !SnapshotStep(s, t, s') {
          OtherPlaces(capacity, s, t, s');
          AwayIsNotPast(PcOf(s', t));
        } else {
          SnapshotDirt(s, t, s');
        }
      } else {
        if u != t {
          OthersDoNotMove(capacity, s, t, s', u);
        }
        PastReads(PcOf(s, u));
        OneWriter(s, u, t);
        if s'.memo.dirty {
          DirtiedByWriter(capacity, s, t, s');
        }
      }
    }
  }

  lemma AwayIsNotPast(pc: Pc)
    requires pc.ScanCheck? || (!TakesSnapshot(pc) && !pc.ScanSnapshot?)
    ensures !PastCheck(pc)
  {
  }

  lemma PastReads(pc: Pc)
    requires PastCheck(pc)
    ensures HoldsRead(pc)
  {
  }

  lemma {:induction false} RunCleanPast(capacity: nat, run: seq<State>, who: seq<Tid>, i: nat)
    requires Run(capacity, run, who) && i < |run|
    ensures CleanPast(run[i])
  {
    if i == 0 {
      hide Settled, Step;
    } else {
      hide Init, Step, Inv, MemoInv, CleanPast;
      RunCleanPast(capacity, run, who, i - 1);
      RunInv(capacity, run, who, i - 1);
      CleanPastStep(capacity, run[i - 1], who[i - 1], run[i]);
    }
  }

  /** A scan that has taken its snapshot, or found the memo clean, leaves it clean until the next writer. */
  lemma {:induction false} ScanLeavesClean(capacity: nat, run: seq<State>, who: seq<Tid>, t: Tid, i: nat, j: nat)
    requires Run(capacity, run, who) && i <= j < |run| && PastCheck(PcOf(run[i], t))
    requires forall m :: i <= m <= j ==> run[m].writer.None?
    ensures !run[j].memo.dirty
    decreases j - i
  {
    hide Init, Step, Inv, MemoInv, PcOf, PastCheck;
    if i == j {
      RunCleanPast(capacity, run, who, i);
    } else {
      ScanLeavesClean(capacity, run, who, t, i, j - 1);
      RunInv(capacity, run, who, j - 1);
      NoWriter(run[j - 1], who[j - 1]);
      if run[j].memo.dirty {
        DirtiedByWriter(capacity, run[j - 1], who[j - 1], run[j]);
      }
    }
  }

  lemma TwoKeys(order: seq<Bytes>, k: Bytes, l: Bytes)
    requires k in order && l in order && k != l
    ensures |order| >= 2
  {
  }

  lemma PathTo(capacity: nat, origin: State, s: State) returns (run: seq<State>, who: seq<Tid>)
    requires Reachable(capacity, origin, s)
    ensures Frozen(capacity, origin, run, who) && run[|run| - 1] == s
  {
    hide Quiet, Step;
    run, who :| Frozen(capacity, origin, run, who) && run[|run| - 1] == s;
  }

  lemma BlanksVisited(capacity: nat, origin: State, s: State, a: Tid, n: nat) returns (s': State, delivered: seq<Cached>)
    requires Reachable(capacity, origin, s) && s.writer.None? && PcOf(s, a) == ScanSnapshot(Blank(n))
    ensures Reachable(capacity, origin, s')
    ensures PcOf(s', a) == ScanNext(Blank(n), n, delivered) && Blanks(delivered, n, s.live)
  {
    hide Reachable;
    var s1 := Goto(s, a, ScanNext(Blank(n), 0, [])).(readers := s.readers - {a});
    assert VisitStep(s, a, s1);
    ExtendVisit(capacity, origin, s, a, s1);
    s', delivered := VisitsBlanks(capacity, origin, s1, a, n, 0, []);
  }

  lemma SettledDistinct(s: State)
    requires Settled(s)
    ensures DistinctOffsets(s.entries)
  {
    hide ScanLog, FileIndex, Contents, Coherent, DistinctOffsets, KeysDiffer;
    IndexDistinct(s.file, LOG_VERSION);
  }

  /** There is such a store: one with the empty key and another. */
  lemma CollidingStore() returns (s: State)
    ensures Init(s) && s.memo.dirty && [] in s.live && [1] in s.live
  {
    var file := TwoRecords();
    s := State(file, FileIndex(file, LOG_VERSION), NewMemo([], [], FileIndex(file, LOG_VERSION)), [], {}, None, map[],
               Contents(file, LOG_VERSION));
    assert Settled(s) by {
      hide ScanLog, FileIndex, Contents;
    }
    assert [] in s.entries by {
      hide ScanLog, FileIndex, Contents;
      ContentsKeys(file, LOG_VERSION);
      assert [] in Contents(file, LOG_VERSION).Keys;
    }
    hide Settled, FileIndex, Contents;
    assert |s.entries| != 0;
  }

  lemma TwoRecords() returns (file: Bytes)
    ensures |file| >= HEADER_SIZE && ScanLog(file, LOG_VERSION).outcome == Done
    ensures [] in Contents(file, LOG_VERSION) && [1] in Contents(file, LOG_VERSION)
  {
    hide ScanLog, FileIndex, Contents, AppendBytes, EMPTY_LOG, Acceptable, AppendedRecord;
    EmptyLogScans();
    EmptyBlock();
    assert ExtensionsFramed([]);
    var one := EMPTY_LOG + AppendBytes([], [], false, map[], []);
    AppendRefines(EMPTY_LOG, [], [], false, map[], []);
    file := one + AppendBytes([1], [], false, map[], []);
    AppendRefines(one, [1], [], false, map[], []);
  }

  lemma SettledKeys(s: State)
    requires Settled(s)
    ensures forall k :: k in s.entries <==> k in s.live
  {
    hide ScanLog, FileIndex, Contents, Coherent;
    ContentsKeys(s.file, LOG_VERSION);
    assert s.entries.Keys == s.live.Keys;
  }
}

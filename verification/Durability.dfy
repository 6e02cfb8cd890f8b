/**
 What an acknowledgement is worth: an acknowledged Put or Delete stands, at every instant of every run
 and in whatever state a crash leaves the directory, until the next write of the same key begins. And
 what a compaction that went through has put in the main place.
 */
module Durability {
  import opened Bytes
  import opened Attributes
  import opened Scan
  import opened LogMap
  import opened Compaction
  import opened Disk
  import opened FileMeaning
  import opened Lifecycle

  /** The items are as the operation left its key. */
  predicate Says(items: Items, op: Op) {
    if op.deleted then op.key !in items
    else op.key in items && items[op.key].value == op.value && items[op.key].attributes == op.attributes
  }

  /** The operation is acknowledged in this step. */
  predicate Acknowledges(s: State, s': State, op: Op) {
    s.mode.Appending? && s.mode.op == op && s'.mode.Up?
  }

  /** A write of the key is under way. */
  predicate Writes(s: State, key: Bytes) {
    s.mode.Appending? && s.mode.op.key == key
  }

  predicate Stands(s: State, op: Op) {
    Says(s.acked, op) && (s.pending.Some? ==> Says(s.pending.value, op))
  }

  // --------------------------------------------------------------- single steps

  predicate SameClaims(s: State, s': State) {
    s'.acked == s.acked && s'.pending == s.pending
  }

  predicate Worsens(s: State, s': State) {
    s.rollbackFailed ==> s'.rollbackFailed
  }

  lemma RecoverClaims(s: State, s': State)
    requires Recover(s, s')
    ensures SameClaims(s, s') && Worsens(s, s')
  {
    hide EMPTY_LOG, RecoveryPlan, Exec, Enabled;
  }

  lemma MigrateClaims(c: Config, s: State, s': State)
    requires Migrate(c, s, s')
    ensures SameClaims(s, s') && Worsens(s, s')
  {
    hide VersionOf, CompactFile, PartlyUpgraded, Exec, Enabled;
  }

  lemma PrepareClaims(s: State, s': State)
    requires s.mode.Compacting? && PrepareCompact(s, s')
    ensures SameClaims(s, s') && Worsens(s, s')
  {
    hide Exec, Enabled;
  }

  lemma SwapClaims(s: State, s': State)
    requires s.mode.Compacting? && SwapCompact(s, s')
    ensures SameClaims(s, s') && Worsens(s, s')
  {
    hide Exec, Enabled, EMPTY_LOG;
  }

  lemma AppendClaims(s: State, s': State, op: Op)
    requires Append(s, s') && Stands(s, op) && !Writes(s, op.key) && !Writes(s', op.key)
    ensures Stands(s', op) && Worsens(s, s')
  {
    hide Accepted, OpBytes;
  }

  lemma ScanClaims(c: Config, s: State, s': State, op: Op)
    requires Inv(c, s) && !s.rollbackFailed && CompleteScan(c, s, s') && Stands(s, op)
    ensures Stands(s', op) && Worsens(s, s')
  {
    hide Good, VersionOf, IsReadOnly, Repaired, Meaning, ConfigOk, BackupFirst, Says;
    var file := s.files[Main];
    GoodSize(file);
    RepairKeeps(file);
  }

  lemma StepStands(c: Config, s: State, s': State, op: Op)
    requires Inv(c, s) && !s.rollbackFailed && Next(c, s, s')
    requires Stands(s, op) && !Writes(s, op.key) && !Writes(s', op.key)
    ensures Stands(s', op)
  {
    hide Inv, Recover, CompleteScan, Migrate, Append, PrepareCompact, SwapCompact, Says, CompactFile;
    if Recover(s, s') {
      RecoverClaims(s, s');
    } else if CompleteScan(c, s, s') {
      ScanClaims(c, s, s', op);
    } else if Migrate(c, s, s') {
      MigrateClaims(c, s, s');
    } else if Append(s, s') {
      AppendClaims(s, s', op);
    } else if s.mode.Compacting? && PrepareCompact(s, s') {
      PrepareClaims(s, s');
    } else if s.mode.Compacting? && SwapCompact(s, s') {
      SwapClaims(s, s');
    }
  }

  /** A failed rollback is not forgotten. */
  lemma StepWorsens(c: Config, s: State, s': State)
    requires Next(c, s, s')
    ensures Worsens(s, s')
  {
    hide Recover, Migrate, PrepareCompact, SwapCompact, CompactFile, Meaning, Repaired, Good, Accepted, OpBytes, Applied;
    if Recover(s, s') {
      RecoverClaims(s, s');
    } else if Migrate(c, s, s') {
      MigrateClaims(c, s, s');
    } else if s.mode.Compacting? && PrepareCompact(s, s') {
      PrepareClaims(s, s');
    } else if s.mode.Compacting? && SwapCompact(s, s') {
      SwapClaims(s, s');
    }
  }

  lemma AcknowledgedStands(c: Config, s: State, s': State, op: Op)
    requires Next(c, s, s') && Acknowledges(s, s', op)
    ensures Stands(s', op)
  {
    hide CompactFile, Meaning, Repaired, Good, Accepted, OpBytes, PartlyUpgraded, RecoveryPlan;
  }

  // --------------------------------------------------------------- whole runs

  lemma {:induction false} RunWorsens(c: Config, run: seq<State>, i: nat, j: nat)
    requires Run(c, run) && i <= j < |run|
    ensures Worsens(run[i], run[j])
    decreases j - i
  {
    hide Init, Next;
    if i < j {
      RunWorsens(c, run, i, j - 1);
      assert Next(c, run[j - 1], run[j - 1 + 1]);
      StepWorsens(c, run[j - 1], run[j]);
    }
  }

  lemma {:induction false} RunStands(c: Config, run: seq<State>, i: nat, j: nat, op: Op)
    requires Run(c, run) && i < j < |run| && Acknowledges(run[i], run[i + 1], op)
    requires !run[j].rollbackFailed && forall l :: i < l <= j ==> !Writes(run[l], op.key)
    ensures Stands(run[j], op)
    decreases j - i
  {
    hide Init, Next, Inv, Writes, Stands;
    if j == i + 1 {
      assert Next(c, run[i], run[i + 1]);
      AcknowledgedStands(c, run[i], run[i + 1], op);
    } else {
      RunWorsens(c, run, j - 1, j);
      RunStands(c, run, i, j - 1, op);
      RunInv(c, run, j - 1);
      assert Next(c, run[j - 1], run[j - 1 + 1]);
      StepStands(c, run[j - 1], run[j], op);
    }
  }

  /**
   Durability: from the acknowledgement of a Put or Delete until the next write of its key begins, the
   file that a recovery would choose holds the value and attributes that were put, or does not hold the
   key, whatever was appended, compacted, migrated, interrupted or reopened in between. It is enough that
   no rollback failed.
   */
  lemma AcknowledgedSurvives(c: Config, run: seq<State>, i: nat, j: nat, op: Op)
    requires Run(c, run) && i < j < |run| && Acknowledges(run[i], run[i + 1], op)
    requires !run[j].rollbackFailed && forall l :: i < l <= j ==> !Writes(run[l], op.key)
    ensures match Target(run[j].files)
      case None => op.deleted
      case Some(file) => Good(file) && Says(Meaning(file), op)
    ensures run[j].mode.Up? ==> Main in run[j].files && Says(Meaning(run[j].files[Main]), op)
  {
    hide Run, Good, VersionOf, IsReadOnly, Meaning, ConfigOk, BackupFirst, Serving, Target, PlanKeeps, CompactInv;
    RunStands(c, run, i, j, op);
    RunInv(c, run, j);
  }

  // --------------------------------------------------------------- compaction

  /** One compaction from its start to some point of it. */
  ghost predicate CompactsFrom(run: seq<State>, i: nat, j: nat)
    requires i < j < |run|
  {
    (run[i].mode.Up? || run[i].mode.AskMigrate?) && forall l :: i < l <= j ==> run[l].mode.Compacting?
  }

  lemma StartsCompacting(c: Config, s: State, s': State)
    requires Next(c, s, s') && (s.mode.Up? || s.mode.AskMigrate?) && s'.mode.Compacting?
    ensures Main in s.files && |s.files[Main]| >= HEADER_SIZE
    ensures s'.mode.output == CompactFile(s.files[Main], if s.mode.Up? then LOG_VERSION else VersionOf(s.files[Main]))
  {
    hide CompactFile, VersionOf, Meaning, Repaired, Good, Accepted, OpBytes, PartlyUpgraded, RecoveryPlan;
  }

  lemma PrepareOutput(s: State, s': State)
    requires s.mode.Compacting? && PrepareCompact(s, s') && s'.mode.Compacting?
    ensures s'.mode.output == s.mode.output
  {
    hide Exec, Enabled;
  }

  lemma SwapOutput(s: State, s': State)
    requires s.mode.Compacting? && SwapCompact(s, s') && s'.mode.Compacting?
    ensures s'.mode.output == s.mode.output
  {
    hide Exec, Enabled, EMPTY_LOG;
  }

  lemma KeepsOutput(c: Config, s: State, s': State)
    requires Next(c, s, s') && s.mode.Compacting? && s'.mode.Compacting?
    ensures s'.mode.output == s.mode.output
  {
    hide PrepareCompact, SwapCompact, CompactFile, Meaning, Repaired, Good;
    if PrepareCompact(s, s') {
      PrepareOutput(s, s');
    } else {
      SwapOutput(s, s');
    }
  }

  lemma {:induction false} OutputIsCompacted(c: Config, run: seq<State>, i: nat, j: nat)
    requires Run(c, run) && i < j < |run| && CompactsFrom(run, i, j)
    ensures Main in run[i].files && |run[i].files[Main]| >= HEADER_SIZE
    ensures run[j].mode.output
         == CompactFile(run[i].files[Main], if run[i].mode.Up? then LOG_VERSION else VersionOf(run[i].files[Main]))
    decreases j - i
  {
    hide Init, Next, CompactFile, VersionOf;
    if j == i + 1 {
      StartsCompacting(c, run[i], run[i + 1]);
    } else {
      OutputIsCompacted(c, run, i, j - 1);
      assert Next(c, run[j - 1], run[j - 1 + 1]);
      KeepsOutput(c, run[j - 1], run[j]);
    }
  }

  /**
   A compaction that has only its backup left to drop has put the compacted form of the log it started
   from in the main place; a migration from before version 4 does the same.
   */
  lemma CompactionInstalls(c: Config, run: seq<State>, i: nat, j: nat)
    requires Run(c, run) && i < j < |run| && CompactsFrom(run, i, j)
    requires run[j].mode.step.DropBackup? && !run[j].rollbackFailed
    ensures Main in run[i].files && |run[i].files[Main]| >= HEADER_SIZE && Main in run[j].files
    ensures run[j].files[Main]
         == CompactFile(run[i].files[Main], if run[i].mode.Up? then LOG_VERSION else VersionOf(run[i].files[Main]))
  {
    hide Run, CompactFile, VersionOf, ConfigOk, Recoverable, BackupFirst, Serving, Meaning, Compactable;
    OutputIsCompacted(c, run, i, j);
    RunInv(c, run, j);
  }

  // --------------------------------------------------------------- what can always happen

  /** A sequence of steps. */
  ghost predicate Path(c: Config, path: seq<State>) {
    |path| > 0 && forall i :: 0 <= i < |path| - 1 ==> Next(c, path[i], path[i + 1])
  }

  ghost predicate IsPath(c: Config, path: seq<State>, s: State, s': State) {
    Path(c, path) && path[0] == s && path[|path| - 1] == s'
  }

  /** `s'` can come after `s`. */
  ghost predicate Leads(c: Config, s: State, s': State) {
    exists path: seq<State> :: IsPath(c, path, s, s')
  }

  lemma LeadsStep(c: Config, s: State, s': State)
    requires Next(c, s, s')
    ensures Leads(c, s, s')
  {
    hide Next;
    assert IsPath(c, [s, s'], s, s');
  }

  lemma LeadsOn(c: Config, s: State, s': State, s'': State)
    requires Leads(c, s, s') && Leads(c, s', s'')
    ensures Leads(c, s, s'')
  {
    hide Next;
    var p :| IsPath(c, p, s, s');
    var q :| IsPath(c, q, s', s'');
    var r := p + q[1..];
    forall i | 0 <= i < |r| - 1
      ensures Next(c, r[i], r[i + 1])
    {
      if i >= |p| - 1 {
        assert r[i] == q[i - |p| + 1] && r[i + 1] == q[i - |p| + 2];
      }
    }
    assert IsPath(c, r, s, s'');
  }

  /** A crash is possible at every instant. */
  lemma CrashIsPossible(c: Config, s: State)
    ensures Leads(c, s, s.(mode := Down))
  {
    LeadsStep(c, s, s.(mode := Down));
  }

  lemma AppendLeads(c: Config, s: State, s': State)
    requires Append(s, s')
    ensures Leads(c, s, s')
  {
    hide Append;
    LeadsStep(c, s, s');
  }

  function Started(s: State, op: Op): State
    requires Main in s.files
  {
    s.(mode := Appending(s.files[Main], op, 0), pending := Some(Applied(s.acked, op)))
  }

  ghost function Written(s: State, op: Op): State
    requires Main in s.files
  {
    Started(s, op).(files := s.files[Main := s.files[Main] + OpBytes(op)],
                    mode := Appending(s.files[Main], op, |OpBytes(op)|))
  }

  ghost function Finished(s: State, op: Op): State
    requires Main in s.files
  {
    Written(s, op).(mode := Up, acked := Applied(s.acked, op), pending := None)
  }

  lemma AppendStarts(s: State, op: Op)
    requires s.mode.Up? && Main in s.files && Accepted(op)
    ensures Append(s, Started(s, op))
  {
    hide Accepted, Applied;
  }

  lemma AppendWrites(s: State, op: Op)
    requires s.mode.Up? && Main in s.files
    ensures Append(Started(s, op), Written(s, op))
  {
    hide Applied, AppendBytes;
    assert OpBytes(op)[..|OpBytes(op)|] == OpBytes(op);
  }

  lemma AppendFinishes(s: State, op: Op)
    requires s.mode.Up? && Main in s.files
    ensures Append(Written(s, op), Finished(s, op))
  {
    hide Applied, AppendBytes;
  }

  /** Every accepted operation on a store that is up can go through and be acknowledged. */
  lemma AppendCanComplete(c: Config, s: State, op: Op)
    requires s.mode.Up? && Main in s.files && Accepted(op)
    ensures var b := AppendBytes(op.key, op.value, op.deleted, op.attributes, []);
      exists s1: State, s2: State ::
        && Leads(c, s, s1) && Next(c, s1, s2) && Acknowledges(s1, s2, op)
        && s2.files == s.files[Main := s.files[Main] + b]
  {
    hide AppendBytes, Accepted, Append, Next, Applied, Leads;
    AppendStarts(s, op);
    AppendWrites(s, op);
    AppendFinishes(s, op);
    AppendLeads(c, s, Started(s, op));
    AppendLeads(c, Started(s, op), Written(s, op));
    LeadsOn(c, s, Started(s, op), Written(s, op));
    AppendIsStep(c, Written(s, op), Finished(s, op));
  }

  lemma AppendIsStep(c: Config, s: State, s': State)
    requires Append(s, s')
    ensures Next(c, s, s')
  {
    hide Append;
  }

  lemma PrepareLeads(c: Config, s: State, s': State)
    requires s.mode.Compacting? && PrepareCompact(s, s')
    ensures Leads(c, s, s')
  {
    hide PrepareCompact;
    LeadsStep(c, s, s');
  }

  lemma SwapLeads(c: Config, s: State, s': State)
    requires s.mode.Compacting? && SwapCompact(s, s')
    ensures Leads(c, s, s')
  {
    hide SwapCompact;
    LeadsStep(c, s, s');
  }

  lemma ClearCanComplete(c: Config, s: State)
    requires s.mode.Compacting? && s.mode.step.RemoveTemp?
    ensures Leads(c, s, At(s, CreateTemp).(files := s.files - {Temp, Ready, Backup}))
  {
    hide Leads;
    var s1 := At(s, RemoveReady).(files := Exec(s.files, Remove(Temp)));
    var s2 := At(s1, RemoveBackup).(files := Exec(s1.files, Remove(Ready)));
    var s3 := At(s2, CreateTemp).(files := Exec(s2.files, Remove(Backup)));
    PrepareLeads(c, s, s1);
    PrepareLeads(c, s1, s2);
    PrepareLeads(c, s2, s3);
    LeadsOn(c, s, s1, s2);
    LeadsOn(c, s, s2, s3);
    assert s3.files == s.files - {Temp, Ready, Backup};
  }

  lemma WriteCanComplete(c: Config, s: State)
    requires s.mode.Compacting? && s.mode.step.CreateTemp? && s.mode.output != []
    ensures Leads(c, s, At(s, MoveToReady).(files := s.files[Temp := s.mode.output]))
  {
    hide Leads;
    var out := s.mode.output;
    var s1 := At(s, WriteTemp(0)).(files := s.files[Temp := []]);
    var s2 := At(s1, WriteTemp(|out|)).(files := s1.files[Temp := out]);
    var s3 := At(s2, MoveToReady);
    assert out[..|out|] == out;
    PrepareLeads(c, s, s1);
    PrepareLeads(c, s1, s2);
    PrepareLeads(c, s2, s3);
    LeadsOn(c, s, s1, s2);
    LeadsOn(c, s, s2, s3);
    assert s3.files == s.files[Temp := out];
  }

  lemma ReadyCanComplete(c: Config, s: State)
    requires s.mode.Compacting? && s.mode.step.MoveToReady? && Temp in s.files
    ensures Leads(c, s, At(s, MoveToBackup).(files := (s.files - {Temp})[Ready := s.files[Temp]]))
  {
    hide Leads;
    var s1 := At(s, SyncReady).(files := Exec(s.files, Rename(Temp, Ready)));
    var s2 := At(s1, CloseOld);
    var s3 := At(s2, MoveToBackup);
    PrepareLeads(c, s, s1);
    PrepareLeads(c, s1, s2);
    PrepareLeads(c, s2, s3);
    LeadsOn(c, s, s1, s2);
    LeadsOn(c, s, s2, s3);
  }

  lemma SwapCanComplete(c: Config, s: State)
    requires s.mode.Compacting? && s.mode.step.MoveToBackup? && Main in s.files && Ready in s.files
    ensures Leads(c, s, s.(files := (s.files - {Ready, Backup})[Main := s.files[Ready]], mode := Up))
  {
    hide Leads;
    var s1 := At(s, Install).(files := Exec(s.files, Rename(Main, Backup)));
    var s2 := At(s1, Reopen).(files := Exec(s1.files, Rename(Ready, Main)));
    var s3 := At(s2, DropBackup);
    var s4 := s3.(files := s3.files - {Backup}, mode := Up);
    SwapLeads(c, s, s1);
    SwapLeads(c, s1, s2);
    SwapLeads(c, s2, s3);
    SwapLeads(c, s3, s4);
    LeadsOn(c, s, s1, s2);
    LeadsOn(c, s2, s3, s4);
    LeadsOn(c, s, s2, s4);
    assert s4.files == (s.files - {Ready, Backup})[Main := s.files[Ready]];
  }

  /** A compaction can always go through: it leaves the compacted log in the main place and nothing beside it. */
  lemma CompactionCanComplete(c: Config, s: State)
    requires s.mode.Up? && Main in s.files && |s.files[Main]| >= HEADER_SIZE
    ensures Leads(c, s, s.(
      files := (s.files - {Temp, Ready, Backup})[Main := CompactFile(s.files[Main], LOG_VERSION)], faults := 0))
  {
    hide CompactFile, Leads, Next;
    var main, out := s.files[Main], CompactFile(s.files[Main], LOG_VERSION);
    CompactedNotEmpty(main);
    var s1 := s.(faults := 0, mode := Compacting(RemoveTemp, false, main, out));
    assert Next(c, s, s1) by { StartIsStep(c, s, s1); }
    LeadsStep(c, s, s1);
    var s2 := At(s1, CreateTemp).(files := s1.files - {Temp, Ready, Backup});
    ClearCanComplete(c, s1);
    LeadsOn(c, s, s1, s2);
    var s3 := At(s2, MoveToReady).(files := s2.files[Temp := out]);
    WriteCanComplete(c, s2);
    LeadsOn(c, s, s2, s3);
    var s4 := At(s3, MoveToBackup).(files := (s3.files - {Temp})[Ready := out]);
    ReadyCanComplete(c, s3);
    LeadsOn(c, s, s3, s4);
    var s5 := s4.(files := (s4.files - {Ready, Backup})[Main := out], mode := Up);
    SwapCanComplete(c, s4);
    LeadsOn(c, s, s4, s5);
    assert s5.files == (s.files - {Temp, Ready, Backup})[Main := out];
  }

  lemma CompactedNotEmpty(main: Bytes)
    requires |main| >= HEADER_SIZE
    ensures CompactFile(main, LOG_VERSION) != []
  {
    hide CompactFile, ScanLog, FileIndex, Contents, TotalSize, EMPTY_LOG, LiveKeys;
    CompactionPreserves(main, LOG_VERSION);
  }

  lemma StartIsStep(c: Config, s: State, s': State)
    requires StartCompact(s, s')
    ensures Next(c, s, s')
  {
    hide StartCompact;
  }
}

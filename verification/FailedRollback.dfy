/**
 The one way to lose data: installing the compacted log fails, and so does the rename that should
 put the old log back. Opening the missing main log then creates an empty one, which recovery
 prefers to both copies of the data.
 */
module FailedRollback {
  import opened Bytes
  import opened Attributes
  import opened Record
  import opened Scan
  import opened LogMap
  import opened Compaction
  import opened Disk
  import opened FileMeaning
  import opened Lifecycle

  /** After a failed rollback the database is recoverable exactly when nothing was stored in it. */
  lemma FailedRollbackSafeIff(c: Config, s: State, s': State)
    requires Inv(c, s) && !s.rollbackFailed && s.mode.Compacting? && LosesMain(s, s')
    ensures Recoverable(s') <==> s.acked == map[]
  {
    hide Good, Meaning, EMPTY_LOG, ConfigOk, BackupFirst, Serving, Recoverable;
    EmptyLogServes();
    ServingIsGood(EMPTY_LOG);
    LostTarget(s, s');
    assert s'.pending.None?;
    RecoverableMain(s');
  }

  lemma LostTarget(s: State, s': State)
    requires s.mode.Compacting? && LosesMain(s, s')
    ensures Main in s'.files && s'.files[Main] == EMPTY_LOG && s'.acked == s.acked && s'.pending == s.pending
  {
    hide EMPTY_LOG;
  }

  lemma RecoverableMain(s: State)
    requires Main in s.files && Good(s.files[Main]) && s.pending.None?
    ensures Recoverable(s) <==> Meaning(s.files[Main]) == s.acked
  {
    hide Good, Meaning;
  }

  // --------------------------------------------------------------- a run that loses data

  ghost predicate Reachable(c: Config, s: State) {
    exists run: seq<State> :: Run(c, run) && run[|run| - 1] == s
  }

  lemma Start(c: Config, s: State)
    requires Init(c, s)
    ensures Reachable(c, s)
  {
    hide Init;
    assert Run(c, [s]);
  }

  lemma Extend(c: Config, s: State, s': State)
    requires Reachable(c, s) && Next(c, s, s')
    ensures Reachable(c, s')
  {
    hide Init, Next;
    var run :| Run(c, run) && run[|run| - 1] == s;
    var longer := run + [s'];
    forall i | 0 <= i < |longer| - 1
      ensures Next(c, longer[i], longer[i + 1])
    {
      if i < |run| - 1 {
        assert Next(c, run[i], run[i + 1]);
      }
    }
    assert Run(c, longer);
  }

  /** A current log with one record. */
  ghost const OneRecord: Bytes := EMPTY_LOG + AppendBytes([], [], false, map[], [])

  const OneItem: Items := map[[] := Item([], map[], [])]

  lemma OneRecordServes()
    ensures Serving(OneRecord) && Meaning(OneRecord) == OneItem
  {
    hide Serving, Meaning, EMPTY_LOG, AppendBytes, Acceptable;
    EmptyLogServes();
    EmptyBlock();
    assert ExtensionsFramed([]);
    AppendServes(EMPTY_LOG, [], [], false, map[]);
  }

  /** Recovery of a directory that holds only the main log leaves it as it is. */
  lemma {:induction false} RecoveryOfMainOnly(c: Config, s: State, plan: seq<Action>)
    requires Reachable(c, s) && s.mode == Recovering(plan)
    requires s.files.Keys == {Main}
    requires forall i :: 0 <= i < |plan| ==> plan[i].Remove? && plan[i].name != Main
    ensures Reachable(c, s.(mode := Recovering([])))
    decreases |plan|
  {
    hide Init;
    if |plan| > 0 {
      var s' := s.(mode := Recovering(plan[1..]));
      assert Exec(s.files, plan[0]) == s.files;
      assert Recover(s, s');
      assert Next(c, s, s');
      hide Next, Reachable;
      Extend(c, s, s');
      RecoveryOfMainOnly(c, s', plan[1..]);
    }
  }

  ghost const Settings: Config := Config(true, LOG_VERSION, [])

  ghost function UpState(file: Bytes): State {
    State(map[Main := file], Up, Meaning(file), None, 0, 0, false)
  }

  /** Any current log can be the one a running store serves. */
  lemma ServedIsReachable(file: Bytes)
    requires Serving(file)
    ensures Reachable(Settings, UpState(file))
  {
    hide Good, Meaning, VersionOf, IsReadOnly, Repaired, Serving, EMPTY_LOG, Reachable;
    ServingIsGood(file);
    ServingNotEmpty(file);
    var down := UpState(file).(mode := Down);
    assert Init(Settings, down);
    Start(Settings, down);
    var plan := RecoveryPlan(down.files);
    var recovering := down.(mode := Recovering(plan));
    assert Recover(down, recovering);
    Extend(Settings, down, recovering);
    assert plan == [Remove(Ready), Remove(Backup), Remove(Legacy), Remove(Temp), Remove(Ready), Remove(Backup), Remove(Legacy)];
    RecoveryOfMainOnly(Settings, recovering, plan);
    var recovered, scanning := down.(mode := Recovering([])), down.(mode := Scanning);
    assert Recover(recovered, scanning);
    Extend(Settings, recovered, scanning);
    assert down.files[Main := file] == down.files;
    assert CompleteScan(Settings, scanning, UpState(file));
    Extend(Settings, scanning, UpState(file));
  }

  lemma ServingNotEmpty(file: Bytes)
    requires Serving(file)
    ensures file != []
  {
  }

  ghost function InCompaction(file: Bytes, output: Bytes, step: CompactStep, files: Files): State {
    State(files, Compacting(step, false, file, output), Meaning(file), None, 0, 0, false)
  }

  /** A step of a compaction extends a run. */
  lemma ExtendPrepare(c: Config, s: State, s': State)
    requires Reachable(c, s) && s.mode.Compacting? && PrepareCompact(s, s')
    ensures Reachable(c, s')
  {
    hide PrepareCompact, SwapCompact, Reachable;
    assert Next(c, s, s');
    Extend(c, s, s');
  }

  lemma ExtendSwap(c: Config, s: State, s': State)
    requires Reachable(c, s) && s.mode.Compacting? && SwapCompact(s, s')
    ensures Reachable(c, s')
  {
    hide PrepareCompact, SwapCompact, Reachable;
    assert Next(c, s, s');
    Extend(c, s, s');
  }

  /** A compaction of a served log can get past clearing what earlier ones left. */
  lemma ClearedIsReachable(file: Bytes, output: Bytes)
    requires Serving(file) && |file| >= HEADER_SIZE && output == CompactFile(file, LOG_VERSION)
    ensures Reachable(Settings, InCompaction(file, output, CreateTemp, map[Main := file]))
  {
    hide Good, Meaning, VersionOf, IsReadOnly, Repaired, Serving, EMPTY_LOG, Reachable, CompactFile;
    ServedIsReachable(file);
    var only := map[Main := file];
    var c0 := InCompaction(file, output, RemoveTemp, only);
    assert StartCompact(UpState(file), c0);
    Extend(Settings, UpState(file), c0);
    assert only - {Temp} == only && only - {Ready} == only && only - {Backup} == only;
    var c1 := InCompaction(file, output, RemoveReady, only);
    assert Performs(c0, c1, Remove(Temp), RemoveReady);
    ExtendPrepare(Settings, c0, c1);
    var c2 := InCompaction(file, output, RemoveBackup, only);
    assert Performs(c1, c2, Remove(Ready), RemoveBackup);
    ExtendPrepare(Settings, c1, c2);
    var c3 := InCompaction(file, output, CreateTemp, only);
    assert Performs(c2, c3, Remove(Backup), CreateTemp);
    ExtendPrepare(Settings, c2, c3);
  }

  /** Then as far as having the replacement written beside the log. */
  lemma WrittenIsReachable(file: Bytes, output: Bytes)
    requires Serving(file) && |file| >= HEADER_SIZE && output == CompactFile(file, LOG_VERSION) && |output| > 0
    ensures Reachable(Settings, InCompaction(file, output, WriteTemp(|output|), map[Main := file, Temp := output]))
  {
    hide Good, Meaning, VersionOf, IsReadOnly, Repaired, Serving, EMPTY_LOG, Reachable, CompactFile;
    ClearedIsReachable(file, output);
    var only := map[Main := file];
    var c3 := InCompaction(file, output, CreateTemp, only);
    var c4 := InCompaction(file, output, WriteTemp(0), only[Temp := []]);
    assert PrepareCompact(c3, c4);
    ExtendPrepare(Settings, c3, c4);
    var c5 := InCompaction(file, output, WriteTemp(|output|), map[Main := file, Temp := output]);
    assert output[..|output|] == output;
    assert c4.files[Temp := output] == c5.files;
    assert PrepareCompact(c4, c5);
    ExtendPrepare(Settings, c4, c5);
  }

  /** And from there to having moved the old log aside. */
  lemma MovedIsReachable(file: Bytes, output: Bytes)
    requires Serving(file) && |file| >= HEADER_SIZE && output == CompactFile(file, LOG_VERSION) && |output| > 0
    ensures Reachable(Settings, InCompaction(file, output, Install, map[Ready := output, Backup := file]))
  {
    hide Good, Meaning, VersionOf, IsReadOnly, Repaired, Serving, EMPTY_LOG, Reachable, CompactFile;
    WrittenIsReachable(file, output);
    var written := map[Main := file, Temp := output];
    var ready := map[Main := file, Ready := output];
    var moved := map[Ready := output, Backup := file];
    var c5 := InCompaction(file, output, WriteTemp(|output|), written);
    var c6 := InCompaction(file, output, MoveToReady, written);
    assert PrepareCompact(c5, c6);
    ExtendPrepare(Settings, c5, c6);
    var c7 := InCompaction(file, output, SyncReady, ready);
    assert Exec(written, Rename(Temp, Ready)) == ready;
    assert Performs(c6, c7, Rename(Temp, Ready), SyncReady);
    ExtendPrepare(Settings, c6, c7);
    var c8 := InCompaction(file, output, CloseOld, ready);
    assert PrepareCompact(c7, c8);
    ExtendPrepare(Settings, c7, c8);
    var c9 := InCompaction(file, output, MoveToBackup, ready);
    assert PrepareCompact(c8, c9);
    ExtendPrepare(Settings, c8, c9);
    var c10 := InCompaction(file, output, Install, moved);
    assert Exec(ready, Rename(Main, Backup)) == moved;
    assert Performs(c9, c10, Rename(Main, Backup), Install);
    ExtendSwap(Settings, c9, c10);
  }

  /** Two failing renames in one compaction lose everything that was stored. */
  lemma TwoFailuresLoseData() returns (s: State)
    ensures Reachable(Settings, s) && s.rollbackFailed && s.worst == 2
    ensures s.acked == OneItem && Target(s.files) == Some(EMPTY_LOG) && Meaning(EMPTY_LOG) == map[]
  {
    hide Good, Meaning, VersionOf, IsReadOnly, Repaired, Serving, EMPTY_LOG, Reachable, CompactFile, OneRecord, OneItem;
    OneRecordServes();
    EmptyLogServes();
    var file := OneRecord;
    ServingIsGood(file);
    assert |file| >= HEADER_SIZE by { ServingSize(file); }
    var output := CompactFile(file, LOG_VERSION);
    CompactServes(file);
    assert |output| > 0 by { ServingSize(output); }
    MovedIsReachable(file, output);
    var moved := map[Ready := output, Backup := file];
    var install := InCompaction(file, output, Install, moved);
    var rollback := Fault(At(install, Rollback));
    assert FailsTo(install, rollback, Rollback);
    Extend(Settings, install, rollback);
    s := Fault(rollback).(files := moved[Main := EMPTY_LOG], rollbackFailed := true, mode := Up);
    assert LosesMain(rollback, s);
    Extend(Settings, rollback, s);
  }

  lemma ServingSize(file: Bytes)
    requires Serving(file)
    ensures |file| >= HEADER_SIZE
  {
  }
}

/**
 The life of a database over any number of processes: opening, recovering, migrating, appending and
 compacting, one file operation at a time, with a crash possible between any two of them and any
 operation allowed to fail.
 */
module Lifecycle {
  import opened Bytes
  import opened Attributes
  import opened Scan
  import opened LogMap
  import opened Compaction
  import opened Disk
  import opened FileMeaning

  /** The operation an append carries out. */
  datatype Op = Op(key: Bytes, value: Bytes, deleted: bool, attributes: Attributes)

  ghost predicate Accepted(op: Op) {
    AppendAccepts(op.key, op.value, op.attributes, [])
  }

  ghost function OpBytes(op: Op): Bytes {
    AppendBytes(op.key, op.value, op.deleted, op.attributes, [])
  }

  function Applied(items: Items, op: Op): Items {
    ApplyItem(items, op.key, op.deleted, Item(op.value, op.attributes, []))
  }

  /** Where a compaction stands. The last five are its ways out of a failure. */
  datatype CompactStep =
    | RemoveTemp
    | RemoveReady
    | RemoveBackup
    | CreateTemp
    | WriteTemp(written: nat)
    | MoveToReady
    | SyncReady
    | CloseOld
    | MoveToBackup
    | Install
    | Reopen
    | DropBackup
    | UndoTemp
    | UndoReady
    | Rollback
    | RemoveInstalled
    | RollbackInstalled

  datatype Mode =
    | Down
    | Recovering(plan: seq<Action>)
    | Scanning
    | CheckBackup
    | CopyBackup(copied: nat)
    | InstallBackup
    | DropBackupTemp
    | AskMigrate
    | UpgradingHeader(upgraded: nat)
    | Up
    | ReadOnlyUp
    | Appending(base: Bytes, op: Op, written: nat)
    | Compacting(step: CompactStep, migrating: bool, prior: Bytes, output: Bytes)

  /** What a run does not change: whether backups are kept, and the old-format log it starts from, if any. */
  datatype Config = Config(withBackup: bool, oldVersion: nat, original: Bytes)

  datatype State = State(
    files: Files,
    mode: Mode,
    acked: Items,             // what the last completed open served, plus every acknowledged operation
    pending: Option<Items>,   // what the operation in flight would make of it
    faults: nat,              // failed operations in the current compaction
    worst: nat,               // the most that failed in any one compaction
    rollbackFailed: bool)     // a rename that should have undone a failed installation failed too

  function BackupName(c: Config): Name { MigrationBackup(c.oldVersion) }

  function BackupTempName(c: Config): Name { MigrationBackupTemp(c.oldVersion) }

  function Fault(s: State): State {
    s.(faults := s.faults + 1, worst := if s.worst < s.faults + 1 then s.faults + 1 else s.worst)
  }

  /** A failed migration fails the open; a failed compaction leaves the store up. */
  function AfterFailure(migrating: bool): Mode {
    if migrating then Down else Up
  }

  // --------------------------------------------------------------- steps

  ghost predicate Crash(s: State, s': State) {
    s' == s.(mode := Down)
  }

  ghost predicate Recover(s: State, s': State) {
    match s.mode
    case Down => s' == s.(mode := Recovering(RecoveryPlan(s.files)))
    case Recovering(plan) =>
      if |plan| > 0 then
        || (Enabled(s.files, plan[0]) && s' == s.(files := Exec(s.files, plan[0]), mode := Recovering(plan[1..])))
        || s' == s.(mode := Down)
      else if Main !in s.files || s.files[Main] == [] then s' == s.(files := s.files[Main := EMPTY_LOG], mode := Scanning)
      else s' == s.(mode := Scanning)
    case _ => false
  }

  function ModeAfterScan(c: Config, file: Bytes): Mode {
    if IsReadOnly(file) then ReadOnlyUp
    else if VersionOf(file) == LOG_VERSION then Up
    else if c.withBackup then CheckBackup
    else AskMigrate
  }

  /** The scan at open: repairs the log and decides what the store serves. */
  ghost predicate CompleteScan(c: Config, s: State, s': State) {
    && s.mode.Scanning? && Main in s.files && Good(s.files[Main])
    && var file := Repaired(s.files[Main]);
       s' == s.(files := s.files[Main := file], acked := Meaning(file), pending := None, mode := ModeAfterScan(c, file))
  }

  ghost predicate FailScan(s: State, s': State) {
    s.mode.Scanning? && s' == s.(mode := Down)
  }

  ghost predicate Migrate(c: Config, s: State, s': State) {
    && Main in s.files
    && var main := s.files[Main];
    match s.mode
    case CheckBackup =>
      if BackupName(c) in s.files then s' == s.(mode := AskMigrate)
      else s' == s.(files := s.files[BackupTempName(c) := []], mode := CopyBackup(0)) || s' == s.(mode := Down)
    case CopyBackup(n) =>
      || s' == s.(mode := DropBackupTemp)
      || (n == |main| && s' == s.(mode := InstallBackup))
      || exists m :: n < m <= |main| && s' == s.(files := s.files[BackupTempName(c) := main[..m]], mode := CopyBackup(m))
    case InstallBackup =>
      || s' == s.(mode := DropBackupTemp)
      || (Enabled(s.files, Rename(BackupTempName(c), BackupName(c)))
          && s' == s.(files := Exec(s.files, Rename(BackupTempName(c), BackupName(c))), mode := AskMigrate))
    case DropBackupTemp =>
      s' == s.(mode := Down) || s' == s.(files := s.files - {BackupTempName(c)}, mode := Down)
    case AskMigrate =>
      || s' == s.(mode := Down)
      || (c.oldVersion == 4 && s' == s.(mode := UpgradingHeader(0)))
      || (c.oldVersion < 4 && |main| >= HEADER_SIZE
          && s' == s.(faults := 0, mode := Compacting(RemoveTemp, true, main, CompactFile(main, VersionOf(main)))))
    case UpgradingHeader(k) =>
      || s' == s.(mode := Down)
      || (k == HEADER_SIZE && s' == s.(mode := Up))
      || (k < HEADER_SIZE && |c.original| >= HEADER_SIZE
          && s' == s.(files := s.files[Main := PartlyUpgraded(c.original, k + 1)], mode := UpgradingHeader(k + 1)))
    case _ => false
  }

  /** One append: its bytes reach the file in any number of pieces, and then it is acknowledged. */
  ghost predicate Append(s: State, s': State) {
    && Main in s.files
    && match s.mode
    case Up =>
      exists op: Op :: Accepted(op)
        && s' == s.(mode := Appending(s.files[Main], op, 0), pending := Some(Applied(s.acked, op)))
    case Appending(base, op, n) =>
      || (n == |OpBytes(op)| && s' == s.(mode := Up, acked := Applied(s.acked, op), pending := None))
      || exists m :: n < m <= |OpBytes(op)|
           && s' == s.(files := s.files[Main := base + OpBytes(op)[..m]], mode := Appending(base, op, m))
    case _ => false
  }

  ghost predicate StartCompact(s: State, s': State) {
    && s.mode.Up? && Main in s.files && |s.files[Main]| >= HEADER_SIZE
    && s' == s.(faults := 0, mode := Compacting(RemoveTemp, false, s.files[Main], CompactFile(s.files[Main], LOG_VERSION)))
  }

  function At(s: State, step: CompactStep): State
    requires s.mode.Compacting?
  {
    s.(mode := Compacting(step, s.mode.migrating, s.mode.prior, s.mode.output))
  }

  ghost predicate Performs(s: State, s': State, a: Action, next: CompactStep)
    requires s.mode.Compacting?
  {
    Enabled(s.files, a) && s' == At(s, next).(files := Exec(s.files, a))
  }

  ghost predicate FailsTo(s: State, s': State, next: CompactStep)
    requires s.mode.Compacting?
  {
    s' == Fault(At(s, next))
  }

  ghost predicate GivesUp(s: State, s': State)
    requires s.mode.Compacting?
  {
    s' == Fault(s).(mode := AfterFailure(s.mode.migrating))
  }

  /** Creating the replacement can fail after something of it is there. */
  ghost predicate LeavesTemp(s: State, s': State, junk: Bytes)
    requires s.mode.Compacting?
  {
    s' == Fault(s).(files := s.files[Temp := junk], mode := AfterFailure(s.mode.migrating))
  }

  /** Preparing the replacement beside the log. */
  ghost predicate PrepareCompact(s: State, s': State)
    requires s.mode.Compacting?
  {
    match s.mode.step
    case RemoveTemp => Performs(s, s', Remove(Temp), RemoveReady) || GivesUp(s, s')
    case RemoveReady => Performs(s, s', Remove(Ready), RemoveBackup) || GivesUp(s, s')
    case RemoveBackup => Performs(s, s', Remove(Backup), CreateTemp) || GivesUp(s, s')
    case CreateTemp =>
      || s' == At(s, WriteTemp(0)).(files := s.files[Temp := []])
      || GivesUp(s, s')
      || exists junk: Bytes :: LeavesTemp(s, s', junk)
    case WriteTemp(n) =>
      || FailsTo(s, s', UndoTemp)
      || (n == |s.mode.output| && s' == At(s, MoveToReady))
      || exists m :: n < m <= |s.mode.output|
           && s' == At(s, WriteTemp(m)).(files := s.files[Temp := s.mode.output[..m]])
    case MoveToReady => Performs(s, s', Rename(Temp, Ready), SyncReady) || FailsTo(s, s', UndoTemp)
    case SyncReady => s' == At(s, CloseOld) || FailsTo(s, s', UndoReady)
    case CloseOld => s' == At(s, MoveToBackup) || FailsTo(s, s', UndoReady)
    case UndoTemp =>
      || s' == s.(mode := AfterFailure(s.mode.migrating))
      || s' == s.(files := s.files - {Temp}, mode := AfterFailure(s.mode.migrating))
    case UndoReady =>
      || s' == s.(mode := AfterFailure(s.mode.migrating))
      || s' == s.(files := s.files - {Ready}, mode := AfterFailure(s.mode.migrating))
    case _ => false
  }

  /** A failed rollback: opening the missing main log creates an empty one. */
  ghost predicate LosesMain(s: State, s': State)
    requires s.mode.Compacting?
  {
    s' == Fault(s).(files := s.files[Main := EMPTY_LOG], rollbackFailed := true, mode := AfterFailure(s.mode.migrating))
  }

  /** Replacing the log, and undoing it. */
  ghost predicate SwapCompact(s: State, s': State)
    requires s.mode.Compacting?
  {
    match s.mode.step
    case MoveToBackup => Performs(s, s', Rename(Main, Backup), Install) || FailsTo(s, s', UndoReady)
    case Install => Performs(s, s', Rename(Ready, Main), Reopen) || FailsTo(s, s', Rollback)
    case Reopen => s' == At(s, DropBackup) || FailsTo(s, s', RemoveInstalled)
    case DropBackup => s' == s.(files := s.files - {Backup}, mode := Up) || GivesUp(s, s')
    case Rollback =>
      || (Backup in s.files
          && s' == s.(files := Exec(s.files, Rename(Backup, Main)), mode := AfterFailure(s.mode.migrating)))
      || LosesMain(s, s')
    case RemoveInstalled => Performs(s, s', Remove(Main), RollbackInstalled) || FailsTo(s, s', RollbackInstalled)
    case RollbackInstalled =>
      || (Backup in s.files
          && s' == s.(files := Exec(s.files, Rename(Backup, Main)), mode := AfterFailure(s.mode.migrating)))
      || (if Main in s.files then GivesUp(s, s') else LosesMain(s, s'))
    case _ => false
  }

  ghost predicate Next(c: Config, s: State, s': State) {
    || Crash(s, s')
    || Recover(s, s')
    || CompleteScan(c, s, s')
    || FailScan(s, s')
    || Migrate(c, s, s')
    || Append(s, s')
    || StartCompact(s, s')
    || (s.mode.Compacting? && (PrepareCompact(s, s') || SwapCompact(s, s')))
  }

  // --------------------------------------------------------------- what every state keeps

  /** The run starts from a current log, or from an old one as its writer left it (up to a torn tail). */
  ghost predicate ConfigOk(c: Config) {
    && 1 <= c.oldVersion <= LOG_VERSION
    && (c.oldVersion < LOG_VERSION ==>
        && |c.original| >= HEADER_SIZE && Good(c.original) && VersionOf(c.original) == c.oldVersion
        && Repaired(c.original) == c.original && !IsReadOnly(c.original)
        && c.original[..HEADER_SIZE] == HeaderBytes(Header(c.oldVersion, 0, 0)))
  }

  /** The original log, not yet migrated: perhaps with its torn tail still on. */
  ghost predicate IsOriginal(c: Config, file: Bytes) {
    && c.oldVersion < LOG_VERSION && |file| >= HEADER_SIZE
    && VersionOf(file) == c.oldVersion && !IsReadOnly(file) && Repaired(file) == c.original
  }

  predicate BackedUp(c: Config, files: Files) {
    c.withBackup && c.oldVersion < LOG_VERSION ==> BackupName(c) in files
  }

  /** Whatever recovery would choose opens and means what was acknowledged, or that plus the operation in flight. */
  ghost predicate Recoverable(s: State) {
    match Target(s.files)
    case None => s.acked == map[] && s.pending.None?
    case Some(t) => Good(t) && (Meaning(t) == s.acked || s.pending == Some(Meaning(t)))
  }

  /** Until the original is backed up there is nothing but the original; the backup is the original. */
  ghost predicate BackupFirst(c: Config, s: State) {
    && (c.oldVersion < LOG_VERSION ==> Target(s.files).Some?)
    && (Target(s.files).Some? ==>
        || IsOriginal(c, Target(s.files).value)
        || (VersionOf(Target(s.files).value) == LOG_VERSION && BackedUp(c, s.files)))
    && (c.oldVersion < LOG_VERSION && BackupName(c) in s.files ==> s.files[BackupName(c)] == c.original)
  }

  /** A store is up on `file`: it is in the main place and means what was acknowledged. */
  ghost predicate ServingMain(s: State, file: Bytes) {
    && Main in s.files && s.files[Main] == file && Meaning(file) == s.acked && s.pending.None?
  }

  /** A log that may be compacted: the served one, or the backed-up original. */
  ghost predicate Compactable(c: Config, s: State, migrating: bool, prior: Bytes) {
    if migrating then c.oldVersion < 4 && prior == c.original && BackedUp(c, s.files)
    else Serving(prior) && BackedUp(c, s.files)
  }

  ghost predicate CompactInv(c: Config, s: State)
    requires s.mode.Compacting?
  {
    var Compacting(step, migrating, prior, output) := s.mode;
    && Compactable(c, s, migrating, prior) && Serving(output)
    && Meaning(prior) == s.acked && Meaning(output) == s.acked && s.pending.None?
    && match step
       case WriteTemp(n) => ServingMain(s, prior) && n <= |output| && Temp in s.files && s.files[Temp] == output[..n]
       case MoveToReady => ServingMain(s, prior) && Temp in s.files && s.files[Temp] == output
       case SyncReady => ServingMain(s, prior) && Ready in s.files && s.files[Ready] == output
       case CloseOld => ServingMain(s, prior) && Ready in s.files && s.files[Ready] == output
       case MoveToBackup => ServingMain(s, prior) && Ready in s.files && s.files[Ready] == output
       case Install =>
         Main !in s.files && Ready in s.files && s.files[Ready] == output && Backup in s.files && s.files[Backup] == prior
       case Rollback =>
         Main !in s.files && Ready in s.files && s.files[Ready] == output && Backup in s.files && s.files[Backup] == prior
         && s.faults >= 1 && s.worst >= s.faults
       case Reopen => ServingMain(s, output) && Ready !in s.files && Backup in s.files && s.files[Backup] == prior
       case DropBackup => ServingMain(s, output)
       case RemoveInstalled =>
         ServingMain(s, output) && Ready !in s.files && Backup in s.files && s.files[Backup] == prior
         && s.faults >= 1 && s.worst >= s.faults
       case RollbackInstalled =>
         (Main in s.files ==> s.files[Main] == output) && Ready !in s.files && Backup in s.files && s.files[Backup] == prior
         && s.faults >= 1 && s.worst >= s.faults
       case _ => ServingMain(s, prior)
  }

  ghost predicate ModeInv(c: Config, s: State) {
    match s.mode
    case Down => true
    case Recovering(plan) => PlanKeeps(s.files, plan)
    case Scanning => NoArtifacts(s.files) && Main in s.files && s.files[Main] != []
    case CheckBackup => c.oldVersion < LOG_VERSION && c.withBackup && ServingMain(s, c.original)
    case CopyBackup(n) =>
      && c.oldVersion < LOG_VERSION && c.withBackup && ServingMain(s, c.original) && n <= |c.original|
      && BackupTempName(c) in s.files && s.files[BackupTempName(c)] == c.original[..n]
    case InstallBackup =>
      && c.oldVersion < LOG_VERSION && c.withBackup && ServingMain(s, c.original)
      && BackupTempName(c) in s.files && s.files[BackupTempName(c)] == c.original
    case DropBackupTemp => ServingMain(s, c.original)
    case AskMigrate => c.oldVersion < LOG_VERSION && ServingMain(s, c.original) && BackedUp(c, s.files)
    case UpgradingHeader(k) =>
      && c.oldVersion == 4 && |c.original| >= HEADER_SIZE && k <= HEADER_SIZE && BackedUp(c, s.files)
      && ServingMain(s, PartlyUpgraded(c.original, k))
    case Up => Main in s.files && Serving(s.files[Main]) && ServingMain(s, s.files[Main]) && BackedUp(c, s.files)
    case ReadOnlyUp => Main in s.files && IsReadOnly(s.files[Main])
    case Appending(base, op, n) =>
      && Serving(base) && Meaning(base) == s.acked && Accepted(op) && n <= |OpBytes(op)| && BackedUp(c, s.files)
      && Main in s.files && s.files[Main] == base + OpBytes(op)[..n] && s.pending == Some(Applied(s.acked, op))
    case Compacting(_, _, _, _) => CompactInv(c, s)
  }

  ghost predicate Inv(c: Config, s: State) {
    && ConfigOk(c)
    && (s.rollbackFailed ==> s.worst >= 2)
    && (!s.rollbackFailed ==> Recoverable(s) && BackupFirst(c, s) && ModeInv(c, s))
  }

  ghost predicate Init(c: Config, s: State) {
    && ConfigOk(c)
    && s.mode == Down && s.pending.None? && s.faults == 0 && s.worst == 0 && !s.rollbackFailed
    && Recoverable(s)
    && (c.oldVersion < LOG_VERSION ==> BackupName(c) !in s.files && Target(s.files).Some?)
    && (Target(s.files).Some? ==>
        if c.oldVersion < LOG_VERSION then IsOriginal(c, Target(s.files).value)
        else VersionOf(Target(s.files).value) == LOG_VERSION)
  }

  lemma InitInv(c: Config, s: State)
    requires Init(c, s)
    ensures Inv(c, s)
  {
    hide Good, Meaning, VersionOf, IsReadOnly, Repaired, HeaderBytes;
  }

  lemma CrashInv(c: Config, s: State, s': State)
    requires Inv(c, s) && (Crash(s, s') || FailScan(s, s'))
    ensures Inv(c, s')
  {
    hide Good, Meaning, VersionOf, IsReadOnly, Repaired, HeaderBytes, Serving, PlanKeeps, CompactInv, Target;
  }

  /** Whatever leaves the main log and the backup alone keeps the database recoverable. */
  lemma KeepsMain(c: Config, s: State, s': State)
    requires Recoverable(s) && BackupFirst(c, s)
    requires Main in s.files && Main in s'.files && s'.files[Main] == s.files[Main]
    requires BackupName(c) in s'.files <==> BackupName(c) in s.files
    requires BackupName(c) in s.files ==> s'.files[BackupName(c)] == s.files[BackupName(c)]
    requires s'.acked == s.acked && s'.pending == s.pending
    ensures Recoverable(s') && BackupFirst(c, s')
    ensures BackedUp(c, s'.files) <==> BackedUp(c, s.files)
  {
    hide Good, Meaning, VersionOf, IsReadOnly, IsOriginal;
  }

  lemma RecoverInv(c: Config, s: State, s': State)
    requires Inv(c, s) && Recover(s, s')
    ensures Inv(c, s')
  {
    hide Good, Meaning, VersionOf, IsOriginal, ConfigOk, RecoveryPlan, EMPTY_LOG, CompactInv;
    if s.mode.Down? {
      RecoveryPlanKeeps(s.files);
    } else if |s.mode.plan| == 0 {
      OpenInv(c, s, s');
    } else if !s.rollbackFailed && s'.mode.Recovering? {
      ActionKeepsBackup(s.files, s.mode.plan[0], BackupName(c));
    }
  }

  lemma OpenInv(c: Config, s: State, s': State)
    requires Inv(c, s) && Recover(s, s') && s.mode == Recovering([])
    ensures Inv(c, s')
  {
    hide Recoverable, BackupFirst, ConfigOk, EMPTY_LOG, ModeInv, Serving, Meaning, Good;
    if !s.rollbackFailed {
      assert PlanKeeps(s.files, []) by { PlanKept(c, s); }
      PlanDone(s.files);
      EmptyLogNotEmpty();
      ScanningInv(c, s');
      if Main in s.files && s.files[Main] != [] {
        KeepsMain(c, s, s');
      } else {
        CreateInv(c, s, s');
      }
    }
  }

  lemma PlanKept(c: Config, s: State)
    requires ModeInv(c, s) && s.mode.Recovering?
    ensures PlanKeeps(s.files, s.mode.plan)
  {
    hide PlanKeeps;
  }

  lemma ScanningInv(c: Config, s: State)
    requires s.mode.Scanning? && NoArtifacts(s.files) && Main in s.files && s.files[Main] != []
    ensures ModeInv(c, s)
  {
    hide NoArtifacts;
  }

  lemma EmptyLogNotEmpty()
    ensures EMPTY_LOG != []
  {
    EmptyLogServes();
  }

  /** Opening a missing or empty main log makes an empty one, when that is what was acknowledged. */
  lemma CreateInv(c: Config, s: State, s': State)
    requires Recoverable(s) && BackupFirst(c, s) && NoArtifacts(s.files) && (Main !in s.files || s.files[Main] == [])
    requires s' == s.(files := s.files[Main := EMPTY_LOG], mode := Scanning)
    ensures Recoverable(s') && BackupFirst(c, s')
  {
    hide Good, Meaning, VersionOf, IsReadOnly, Repaired, EMPTY_LOG, Serving;
    EmptyLogServes();
    ServingIsGood(EMPTY_LOG);
  }

  lemma ActionKeepsBackup(files: Files, a: Action, name: Name)
    requires CleansUp(a) && Enabled(files, a) && name.MigrationBackup?
    ensures name in Exec(files, a) <==> name in files
    ensures name in files ==> Exec(files, a)[name] == files[name]
  {
  }

  lemma GoodSize(file: Bytes)
    requires Good(file) && file != []
    ensures |file| >= HEADER_SIZE
  {
  }

  lemma ScanInv(c: Config, s: State, s': State)
    requires Inv(c, s) && CompleteScan(c, s, s')
    ensures Inv(c, s')
  {
    hide ConfigOk, ModeInv, Recoverable, BackupFirst, CompleteScan;
    if !s.rollbackFailed {
      ScanKeeps(c, s, s');
      ScannedMode(c, s, s');
    } else {
      ScanKeepsFlag(c, s, s');
    }
  }

  lemma ScanKeepsFlag(c: Config, s: State, s': State)
    requires CompleteScan(c, s, s')
    ensures s'.rollbackFailed == s.rollbackFailed && s'.worst == s.worst
  {
    hide Good, Meaning, Repaired, ModeAfterScan;
  }

  lemma ScanKeeps(c: Config, s: State, s': State)
    requires Inv(c, s) && !s.rollbackFailed && CompleteScan(c, s, s')
    ensures Recoverable(s') && BackupFirst(c, s') && s'.rollbackFailed == s.rollbackFailed
  {
    hide Good, Meaning, VersionOf, IsReadOnly, Repaired, HeaderBytes, Serving, PlanKeeps, CompactInv, ModeAfterScan;
    GoodSize(s.files[Main]);
    RepairKeeps(s.files[Main]);
  }

  lemma ScannedMode(c: Config, s: State, s': State)
    requires Inv(c, s) && !s.rollbackFailed && CompleteScan(c, s, s')
    ensures ModeInv(c, s')
  {
    hide Good, Meaning, VersionOf, IsReadOnly, Repaired, HeaderBytes, Serving, PlanKeeps, CompactInv;
    GoodSize(s.files[Main]);
    RepairKeeps(s.files[Main]);
  }

  lemma MigrateInv(c: Config, s: State, s': State)
    requires Inv(c, s) && Migrate(c, s, s')
    ensures Inv(c, s')
  {
    hide Inv, Migrate;
    match s.mode
    case AskMigrate => AskInv(c, s, s');
    case UpgradingHeader(_) => UpgradeInv(c, s, s');
    case _ => BackupInv(c, s, s');
  }

  lemma BackupInv(c: Config, s: State, s': State)
    requires Inv(c, s) && Migrate(c, s, s') && !s.mode.AskMigrate? && !s.mode.UpgradingHeader?
    ensures Inv(c, s')
  {
    hide Good, Meaning, ConfigOk, IsOriginal, Recoverable, BackupFirst, PlanKeeps, CompactFile, PartlyUpgraded;
    if !s.rollbackFailed {
      if s.mode.InstallBackup? && s'.mode.AskMigrate? {
        BackupInstalled(c, s, s');
      } else {
        KeepsMain(c, s, s');
        if s.mode.CopyBackup? {
          assert c.original[..|c.original|] == c.original;
        }
      }
    }
  }

  lemma BackupInstalled(c: Config, s: State, s': State)
    requires Recoverable(s) && BackupFirst(c, s) && c.oldVersion < LOG_VERSION && ServingMain(s, c.original)
    requires BackupTempName(c) in s.files && s.files[BackupTempName(c)] == c.original
    requires s' == s.(files := Exec(s.files, Rename(BackupTempName(c), BackupName(c))), mode := AskMigrate)
    ensures Recoverable(s') && BackupFirst(c, s') && ServingMain(s', c.original) && BackedUp(c, s'.files)
  {
    hide Good, Meaning, VersionOf, IsReadOnly, IsOriginal;
  }

  lemma AskInv(c: Config, s: State, s': State)
    requires Inv(c, s) && Migrate(c, s, s') && s.mode.AskMigrate?
    ensures Inv(c, s')
  {
    hide Good, Meaning, VersionOf, IsReadOnly, Repaired, HeaderBytes, Serving, PlanKeeps, CompactFile, PartlyUpgraded, BackupFirst, Recoverable;
    if !s.rollbackFailed {
      KeepsMain(c, s, s');
      if c.oldVersion == 4 {
        StartUpgrade(c.original);
      } else {
        CompactServes(c.original);
      }
    }
  }

  lemma UpgradeInv(c: Config, s: State, s': State)
    requires Inv(c, s) && Migrate(c, s, s') && s.mode.UpgradingHeader?
    ensures Inv(c, s')
  {
    hide Good, Meaning, VersionOf, IsReadOnly, Repaired, HeaderBytes, Serving, PlanKeeps, CompactFile, PartlyUpgraded, IsOriginal;
    if !s.rollbackFailed {
      var k := s.mode.upgraded;
      UpgradeKeeps(c.original, k);
      if k < HEADER_SIZE {
        UpgradeKeeps(c.original, k + 1);
        UpgradedFacts(c, k + 1);
      }
    }
  }

  lemma StartUpgrade(file: Bytes)
    requires |file| >= HEADER_SIZE
    ensures PartlyUpgraded(file, 0) == file
  {
    hide EMPTY_LOG;
  }

  /** Each stage of the header upgrade is the original, or a current log. */
  lemma UpgradedFacts(c: Config, k: nat)
    requires ConfigOk(c) && c.oldVersion == 4 && k <= HEADER_SIZE
    ensures IsOriginal(c, PartlyUpgraded(c.original, k)) || VersionOf(PartlyUpgraded(c.original, k)) == LOG_VERSION
  {
    hide Good, Meaning, VersionOf, IsReadOnly, Repaired, HeaderBytes, Serving, PartlyUpgraded;
    UpgradeKeeps(c.original, k);
    if PartlyUpgraded(c.original, k) != c.original {
      ServingIsGood(PartlyUpgraded(c.original, k));
    }
  }

  lemma AppendInv(c: Config, s: State, s': State)
    requires Inv(c, s) && Append(s, s')
    ensures Inv(c, s')
  {
    hide Good, Meaning, VersionOf, IsReadOnly, Repaired, HeaderBytes, Serving, PlanKeeps, CompactInv, Accepted, OpBytes, Applied;
    if !s.rollbackFailed {
      if s.mode.Up? {
        assert s'.mode.base + OpBytes(s'.mode.op)[..0] == s'.mode.base;
      } else {
        var Appending(base, op, n) := s.mode;
        if s'.mode.Up? {
          assert OpBytes(op)[..n] == OpBytes(op);
          AppendFacts(base, op, n);
        } else {
          AppendFacts(base, op, s'.mode.written);
        }
      }
    }
  }

  /** What a part of an append leaves behind. */
  lemma AppendFacts(base: Bytes, op: Op, n: nat)
    requires Serving(base) && Accepted(op) && n <= |OpBytes(op)|
    ensures var file := base + OpBytes(op)[..n];
      && Good(file) && VersionOf(file) == LOG_VERSION
      && Meaning(file) == (if n < |OpBytes(op)| then Meaning(base) else Applied(Meaning(base), op))
      && (n == |OpBytes(op)| ==> Serving(file))
  {
    hide Good, Meaning, VersionOf, IsReadOnly, Repaired, Serving, AppendAccepts, AppendBytes;
    var b := OpBytes(op);
    if n < |b| {
      TornAppend(base, op.key, op.value, op.deleted, op.attributes, n);
    } else {
      assert b[..n] == b;
      AppendServes(base, op.key, op.value, op.deleted, op.attributes);
      ServingIsGood(base + b);
    }
  }

  lemma StartCompactInv(c: Config, s: State, s': State)
    requires Inv(c, s) && StartCompact(s, s')
    ensures Inv(c, s')
  {
    hide Good, Meaning, VersionOf, IsReadOnly, Repaired, HeaderBytes, Serving, PlanKeeps, CompactFile;
    if !s.rollbackFailed {
      ServingIsGood(s.files[Main]);
      CompactServes(s.files[Main]);
    }
  }

  /** What both versions of the log are to recovery. */
  lemma CompactableFacts(c: Config, s: State)
    requires ConfigOk(c) && s.mode.Compacting? && CompactInv(c, s)
    ensures Good(s.mode.prior) && Good(s.mode.output) && VersionOf(s.mode.output) == LOG_VERSION
    ensures if s.mode.migrating then IsOriginal(c, s.mode.prior) else VersionOf(s.mode.prior) == LOG_VERSION
  {
    hide Good, Meaning, VersionOf, IsReadOnly, Repaired, HeaderBytes, Serving, ServingMain;
    ServingIsGood(s.mode.output);
    if !s.mode.migrating {
      ServingIsGood(s.mode.prior);
    }
  }

  predicate IsClearing(step: CompactStep) {
    step.RemoveTemp? || step.RemoveReady? || step.RemoveBackup? || step.CreateTemp? || step.UndoTemp? || step.UndoReady?
  }

  lemma ClearInv(c: Config, s: State, s': State)
    requires Inv(c, s) && s.mode.Compacting? && IsClearing(s.mode.step) && PrepareCompact(s, s')
    ensures Inv(c, s')
  {
    hide Good, Meaning, VersionOf, ConfigOk, Serving, PlanKeeps, IsOriginal, Recoverable, BackupFirst, BackedUp;
    if !s.rollbackFailed {
      KeepsMain(c, s, s');
    }
  }

  lemma WriteInv(c: Config, s: State, s': State)
    requires Inv(c, s) && s.mode.Compacting? && s.mode.step.WriteTemp? && PrepareCompact(s, s')
    ensures Inv(c, s')
  {
    hide Good, Meaning, VersionOf, ConfigOk, Serving, PlanKeeps, IsOriginal, Recoverable, BackupFirst, BackedUp, Compactable;
    if !s.rollbackFailed {
      KeepsMain(c, s, s');
      assert Compactable(c, s', s.mode.migrating, s.mode.prior) by { CompactableSame(c, s, s'); }
      assert s.mode.output[..|s.mode.output|] == s.mode.output;
    }
  }

  lemma CompactableSame(c: Config, s: State, s': State)
    requires s.mode.Compacting? && Compactable(c, s, s.mode.migrating, s.mode.prior)
    requires BackedUp(c, s'.files) <==> BackedUp(c, s.files)
    ensures Compactable(c, s', s.mode.migrating, s.mode.prior)
  {
  }

  lemma ReadyInv(c: Config, s: State, s': State)
    requires Inv(c, s) && s.mode.Compacting? && !IsClearing(s.mode.step) && !s.mode.step.WriteTemp? && PrepareCompact(s, s')
    ensures Inv(c, s')
  {
    hide Good, Meaning, VersionOf, ConfigOk, Serving, PlanKeeps, IsOriginal, Recoverable, BackupFirst, BackedUp, Compactable;
    if !s.rollbackFailed {
      KeepsMain(c, s, s');
      CompactableSame(c, s, s');
    }
  }

  lemma PrepareInv(c: Config, s: State, s': State)
    requires Inv(c, s) && s.mode.Compacting? && PrepareCompact(s, s')
    ensures Inv(c, s')
  {
    hide Inv, PrepareCompact;
    if IsClearing(s.mode.step) {
      ClearInv(c, s, s');
    } else if s.mode.step.WriteTemp? {
      WriteInv(c, s, s');
    } else {
      ReadyInv(c, s, s');
    }
  }

  /** What recovery can see of a swap: one of the two logs, in the main place or kept beside it. */
  ghost predicate Swapping(c: Config, s: State, files: Files)
    requires s.mode.Compacting?
  {
    && Target(files).Some?
    && (Target(files).value == s.mode.prior || Target(files).value == s.mode.output)
    && (BackupName(c) in files <==> BackupName(c) in s.files)
    && (BackupName(c) in s.files ==> files[BackupName(c)] == s.files[BackupName(c)])
  }

  lemma SwapFiles(c: Config, s: State, s': State)
    requires Inv(c, s) && s.mode.Compacting? && SwapCompact(s, s') && !s'.rollbackFailed
    ensures Swapping(c, s, s'.files) && s'.acked == s.acked && s'.pending == s.pending
  {
    hide Inv, SwapCompact, Swapping;
    if IsUndoing(s.mode.step) {
      UndoFiles(c, s, s');
    } else {
      ForwardFiles(c, s, s');
    }
  }

  lemma ForwardFiles(c: Config, s: State, s': State)
    requires Inv(c, s) && s.mode.Compacting? && SwapCompact(s, s') && !s'.rollbackFailed && !IsUndoing(s.mode.step)
    ensures Swapping(c, s, s'.files) && s'.acked == s.acked && s'.pending == s.pending
  {
    hide Good, Meaning, VersionOf, ConfigOk, Serving, PlanKeeps, IsOriginal, EMPTY_LOG, Recoverable, BackupFirst, BackedUp, Compactable;
  }

  lemma UndoFiles(c: Config, s: State, s': State)
    requires Inv(c, s) && s.mode.Compacting? && SwapCompact(s, s') && !s'.rollbackFailed && IsUndoing(s.mode.step)
    ensures Swapping(c, s, s'.files) && s'.acked == s.acked && s'.pending == s.pending
  {
    hide Good, Meaning, VersionOf, ConfigOk, Serving, PlanKeeps, IsOriginal, EMPTY_LOG, Recoverable, BackupFirst, BackedUp, Compactable;
  }

  /** The steps after which the main log is another file: recovery has both to choose from. */
  lemma SwapRecoverable(c: Config, s: State, s': State)
    requires Inv(c, s) && !s.rollbackFailed && s.mode.Compacting?
    requires Swapping(c, s, s'.files) && s'.acked == s.acked && s'.pending == s.pending
    ensures Recoverable(s') && BackupFirst(c, s')
    ensures BackedUp(c, s'.files) <==> BackedUp(c, s.files)
  {
    hide Good, Meaning, VersionOf, ConfigOk, Serving, PlanKeeps, IsOriginal, EMPTY_LOG, Target, ServingMain;
    CompactableFacts(c, s);
  }

  predicate IsUndoing(step: CompactStep) {
    step.Rollback? || step.RemoveInstalled? || step.RollbackInstalled?
  }

  lemma ForwardModeInv(c: Config, s: State, s': State)
    requires Inv(c, s) && s.mode.Compacting? && SwapCompact(s, s') && !s'.rollbackFailed
    requires s.mode.step.MoveToBackup? || s.mode.step.Install?
    requires BackedUp(c, s'.files) <==> BackedUp(c, s.files)
    ensures ModeInv(c, s')
  {
    hide Good, Meaning, VersionOf, ConfigOk, Serving, PlanKeeps, IsOriginal, EMPTY_LOG, Recoverable, BackupFirst, BackedUp, Compactable;
    CompactableSame(c, s, s');
  }

  lemma InstalledModeInv(c: Config, s: State, s': State)
    requires Inv(c, s) && s.mode.Compacting? && SwapCompact(s, s') && !s'.rollbackFailed
    requires s.mode.step.Reopen? || s.mode.step.DropBackup?
    requires BackedUp(c, s'.files) <==> BackedUp(c, s.files)
    ensures ModeInv(c, s')
  {
    hide Good, Meaning, VersionOf, ConfigOk, Serving, PlanKeeps, IsOriginal, EMPTY_LOG, Recoverable, BackupFirst, BackedUp;
  }

  lemma UndoModeInv(c: Config, s: State, s': State)
    requires Inv(c, s) && s.mode.Compacting? && SwapCompact(s, s') && !s'.rollbackFailed && IsUndoing(s.mode.step)
    requires BackedUp(c, s'.files) <==> BackedUp(c, s.files)
    ensures ModeInv(c, s')
  {
    hide Good, Meaning, VersionOf, ConfigOk, Serving, PlanKeeps, IsOriginal, EMPTY_LOG, Recoverable, BackupFirst, BackedUp;
  }

  lemma SwapSteps(s: State, s': State)
    requires s.mode.Compacting? && SwapCompact(s, s')
    ensures var step := s.mode.step;
      step.MoveToBackup? || step.Install? || step.Reopen? || step.DropBackup? || IsUndoing(step)
  {
  }

  lemma SwapModeInv(c: Config, s: State, s': State)
    requires Inv(c, s) && s.mode.Compacting? && SwapCompact(s, s') && !s'.rollbackFailed
    requires BackedUp(c, s'.files) <==> BackedUp(c, s.files)
    ensures ModeInv(c, s')
  {
    hide Inv, ModeInv, SwapCompact;
    if IsUndoing(s.mode.step) {
      UndoModeInv(c, s, s');
    } else if s.mode.step.MoveToBackup? || s.mode.step.Install? {
      ForwardModeInv(c, s, s');
    } else {
      SwapSteps(s, s');
      InstalledModeInv(c, s, s');
    }
  }

  lemma SwapInv(c: Config, s: State, s': State)
    requires Inv(c, s) && s.mode.Compacting? && SwapCompact(s, s')
    ensures Inv(c, s')
  {
    hide ConfigOk, Recoverable, BackupFirst, ModeInv, BackedUp, Swapping;
    if s'.rollbackFailed {
      SwapFaults(c, s, s');
    } else {
      SwapFiles(c, s, s');
      SwapRecoverable(c, s, s');
      SwapModeInv(c, s, s');
    }
  }

  /** A rollback can only fail after something else has. */
  lemma SwapFaults(c: Config, s: State, s': State)
    requires Inv(c, s) && s.mode.Compacting? && SwapCompact(s, s') && s'.rollbackFailed
    ensures s'.worst >= 2
  {
    hide Good, Meaning, VersionOf, ConfigOk, Serving, PlanKeeps, IsOriginal, EMPTY_LOG, Recoverable, BackupFirst;
  }

  /** Every step keeps the invariant. */
  lemma NextInv(c: Config, s: State, s': State)
    requires Inv(c, s) && Next(c, s, s')
    ensures Inv(c, s')
  {
    hide Inv, Crash, Recover, CompleteScan, FailScan, Migrate, Append, StartCompact, PrepareCompact, SwapCompact;
    if Crash(s, s') || FailScan(s, s') {
      CrashInv(c, s, s');
    } else if Recover(s, s') {
      RecoverInv(c, s, s');
    } else if CompleteScan(c, s, s') {
      ScanInv(c, s, s');
    } else if Migrate(c, s, s') {
      MigrateInv(c, s, s');
    } else if Append(s, s') {
      AppendInv(c, s, s');
    } else if StartCompact(s, s') {
      StartCompactInv(c, s, s');
    } else if PrepareCompact(s, s') {
      PrepareInv(c, s, s');
    } else {
      SwapInv(c, s, s');
    }
  }

  // --------------------------------------------------------------- whole runs

  ghost predicate Run(c: Config, run: seq<State>) {
    && |run| > 0 && Init(c, run[0])
    && forall i :: 0 <= i < |run| - 1 ==> Next(c, run[i], run[i + 1])
  }

  lemma {:induction false} RunInv(c: Config, run: seq<State>, i: nat)
    requires Run(c, run) && i < |run|
    ensures Inv(c, run[i])
  {
    hide Init, Next, Inv;
    if i == 0 {
      InitInv(c, run[0]);
    } else {
      RunInv(c, run, i - 1);
      assert Next(c, run[i - 1], run[i - 1 + 1]);
      NextInv(c, run[i - 1], run[i]);
    }
  }

  /** No open is ever refused: whenever a scan is about to run, the main log is there and can be opened. */
  lemma EveryOpenIsPossible(c: Config, run: seq<State>, i: nat)
    requires Run(c, run) && i < |run| && run[i].mode.Scanning? && (!run[i].rollbackFailed || run[i].worst <= 1)
    ensures Main in run[i].files && Good(run[i].files[Main])
    ensures CompleteScan(c, run[i], run[i].(files := run[i].files[Main := Repaired(run[i].files[Main])],
                                            acked := Meaning(Repaired(run[i].files[Main])), pending := None,
                                            mode := ModeAfterScan(c, Repaired(run[i].files[Main]))))
  {
    hide Init, Next, Good, Meaning, Repaired, ModeAfterScan, ConfigOk, BackupFirst;
    RunInv(c, run, i);
  }

  /**
   Crash safety: in every run, whenever an open completes its scan, the database holds exactly what
   was acknowledged, or that plus the one operation in flight, and no artifact of an interrupted
   compaction remains. It is enough that no two operations of one compaction failed.
   */
  lemma EveryRecoveryIsExact(c: Config, run: seq<State>, i: nat)
    requires Run(c, run) && i + 1 < |run| && CompleteScan(c, run[i], run[i + 1])
    requires !run[i].rollbackFailed || run[i].worst <= 1
    ensures var s, s' := run[i], run[i + 1];
      && NoArtifacts(s'.files) && Main in s'.files && Meaning(s'.files[Main]) == s'.acked
      && (s'.acked == s.acked || s.pending == Some(s'.acked))
      && s'.pending.None?
  {
    hide Good, VersionOf, IsReadOnly, Repaired, Meaning, ConfigOk, BackupFirst;
    RunInv(c, run, i);
    var file := run[i].files[Main];
    GoodSize(file);
    RepairKeeps(file);
  }

  /** An acknowledged store is never ahead of or behind its log: while up, the main log means what was acknowledged. */
  lemma UpMeansAcked(c: Config, run: seq<State>, i: nat)
    requires Run(c, run) && i < |run| && run[i].mode == Up && run[i].worst <= 1
    ensures Main in run[i].files && Serving(run[i].files[Main]) && Meaning(run[i].files[Main]) == run[i].acked
  {
    hide Good, VersionOf, IsReadOnly, Repaired, Meaning, ConfigOk, BackupFirst, Serving, Recoverable;
    RunInv(c, run, i);
  }

  /** Recovery touches artifacts only, and a backup is copied and installed only where there is none. */
  ghost predicate BackupSafe(c: Config, s: State) {
    && (s.mode.Recovering? ==> forall i :: 0 <= i < |s.mode.plan| ==> CleansUp(s.mode.plan[i]))
    && (s.mode.CopyBackup? || s.mode.InstallBackup? ==> BackupName(c) !in s.files)
  }

  lemma PlanClean(files: Files)
    ensures forall i :: 0 <= i < |RecoveryPlan(files)| ==> CleansUp(RecoveryPlan(files)[i])
  {
  }

  lemma RecoverSafe(c: Config, s: State, s': State)
    requires BackupSafe(c, s) && Recover(s, s')
    ensures BackupSafe(c, s')
  {
    hide EMPTY_LOG, RecoveryPlan, CleansUp, Exec, Enabled;
    PlanClean(s.files);
  }

  lemma MigrateSafe(c: Config, s: State, s': State)
    requires BackupSafe(c, s) && Migrate(c, s, s')
    ensures BackupSafe(c, s')
  {
    hide VersionOf, CompactFile, PartlyUpgraded, CleansUp;
  }

  lemma ClearModes(s: State, s': State)
    requires s.mode.Compacting? && PrepareCompact(s, s') && IsClearing(s.mode.step)
    ensures s'.mode.Compacting? || s'.mode.Up? || s'.mode.Down?
  {
    hide Exec, Enabled;
  }

  lemma WriteModes(s: State, s': State)
    requires s.mode.Compacting? && PrepareCompact(s, s') && !IsClearing(s.mode.step)
    ensures s'.mode.Compacting? || s'.mode.Up? || s'.mode.Down?
  {
    hide Exec, Enabled;
  }

  lemma PrepareModes(s: State, s': State)
    requires s.mode.Compacting? && PrepareCompact(s, s')
    ensures s'.mode.Compacting? || s'.mode.Up? || s'.mode.Down?
  {
    hide PrepareCompact;
    if IsClearing(s.mode.step) {
      ClearModes(s, s');
    } else {
      WriteModes(s, s');
    }
  }

  lemma SwapModes(s: State, s': State)
    requires s.mode.Compacting? && SwapCompact(s, s')
    ensures s'.mode.Compacting? || s'.mode.Up? || s'.mode.Down?
  {
    hide EMPTY_LOG, Exec, Enabled;
  }

  lemma BackupSafeStep(c: Config, s: State, s': State)
    requires BackupSafe(c, s) && Next(c, s, s')
    ensures BackupSafe(c, s')
  {
    hide Recover, Migrate, PrepareCompact, SwapCompact, Good, Meaning, Repaired, CompactFile, Accepted, OpBytes, Applied, CleansUp, IsReadOnly, VersionOf;
    if Recover(s, s') {
      RecoverSafe(c, s, s');
    } else if Migrate(c, s, s') {
      MigrateSafe(c, s, s');
    } else if s.mode.Compacting? && PrepareCompact(s, s') {
      PrepareModes(s, s');
    } else if s.mode.Compacting? && SwapCompact(s, s') {
      SwapModes(s, s');
    }
  }

  /** The backup is there, with the bytes it had. */
  predicate KeepsBackup(c: Config, s: State, s': State) {
    BackupName(c) in s.files && BackupName(c) in s'.files && s'.files[BackupName(c)] == s.files[BackupName(c)]
  }

  lemma SwapKeepsBackup(c: Config, s: State, s': State)
    requires s.mode.Compacting? && SwapCompact(s, s') && BackupName(c) in s.files
    ensures KeepsBackup(c, s, s')
  {
    hide EMPTY_LOG;
  }

  lemma PrepareKeepsBackup(c: Config, s: State, s': State)
    requires s.mode.Compacting? && PrepareCompact(s, s') && BackupName(c) in s.files
    ensures KeepsBackup(c, s, s')
  {
  }

  lemma MigrateKeepsBackup(c: Config, s: State, s': State)
    requires Migrate(c, s, s') && BackupSafe(c, s) && BackupName(c) in s.files
    ensures KeepsBackup(c, s, s')
  {
    hide VersionOf, CompactFile, PartlyUpgraded, CleansUp;
  }

  lemma RecoverKeepsBackup(c: Config, s: State, s': State)
    requires BackupSafe(c, s) && Recover(s, s') && BackupName(c) in s.files
    ensures KeepsBackup(c, s, s')
  {
    hide EMPTY_LOG, RecoveryPlan, CleansUp;
    if s.mode.Recovering? && |s.mode.plan| > 0 && Enabled(s.files, s.mode.plan[0]) {
      ActionKeepsBackup(s.files, s.mode.plan[0], BackupName(c));
    }
  }

  /** No step removes or changes a migration backup that is there. */
  lemma StepKeepsBackup(c: Config, s: State, s': State)
    requires BackupSafe(c, s) && Next(c, s, s') && BackupName(c) in s.files
    ensures KeepsBackup(c, s, s')
  {
    hide BackupSafe, Recover, Migrate, PrepareCompact, SwapCompact, Good, Meaning, Repaired, CompactFile, Accepted, OpBytes, Applied;
    if Recover(s, s') {
      RecoverKeepsBackup(c, s, s');
    } else if Migrate(c, s, s') {
      MigrateKeepsBackup(c, s, s');
    } else if s.mode.Compacting? && PrepareCompact(s, s') {
      PrepareKeepsBackup(c, s, s');
    } else if s.mode.Compacting? && SwapCompact(s, s') {
      SwapKeepsBackup(c, s, s');
    }
  }

  lemma {:induction false} RunBackupSafe(c: Config, run: seq<State>, i: nat)
    requires Run(c, run) && i < |run|
    ensures BackupSafe(c, run[i])
  {
    hide Next, ConfigOk, Recoverable, Target, IsOriginal;
    if i > 0 {
      RunBackupSafe(c, run, i - 1);
      assert Next(c, run[i - 1], run[i - 1 + 1]);
      hide BackupSafe;
      BackupSafeStep(c, run[i - 1], run[i]);
    }
  }

  /** A migration backup that is there keeps its bytes for the rest of the run, whatever fails. */
  lemma {:induction false} BackupStays(c: Config, run: seq<State>, i: nat, j: nat)
    requires Run(c, run) && i <= j < |run| && BackupName(c) in run[i].files
    ensures KeepsBackup(c, run[i], run[j])
    decreases j - i
  {
    hide Init, Next, BackupSafe;
    if i < j {
      BackupStays(c, run, i, j - 1);
      RunBackupSafe(c, run, j - 1);
      assert Next(c, run[j - 1], run[j - 1 + 1]);
      StepKeepsBackup(c, run[j - 1], run[j]);
    }
  }

  /** And it is the original log, repaired, from the start. */
  lemma BackupNeverChanges(c: Config, run: seq<State>, i: nat, j: nat)
    requires Run(c, run) && i <= j < |run| && !run[i].rollbackFailed
    requires c.oldVersion < LOG_VERSION && BackupName(c) in run[i].files
    ensures BackupName(c) in run[j].files && run[j].files[BackupName(c)] == run[i].files[BackupName(c)] == c.original
  {
    hide Run, ConfigOk, Recoverable, ModeInv, IsOriginal, Target;
    RunInv(c, run, i);
    BackupStays(c, run, i, j);
  }

  /** A rollback can fail only in a compaction, and a compaction of a migrating store has its backup. */
  lemma FailedAfterBackup(c: Config, s: State, s': State)
    requires Inv(c, s) && Next(c, s, s') && !s.rollbackFailed && s'.rollbackFailed
    ensures BackedUp(c, s.files)
  {
    hide ConfigOk, Recoverable, BackupFirst, Good, Meaning, VersionOf, IsReadOnly, Repaired, Serving, BackedUp, PlanKeeps, EMPTY_LOG, Recover, Migrate, Append, CompactFile, IsOriginal;
    NotFailing(c, s, s');
  }

  lemma NotFailing(c: Config, s: State, s': State)
    requires Next(c, s, s') && !s.rollbackFailed && s'.rollbackFailed
    ensures s.mode.Compacting?
  {
    hide Good, VersionOf, IsReadOnly, Repaired, Meaning, Serving, CompactFile, PartlyUpgraded, EMPTY_LOG, Accepted, OpBytes, Applied, RecoveryPlan, PrepareCompact, SwapCompact;
  }

  /**
   With backups kept, a current-format log is never on disk without the backup of the original, and
   not even a failed rollback loses that backup.
   */
  lemma {:induction false} CurrentImpliesBackup(c: Config, run: seq<State>, i: nat)
    requires Run(c, run) && i < |run| && c.withBackup && c.oldVersion < LOG_VERSION
    ensures run[i].rollbackFailed ==> BackupName(c) in run[i].files && run[i].files[BackupName(c)] == c.original
    ensures !run[i].rollbackFailed ==>
      && Target(run[i].files).Some?
      && (VersionOf(Target(run[i].files).value) == LOG_VERSION ==>
          BackupName(c) in run[i].files && run[i].files[BackupName(c)] == c.original)
      && (VersionOf(Target(run[i].files).value) != LOG_VERSION ==> Repaired(Target(run[i].files).value) == c.original)
  {
    hide Next, ConfigOk, Recoverable, ModeInv, VersionOf, IsReadOnly, Repaired, Target;
    RunInv(c, run, i);
    if i > 0 && run[i].rollbackFailed {
      assert Next(c, run[i - 1], run[i - 1 + 1]);
      if run[i - 1].rollbackFailed {
        CurrentImpliesBackup(c, run, i - 1);
        BackupStays(c, run, i - 1, i);
      } else {
        RunInv(c, run, i - 1);
        FailedAfterBackup(c, run[i - 1], run[i]);
        BackupNeverChanges(c, run, i - 1, i);
      }
    }
  }

  /** A log that asks not to be written is not written by any step. */
  lemma StepKeepsReadOnly(c: Config, s: State, s': State)
    requires Inv(c, s) && !s.rollbackFailed && Next(c, s, s')
    requires Target(s.files).Some? && IsReadOnly(Target(s.files).value)
    ensures Target(s'.files) == Target(s.files) && !s'.rollbackFailed
  {
    hide Next, Inv;
    if s'.rollbackFailed {
      NotFailing(c, s, s');
    }
    if s.mode.Compacting? {
      CompactNotReadOnly(c, s);
    } else if s.mode.Scanning? {
      ScanKeepsReadOnly(c, s, s');
    } else if s.mode.Recovering? || s.mode.Down? {
      RecoverKeepsReadOnly(c, s, s');
    } else {
      OtherKeepsReadOnly(c, s, s');
    }
  }

  lemma CompactNotReadOnly(c: Config, s: State)
    requires Inv(c, s) && !s.rollbackFailed && s.mode.Compacting?
    ensures Target(s.files).Some? && !IsReadOnly(Target(s.files).value)
  {
    hide Good, VersionOf, IsReadOnly, Repaired, Meaning, Serving, BackedUp, ConfigOk, Recoverable, BackupFirst, IsOriginal, Compactable;
    CompactingWritable(c, s);
  }

  lemma CompactingWritable(c: Config, s: State)
    requires ConfigOk(c) && s.mode.Compacting? && CompactInv(c, s)
    ensures !IsReadOnly(s.mode.prior) && !IsReadOnly(s.mode.output)
  {
    hide Good, Meaning, VersionOf, IsReadOnly, Repaired, HeaderBytes, Serving, ServingMain;
    ServingIsGood(s.mode.output);
    if !s.mode.migrating {
      ServingIsGood(s.mode.prior);
    }
  }

  lemma ScanKeepsReadOnly(c: Config, s: State, s': State)
    requires Inv(c, s) && !s.rollbackFailed && Next(c, s, s') && s.mode.Scanning?
    requires Target(s.files).Some? && IsReadOnly(Target(s.files).value)
    ensures Target(s'.files) == Target(s.files)
  {
    hide Good, VersionOf, IsReadOnly, Repaired, Meaning, Serving, ConfigOk, BackupFirst;
    if CompleteScan(c, s, s') {
      GoodSize(s.files[Main]);
      RepairKeeps(s.files[Main]);
    }
  }

  lemma RecoverKeepsReadOnly(c: Config, s: State, s': State)
    requires Inv(c, s) && !s.rollbackFailed && Next(c, s, s') && (s.mode.Recovering? || s.mode.Down?)
    requires Target(s.files).Some? && IsReadOnly(Target(s.files).value)
    ensures Target(s'.files) == Target(s.files)
  {
    hide Good, VersionOf, Repaired, Meaning, Serving, ConfigOk, BackupFirst, RecoveryPlan, IsReadOnly, EMPTY_LOG;
    EmptyLogServes();
    if s.mode.Recovering? && |s.mode.plan| == 0 {
      PlanDone(s.files);
    }
  }

  lemma OtherKeepsReadOnly(c: Config, s: State, s': State)
    requires Inv(c, s) && !s.rollbackFailed && Next(c, s, s')
    requires !s.mode.Compacting? && !s.mode.Scanning? && !s.mode.Recovering? && !s.mode.Down?
    requires Target(s.files).Some? && IsReadOnly(Target(s.files).value)
    ensures Target(s'.files) == Target(s.files)
  {
    hide Good, VersionOf, Repaired, Meaning, Serving, BackupFirst, Recoverable, IsReadOnly, CompactFile, PartlyUpgraded, HeaderBytes, Accepted, OpBytes;
    match s.mode
    case Up => ServingIsGood(s.files[Main]);
    case Appending(base, op, n) => AppendingNotReadOnly(base, op, n);
    case UpgradingHeader(k) => UpgradeKeeps(c.original, k);
    case _ =>
  }

  lemma AppendingNotReadOnly(base: Bytes, op: Op, n: nat)
    requires Serving(base) && Accepted(op) && n <= |OpBytes(op)|
    ensures !IsReadOnly(base + OpBytes(op)[..n])
  {
    hide Good, Meaning, VersionOf, IsReadOnly, Repaired, Serving, AppendAccepts, AppendBytes;
    if n < |OpBytes(op)| {
      TornAppend(base, op.key, op.value, op.deleted, op.attributes, n);
    } else {
      assert OpBytes(op)[..n] == OpBytes(op);
      AppendServes(base, op.key, op.value, op.deleted, op.attributes);
      ServingIsGood(base + OpBytes(op));
    }
  }

  /** A log with an unknown read-only feature keeps every byte for the rest of the run, whatever is tried. */
  lemma {:induction false} ReadOnlyLogUntouched(c: Config, run: seq<State>, i: nat, j: nat)
    requires Run(c, run) && i <= j < |run| && !run[i].rollbackFailed
    requires Target(run[i].files).Some? && IsReadOnly(Target(run[i].files).value)
    ensures Target(run[j].files) == Target(run[i].files) && !run[j].rollbackFailed
    decreases j - i
  {
    hide Init, Next, Inv, Target, IsReadOnly;
    if i < j {
      assert Next(c, run[j - 1], run[j - 1 + 1]);
      ReadOnlyLogUntouched(c, run, i, j - 1);
      RunInv(c, run, j - 1);
      StepKeepsReadOnly(c, run[j - 1], run[j]);
    }
  }
}

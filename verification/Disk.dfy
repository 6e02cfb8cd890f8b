/**
 The files of one database in its directory, and the procedure that cleans up after an interrupted
 compaction. Renames and removals are atomic; a rename replaces its destination.
 */
module Disk {
  import opened Bytes

  datatype Name =
    | Main
    | Temp
    | Ready
    | Backup
    | Legacy
    | MigrationBackup(version: nat)
    | MigrationBackupTemp(version: nat)

  type Files = map<Name, Bytes>

  /** One file operation. */
  datatype Action = Remove(name: Name) | Rename(from: Name, to: Name)

  /** Removing a file that is not there is not an error; renaming one is. */
  predicate Enabled(files: Files, a: Action) {
    a.Rename? ==> a.from in files
  }

  function Exec(files: Files, a: Action): Files
    requires Enabled(files, a)
  {
    match a
    case Remove(name) => files - {name}
    case Rename(from, to) => (files - {from})[to := files[from]]
  }

  /** The file a recovery makes the database: the main log, or else the best of what an interruption left. */
  function Target(files: Files): Option<Bytes> {
    if Main in files then Some(files[Main])
    else if Ready in files then Some(files[Ready])
    else if Backup in files then Some(files[Backup])
    else if Legacy in files then Some(files[Legacy])
    else None
  }

  predicate NoArtifacts(files: Files) {
    Temp !in files && Ready !in files && Backup !in files && Legacy !in files
  }

  /** The first half of recovery: put the surviving database in the main place. */
  function Settle(files: Files): seq<Action> {
    if Main in files then [Remove(Ready), Remove(Backup), Remove(Legacy)]
    else if Ready in files then [Rename(Ready, Main), Remove(Backup)]
    else if Backup in files then [Rename(Backup, Main)]
    else if Legacy in files then [Rename(Legacy, Main)]
    else []
  }

  const SWEEP: seq<Action> := [Remove(Temp), Remove(Ready), Remove(Backup), Remove(Legacy)]

  /** What recovery does, decided once from which files exist. */
  function RecoveryPlan(files: Files): seq<Action> {
    Settle(files) + SWEEP
  }

  /** The action removes an artifact, or moves one into the main place. */
  predicate CleansUp(a: Action) {
    match a
    case Remove(name) => name == Temp || name == Ready || name == Backup || name == Legacy
    case Rename(from, to) => to == Main && (from == Ready || from == Backup || from == Legacy)
  }

  /** Every action of the plan can be carried out, none changes what recovery would choose, and none is left over. */
  predicate PlanKeeps(files: Files, plan: seq<Action>)
    decreases |plan|
  {
    if |plan| == 0 then NoArtifacts(files)
    else
      && CleansUp(plan[0]) && Enabled(files, plan[0])
      && Target(Exec(files, plan[0])) == Target(files)
      && PlanKeeps(Exec(files, plan[0]), plan[1..])
  }

  function RunPlan(files: Files, plan: seq<Action>): Files
    requires PlanKeeps(files, plan)
    decreases |plan|
  {
    if |plan| == 0 then files else RunPlan(Exec(files, plan[0]), plan[1..])
  }

  lemma PlanDone(files: Files)
    ensures PlanKeeps(files, []) <==> NoArtifacts(files)
  {
  }

  lemma PlanStep(files: Files, a: Action, rest: seq<Action>)
    requires CleansUp(a) && Enabled(files, a) && Target(Exec(files, a)) == Target(files) && PlanKeeps(Exec(files, a), rest)
    ensures PlanKeeps(files, [a] + rest)
  {
    assert ([a] + rest)[1..] == rest;
  }

  /** The sweep only removes artifacts, whatever they are, once the main log is in place or nothing is there to save. */
  lemma SweepKeeps(files: Files)
    requires Main in files || (Ready !in files && Backup !in files && Legacy !in files)
    ensures PlanKeeps(files, SWEEP)
  {
    hide PlanKeeps;
    var f1 := Exec(files, Remove(Temp));
    var f2 := Exec(f1, Remove(Ready));
    var f3 := Exec(f2, Remove(Backup));
    var f4 := Exec(f3, Remove(Legacy));
    PlanDone(f4);
    var p3 := [Remove(Legacy)] + [];
    var p2 := [Remove(Backup)] + p3;
    var p1 := [Remove(Ready)] + p2;
    PlanStep(f3, Remove(Legacy), []);
    PlanStep(f2, Remove(Backup), p3);
    PlanStep(f1, Remove(Ready), p2);
    PlanStep(files, Remove(Temp), p1);
    assert SWEEP == [Remove(Temp)] + p1;
  }

  /**
   Recovery can be interrupted after any action: from every directory, each action of the plan
   keeps the file that a fresh recovery would choose, and the whole plan leaves no artifact.
   */
  lemma RecoveryPlanKeeps(files: Files)
    ensures PlanKeeps(files, RecoveryPlan(files))
  {
    hide PlanKeeps, SWEEP;
    if Main in files {
      var f1 := Exec(files, Remove(Ready));
      var f2 := Exec(f1, Remove(Backup));
      var f3 := Exec(f2, Remove(Legacy));
      SweepKeeps(f3);
      PlanStep(f2, Remove(Legacy), SWEEP);
      PlanStep(f1, Remove(Backup), [Remove(Legacy)] + SWEEP);
      PlanStep(files, Remove(Ready), [Remove(Backup)] + ([Remove(Legacy)] + SWEEP));
      assert RecoveryPlan(files) == [Remove(Ready)] + ([Remove(Backup)] + ([Remove(Legacy)] + SWEEP));
    } else if Ready in files {
      var f1 := Exec(files, Rename(Ready, Main));
      var f2 := Exec(f1, Remove(Backup));
      SweepKeeps(f2);
      PlanStep(f1, Remove(Backup), SWEEP);
      PlanStep(files, Rename(Ready, Main), [Remove(Backup)] + SWEEP);
      assert RecoveryPlan(files) == [Rename(Ready, Main)] + ([Remove(Backup)] + SWEEP);
    } else if Backup in files {
      var f1 := Exec(files, Rename(Backup, Main));
      SweepKeeps(f1);
      PlanStep(files, Rename(Backup, Main), SWEEP);
    } else if Legacy in files {
      var f1 := Exec(files, Rename(Legacy, Main));
      SweepKeeps(f1);
      PlanStep(files, Rename(Legacy, Main), SWEEP);
    } else {
      SweepKeeps(files);
      assert RecoveryPlan(files) == SWEEP;
    }
  }

  /** A completed plan leaves the chosen file in the main place and nothing beside it. */
  lemma {:induction false} RunPlanResult(files: Files, plan: seq<Action>)
    requires PlanKeeps(files, plan)
    ensures NoArtifacts(RunPlan(files, plan)) && Target(RunPlan(files, plan)) == Target(files)
    decreases |plan|
  {
    hide Target, Enabled;
    if |plan| > 0 {
      RunPlanResult(Exec(files, plan[0]), plan[1..]);
    }
  }

  /** The files after a recovery: the chosen database in the main place, no artifact, and the rest as it was. */
  function Cleaned(files: Files): Files {
    var rest := files - {Main, Temp, Ready, Backup, Legacy};
    match Target(files) case Some(t) => rest[Main := t] case None => rest
  }

  lemma CleanedStep(files: Files, a: Action)
    requires CleansUp(a) && Enabled(files, a) && Target(Exec(files, a)) == Target(files)
    ensures Cleaned(Exec(files, a)) == Cleaned(files)
  {
    hide Target;
  }

  /** A completed plan leaves exactly those files. */
  lemma {:induction false} RunPlanCleans(files: Files, plan: seq<Action>)
    requires PlanKeeps(files, plan)
    ensures RunPlan(files, plan) == Cleaned(files)
    decreases |plan|
  {
    hide Cleaned, CleansUp;
    if |plan| == 0 {
      CleanAlready(files);
    } else {
      CleanedStep(files, plan[0]);
      RunPlanCleans(Exec(files, plan[0]), plan[1..]);
    }
  }

  lemma CleanAlready(files: Files)
    requires NoArtifacts(files)
    ensures Cleaned(files) == files
  {
  }

  /**
   What survives a recovery, said of the files alone: there is a main log afterwards exactly when there
   was one or something to make it from, and the best of what was there became it.
   */
  lemma SurvivorByRank(files: Files)
    ensures var after := Cleaned(files);
      && (Main in after <==> Main in files || Ready in files || Backup in files || Legacy in files)
      && (Main in files ==> after[Main] == files[Main])
      && (Main !in files && Ready in files ==> after[Main] == files[Ready])
      && (Main !in files && Ready !in files && Backup in files ==> after[Main] == files[Backup])
      && (Main !in files && Ready !in files && Backup !in files && Legacy in files ==> after[Main] == files[Legacy])
      && Temp !in after && Ready !in after && Backup !in after && Legacy !in after
  {
  }

  /** The directory as the running process changes it. */
  class Directory {
    var files: Files

    constructor (files: Files)
      ensures this.files == files
    {
      this.files := files;
    }

    method Perform(a: Action)
      requires Enabled(files, a)
      modifies this
      ensures files == Exec(old(files), a)
    {
      files := Exec(files, a);
    }
  }

  /** Brings the directory back to a single database file after any interruption. */
  method RecoverCompactionArtifacts(d: Directory)
    modifies d
    ensures NoArtifacts(d.files) && Target(d.files) == Target(old(d.files))
    ensures d.files == Cleaned(old(d.files))
    ensures var before, after := old(d.files), d.files;
      && (Main in after <==> Main in before || Ready in before || Backup in before || Legacy in before)
      && (Main in before ==> after[Main] == before[Main])
      && (Main !in before && Ready in before ==> after[Main] == before[Ready])
      && (Main !in before && Ready !in before && Backup in before ==> after[Main] == before[Backup])
      && (Main !in before && Ready !in before && Backup !in before && Legacy in before ==> after[Main] == before[Legacy])
      && Temp !in after && Ready !in after && Backup !in after && Legacy !in after
      && (forall version :: MigrationBackup(version) in after <==> MigrationBackup(version) in before)
      && (forall version :: MigrationBackup(version) in before ==>
            after[MigrationBackup(version)] == before[MigrationBackup(version)])
  {
    hide Settle, SWEEP, Target, Enabled, Cleaned;
    SurvivorByRank(d.files);
    forall version: nat {
      CleanedKeepsBackups(d.files, MigrationBackup(version));
    }
    RecoveryPlanKeeps(d.files);
    var plan := RecoveryPlan(d.files);
    ghost var start := d.files;
    RunPlanResult(start, plan);
    RunPlanCleans(start, plan);
    var i := 0;
    assert plan[0..] == plan;
    while i < |plan|
      invariant 0 <= i <= |plan|
      invariant PlanKeeps(d.files, plan[i..]) && RunPlan(d.files, plan[i..]) == RunPlan(start, plan)
    {
      assert plan[i..][1..] == plan[i + 1..];
      d.Perform(plan[i]);
      i := i + 1;
    }
  }

  /** A migration backup, complete or not, is none of recovery's business. */
  lemma CleanedKeepsBackups(files: Files, name: Name)
    requires name.MigrationBackup? || name.MigrationBackupTemp?
    ensures name in Cleaned(files) <==> name in files
    ensures name in files ==> Cleaned(files)[name] == files[name]
  {
  }
}

/** A start of the service with a restore pending, and what whole runs of starts keep.

  Order matters: the database is swapped first, then old snapshots are pruned, then the config
  that came with the backup is applied and, if it does not load, taken back.
*/
module RestoreStartup {
  import opened Wrappers
  import opened FileSystem
  import Sequences
  import opened SnapshotNames
  import opened RestoreApply
  import opened RestoreConfig
  import opened ConfigMerge

  // ---- Pruning old snapshots ----

  /** The names in the data directory, leaving out the snapshot just taken. */
  function OtherNames(files: Files, justTaken: Option<string>): set<string> {
    set p | p in files && p.Data? && justTaken != Some(p.name) :: p.name
  }

  function KeepOthers(justTaken: Option<string>): nat {
    if justTaken.Some? then SAFETY_SNAPSHOTS_KEPT - 1 else SAFETY_SNAPSHOTS_KEPT
  }

  /** A snapshot other than the one just taken, with enough newer ones kept instead of it. */
  predicate Prunable(files: Files, justTaken: Option<string>, name: string) {
    && Data(name) in files && justTaken != Some(name) && SnapshotStamp(name).Some?
    && |NewerOnes(OtherNames(files, justTaken), name)| >= KeepOthers(justTaken)
  }

  method ListOthers(disk: Disk, justTaken: Option<string>) returns (names: seq<string>)
    ensures Sequences.Distinct(names) && Elements(names) == OtherNames(disk.files, justTaken)
  {
    names := [];
    var all := OtherNames(disk.files, justTaken);
    var rest := all;
    while rest != {}
      invariant rest <= all && Sequences.Distinct(names) && Elements(names) == all - rest
      decreases rest
    {
      var n :| n in rest;
      ghost var before := names;
      names := names + [n];
      rest := rest - {n};
      assert n !in Elements(before);
      assert Elements(names) == Elements(before) + {n};
    }
  }

  /** Only files of prunable snapshots go, and they only go. */
  ghost predicate OnlyPruned(a: Files, b: Files, justTaken: Option<string>) {
    && (forall p | p in b :: p in a && b[p] == a[p])
    && (forall p | p in a && p !in b ::
          (p.Data? || (p.Sibling? && p.suffix == WalSuffix)) && Prunable(a, justTaken, p.name))
  }

  /** What listing the data directory asks to use. */
  const DATA_DIRECTORY := Data("")

  method PruneOldSnapshots(disk: Disk, justTaken: Option<string>)
    modifies disk
    ensures disk.GoesOn()
    ensures OnlyPruned(old(disk.files), disk.files, justTaken)
    ensures disk.running && Using(DATA_DIRECTORY) !in disk.refused ==>
              PrunableGone(old(disk.files), disk, justTaken)
    ensures disk.running && disk.refused == {} ==>
              |SnapshotsAmong(OtherNames(disk.files, justTaken))| <= KeepOthers(justTaken)
  {
    var readable := disk.Use(DATA_DIRECTORY);
    if !readable { return; }
    ghost var a := disk.files;
    var names := ListOthers(disk, justTaken);
    var doomed := SnapshotsToPrune(names, KeepOthers(justTaken));
    forall n ensures n in doomed <==> Prunable(a, justTaken, n) {
      PrunedExactly(names, KeepOthers(justTaken), n);
      assert n in Elements(names) <==> n in OtherNames(a, justTaken);
    }
    RemoveSnapshots(disk, doomed);
    if disk.running && disk.refused == {} { PruningLeavesAtMost(a, disk.files, justTaken, names); }
  }

  method RemoveSnapshots(disk: Disk, doomed: seq<string>)
    modifies disk
    ensures disk.GoesOn()
    ensures forall p | p in disk.files :: p in old(disk.files) && disk.files[p] == old(disk.files)[p]
    ensures forall p | p in old(disk.files) && p !in disk.files ::
              (p.Data? || (p.Sibling? && p.suffix == WalSuffix)) && p.name in doomed
    ensures disk.running ==> forall n | n in doomed :: SnapshotGone(disk, n)
  {
    for i := 0 to |doomed|
      invariant disk.GoesOn()
      invariant forall p | p in disk.files :: p in old(disk.files) && disk.files[p] == old(disk.files)[p]
      invariant forall p | p in old(disk.files) && p !in disk.files ::
                  (p.Data? || (p.Sibling? && p.suffix == WalSuffix)) && p.name in doomed
      invariant disk.running ==> forall j | 0 <= j < i :: SnapshotGone(disk, doomed[j])
    {
      var _ := disk.Remove(Data(doomed[i]));
      var _ := disk.Remove(Sibling(doomed[i], WalSuffix));
    }
  }

  ghost predicate SnapshotGone(disk: Disk, name: string)
    reads disk
  {
    disk.GoneOrRefused(Data(name)) && disk.GoneOrRefused(Sibling(name, WalSuffix))
  }

  ghost predicate PrunableGone(a: Files, disk: Disk, justTaken: Option<string>)
    reads disk
  {
    forall n | Prunable(a, justTaken, n) :: SnapshotGone(disk, n)
  }

  /** The snapshots of a data directory are as many as are kept, or fewer. */
  predicate FewSnapshots(files: Files) {
    |SnapshotsAmong(OtherNames(files, None))| <= 3
  }

  lemma OneTakenAndOthers(files: Files, justTaken: Option<string>)
    requires |SnapshotsAmong(OtherNames(files, justTaken))| <= KeepOthers(justTaken)
    ensures FewSnapshots(files)
  {
    var extra := match justTaken case Some(n) => {n} case None => {};
    AddsAtMost(SnapshotsAmong(OtherNames(files, justTaken)), extra, SnapshotsAmong(OtherNames(files, None)));
  }

  lemma SameNamesSameSnapshots(a: Files, b: Files)
    requires forall n: string :: Data(n) in a <==> Data(n) in b
    ensures FewSnapshots(a) ==> FewSnapshots(b)
  {
    assert OtherNames(a, None) == OtherNames(b, None);
  }

  lemma AddsAtMost(before: set<string>, extra: set<string>, after: set<string>)
    requires after <= before + extra
    ensures |after| <= |before| + |extra|
  {
    assert before + extra == after + (before + extra - after);
    assert |before + extra| <= |before| + |extra|;
  }

  function SnapshotsAmong(names: set<string>): set<string> {
    set y | y in names && SnapshotStamp(y).Some?
  }

  /** A pruning of which nothing is refused leaves at most as many other snapshots as are kept. */
  lemma PruningLeavesAtMost(a: Files, b: Files, justTaken: Option<string>, names: seq<string>)
    requires Sequences.Distinct(names) && Elements(names) == OtherNames(a, justTaken)
    requires OnlyPruned(a, b, justTaken) && forall n | Prunable(a, justTaken, n) :: Data(n) !in b
    ensures |SnapshotsAmong(OtherNames(b, justTaken))| <= if justTaken.Some? then 2 else 3
  {
    PruningLeavesTheNewest(names, KeepOthers(justTaken));
    var left := set y | y in names && SnapshotStamp(y).Some? && y !in SnapshotsToPrune(names, KeepOthers(justTaken));
    forall y | y in SnapshotsAmong(OtherNames(b, justTaken)) ensures y in left {
      assert Data(y) in b;
      assert y in Elements(names);
      PrunedExactly(names, KeepOthers(justTaken), y);
    }
    assert left == SnapshotsAmong(OtherNames(b, justTaken)) + (left - SnapshotsAmong(OtherNames(b, justTaken)));
  }

  // ---- One start ----

  /** `why` is None if the location of the config is not known. */
  datatype ConfigOutcome = NotIncluded | Settings(applied: ConfigApplied) | SettingsFailed(why: Option<ConfigError>)

  datatype Outcome =
    | NothingPending
    | Applied(snapshot: Option<Snapshot>, config: ConfigOutcome)
    | Rejected(reason: Reason, setAside: bool)

  const CONFIG_FILES := {CONFIG, PENDING_CONFIG} + CONFIG_SCRATCH

  /** Settings fail only if their target is not known or for an explained error. */
  ghost predicate ConfigFailureExplained(toml: Toml, a: Files, disk: Disk, configKnown: bool, config: ConfigOutcome)
    reads disk
  {
    config.SettingsFailed? ==>
      && PENDING_CONFIG in a && (config.why.None? <==> !configKnown)
      && (config.why.Some? && disk.running ==> Explained(toml, a, disk, config.why.value))
  }

  lemma ExplainedFrame(toml: Toml, a: Files, b: Files, disk: Disk, configKnown: bool, config: ConfigOutcome)
    requires Unchanged(a, b, CONFIG) && Unchanged(a, b, PENDING_CONFIG)
    requires ConfigFailureExplained(toml, b, disk, configKnown, config)
    ensures ConfigFailureExplained(toml, a, disk, configKnown, config)
  {
    if config.SettingsFailed? { assert b[PENDING_CONFIG] == a[PENDING_CONFIG]; }
  }

  /** Apply the pending config, if its target is known, and remove it either way. */
  method ApplyPendingConfig(disk: Disk, toml: Toml, configKnown: bool) returns (r: ConfigOutcome)
    modifies disk
    ensures disk.GoesOn()
    ensures SameExcept(old(disk.files), disk.files, CONFIG_FILES)
    ensures KeptOrGone(old(disk.files), disk.files, PENDING_CONFIG)
    ensures disk.GoneOrRefused(PENDING_CONFIG)
    ensures PENDING_CONFIG !in old(disk.files) <==> r.NotIncluded?
    ensures !r.Settings? ==> ConfigUnchanged(old(disk.files), disk.files)
    ensures r.Settings? ==> SavedBefore(old(disk.files), disk.files, r.applied)
    ensures r.Settings? ==> HoldsMerge(toml, old(disk.files), disk.files)
    ensures ConfigFailureExplained(toml, old(disk.files), disk, configKnown, r)
  {
    if PENDING_CONFIG !in disk.files { return NotIncluded; }
    r := TryConfig(disk, toml, configKnown);
    var _ := disk.Remove(PENDING_CONFIG);
  }

  method TryConfig(disk: Disk, toml: Toml, configKnown: bool) returns (r: ConfigOutcome)
    requires PENDING_CONFIG in disk.files
    modifies disk
    ensures disk.GoesOn()
    ensures SameExcept(old(disk.files), disk.files, {CONFIG} + CONFIG_SCRATCH)
    ensures !r.NotIncluded?
    ensures !r.Settings? ==> ConfigUnchanged(old(disk.files), disk.files)
    ensures r.Settings? ==> SavedBefore(old(disk.files), disk.files, r.applied)
    ensures r.Settings? ==> HoldsMerge(toml, old(disk.files), disk.files)
    ensures ConfigFailureExplained(toml, old(disk.files), disk, configKnown, r)
  {
    if !configKnown { return SettingsFailed(None); }
    var applied := ApplyConfig(disk, toml);
    r := if applied.Ok? then Settings(applied.value) else SettingsFailed(Some(applied.error));
  }

  /** The config that was replaced is saved, if there was one. */
  predicate SavedBefore(a: Files, b: Files, applied: ConfigApplied) {
    && (applied.previous <==> CONFIG in a)
    && (CONFIG in a ==> PRE_RESTORE in b && b[PRE_RESTORE] == File(a[CONFIG].content, true))
  }

  /** The config is as it was, up to being flushed, or the complete merge. */
  predicate ConfigIsWhole(toml: Toml, a: Files, b: Files) {
    || ConfigUnchanged(a, b)
    || (CONFIG in a && CONFIG in b && b[CONFIG] == File(a[CONFIG].content, true))
    || HoldsMerge(toml, a, b)
  }

  /** The config is the merge of the one there was with the one that came with the backup. */
  predicate HoldsMerge(toml: Toml, a: Files, b: Files) {
    && PENDING_CONFIG in a && a[PENDING_CONFIG].content.Text? && MergedConfig(toml, a).Ok?
    && CONFIG in b && b[CONFIG] == File(Text(MergedConfig(toml, a).value), true)
  }

  /** No snapshot, or one with fewer newer ones than a start keeps beside the one it takes. */
  predicate IsRecent(files: Files, name: string, chosen: Option<nat>) {
    && Data(name) in files
    && (SnapshotStamp(name).Some? ==>
          |NewerOnes(OtherNames(files, None), name)| < if chosen.Some? then 2 else 3)
  }

  /** Recent snapshots and their logs are left alone, whatever the clock says. */
  ghost predicate RecentSnapshotsSpared(a: Files, b: Files, chosen: Option<nat>) {
    forall n | IsRecent(a, n, chosen) :: Unchanged(a, b, Data(n)) && Unchanged(a, b, Sibling(n, WalSuffix))
  }

  /** Nothing but the chosen name is new among the snapshots. */
  ghost predicate OnlyChosenIsNew(a: Files, b: Files, chosen: Option<nat>) {
    forall n | Data(n) in b && SnapshotStamp(n).Some? ::
      Data(n) in a || (chosen.Some? && n == SnapshotName(chosen.value))
  }

  /** Everything one start promises at every point where it can die. */
  ghost predicate StartKeeps(a: Files, b: Files, now: nat, chosen: Option<nat>) {
    && LiveInv(b)
    && (OldStays(a, b) || NewInstalled(a, b))
    && Recoverable(a, b, chosen)
    && Fresh(a, now, chosen)
    && RecentSnapshotsSpared(a, b, chosen)
    && OnlyChosenIsNew(a, b, chosen)
    && SamePending(a, b)
    && (!ConfigUnchanged(a, b) ==> NewInstalled(a, b) && PENDING_CONFIG in a)
  }

  method ApplyPendingRestore(disk: Disk, toml: Toml, configKnown: bool, now: nat)
      returns (r: Outcome, ghost chosen: Option<nat>)
    requires LiveInv(disk.files)
    modifies disk
    ensures disk.Continues()
    ensures StartKeeps(old(disk.files), disk.files, now, chosen)
    ensures ConfigIsWhole(toml, old(disk.files), disk.files)
    ensures disk.GoneOrRefused(PENDING_CONFIG)
    ensures r.NothingPending? <==> PENDING !in old(disk.files)
    ensures r.NothingPending? ==> IsIdle(old(disk.files), disk.files, chosen)
    ensures r.Applied? ==> NewInstalled(old(disk.files), disk.files) && RetiredOrRefused(disk)
    ensures r.Applied? && disk.running && disk.refused == {} ==> FewSnapshots(disk.files)
    ensures r.Applied? ==> (r.config.NotIncluded? <==> PENDING_CONFIG !in old(disk.files))
    ensures r.Applied? ==> ConfigFailureExplained(toml, old(disk.files), disk, configKnown, r.config)
    ensures r.Applied? && r.config.Settings? ==> HoldsMerge(toml, old(disk.files), disk.files)
    ensures r.Applied? && r.config.Settings? ==> SavedBefore(old(disk.files), disk.files, r.config.applied)
    ensures r.Applied? && !r.config.Settings? ==> ConfigUnchanged(old(disk.files), disk.files)
    ensures r.Rejected? ==> OldStays(old(disk.files), disk.files) && LeftAlone(old(disk.files), disk)
    ensures r.Rejected? ==> ConfigUnchanged(old(disk.files), disk.files)
    ensures r.Rejected? && disk.running ==> Caused(disk, r.reason, chosen)
    ensures disk.inUse && !old(disk.inUse) ==> r.Rejected? && r.reason.InUse?
    ensures r.Rejected? ==> IsSetAside(disk, r.setAside)
  {
    chosen := None;
    ghost var a := disk.files;
    if PENDING !in disk.files {
      // a config without its database is discarded, never applied
      var _ := disk.Remove(PENDING_CONFIG);
      IdleKeeps(a, disk.files, now);
      return NothingPending, None;
    }
    var applied;
    applied, chosen := Apply(disk, now);
    assert Unchanged(a, disk.files, CONFIG) && Unchanged(a, disk.files, PENDING_CONFIG);
    match applied
    case Ok(snapshot) =>
      var config := FinishRestore(disk, toml, configKnown, snapshot, a, now, chosen);
      r := Applied(snapshot, config);
    case Err(reason) =>
      var aside := RefuseRestore(disk, a, now, chosen);
      r := Rejected(reason, aside);
  }

  /** A start without a restore takes no snapshot and at most removes an orphan config. */
  ghost predicate IsIdle(a: Files, b: Files, chosen: Option<nat>) {
    chosen.None? && SameExcept(a, b, {PENDING_CONFIG}) && KeptOrGone(a, b, PENDING_CONFIG)
  }

  /** The pending file is gone, or the process died or the system refused to rename it. */
  ghost predicate IsSetAside(disk: Disk, setAside: bool)
    reads disk
  {
    if setAside then PENDING !in disk.files else disk.running ==> Renaming(PENDING, FAILED) in disk.refused
  }

  method FinishRestore(disk: Disk, toml: Toml, configKnown: bool, snapshot: Option<Snapshot>,
                       ghost a: Files, ghost now: nat, ghost chosen: Option<nat>) returns (config: ConfigOutcome)
    requires SwapLeaves(a, disk.files, now, chosen) && NewInstalled(a, disk.files) && RetiredOrRefused(disk)
    requires Unchanged(a, disk.files, CONFIG) && Unchanged(a, disk.files, PENDING_CONFIG)
    requires MAIN in a ==> chosen.Some? && Holds(disk.files, SnapshotPath(chosen.value), ContentsAt(a, MAIN))
    requires IsTaken(if snapshot.Some? then Some(snapshot.value.name) else None, chosen)
    modifies disk
    ensures disk.GoesOn()
    ensures StartKeeps(a, disk.files, now, chosen) && NewInstalled(a, disk.files) && RetiredOrRefused(disk)
    ensures disk.GoneOrRefused(PENDING_CONFIG)
    ensures config.NotIncluded? <==> PENDING_CONFIG !in a
    ensures config.Settings? ==> HoldsMerge(toml, a, disk.files) && SavedBefore(a, disk.files, config.applied)
    ensures !config.Settings? ==> ConfigUnchanged(a, disk.files)
    ensures ConfigFailureExplained(toml, a, disk, configKnown, config)
    ensures disk.running && disk.refused == {} ==> FewSnapshots(disk.files)
  {
    var justTaken := if snapshot.Some? then Some(snapshot.value.name) else None;
    PruneAfterSwap(disk, justTaken, a, now, chosen);
    ghost var pruned := disk.files;
    config := ApplyPendingConfig(disk, toml, configKnown);
    ConfigStepKeeps(a, pruned, disk.files, now, chosen);
    ExplainedFrame(toml, a, pruned, disk, configKnown, config);
    SameNamesSameSnapshots(pruned, disk.files);
  }

  method PruneAfterSwap(disk: Disk, justTaken: Option<string>, ghost a: Files, ghost now: nat,
                        ghost chosen: Option<nat>)
    requires SwapLeaves(a, disk.files, now, chosen) && NewInstalled(a, disk.files) && RetiredOrRefused(disk)
    requires Unchanged(a, disk.files, CONFIG) && IsTaken(justTaken, chosen)
    requires MAIN in a ==> chosen.Some? && Holds(disk.files, SnapshotPath(chosen.value), ContentsAt(a, MAIN))
    modifies disk
    ensures disk.GoesOn()
    ensures StartKeeps(a, disk.files, now, chosen) && NewInstalled(a, disk.files) && RetiredOrRefused(disk)
    ensures Unchanged(old(disk.files), disk.files, CONFIG) && Unchanged(old(disk.files), disk.files, PENDING_CONFIG)
    ensures disk.running && disk.refused == {} ==> FewSnapshots(disk.files)
  {
    ghost var swapped := disk.files;
    PruneOldSnapshots(disk, justTaken);
    PruningKeeps(a, swapped, disk.files, now, justTaken, chosen);
    PruningLeaves(swapped, disk.files, justTaken, chosen);
    if disk.running && disk.refused == {} { OneTakenAndOthers(disk.files, justTaken); }
  }

  method RefuseRestore(disk: Disk, ghost a: Files, ghost now: nat, ghost chosen: Option<nat>) returns (setAside: bool)
    requires SwapLeaves(a, disk.files, now, chosen) && Unchanged(a, disk.files, CONFIG)
    requires OldStays(a, disk.files) && LeftAlone(a, disk) && PENDING in disk.files
    modifies disk
    ensures disk.GoesOn()
    ensures StartKeeps(a, disk.files, now, chosen) && ConfigUnchanged(a, disk.files)
    ensures OldStays(a, disk.files) && LeftAlone(a, disk)
    ensures disk.GoneOrRefused(PENDING_CONFIG)
    ensures IsSetAside(disk, setAside)
  {
    ghost var swapped := disk.files;
    var _ := disk.Remove(PENDING_CONFIG);
    setAside := SetAside(disk, FAILED);
    RejectionKeeps(a, swapped, disk.files, now, chosen);
  }

  lemma IdleKeeps(a: Files, b: Files, now: nat)
    requires LiveInv(a) && SameExcept(a, b, {PENDING_CONFIG})
    ensures StartKeeps(a, b, now, None)
  {
    LiveFrame(a, a, b);
    if MAIN in a { HoldsFrame(a, b, MAIN, ContentsAt(a, MAIN)); }
  }

  /** What a swap, finished or not, has left so far. */
  ghost predicate SwapLeaves(a: Files, b: Files, now: nat, chosen: Option<nat>) {
    && SameExcept(a, b, DATABASE_FILES + {PENDING, APPLIED} + SnapshotFiles(chosen))
    && Fresh(a, now, chosen) && LiveInv(b)
    && (OldStays(a, b) || NewInstalled(a, b))
    && Recoverable(a, b, chosen) && SamePending(a, b)
  }

  lemma SwapAddsOnlyChosen(a: Files, b: Files, now: nat, chosen: Option<nat>, n: string)
    requires SwapLeaves(a, b, now, chosen)
    ensures Data(n) in a ==> Unchanged(a, b, Data(n)) && Unchanged(a, b, Sibling(n, WalSuffix))
    ensures Data(n) in b ==> Data(n) in a || (chosen.Some? && n == SnapshotName(chosen.value))
  {
  }

  /** The names differ at most by the one just taken, so what was recent before is spared. */
  lemma RecentIsNotPrunable(a: Files, b: Files, now: nat, justTaken: Option<string>, chosen: Option<nat>, n: string)
    requires SwapLeaves(a, b, now, chosen) && IsRecent(a, n, chosen) && IsTaken(justTaken, chosen)
    ensures !Prunable(b, justTaken, n)
  {
    forall y | y in OtherNames(b, justTaken) ensures y in OtherNames(a, None) {
      SwapAddsOnlyChosen(a, b, now, chosen, y);
    }
    FewerNewerOnes(OtherNames(b, justTaken), OtherNames(a, None), n);
  }

  /** The snapshot just taken is the one whose name was chosen. */
  predicate IsTaken(justTaken: Option<string>, chosen: Option<nat>) {
    justTaken == match chosen case Some(t) => Some(SnapshotName(t)) case None => None
  }

  lemma PruningSpares(a: Files, s: Files, b: Files, now: nat, justTaken: Option<string>, chosen: Option<nat>)
    requires SwapLeaves(a, s, now, chosen) && OnlyPruned(s, b, justTaken) && IsTaken(justTaken, chosen)
    ensures RecentSnapshotsSpared(a, b, chosen)
  {
    forall n | IsRecent(a, n, chosen) ensures Unchanged(a, b, Data(n)) && Unchanged(a, b, Sibling(n, WalSuffix)) {
      SwapAddsOnlyChosen(a, s, now, chosen, n);
      RecentIsNotPrunable(a, s, now, justTaken, chosen, n);
    }
  }

  /** What is said of the live database only looks at its own files. */
  lemma LiveFrame(a: Files, s: Files, b: Files)
    requires forall part :: Unchanged(s, b, Live(part))
    ensures LiveInv(s) ==> LiveInv(b)
    ensures OldStays(a, s) ==> OldStays(a, b)
    ensures NewInstalled(a, s) ==> NewInstalled(a, b)
    ensures LiveAsBefore(a, s) ==> LiveAsBefore(a, b)
  {
  }

  lemma SnapshotsOnlyFrom(a: Files, s: Files, b: Files, now: nat, chosen: Option<nat>)
    requires SwapLeaves(a, s, now, chosen)
    requires forall n: string | Data(n) in b :: Data(n) in s
    ensures OnlyChosenIsNew(a, b, chosen)
  {
    forall n | Data(n) in b && SnapshotStamp(n).Some?
      ensures Data(n) in a || (chosen.Some? && n == SnapshotName(chosen.value))
    {
      SwapAddsOnlyChosen(a, s, now, chosen, n);
    }
  }

  lemma SparedFrame(a: Files, s: Files, b: Files, chosen: Option<nat>)
    requires RecentSnapshotsSpared(a, s, chosen)
    requires forall n: string :: Unchanged(s, b, Data(n)) && Unchanged(s, b, Sibling(n, WalSuffix))
    ensures RecentSnapshotsSpared(a, b, chosen)
  {
    forall n | IsRecent(a, n, chosen) ensures Unchanged(a, b, Data(n)) && Unchanged(a, b, Sibling(n, WalSuffix)) {
      assert Unchanged(s, b, Data(n)) && Unchanged(s, b, Sibling(n, WalSuffix));
    }
  }

  lemma PruningLeavesFile(s: Files, b: Files, justTaken: Option<string>, p: Path)
    requires OnlyPruned(s, b, justTaken)
    requires p.Data? || p.Sibling? ==> justTaken == Some(p.name)
    ensures Unchanged(s, b, p)
  {
  }

  /** Pruning after a finished swap leaves the live files and the new snapshot alone. */
  lemma PruningLeaves(s: Files, b: Files, justTaken: Option<string>, chosen: Option<nat>)
    requires OnlyPruned(s, b, justTaken) && IsTaken(justTaken, chosen)
    ensures forall p: Path | !p.Data? && !p.Sibling? :: Unchanged(s, b, p)
    ensures chosen.Some? ==> Unchanged(s, b, SnapshotPath(chosen.value))
    ensures chosen.Some? ==> Unchanged(s, b, WalOf(SnapshotPath(chosen.value)))
  {
    forall p: Path | !p.Data? && !p.Sibling? ensures Unchanged(s, b, p) {
      PruningLeavesFile(s, b, justTaken, p);
    }
    if chosen.Some? {
      PruningLeavesFile(s, b, justTaken, SnapshotPath(chosen.value));
      PruningLeavesFile(s, b, justTaken, WalOf(SnapshotPath(chosen.value)));
    }
  }

  /** After a finished swap: pruning ... */
  lemma PruningKeeps(a: Files, s: Files, p: Files, now: nat, justTaken: Option<string>, chosen: Option<nat>)
    requires SwapLeaves(a, s, now, chosen) && NewInstalled(a, s) && Unchanged(a, s, CONFIG)
    requires MAIN in a ==> chosen.Some? && Holds(s, SnapshotPath(chosen.value), ContentsAt(a, MAIN))
    requires OnlyPruned(s, p, justTaken) && IsTaken(justTaken, chosen)
    ensures StartKeeps(a, p, now, chosen) && NewInstalled(a, p)
    ensures MAIN in a ==> Holds(p, SnapshotPath(chosen.value), ContentsAt(a, MAIN))
  {
    PruningSpares(a, s, p, now, justTaken, chosen);
    PruningLeaves(s, p, justTaken, chosen);
    LiveFrame(a, s, p);
    if MAIN in a { HoldsFrame(s, p, SnapshotPath(chosen.value), ContentsAt(a, MAIN)); }
    SnapshotsOnlyFrom(a, s, p, now, chosen);
  }

  /** ... and then the config, which concerns nothing else. */
  lemma ConfigStepKeeps(a: Files, p: Files, b: Files, now: nat, chosen: Option<nat>)
    requires StartKeeps(a, p, now, chosen) && SameExcept(p, b, CONFIG_FILES)
    requires !ConfigUnchanged(a, b) ==> NewInstalled(a, p) && PENDING_CONFIG in a
    ensures StartKeeps(a, b, now, chosen) && (NewInstalled(a, p) ==> NewInstalled(a, b))
  {
    LiveFrame(a, p, b);
    if MAIN in a {
      var c := ContentsAt(a, MAIN);
      if Holds(p, MAIN, c) {
        HoldsFrame(p, b, MAIN, c);
      } else {
        HoldsFrame(p, b, SnapshotPath(chosen.value), c);
      }
    }
    SparedFrame(a, p, b, chosen);
  }

  /** After a refused swap: the pending config is discarded and the pending file set aside. */
  lemma RejectionKeeps(a: Files, s: Files, b: Files, now: nat, chosen: Option<nat>)
    requires SwapLeaves(a, s, now, chosen) && Unchanged(a, s, CONFIG)
    requires SameExcept(s, b, {PENDING_CONFIG, PENDING, FAILED}) && KeptOrGone(s, b, PENDING)
    ensures StartKeeps(a, b, now, chosen)
    ensures LiveAsBefore(a, s) ==> LiveAsBefore(a, b)
    ensures OldStays(a, s) ==> OldStays(a, b)
  {
    LiveFrame(a, s, b);
    if MAIN in a && chosen.Some? && Holds(s, SnapshotPath(chosen.value), ContentsAt(a, MAIN)) {
      HoldsFrame(s, b, SnapshotPath(chosen.value), ContentsAt(a, MAIN));
    }
    if MAIN in a && Holds(s, MAIN, ContentsAt(a, MAIN)) { HoldsFrame(s, b, MAIN, ContentsAt(a, MAIN)); }
    SnapshotsOnlyFrom(a, s, b, now, chosen);
    SwapSpares(a, s, now, chosen);
    SparedFrame(a, s, b, chosen);
  }

  lemma SwapSpares(a: Files, s: Files, now: nat, chosen: Option<nat>)
    requires SwapLeaves(a, s, now, chosen)
    ensures RecentSnapshotsSpared(a, s, chosen)
  {
    forall n | IsRecent(a, n, chosen) ensures Unchanged(a, s, Data(n)) && Unchanged(a, s, Sibling(n, WalSuffix)) {
      SwapAddsOnlyChosen(a, s, now, chosen, n);
    }
  }

  /** What became of the config: with no settings applied it is as it was; applied settings are
      kept exactly if they load, and otherwise put back or, if that fails, left in place. */
  ghost predicate ConfigSettles(toml: Toml, a: Files, b: Files, r: Outcome, settled: Option<Settled>, loads: bool) {
    && (settled.Some? <==> r.Applied? && r.config.Settings?)
    && match settled
       case None => ConfigUnchanged(a, b)
       case Some(s) => (s.Kept? <==> loads) && if s.PutBack? then IsPutBack(a, b) else HoldsMerge(toml, a, b)
  }

  predicate IsPutBack(a: Files, b: Files) {
    (CONFIG in b <==> CONFIG in a) && (CONFIG in b ==> b[CONFIG] == File(a[CONFIG].content, true))
  }

  /** A start of the service: the files it found and left, the clock, whether a restored config
      loads, the snapshot name it chose and what it reported. */
  datatype Round = Round(
    from: Files,
    to: Files,
    now: nat,
    loads: bool,
    chosen: Option<nat>,
    outcome: Outcome,
    settled: Option<Settled>)

  /** Everything a start promises about the files, wherever it dies. */
  ghost predicate RoundKeeps(toml: Toml, r: Round) {
    && StartKeeps(r.from, r.to, r.now, r.chosen)
    && ConfigIsWhole(toml, r.from, r.to)
    && (r.outcome.NothingPending? <==> PENDING !in r.from)
    && (r.outcome.NothingPending? ==> IsIdle(r.from, r.to, r.chosen))
    && (r.outcome.Applied? ==> NewInstalled(r.from, r.to))
    && (r.outcome.Rejected? ==> OldStays(r.from, r.to))
    && (r.outcome.Rejected? && r.outcome.setAside ==> PENDING !in r.to)
    && ConfigSettles(toml, r.from, r.to, r.outcome, r.settled, r.loads)
  }

  /** A start of the service: the restore, and then the check that a restored config loads. */
  method Start(disk: Disk, toml: Toml, configKnown: bool, now: nat, loads: bool)
      returns (r: Outcome, settled: Option<Settled>, ghost round: Round)
    requires LiveInv(disk.files)
    modifies disk
    ensures disk.Continues()
    ensures round.from == old(disk.files) && round.to == disk.files
    ensures round.now == now && round.loads == loads && round.outcome == r && round.settled == settled
    ensures RoundKeeps(toml, round)
    ensures disk.GoneOrRefused(PENDING_CONFIG)
    ensures r.Applied? ==> RetiredOrRefused(disk)
    ensures r.Applied? && disk.running && disk.refused == {} ==> FewSnapshots(disk.files)
    ensures r.Rejected? ==> LeftAlone(old(disk.files), disk) && IsSetAside(disk, r.setAside)
    ensures r.Rejected? && disk.running ==> Caused(disk, r.reason, round.chosen)
    ensures disk.inUse && !old(disk.inUse) ==> r.Rejected? && r.reason.InUse?
    ensures PENDING in old(disk.files) && disk.running && disk.refused == {} && !disk.inUse ==> r.Applied?
    ensures r.Applied? ==> ConfigFailureExplained(toml, old(disk.files), disk, configKnown, r.config)
    ensures settled == Some(Stuck) && disk.running ==> RevertRefused(disk)
  {
    ghost var a := disk.files;
    ghost var chosen;
    r, chosen := ApplyPendingRestore(disk, toml, configKnown, now);
    settled := None;
    if r.Applied? && r.config.Settings? {
      ghost var p := disk.files;
      var s := SettleStart(disk, toml, r.config.applied, loads, a);
      settled := Some(s);
      ConfigStepKeeps(a, p, disk.files, now, chosen);
      SameNamesSameSnapshots(p, disk.files);
    }
    round := Round(a, disk.files, now, loads, chosen, r, settled);
  }

  method SettleStart(disk: Disk, toml: Toml, applied: ConfigApplied, loads: bool, ghost a: Files)
      returns (settled: Settled)
    requires HoldsMerge(toml, a, disk.files) && SavedBefore(a, disk.files, applied)
    modifies disk
    ensures disk.GoesOn()
    ensures SameExcept(old(disk.files), disk.files, {CONFIG, Cfg(ConfigTmp)})
    ensures settled == Kept <==> loads
    ensures if settled == PutBack then IsPutBack(a, disk.files) else HoldsMerge(toml, a, disk.files)
    ensures settled == Stuck && disk.running ==> RevertRefused(disk)
  {
    settled := SettleApplied(disk, applied, loads);
  }

  // ---- Runs of starts ----

  /** A finished snapshot or its log. */
  predicate IsSnapshotFile(p: Path) {
    (p.Data? && SnapshotStamp(p.name).Some?) || (p.Sibling? && p.suffix == WalSuffix)
  }

  /** What can happen between two starts: the service runs and writes its database and config, a
      restore is staged and confirmed, leftovers are swept, the power fails.  Only restores make
      or delete snapshots, and a flushed one survives the power loss. */
  predicate Between(a: Files, b: Files) {
    && LiveInv(b)
    && (forall p | p in a && IsSnapshotFile(p) && a[p].flushed :: p in b && b[p] == a[p])
    && (forall p | p in b && IsSnapshotFile(p) :: p in a)
  }

  /** A power loss is one of the things that can happen, and it leaves every file that holds
      something holding it. */
  lemma PowerLossIsBetween(a: Files, b: Files)
    requires LiveInv(a) && AfterPowerLoss(a, b)
    ensures Between(a, b)
    ensures forall p, c | Holds(a, p, c) :: Holds(b, p, c)
  {
    forall p | p in b ensures p in a {
      assert p in b.Keys;
    }
    forall p | p in a ensures p in b {
      assert p in a.Keys;
    }
  }

  lemma ChosenAddsAtMostOne(a: Files, b: Files, chosen: Option<nat>, name: string)
    requires OnlyChosenIsNew(a, b, chosen)
    ensures |NewerOnes(OtherNames(b, None), name)|
         <= |NewerOnes(OtherNames(a, None), name)| + if chosen.Some? then 1 else 0
  {
    var before, after := NewerOnes(OtherNames(a, None), name), NewerOnes(OtherNames(b, None), name);
    var extra := match chosen case Some(t) => {SnapshotName(t)} case None => {};
    forall y | y in after ensures y in before + extra {
      assert Data(y) in b;
    }
    AddsAtMost(before, extra, after);
  }

  /** A new snapshot is the newest of all if the clock is ahead of every older one's stamp. */
  lemma ChosenIsNewest(a: Files, b: Files, now: nat, chosen: nat)
    requires StartKeeps(a, b, now, Some(chosen)) && chosen < U64_LIMIT
    requires ClockIsAhead(a, now)
    ensures NewerOnes(OtherNames(b, None), SnapshotName(chosen)) == {}
  {
    StampOfSnapshotName(chosen);
    var name := SnapshotName(chosen);
    forall y | y in OtherNames(b, None) && SnapshotStamp(y).Some? ensures !Newer(y, name) {
      assert Data(y) in b;
      NewerIsAStrictOrder(name, name, name);
    }
  }

  predicate ClockIsAhead(files: Files, now: nat) {
    forall p | p in files && p.Data? && SnapshotStamp(p.name).Some? :: Stamp(p.name) < now
  }

  lemma BetweenKeepsSnapshot(a: Files, b: Files, name: string, c: Contents)
    requires Between(a, b) && SnapshotStamp(name).Some? && Holds(a, Data(name), c)
    ensures Holds(b, Data(name), c)
    ensures |NewerOnes(OtherNames(b, None), name)| <= |NewerOnes(OtherNames(a, None), name)|
  {
    var before, after := NewerOnes(OtherNames(a, None), name), NewerOnes(OtherNames(b, None), name);
    forall y | y in after ensures y in before {
      assert Data(y) in b;
    }
    assert before == after + (before - after);
  }

  lemma StartKeepsSnapshot(a: Files, b: Files, now: nat, chosen: Option<nat>, name: string, c: Contents)
    requires StartKeeps(a, b, now, chosen) && IsRecent(a, name, chosen) && Holds(a, Data(name), c)
    ensures Holds(b, Data(name), c)
  {
    assert Unchanged(a, b, Data(name)) && Unchanged(a, b, Sibling(name, WalSuffix));
    HoldsFrame(a, b, Data(name), c);
  }

  /** A run of starts, dying anywhere, with anything that can happen between them. */
  ghost predicate IsRun(toml: Toml, start: Files, rounds: seq<Round>) {
    forall i: nat | i < |rounds| :: Follows(toml, start, rounds, i)
  }

  ghost predicate Follows(toml: Toml, start: Files, rounds: seq<Round>, i: nat)
    requires i < |rounds|
  {
    Between(Left(start, rounds, i), rounds[i].from) && RoundKeeps(toml, rounds[i])
  }

  /** What the first `i` starts of a run leave. */
  function Left(start: Files, rounds: seq<Round>, i: nat): Files
    requires i <= |rounds|
  {
    if i == 0 then start else rounds[i - 1].to
  }

  /** How many starts took a snapshot, or tried to under a name they chose. */
  function Taken(rounds: seq<Round>): nat {
    if rounds == [] then 0
    else
      var n := |rounds| - 1;
      Taken(rounds[..n]) + if rounds[n].chosen.Some? then 1 else 0
  }

  lemma RunPrefix(toml: Toml, start: Files, rounds: seq<Round>, n: nat)
    requires IsRun(toml, start, rounds) && n <= |rounds|
    ensures IsRun(toml, start, rounds[..n])
    ensures Left(start, rounds[..n], n) == Left(start, rounds, n)
  {
    forall i: nat | i < n ensures Follows(toml, start, rounds[..n], i) {
      assert Follows(toml, start, rounds, i);
    }
  }

  /** Over any run, even with a clock set back, a snapshot with n newer ones survives until more
      than 2 - n of the starts have chosen a name for one of their own. */
  lemma {:induction false} SnapshotSurvives(toml: Toml, start: Files, rounds: seq<Round>, name: string, c: Contents)
    requires IsRun(toml, start, rounds) && SnapshotStamp(name).Some? && Holds(start, Data(name), c)
    requires |NewerOnes(OtherNames(start, None), name)| + Taken(rounds) <= 2
    ensures Holds(Left(start, rounds, |rounds|), Data(name), c)
    ensures |NewerOnes(OtherNames(Left(start, rounds, |rounds|), None), name)|
         <= |NewerOnes(OtherNames(start, None), name)| + Taken(rounds)
  {
    if rounds != [] {
      var n := |rounds| - 1;
      var r := rounds[n];
      RunPrefix(toml, start, rounds, n);
      assert Follows(toml, start, rounds, n);
      SnapshotSurvives(toml, start, rounds[..n], name, c);
      BetweenKeepsSnapshot(Left(start, rounds, n), r.from, name, c);
      ChosenAddsAtMostOne(r.from, r.to, r.chosen, name);
      StartKeepsSnapshot(r.from, r.to, r.now, r.chosen, name, c);
    }
  }

  /** Nothing is staged after the first `k` starts. */
  predicate NothingStagedFrom(start: Files, rounds: seq<Round>, k: nat) {
    forall i: nat | k <= i < |rounds| :: NothingStaged(start, rounds, i)
  }

  predicate NothingStaged(start: Files, rounds: seq<Round>, i: nat)
    requires i < |rounds|
  {
    PENDING in rounds[i].from ==> PENDING in Left(start, rounds, i)
  }

  lemma WithoutPending(toml: Toml, r: Round)
    requires RoundKeeps(toml, r) && PENDING !in r.from
    ensures r.outcome.NothingPending? && IsIdle(r.from, r.to, r.chosen) && PENDING !in r.to
  {
  }

  /** Once the pending file is gone, by being set aside or applied, every later start is idle
      until something is staged. */
  lemma {:induction false} IdleUntilStaged(toml: Toml, start: Files, rounds: seq<Round>, k: nat)
    requires IsRun(toml, start, rounds) && k <= |rounds|
    requires PENDING !in Left(start, rounds, k) && NothingStagedFrom(start, rounds, k)
    ensures forall i | k <= i < |rounds| ::
              rounds[i].outcome.NothingPending? && IsIdle(rounds[i].from, rounds[i].to, rounds[i].chosen)
    decreases |rounds| - k
  {
    if k < |rounds| {
      assert Follows(toml, start, rounds, k) && NothingStaged(start, rounds, k);
      WithoutPending(toml, rounds[k]);
      IdleUntilStaged(toml, start, rounds, k + 1);
    }
  }

  /** Between the starts nobody else changes what the config says. */
  predicate ConfigLeftAlone(start: Files, rounds: seq<Round>) {
    forall i: nat | i < |rounds| :: ConfigFollows(start, rounds, i)
  }

  predicate ConfigFollows(start: Files, rounds: seq<Round>, i: nat)
    requires i < |rounds|
  {
    At(rounds[i].from, CONFIG) == At(Left(start, rounds, i), CONFIG)
  }

  /** The start applied settings and did not put the config back. */
  predicate LeavesMerge(r: Round) {
    r.settled.Some? && !r.settled.value.PutBack?
  }

  /** It swapped the database in and left the merge, and although it does not load exactly if
      putting the config back did not work out. */
  ghost predicate Merged(toml: Toml, r: Round) {
    && NewInstalled(r.from, r.to) && HoldsMerge(toml, r.from, r.to)
    && r.settled == Some(if r.loads then Kept else Stuck)
  }

  lemma ConfigAfter(toml: Toml, r: Round)
    requires RoundKeeps(toml, r)
    ensures LeavesMerge(r) ==> Merged(toml, r)
    ensures !LeavesMerge(r) ==> At(r.to, CONFIG) == At(r.from, CONFIG)
  {
    match r.settled
    case None =>
    case Some(Kept) => assert r.loads && HoldsMerge(toml, r.from, r.to);
    case Some(Stuck) => assert !r.loads && HoldsMerge(toml, r.from, r.to);
    case Some(PutBack) => assert IsPutBack(r.from, r.to);
  }

  /** The last start that left a merge. */
  function LastMerge(rounds: seq<Round>): (k: Option<nat>)
    ensures k.Some? ==> k.value < |rounds| && LeavesMerge(rounds[k.value])
  {
    if rounds == [] then None
    else
      var n := |rounds| - 1;
      if LeavesMerge(rounds[n]) then Some(n) else LastMerge(rounds[..n])
  }

  predicate ConfigStep(start: Files, rounds: seq<Round>, i: nat)
    requires i < |rounds|
  {
    ConfigFollows(start, rounds, i)
    && (LeavesMerge(rounds[i]) || At(rounds[i].to, CONFIG) == At(rounds[i].from, CONFIG))
  }

  lemma IsConfigStep(toml: Toml, start: Files, rounds: seq<Round>, i: nat)
    requires i < |rounds| && Follows(toml, start, rounds, i) && ConfigFollows(start, rounds, i)
    ensures ConfigStep(start, rounds, i)
  {
    ConfigAfter(toml, rounds[i]);
  }

  lemma RunIsConfigSteps(toml: Toml, start: Files, rounds: seq<Round>)
    requires IsRun(toml, start, rounds) && ConfigLeftAlone(start, rounds)
    ensures forall i: nat | i < |rounds| :: ConfigStep(start, rounds, i)
  {
    forall i: nat | i < |rounds| ensures ConfigStep(start, rounds, i) {
      assert Follows(toml, start, rounds, i) && ConfigFollows(start, rounds, i);
      IsConfigStep(toml, start, rounds, i);
    }
  }

  lemma MergesOfRun(toml: Toml, start: Files, rounds: seq<Round>)
    requires IsRun(toml, start, rounds)
    ensures forall k: nat | k < |rounds| && LeavesMerge(rounds[k]) :: Merged(toml, rounds[k])
  {
    forall k: nat | k < |rounds| && LeavesMerge(rounds[k]) ensures Merged(toml, rounds[k]) {
      assert Follows(toml, start, rounds, k);
      ConfigAfter(toml, rounds[k]);
    }
  }

  lemma {:induction false} ConfigIsOfLastMerge(start: Files, rounds: seq<Round>)
    requires forall i: nat | i < |rounds| :: ConfigStep(start, rounds, i)
    ensures At(Left(start, rounds, |rounds|), CONFIG)
         == match LastMerge(rounds) case None => At(start, CONFIG) case Some(k) => At(rounds[k].to, CONFIG)
  {
    if rounds != [] {
      var n := |rounds| - 1;
      forall i: nat | i < n ensures ConfigStep(start, rounds[..n], i) {
        assert ConfigStep(start, rounds, i);
      }
      ConfigIsOfLastMerge(start, rounds[..n]);
      assert ConfigStep(start, rounds, n);
      assert Left(start, rounds[..n], n) == Left(start, rounds, n);
    }
  }

  /** Over any run the config says what it did at first, or is the merge left by the last start
      that left one.  Every merge that is left follows a finished swap, and does not load exactly
      if its start died before the config was put back, or putting it back was refused. */
  lemma ConfigOverRun(toml: Toml, start: Files, rounds: seq<Round>)
    requires IsRun(toml, start, rounds) && ConfigLeftAlone(start, rounds)
    ensures At(Left(start, rounds, |rounds|), CONFIG)
         == match LastMerge(rounds) case None => At(start, CONFIG) case Some(k) => At(rounds[k].to, CONFIG)
    ensures forall k: nat | k < |rounds| && LeavesMerge(rounds[k]) :: Merged(toml, rounds[k])
  {
    RunIsConfigSteps(toml, start, rounds);
    ConfigIsOfLastMerge(start, rounds);
    MergesOfRun(toml, start, rounds);
  }

  /** A run that leaves a config behind that does not load: the first start dies between applying
      and settling it, and the second has nothing pending.  By `SameTextMerges` there is one for
      every library that reads the empty text. */
  lemma StrandedConfig(toml: Toml, staged: string, merged: string) returns (start: Files, rounds: seq<Round>)
    requires MergedText(toml, "", staged) == Ok(merged)
    ensures IsRun(toml, start, rounds) && ConfigLeftAlone(start, rounds) && NothingStagedFrom(start, rounds, 1)
    ensures |rounds| == 2 && !rounds[0].loads && rounds[1].outcome.NothingPending?
    ensures At(start, CONFIG) == None && At(rounds[1].to, CONFIG) == Some(Text(merged))
  {
    start := Confirmed(staged);
    var end := Restored(merged);
    var dies := Round(start, end, 0, false, None, Applied(None, Settings(ConfigApplied(false))), Some(Stuck));
    var idle := Round(end, end, 0, false, None, NothingPending, None);
    DyingRoundKeeps(toml, staged, merged, dies);
    IdleRoundKeeps(toml, merged, idle);
    rounds := [dies] + [idle];
    OneMoreRound(toml, start, [], dies);
    OneMoreRound(toml, start, [dies], idle);
    assert [] + [dies] == [dies];
    forall i: nat | i < 2 ensures ConfigFollows(start, rounds, i) && (i >= 1 ==> NothingStaged(start, rounds, i)) {
      assert i == 0 || i == 1;
    }
  }

  /** A restore with settings confirmed where there was nothing before ... */
  function Confirmed(staged: string): Files {
    map[PENDING := File(Database([]), true), PENDING_CONFIG := File(Text(staged), true)]
  }

  /** ... and applied. */
  function Restored(merged: string): Files {
    map[MAIN := File(Database([]), true), CONFIG := File(Text(merged), true)]
  }

  lemma ConfirmedIsRestored(staged: string, merged: string)
    ensures StartKeeps(Confirmed(staged), Restored(merged), 0, None)
    ensures NewInstalled(Confirmed(staged), Restored(merged))
    ensures StartKeeps(Restored(merged), Restored(merged), 0, None)
  {
    NoSnapshots(Confirmed(staged), Restored(merged));
    NoSnapshots(Restored(merged), Restored(merged));
  }

  lemma NoSnapshots(a: Files, b: Files)
    requires forall n: string :: Data(n) !in a && Data(n) !in b
    ensures RecentSnapshotsSpared(a, b, None) && OnlyChosenIsNew(a, b, None)
  {
  }

  lemma DyingRoundKeeps(toml: Toml, staged: string, merged: string, r: Round)
    requires MergedText(toml, "", staged) == Ok(merged)
    requires r == Round(Confirmed(staged), Restored(merged), 0, false, None,
                        Applied(None, Settings(ConfigApplied(false))), Some(Stuck))
    ensures RoundKeeps(toml, r)
  {
    ConfirmedIsRestored(staged, merged);
    assert MergedConfig(toml, r.from) == Ok(merged);
    assert HoldsMerge(toml, r.from, r.to);
  }

  lemma IdleRoundKeeps(toml: Toml, merged: string, r: Round)
    requires r == Round(Restored(merged), Restored(merged), 0, false, None, NothingPending, None)
    ensures RoundKeeps(toml, r)
  {
    ConfirmedIsRestored("", merged);
  }

  /** Any number of starts, each a new process, and between them anything that can happen. */
  method Starts(disk: Disk, toml: Toml, starts: nat) returns (ghost rounds: seq<Round>)
    requires LiveInv(disk.files)
    modifies disk
    ensures LiveInv(disk.files) && |rounds| == starts
    ensures IsRun(toml, old(disk.files), rounds) && disk.files == Left(old(disk.files), rounds, starts)
  {
    rounds := [];
    for i := 0 to starts
      invariant LiveInv(disk.files) && |rounds| == i
      invariant IsRun(toml, old(disk.files), rounds) && disk.files == Left(old(disk.files), rounds, i)
    {
      ghost var before := disk.files;
      var after: Files := *;
      if Between(disk.files, after) { disk.files := after; }
      disk.Restart();
      var now: nat, configKnown: bool, loads: bool := *, *, *;
      var r, s;
      ghost var round;
      r, s, round := Start(disk, toml, configKnown, now, loads);
      OneMoreRound(toml, old(disk.files), rounds, round);
      rounds := rounds + [round];
    }
  }

  lemma OneMoreRound(toml: Toml, start: Files, rounds: seq<Round>, round: Round)
    requires IsRun(toml, start, rounds)
    requires Between(Left(start, rounds, |rounds|), round.from) && RoundKeeps(toml, round)
    ensures IsRun(toml, start, rounds + [round])
  {
    var all := rounds + [round];
    forall i: nat | i < |all| ensures Follows(toml, start, all, i) {
      if i < |rounds| { assert Follows(toml, start, rounds, i); }
    }
  }

  /** The contents of `a` can be read from the live database or from a snapshot of two attempts. */
  predicate RecoverableFromEither(a: Files, b: Files, first: Option<nat>, second: Option<nat>)
    requires MAIN in a
  {
    || Holds(b, MAIN, ContentsAt(a, MAIN))
    || (first.Some? && Holds(b, SnapshotPath(first.value), ContentsAt(a, MAIN)))
    || (second.Some? && Holds(b, SnapshotPath(second.value), ContentsAt(a, MAIN)))
  }

  lemma FirstSnapshotSurvives(a: Files, b: Files, p: Files, d: Files, now: nat, later: nat, first: nat,
                              second: Option<nat>, c: Contents)
    requires StartKeeps(a, b, now, Some(first)) && ClockIsAhead(a, now)
    requires LiveInv(b) && AfterPowerLoss(b, p) && StartKeeps(p, d, later, second)
    requires Holds(b, SnapshotPath(first), c)
    ensures Holds(d, SnapshotPath(first), c)
  {
    var name := SnapshotName(first);
    PowerLossIsBetween(b, p);
    StampOfSnapshotName(first);
    if first < U64_LIMIT {
      ChosenIsNewest(a, b, now, first);
      BetweenKeepsSnapshot(b, p, name, c);
    }
    assert Holds(p, Data(name), c);
    StartKeepsSnapshot(p, d, later, second, name, c);
  }

  /** A start that dies anywhere, a power loss, and the retry, which may die anywhere too: with
      the clock ahead of all stamps at first, what the live database held before is still in the
      live pair or in a snapshot of one of the two attempts. */
  method CrashAndRetry(disk: Disk, toml: Toml, configKnown: bool, now: nat, later: nat, loads: bool)
      returns (ghost first: Round, ghost second: Round)
    requires LiveInv(disk.files) && MAIN in disk.files && ClockIsAhead(disk.files, now)
    modifies disk
    ensures first.from == old(disk.files) && first.now == now && RoundKeeps(toml, first)
    ensures AfterPowerLoss(first.to, second.from)
    ensures second.to == disk.files && second.now == later && RoundKeeps(toml, second)
    ensures RecoverableFromEither(old(disk.files), disk.files, first.chosen, second.chosen)
  {
    ghost var a := disk.files;
    ghost var c := ContentsAt(a, MAIN);
    var r, s;
    r, s, first := Start(disk, toml, configKnown, now, loads);
    var lost: Files := *;
    if AfterPowerLoss(disk.files, lost) { disk.files := lost; }
    assert AfterPowerLoss(first.to, disk.files);
    PowerLossIsBetween(first.to, disk.files);
    disk.Restart();
    r, s, second := Start(disk, toml, configKnown, later, loads);
    if !Holds(first.to, MAIN, c) {
      FirstSnapshotSurvives(a, first.to, second.from, second.to, now, later, first.chosen.value, second.chosen, c);
    }
  }
}

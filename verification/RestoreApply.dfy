/** Swapping a restored database in before the service opens it.

  The live database is snapshotted and the pending one renamed into its place, with the old
  write-ahead log moved out of the way in between.  Every method here may fail at any operation
  and the process may die at any point (see `FileSystem`), so the postconditions that do not
  mention `running` or the result are promises about every crash point.
*/
module RestoreApply {
  import opened Wrappers
  import opened FileSystem
  import opened SnapshotNames

  const PENDING := Staged(Pending)
  const FAILED := Staged(PendingFailed)
  const APPLIED := Staged(PendingApplied)
  const MAIN := Live(Main)
  const WAL := Live(Wal)
  const SHM := Live(Shm)
  const DATABASE_FILES := {MAIN, WAL, SHM, Live(WalAside), Live(ShmAside), Live(CopyTmp)}

  // ---- What a database file and its write-ahead log mean ----

  /** The `-wal` file of a database or snapshot. */
  function WalOf(p: Path): Path {
    match p
    case Data(n) => Sibling(n, WalSuffix)
    case _ => WAL
  }

  /** The name a copy is made under before it takes the name `p`. */
  function PartialOf(p: Path): Path {
    match p
    case Data(n) => Sibling(n, PartialSuffix)
    case Sibling(n, _) => Sibling(n, WalPartialSuffix)
    case _ => p
  }

  /** What SQLite would read from a pair of files.  A log replays only onto the state it was
      written for; any other pair is what it is, byte for byte. */
  datatype Contents = Committed(commits: seq<nat>) | Raw(main: Content, wal: Option<Content>)

  function ReadBack(main: Content, wal: Option<Content>): Contents {
    match (main, wal)
    case (Database(c), None) => Committed(c)
    case (Database(c), Some(WalFor(b, m))) => if b == c then Committed(c + m) else Raw(main, wal)
    case _ => Raw(main, wal)
  }

  function At(files: Files, p: Path): Option<Content> {
    if p in files then Some(files[p].content) else None
  }

  function ContentsAt(files: Files, p: Path): Contents
    requires p in files
  {
    ReadBack(files[p].content, At(files, WalOf(p)))
  }

  /** `p` and the log beside it hold `c`, and a power loss does not change that. */
  predicate Holds(files: Files, p: Path, c: Contents) {
    && p in files && files[p].flushed
    && (WalOf(p) in files ==> files[WalOf(p)].flushed)
    && ContentsAt(files, p) == c
  }

  /** A log beside the live database was written for that very file, and SQLite's own files
      are durable. */
  predicate LiveInv(files: Files) {
    && (MAIN in files && WAL in files && files[MAIN].content.Database? ==>
          files[WAL].content.WalFor? && files[WAL].content.base == files[MAIN].content.commits)
    && (MAIN in files ==> files[MAIN].flushed)
    && (WAL in files ==> files[WAL].flushed)
  }

  /** `c` is the live database file of `files`, with some of its own log folded in. */
  predicate IsOldMain(files: Files, c: Content)
    requires MAIN in files
  {
    || c == files[MAIN].content
    || (c.Database? && files[MAIN].content.Database? && WAL in files && files[WAL].content.WalFor?
        && files[MAIN].content.commits <= c.commits <= files[MAIN].content.commits + files[WAL].content.more)
  }

  // ---- SQLite's checkpoint ----

  datatype Answer = Folded | Busy | BusyError | Damaged

  /** The checkpoint may fold any part of the log into the database file; what the two mean
      together stays the same, and `Folded` says the file alone is complete. */
  method CheckpointWal(disk: Disk) returns (answer: Answer)
    requires MAIN in disk.files && LiveInv(disk.files)
    modifies disk
    ensures disk.Continues()
    ensures SameExcept(old(disk.files), disk.files, {MAIN, WAL, SHM})
    ensures disk.inUse <==> old(disk.inUse) || (old(disk.running) && (answer.Busy? || answer.BusyError?))
    ensures MAIN in disk.files && LiveInv(disk.files)
    ensures ContentsAt(disk.files, MAIN) == ContentsAt(old(disk.files), MAIN)
    ensures IsOldMain(old(disk.files), disk.files[MAIN].content)
    ensures WAL in disk.files ==> WAL in old(disk.files)
    ensures answer.Folded? ==> ReadBack(disk.files[MAIN].content, None) == ContentsAt(old(disk.files), MAIN)
  {
    var busy: bool, error: bool := *, *;
    answer := if busy then Busy else if error then BusyError else Damaged;
    if disk.running && !error && disk.files[MAIN].content.Database? {
      var commits := disk.files[MAIN].content.commits;
      if WAL in disk.files {
        var more := disk.files[WAL].content.more;
        var n: int := *;
        n := if 0 <= n <= |more| then n else 0;
        var folded := commits + more[..n];
        assert folded + more[n..] == commits + more;
        disk.files := disk.files[MAIN := File(Database(folded), true)][WAL := File(WalFor(folded, more[n..]), true)];
        if n == |more| && !busy {
          assert more[..n] == more;
          disk.files := disk.files - {WAL, SHM};
          answer := Folded;
        }
      } else if !busy {
        answer := Folded;
      }
    }
    if disk.running && (answer.Busy? || answer.BusyError?) { disk.inUse := true; }
    disk.MayDie();
  }

  // ---- The snapshot ----

  datatype Snapshot = Snapshot(name: string, hasWalCopy: bool)

  datatype Reason = NothingStaged | NoSpace | InUse | NotCopied | NotFlushed | SidecarStuck | NotInstalled

  /** What must have happened, in a process that is still running, for a restore to fail for this
      reason. */
  ghost predicate Caused(disk: Disk, reason: Reason, chosen: Option<nat>)
    reads disk
  {
    match reason
    case NothingStaged => Using(PENDING) in disk.refused
    case NoSpace => Using(MAIN) in disk.refused
    case InUse => disk.inUse
    case NotCopied =>
      chosen.Some? &&
      (CopyRefused(disk, SnapshotPath(chosen.value)) || CopyRefused(disk, WalOf(SnapshotPath(chosen.value))))
    case NotFlushed => Flushing(PENDING) in disk.refused
    case SidecarStuck => MoveRefused(disk)
    case NotInstalled => Renaming(PENDING, MAIN) in disk.refused && InstallCopyRefused(disk)
  }

  function SnapshotPath(stamp: nat): Path {
    Data(SnapshotName(stamp))
  }

  /** The files a snapshot attempt may create, once it has chosen a stamp. */
  function SnapshotFiles(chosen: Option<nat>): set<Path> {
    match chosen
    case None => {}
    case Some(t) =>
      var p := SnapshotPath(t);
      {p, WalOf(p), PartialOf(p), PartialOf(WalOf(p))}
  }

  /** A snapshot or a log has the name with this stamp. */
  predicate IsTakenStamp(files: Files, stamp: nat) {
    SnapshotPath(stamp) in files || WalOf(SnapshotPath(stamp)) in files
  }

  /** The chosen name is the first new one from the clock on. */
  ghost predicate Fresh(files: Files, now: nat, chosen: Option<nat>) {
    chosen.Some? ==>
      && chosen.value >= now && !IsTakenStamp(files, chosen.value)
      && forall t: nat | now <= t < chosen.value :: IsTakenStamp(files, t)
  }

  lemma FreshFrame(a: Files, b: Files, now: nat, chosen: Option<nat>)
    requires SameExcept(a, b, {MAIN, WAL, SHM}) && Fresh(b, now, chosen)
    ensures Fresh(a, now, chosen)
  {
    if chosen.Some? {
      forall t: nat | now <= t < chosen.value ensures IsTakenStamp(a, t) {
        assert IsTakenStamp(b, t);
      }
    }
  }

  /** The first name from `now` on that is not taken, with or without a log. */
  method NextSnapshotPath(disk: Disk, now: nat) returns (stamp: nat)
    ensures Fresh(disk.files, now, Some(stamp))
  {
    stamp := now;
    ghost var rest := disk.files.Keys;
    while IsTakenStamp(disk.files, stamp)
      invariant stamp >= now && rest <= disk.files.Keys
      invariant forall t: nat | now <= t < stamp :: IsTakenStamp(disk.files, t)
      invariant forall t: nat | t >= stamp && SnapshotPath(t) in disk.files :: SnapshotPath(t) in rest
      invariant forall t: nat | t >= stamp && WalOf(SnapshotPath(t)) in disk.files :: WalOf(SnapshotPath(t)) in rest
      decreases rest
    {
      ghost var p := SnapshotPath(stamp);
      forall t: nat | t > stamp ensures SnapshotPath(t) !in {p, WalOf(p)} && WalOf(SnapshotPath(t)) !in {p, WalOf(p)} {
        if SnapshotName(t) == SnapshotName(stamp) { SnapshotNamesDiffer(t, stamp); }
      }
      rest := rest - {p, WalOf(p)};
      stamp := stamp + 1;
    }
  }

  /** The system refused a step of making a durable copy. */
  ghost predicate CopyRefused(disk: Disk, to: Path)
    reads disk
  {
    || Writing(PartialOf(to)) in disk.refused || Flushing(PartialOf(to)) in disk.refused
    || Renaming(PartialOf(to), to) in disk.refused
  }

  /** Copy through a `.partial` name and flush before the file takes its final name, so a file
      under a snapshot's name is always a complete and durable copy. */
  method CopyDurably(disk: Disk, from: Path, to: Path) returns (ok: bool)
    requires (to.Data? || (to.Sibling? && to.suffix == WalSuffix)) && from.Live?
    modifies disk
    ensures disk.GoesOn()
    ensures ok ==> from in old(disk.files)
    ensures ok ==> disk.files == (old(disk.files) - {PartialOf(to)})[to := File(old(disk.files)[from].content, true)]
    ensures !ok ==> SameExcept(old(disk.files), disk.files, {PartialOf(to)})
    ensures !ok && disk.running && from in old(disk.files) ==> CopyRefused(disk, to)
    ensures !ok ==> disk.GoneOrRefused(PartialOf(to))
  {
    var partial := PartialOf(to);
    ok := disk.Copy(from, partial);
    if ok { ok := disk.Flush(partial); }
    if ok { ok := disk.Rename(partial, to); }
    if !ok { var _ := disk.Remove(partial); }
  }

  /** Copy the database file, and the log if asked to, under a snapshot's name; a half-made
      snapshot is removed. */
  method CopyLive(disk: Disk, stamp: nat, withWal: bool) returns (copied: bool)
    requires MAIN in disk.files
    modifies disk
    ensures disk.GoesOn()
    ensures SameExcept(old(disk.files), disk.files, SnapshotFiles(Some(stamp)))
    ensures copied ==> At(disk.files, SnapshotPath(stamp)) == At(old(disk.files), MAIN)
    ensures copied ==> disk.files[SnapshotPath(stamp)].flushed
    ensures copied && withWal ==> At(disk.files, WalOf(SnapshotPath(stamp))) == At(old(disk.files), WAL)
    ensures copied && withWal ==> WAL in old(disk.files) && disk.files[WalOf(SnapshotPath(stamp))].flushed
    ensures copied && !withWal ==> Unchanged(old(disk.files), disk.files, WalOf(SnapshotPath(stamp)))
    ensures !copied && disk.running && (withWal ==> WAL in old(disk.files)) ==>
              CopyRefused(disk, SnapshotPath(stamp)) || CopyRefused(disk, WalOf(SnapshotPath(stamp)))
    ensures !copied ==> disk.GoneOrRefused(SnapshotPath(stamp)) && disk.GoneOrRefused(WalOf(SnapshotPath(stamp)))
  {
    var safety := SnapshotPath(stamp);
    copied := CopyDurably(disk, MAIN, safety);
    if copied && withWal { copied := CopyDurably(disk, WAL, WalOf(safety)); }
    if !copied {
      var _ := disk.Remove(safety);
      var _ := disk.Remove(WalOf(safety));
    }
  }

  /** Copy the live database, and its log if it could not be folded in, to a new snapshot. */
  method SnapshotLive(disk: Disk, now: nat) returns (r: Result<Snapshot, Reason>, ghost chosen: Option<nat>)
    requires MAIN in disk.files && LiveInv(disk.files)
    modifies disk
    ensures disk.Continues()
    ensures SameExcept(old(disk.files), disk.files, {MAIN, WAL, SHM} + SnapshotFiles(chosen))
    ensures Fresh(old(disk.files), now, chosen)
    ensures MAIN in disk.files && LiveInv(disk.files)
    ensures ContentsAt(disk.files, MAIN) == ContentsAt(old(disk.files), MAIN)
    ensures IsOldMain(old(disk.files), disk.files[MAIN].content)
    ensures WAL in disk.files ==> WAL in old(disk.files)
    ensures r.Ok? ==> chosen.Some? && r.value.name == SnapshotName(chosen.value)
    ensures r.Ok? ==> Holds(disk.files, SnapshotPath(chosen.value), ContentsAt(old(disk.files), MAIN))
    ensures r.Ok? ==> (r.value.hasWalCopy <==> WalOf(SnapshotPath(chosen.value)) in disk.files)
    ensures r.Err? && disk.running ==> Caused(disk, r.error, chosen)
    ensures disk.inUse && !old(disk.inUse) ==> r == Err(InUse)
    ensures r.Err? && chosen.Some? ==>
      disk.GoneOrRefused(SnapshotPath(chosen.value)) && disk.GoneOrRefused(WalOf(SnapshotPath(chosen.value)))
  {
    chosen := None;
    var space := disk.Use(MAIN);
    if !space { return Err(NoSpace), None; }
    var answer := CheckpointWal(disk);
    if answer.Busy? || answer.BusyError? { return Err(InUse), None; }
    var walCopyNeeded := answer.Damaged? && WAL in disk.files;
    var stamp := NextSnapshotPath(disk, now);
    chosen := Some(stamp);
    FreshFrame(old(disk.files), disk.files, now, chosen);
    var copied := CopyLive(disk, stamp, walCopyNeeded);
    r := if copied then Ok(Snapshot(SnapshotName(stamp), walCopyNeeded)) else Err(NotCopied);
  }

  /** A snapshot, if there is a live database. */
  method SnapshotIfAny(disk: Disk, now: nat)
      returns (r: Result<Option<Snapshot>, Reason>, ghost chosen: Option<nat>)
    requires LiveInv(disk.files)
    modifies disk
    ensures disk.Continues()
    ensures SameExcept(old(disk.files), disk.files, {MAIN, WAL, SHM} + SnapshotFiles(chosen))
    ensures Fresh(old(disk.files), now, chosen) && LiveInv(disk.files)
    ensures MAIN in old(disk.files) <==> MAIN in disk.files
    ensures MAIN !in old(disk.files) ==> disk.files == old(disk.files) && r == Ok(None) && chosen == None
    ensures MAIN in old(disk.files) ==> ContentsAt(disk.files, MAIN) == ContentsAt(old(disk.files), MAIN)
    ensures MAIN in old(disk.files) ==> IsOldMain(old(disk.files), disk.files[MAIN].content)
    ensures WAL in disk.files ==> WAL in old(disk.files)
    ensures r.Ok? ==> (r.value.Some? <==> MAIN in old(disk.files))
    ensures r.Ok? && r.value.Some? ==> chosen.Some? && r.value.value.name == SnapshotName(chosen.value)
    ensures r.Ok? && r.value.Some? ==> Holds(disk.files, SnapshotPath(chosen.value), ContentsAt(old(disk.files), MAIN))
    ensures r.Err? && disk.running ==> Caused(disk, r.error, chosen)
    ensures disk.inUse && !old(disk.inUse) ==> r == Err(InUse)
  {
    if MAIN !in disk.files { return Ok(None), None; }
    var taken;
    taken, chosen := SnapshotLive(disk, now);
    r := if taken.Ok? then Ok(Some(taken.value)) else Err(taken.error);
  }

  // ---- Sidecars ----

  datatype Moved = Moved(original: Path, aside: Path)

  const MOVE_WAL := Moved(WAL, Live(WalAside))
  const MOVE_SHM := Moved(SHM, Live(ShmAside))
  const SIDECARS := [MOVE_WAL, MOVE_SHM]
  const SIDECAR_FILES := {WAL, SHM, Live(WalAside), Live(ShmAside)}

  predicate Unchanged(a: Files, b: Files, p: Path) {
    (p in a <==> p in b) && (p in a ==> a[p] == b[p])
  }

  /** The file is as it was, or missing. */
  predicate KeptOrGone(a: Files, b: Files, p: Path) {
    p in b ==> p in a && b[p] == a[p]
  }

  /** What a pair of files holds depends on the pair alone. */
  lemma HoldsFrame(a: Files, b: Files, p: Path, c: Contents)
    requires Unchanged(a, b, p) && Unchanged(a, b, WalOf(p)) && Holds(a, p, c)
    ensures Holds(b, p, c)
  {
  }

  /** The sidecar was there and now lies under its aside name, with what it held. */
  predicate IsAside(a: Files, b: Files, m: Moved) {
    m.original in a && m.original !in b && m.aside in b && b[m.aside] == a[m.original]
  }

  /** The sidecar is as before, unless the process died or the system refused to rename it back;
      then it is still under its aside name. */
  ghost predicate BackOrRefused(a: Files, disk: Disk, m: Moved)
    reads disk
  {
    || Unchanged(a, disk.files, m.original)
    || (IsAside(a, disk.files, m) && (disk.running ==> Renaming(m.aside, m.original) in disk.refused))
  }

  /** Put moved sidecars back.  A failure is only logged.  `before` are the files before any was
      moved. */
  method RestoreSidecars(disk: Disk, moved: seq<Moved>, ghost before: Files)
    requires forall m | m in moved :: m in SIDECARS && IsAside(before, disk.files, m)
    requires forall i, j | 0 <= i < j < |moved| :: moved[i] != moved[j]
    modifies disk
    ensures disk.GoesOn()
    ensures SameExcept(old(disk.files), disk.files, SIDECAR_FILES)
    ensures forall m | m in moved :: BackOrRefused(before, disk, m)
    ensures forall m | m in SIDECARS && m !in moved :: Unchanged(old(disk.files), disk.files, m.original)
  {
    for i := 0 to |moved|
      invariant disk.GoesOn()
      invariant SameExcept(old(disk.files), disk.files, SIDECAR_FILES)
      invariant forall j | 0 <= j < i :: BackOrRefused(before, disk, moved[j])
      invariant forall j | i <= j < |moved| :: IsAside(before, disk.files, moved[j])
      invariant forall m | m in SIDECARS && m !in moved :: Unchanged(old(disk.files), disk.files, m.original)
    {
      assert moved[i] in SIDECARS && forall j | 0 <= j < |moved| :: moved[j] in SIDECARS;
      var _ := disk.Rename(moved[i].aside, moved[i].original);
    }
  }

  /** The system refused to rename a sidecar out of the way. */
  ghost predicate MoveRefused(disk: Disk)
    reads disk
  {
    Renaming(WAL, Live(WalAside)) in disk.refused || Renaming(SHM, Live(ShmAside)) in disk.refused
  }

  /** Rename one sidecar out of the way or, failing that, the moved ones back. */
  method MoveOne(disk: Disk, m: Moved, moved: seq<Moved>, ghost before: Files) returns (ok: bool)
    requires m in SIDECARS && m !in moved && m.original in disk.files && CanPutBack(moved, before, disk.files)
    modifies disk
    ensures disk.GoesOn()
    ensures SameExcept(old(disk.files), disk.files, SIDECAR_FILES)
    ensures ok ==> disk.files == (old(disk.files) - {m.original})[m.aside := old(disk.files)[m.original]]
    ensures ok ==> CanPutBack(moved + [m], before, disk.files)
    ensures !ok ==> forall n | n in SIDECARS :: BackOrRefused(before, disk, n)
    ensures !ok && disk.running ==> MoveRefused(disk)
  {
    ok := disk.Rename(m.original, m.aside);
    if !ok { RestoreSidecars(disk, moved, before); }
  }

  /** Rename the sidecars out of the way.  If one cannot be, those already moved are put back
      and the restore is refused. */
  method MoveSidecarsAside(disk: Disk) returns (r: Result<seq<Moved>, Reason>)
    modifies disk
    ensures disk.GoesOn()
    ensures SameExcept(old(disk.files), disk.files, SIDECAR_FILES)
    ensures r.Ok? ==> WAL !in disk.files && SHM !in disk.files
    ensures r.Ok? ==> CanPutBack(r.value, old(disk.files), disk.files)
    ensures r.Err? ==> forall m | m in SIDECARS :: BackOrRefused(old(disk.files), disk, m)
    ensures r.Err? ==> r.error.SidecarStuck? && (disk.running ==> MoveRefused(disk))
  {
    var moved: seq<Moved> := [];
    for i := 0 to 2
      invariant disk.GoesOn()
      invariant SameExcept(old(disk.files), disk.files, SIDECAR_FILES)
      invariant moved == (if i >= 1 && WAL in old(disk.files) then [MOVE_WAL] else [])
                       + (if i >= 2 && SHM in old(disk.files) then [MOVE_SHM] else [])
      invariant if i >= 1 then WAL !in disk.files else Unchanged(old(disk.files), disk.files, WAL)
      invariant if i >= 2 then SHM !in disk.files else Unchanged(old(disk.files), disk.files, SHM)
      invariant CanPutBack(moved, old(disk.files), disk.files)
    {
      var m := if i == 0 then MOVE_WAL else MOVE_SHM;
      assert m == SIDECARS[i];
      if m.original in disk.files {
        var ok := MoveOne(disk, m, moved, old(disk.files));
        if !ok { return Err(SidecarStuck); }
        moved := moved + [m];
      }
    }
    r := Ok(moved);
  }

  /** Every moved sidecar lies under its aside name, and none is left out. */
  ghost predicate CanPutBack(moved: seq<Moved>, before: Files, files: Files) {
    && (forall m | m in moved :: m in SIDECARS && IsAside(before, files, m))
    && (forall i, j | 0 <= i < j < |moved| :: moved[i] != moved[j])
    && (forall m | m in SIDECARS && m !in moved :: Unchanged(before, files, m.original))
  }

  // ---- The swap ----

  method SetAside(disk: Disk, to: Path) returns (ok: bool)
    requires to == FAILED || to == APPLIED
    modifies disk
    ensures disk.GoesOn()
    ensures ok ==> PENDING in old(disk.files)
    ensures ok ==> disk.files == (old(disk.files) - {PENDING})[to := old(disk.files)[PENDING]]
    ensures !ok ==> disk.files == old(disk.files)
    ensures !ok && old(disk.running) && PENDING in old(disk.files) ==> Renaming(PENDING, to) in disk.refused
  {
    ok := disk.Rename(PENDING, to);
  }

  /** The pending file is gone, unless the process died or the system refused both to remove it
      and to rename it; then the next start applies it again. */
  ghost predicate RetiredOrRefused(disk: Disk)
    reads disk
  {
    PENDING in disk.files && disk.running ==>
      Removing(PENDING) in disk.refused && Renaming(PENDING, APPLIED) in disk.refused
  }

  /** The system refused a step of installing by copy. */
  ghost predicate InstallCopyRefused(disk: Disk)
    reads disk
  {
    var tmp := Live(CopyTmp);
    || Using(tmp) in disk.refused || Writing(tmp) in disk.refused || Flushing(tmp) in disk.refused
    || Renaming(tmp, MAIN) in disk.refused
  }

  /** The rename fails across filesystems; then a flushed copy beside the database is renamed, and
      the pending file removed or, failing that, retired under another name. */
  method InstallByCopy(disk: Disk) returns (ok: bool)
    requires PENDING in disk.files
    modifies disk
    ensures disk.GoesOn()
    ensures SameExcept(old(disk.files), disk.files, {MAIN, Live(CopyTmp), PENDING, APPLIED})
    ensures KeptOrGone(old(disk.files), disk.files, PENDING)
    ensures if ok then MAIN in disk.files && disk.files[MAIN] == File(old(disk.files)[PENDING].content, true)
            else SameExcept(old(disk.files), disk.files, {Live(CopyTmp)})
    ensures ok ==> RetiredOrRefused(disk)
    ensures !ok && disk.running ==> InstallCopyRefused(disk)
    ensures !ok && Live(CopyTmp) !in old(disk.files) ==> disk.GoneOrRefused(Live(CopyTmp))
  {
    var tmp := Live(CopyTmp);
    var space := disk.Use(tmp);
    if !space { return false; }
    ok := disk.Copy(PENDING, tmp);
    if ok { ok := disk.Flush(tmp); }
    if ok { ok := disk.Rename(tmp, MAIN); }
    if !ok {
      var _ := disk.Remove(tmp);
      return;
    }
    var removed := disk.Remove(PENDING);
    if !removed { var _ := SetAside(disk, APPLIED); }
  }

  method Install(disk: Disk) returns (ok: bool)
    requires PENDING in disk.files && disk.files[PENDING].flushed
    modifies disk
    ensures disk.GoesOn()
    ensures SameExcept(old(disk.files), disk.files, {MAIN, Live(CopyTmp), PENDING, APPLIED})
    ensures KeptOrGone(old(disk.files), disk.files, PENDING)
    ensures if ok then MAIN in disk.files && disk.files[MAIN] == File(old(disk.files)[PENDING].content, true)
            else SameExcept(old(disk.files), disk.files, {Live(CopyTmp)})
    ensures ok ==> RetiredOrRefused(disk)
    ensures ok && disk.running && Renaming(PENDING, MAIN) !in disk.refused ==>
              disk.files == (old(disk.files) - {PENDING})[MAIN := old(disk.files)[PENDING]]
    ensures !ok && disk.running ==> Caused(disk, NotInstalled, None)
    ensures !ok && Live(CopyTmp) !in old(disk.files) ==> disk.GoneOrRefused(Live(CopyTmp))
  {
    ok := disk.Rename(PENDING, MAIN);
    if !ok { ok := InstallByCopy(disk); }
  }

  /** The old database file lies by itself, but its log is next to it under its aside name, and
      together they mean what they meant. */
  predicate LogAside(a: Files, b: Files)
    requires MAIN in a && MAIN in b
  {
    && WAL in a && WAL !in b && Live(WalAside) in b
    && ReadBack(b[MAIN].content, Some(b[Live(WalAside)].content)) == ContentsAt(a, MAIN)
  }

  /** The old database is in place, and the live pair means what it meant, or would if the log
      that was moved aside were renamed back. */
  predicate OldStays(a: Files, b: Files) {
    && (MAIN in a <==> MAIN in b)
    && (MAIN in a ==> IsOldMain(a, b[MAIN].content))
    && (MAIN in a ==> ContentsAt(b, MAIN) == ContentsAt(a, MAIN) || LogAside(a, b))
  }

  /** The commits of a database and the log beside it. */
  function Commits(files: Files): seq<nat>
    requires LiveInv(files) && MAIN in files && files[MAIN].content.Database?
  {
    files[MAIN].content.commits + if WAL in files then files[WAL].content.more else []
  }

  /** While the old database file is in place, the live pair means what it meant exactly if its
      log is still there or every commit had been folded into the file. */
  lemma OldPairMeansTheSame(a: Files, b: Files)
    requires LiveInv(a) && MAIN in a && a[MAIN].content.Database? && OldStays(a, b)
    ensures b[MAIN].content.Database?
    ensures ContentsAt(b, MAIN) == ContentsAt(a, MAIN) <==> WAL in b || |b[MAIN].content.commits| == |Commits(a)|
  {
    assert ContentsAt(a, MAIN) == Committed(Commits(a)) by {
      assert a[MAIN].content.commits + [] == a[MAIN].content.commits;
    }
    assert b[MAIN].content.commits <= Commits(a);
  }

  /** A state with a log moved aside that still held a commit: the old file is complete, but read
      by itself it lacks that commit. */
  lemma LogAsideLosesCommits() returns (a: Files, b: Files)
    ensures LiveInv(a) && LiveInv(b) && OldStays(a, b) && MAIN in a && WAL in a
    ensures b == (a - {WAL})[Live(WalAside) := a[WAL]]
    ensures ContentsAt(a, MAIN) == Committed([1, 2]) && ContentsAt(b, MAIN) == Committed([1])
  {
    a := map[MAIN := File(Database([1]), true), WAL := File(WalFor([1], [2]), true)];
    b := (a - {WAL})[Live(WalAside) := a[WAL]];
    assert [1] + [2] == [1, 2];
  }

  /** The pending database is in place, complete, durable and with no sidecar of the old one. */
  predicate NewInstalled(a: Files, b: Files) {
    && PENDING in a && MAIN in b
    && b[MAIN] == File(a[PENDING].content, true)
    && WAL !in b && SHM !in b
  }

  /** The old contents can be read from the live database or from this attempt's snapshot. */
  predicate Recoverable(a: Files, b: Files, chosen: Option<nat>) {
    MAIN in a ==>
      || Holds(b, MAIN, ContentsAt(a, MAIN))
      || (chosen.Some? && Holds(b, SnapshotPath(chosen.value), ContentsAt(a, MAIN)))
  }

  predicate LiveAsBefore(a: Files, b: Files) {
    && (MAIN in a <==> MAIN in b)
    && (if MAIN in a then ContentsAt(b, MAIN) == ContentsAt(a, MAIN) else Unchanged(a, b, WAL) && Unchanged(a, b, SHM))
  }

  predicate SamePending(a: Files, b: Files) {
    PENDING in b ==> PENDING in a && b[PENDING].content == a[PENDING].content
  }

  method InstallOrUndo(disk: Disk, moved: seq<Moved>, ghost before: Files) returns (ok: bool)
    requires PENDING in disk.files && disk.files[PENDING].flushed && CanPutBack(moved, before, disk.files)
    modifies disk
    ensures disk.GoesOn()
    ensures SameExcept(old(disk.files), disk.files, DATABASE_FILES + {PENDING, APPLIED})
    ensures KeptOrGone(old(disk.files), disk.files, PENDING)
    ensures ok ==> MAIN in disk.files && disk.files[MAIN] == File(old(disk.files)[PENDING].content, true)
    ensures ok ==> Unchanged(old(disk.files), disk.files, WAL) && Unchanged(old(disk.files), disk.files, SHM)
    ensures ok ==> RetiredOrRefused(disk)
    ensures !ok ==> Unchanged(old(disk.files), disk.files, MAIN) && PENDING in disk.files
    ensures !ok ==> forall m | m in SIDECARS :: BackOrRefused(before, disk, m)
    ensures !ok && disk.running ==> Caused(disk, NotInstalled, None)
  {
    ok := Install(disk);
    if !ok { RestoreSidecars(disk, moved, before); }
  }

  method DropAside(disk: Disk, moved: seq<Moved>)
    requires forall m | m in moved :: m in SIDECARS
    modifies disk
    ensures disk.GoesOn()
    ensures SameExcept(old(disk.files), disk.files, {Live(WalAside), Live(ShmAside)})
    ensures forall m | m in moved :: disk.GoneOrRefused(m.aside)
  {
    for i := 0 to |moved|
      invariant disk.GoesOn()
      invariant SameExcept(old(disk.files), disk.files, {Live(WalAside), Live(ShmAside)})
      invariant forall j | 0 <= j < i :: disk.GoneOrRefused(moved[j].aside)
    {
      assert moved[i] in SIDECARS;
      var _ := disk.Remove(moved[i].aside);
    }
  }

  /** Flush, move the sidecars away, swap, drop the sidecars; undo the moves if the swap fails. */
  method Swap(disk: Disk) returns (r: Result<(), Reason>)
    requires LiveInv(disk.files) && PENDING in disk.files
    modifies disk
    ensures disk.GoesOn()
    ensures SameExcept(old(disk.files), disk.files, DATABASE_FILES + {PENDING, APPLIED})
    ensures SamePending(old(disk.files), disk.files)
    ensures r.Ok? ==> NewInstalled(old(disk.files), disk.files) && RetiredOrRefused(disk)
    ensures r.Ok? ==> forall m | m in SIDECARS && m.original in old(disk.files) :: disk.GoneOrRefused(m.aside)
    ensures r.Err? ==> Unchanged(old(disk.files), disk.files, MAIN) && PENDING in disk.files
    ensures r.Err? ==> forall m | m in SIDECARS :: BackOrRefused(old(disk.files), disk, m)
    ensures r.Err? && disk.running ==> Caused(disk, r.error, None)
  {
    var flushed := disk.Flush(PENDING);
    if !flushed { return Err(NotFlushed); }
    ghost var before := disk.files;
    var moved := MoveSidecarsAside(disk);
    if moved.Err? { return Err(moved.error); }
    var installed := InstallOrUndo(disk, moved.value, before);
    if !installed { return Err(NotInstalled); }
    DropAside(disk, moved.value);
    r := Ok(());
  }

  /** The old contents survive both halves of a restore: the checkpoint keeps what the pair means,
      the snapshot holds it, and the swap leaves either the pair or the snapshot. */
  lemma SnapshotThenSwap(a: Files, m: Files, b: Files)
    requires MAIN in a && MAIN in m && LiveInv(m) && (WAL in m ==> WAL in a)
    requires IsOldMain(a, m[MAIN].content) && ContentsAt(m, MAIN) == ContentsAt(a, MAIN)
    requires Unchanged(m, b, MAIN) && (Unchanged(m, b, WAL) || IsAside(m, b, MOVE_WAL))
    ensures LiveInv(b) && OldStays(a, b)
    ensures Unchanged(m, b, WAL) ==> LiveAsBefore(a, b)
  {
  }

  lemma SwapKeepsSnapshot(a: Files, b: Files, stamp: nat, c: Contents)
    requires SameExcept(a, b, DATABASE_FILES + {PENDING, APPLIED}) && Holds(a, SnapshotPath(stamp), c)
    ensures Holds(b, SnapshotPath(stamp), c)
  {
    HoldsFrame(a, b, SnapshotPath(stamp), c);
  }

  /** What a restore that was refused leaves unless the process died: the live contents, except
      for a sidecar that the system refused to rename back. */
  ghost predicate LeftAlone(a: Files, disk: Disk)
    reads disk
  {
    disk.running && (forall m | m in SIDECARS :: Renaming(m.aside, m.original) !in disk.refused) ==>
      LiveAsBefore(a, disk.files)
  }

  /** A snapshot of the live database, if there is one, and then the swap. */
  method Apply(disk: Disk, now: nat) returns (r: Result<Option<Snapshot>, Reason>, ghost chosen: Option<nat>)
    requires LiveInv(disk.files)
    modifies disk
    ensures disk.Continues()
    ensures SameExcept(old(disk.files), disk.files, DATABASE_FILES + {PENDING, APPLIED} + SnapshotFiles(chosen))
    ensures Fresh(old(disk.files), now, chosen) && (chosen.Some? ==> MAIN in old(disk.files))
    ensures LiveInv(disk.files)
    ensures if r.Ok? then NewInstalled(old(disk.files), disk.files) else OldStays(old(disk.files), disk.files)
    ensures Recoverable(old(disk.files), disk.files, chosen)
    ensures SamePending(old(disk.files), disk.files)
    ensures r.Ok? ==> RetiredOrRefused(disk) && (r.value.Some? <==> MAIN in old(disk.files))
    ensures r.Ok? && r.value.Some? ==> chosen.Some? && r.value.value.name == SnapshotName(chosen.value)
    ensures r.Ok? && r.value.Some? ==> Holds(disk.files, SnapshotPath(chosen.value), ContentsAt(old(disk.files), MAIN))
    ensures r.Err? ==> LeftAlone(old(disk.files), disk)
    ensures r.Err? ==> (PENDING in old(disk.files) <==> PENDING in disk.files)
    ensures r.Err? && disk.running && PENDING in old(disk.files) ==> Caused(disk, r.error, chosen)
    ensures disk.inUse && !old(disk.inUse) ==> r == Err(InUse)
  {
    chosen := None;
    var readable := disk.Use(PENDING);
    if !readable || PENDING !in disk.files { return Err(NothingStaged), None; }
    var snapshot;
    snapshot, chosen := SnapshotIfAny(disk, now);
    if snapshot.Err? { return Err(snapshot.error), chosen; }
    ghost var between := disk.files;
    var swapped := Swap(disk);
    if swapped.Err? {
      assert MOVE_WAL in SIDECARS && MOVE_SHM in SIDECARS;
      if MAIN in old(disk.files) { SnapshotThenSwap(old(disk.files), between, disk.files); }
    }
    if snapshot.value.Some? {
      SwapKeepsSnapshot(between, disk.files, chosen.value, ContentsAt(old(disk.files), MAIN));
    }
    r := if swapped.Ok? then snapshot else Err(swapped.error);
  }

  /** None of the restore's fixed names is a snapshot's, so listing never mistakes one. */
  lemma StagedNamesAreNoSnapshots(part: StagedPart)
    ensures SnapshotStamp(StagedName(part)).None?
  {
    SnapshotsEndInB(StagedName(part), 0);
    assert StagedName(part)[1] == 'e';
  }
}

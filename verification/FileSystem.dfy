/** The files a restore works on, and the process working on them, which can die at any point.

  Renaming, removing and flushing a file are atomic; copying and writing are not, and can leave
  anything behind.  Any operation can fail.  The process can die during or after every operation:
  from then on `running` is false and no operation has any effect, so whatever is proved about
  the files at the end of a method holds at every point where the process can die in it.
*/
module FileSystem {

  /** Files with a fixed or configured name go by their role: what is staged in the data
      directory, the database's own directory and the config's directory.  Every other entry of
      the data directory goes by its name, or as the sibling of another with a suffix. */
  datatype Path =
    | Data(name: string)
    | Sibling(name: string, suffix: Suffix)
    | Staged(staged: StagedPart)
    | Live(part: DatabasePart)
    | Cfg(role: ConfigPart)

  datatype StagedPart = Pending | PendingFailed | PendingApplied | PendingConfig

  function StagedName(part: StagedPart): string {
    match part
    case Pending => "pending_restore.db"
    case PendingFailed => "pending_restore.failed.db"
    case PendingApplied => "pending_restore.applied.db"
    case PendingConfig => "pending_restore.config.toml"
  }

  /** `-wal`, `.partial` and `-wal.partial`. */
  datatype Suffix = WalSuffix | PartialSuffix | WalPartialSuffix

  datatype DatabasePart = Main | Wal | Shm | WalAside | ShmAside | CopyTmp

  datatype ConfigPart = Config | ConfigTmp | PreRestore | PreRestoreTmp

  /** A database file holds the commits folded into it.  A write-ahead log was written for a
      database file in one state, and holds the commits made since.  `Bytes` is any other file,
      a damaged or torn one included. */
  datatype Content =
    | Database(commits: seq<nat>)
    | WalFor(base: seq<nat>, more: seq<nat>)
    | Text(text: string)
    | Bytes(id: int)

  /** `flushed` if the content survives a power loss. */
  datatype File = File(content: Content, flushed: bool)

  type Files = map<Path, File>

  ghost predicate SameExcept(a: Files, b: Files, paths: set<Path>) {
    forall p | p !in paths :: (p in a <==> p in b) && (p in a ==> a[p] == b[p])
  }

  /** What a power loss can do: files that were not flushed may hold anything afterwards. */
  predicate AfterPowerLoss(a: Files, b: Files) {
    a.Keys == b.Keys && forall p | p in a && a[p].flushed :: b[p] == a[p]
  }

  /** An operation a process asks the system for. */
  datatype Request =
    | Renaming(from: Path, to: Path)
    | Removing(path: Path)
    | Flushing(path: Path)
    | Writing(path: Path)
    | Using(path: Path)

  class Disk {
    var files: Files
    var running: bool

    /** What the system has refused this process although there was a file to do it with. */
    ghost var refused: set<Request>

    /** A checkpoint of this process found the database in use by another one. */
    ghost var inUse: bool

    constructor(files: Files)
      ensures this.files == files && running && refused == {} && !inUse
    {
      this.files := files;
      this.running := true;
      this.refused, this.inUse := {}, false;
    }

    /** A dead process stays dead, and what was refused stays refused. */
    twostate predicate Continues()
      reads this
    {
      (running ==> old(running)) && old(refused) <= refused
    }

    /** The same for every operation but a checkpoint. */
    twostate predicate GoesOn()
      reads this
    {
      Continues() && inUse == old(inUse)
    }

    /** A file that was to be removed is gone, unless the process died or the system refused. */
    ghost predicate GoneOrRefused(path: Path)
      reads this
    {
      running && path in files ==> Removing(path) in refused
    }

    /** A new process, to which nothing has been refused yet. */
    method Restart()
      modifies this`running, this`refused, this`inUse
      ensures running && refused == {} && !inUse
    {
      running := true;
      refused, inUse := {}, false;
    }

    method MayDie()
      modifies this`running
      ensures running ==> old(running)
    {
      var survives: bool := *;
      running := running && survives;
    }

    method Rename(from: Path, to: Path) returns (ok: bool)
      modifies this
      ensures GoesOn()
      ensures ok ==> old(running) && from in old(files)
      ensures files == if ok then (old(files) - {from})[to := old(files)[from]] else old(files)
      ensures !ok && old(running) && from in old(files) ==> Renaming(from, to) in refused
    {
      ok := *;
      ok := ok && running && from in files;
      if ok {
        files := (files - {from})[to := files[from]];
      } else if running && from in files {
        refused := refused + {Renaming(from, to)};
      }
      MayDie();
    }

    method Remove(path: Path) returns (ok: bool)
      modifies this
      ensures GoesOn()
      ensures ok ==> old(running) && path in old(files)
      ensures files == if ok then old(files) - {path} else old(files)
      ensures !ok && old(running) && path in old(files) ==> Removing(path) in refused
    {
      ok := *;
      ok := ok && running && path in files;
      if ok {
        files := files - {path};
      } else if running && path in files {
        refused := refused + {Removing(path)};
      }
      MayDie();
    }

    method Flush(path: Path) returns (ok: bool)
      modifies this
      ensures GoesOn()
      ensures ok ==> old(running) && path in old(files)
      ensures files == if ok then old(files)[path := File(old(files)[path].content, true)] else old(files)
      ensures !ok && old(running) && path in old(files) ==> Flushing(path) in refused
    {
      ok := *;
      ok := ok && running && path in files;
      if ok {
        files := files[path := File(files[path].content, true)];
      } else if running && path in files {
        refused := refused + {Flushing(path)};
      }
      MayDie();
    }

    /** Create or overwrite a file.  If this fails or the process dies in it, the file may be
        missing, untouched or hold anything. */
    method Write(path: Path, content: Content) returns (ok: bool)
      modifies this
      ensures GoesOn()
      ensures ok ==> old(running) && files == old(files)[path := File(content, false)]
      ensures SameExcept(old(files), files, {path})
      ensures !old(running) ==> files == old(files)
      ensures !ok && old(running) ==> Writing(path) in refused
    {
      ok := *;
      ok := ok && running;
      if ok {
        files := files[path := File(content, false)];
      } else if running {
        var touched: bool, torn: Content := *, *;
        if touched { files := files[path := File(torn, false)]; }
        refused := refused + {Writing(path)};
      }
      MayDie();
    }

    method Copy(from: Path, to: Path) returns (ok: bool)
      modifies this
      ensures GoesOn()
      ensures ok ==> old(running) && from in old(files)
      ensures ok ==> files == old(files)[to := File(old(files)[from].content, false)]
      ensures SameExcept(old(files), files, {to})
      ensures !old(running) ==> files == old(files)
      ensures !ok && old(running) && from in old(files) ==> Writing(to) in refused
    {
      if from in files {
        ok := Write(to, files[from].content);
      } else {
        ok := false;
        MayDie();
      }
    }

    /** Lock, list, examine or read a file, or find the space for it; the files stay as they are. */
    method Use(path: Path) returns (ok: bool)
      modifies this`running, this`refused
      ensures GoesOn()
      ensures ok ==> old(running)
      ensures !ok && old(running) ==> Using(path) in refused
    {
      ok := *;
      ok := ok && running;
      if !ok && running { refused := refused + {Using(path)}; }
      MayDie();
    }
  }
}

/** Applying, checking and reverting the config that comes with a restored backup. */
module RestoreConfig {
  import opened Wrappers
  import opened FileSystem
  import opened ConfigMerge

  const PENDING_CONFIG := Staged(PendingConfig)
  const CONFIG := Cfg(Config)
  const PRE_RESTORE := Cfg(PreRestore)
  const MAX_CONFIG_BYTES := 1024 * 1024

  /** Everything the config steps may touch besides the config itself. */
  const CONFIG_SCRATCH := {Cfg(ConfigTmp), Cfg(PreRestore), Cfg(PreRestoreTmp)}

  /** `previous`: the running config was saved before it was replaced. */
  datatype ConfigApplied = ConfigApplied(previous: bool)

  datatype ConfigError = Unreadable | TooLarge | NotMerged(error: MergeError) | NotWritten

  datatype Settled = Kept | PutBack | Stuck

  function TmpOf(role: ConfigPart): ConfigPart {
    if role == PreRestore then PreRestoreTmp else ConfigTmp
  }

  /** The system refused a step of writing this config file. */
  ghost predicate WriteRefused(disk: Disk, role: ConfigPart)
    reads disk
  {
    var tmp := Cfg(TmpOf(role));
    Writing(tmp) in disk.refused || Flushing(tmp) in disk.refused || Renaming(tmp, Cfg(role)) in disk.refused
  }

  /** Write to the temp file, flush it, rename it over the target: at every point the target
      is as it was or complete and flushed. */
  method AtomicWrite(disk: Disk, role: ConfigPart, content: Content) returns (ok: bool)
    requires role.Config? || role.PreRestore?
    modifies disk
    ensures disk.GoesOn()
    ensures ok ==> disk.files == (old(disk.files) - {Cfg(TmpOf(role))})[Cfg(role) := File(content, true)]
    ensures !ok ==> SameExcept(old(disk.files), disk.files, {Cfg(TmpOf(role))})
    ensures !ok && disk.running ==> WriteRefused(disk, role)
    ensures !ok ==> disk.GoneOrRefused(Cfg(TmpOf(role)))
  {
    var tmp := Cfg(TmpOf(role));
    ok := disk.Write(tmp, content);
    if ok { ok := disk.Flush(tmp); }
    if ok { ok := disk.Rename(tmp, Cfg(role)); }
    if !ok { var _ := disk.Remove(tmp); }
  }

  /** The text of the running config; "" if there is none. */
  function RunningText(files: Files): string {
    if CONFIG in files && files[CONFIG].content.Text? then files[CONFIG].content.text else ""
  }

  /** What a merge of these files would write. */
  function MergedConfig(toml: Toml, files: Files): Result<string, MergeError>
    requires PENDING_CONFIG in files && files[PENDING_CONFIG].content.Text?
  {
    MergedText(toml, RunningText(files), files[PENDING_CONFIG].content.text)
  }

  predicate ConfigUnchanged(a: Files, b: Files) {
    (CONFIG in a <==> CONFIG in b) && (CONFIG in a ==> a[CONFIG] == b[CONFIG])
  }

  method SaveAndWrite(disk: Disk, merged: string) returns (ok: bool)
    modifies disk
    ensures disk.GoesOn()
    ensures SameExcept(old(disk.files), disk.files, {CONFIG} + CONFIG_SCRATCH)
    ensures !ok ==> ConfigUnchanged(old(disk.files), disk.files)
    ensures ok ==> CONFIG in disk.files && disk.files[CONFIG] == File(Text(merged), true)
    ensures ok && CONFIG in old(disk.files) ==>
      PRE_RESTORE in disk.files && disk.files[PRE_RESTORE] == File(old(disk.files)[CONFIG].content, true)
    ensures !ok && disk.running ==> WriteRefused(disk, PreRestore) || WriteRefused(disk, Config)
  {
    if CONFIG in disk.files {
      ok := AtomicWrite(disk, PreRestore, disk.files[CONFIG].content);
      if !ok { return; }
    }
    ok := AtomicWrite(disk, Config, Text(merged));
  }

  /** Why applying a config failed in a process that is still running. */
  ghost predicate Explained(toml: Toml, files: Files, disk: Disk, error: ConfigError)
    requires PENDING_CONFIG in files
    reads disk
  {
    var restored := files[PENDING_CONFIG].content;
    match error
    case Unreadable =>
      || Using(PENDING_CONFIG) in disk.refused || Using(CONFIG) in disk.refused || !restored.Text?
      || (CONFIG in files && !files[CONFIG].content.Text?)
    case TooLarge => restored.Text? && |restored.text| > 0x10_0000
    case NotMerged(e) => restored.Text? && MergedConfig(toml, files) == Err(e)
    case NotWritten =>
      Using(CONFIG) in disk.refused || WriteRefused(disk, PreRestore) || WriteRefused(disk, Config)
  }

  /** Merge the pending config with the running one and write the result, saving the running one
      first.  Failing or dying anywhere leaves the running config as it was. */
  method ApplyConfig(disk: Disk, toml: Toml) returns (r: Result<ConfigApplied, ConfigError>)
    modifies disk
    ensures disk.GoesOn()
    ensures SameExcept(old(disk.files), disk.files, {CONFIG} + CONFIG_SCRATCH)
    ensures r.Err? ==> ConfigUnchanged(old(disk.files), disk.files)
    ensures r.Ok? ==>
      && PENDING_CONFIG in old(disk.files) && old(disk.files)[PENDING_CONFIG].content.Text?
      && MergedConfig(toml, old(disk.files)).Ok?
      && CONFIG in disk.files
      && disk.files[CONFIG] == File(Text(MergedConfig(toml, old(disk.files)).value), true)
      && (r.value.previous <==> CONFIG in old(disk.files))
    ensures r.Ok? && r.value.previous ==>
      PRE_RESTORE in disk.files && disk.files[PRE_RESTORE] == File(old(disk.files)[CONFIG].content, true)
    ensures r.Ok? ==>
      && |old(disk.files)[PENDING_CONFIG].content.text| <= 0x10_0000
      && PrintsMerge(toml, RunningText(old(disk.files)), old(disk.files)[PENDING_CONFIG].content.text,
                     disk.files[CONFIG].content.text)
    ensures r.Err? && disk.running && PENDING_CONFIG in old(disk.files) ==>
              Explained(toml, old(disk.files), disk, r.error)
  {
    var readable := disk.Use(PENDING_CONFIG);
    if !readable || PENDING_CONFIG !in disk.files { return Err(Unreadable); }
    if !disk.files[PENDING_CONFIG].content.Text? { return Err(Unreadable); }
    var restored := disk.files[PENDING_CONFIG].content.text;
    if |restored| > MAX_CONFIG_BYTES { return Err(TooLarge); }
    var locked := disk.Use(CONFIG);
    if !locked { return Err(NotWritten); }
    var hadCurrent := CONFIG in disk.files;
    if hadCurrent && !disk.files[CONFIG].content.Text? { return Err(Unreadable); }
    var current := if hadCurrent then disk.files[CONFIG].content.text else "";
    var merged := MergeForRestore(toml, current, restored);
    if merged.Err? { return Err(NotMerged(merged.error)); }
    var written := SaveAndWrite(disk, merged.value);
    if !written { return Err(NotWritten); }
    r := Ok(ConfigApplied(hadCurrent));
  }

  /** The system refused a step of putting the config back. */
  ghost predicate RevertRefused(disk: Disk)
    reads disk
  {
    || Removing(CONFIG) in disk.refused || Using(PRE_RESTORE) in disk.refused || Using(CONFIG) in disk.refused
    || WriteRefused(disk, Config)
  }

  /** What `ApplyConfig` leaves for `RevertConfig`. */
  predicate CanRevert(files: Files, applied: ConfigApplied) {
    CONFIG in files && (applied.previous ==> PRE_RESTORE in files)
  }

  /** Put back what `ApplyConfig` saved, or the absence it found. */
  method RevertConfig(disk: Disk, applied: ConfigApplied) returns (ok: bool)
    modifies disk
    ensures disk.GoesOn()
    ensures SameExcept(old(disk.files), disk.files, {CONFIG, Cfg(ConfigTmp)})
    ensures !ok ==> ConfigUnchanged(old(disk.files), disk.files)
    ensures ok && !applied.previous ==> CONFIG !in disk.files
    ensures ok && applied.previous ==>
      && PRE_RESTORE in old(disk.files) && CONFIG in disk.files
      && disk.files[CONFIG] == File(old(disk.files)[PRE_RESTORE].content, true)
    ensures !ok && disk.running && CanRevert(old(disk.files), applied) ==> RevertRefused(disk)
  {
    if !applied.previous {
      ok := disk.Remove(CONFIG);
      return;
    }
    var readable := disk.Use(PRE_RESTORE);
    if !readable || PRE_RESTORE !in disk.files { return false; }
    var saved := disk.files[PRE_RESTORE].content;
    var locked := disk.Use(CONFIG);
    if !locked { return false; }
    ok := AtomicWrite(disk, Config, saved);
  }

  /** Keep the merged config only if it loads. */
  method SettleApplied(disk: Disk, applied: ConfigApplied, loads: bool) returns (r: Settled)
    modifies disk
    ensures disk.GoesOn()
    ensures SameExcept(old(disk.files), disk.files, {CONFIG, Cfg(ConfigTmp)})
    ensures loads ==> r == Kept && disk.files == old(disk.files)
    ensures !loads ==> r != Kept
    ensures r.Stuck? ==> ConfigUnchanged(old(disk.files), disk.files)
    ensures r.PutBack? && !applied.previous ==> CONFIG !in disk.files
    ensures r.PutBack? && applied.previous ==>
      && PRE_RESTORE in old(disk.files) && CONFIG in disk.files
      && disk.files[CONFIG] == File(old(disk.files)[PRE_RESTORE].content, true)
    ensures r.Stuck? && disk.running && CanRevert(old(disk.files), applied) ==> RevertRefused(disk)
  {
    if loads { return Kept; }
    var ok := RevertConfig(disk, applied);
    r := if ok then PutBack else Stuck;
  }

  /** Apply and settle in one go: a config that does not load is replaced by exactly what was
      there before, bytes or absence. */
  method ApplyAndSettle(disk: Disk, toml: Toml, loads: bool) returns (r: Result<Settled, ConfigError>)
    modifies disk
    ensures disk.GoesOn()
    ensures SameExcept(old(disk.files), disk.files, {CONFIG} + CONFIG_SCRATCH)
    ensures r.Err? ==> ConfigUnchanged(old(disk.files), disk.files)
    ensures r == Ok(Kept) ==>
      && PENDING_CONFIG in old(disk.files) && old(disk.files)[PENDING_CONFIG].content.Text?
      && MergedConfig(toml, old(disk.files)).Ok? && CONFIG in disk.files
      && disk.files[CONFIG] == File(Text(MergedConfig(toml, old(disk.files)).value), true)
    ensures r == Ok(PutBack) ==>
      && (CONFIG in disk.files <==> CONFIG in old(disk.files))
      && (CONFIG in disk.files ==> disk.files[CONFIG] == File(old(disk.files)[CONFIG].content, true))
    ensures r == Ok(Stuck) && disk.running ==> RevertRefused(disk)
    ensures r.Ok? ==> (r.value.Kept? <==> loads)
    ensures r.Err? && disk.running && PENDING_CONFIG in old(disk.files) ==>
              Explained(toml, old(disk.files), disk, r.error)
  {
    var applied := ApplyConfig(disk, toml);
    if applied.Err? { return Err(applied.error); }
    var settled := SettleApplied(disk, applied.value, loads);
    r := Ok(settled);
  }
}

# Supply Drop BBS: a verified model of its recovery, retention and mesh logic

Supply Drop BBS is a bulletin board that runs beside a mesh radio. This project models the parts of
it whose mistakes lose data or messages, and proves what they promise:

- **Restoring a database at startup** (`FileSystem`, `SnapshotNames`, `RestoreApply`,
  `RestoreConfig`, `RestoreStartup`). The files are a mutable `Disk` on which renaming, removing and
  flushing are atomic and copying and writing are not. Any operation can fail. The process can die
  at any point: from then on operations have no effect, so a postcondition that does not mention
  `running` or the result holds at every crash point. The disk remembers which operations the
  system refused and whether a checkpoint found the database in use, so an exception to a promise
  names the refused operation that it takes, and a start that is refused nothing applies what is
  pending. A write-ahead log knows the database state it was written for, and what a pair of files
  means is what SQLite would read from it. A run of starts is a sequence of rounds, each with the
  files it found and left and what it reported.
- **Merging the restored config** (`ConfigMerge`): documents are trees of tables and leaves, and the
  merge carries the machine-specific keys of the running config into the restored one.
- **Editing the config under a lock** (`ConfigLock`): processes interleave step by step, fail and
  die, over one config file, one temp file and their lock files.
- **Keeping backups** (`Retention`): the daily and weekly selection, once and again and again.
- **Delivering replies over the mesh** (`SendTracker`, `DeliveryStats`, `Session`): bounded queues,
  tables, rings and windows, each specified by the full history it stands for. The classes carry
  that history as ghost state, and their methods are proved against functions of it.
- **Texts and frames** (`Utf8`, `MeshName`, `RadioStream`, `AuditArchive`, `AuditHeader`): UTF-8
  both ways, truncation to a byte budget, framing on a noisy byte stream, and the audit archive's
  names, lines and header.

`Wrappers`, `Sequences`, `Decimal`, `Affixes`, `TextOrder`, `Bytes` and `NodePrefix` hold what these share.

Where the program's comments and its code differ, the model follows the code, and says when they
agree:

- The comment on a restore says that the old database stays usable until the rename. Between moving
  the sidecars aside and the rename, the old file lies there without its log. The live pair means
  what it meant exactly if the log is still there or held nothing that was not folded into the file
  (`RestoreApply.OldPairMeansTheSame`, with a state that loses a commit in
  `RestoreApply.LogAsideLosesCommits`). What holds in any case is that the log then lies aside and
  renaming it back restores the pair, and that the old contents are in the live pair or in the
  fresh snapshot (`RestoreApply.Apply`).
- A restored config that does not load is taken back by the start that applied it. If that start
  dies in between, no later start does: `RestoreStartup.StrandedConfig` is such a run, and
  `RestoreStartup.ConfigOverRun` says for all runs when the config in place is one that does not
  load.
- The comment on `on_sent` says that a CRC collision refreshes the entry. It replaces another send's
  record, which is then never confirmed and never handed back. The ledger calls it superseded, and
  that happens exactly when the device accepts another send under a CRC in flight
  (`SendTracker.SupersededExactly`, with a run in `SendTracker.CollisionLosesTheFirst`).
- The archive header says that `-` marks an empty field. A field that is a lone hyphen prints the
  same, and nothing else does (`AuditArchive.FieldsAreFaithful`).
- The comment on reading the header back says that only the exact line is taken. Numbers with a plus
  sign or leading zeros are taken too, and a minus before a last id of zero. What is taken, and which
  of it the writer prints, is in `AuditHeader.AcceptedExactly` and
  `AuditHeader.PrintedExactlyWhenPlain`.
- An archive is meant to tell what it holds. The reader looks at 8 KiB, and if they end inside a
  codepoint of an entry the read fails and the archive counts as unreadable
  (`AuditHeader.HeaderReadsBack`, with such an archive in `AuditHeader.StraddlingNameIsUnreadable`).
- The stream reader is meant to find the next frame after noise. A start byte makes it take the next
  byte unseen, so a frame right behind a stray start byte is lost, exactly when the noise ends in an
  odd number of them (`RadioStream.FrameAfterNoise`, `RadioStream.StrayStartByteLosesTheFrame`).

`dafny verify dfyconfig.toml` checks the whole project.

## Model

| member | source | states |
|---|---|---|
| FileSystem.Disk.Rename | crates/bbs-core/src/restore_apply.rs:384-390 | A rename either happens whole, replacing the target, or changes nothing, also when the process dies in it. |
| FileSystem.Disk.Copy | crates/bbs-core/src/restore_apply.rs:302-313 | A copy that fails or is cut short leaves anything under the target name, and nothing else changes. |
| SnapshotNames.StampOfSnapshotName | crates/bbs-core/src/restore_apply.rs:465-473 | The stamp read back from a snapshot's name is the one it was made with, up to the width of the integer. |
| SnapshotNames.RecognisedExactly | crates/bbs-core/src/restore_apply.rs:465-473 | A name is read as a snapshot's exactly if it is the prefix, digits whose value fits 64 bits, and the suffix; the stamp is that value. |
| SnapshotNames.PrunedExactly | crates/bbs-core/src/restore_apply.rs:452-463 | A name is pruned if and only if it is a snapshot's and at least as many snapshots as are kept have a later stamp (or the same stamp and a later name). |
| SnapshotNames.EarlierStampsGoFirst | crates/bbs-core/src/restore_apply.rs:452-463 | No snapshot is pruned while one with an earlier stamp stays. |
| SnapshotNames.NewerWrittenOut | crates/bbs-core/src/restore_apply.rs:458-459 | Snapshots compare by stamp and, with equal stamps, by the first character in which their names differ. |
| SnapshotNames.PruningLeavesTheNewest | crates/bbs-core/src/restore_apply.rs:452-463 | Of the snapshots as many are left as are to be kept, or all of them if there are fewer. |
| SnapshotNames.SnapshotNamesDiffer | crates/bbs-core/src/restore_apply.rs:327-339 | Different stamps give different snapshot names. |
| RestoreApply.CheckpointWal | crates/bbs-core/src/db/mod.rs:118-135 | Whatever a checkpoint answers (folded, busy, error, damaged), what the live pair means is unchanged, after a full fold the database file alone means it, and that the database is in use is on record exactly if a checkpoint found it so. |
| RestoreApply.NextSnapshotPath | crates/bbs-core/src/restore_apply.rs:327-339 | The chosen snapshot name is the first from the clock on for which neither it nor its log exists. |
| RestoreApply.CopyDurably | crates/bbs-core/src/restore_apply.rs:302-313 | The copy takes the target name only when it is complete and durable; a copy that fails changes nothing but its partial name, removes that unless refused, and fails only if one of its steps was refused. |
| RestoreApply.CopyLive | crates/bbs-core/src/restore_apply.rs:269-297 | Both files of a snapshot are complete and durable copies, or what was made of them is removed again unless that is refused. |
| RestoreApply.SnapshotLive | crates/bbs-core/src/restore_apply.rs:242-297 | A snapshot that succeeds holds the live contents durably, with its log if the checkpoint did not fold it; the live pair means the same at every crash point. It fails as in use exactly if the checkpoint found the database in use, and otherwise only if a step was refused. |
| RestoreApply.MoveSidecarsAside | crates/bbs-core/src/restore_apply.rs:206-223 | The sidecars move aside, each lying under its aside name with what it held. If one cannot be moved, every sidecar is as before, unless the process died or the system refused to rename it back. |
| RestoreApply.RestoreSidecars | crates/bbs-core/src/restore_apply.rs:225-234 | Every moved sidecar is back under its name with its content, or still lies under its aside name because the process died or the system refused that very rename. |
| RestoreApply.MoveOne | crates/bbs-core/src/restore_apply.rs:206-223 | One sidecar moves aside or the moved ones are back, unless the process died or the system refused to rename them. |
| RestoreApply.InstallByCopy | crates/bbs-core/src/restore_apply.rs:392-421 | The copy fallback changes the database only by installing the complete, durable pending one. The pending file is gone then, unless the process died or the system refused both to remove and to rename it; a fallback that fails leaves no copy behind unless refused. |
| RestoreApply.Install | crates/bbs-core/src/restore_apply.rs:384-390 | The database name holds the complete old or the complete new database at every crash point; the copy is made only if the rename was refused, and installing fails only if both were. |
| RestoreApply.InstallOrUndo | crates/bbs-core/src/restore_apply.rs:184-191 | The new database is in place and the sidecars stay away, or the old one is untouched and its sidecars are back, as far as the system renames them. |
| RestoreApply.Swap | crates/bbs-core/src/restore_apply.rs:166-201 | The new database is in place with no sidecar of the old one, and the old ones are dropped unless refused; or the old one is untouched and so is each sidecar, unless the process died or the system refused to rename it back. In a running process a swap fails only for the refusal that its error names. |
| RestoreApply.SnapshotThenSwap | crates/bbs-core/src/restore_apply.rs:166-201 | Checkpoint and swap compose: after a refused swap the old database means what it meant, with its log beside it or aside. |
| RestoreApply.OldPairMeansTheSame | crates/bbs-core/src/restore_apply.rs:10-20 | With the old database file in place, the live pair means what it meant exactly if its log is there or every commit is in the file. |
| RestoreApply.LogAsideLosesCommits | crates/bbs-core/src/restore_apply.rs:206-223 | A state with the log moved aside in which the old file by itself lacks a commit. |
| RestoreApply.Apply | crates/bbs-core/src/restore_apply.rs:166-201 | At every crash point: the complete old or new database is in place, a log beside it is its own, the old one lies with its log or next to its log moved aside, and the old contents are in the live pair or in the fresh snapshot. A failure never installs the new database and leaves the live contents as before, unless the process died or the system refused to rename a sidecar back; and it has the cause its error names: the database found in use, or that step refused. |
| RestoreApply.StagedNamesAreNoSnapshots | crates/bbs-core/src/restore_apply.rs:465-473 | None of the names a restore uses for staging is read as a snapshot's. |
| RestoreConfig.AtomicWrite | crates/bbs-core/src/config_lock.rs:198-230 | The target has its old content or all of the new one, durably, at every crash point; a write in a running process fails only if one of its steps was refused. |
| RestoreConfig.ApplyConfig | crates/bbs-core/src/restore_config.rs:193-239 | The config becomes the merge of running and restored, a text that prints a document with the running values at the machine-specific keys and the backup's elsewhere, and what it replaced is saved; failing or dying anywhere leaves it as it was, and each error has its cause: over 1 MiB, a merge that fails, or a step refused. |
| RestoreConfig.RevertConfig | crates/bbs-core/src/restore_config.rs:246-263 | The exact saved bytes come back, or the absence there was, unless the process died or a step was refused. |
| RestoreConfig.SettleApplied | crates/bbs-core/src/restore_config.rs:278-292 | The merged config stays exactly if it loads; otherwise it is put back, or left if the process died or a step of putting it back was refused. |
| RestoreConfig.ApplyAndSettle | crates/bbs-core/src/restore_config.rs:193-292 | Applying and settling a config that does not load gives back exactly what was there before, bytes or absence; one that loads is kept, and a failure has its cause. |
| RestoreStartup.PruneOldSnapshots | crates/bbs-core/src/restore_apply.rs:425-447 | Only prunable snapshots and their logs go, and never the one just taken. If the directory can be listed each of them is gone or its removal was refused, and with nothing refused no more others are left than are kept. |
| RestoreStartup.PruningLeavesAtMost | crates/bbs-core/src/restore_apply.rs:425-447 | With every prunable snapshot gone, at most two other snapshots are left beside the one just taken, or three if none was. |
| RestoreStartup.ApplyPendingConfig | crates/bbs-core/src/restore_apply.rs:133-151 | The config changes only by a successful merge, and the replaced one is saved. Either way the pending config is gone unless its removal was refused, and a failure has its cause. |
| RestoreStartup.ApplyPendingRestore | crates/bbs-core/src/restore_apply.rs:89-164 | At every crash point of a start: all promises of the swap; the config is as it was or the complete merge, and the latter only after the swap. With nothing pending no snapshot is taken and at most an orphan config goes. A rejected restore never has the new database in place, leaves contents and config, has the cause its reason names, and is set aside; an applied one is not pending any more and leaves at most three snapshots: all of this unless the process died or the system refused the step concerned. |
| RestoreStartup.Start | src/main.rs:1088-1160 | The same with the check that a restored config loads: kept means the complete merge, put back the original bytes or absence, stuck that the process died or a step of putting it back was refused. In a process that lives, is refused nothing and does not find the database in use, a pending restore ends applied. |
| RestoreStartup.PruningSpares | crates/bbs-core/src/restore_apply.rs:425-447 | Pruning after a swap spares the snapshot just taken and every recent one, whatever the clock says. |
| RestoreStartup.RecentIsNotPrunable | crates/bbs-core/src/restore_apply.rs:425-463 | A snapshot with fewer than three newer ones, or two if the start takes one itself, is not pruned by the start. |
| RestoreStartup.ChosenIsNewest | crates/bbs-core/src/restore_apply.rs:327-339 | With the clock ahead of all stamps, a new snapshot has no newer one. |
| RestoreStartup.ChosenAddsAtMostOne | crates/bbs-core/src/restore_apply.rs:327-339 | A start puts at most one newer snapshot before any given one, and none if it takes none. |
| RestoreStartup.Starts | crates/bbs-core/src/restore_apply.rs:89-129 | Any number of starts, each a new process that can die anywhere, with anything that can happen between them, are a run in the sense of the next four rows. |
| RestoreStartup.SnapshotSurvives | crates/bbs-core/src/restore_apply.rs:89-129 | Over any run of starts, crashes and power losses, a snapshot with n newer ones still holds its contents as long as at most 2 - n of the starts chose a name for one of their own. |
| RestoreStartup.IdleUntilStaged | crates/bbs-core/src/restore_apply.rs:89-129 | Once a restore is set aside or applied, every later start of any run is idle, takes no snapshot and leaves all else alone until something is staged. |
| RestoreStartup.ConfigOverRun | src/main.rs:1088-1160 | Over any run the config says what it did at first or is the last merge that was left; every merge left follows a finished swap, and does not load exactly if its start could not put the config back. |
| RestoreStartup.StrandedConfig | src/main.rs:1112-1142 | A run that leaves a config in place that does not load: the first start dies before it is put back, and the second settles nothing. |
| RestoreStartup.PowerLossIsBetween | crates/bbs-core/src/restore_apply.rs:302-313 | What a start has made durable survives a power loss. |
| RestoreStartup.CrashAndRetry | crates/bbs-core/src/restore_apply.rs:89-129 | After a start that dies anywhere, a power loss and a retry that may die too, with the clock ahead of all stamps, the old contents are in the live pair or in the snapshot of one of the two rounds. |
| ConfigMerge.IndependentIsPrefixFree | crates/bbs-core/src/restore_config.rs:55-82 | Two paths are independent exactly when neither is a prefix of the other. |
| ConfigMerge.MachineKeysArePrefixFree | crates/bbs-core/src/restore_config.rs:55-82 | No machine-specific key is, or lies under, another. |
| ConfigMerge.SetFailsExactlyWhenBlocked | crates/bbs-core/src/restore_config.rs:130-152 | Setting a path fails exactly when something on its way is not a table. |
| ConfigMerge.BlockedIsALeafAbove | crates/bbs-core/src/restore_config.rs:130-152 | Blocked means that a strict prefix of the path reads as a non-table. |
| ConfigMerge.MachineKeysComeFromCurrent | crates/bbs-core/src/restore_config.rs:99-114 | After a merge every machine-specific path, and every path below one, reads as in the running config, absence included. |
| ConfigMerge.EverythingElseComesFromTheBackup | crates/bbs-core/src/restore_config.rs:99-114 | Every path neither under nor above a machine-specific key reads as in the backup. |
| ConfigMerge.PathsAboveKeys | crates/bbs-core/src/restore_config.rs:130-166 | A path above a key is a table after the merge exactly if the backup had one there or a carried value made one. |
| ConfigMerge.MergeIsMerge | crates/bbs-core/src/restore_config.rs:99-166 | A merge is a document that reads as the running one at the keys and under them, as the backup apart from them, and above them is a table exactly where one of the two needs it. |
| ConfigMerge.MergeFailsExactlyOnConflict | crates/bbs-core/src/restore_config.rs:99-152 | The merge fails exactly when some machine key is set in the running config while a strict prefix of it is a non-table in the backup. |
| ConfigMerge.MergeIsIdempotent | crates/bbs-core/src/restore_config.rs:99-114 | Merging a config with itself, or merging a second time, changes nothing. |
| ConfigMerge.CarriesCommute | crates/bbs-core/src/restore_config.rs:107-113 | Two independent keys can be carried in either order, with the same result or failure. |
| ConfigMerge.KeyOrderIsImmaterial | crates/bbs-core/src/restore_config.rs:107-113 | The result, and whether there is one, does not depend on the order of the keys. |
| ConfigMerge.MergeDocuments | crates/bbs-core/src/restore_config.rs:107-113 | The loop that mutates the restored document computes the merge. |
| ConfigMerge.MergeParsed | crates/bbs-core/src/restore_config.rs:99-152 | Merging two documents fails exactly on a conflict, naming a table on the way to a key, and otherwise gives such a document. |
| ConfigMerge.MergeForRestore | crates/bbs-core/src/restore_config.rs:99-114 | Merging two texts succeeds exactly when both parse and no machine key conflicts, and then prints a document that has the running config's values at the machine-specific keys and the backup's elsewhere; a text that does not parse is the one the error names. |
| ConfigMerge.SameTextMerges | crates/bbs-core/src/restore_config.rs:99-114 | A backup of the running config merges into that config. |
| ConfigLock.LocksCoincide | crates/bbs-core/src/config_lock.rs:82-89 | Two spellings contend on one lock exactly when they resolve to the same file or, with no file yet, name the same entry; one that resolves and one that does not never do. |
| ConfigLock.WritingKeepsLock | crates/bbs-core/src/config_lock.rs:75-89 | The first write ever, or one over the file itself, leaves the path its lock; only a write over a link to a file changes it. |
| ConfigLock.OneFileOneLock | crates/bbs-core/src/config_lock.rs:75-89 | Editors whose paths resolve to one file or, before it is first written, name its entry all take one lock, whatever their spellings and links. |
| ConfigLock.StepKeepsInv | crates/bbs-core/src/config_lock.rs:109-142 | Every step of every process keeps the invariant: one holder per lock, one process in the critical section, and the config is the committed edits in order. |
| ConfigLock.NoUpdateIsLost | src/main.rs:2039-2053 | Over every interleaving with failures and deaths, the config equals the committed edits applied in commit order to the initial file. |
| ConfigLock.EveryStepIsAtomic | crates/bbs-core/src/config_lock.rs:198-230 | A reader without the lock sees only the old config or the complete output of one edit of it. |
| ConfigLock.DifferentLocksLoseAnUpdate | crates/bbs-core/src/config_lock.rs:82-89 | If two processes can take different lock files there is a run that loses an update. |
| ConfigLock.SafeExactlyWhenLocksCoincide | crates/bbs-core/src/config_lock.rs:109-142 | The config is safe over every run exactly when no two processes ever take different locks, each deriving its lock anew at every edit. |
| ConfigLock.SafeExactlyWhenSpellingsAgree | crates/bbs-core/src/config_lock.rs:82-142 | The same in terms of the paths: safe exactly if all spellings lead to one lock in every state of the file system an edit can find. |
| Retention.ListingOrderIsImmaterial | src/main.rs:3587-3610 | The order in which the directory is listed does not matter to what is kept. |
| Retention.SortIsStable | src/main.rs:3601-3602 | Backups of one time stay in the order in which they were listed. |
| TextOrder.FirstDifferenceDecides | src/main.rs:3601-3602 | Timestamps compare by the first character in which they differ, and a text comes before its continuations. |
| Retention.KeptExactly | src/main.rs:3612-3630 | A backup is kept exactly if it opened one of the first days or one of the first weeks counted from the newest. |
| Retention.KeptByDays | src/main.rs:3612-3630 | By days alone, exactly those backups are kept that are the newest with their first ten characters, with fewer than the daily budget of others before. |
| Retention.KeptByWeeks | src/main.rs:3612-3630 | By weeks alone, the same with the calendar's week of the first ten characters. |
| Retention.KeptIsBounded | src/main.rs:3612-3630 | At most as many backups are kept as days and weeks are kept together. |
| Retention.NewestDatesAreCovered | src/main.rs:3612-3630 | The newest backup of each of the newest distinct dates is kept. |
| Retention.NewestWeeksAreCovered | src/main.rs:3612-3630 | The newest backup of each of the newest distinct ISO 8601 weeks is kept. |
| Retention.KeptShrinks | src/main.rs:3612-3630 | Newer backups only push older ones out, never bring one back. |
| Retention.DroppingTheRestIsHarmless | src/main.rs:3601-3649 | Deleting any part of what is not kept does not change what is kept. |
| Retention.PruningComposes | src/main.rs:3601-3649 | Pruning a new backup onto any list between the pruned and the full one keeps the same as pruning the new backup onto the full one. |
| Retention.IncrementalPruningAgrees | src/main.rs:1278-1298 | Pruning after every backup, with any deletions failing, always keeps what pruning the full history would keep. |
| Retention.RunBackupTask | src/main.rs:1278-1298 | A run of the backup loop on the directory itself, new backups turning up anywhere in the listing and deletions failing: everything that pruning the whole history would keep is there, another pruning would keep just that, and anything else could not be deleted in the last pruning. With no such failure no more are left than the two budgets together. |
| Retention.BackupDirectory.Prune | src/main.rs:3587-3650 | The directory afterwards is the old one without some of what is not kept; everything kept is there, and anything else has the name of a kept backup or could not be deleted. With no failure no more are left than the two budgets together. |
| Retention.BackupDirectory.Delete | src/main.rs:3640-3649 | A deletion removes the files of that name or, failing, nothing, and then the failure is on record. |
| Retention.BackupDirectory.DeleteOthers | src/main.rs:3640-3649 | The deletion loop leaves only what is to be kept and what could not be deleted. |
| Retention.SortNewestFirst | src/main.rs:3601-3610 | The sort is a newest-first permutation of the listing. |
| Retention.ChooseKept | src/main.rs:3612-3630 | The two-counter loop chooses the names of exactly the kept backups. |
| SendTracker.AckWait | crates/bbs-mesh/src/send_tracker.rs:56-58 | The wait is the point of the configured window that is nearest to the device's hint. |
| SendTracker.StepKeepsSound | crates/bbs-mesh/src/send_tracker.rs:115-179 | After every event the unanswered sends are the latest ones, the CRCs in flight differ and the deadlines lie in the window. |
| SendTracker.RunKeepsSound | crates/bbs-mesh/src/send_tracker.rs:115-179 | The same over every run. |
| SendTracker.AnswersAreFifo | crates/bbs-mesh/src/send_tracker.rs:135-149 | The k-th answer that is not spurious belongs to the k-th recorded send. |
| SendTracker.ClosedStaysClosed | crates/bbs-mesh/src/send_tracker.rs:135-180 | A send that was confirmed, refused, handed back, given up or superseded stays so for good. |
| SendTracker.AcceptedIsSettled | crates/bbs-mesh/src/send_tracker.rs:54-58 | Once a collection came at least the longest wait later, an accepted send is settled: confirmed, handed back or given up exactly if no other send took its CRC in flight. |
| SendTracker.SupersededExactly | crates/bbs-mesh/src/send_tracker.rs:144-148 | Over any run, a send is superseded exactly if the device accepts another under its CRC while it is in flight. |
| SendTracker.CollisionLosesTheFirst | crates/bbs-mesh/src/send_tracker.rs:144-148 | A run with a collision: whatever follows, the first send is never confirmed and never handed back. |
| SendTracker.StepKeepsCounts | crates/bbs-mesh/src/transport.rs:181-226 | With a caller that re-records what it is handed back, attempts number the transmissions of a message. |
| SendTracker.StepKeepsCap | crates/bbs-mesh/src/send_tracker.rs:161-180 | No attempt is above the cap, and only sends below it are handed back. |
| SendTracker.RetransmissionIsBounded | crates/bbs-mesh/src/transport.rs:181-226 | Over any run no message is transmitted more often than the configured number of attempts. |
| SendTracker.RetryingRunsDown | crates/bbs-mesh/src/transport.rs:181-226 | A new message adds one less than the cap to what may still be sent, every retransmission takes exactly one away, and nothing else changes it. |
| SendTracker.RemainingIsNatural | crates/bbs-mesh/src/transport.rs:181-226 | What may still be sent is never negative, so without new messages retrying ends. |
| SendTracker.Tracker.constructor | crates/bbs-mesh/src/send_tracker.rs:104-110 | A new tracker represents the empty ledger. |
| SendTracker.Tracker.Record | crates/bbs-mesh/src/send_tracker.rs:117-133 | A recorded send is the ledger's next entry, and queue and table still hold exactly the open entries. |
| SendTracker.Tracker.OnSent | crates/bbs-mesh/src/send_tracker.rs:137-149 | The answer goes to the oldest unanswered send: refused for CRC 0, else accepted under the CRC with a deadline as far from now as the point of the window nearest to the hint, superseding the one that held the CRC; spurious if there is none. |
| SendTracker.Tracker.OnConfirmed | crates/bbs-mesh/src/send_tracker.rs:154-156 | The confirmed record is that of the one entry in flight under the CRC, which is confirmed and in flight no more, and nothing for any other CRC. |
| SendTracker.Tracker.CollectDue | crates/bbs-mesh/src/send_tracker.rs:161-180 | Exactly the records with a deadline not after now leave the table, each once, to the list for retrying if it has attempts left and to the other otherwise; their entries are handed back or given up accordingly. |
| SendTracker.Tracker.TakeDue | crates/bbs-mesh/src/send_tracker.rs:161-180 | The loop over the due CRCs leaves the table without the overdue records and has each of them in one list. |
| SendTracker.CloseOne | crates/bbs-mesh/src/send_tracker.rs:154-156 | Closing an accepted entry takes its CRC from the table and touches nothing else. |
| SendTracker.AcceptFront | crates/bbs-mesh/src/send_tracker.rs:137-149 | Taking the queue's front into the table under the CRC is the ledger's step, collisions included. |
| SendTracker.CollectKeeps | crates/bbs-mesh/src/send_tracker.rs:161-180 | Dropping the overdue records from the table is the ledger's step. |
| DeliveryStats.CountersMean | crates/bbs-mesh/src/metrics.rs:55-69 | Each of a node's counters is the number of events of its kind. |
| DeliveryStats.DeliveriesMean | crates/bbs-mesh/src/metrics.rs:71-82 | Confirmations and latencies are counted together, and the sum is that of the measured latencies. |
| DeliveryStats.SendsAreFirstOrRetransmitted | crates/bbs-mesh/src/metrics.rs:205-217 | Every send is a first send or a retransmission, so first sends are at most the sends. |
| DeliveryStats.ExtremesAreMeasured | crates/bbs-mesh/src/metrics.rs:71-82 | The smallest and largest latency are measured ones and bound them all. |
| DeliveryStats.AverageIsBetweenExtremes | crates/bbs-mesh/src/metrics.rs:71-82 | The latency sum lies between the count times the smallest and times the largest. |
| DeliveryStats.TrackedSize | crates/bbs-mesh/src/metrics.rs:183-193 | At most 256 nodes are tracked, and all there were if there were fewer. |
| DeliveryStats.TrackedAreLatest | crates/bbs-mesh/src/metrics.rs:183-193 | No node outside the table was touched later than one inside, whatever the ties. |
| DeliveryStats.TrackedAreRecent | crates/bbs-mesh/src/metrics.rs:183-200 | If no two touches fall on one instant, the tracked nodes are exactly the 256 most recently touched. |
| DeliveryStats.TableIsRecent | crates/bbs-mesh/src/metrics.rs:183-200 | The same of the table itself, with consistent counters for every node. |
| DeliveryStats.TableAfterTouch | crates/bbs-mesh/src/metrics.rs:183-200 | A table that made room and counted an event is the table of the longer log. |
| DeliveryStats.HasStalest | crates/bbs-mesh/src/metrics.rs:186-190 | A table that is not empty has a stalest node to evict. |
| DeliveryStats.DeliveryStats.CountIn | crates/bbs-mesh/src/metrics.rs:183-200 | Only a new node that finds the table full evicts, and it evicts a stalest one; its own record starts from zero, and no other record changes. |
| DeliveryStats.DeliveryStats.WithNode | crates/bbs-mesh/src/metrics.rs:183-200 | The table stays the least-recently-used cache of the log, each node with the count of its events since it was last admitted. |
| DeliveryStats.CountedIsSpread | crates/bbs-mesh/src/metrics.rs:252-270 | A CRC is counted twice only with at least 256 others counted in between. |
| DeliveryStats.EveryCrcCounts | crates/bbs-mesh/src/metrics.rs:252-270 | Every CRC that came in is counted at least once, and no other. |
| DeliveryStats.WindowMovesOn | crates/bbs-mesh/src/metrics.rs:258-268 | A full window that takes a new CRC loses its oldest, which is nowhere else in it. |
| DeliveryStats.DeliveryStats.OnConfirmed | crates/bbs-mesh/src/metrics.rs:252-270 | Queue and set hold the same CRCs, the last 256 counted; a confirmation counts exactly if it is not among them. |
| DeliveryStats.DeliveryStats.Sample | crates/bbs-mesh/src/metrics.rs:312-329 | The history is the last 480 of the loaded samples followed by those taken since, and those taken since only grow. |
| DeliveryStats.DeliveryStats.LoadHistory | crates/bbs-mesh/src/metrics.rs:334-339 | Loading replaces the history by the latest 480 of the persisted samples. |
| DeliveryStats.DeliveryStats.OnSend | crates/bbs-mesh/src/metrics.rs:205-217 | The global counters stay the numbers of sends and retransmissions there ever were, and the node's table that of the longer log. |
| DeliveryStats.DeliveryStats.OnSentResult | crates/bbs-mesh/src/metrics.rs:227-233 | The global counters stay the numbers of accepted and of refused sends there ever were, and samples taken before do not exceed them. |
| DeliveryStats.DeliveryStats.RecordLatency | crates/bbs-mesh/src/metrics.rs:351-358 | Count and sum stay those of all latencies ever measured, and the extremes stay measured ones that bound them all, the initial values never showing once there is one. |
| DeliveryStats.ExtremesAfter | crates/bbs-mesh/src/metrics.rs:351-358 | The first latency replaces both initial extremes, and every later one keeps them bounds. |
| Session.RegisteringKeepsInverse | crates/bbs-mesh/src/session.rs:193-212 | Registering a node keeps the two maps inverse exactly when the new id is not in use. |
| Session.SessionState.GetOrInsert | crates/bbs-mesh/src/session.rs:193-212 | The node's session is returned, or registered under the new id; the maps stay inverse exactly when it had one or the id is fresh. |
| Session.SessionState.RemoveByPrefix | crates/bbs-mesh/src/session.rs:221-229 | The session goes from both maps and its pending mark too, and the maps stay inverse. |
| Session.NextStage | crates/bbs-mesh/src/session.rs:231-260 | The stage's start moves only with a prompt that differs from the last response. |
| Session.SessionState.UpdateAwaitingReply | crates/bbs-mesh/src/session.rs:243-260 | Flag, stamp and last prompt are those of the node's responses so far: awaiting exactly after a prompt, the stamp that of the first of the current run of identical prompts. |
| Session.SessionState.AwaitingReplyExpired | crates/bbs-mesh/src/session.rs:272-277 | A stage has expired exactly if the last response was a prompt and the first of its run is at least the timeout ago. |
| Session.AcceptingKeepsSpread | crates/bbs-mesh/src/session.rs:351-392 | Inside the window an identity is accepted again only after 16 others. |
| Session.RingDecides | crates/bbs-mesh/src/session.rs:371-381 | With the expired entries gone, searching the ring decides whether the identity is among the last 16 accepted and younger than the window. |
| Session.RingAfterAccepting | crates/bbs-mesh/src/session.rs:382-390 | The ring stays the duplicate-free tail of the accepted messages, at most 16 long. |
| Session.SessionState.EvictExpired | crates/bbs-mesh/src/session.rs:368-376 | Popping the front while it is expired leaves nothing expired and loses nothing younger. |
| Session.RepeatsMeans | crates/bbs-mesh/src/session.rs:351-392 | A repeat is a message with the timestamp and text of one of the last 16 accepted, less than 120 seconds after it. |
| Session.SessionState.SearchRing | crates/bbs-mesh/src/session.rs:368-391 | A message is dropped exactly if it repeats one of the last 16 accepted within the window, and is remembered otherwise. |
| Session.SessionState.DedupByTimestampAt | crates/bbs-mesh/src/session.rs:351-392 | The same for a node with a session; without a session or a timestamp nothing is dropped or remembered. |
| Session.SessionState.MarkPendingProtectAt | crates/bbs-mesh/src/session.rs:427-432 | Exactly the marks younger than a day stay, and the sender is marked now. |
| MeshName.MaxNameBytes | crates/bbs-core/src/mesh_name.rs:35-56 | Flags, shared location and the longest allowed name are together exactly an advert's 32 bytes. |
| Utf8.BoundariesAreWhole | crates/bbs-core/src/mesh_name.rs:167-171 | The codepoint boundaries of an encoded text are exactly the ends of its whole-codepoint prefixes. |
| Utf8.EncodedByExample | crates/bbs-core/src/audit_archive.rs:226-231 | A codepoint of each length and its bytes. |
| Utf8.DecodesExactly | crates/bbs-core/src/audit_archive.rs:226-231 | Exactly the encodings of texts decode, each to its text. |
| Utf8.CutIsText | crates/bbs-core/src/audit_archive.rs:226-231 | The start of an encoded text is a text exactly when it is cut between codepoints, and then it is the start of that text. |
| MeshName.StripRemovesFormat | crates/bbs-core/src/mesh_name.rs:137-141 | What is left has no Format codepoint and every other one. |
| MeshName.StripKeepsTheRest | crates/bbs-core/src/mesh_name.rs:137-141 | A text without Format codepoints is left as it is. |
| MeshName.StripConcat | crates/bbs-core/src/mesh_name.rs:137-141 | Each codepoint is kept or dropped by itself, and the order stays. |
| MeshName.FitIsLongest | crates/bbs-core/src/mesh_name.rs:160-172 | The fitting prefix is the longest one. |
| MeshName.TruncateMeshNodeName | crates/bbs-core/src/mesh_name.rs:160-172 | Going back to a boundary gives the encoding of the longest whole-codepoint prefix of the stripped name in the budget, and the advert fits. |
| MeshName.TruncatedIsLongest | crates/bbs-core/src/mesh_name.rs:143-172 | The result is a prefix of the stripped name, fits, has no Format codepoint, and no longer prefix fits. |
| MeshName.FittingNamesAreKept | crates/bbs-core/src/mesh_name.rs:160-166 | A name that fits and has no Format codepoint is sent as it is. |
| MeshName.TruncationIsIdempotent | crates/bbs-core/src/mesh_name.rs:160-172 | Truncating twice is truncating once. |
| MeshName.CachedNameTruncatesAlike | src/main.rs:1227-1251 | Truncating the copy cached at startup to the current budget is truncating the configured name to it. |
| MeshName.ValidateMeshNodeName | crates/bbs-core/src/mesh_name.rs:92-108 | Accepted exactly if not empty, within the budget and without control characters; emptiness and length are reported first, with the sizes. |
| MeshName.FirstControl | crates/bbs-core/src/mesh_name.rs:104-106 | The reported control character is the first. |
| MeshName.TruncatedValidates | crates/bbs-core/src/mesh_name.rs:92-172 | What goes on the air is never too long, and empty exactly if every codepoint of the name is a Format one. |
| RadioStream.WrapToRadio | crates/bbs-meshtastic/src/stream.rs:269-278 | A frame is the two start bytes, the payload's length with the high byte first, and the payload. |
| RadioStream.Writer.WriteToRadio | crates/bbs-meshtastic/src/stream.rs:280-289 | The whole frame goes out if the payload has at most 512 bytes, and nothing otherwise. |
| RadioStream.Reader.ReadExact | crates/bbs-meshtastic/src/stream.rs:320-347 | Exactly the asked number of bytes is taken, or the input has ended. |
| RadioStream.Reader.ReadFromRadio | crates/bbs-meshtastic/src/stream.rs:320-347 | The reader's loop returns what the stream parses to and leaves exactly the rest. |
| RadioStream.FrameRoundTrip | crates/bbs-meshtastic/src/stream.rs:269-347 | A written frame is read back, and nothing after it is touched. |
| RadioStream.StreamRoundTrip | crates/bbs-meshtastic/src/stream.rs:269-347 | Reading again and again what was written gives exactly the payloads in order and takes every byte. |
| RadioStream.ReadIsWritten | crates/bbs-meshtastic/src/stream.rs:269-347 | A frame is returned exactly if the stream is noise that the scan skips, that very frame as written, with at most 512 bytes, and the rest. |
| RadioStream.CutFrameIsEof | crates/bbs-meshtastic/src/stream.rs:333-344 | A frame that is cut off is an end of input, however much of it has come. |
| RadioStream.IdleNoiseIsSkipped | crates/bbs-meshtastic/src/stream.rs:321-331 | Noise that the scan takes back to its start changes nothing. |
| RadioStream.DanglingStartSwallows | crates/bbs-meshtastic/src/stream.rs:321-331 | Any other headerless noise swallows the byte behind it. |
| RadioStream.IdleExactlyWhenEven | crates/bbs-meshtastic/src/stream.rs:321-331 | Headerless noise is taken back to the start exactly if it ends in an even number of start bytes. |
| RadioStream.FrameAfterNoise | crates/bbs-meshtastic/src/stream.rs:320-347 | A frame behind headerless noise is read intact exactly when the noise ends in an even number of start bytes. |
| RadioStream.StrayStartByteLosesTheFrame | crates/bbs-meshtastic/src/stream.rs:321-331 | One stray start byte before a frame loses it. |
| RadioStream.OverlongIsRefused | crates/bbs-meshtastic/src/stream.rs:333-341 | A length above 512 is always an error, whatever follows. |
| RadioStream.RefusedIsOverlong | crates/bbs-meshtastic/src/stream.rs:333-341 | Only a header with a length above 512 is an error. |
| AuditArchive.ArchiveNamesAreRecognised | crates/bbs-core/src/audit_archive.rs:32-58 | A printed name is recognised exactly for a year from 0 to 9999 and a month from 1 to 12. |
| AuditArchive.OnlyArchiveNamesAreRecognised | crates/bbs-core/src/audit_archive.rs:32-52 | Every recognised name is the printed name of such a year and month. |
| AuditArchive.NameByExample | crates/bbs-core/src/audit_archive.rs:54-58 | The archive of September 2026 is `audit-2026-09.zip`. |
| AuditArchive.PassesEscape | crates/bbs-core/src/audit_archive.rs:76-79 | The three replacement passes do together what escaping each character by itself does. |
| AuditArchive.EscapesWrittenOut | crates/bbs-core/src/audit_archive.rs:76-79 | Backslash, tab and newline are written as a backslash and a backslash, t or n, and every other character as itself. |
| AuditArchive.UnescapeInverts | crates/bbs-core/src/audit_archive.rs:76-79 | The escape can be undone. |
| AuditArchive.EscapedIsOneField | crates/bbs-core/src/audit_archive.rs:62-66 | An escaped text holds neither tab nor newline. |
| AuditArchive.FieldsAreFaithful | crates/bbs-core/src/audit_archive.rs:72-82 | Two fields print alike exactly when they show the same: only absence, the empty text and a lone hyphen are confused. |
| AuditArchive.EntryIsSixColumns | crates/bbs-core/src/audit_archive.rs:83-91 | A line splits back into the entry's six columns exactly when the timestamp has no tab. |
| AuditArchive.ColumnsGiveBack | crates/bbs-core/src/audit_archive.rs:83-91 | The columns of a line are the id's numeral, the timestamp, and what unescapes to actor, action, target and detail, in this order, a hyphen standing for nothing. |
| AuditArchive.EntryIsOneLine | crates/bbs-core/src/audit_archive.rs:62-91 | An entry is one line exactly when its timestamp is. |
| AuditArchive.BodyIsOneLineEach | crates/bbs-core/src/audit_archive.rs:150-163 | A body splits back into exactly one line per entry exactly when no timestamp holds a newline. |
| AuditArchive.WriteBatch | crates/bbs-core/src/audit_archive.rs:150-163 | The batch loop writes each entry's line in order and counts them. |
| AuditHeader.RangeParsesBack | crates/bbs-core/src/audit_archive.rs:249-263 | A printed range gives its last id exactly if it is a range of non-negative ids. |
| AuditHeader.RangeLineParses | crates/bbs-core/src/audit_archive.rs:249-276 | The header's line gives the last id under the same condition. |
| AuditHeader.ArchivedThrough | crates/bbs-core/src/audit_archive.rs:208-242 | The bounded read fails if it is no text; otherwise the loop finds the first range among the leading comment lines. |
| AuditHeader.ScanFindsFirst | crates/bbs-core/src/audit_archive.rs:233-241 | The result is that of the first line that is taken, if every line up to it starts with a hash, and nothing otherwise. |
| AuditHeader.HeadOfText | crates/bbs-core/src/audit_archive.rs:226-231 | The bounded read sees the header and the start of what follows exactly if it does not end inside a codepoint. |
| AuditHeader.HeaderWrittenOut | crates/bbs-core/src/audit_archive.rs:267-276 | The second line of the header is the time and the third the count and range. |
| AuditHeader.HeaderReadsBack | crates/bbs-core/src/audit_archive.rs:208-276 | Reading an archive back returns its last id exactly if 0 <= first <= last and the content ends within 8 KiB or has a codepoint boundary there. |
| AuditHeader.StraddlingNameIsUnreadable | crates/bbs-core/src/audit_archive.rs:226-231 | Behind every header that fits there is an entry with which the archive cannot be read back. |
| AuditHeader.AcceptedExactly | crates/bbs-core/src/audit_archive.rs:249-263 | A line is taken exactly if it spells three numbers in the header's form, with an optional plus, any leading zeros and the ids in order, and gives the last of them. |
| AuditHeader.PrintedExactlyWhenPlain | crates/bbs-core/src/audit_archive.rs:244-276 | Of the lines that are taken, the writer prints exactly those without a sign or leading zero in front of any number. |
| AuditHeader.SomeOthersAreTaken | crates/bbs-core/src/audit_archive.rs:244-263 | Lines with leading zeros, a plus and a minus zero that are taken and never printed. |

## Left out

- RestoreApply.RestoreSidecars: a rename back that is refused is only logged by the program, which goes on; the sidecar then stays under its aside name.
- RestoreApply.CheckpointWal: SQLite's checkpoint is an oracle with the answers the program distinguishes.
- RestoreStartup.SnapshotSurvives: a start counts as having taken a snapshot as soon as it has chosen its name, whether or not the copy succeeded.
- DeliveryStats.DeliveryStats.WithNode: the clock does not go back; the two readings of it in one call are one.
- Session.SessionState.DedupByTimestampAt: the clock does not go back, as the program's comment requires.
- SendTracker.AckWait: the smallest wait is at most the largest; the program panics otherwise.
- SendTracker.RetransmissionIsBounded: the caller is the transport's retry loop; it may drop what it is handed back, but not send it twice.
- AuditHeader.HeaderReadsBack: the time of the archive, which the host prints, has no newline, and the header itself lies within the 8 KiB that are read.
- ConfigLock.LocksCoincide: lock files are neither links nor replaced, and one entry is one file.
- ConfigLock.SafeExactlyWhenSpellingsAgree: each edit may find any of the given states of the file system; in which order they come about is not modelled.
- Directory syncs and the durability of directory entries: renames are taken to be durable in their order.
- Permissions, owners, symbolic links and free space: whether such a check passes is nondeterministic.
- Collisions between the configured database and config paths and the fixed names in the data directory.
- TOML text: parsing and printing are a parameter, and comments, formatting and key order are not modelled.
- The mutable walk of `set_path` and `remove_path` inside one document is modelled on values; the loop over the keys is a method.
- Config edits that do not hold the lock around reading: the setup wizard writes without it, and `config location` validates a copy loaded before it (src/main.rs:1798, src/main.rs:1878-1891, src/setup.rs:1286). No invariant across such edits is claimed.
- Power loss between the steps of a config edit: `ConfigLock` has processes that die; durability of the atomic write is in `RestoreConfig`.
- The calendar: the ISO 8601 week of a date is a parameter, and that weeks follow dates is a premise where it is needed.
- The Unicode category Format is a parameter.
- Overflow of 64-bit counters and snapshot stamps, and of 32-bit CRCs and timestamps: they are natural numbers.
- Protobuf: payloads are bytes, so the error for a payload that does not decode is not modelled.
- Zip reading and writing, and the temporary file of an archive.
- Fields of a session and of the delivery counters that are only set and read: public keys, text-only dedup, the dropped, given-up and inbound totals, and the catch-up cooldown.
- Staging a restore, bundling a backup, name and content checks, presets, command parsing, transports and the web interface.

/** Activating the currency schema: back up, migrate, and restore when anything fails. */
module CurrencyActivation {
  import opened Wrappers

  /** The rows of a database. */
  type Content = map<string, string>

  /** Changes still in the write-ahead log: a new value for a row, or its removal. */
  type Frames = map<string, Option<string>>

  const FORMAT_ROW := "application_format"

  datatype Files = Files(main: Content, wal: Frames, backup: Option<Content>)

  /** What a reader of the database sees: the main file under the changes of its log. */
  function Overlay(main: Content, wal: Frames): Content {
    map k | k in main.Keys + wal.Keys && (k in wal ==> wal[k].Some?) :: if k in wal then wal[k].value else main[k]
  }

  function Logical(f: Files): Content {
    Overlay(f.main, f.wal)
  }

  predicate FormatPresent(c: Content) {
    FORMAT_ROW in c
  }

  /** Everything the environment decides in one launch. */
  datatype Launch = Launch(
    openFails: bool, formatCheckFails: bool,
    removeBackupFails: bool, connectFails: bool, checkpointFails: bool, checkpointBusy: bool,
    vacuumFails: bool, partialBackup: Option<Content>, failAfterBackup: bool,
    migration: Frames, migrationFails: bool, verifyFails: bool, failAfterMigrate: bool,
    closeCheckpoints: bool, walRemoved: bool, copyFails: bool, partialMain: Content)

  // ----- Reference -----

  /** Moves the log into the main file. */
  function Checkpointed(f: Files, happens: bool): Files {
    if happens then f.(main := Logical(f), wal := map[]) else f
  }

  datatype BackupResult = BackupOk(files: Files) | BackupFailed(files: Files)

  function CreateBackup(f: Files, l: Launch): BackupResult {
    if f.backup.Some? && l.removeBackupFails then BackupFailed(f)
    else
      var cleared := f.(backup := None);
      if l.connectFails || l.checkpointFails then BackupFailed(cleared)
      else
        var flushed := Checkpointed(cleared, !l.checkpointBusy);
        if l.vacuumFails then BackupFailed(flushed.(backup := l.partialBackup))
        else BackupOk(flushed.(backup := Some(Logical(flushed))))
  }

  /** Drops the log and copies the backup over the main file. A log that cannot be removed is left without an error. */
  function Restored(f: Files, l: Launch): Files {
    if f.backup.None? then f
    else f.(wal := if l.walRemoved then map[] else f.wal, main := if l.copyFails then l.partialMain else f.backup.value)
  }

  function Migrated(f: Files, l: Launch): Files {
    f.(wal := map k | k in f.wal.Keys + l.migration.Keys :: if k in l.migration then l.migration[k] else f.wal[k])
  }

  predicate MigrationSucceeds(f: Files, l: Launch) {
    !l.migrationFails && !l.verifyFails && FormatPresent(Logical(Migrated(f, l)))
  }

  datatype ActivationResult = ActivationResult(files: Files, ok: bool, migrated: bool)

  /** Every failing exit drops the pool first, and closing it may checkpoint the log. */
  function Activate(f: Files, l: Launch): ActivationResult {
    if l.openFails then ActivationResult(f, false, false)
    else if l.formatCheckFails then ActivationResult(Checkpointed(f, l.closeCheckpoints), false, false)
    else if FormatPresent(Logical(f)) then
      if MigrationSucceeds(f, l) then ActivationResult(Migrated(f, l), true, true)
      else ActivationResult(Checkpointed(Migrated(f, l), l.closeCheckpoints), false, true)
    else match CreateBackup(f, l)
      case BackupFailed(g) => ActivationResult(Checkpointed(g, l.closeCheckpoints), false, false)
      case BackupOk(g) =>
        if l.failAfterBackup then ActivationResult(Checkpointed(g, l.closeCheckpoints), false, false)
        else if MigrationSucceeds(g, l) && !l.failAfterMigrate then ActivationResult(Migrated(g, l), true, true)
        else ActivationResult(Restored(Checkpointed(Migrated(g, l), l.closeCheckpoints), l), false, true)
  }

  // ----- The protocol on the files -----

  class DatabaseFile {
    var main: Content
    var wal: Frames
    var backup: Option<Content>

    ghost function View(): Files
      reads this
    {
      Files(main, wal, backup)
    }

    method Checkpoint()
      modifies this`main, this`wal
      ensures View() == Checkpointed(old(View()), true)
    {
      main, wal := Overlay(main, wal), map[];
    }

    /** No reader sees a difference, whatever fails, and a backup that succeeds holds what a reader sees. */
    method CreatePreCurrencyBackup(l: Launch) returns (ok: bool)
      modifies this
      ensures Logical(View()) == old(Logical(View()))
      ensures ok ==> backup == Some(Logical(View()))
      ensures ok <==>
        !(old(backup).Some? && l.removeBackupFails) && !l.connectFails && !l.checkpointFails && !l.vacuumFails
      ensures CreateBackup(old(View()), l) == if ok then BackupOk(View()) else BackupFailed(View())
    {
      BackupKeepsContent(View(), l);
      if backup.Some? {
        if l.removeBackupFails { return false; }
        backup := None;
      }
      if l.connectFails || l.checkpointFails { return false; }
      if !l.checkpointBusy { Checkpoint(); }
      if l.vacuumFails {
        backup := l.partialBackup;
        return false;
      }
      backup := Some(Overlay(main, wal));
      return true;
    }

    method RunMigrations(l: Launch)
      modifies this`wal
      ensures View() == Migrated(old(View()), l)
    {
      wal := map k | k in wal.Keys + l.migration.Keys :: if k in l.migration then l.migration[k] else wal[k];
    }

    /** The backup stays, and after a completed copy a reader sees it exactly when the log is gone or agrees with it. */
    method RestorePreCurrencyBackup(l: Launch) returns (ok: bool)
      modifies this
      ensures backup == old(backup) && (ok <==> backup.Some? && !l.copyFails)
      ensures ok ==> (Logical(View()) == backup.value <==> l.walRemoved || AddsNothing(backup.value, old(wal)))
      ensures View() == Restored(old(View()), l)
    {
      if backup.None? { return false; }
      if !l.copyFails { RestoreIff(View(), l); }
      if l.walRemoved { wal := map[]; }
      if l.copyFails {
        main := l.partialMain;
        return false;
      }
      main := backup.value;
      return true;
    }

    method DropPool(l: Launch)
      modifies this`main, this`wal
      ensures View() == Checkpointed(old(View()), l.closeCheckpoints)
    {
      if l.closeCheckpoints { Checkpoint(); }
    }

    method ActivateCurrencySchema(l: Launch) returns (ok: bool, ghost migrated: bool)
      modifies this
      ensures KeepsPromises(old(View()), l, ActivationResult(View(), ok, migrated))
      ensures ActivationResult(View(), ok, migrated) == Activate(old(View()), l)
    {
      LaunchKeepsPromises(View(), l);
      migrated := false;
      if l.openFails { return false, migrated; }
      if l.formatCheckFails {
        DropPool(l);
        return false, migrated;
      }
      var needsActivation := !FormatPresent(Overlay(main, wal));
      if needsActivation {
        ok := CreatePreCurrencyBackup(l);
        if !ok || l.failAfterBackup {
          DropPool(l);
          return false, migrated;
        }
      }
      migrated := true;
      RunMigrations(l);
      if l.migrationFails || l.verifyFails || !FormatPresent(Overlay(main, wal)) {
        DropPool(l);
        if needsActivation { var _ := RestorePreCurrencyBackup(l); }
        return false, migrated;
      }
      if needsActivation && l.failAfterMigrate {
        DropPool(l);
        var _ := RestorePreCurrencyBackup(l);
        return false, migrated;
      }
      return true, migrated;
    }
  }

  // ----- Failure atomicity -----

  lemma OverlayNothing(c: Content)
    ensures Overlay(c, map[]) == c
  {
  }

  lemma BackupKeepsContent(f: Files, l: Launch)
    ensures Logical(CreateBackup(f, l).files) == Logical(f)
    ensures CreateBackup(f, l).BackupOk? ==> CreateBackup(f, l).files.backup == Some(Logical(f))
  {
    OverlayNothing(Logical(f));
  }

  /** The restore itself works: the stale log is gone and the copy completes. */
  predicate RestoreWorks(l: Launch) {
    l.walRemoved && !l.copyFails
  }

  /** A failed activation leaves the content as it found it, the backup left once the migration has begun is that
      content, and a successful one has recorded the format. */
  lemma LaunchIsAtomic(f: Files, l: Launch)
    requires !FormatPresent(Logical(f)) && RestoreWorks(l)
    ensures var r := Activate(f, l);
      && (!r.ok ==> Logical(r.files) == Logical(f))
      && (r.migrated ==> r.files.backup == Some(Logical(f)))
      && (r.ok ==> r.migrated && FormatPresent(Logical(r.files)))
  {
    LaunchOutcome(f, l);
  }

  /** The same for each promise under what it alone needs. */
  lemma LaunchOutcome(f: Files, l: Launch)
    ensures var r := Activate(f, l);
      && (r.ok ==> FormatPresent(Logical(r.files)))
      && (!FormatPresent(Logical(f)) && r.migrated ==> r.files.backup == Some(Logical(f)))
      && (!FormatPresent(Logical(f)) && RestoreWorks(l) && !r.ok ==> Logical(r.files) == Logical(f))
  {
    BackupKeepsContent(f, l);
    OverlayNothing(Logical(f));
    var b := CreateBackup(f, l);
    if b.BackupOk? { OverlayNothing(Logical(b.files)); }
  }

  lemma MigratedContent(f: Files, l: Launch)
    ensures Logical(Migrated(f, l)) == Overlay(Logical(f), l.migration)
  {
  }

  /** No step of the launch fails: a database without the format marker needs its backup, and the marker has to be
      there after the migration. */
  predicate LaunchSucceeds(content: Content, backup: Option<Content>, l: Launch) {
    && !l.openFails && !l.formatCheckFails && !l.migrationFails && !l.verifyFails
    && "application_format" in Overlay(content, l.migration)
    && ("application_format" !in content ==>
          && (backup.None? || !l.removeBackupFails) && !l.connectFails && !l.checkpointFails && !l.vacuumFails
          && !l.failAfterBackup && !l.failAfterMigrate)
  }

  /** A launch succeeds exactly when no step fails, and has then done nothing to the content but migrate it. */
  lemma LaunchSucceedsIff(f: Files, l: Launch)
    ensures Activate(f, l).ok <==> LaunchSucceeds(Logical(f), f.backup, l)
    ensures Activate(f, l).ok ==>
      Activate(f, l).migrated && Logical(Activate(f, l).files) == Overlay(Logical(f), l.migration)
  {
    BackupKeepsContent(f, l);
    MigratedContent(f, l);
    MigratedContent(CreateBackup(f, l).files, l);
  }

  /** A database that has the format marker keeps its backup, and is never restored from it: a launch leaves its
      content migrated, or alone if it does not come to that. */
  lemma ActivatedStays(f: Files, l: Launch)
    ensures "application_format" in Logical(f) ==>
      var r := Activate(f, l);
      && r.files.backup == f.backup && (r.ok ==> r.migrated)
      && Logical(r.files) == if r.migrated then Overlay(Logical(f), l.migration) else Logical(f)
  {
    MigratedContent(f, l);
    OverlayNothing(Logical(f));
    OverlayNothing(Logical(Migrated(f, l)));
  }

  /** What a launch promises. It succeeds exactly when no step fails, and has then done nothing to the content but
      migrate it, which recorded the format. A failed first activation leaves what a reader sees as it was, if the
      restore works, and once the migration has begun the backup holds it. An activated database keeps its backup,
      and is never restored from it. */
  predicate KeepsPromises(before: Files, l: Launch, r: ActivationResult) {
    var content := Logical(before);
    && (r.ok <==> LaunchSucceeds(content, before.backup, l))
    && (r.ok ==> r.migrated && FormatPresent(Logical(r.files)) && Logical(r.files) == Overlay(content, l.migration))
    && ("application_format" !in content && !r.ok && RestoreWorks(l) ==> Logical(r.files) == content)
    && ("application_format" !in content && r.migrated ==> r.files.backup == Some(content))
    && ("application_format" in content ==> r.files.backup == before.backup)
    && ("application_format" in content ==>
          Logical(r.files) == if r.migrated then Overlay(content, l.migration) else content)
  }

  lemma LaunchKeepsPromises(f: Files, l: Launch)
    ensures KeepsPromises(f, l, Activate(f, l))
  {
    LaunchOutcome(f, l);
    LaunchSucceedsIff(f, l);
    ActivatedStays(f, l);
  }

  /** The last result of launching until one succeeds or the list ends. */
  function LaunchUntil(f: Files, launches: seq<Launch>): ActivationResult
    requires launches != []
    decreases |launches|
  {
    var r := Activate(f, launches[0]);
    if r.ok || |launches| == 1 then r else LaunchUntil(r.files, launches[1..])
  }

  /** Over any sequence of launches with any failures but a failing restore, the content stays what it was before
      the first of them until one succeeds, and then the format is recorded. If the last launch began to migrate, the
      backup is the content from before the first. */
  lemma {:induction false} LaunchesAreAtomic(f: Files, launches: seq<Launch>)
    requires !FormatPresent(Logical(f)) && launches != []
    requires forall i :: 0 <= i < |launches| ==> RestoreWorks(launches[i])
    ensures var r := LaunchUntil(f, launches);
      && (!r.ok ==> Logical(r.files) == Logical(f))
      && (r.migrated ==> r.files.backup == Some(Logical(f)))
      && (r.ok ==> r.migrated && FormatPresent(Logical(r.files)))
    decreases |launches|
  {
    LaunchIsAtomic(f, launches[0]);
    var r := Activate(f, launches[0]);
    if !r.ok && |launches| > 1 { LaunchesAreAtomic(r.files, launches[1..]); }
  }

  /** The log says nothing the main file does not already say. */
  predicate AddsNothing(main: Content, wal: Frames) {
    forall k :: k in wal ==> if wal[k].Some? then k in main && main[k] == wal[k].value else k !in main
  }

  lemma OverlayUnchangedIff(main: Content, wal: Frames)
    ensures Overlay(main, wal) == main <==> AddsNothing(main, wal)
  {
    if Overlay(main, wal) == main {
      forall k | k in wal
        ensures if wal[k].Some? then k in main && main[k] == wal[k].value else k !in main
      {
        assert (k in Overlay(main, wal)) == wal[k].Some?;
      }
    }
  }

  /** Restoring brings the backup back exactly when the log was removed or held nothing that differs from it: the
      code ignores a failing removal, and the next reader replays a stale log over the copied file. */
  lemma RestoreIff(f: Files, l: Launch)
    requires f.backup.Some? && !l.copyFails
    ensures Logical(Restored(f, l)) == f.backup.value <==> l.walRemoved || AddsNothing(f.backup.value, f.wal)
  {
    OverlayNothing(f.backup.value);
    OverlayUnchangedIff(f.backup.value, f.wal);
  }

  /** What the log already says is part of the content, so only what the migration wrote can add to it. */
  lemma MigratedAddsNothingIff(f: Files, l: Launch)
    requires CreateBackup(f, l).BackupOk?
    ensures AddsNothing(Logical(f), Migrated(CreateBackup(f, l).files, l).wal) <==> AddsNothing(Logical(f), l.migration)
  {
    var wal, merged := CreateBackup(f, l).files.wal, Migrated(CreateBackup(f, l).files, l).wal;
    assert AddsNothing(Logical(f), wal);
    if AddsNothing(Logical(f), merged) {
      forall k | k in l.migration
        ensures if l.migration[k].Some? then k in Logical(f) && Logical(f)[k] == l.migration[k].value
          else k !in Logical(f)
      {
        assert k in merged && merged[k] == l.migration[k];
      }
    }
  }

  /** A launch that fails after migrating gives the content back exactly when its stale log is gone, because it was
      removed or because closing the pool had emptied it, or the migration had changed no row. */
  lemma FailedLaunchRestoresIff(f: Files, l: Launch)
    requires !FormatPresent(Logical(f)) && !l.copyFails
    requires !Activate(f, l).ok && Activate(f, l).migrated
    ensures Logical(Activate(f, l).files) == Logical(f) <==>
      l.walRemoved || l.closeCheckpoints || AddsNothing(Logical(f), l.migration)
  {
    BackupKeepsContent(f, l);
    var migrated := Migrated(CreateBackup(f, l).files, l);
    var dropped := Checkpointed(migrated, l.closeCheckpoints);
    assert Activate(f, l).files == Restored(dropped, l);
    RestoreIff(dropped, l);
    MigratedAddsNothingIff(f, l);
  }

  /** A failed migration that renames the only row, and a log that cannot be removed: the new name comes back. */
  function StaleLaunch(): (Files, Launch) {
    (Files(map["account" := "old name"], map[], None),
     Launch(false, false, false, false, false, false, false, None, false,
       map["account" := Some("new name")], true, false, false, false, false, false, map[]))
  }

  lemma StaleLogComesBack()
    ensures var (f, l) := StaleLaunch();
      && !FormatPresent(Logical(f)) && !Activate(f, l).ok && !l.copyFails
      && Logical(f) == map["account" := "old name"]
      && Logical(Activate(f, l).files) == map["account" := "new name"]
  {
    var (f, l) := StaleLaunch();
    OverlayNothing(f.main);
    var g := CreateBackup(f, l).files;
    assert Migrated(g, l).wal == l.migration;
    assert Activate(f, l).files == Restored(Migrated(g, l), l);
  }
}

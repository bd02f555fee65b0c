/** Which database file the store opens (db.js): the current file
    (fuara.db) or the legacy one (orbit.db). The file system is reduced to
    what the decision reads of each file: whether it exists, whether it
    opens as a database, whether it has a `tasks` table, how many
    top-level tasks that table holds and the file's modification time. */
module DbPath {
  import opened Common

  /** `opens` is whether the whole read succeeds: opening the file
      read-only and running both queries without an exception (a `tasks`
      table without `parent_id` makes the count query throw). */
  datatype DbFile =
    | Missing
    | Present(opens: bool, hasTasksTable: bool, topLevelTasks: nat, mtime: int)

  /** The two candidate files. */
  datatype Disk = Disk(current: DbFile, legacy: DbFile)

  datatype WhichDb = Current | Legacy

  function FileOf(d: Disk, w: WhichDb): DbFile
  {
    if w == Current then d.current else d.legacy
  }

  /** readParentTaskCount: -1 for a missing file or one that fails to open
      or query, 0 when there is no `tasks` table, otherwise the number of
      rows with a NULL parent. */
  function ParentTaskCount(f: DbFile): (c: int)
    ensures c == -1 <==> f.Missing? || !f.opens
    ensures c >= -1
    ensures c > 0 ==> f.Present? && f.opens && f.hasTasksTable && c == f.topLevelTasks
    ensures f.Present? && f.opens ==> c == (if f.hasTasksTable then f.topLevelTasks else 0)
  {
    match f
    case Missing => -1
    case Present(opens, hasTasksTable, n, _) =>
      if !opens then -1 else if !hasTasksTable then 0 else n
  }

  /** migrateDbFileIfNeeded: when only the legacy file exists it is renamed
      to the current name. `renamed` is whether the rename succeeded; a
      failure is swallowed and leaves the disk as it was. */
  function MigrateDbFile(d: Disk, renamed: bool): (r: Disk)
    ensures d.current.Present? ==> r == d
    ensures d.legacy.Missing? ==> r == d
    ensures !renamed ==> r == d
    ensures d.current.Missing? && d.legacy.Present? && renamed ==> r == Disk(d.legacy, Missing)
  {
    if d.current.Present? then d
    else if d.legacy.Missing? then d
    else if renamed then Disk(d.legacy, Missing)
    else d
  }

  /** pickDataRichDbPath: the file with strictly more top-level tasks, or
      none when the counts are equal. */
  function PickDataRich(d: Disk): (r: Option<WhichDb>)
  {
    var currentCount := ParentTaskCount(d.current);
    var legacyCount := ParentTaskCount(d.legacy);
    if currentCount == legacyCount then None
    else if legacyCount > currentCount then Some(Legacy) else Some(Current)
  }

  /** pickNewerDbPath: the legacy file only when it is strictly newer. */
  function PickNewer(d: Disk): (r: WhichDb)
    requires d.current.Present? && d.legacy.Present?
  {
    if d.legacy.mtime > d.current.mtime then Legacy else Current
  }

  /** resolveDbPath over the disk after migration. */
  function ChooseDbFile(d: Disk): (r: WhichDb)
  {
    if d.current.Present? && d.legacy.Present? then
      match PickDataRich(d)
      case Some(w) => w
      case None => PickNewer(d)
    else if d.current.Present? then Current
    else if d.legacy.Present? then Legacy
    else Current
  }

  /** resolveDbPath: migrate, then choose. */
  function ResolveDbPath(d: Disk, renamed: bool): (r: (Disk, WhichDb))
    ensures r.0 == MigrateDbFile(d, renamed)
    ensures d.current.Present? || d.legacy.Present? ==> FileOf(r.0, r.1).Present?
    ensures d.current.Missing? && d.legacy.Missing? ==> r.1 == Current && r.0 == d
    ensures FileOf(r.0, r.1) == FileOf(d, ChooseDbFile(d))
  {
    var after := MigrateDbFile(d, renamed);
    (after, ChooseDbFile(after))
  }

  // ---- properties ----

  /** The data-rich pick is decided by the counts alone, in both directions. */
  lemma PickDataRichByCount(d: Disk)
    ensures PickDataRich(d) == None <==> ParentTaskCount(d.current) == ParentTaskCount(d.legacy)
    ensures PickDataRich(d) == Some(Legacy) <==> ParentTaskCount(d.legacy) > ParentTaskCount(d.current)
    ensures PickDataRich(d) == Some(Current) <==> ParentTaskCount(d.current) > ParentTaskCount(d.legacy)
  {
  }

  /** A file that opens always beats one that does not, even when it has
      no tasks at all. */
  lemma OpeningFileWins(d: Disk, w: WhichDb)
    requires FileOf(d, w).Present? && FileOf(d, w).opens
    requires var other := FileOf(d, if w == Current then Legacy else Current);
      other.Present? && !other.opens
    ensures ChooseDbFile(d) == w
  {
  }

  /** With both files present, the legacy file is chosen exactly when it
      has strictly more top-level tasks, or as many and a strictly newer
      modification time. */
  lemma BothPresentChoice(d: Disk)
    requires d.current.Present? && d.legacy.Present?
    ensures ChooseDbFile(d) == Legacy <==>
      ParentTaskCount(d.legacy) > ParentTaskCount(d.current)
      || (ParentTaskCount(d.legacy) == ParentTaskCount(d.current) && d.legacy.mtime > d.current.mtime)
  {
  }

  /** The chosen file exists whenever either file does; with neither, the
      current path is used (and will be created). */
  lemma ChosenFileExists(d: Disk)
    ensures d.current.Present? || d.legacy.Present? ==> FileOf(d, ChooseDbFile(d)).Present?
    ensures d.current.Missing? && d.legacy.Missing? ==> ChooseDbFile(d) == Current
  {
  }

  /** After a successful migration the current path holds what was the
      legacy file, and it is the one opened. */
  lemma MigratedLegacyIsOpened(d: Disk)
    requires d.current.Missing? && d.legacy.Present?
    ensures var (after, w) := ResolveDbPath(d, true);
      w == Current && FileOf(after, w) == d.legacy && after.legacy.Missing?
  {
  }

  /** If the rename fails, the legacy file is still the one opened. */
  lemma FailedMigrationOpensLegacy(d: Disk)
    requires d.current.Missing? && d.legacy.Present?
    ensures var (after, w) := ResolveDbPath(d, false);
      w == Legacy && after == d
  {
  }

  /** Whether or not the rename succeeds, the store opens the same data. */
  lemma MigrationKeepsChosenData(d: Disk, renamed: bool)
    ensures var (after, w) := ResolveDbPath(d, renamed);
      FileOf(after, w) == FileOf(d, ChooseDbFile(d))
  {
  }
}

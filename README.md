# Orbit task store and its two windows, in Dafny

Orbit (the app renamed Fuara on disk) is a desktop to-do app. A SQLite file
holds three tables: `projects`, `tasks` and `notes`. A task can have
subtasks, which are tasks whose `parent_id` names it. The main window lists
tasks by day or by project. It also shows an in-progress panel, a status line
and a calendar of finished work. A small always-on-top "sticker" window lists
today's tasks and can focus a single one. Both windows run a per-task
stopwatch.

This project models three parts of the app:

- **The store** (`db.js`).
  - The tables are sequences of records in rowid order, with their
    AUTOINCREMENT counters, held as fields of the class `Store.TaskStore`.
  - Its methods are `createProject`, `createTask` (with its subtask loop),
    `updateTask`, `deleteTask`, `createNote` and `updateNote`.
  - The read queries (`Queries`) are WHERE predicates followed by an ORDER
    BY. They are evaluated as SQLite does: NULL sorts before INTEGER, which
    sorts before TEXT, and TEXT compares byte-wise (`SqlOrder`).
  - The choice of database file (`DbPath`) is a function of what the
    decision reads from each file.
- **The stopwatch and text helpers** both windows share (`Stopwatch`,
  `Format`): `calcElapsed`, the fields that completion, pause and stop send
  to `updateTask`, `formatSec`, `formatMinutes` / `formatMin`,
  `priorityLabel` and `escAttr`.
- **The views** (`Calendar`, `TaskViews`).
  - The calendar's day grouping, cell preview, month summary and month
    navigation.
  - The pending totals of the status line and the sticker footer.
  - The in-progress selection, `findTaskById`, the expand toggle, subtask
    progress and the sticker's focus mode.

The clock, the local date and the parsing of time stamps into milliseconds
are parameters. Two notes on the source:

- `createTask` stamps `completed_at` from the UTC ISO time
  (`Store.UtcStamp`), while `updateTask` uses local time.
- The two windows classify a stopwatch differently when its stored total is
  negative (`Stopwatch.SwStatesDisagreeOnNegative`).

## Model

| member | source | states |
|---|---|---|
| DbPath.ParentTaskCount | db.js:46-66 | -1 exactly for a missing file or one whose open or queries throw (`opens` stands for the whole try block succeeding); otherwise 0 without a `tasks` table, else exactly the number of top-level tasks |
| DbPath.MigrateDbFile | db.js:24-38 | the legacy file moves to the current name only when the current file is missing, the legacy file exists and the rename succeeds; otherwise the disk is unchanged |
| DbPath.ResolveDbPath | db.js:75-102 | migration happens first; the file opened exists whenever either file did, with neither the current path is used and nothing moves, and the data opened is the data the choice on the original disk names, whether or not the rename succeeded |
| DbPath.PickDataRichByCount | db.js:68-73 | no pick exactly when the two counts are equal; otherwise the file with strictly more top-level tasks, in both directions |
| DbPath.BothPresentChoice | db.js:40-44 | with both files present, legacy is chosen iff it has strictly more top-level tasks, or as many and a strictly newer mtime |
| DbPath.OpeningFileWins | db.js:68-73 | a file that opens beats one that does not, even with no tasks |
| DbPath.ChosenFileExists | db.js:99-101 | the chosen file exists whenever either does; with neither, the current path is used |
| DbPath.MigratedLegacyIsOpened | db.js:24-38 | after a successful rename the current path holds the former legacy file, and it is the one opened |
| DbPath.FailedMigrationOpensLegacy | db.js:34-37 | a failed rename is swallowed and the legacy file is opened |
| DbPath.MigrationKeepsChosenData | db.js:75-102 | whether or not the rename succeeds, the same file contents are opened |
| SqlOrder.SortBy | db.js:316-319 | ORDER BY returns a permutation of the selected rows, sorted by the key |
| SqlOrder.SortByEqualKeys | db.js:363 | rows whose keys all tie come back in rowid order |
| SqlOrder.KeyLeTrans | db.js:316-319 | the lexicographic ORDER BY comparison is transitive |
| Common.CmpStrZero | db.js:311 | TEXT comparison returns 0 exactly for equal strings |
| Queries.Subtasks | db.js:357-365 | getSubtasks returns exactly the rows whose parent is the id, each as often as in the table, oldest first |
| Queries.AttachSubtasks | db.js:367-372 | each parent, in order, carries exactly the rows whose parent it is, as getSubtasks returns them (oldest first) |
| Queries.DateViewRows | db.js:304-320 | exactly the top-level tasks dated that day, or earlier and still pending, within the project when one is given, as a permutation sorted by priority rank, target date and creation time |
| Queries.GetTasksByDate | db.js:304-322 | every listed task passes the date filter; the entries are exactly the date view's rows in its order, each with getSubtasks of it |
| Queries.DateViewPriorityFirst | db.js:317 | in the date view every 'must' task precedes every 'normal' task, which precedes every other |
| Queries.TodayViewRows | db.js:324-341 | exactly the pending top-level tasks that are undated or due by today, in the project when one is given, as a permutation sorted by priority rank, target date descending and creation time |
| Queries.GetTodayTasks | db.js:324-343 | every listed task passes the today filter; the entries are exactly the today view's rows in its order, each with getSubtasks of it |
| Queries.TodayUndatedLast | db.js:338-339 | within one priority, undated tasks come last in the today view |
| Queries.ProjectViewRows | db.js:345-352 | exactly the project's top-level tasks, as a permutation sorted by target date descending, then creation time |
| Queries.GetTasksByProject | db.js:345-355 | every listed task is a top-level task of the project; the entries are exactly the project view's rows in its order, each with getSubtasks of it |
| Queries.SubtaskNeverTopLevel | db.js:304-355 | a subtask never heads an entry of any of the three lists |
| Queries.CompletedRows | db.js:469-487 | exactly the done tasks completed within [start, end), in the project when one is given, oldest completion first |
| Calendar.MonthsTile | db.js:470-473 | a month's query range ends where the next month's begins, with December rolling over to January |
| Store.FindProjectByName | db.js:223-225 | a project found by name has that name; none is returned only when no project has it |
| Store.UtcStampOfIso | db.js:402 | an ISO instant `dateTtime.sss` is stamped as `date time` |
| Store.NewTaskRow | db.js:386-403 | the target date defaults to today, the status to pending and the priority to normal; `completed_at` is set iff the status is done |
| Store.SubtaskRowsShape | db.js:405-421 | each subtask row has the next id, the parent's id, project and date, its own title, pending status, and its own priority, else the parent's, else normal |
| Store.FirstUntitled | db.js:408-421 | the subtask loop inserts every subtask before the first one without a title |
| Store.NewTaskSubtasks | db.js:424-431 | the re-query returns exactly the subtasks just inserted, in insertion order |
| Store.ApplyTaskPatch | db.js:434-454 | each of the nine whitelisted columns is written when its key is given (null clears it), and kept when absent; id, parent, project and creation time never change; `completed_at` is stamped iff the status is set to done, and is otherwise kept |
| Store.NoTaskKeysIffEmpty | db.js:440-451 | no whitelisted key is given exactly when the patch gives none |
| Store.TaskPatchIdempotent | db.js:434-454 | repeating the same update at the same moment changes nothing more |
| Store.ReopenKeepsCompletedAt | db.js:447-449 | setting a status other than done writes the status and keeps the completion stamp |
| Store.EmptyTaskPatchKeepsRow | db.js:451 | an update with no recognised key leaves the row as it was |
| Store.ScanTaskKeys | db.js:440-449 | the `sets` list is the given whitelisted keys in whitelist order, and the stamp is added iff the status is done; both are empty iff nothing was given |
| Store.AnyTaskKeys | db.js:451 | `sets` is non-empty exactly when some whitelisted key is given |
| Store.ApplyNotePatch | db.js:283-294 | title, content, category and project are written when given (null clears them) and kept when absent; `pinned` becomes 1 for true, 0 for false or null, and is kept when absent; id and creation time are kept and `updated_at` is refreshed |
| Store.NoNoteKeysIffEmpty | db.js:283-290 | no whitelisted note key is given exactly when the patch gives none |
| Store.ScanNoteKeys | db.js:283-290 | the given whitelisted keys in order; empty iff nothing was given |
| Store.AnyNoteKeys | db.js:290 | `sets` is non-empty exactly when some whitelisted note key is given |
| Store.Cascade | db.js:463-467 | no kept row is the task or its child; every row not removed is kept; unrelated top-level tasks are kept |
| Store.CascadeClosed | db.js:463-467 | with parents before children, no kept row points at a removed one |
| Store.CascadeKeepsParents | db.js:463-467 | after deleteTask every parent reference still names an existing row |
| Store.CascadeKeepsWellFormed | db.js:463-467 | deleteTask keeps the table's rowid and foreign-key constraints |
| Store.CascadeOrdered | db.js:463-467 | the kept rows stay in rowid order |
| Store.CascadeRemovesBelow | db.js:463-467 | with ascending rowids and parents older than children, the kept rows are exactly the rows not under the task (the task, its children, their children, ...), in their original order, and the removed ids are exactly those rows' ids |
| Store.CascadeKeepsOutsideBelow | db.js:463-467 | in a well-formed table deleteTask keeps a row iff it does not lie under the task |
| Store.AppendKeepsWellFormed | db.js:390-403 | inserting under the next rowid, with an existing parent and project, keeps the table well formed |
| Store.PatchKeepsTasksWellFormed | db.js:454 | rewriting a row without touching its id, parent or project keeps the table well formed |
| Store.InsertSubtasks | db.js:407-422 | the subtasks are inserted in order with consecutive ids, up to the first refused one, and the table stays well formed |
| Store.InsertTask | db.js:390-431 | the task row, then its subtasks; when all were inserted, the re-query returns exactly them |
| Store.TaskStore.constructor | db.js:179-215 | empty tables, every counter at 1 |
| Store.TaskStore.CreateProject | db.js:227-232 | NOT NULL and UNIQUE refuse a missing or repeated name and change nothing; otherwise one row is appended under the next id, with empty folder path and tech stack stored as NULL |
| Store.TaskStore.ResolveProject | db.js:377-384 | an explicit truthy project id wins; otherwise a named project is looked up and created when missing |
| Store.TaskStore.CreateTask | db.js:374-432 | refusals (no title, unknown parent, unknown project) change no task; otherwise the task row and its subtask rows are appended, with an error if a subtask has no title; the result is the task with its subtasks |
| Store.TaskStore.InsertTaskTree | db.js:390-431 | the inserts after the project is resolved: the row and the subtasks before the first untitled one |
| Store.TaskStore.UpdateTask | db.js:434-461 | null iff no whitelisted key; undefined iff the id is missing; a NOT NULL refusal for a null title; otherwise exactly that row is rewritten by the patch |
| Store.TaskStore.DeleteTask | db.js:463-467 | the new table is the old one with exactly the rows under the task removed, order kept; returns 1 iff the task existed |
| Store.TaskStore.CreateNote | db.js:258-275 | a missing title is refused; otherwise a note is appended with empty content as NULL, category defaulting to memo and pinned as 0/1 |
| Store.TaskStore.UpdateNote | db.js:277-296 | null iff no whitelisted key; undefined iff a key is given and the id is missing; a NOT NULL refusal iff the note exists and the title is null; otherwise exactly that row is rewritten by the patch |
| Stopwatch.CalcElapsed | windows/main/renderer.js:833-837 | never below the base; equal to it with no start or a start in the future; otherwise base plus the whole seconds since the start |
| Stopwatch.CalcElapsedMonotone | windows/sticker/renderer.js:395-399 | the running total never decreases as the clock advances |
| Stopwatch.ActualMinutes | windows/main/renderer.js:857 | present iff the total is positive, and then the least whole number of minutes covering it |
| Stopwatch.CompletionPatch | windows/sticker/renderer.js:430-438 | sends done, elapsed 0 and a null start; sends actual minutes only when time was recorded; sends nothing else |
| Stopwatch.CompleteTaskWithStopwatch | windows/main/renderer.js:853-861 | the completed row is done, stamped, shows an idle stopwatch, has covering actual minutes when time was recorded, and keeps its title, notes, estimate, priority and date |
| Stopwatch.PausePatch | windows/main/renderer.js:873-879 | stores the computed total and clears the start, and nothing else |
| Stopwatch.PauseKeepsTotal | windows/sticker/renderer.js:419-424 | after a pause the stored total is at least the old one and the clock is stopped; status, completion and actual minutes are kept |
| Stopwatch.StopClears | windows/sticker/renderer.js:426-428 | after a stop, both windows show the stopwatch as idle; status and completion are kept |
| Stopwatch.StartPatch | windows/sticker/renderer.js:415-417 | stamps the start and sends nothing else |
| Stopwatch.StartThenPauseAccumulates | windows/main/renderer.js:869-879 | a start followed by a pause adds the whole seconds between them to the stored total |
| Stopwatch.StickerSwState | windows/sticker/renderer.js:387-393 | nothing is shown iff the total is 0 and there is no start; it is running iff a start is set |
| Stopwatch.MainSwState | windows/main/renderer.js:211-214 | running iff a start is set; paused iff there is no start and the total is positive |
| Stopwatch.SwStatesAgree | windows/main/renderer.js:211-214 | for every non-negative total the two windows classify the stopwatch alike |
| Stopwatch.SwStatesDisagreeOnNegative | windows/sticker/renderer.js:388-391 | a negative total with no start is paused in the sticker and hidden in the main window |
| Format.FormatSecRoundTrip | windows/main/renderer.js:839-845 | for s ≥ 0 the text reads back as `m:SS` below an hour and `h:MM:SS` from an hour on, with fields that give back s |
| Format.ClockFields | windows/sticker/renderer.js:401-407 | minutes and seconds are below 60, h·3600 + m·60 + sec = s, and the hour field is shown iff s ≥ 3600 |
| Format.JsRemNegative | windows/main/renderer.js:842 | JavaScript's `%` keeps the dividend's sign, unlike Euclidean remainder |
| Format.FormatDurationRoundTrip | windows/main/renderer.js:910-917 | for m ≥ 0 the duration text reads back to m |
| Format.DurationsAgree | windows/sticker/renderer.js:479-486 | both windows' duration texts read back to the same minutes |
| Format.DurationShowsMinutes | windows/main/renderer.js:911-916 | under an hour, or with minutes left over, the text ends with the minute word; a whole number of hours prints as `{h}` followed by the hour word |
| Format.PriorityLabelRoundTrip | windows/main/renderer.js:906-908 | the three known priorities get distinct labels that read back to them; any other value is shown as is |
| Format.EscAttrRoundTrip | windows/sticker/renderer.js:475-477 | decoding the four entities recovers escAttr's input |
| Format.EscAttrSafe | windows/sticker/renderer.js:475-477 | the output holds no `"`, `<` or `>`, and every `&` starts one of the four entities |
| Format.EscAttrEach | windows/sticker/renderer.js:476 | because `&` is replaced first, each character is escaped on its own and no entity is escaped again |
| Format.AmpersandLastDoubleEscapes | windows/sticker/renderer.js:476 | replacing `&` last instead would escape `<` twice |
| Calendar.DayKey | windows/main/renderer.js:631-632 | a task is filed iff it has a non-empty completion stamp, under the stamp's first ten characters (the whole stamp when shorter) |
| Calendar.DayOrderMembers | windows/main/renderer.js:629-635 | the days are listed without repeats, and a day is listed iff some task is filed under it |
| Calendar.BucketByDay | windows/main/renderer.js:629-635 | the day keys in first-seen order, each holding exactly its tasks in query order |
| Calendar.GroupAllDays | windows/main/renderer.js:637-647 | one list per filed day, each that day's grouping |
| Calendar.GroupDayCovers | windows/main/renderer.js:639-646 | every task of a day appears exactly once, as a listed entry or as a subtask under one |
| Calendar.GroupDayShape | windows/main/renderer.js:639-646 | the top-level tasks come first, each with exactly its same-day children; then the children whose parent is not among that day's tasks, with no subtasks |
| Calendar.FlattenLeaves | windows/main/renderer.js:646 | the orphan entries show exactly the orphans, in order |
| Calendar.CellPreview | windows/main/renderer.js:676-680 | at most the first three entries, and "+n" iff there are more than three, n being the rest |
| Calendar.SubsBadge | windows/main/renderer.js:677-678 | an entry's badge is shown iff it has subtasks, and counts them |
| Calendar.MonthSummaryBounds | windows/main/renderer.js:693-694 | the active days never exceed the completed total, and there are none iff no task has a day |
| Calendar.SummaryLine | windows/main/renderer.js:693-694 | the completed total is the row count and the active days are the distinct days |
| Calendar.MonthSteps | windows/main/renderer.js:756-770 | next and prev keep the month in 1..12, move exactly one month, and undo each other |
| Calendar.CalendarNav.constructor | windows/main/renderer.js:625-627 | the shown month, with no day selected |
| Calendar.CalendarNav.Prev | windows/main/renderer.js:756-762 | moves to the previous month and closes the detail panel |
| Calendar.CalendarNav.Next | windows/main/renderer.js:764-770 | moves to the next month and closes the detail panel |
| Calendar.CalendarNav.SelectDay | windows/main/renderer.js:772-779 | a click opens the day's panel, or closes it when that day was open; an empty date does nothing |
| Calendar.CalendarNav.CloseDetail | windows/main/renderer.js:781-787 | closes the panel and keeps the month |
| Calendar.SelectTwice | windows/main/renderer.js:776 | clicking the same day twice closes the panel it opened |
| TaskViews.PendingSubs | windows/main/renderer.js:166 | exactly the subtasks that are not done |
| TaskViews.PendingSubsIsFilter | windows/main/renderer.js:166 | the subtasks that are not done, in order and each as often as it occurs |
| TaskViews.PendingMembers | windows/main/renderer.js:151-169 | nothing counted is done; every open top-level task is counted, and so is each of its open subtasks |
| TaskViews.PendingMatchesFront | windows/main/renderer.js:151-169 | the counted list is, entry by entry, each open task followed by its open subtasks in order |
| TaskViews.StickerTotals | windows/sticker/renderer.js:122-131 | the sticker's loop counts the same tasks and minutes as the main window's status line |
| TaskViews.StatusLineReadBack | windows/main/renderer.js:241-244 | the status line shows the count, and after it the estimate, which reads back to the minutes, iff minutes > 0 |
| TaskViews.FooterReadBack | windows/sticker/renderer.js:78-135 | the footer is empty iff the list is; otherwise it shows the count, and the minutes iff there are any |
| TaskViews.InProgress | windows/main/renderer.js:84-100 | the loop's list is the in-progress selection, each running task followed by its running subtasks |
| TaskViews.RunningMembers | windows/main/renderer.js:88-100 | exactly the running, not-done tasks and subtasks are listed: every listed entry is a running task, untagged, or a running subtask tagged with its own parent's title, and every such task and subtask is listed |
| TaskViews.RunningSubsMembers | windows/main/renderer.js:93-98 | a subtask is listed under a parent iff it is running and not done |
| TaskViews.RunsIsRunning | windows/main/renderer.js:211-214 | a task the panel lists is one both windows draw as running |
| TaskViews.FindTaskById | windows/sticker/renderer.js:29-38 | the loop with its early return finds the same thing as the task-before-subtasks search |
| TaskViews.FindInSound | windows/sticker/renderer.js:29-38 | a found task has the id; a found subtask carries its parent's title; nothing is found iff no task or subtask has the id |
| TaskViews.ToggleFlips | windows/main/renderer.js:289-290 | a toggle flips the one id, keeps every other, and two toggles undo each other |
| TaskViews.Expanded.Toggle | windows/sticker/renderer.js:169-170 | the set is the toggled set |
| TaskViews.Expanded.Add | windows/main/renderer.js:299 | the id is added and nothing else changes |
| TaskViews.Expanded.constructor | windows/main/renderer.js:7 | no task starts expanded |
| TaskViews.DoneCount | windows/main/renderer.js:175 | the number of subtasks that are done |
| TaskViews.DoneCountSplits | windows/sticker/renderer.js:89 | done and not-done subtasks add up to all of them |
| TaskViews.ProgressBounds | windows/main/renderer.js:177 | the percentage is within 0..100, is the nearest whole percent, is 0 with nothing done and 100 with all done |
| TaskViews.StickerFocus.constructor | windows/sticker/renderer.js:5 | the sticker starts without a focused task |
| TaskViews.StickerFocus.LoadTasks | windows/sticker/renderer.js:14-26 | focus mode persists iff the truthy focus id finds a task that is not done; otherwise the list is shown and the focus is cleared |
| TaskViews.StickerFocus.Back | windows/sticker/renderer.js:142 | the back button clears the focus |
| TaskViews.StickerFocus.CompleteFocused | windows/sticker/renderer.js:157-163 | sends the completion fields and clears the focus |
| TaskViews.StickerFocus.Focus | windows/sticker/renderer.js:290-295 | starts the stopwatch unless it is already running, and focuses the task |
| TaskViews.FocusThenLoad | windows/sticker/renderer.js:290-295 | focusing an open task shows it alone; a task that is not found or is done falls back to the list with no focus |

## Left out

- File system, database driver and clock. Whether a file exists, opens and
  has a `tasks` table, its top-level task count and its mtime are inputs of
  `DbPath`. So is whether the rename succeeded. "Now", "today" and the
  millisecond value of a start stamp are parameters.
- The renames of the `-wal`, `-shm` and `-journal` side files, `safeMoveFile`
  and `mergeNotesFromOtherDb` are I/O that does not affect which file is
  chosen.
- The first-launch schema creation and the column migrations. The model
  assumes the migrated schema, with `notes.project_id` present.
- The `project_name` column of the LEFT JOIN and the join itself. The model
  returns the task rows alone.
- The `notes.project_id` foreign key and ON DELETE SET NULL. The model's
  `CreateNote` does not check the project, although SQLite, with foreign
  keys on, would refuse an unknown `project_id`; no operation here deletes
  a project.
- `deleteProject`, `getAllProjects`, `getAllNotes` and `deleteNote` are
  outside the modelled core.
- Atomicity. The subtask loop is not a transaction, and the model keeps the
  rows inserted before a refused subtask, as the code does.
- SQLite's order among rows whose ORDER BY keys tie. The sort is stable from
  rowid order, and contracts promise only sortedness and permutation, except
  where all keys tie (`SqlOrder.SortByEqualKeys`).
- The DOM. HTML building, `escHtml`, tooltips, the confirm dialog, undo
  toasts, timers, IPC and async sequencing are not modelled.
- The calendar grid: the weekday offset, the number of days in the month,
  the "today" highlight and the detail panel's text.
- Date parsing. An unparsable `stopwatch_started_at` (NaN in JavaScript) is
  not modelled, because the start time is taken as an integer.
- `Object.entries` order. Day keys are never integer-like, so the order is
  insertion order, which `Calendar.BucketByDay` keeps.
- Format.JsRem: states only the sign and bounds of JavaScript's remainder,
  not its value, which `Format.ClockFields` pins down where it is used.
- Calendar.GroupDayCovers: requires the day's tasks to have distinct ids.
  They are rowids of one query, so they always do.
- Calendar.HasParentIn compares `parent_id` with each parent's id
  directly, as `parents.some(p => p.id === c.parent_id)` does; a null
  `parent_id` matches no parent.
- Store.TaskStore.CreateTask: refuses a `parent_id` equal to the rowid the
  new task is about to receive. SQLite's foreign-key check accepts that
  self-reference on insert, but a caller reaches it only by guessing the
  next rowid, and the model keeps every parent older than its children.
- TaskViews.ProgressBounds: `ProgressPercent` is `Math.round` in exact
  rational arithmetic. Floating-point rounding of `done / total * 100` is
  not modelled.
- Format.PriorityLabelRoundTrip: `priorityLabel`'s object lookup would also
  answer for inherited keys such as `constructor`. The model uses only the
  three own keys.
- TaskViews.StickerFocus.LoadTasks: the focus view's own rendering is left
  out. Only the decision and `focusTaskId` are modelled.

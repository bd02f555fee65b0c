/** The task store of db.js: the `projects`, `tasks` and `notes` tables as
    sequences of rows in rowid order, each with its AUTOINCREMENT counter,
    and the operations that write to them. With `foreign_keys = ON`, an
    insert whose `parent_id` or `project_id` names no row is refused, and
    deleting a task deletes every task below it (ON DELETE CASCADE). */
module Store {
  import opened Common
  import opened SqlOrder
  import opened Rows
  import opened Queries

  /** What updateTask / updateNote return: null when no recognised key was
      given, undefined when no row has the id, an exception when a
      constraint refuses the write, otherwise the row as re-read. */
  datatype Updated<T> = NoFields | Missing | Refused(error: StoreError) | Saved(row: T)

  // ---- lookups ----

  function TaskIndex(tasks: seq<TaskRow>, id: int): (r: Option<nat>)
    ensures r.Some? ==> r.value < |tasks| && tasks[r.value].id == id
    ensures r.None? ==> forall i :: 0 <= i < |tasks| ==> tasks[i].id != id
  {
    IndexWhere(tasks, (t: TaskRow) => t.id == id)
  }

  function ProjectIndex(projects: seq<Project>, id: int): (r: Option<nat>)
    ensures r.Some? ==> r.value < |projects| && projects[r.value].id == id
    ensures r.None? ==> forall i :: 0 <= i < |projects| ==> projects[i].id != id
  {
    IndexWhere(projects, (p: Project) => p.id == id)
  }

  /** The rowids present in the `tasks` table. */
  function TaskIds(tasks: seq<TaskRow>): set<int>
    decreases |tasks|
  {
    if tasks == [] then {} else TaskIds(tasks[..|tasks| - 1]) + {tasks[|tasks| - 1].id}
  }

  /** The rowids present in the `projects` table. */
  function ProjectIds(projects: seq<Project>): set<int>
    decreases |projects|
  {
    if projects == [] then {} else ProjectIds(projects[..|projects| - 1]) + {projects[|projects| - 1].id}
  }

  /** The foreign-key test: some row of `tasks` has rowid `id`. */
  predicate HasTaskId(tasks: seq<TaskRow>, id: int) { id in TaskIds(tasks) }

  predicate HasProjectId(projects: seq<Project>, id: int) { id in ProjectIds(projects) }

  lemma {:induction false} TaskIdsIndex(tasks: seq<TaskRow>, id: int)
    ensures HasTaskId(tasks, id) <==> TaskIndex(tasks, id).Some?
    decreases |tasks|
  {
    if tasks != [] {
      var init := tasks[..|tasks| - 1];
      TaskIdsIndex(init, id);
      if TaskIndex(init, id).Some? {
        assert tasks[TaskIndex(init, id).value] == init[TaskIndex(init, id).value];
      }
      if TaskIndex(tasks, id).Some? && TaskIndex(tasks, id).value < |init| {
        assert init[TaskIndex(tasks, id).value] == tasks[TaskIndex(tasks, id).value];
      }
    }
  }

  lemma {:induction false} ProjectIdsIndex(projects: seq<Project>, id: int)
    ensures HasProjectId(projects, id) <==> ProjectIndex(projects, id).Some?
    decreases |projects|
  {
    if projects != [] {
      var init := projects[..|projects| - 1];
      ProjectIdsIndex(init, id);
      if ProjectIndex(init, id).Some? {
        assert projects[ProjectIndex(init, id).value] == init[ProjectIndex(init, id).value];
      }
      if ProjectIndex(projects, id).Some? && ProjectIndex(projects, id).value < |init| {
        assert init[ProjectIndex(projects, id).value] == projects[ProjectIndex(projects, id).value];
      }
    }
  }

  lemma HasTaskIdAt(tasks: seq<TaskRow>, i: int)
    requires 0 <= i < |tasks|
    ensures HasTaskId(tasks, tasks[i].id)
  {
    TaskIdsIndex(tasks, tasks[i].id);
  }

  lemma HasProjectIdAt(projects: seq<Project>, i: int)
    requires 0 <= i < |projects|
    ensures HasProjectId(projects, projects[i].id)
  {
    ProjectIdsIndex(projects, projects[i].id);
  }

  lemma TaskIdsSnoc(tasks: seq<TaskRow>, row: TaskRow)
    ensures TaskIds(tasks + [row]) == TaskIds(tasks) + {row.id}
  {
    assert (tasks + [row])[..|tasks|] == tasks;
  }

  lemma ProjectIdsSnoc(projects: seq<Project>, p: Project)
    ensures ProjectIds(projects + [p]) == ProjectIds(projects) + {p.id}
  {
    assert (projects + [p])[..|projects|] == projects;
  }

  function NoteIndex(notes: seq<Note>, id: int): (r: Option<nat>)
    ensures r.Some? ==> r.value < |notes| && notes[r.value].id == id
    ensures r.None? ==> forall n :: n in notes ==> n.id != id
  {
    IndexWhere(notes, (n: Note) => n.id == id)
  }

  /** getProjectByName: `SELECT * FROM projects WHERE name = ?`. */
  function FindProjectByName(projects: seq<Project>, name: string): (r: Option<Project>)
    ensures r.Some? ==> r.value in projects && r.value.name == name
    ensures r.None? ==> forall p :: p in projects ==> p.name != name
  {
    match IndexWhere(projects, (p: Project) => p.name == name)
    case None => None
    case Some(k) => Some(projects[k])
  }

  // ---- the constraints every state keeps ----

  /** The `tasks` table in rowid order: every rowid is positive, above the
      rowids before it and below the AUTOINCREMENT counter, and a row's
      parent is one of the rows before it (it was inserted first and is
      still there). */
  predicate TasksWellFormed(tasks: seq<TaskRow>, next: nat)
    decreases |tasks|
  {
    && 1 <= next
    && (tasks != [] ==>
      var init, last := tasks[..|tasks| - 1], tasks[|tasks| - 1];
      && 0 < last.id < next
      && TasksWellFormed(init, last.id)
      && (last.parentId.Some? ==> HasTaskId(init, last.parentId.value)))
  }

  /** The same constraints stated row by row. */
  predicate TasksFlat(tasks: seq<TaskRow>, next: nat)
  {
    && 1 <= next
    && (forall i, j :: 0 <= i < j < |tasks| ==> tasks[i].id < tasks[j].id)
    && (forall i :: 0 <= i < |tasks| ==> 0 < tasks[i].id < next)
    && (forall i :: 0 <= i < |tasks| && tasks[i].parentId.Some? ==>
          tasks[i].parentId.value < tasks[i].id && HasTaskId(tasks, tasks[i].parentId.value))
  }

  lemma TasksWellFormedFlat(tasks: seq<TaskRow>, next: nat)
    ensures TasksWellFormed(tasks, next) <==> TasksFlat(tasks, next)
  {
    if TasksWellFormed(tasks, next) {
      TasksWellFormedToFlat(tasks, next);
    }
    if TasksFlat(tasks, next) {
      TasksFlatToWellFormed(tasks, next);
    }
  }

  lemma {:induction false} TasksWellFormedToFlat(tasks: seq<TaskRow>, next: nat)
    requires TasksWellFormed(tasks, next)
    ensures TasksFlat(tasks, next)
    decreases |tasks|
  {
    if tasks != [] {
      var init, last := tasks[..|tasks| - 1], tasks[|tasks| - 1];
      assert tasks == init + [last];
      TaskIdsSnoc(init, last);
      TasksWellFormedToFlat(init, last.id);
      if last.parentId.Some? {
        TaskIdsIndex(init, last.parentId.value);
      }
      forall i | 0 <= i < |tasks| && tasks[i].parentId.Some?
        ensures tasks[i].parentId.value < tasks[i].id && HasTaskId(tasks, tasks[i].parentId.value)
      {
        if i < |init| {
          assert tasks[i] == init[i];
        }
      }
    }
  }

  lemma {:induction false} TasksFlatToWellFormed(tasks: seq<TaskRow>, next: nat)
    requires TasksFlat(tasks, next)
    ensures TasksWellFormed(tasks, next)
    decreases |tasks|
  {
    if tasks != [] {
      var init, last := tasks[..|tasks| - 1], tasks[|tasks| - 1];
      forall i | 0 <= i < |init| && init[i].parentId.Some?
        ensures init[i].parentId.value < init[i].id && HasTaskId(init, init[i].parentId.value)
      {
        assert init[i] == tasks[i];
        TaskIdsIndex(tasks, init[i].parentId.value);
        var b := TaskIndex(tasks, init[i].parentId.value).value;
        assert b != |init| by {
          assert tasks[i].id < last.id;
        }
        assert init[b] == tasks[b];
        HasTaskIdAt(init, b);
      }
      assert TasksFlat(init, last.id);
      TasksFlatToWellFormed(init, last.id);
      if last.parentId.Some? {
        TaskIdsIndex(tasks, last.parentId.value);
        var b := TaskIndex(tasks, last.parentId.value).value;
        assert init[b] == tasks[b];
        HasTaskIdAt(init, b);
      }
    }
  }

  /** The `projects` table in rowid order: rowids as for tasks, and `name`
      is UNIQUE: no row repeats the name of a row before it. */
  predicate ProjectsWellFormed(projects: seq<Project>, next: nat)
    decreases |projects|
  {
    && 1 <= next
    && (projects != [] ==>
      var init, last := projects[..|projects| - 1], projects[|projects| - 1];
      && 0 < last.id < next
      && ProjectsWellFormed(init, last.id)
      && FindProjectByName(init, last.name).None?)
  }

  /** The `notes` table in rowid order; `pinned` is always 0 or 1. */
  predicate NotesWellFormed(notes: seq<Note>, next: nat)
    decreases |notes|
  {
    && 1 <= next
    && (notes != [] ==>
      var init, last := notes[..|notes| - 1], notes[|notes| - 1];
      && 0 < last.id < next
      && NotesWellFormed(init, last.id)
      && 0 <= last.pinned <= 1)
  }

  /** Every task's project exists (no project is deleted here). */
  predicate TaskProjectsExist(tasks: seq<TaskRow>, projects: seq<Project>)
    decreases |tasks|
  {
    tasks != [] ==>
      && TaskProjectsExist(tasks[..|tasks| - 1], projects)
      && (tasks[|tasks| - 1].projectId.Some? ==> HasProjectId(projects, tasks[|tasks| - 1].projectId.value))
  }

  lemma {:induction false} TaskProjectsExistFlat(tasks: seq<TaskRow>, projects: seq<Project>)
    ensures TaskProjectsExist(tasks, projects) <==>
      forall i :: 0 <= i < |tasks| && tasks[i].projectId.Some? ==> HasProjectId(projects, tasks[i].projectId.value)
    decreases |tasks|
  {
    if tasks != [] {
      var init := tasks[..|tasks| - 1];
      TaskProjectsExistFlat(init, projects);
      assert forall i :: 0 <= i < |init| ==> init[i] == tasks[i];
    }
  }

  // ---- createProject / createTask: the rows inserted ----

  /** The project id createTask files the task under: an explicit
      (truthy) `project_id` wins; otherwise a non-empty project name is
      looked up, and created first when no project has it. */
  function ResolvedProjectId(projects: seq<Project>, nextProjectId: nat,
                             projectId: Option<int>, name: Option<string>): Option<int>
  {
    if IntOrNull(projectId).Some? then IntOrNull(projectId)
    else if StrOrNull(name).None? then None
    else match FindProjectByName(projects, name.value)
      case Some(p) => Some(p.id)
      case None => Some(nextProjectId)
  }

  /** The projects table after createTask has resolved its project. */
  function ProjectsAfterResolve(projects: seq<Project>, nextProjectId: nat, projectId: Option<int>,
                                name: Option<string>, nowLocal: string): seq<Project>
  {
    if IntOrNull(projectId).None? && StrOrNull(name).Some? && FindProjectByName(projects, name.value).None?
    then projects + [Project(nextProjectId, name.value, None, None, nowLocal)]
    else projects
  }

  /** `new Date().toISOString().slice(0, 19).replace('T', ' ')`: the first
      'T' of the first 19 characters becomes a space. */
  function UtcStamp(iso: string): (r: string)
    ensures |r| == if |iso| < 19 then |iso| else 19
  {
    ReplaceFirst(iso[..if |iso| < 19 then |iso| else 19], 'T', ' ')
  }

  function ReplaceFirst(s: string, a: char, b: char): (r: string)
    ensures |r| == |s|
    ensures forall i :: 0 <= i < |s| ==> r[i] == s[i] || (s[i] == a && r[i] == b)
  {
    if s == [] then []
    else if s[0] == a then [b] + s[1..]
    else [s[0]] + ReplaceFirst(s[1..], a, b)
  }

  /** On a canonical ISO-8601 instant the stamp is `date time`. */
  lemma UtcStampOfIso(date: string, time: string, rest: string)
    requires |date| == 10 && 'T' !in date && |time| == 8
    ensures UtcStamp(date + "T" + time + rest) == date + " " + time
  {
    var iso := date + "T" + time + rest;
    var s := "T" + time;
    assert iso[..19] == date + s;
    ReplaceFirstSkips(date, s, 'T', ' ');
    assert s[0] == 'T' && s[1..] == time;
    assert ReplaceFirst(s, 'T', ' ') == " " + time;
  }

  lemma {:induction false} ReplaceFirstSkips(p: string, s: string, a: char, b: char)
    requires a !in p
    ensures ReplaceFirst(p + s, a, b) == p + ReplaceFirst(s, a, b)
  {
    if p != [] {
      var x := ReplaceFirst(s, a, b);
      ReplaceFirstSkips(p[1..], s, a, b);
      HeadThenRest(p, s);
      ReplaceFirstPast(p[0], p[1..] + s, a, b);
      HeadThenRest(p, x);
    } else {
      assert p + s == s;
    }
  }

  lemma HeadThenRest(p: string, x: string)
    requires p != []
    ensures [p[0]] + (p[1..] + x) == p + x
  {
    assert [p[0]] + p[1..] == p;
  }

  lemma ReplaceFirstPast(c: char, t: string, a: char, b: char)
    requires c != a
    ensures ReplaceFirst([c] + t, a, b) == [c] + ReplaceFirst(t, a, b)
  {
    assert ([c] + t)[0] == c && ([c] + t)[1..] == t;
  }

  /** The row createTask inserts for the task itself. */
  function NewTaskRow(input: NewTask, id: nat, projectId: Option<int>, today: string,
                      nowLocal: string, utcStamp: string): (r: TaskRow)
    requires input.title.Some?
    ensures r.targetDate.Some? && r.status.Some? && r.priority.Some?
    ensures r.completedAt.Some? <==> r.status == Some(DONE)
    ensures StrOrNull(input.targetDate).None? ==> r.targetDate == Some(today)
    ensures StrOrNull(input.status).None? ==> r.status == Some(PENDING)
    ensures StrOrNull(input.priority).None? ==> r.priority == Some(NORMAL)
  {
    var status := StrOr(input.status, PENDING);
    TaskRow(
      id := id,
      parentId := IntOrNull(input.parentId),
      projectId := projectId,
      title := input.title.value,
      description := StrOrNull(input.description),
      estimateMinutes := IntOrNull(input.estimateMinutes),
      actualMinutes := None,
      priority := Some(StrOr(input.priority, NORMAL)),
      status := Some(status),
      targetDate := Some(StrOr(input.targetDate, today)),
      createdAt := nowLocal,
      completedAt := if status == DONE then Some(utcStamp) else None,
      stopwatchElapsed := Some(0),
      stopwatchStartedAt := None)
  }

  /** The row createTask inserts for one subtask: the parent's id, project
      and target date; its own priority, else the parent's, else normal;
      the column defaults for status and the stopwatch. */
  function NewSubtaskRow(sub: NewSubtask, id: nat, parentId: nat, projectId: Option<int>,
                         parentPriority: Option<string>, date: string, nowLocal: string): TaskRow
    requires sub.title.Some?
  {
    TaskRow(
      id := id,
      parentId := Some(parentId),
      projectId := projectId,
      title := sub.title.value,
      description := StrOrNull(sub.description),
      estimateMinutes := IntOrNull(sub.estimateMinutes),
      actualMinutes := None,
      priority := Some(StrOr(sub.priority, StrOr(parentPriority, NORMAL))),
      status := Some(PENDING),
      targetDate := Some(date),
      createdAt := nowLocal,
      completedAt := None,
      stopwatchElapsed := Some(0),
      stopwatchStartedAt := None)
  }

  /** The first `n` subtasks all have a title. */
  predicate TitledUpTo(subs: seq<NewSubtask>, n: nat)
  {
    n <= |subs| && forall j :: 0 <= j < n ==> subs[j].title.Some?
  }

  /** The rows of the first `n` subtasks, in input order, with consecutive
      ids from `firstId`. */
  function SubtaskRows(subs: seq<NewSubtask>, n: nat, firstId: nat, parentId: nat, projectId: Option<int>,
                       parentPriority: Option<string>, date: string, nowLocal: string): (r: seq<TaskRow>)
    requires TitledUpTo(subs, n)
    ensures |r| == n
  {
    if n == 0 then []
    else
      SubtaskRows(subs, n - 1, firstId, parentId, projectId, parentPriority, date, nowLocal)
        + [NewSubtaskRow(subs[n - 1], firstId + n - 1, parentId, projectId, parentPriority, date, nowLocal)]
  }

  lemma SubtaskRowsSnoc(subs: seq<NewSubtask>, k: nat, firstId: nat, parentId: nat, projectId: Option<int>,
                        parentPriority: Option<string>, date: string, nowLocal: string)
    requires TitledUpTo(subs, k) && k < |subs| && subs[k].title.Some?
    ensures TitledUpTo(subs, k + 1)
    ensures SubtaskRows(subs, k + 1, firstId, parentId, projectId, parentPriority, date, nowLocal)
         == SubtaskRows(subs, k, firstId, parentId, projectId, parentPriority, date, nowLocal)
            + [NewSubtaskRow(subs[k], firstId + k, parentId, projectId, parentPriority, date, nowLocal)]
  {
  }

  /** Each subtask row carries the parent's id, project and date, the next
      consecutive id, its own title, the default status and its priority
      (its own, else the parent's, else normal). */
  lemma {:induction false} SubtaskRowsShape(subs: seq<NewSubtask>, n: nat, firstId: nat, parentId: nat,
                                            projectId: Option<int>, parentPriority: Option<string>,
                                            date: string, nowLocal: string)
    requires TitledUpTo(subs, n)
    ensures var r := SubtaskRows(subs, n, firstId, parentId, projectId, parentPriority, date, nowLocal);
      forall k :: 0 <= k < n ==>
        && r[k].id == firstId + k
        && r[k].parentId == Some(parentId)
        && r[k].projectId == projectId
        && r[k].targetDate == Some(date)
        && r[k].title == subs[k].title.value
        && r[k].status == Some(PENDING)
        && r[k].createdAt == nowLocal
        && r[k].priority == Some(StrOr(subs[k].priority, StrOr(parentPriority, NORMAL)))
  {
    if n > 0 {
      SubtaskRowsShape(subs, n - 1, firstId, parentId, projectId, parentPriority, date, nowLocal);
    }
  }

  /** The position of the first subtask without a title (or the count). */
  function FirstUntitled(subs: seq<NewSubtask>): (k: nat)
    ensures TitledUpTo(subs, k)
    ensures k < |subs| ==> subs[k].title.None?
  {
    match IndexWhere(subs, (s: NewSubtask) => s.title.None?)
    case None => |subs|
    case Some(k) => k
  }

  /** FirstUntitled pinned down by the scan that stops at `k`. */
  lemma FirstUntitledIs(subs: seq<NewSubtask>, k: nat)
    requires TitledUpTo(subs, k)
    requires k < |subs| ==> subs[k].title.None?
    ensures FirstUntitled(subs) == k
  {
  }

  // ---- updateTask / updateNote: the partial updates ----

  /** One recognised key applied to a nullable column. */
  function Write<T>(cur: Option<T>, f: Field<T>): (r: Option<T>)
    ensures f.Absent? ==> r == cur
    ensures f.Nil? ==> r.None?
    ensures f.Val? ==> r == Some(f.v)
  {
    match f
    case Absent => cur
    case Nil => None
    case Val(v) => Some(v)
  }

  /** A nullable column after a partial update: an absent key leaves it
      as it was, null clears it, a value replaces it. */
  predicate Written<T(==)>(before: Option<T>, f: Field<T>, after: Option<T>)
  {
    match f
    case Absent => after == before
    case Nil => after == None
    case Val(v) => after == Some(v)
  }

  /** The keys of updateTask's whitelist, in the order it scans them. */
  datatype TaskColumn =
    | TitleCol | DescriptionCol | EstimateCol | ActualCol | PriorityCol
    | StatusCol | TargetDateCol | ElapsedCol | StartedAtCol

  const TaskColumns: seq<TaskColumn> :=
    [TitleCol, DescriptionCol, EstimateCol, ActualCol, PriorityCol, StatusCol, TargetDateCol, ElapsedCol, StartedAtCol]

  /** `fields[key] !== undefined` */
  function GivesTaskColumn(p: TaskPatch): TaskColumn -> bool
  {
    (c: TaskColumn) => match c
      case TitleCol => !p.title.Absent?
      case DescriptionCol => !p.description.Absent?
      case EstimateCol => !p.estimateMinutes.Absent?
      case ActualCol => !p.actualMinutes.Absent?
      case PriorityCol => !p.priority.Absent?
      case StatusCol => !p.status.Absent?
      case TargetDateCol => !p.targetDate.Absent?
      case ElapsedCol => !p.stopwatchElapsed.Absent?
      case StartedAtCol => !p.stopwatchStartedAt.Absent?
  }

  /** The row updateTask leaves: each recognised key written (null clears
      the column), `completed_at` stamped when the status is set to done
      and otherwise kept; columns outside the whitelist never change. */
  function ApplyTaskPatch(row: TaskRow, p: TaskPatch, now: string): (r: TaskRow)
    requires !p.title.Nil?
    ensures r.id == row.id && r.parentId == row.parentId && r.projectId == row.projectId
    ensures r.createdAt == row.createdAt
    ensures p.status == Val(DONE) ==> r.completedAt == Some(now)
    ensures p.status != Val(DONE) ==> r.completedAt == row.completedAt
    ensures p.title.Val? ==> r.title == p.title.v
    ensures p.title.Absent? ==> r.title == row.title
    ensures Written(row.description, p.description, r.description)
    ensures Written(row.estimateMinutes, p.estimateMinutes, r.estimateMinutes)
    ensures Written(row.actualMinutes, p.actualMinutes, r.actualMinutes)
    ensures Written(row.priority, p.priority, r.priority)
    ensures Written(row.status, p.status, r.status)
    ensures Written(row.targetDate, p.targetDate, r.targetDate)
    ensures Written(row.stopwatchElapsed, p.stopwatchElapsed, r.stopwatchElapsed)
    ensures Written(row.stopwatchStartedAt, p.stopwatchStartedAt, r.stopwatchStartedAt)
  {
    row.(
      title := if p.title.Val? then p.title.v else row.title,
      description := Write(row.description, p.description),
      estimateMinutes := Write(row.estimateMinutes, p.estimateMinutes),
      actualMinutes := Write(row.actualMinutes, p.actualMinutes),
      priority := Write(row.priority, p.priority),
      status := Write(row.status, p.status),
      targetDate := Write(row.targetDate, p.targetDate),
      stopwatchElapsed := Write(row.stopwatchElapsed, p.stopwatchElapsed),
      stopwatchStartedAt := Write(row.stopwatchStartedAt, p.stopwatchStartedAt),
      completedAt := if p.status == Val(DONE) then Some(now) else row.completedAt)
  }

  /** updateTask returns null exactly when no whitelisted key is given. */
  lemma NoTaskKeysIffEmpty(p: TaskPatch)
    ensures Filter(TaskColumns, GivesTaskColumn(p)) == [] <==> p == NoTaskChange
  {
    if p == NoTaskChange {
      FilterNone(TaskColumns, GivesTaskColumn(p));
    } else {
      SomeTaskKeyGiven(p);
    }
  }

  lemma SomeTaskKeyGiven(p: TaskPatch)
    requires p != NoTaskChange
    ensures Filter(TaskColumns, GivesTaskColumn(p)) != []
  {
    var c := if !p.title.Absent? then TitleCol else if !p.description.Absent? then DescriptionCol
      else if !p.estimateMinutes.Absent? then EstimateCol else if !p.actualMinutes.Absent? then ActualCol
      else if !p.priority.Absent? then PriorityCol else if !p.status.Absent? then StatusCol
      else if !p.targetDate.Absent? then TargetDateCol else if !p.stopwatchElapsed.Absent? then ElapsedCol
      else StartedAtCol;
    assert GivesTaskColumn(p)(c);
    assert c in TaskColumns;
    assert c in Filter(TaskColumns, GivesTaskColumn(p));
  }

  /** An update with no recognised key leaves a row as it was. */
  lemma EmptyTaskPatchKeepsRow(row: TaskRow, now: string)
    ensures ApplyTaskPatch(row, NoTaskChange, now) == row
  {
  }

  /** Repeating the same update (at the same moment) changes nothing more. */
  lemma TaskPatchIdempotent(row: TaskRow, p: TaskPatch, now: string)
    requires !p.title.Nil?
    ensures ApplyTaskPatch(ApplyTaskPatch(row, p, now), p, now) == ApplyTaskPatch(row, p, now)
  {
  }

  /** Setting a status other than done never touches `completed_at`, so a
      task reopened after completion keeps its completion stamp. */
  lemma ReopenKeepsCompletedAt(row: TaskRow, status: string, now: string)
    requires status != DONE
    ensures ApplyTaskPatch(row, NoTaskChange.(status := Val(status)), now).completedAt == row.completedAt
    ensures ApplyTaskPatch(row, NoTaskChange.(status := Val(status)), now).status == Some(status)
  {
  }

  /** The `sets` list of updateTask: the whitelisted keys given, in
      whitelist order, and then the `completed_at` stamp when the status is
      set to done. */
  method ScanTaskKeys(patch: TaskPatch) returns (keys: seq<TaskColumn>, stamp: bool)
    ensures keys == Filter(TaskColumns, GivesTaskColumn(patch))
    ensures stamp <==> patch.status == Val(DONE)
    ensures keys == [] && !stamp <==> patch == NoTaskChange
  {
    keys := [];
    var i := 0;
    while i < |TaskColumns|
      invariant 0 <= i <= |TaskColumns|
      invariant keys == Filter(TaskColumns[..i], GivesTaskColumn(patch))
    {
      assert TaskColumns[..i + 1] == TaskColumns[..i] + [TaskColumns[i]];
      if GivesTaskColumn(patch)(TaskColumns[i]) {
        keys := keys + [TaskColumns[i]];
      }
      i := i + 1;
    }
    assert TaskColumns[..i] == TaskColumns;
    NoTaskKeysIffEmpty(patch);
    stamp := patch.status == Val(DONE);
  }

  /** `sets.length === 0` in updateTask: false exactly for the patch that
      gives no recognised key. */
  method AnyTaskKeys(patch: TaskPatch) returns (any: bool)
    ensures any <==> patch != NoTaskChange
  {
    var keys, stamp := ScanTaskKeys(patch);
    any := |keys| != 0 || stamp;
  }

  /** The keys of updateNote's whitelist, in the order it scans them. */
  datatype NoteColumn = NoteTitleCol | ContentCol | CategoryCol | PinnedCol | NoteProjectCol

  const NoteColumns: seq<NoteColumn> := [NoteTitleCol, ContentCol, CategoryCol, PinnedCol, NoteProjectCol]

  function GivesNoteColumn(p: NotePatch): NoteColumn -> bool
  {
    (c: NoteColumn) => match c
      case NoteTitleCol => !p.title.Absent?
      case ContentCol => !p.content.Absent?
      case CategoryCol => !p.category.Absent?
      case PinnedCol => !p.pinned.Absent?
      case NoteProjectCol => !p.projectId.Absent?
  }

  /** `pinned` is written as 1 when truthy and 0 otherwise (null included). */
  function PinnedValue(f: Field<bool>): int
  {
    if f == Val(true) then 1 else 0
  }

  /** The row updateNote leaves: each recognised key written, `pinned`
      normalised to 0/1, `updated_at` refreshed. */
  function ApplyNotePatch(row: Note, p: NotePatch, now: string): (r: Note)
    requires !p.title.Nil?
    ensures r.id == row.id && r.createdAt == row.createdAt && r.updatedAt == now
    ensures 0 <= row.pinned <= 1 ==> 0 <= r.pinned <= 1
    ensures p.title.Val? ==> r.title == p.title.v
    ensures p.title.Absent? ==> r.title == row.title
    ensures Written(row.content, p.content, r.content)
    ensures Written(row.category, p.category, r.category)
    ensures Written(row.projectId, p.projectId, r.projectId)
    ensures p.pinned.Absent? ==> r.pinned == row.pinned
    ensures p.pinned == Val(true) ==> r.pinned == 1
    ensures p.pinned.Nil? || p.pinned == Val(false) ==> r.pinned == 0
  {
    row.(
      title := if p.title.Val? then p.title.v else row.title,
      content := Write(row.content, p.content),
      category := Write(row.category, p.category),
      pinned := if p.pinned.Absent? then row.pinned else PinnedValue(p.pinned),
      projectId := Write(row.projectId, p.projectId),
      updatedAt := now)
  }

  lemma NoNoteKeysIffEmpty(p: NotePatch)
    ensures Filter(NoteColumns, GivesNoteColumn(p)) == [] <==> p == NotePatch(Absent, Absent, Absent, Absent, Absent)
  {
    var g := GivesNoteColumn(p);
    if p == NotePatch(Absent, Absent, Absent, Absent, Absent) {
      FilterNone(NoteColumns, g);
    } else {
      var c :| c in NoteColumns && g(c) by {
        if !p.title.Absent? { assert NoteColumns[0] == NoteTitleCol; }
        else if !p.content.Absent? { assert NoteColumns[1] == ContentCol; }
        else if !p.category.Absent? { assert NoteColumns[2] == CategoryCol; }
        else if !p.pinned.Absent? { assert NoteColumns[3] == PinnedCol; }
        else { assert NoteColumns[4] == NoteProjectCol; }
      }
      assert c in Filter(NoteColumns, g);
    }
  }

  /** The whitelist scan of updateNote. */
  method ScanNoteKeys(patch: NotePatch) returns (sets: seq<NoteColumn>)
    ensures sets == Filter(NoteColumns, GivesNoteColumn(patch))
    ensures sets == [] <==> patch == NotePatch(Absent, Absent, Absent, Absent, Absent)
  {
    sets := [];
    var i := 0;
    while i < |NoteColumns|
      invariant 0 <= i <= |NoteColumns|
      invariant sets == Filter(NoteColumns[..i], GivesNoteColumn(patch))
    {
      assert NoteColumns[..i + 1] == NoteColumns[..i] + [NoteColumns[i]];
      if GivesNoteColumn(patch)(NoteColumns[i]) {
        sets := sets + [NoteColumns[i]];
      }
      i := i + 1;
    }
    assert NoteColumns[..i] == NoteColumns;
    NoNoteKeysIffEmpty(patch);
  }

  /** `sets.length === 0` in updateNote. */
  method AnyNoteKeys(patch: NotePatch) returns (any: bool)
    ensures any <==> patch != NotePatch(Absent, Absent, Absent, Absent, Absent)
  {
    var sets := ScanNoteKeys(patch);
    any := |sets| != 0;
  }

  // ---- deleteTask ----

  /** Whether deleteTask(id) removes row `t`, given the ids removed before
      it: the task itself, its children (the first DELETE), and any row
      whose parent was removed (ON DELETE CASCADE). */
  predicate Doomed(t: TaskRow, id: int, gone: set<int>)
  {
    t.id == id || t.parentId == Some(id) || (t.parentId.Some? && t.parentId.value in gone)
  }

  /** The rows deleteTask(id) keeps and the ids it removes, deciding the
      rows in rowid order so that a parent is decided before its children. */
  function Cascade(rows: seq<TaskRow>, id: int): (r: (seq<TaskRow>, set<int>))
    ensures forall t :: t in r.0 ==> t in rows && t.id != id && t.parentId != Some(id)
    ensures forall t :: t in rows && t.id !in r.1 ==> t in r.0
    ensures forall t :: t in rows && t.parentId.None? && t.id != id ==> t in r.0
    decreases |rows|
  {
    if rows == [] then ([], {})
    else
      var init, t := rows[..|rows| - 1], rows[|rows| - 1];
      assert rows == init + [t];
      var (kept, gone) := Cascade(init, id);
      if Doomed(t, id, gone) then (kept, gone + {t.id}) else (kept + [t], gone)
  }

  /** With parents before children, the cascade is closed: no kept row
      points at a removed one. */
  lemma {:induction false} CascadeClosed(rows: seq<TaskRow>, id: int)
    requires forall i, j :: 0 <= i < j < |rows| ==> rows[i].id < rows[j].id
    requires forall i :: 0 <= i < |rows| && rows[i].parentId.Some? ==> rows[i].parentId.value < rows[i].id
    ensures forall t :: t in Cascade(rows, id).0 && t.parentId.Some? ==> t.parentId.value !in Cascade(rows, id).1
    decreases |rows|
  {
    if rows != [] {
      var init, t := rows[..|rows| - 1], rows[|rows| - 1];
      assert rows == init + [t];
      CascadeClosed(init, id);
      var (kept, gone) := Cascade(init, id);
      forall u | u in kept ensures u.id < t.id {
        var i :| 0 <= i < |init| && init[i] == u;
        assert rows[i] == u;
      }
    }
  }

  /** The kept rows stay in rowid order. */
  lemma {:induction false} CascadeOrdered(rows: seq<TaskRow>, id: int)
    requires forall i, j :: 0 <= i < j < |rows| ==> rows[i].id < rows[j].id
    ensures forall i, j :: 0 <= i < j < |Cascade(rows, id).0| ==> Cascade(rows, id).0[i].id < Cascade(rows, id).0[j].id
    decreases |rows|
  {
    if rows != [] {
      var init, t := rows[..|rows| - 1], rows[|rows| - 1];
      assert rows == init + [t];
      CascadeOrdered(init, id);
      var (kept, gone) := Cascade(init, id);
      if !Doomed(t, id, gone) {
        var k2 := kept + [t];
        forall i, j | 0 <= i < j < |k2| ensures k2[i].id < k2[j].id {
          if j == |k2| - 1 {
            assert k2[i] in kept;
            var a :| 0 <= a < |init| && init[a] == k2[i];
            assert rows[a] == k2[i];
          }
        }
      }
    }
  }

  /** `t` is the task `id` or lies under it: its parent is `id`, or its
      parent is a row of `rows` that lies under `id`. Every step goes up to
      a smaller rowid, as a parent's always is. */
  predicate Below(rows: seq<TaskRow>, t: TaskRow, id: int)
    decreases t.id
  {
    || t.id == id
    || t.parentId == Some(id)
    || (&& t.parentId.Some? && t.parentId.value < t.id
        && exists u :: u in rows && u.id == t.parentId.value && Below(rows, u, id))
  }

  function Survives(rows: seq<TaskRow>, id: int): TaskRow -> bool { t => !Below(rows, t, id) }

  /** Adding a row with a larger rowid does not change what lies under `id`
      among the rows before it. */
  lemma {:induction false} BelowIgnoresLater(init: seq<TaskRow>, t: TaskRow, x: TaskRow, id: int)
    requires forall u :: u in init ==> u.id < t.id
    requires x.id < t.id
    ensures Below(init + [t], x, id) <==> Below(init, x, id)
    decreases x.id
  {
    if x.parentId.Some? && x.parentId.value < x.id {
      var p := x.parentId.value;
      forall u | u in init + [t] && u.id == p
        ensures u in init && (Below(init + [t], u, id) <==> Below(init, u, id))
      {
        BelowIgnoresLater(init, t, u, id);
      }
    }
  }

  lemma {:induction false} FilterSame<T(!new)>(s: seq<T>, p: T -> bool, q: T -> bool)
    requires forall x :: x in s ==> p(x) == q(x)
    ensures Filter(s, p) == Filter(s, q)
    decreases |s|
  {
    if s != [] {
      FilterSame(s[..|s| - 1], p, q);
    }
  }

  /** What lies under `id` among the rows before `t` is what it was. */
  lemma BelowIgnoresLaterAll(init: seq<TaskRow>, t: TaskRow, id: int)
    requires forall u :: u in init ==> u.id < t.id
    ensures forall u :: u in init ==> (Below(init + [t], u, id) <==> Below(init, u, id))
  {
    forall u | u in init ensures Below(init + [t], u, id) <==> Below(init, u, id) {
      BelowIgnoresLater(init, t, u, id);
    }
  }

  /** The cascade's test on the next row, given the ids removed before it,
      is whether that row lies under `id`. */
  lemma DoomedIffBelow(init: seq<TaskRow>, t: TaskRow, id: int, gone: set<int>)
    requires forall u :: u in init ==> u.id < t.id
    requires t.parentId.Some? ==> t.parentId.value < t.id
    requires forall u :: u in init ==> (u.id in gone <==> Below(init, u, id))
    requires forall x :: x in gone ==> exists u :: u in init && u.id == x
    ensures Doomed(t, id, gone) <==> Below(init + [t], t, id)
  {
    BelowIgnoresLaterAll(init, t, id);
    if t.parentId.Some? && t.id != id && t.parentId != Some(id) {
      var p := t.parentId.value;
      if p in gone {
        var u :| u in init && u.id == p;
        assert Below(init + [t], u, id);
      }
      if Below(init + [t], t, id) {
        var u :| u in init + [t] && u.id == p && Below(init + [t], u, id);
        assert u in init;
      }
    }
  }

  lemma FilterSnoc<T(!new)>(s: seq<T>, x: T, p: T -> bool)
    ensures Filter(s + [x], p) == Filter(s, p) + (if p(x) then [x] else [])
  {
    assert (s + [x])[..|s|] == s;
  }

  /** The ids in `gone` are exactly those of the rows of `rows` under `id`. */
  predicate RemovedIds(rows: seq<TaskRow>, id: int, gone: set<int>)
  {
    && (forall u :: u in rows ==> (u.id in gone <==> Below(rows, u, id)))
    && (forall x :: x in gone ==> exists u :: u in rows && u.id == x)
  }

  /** One row of the cascade: deciding `t` after `init` keeps exactly the
      rows not under `id`, in order. */
  lemma CascadeStepKept(init: seq<TaskRow>, t: TaskRow, id: int, kept: seq<TaskRow>, gone: set<int>)
    requires forall u :: u in init ==> u.id < t.id
    requires t.parentId.Some? ==> t.parentId.value < t.id
    requires kept == Filter(init, Survives(init, id)) && RemovedIds(init, id, gone)
    ensures (if Doomed(t, id, gone) then kept else kept + [t]) == Filter(init + [t], Survives(init + [t], id))
  {
    var rows := init + [t];
    BelowIgnoresLaterAll(init, t, id);
    FilterSame(init, Survives(rows, id), Survives(init, id));
    FilterSnoc(init, t, Survives(rows, id));
    DoomedIffBelow(init, t, id, gone);
  }

  /** One row of the cascade: the removed ids stay exactly those of the
      rows under `id`. */
  lemma CascadeStepGone(init: seq<TaskRow>, t: TaskRow, id: int, gone: set<int>)
    requires forall u :: u in init ==> u.id < t.id
    requires t.parentId.Some? ==> t.parentId.value < t.id
    requires RemovedIds(init, id, gone)
    ensures RemovedIds(init + [t], id, if Doomed(t, id, gone) then gone + {t.id} else gone)
  {
    var rows := init + [t];
    BelowIgnoresLaterAll(init, t, id);
    DoomedIffBelow(init, t, id, gone);
    var gone' := if Doomed(t, id, gone) then gone + {t.id} else gone;
    forall u | u in rows ensures u.id in gone' <==> Below(rows, u, id) {
      if u != t {
        assert u in init && u.id != t.id;
      }
    }
  }

  /** With rowids ascending and every parent older than its child,
      deleteTask(id) removes exactly the rows under `id` and keeps every
      other row, in its original order; the ids it records as removed are
      exactly those rows' ids. */
  lemma {:induction false} CascadeRemovesBelow(rows: seq<TaskRow>, id: int)
    requires forall i, j :: 0 <= i < j < |rows| ==> rows[i].id < rows[j].id
    requires forall i :: 0 <= i < |rows| && rows[i].parentId.Some? ==> rows[i].parentId.value < rows[i].id
    ensures Cascade(rows, id).0 == Filter(rows, Survives(rows, id))
    ensures forall u :: u in rows ==> (u.id in Cascade(rows, id).1 <==> Below(rows, u, id))
    ensures forall x :: x in Cascade(rows, id).1 ==> exists u :: u in rows && u.id == x
    decreases |rows|
  {
    if rows != [] {
      var init, t := rows[..|rows| - 1], rows[|rows| - 1];
      assert rows == init + [t];
      CascadeRemovesBelow(init, id);
      var (kept, gone) := Cascade(init, id);
      forall u | u in init ensures u.id < t.id {
        var i :| 0 <= i < |init| && init[i] == u;
        assert rows[i] == u;
      }
      CascadeStepKept(init, t, id, kept, gone);
      CascadeStepGone(init, t, id, gone);
    }
  }

  /** In a well-formed table, deleteTask(id) keeps exactly the rows not
      under `id`, in their original order. */
  lemma CascadeKeepsOutsideBelow(rows: seq<TaskRow>, next: nat, id: int)
    requires TasksWellFormed(rows, next)
    ensures Cascade(rows, id).0 == Filter(rows, Survives(rows, id))
    ensures forall t :: t in rows ==> (t in Cascade(rows, id).0 <==> !Below(rows, t, id))
  {
    TasksWellFormedFlat(rows, next);
    CascadeRemovesBelow(rows, id);
  }

  /** deleteTask leaves no dangling parent reference. */
  lemma CascadeKeepsParents(rows: seq<TaskRow>, id: int)
    requires forall i, j :: 0 <= i < j < |rows| ==> rows[i].id < rows[j].id
    requires forall i :: 0 <= i < |rows| && rows[i].parentId.Some? ==>
      rows[i].parentId.value < rows[i].id && HasTaskId(rows, rows[i].parentId.value)
    ensures var kept := Cascade(rows, id).0;
      forall i :: 0 <= i < |kept| && kept[i].parentId.Some? ==> HasTaskId(kept, kept[i].parentId.value)
  {
    CascadeClosed(rows, id);
    var (kept, gone) := Cascade(rows, id);
    forall i | 0 <= i < |kept| && kept[i].parentId.Some? ensures HasTaskId(kept, kept[i].parentId.value) {
      var t := kept[i];
      var p := t.parentId.value;
      var a :| 0 <= a < |rows| && rows[a] == t;
      TaskIdsIndex(rows, p);
      var b := TaskIndex(rows, p).value;
      assert rows[b] in kept;
      var c :| 0 <= c < |kept| && kept[c] == rows[b];
      HasTaskIdAt(kept, c);
    }
  }

  /** Rewriting one row without touching its id, parent or project keeps
      the table well formed. */
  lemma PatchKeepsTasksWellFormed(tasks: seq<TaskRow>, next: nat, projects: seq<Project>, k: nat, row: TaskRow)
    requires TasksWellFormed(tasks, next) && TaskProjectsExist(tasks, projects)
    requires k < |tasks| && row.id == tasks[k].id
    requires row.parentId == tasks[k].parentId && row.projectId == tasks[k].projectId
    ensures TasksWellFormed(tasks[k := row], next) && TaskProjectsExist(tasks[k := row], projects)
  {
    var t := tasks[k := row];
    TasksWellFormedFlat(tasks, next);
    TaskProjectsExistFlat(tasks, projects);
    forall j | 0 <= j < |t| && t[j].parentId.Some?
      ensures HasTaskId(t, t[j].parentId.value)
    {
      TaskIdsIndex(tasks, tasks[j].parentId.value);
      var w := TaskIndex(tasks, tasks[j].parentId.value).value;
      assert t[w].id == tasks[w].id;
      HasTaskIdAt(t, w);
    }
    assert TasksFlat(t, next);
    TasksWellFormedFlat(t, next);
    TaskProjectsExistFlat(t, projects);
  }

  lemma {:induction false} PatchKeepsNotesWellFormed(notes: seq<Note>, next: nat, k: nat, row: Note)
    requires NotesWellFormed(notes, next)
    requires k < |notes| && row.id == notes[k].id && 0 <= row.pinned <= 1
    ensures NotesWellFormed(notes[k := row], next)
    decreases |notes|
  {
    var init := notes[..|notes| - 1];
    var n := notes[k := row];
    if k == |notes| - 1 {
      assert n[..|n| - 1] == init;
    } else {
      assert n[..|n| - 1] == init[k := row];
      PatchKeepsNotesWellFormed(init, notes[|notes| - 1].id, k, row);
    }
  }

  lemma {:induction false} NotesPinnedAt(notes: seq<Note>, next: nat, k: nat)
    requires NotesWellFormed(notes, next) && k < |notes|
    ensures 0 <= notes[k].pinned <= 1
    decreases |notes|
  {
    if k < |notes| - 1 {
      var init := notes[..|notes| - 1];
      NotesPinnedAt(init, notes[|notes| - 1].id, k);
    }
  }

  /** deleteTask keeps the constraints, stated row by row. */
  lemma CascadeKeepsFlat(tasks: seq<TaskRow>, next: nat, projects: seq<Project>, id: int)
    requires TasksFlat(tasks, next)
    requires forall i :: 0 <= i < |tasks| && tasks[i].projectId.Some? ==> HasProjectId(projects, tasks[i].projectId.value)
    ensures TasksFlat(Cascade(tasks, id).0, next)
    ensures var kept := Cascade(tasks, id).0;
      forall i :: 0 <= i < |kept| && kept[i].projectId.Some? ==> HasProjectId(projects, kept[i].projectId.value)
  {
    CascadeClosed(tasks, id);
    CascadeOrdered(tasks, id);
    CascadeKeepsParents(tasks, id);
    var kept := Cascade(tasks, id).0;
    forall j | 0 <= j < |kept|
      ensures 0 < kept[j].id < next
      ensures kept[j].parentId.Some? ==> kept[j].parentId.value < kept[j].id
      ensures kept[j].projectId.Some? ==> HasProjectId(projects, kept[j].projectId.value)
    {
      var a :| 0 <= a < |tasks| && tasks[a] == kept[j];
    }
  }

  /** deleteTask keeps the table well formed. */
  lemma CascadeKeepsWellFormed(tasks: seq<TaskRow>, next: nat, projects: seq<Project>, id: int)
    requires TasksWellFormed(tasks, next) && TaskProjectsExist(tasks, projects)
    ensures TasksWellFormed(Cascade(tasks, id).0, next) && TaskProjectsExist(Cascade(tasks, id).0, projects)
  {
    TasksWellFormedFlat(tasks, next);
    TaskProjectsExistFlat(tasks, projects);
    CascadeKeepsFlat(tasks, next, projects, id);
    TasksWellFormedFlat(Cascade(tasks, id).0, next);
    TaskProjectsExistFlat(Cascade(tasks, id).0, projects);
  }

  /** Inserting a row under the next rowid, whose parent and project
      exist, keeps the table well formed. */
  lemma AppendKeepsWellFormed(tasks: seq<TaskRow>, next: nat, projects: seq<Project>, row: TaskRow)
    requires TasksWellFormed(tasks, next) && TaskProjectsExist(tasks, projects)
    requires row.id == next
    requires row.parentId.Some? ==> HasTaskId(tasks, row.parentId.value)
    requires row.projectId.Some? ==> HasProjectId(projects, row.projectId.value)
    ensures TasksWellFormed(tasks + [row], next + 1) && TaskProjectsExist(tasks + [row], projects)
    ensures TaskIds(tasks + [row]) == TaskIds(tasks) + {row.id}
  {
    assert (tasks + [row])[..|tasks|] == tasks;
  }

  /** A task's project stays existing while projects are only added. */
  lemma {:induction false} TaskProjectsExistGrow(tasks: seq<TaskRow>, projects: seq<Project>, more: seq<Project>)
    requires TaskProjectsExist(tasks, projects)
    requires ProjectIds(projects) <= ProjectIds(more)
    ensures TaskProjectsExist(tasks, more)
    decreases |tasks|
  {
    if tasks != [] {
      TaskProjectsExistGrow(tasks[..|tasks| - 1], projects, more);
    }
  }

  /** Appending the first `k` subtask rows to a well-formed table under an
      existing parent keeps it well formed. */
  lemma {:induction false} SubtaskRowsWellFormed(tasks: seq<TaskRow>, next: nat, k: nat, projects: seq<Project>,
                                                 subs: seq<NewSubtask>, parentId: nat, pid: Option<int>,
                                                 parentPriority: Option<string>, date: string, nowLocal: string)
    requires TitledUpTo(subs, k)
    requires TasksWellFormed(tasks, next) && TaskProjectsExist(tasks, projects)
    requires HasTaskId(tasks, parentId)
    requires pid.Some? ==> HasProjectId(projects, pid.value)
    ensures var rows := tasks + SubtaskRows(subs, k, next, parentId, pid, parentPriority, date, nowLocal);
      && TasksWellFormed(rows, next + k) && TaskProjectsExist(rows, projects)
      && HasTaskId(rows, parentId)
    decreases k
  {
    if k == 0 {
      assert tasks + [] == tasks;
    } else {
      var kids := SubtaskRows(subs, k - 1, next, parentId, pid, parentPriority, date, nowLocal);
      var row := NewSubtaskRow(subs[k - 1], next + (k - 1), parentId, pid, parentPriority, date, nowLocal);
      SubtaskRowsWellFormed(tasks, next, k - 1, projects, subs, parentId, pid, parentPriority, date, nowLocal);
      AppendKeepsWellFormed(tasks + kids, next + (k - 1), projects, row);
      SubtaskRowsSnoc(subs, k - 1, next, parentId, pid, parentPriority, date, nowLocal);
      AppendAssoc(tasks, kids, [row]);
    }
  }

  /** The subtask loop of createTask over the `tasks` table: inserts the
      subtasks in order under `parentId` with the next rowids, and stops at
      the first one NOT NULL refuses; `k` is how many were inserted. */
  method InsertSubtasks(tasks: seq<TaskRow>, next: nat, projects: seq<Project>, subs: seq<NewSubtask>,
                        parentId: nat, pid: Option<int>, parentPriority: Option<string>,
                        date: string, nowLocal: string)
    returns (rows: seq<TaskRow>, k: nat)
    requires TasksWellFormed(tasks, next) && TaskProjectsExist(tasks, projects)
    requires HasTaskId(tasks, parentId)
    requires pid.Some? ==> HasProjectId(projects, pid.value)
    ensures k == FirstUntitled(subs)
    ensures rows == tasks + SubtaskRows(subs, k, next, parentId, pid, parentPriority, date, nowLocal)
    ensures TasksWellFormed(rows, next + k) && TaskProjectsExist(rows, projects)
  {
    rows := tasks;
    k := 0;
    while k < |subs| && subs[k].title.Some?
      invariant 0 <= k <= |subs| && TitledUpTo(subs, k)
      invariant rows == tasks + SubtaskRows(subs, k, next, parentId, pid, parentPriority, date, nowLocal)
    {
      SubtaskRowsSnoc(subs, k, next, parentId, pid, parentPriority, date, nowLocal);
      AppendAssoc(tasks, SubtaskRows(subs, k, next, parentId, pid, parentPriority, date, nowLocal),
                  [NewSubtaskRow(subs[k], next + k, parentId, pid, parentPriority, date, nowLocal)]);
      rows := rows + [NewSubtaskRow(subs[k], next + k, parentId, pid, parentPriority, date, nowLocal)];
      k := k + 1;
    }
    SubtaskRowsWellFormed(tasks, next, k, projects, subs, parentId, pid, parentPriority, date, nowLocal);
    FirstUntitledIs(subs, k);
  }

  /** The inserts of createTask on the `tasks` table: the task row, then
      its subtasks under it; when every subtask was inserted, they are
      exactly the rows getSubtasks reads back for the new task. */
  method InsertTask(tasks: seq<TaskRow>, projects: seq<Project>, row: TaskRow, subs: seq<NewSubtask>,
                    pid: Option<int>, priority: Option<string>, nowLocal: string)
    returns (rows: seq<TaskRow>, k: nat)
    requires TasksWellFormed(tasks, row.id) && TaskProjectsExist(tasks, projects)
    requires row.targetDate.Some? && row.createdAt == nowLocal && row.projectId == pid
    requires row.parentId.Some? ==> HasTaskId(tasks, row.parentId.value)
    requires pid.Some? ==> HasProjectId(projects, pid.value)
    ensures k == FirstUntitled(subs)
    ensures var kids := SubtaskRows(subs, k, row.id + 1, row.id, pid, priority, row.targetDate.value, nowLocal);
      && rows == tasks + [row] + kids
      && (k == |subs| ==> Subtasks(rows, row.id) == kids)
    ensures TasksWellFormed(rows, row.id + 1 + k) && TaskProjectsExist(rows, projects)
  {
    AppendKeepsWellFormed(tasks, row.id, projects, row);
    rows, k := InsertSubtasks(tasks + [row], row.id + 1, projects, subs, row.id, pid, priority,
                              row.targetDate.value, nowLocal);
    if k == |subs| {
      NewTaskSubtasks(tasks, row, subs, k, pid, priority, nowLocal);
    }
  }

  // ---- the store ----

  class TaskStore {
    var projects: seq<Project>
    var tasks: seq<TaskRow>
    var notes: seq<Note>
    var nextProjectId: nat
    var nextTaskId: nat
    var nextNoteId: nat

    ghost predicate Valid()
      reads this
    {
      && ProjectsWellFormed(projects, nextProjectId)
      && TasksWellFormed(tasks, nextTaskId)
      && NotesWellFormed(notes, nextNoteId)
      && TaskProjectsExist(tasks, projects)
    }

    /** Freshly created, empty tables. */
    constructor ()
      ensures Valid()
      ensures projects == [] && tasks == [] && notes == []
      ensures nextProjectId == 1 && nextTaskId == 1 && nextNoteId == 1
    {
      projects, tasks, notes := [], [], [];
      nextProjectId, nextTaskId, nextNoteId := 1, 1, 1;
    }

    /** createProject: `name` is NOT NULL and UNIQUE; empty folder path and
        tech stack are stored as NULL. */
    method CreateProject(input: NewProject, nowLocal: string) returns (r: Result<Project, StoreError>)
      requires Valid()
      modifies this
      ensures Valid()
      ensures tasks == old(tasks) && notes == old(notes)
      ensures nextTaskId == old(nextTaskId) && nextNoteId == old(nextNoteId)
      ensures input.name.None? ==>
        r == Err(NotNull("name")) && projects == old(projects) && nextProjectId == old(nextProjectId)
      ensures input.name.Some? && FindProjectByName(old(projects), input.name.value).Some? ==>
        r == Err(UniqueViolation("name")) && projects == old(projects) && nextProjectId == old(nextProjectId)
      ensures input.name.Some? && FindProjectByName(old(projects), input.name.value).None? ==>
        && r == Ok(Project(old(nextProjectId), input.name.value, StrOrNull(input.folderPath),
                           StrOrNull(input.techStack), nowLocal))
        && projects == old(projects) + [r.value]
        && nextProjectId == old(nextProjectId) + 1
    {
      if input.name.None? {
        return Err(NotNull("name"));
      }
      if FindProjectByName(projects, input.name.value).Some? {
        return Err(UniqueViolation("name"));
      }
      var p := Project(nextProjectId, input.name.value, StrOrNull(input.folderPath), StrOrNull(input.techStack), nowLocal);
      ProjectIdsSnoc(projects, p);
      TaskProjectsExistGrow(tasks, projects, projects + [p]);
      assert (projects + [p])[..|projects|] == projects;
      projects := projects + [p];
      nextProjectId := nextProjectId + 1;
      r := Ok(p);
    }

    /** The project createTask files its task under, creating it by name
        when needed. */
    method ResolveProject(projectId: Option<int>, name: Option<string>, nowLocal: string) returns (pid: Option<int>)
      requires Valid()
      modifies this
      ensures Valid()
      ensures pid == ResolvedProjectId(old(projects), old(nextProjectId), projectId, name)
      ensures projects == ProjectsAfterResolve(old(projects), old(nextProjectId), projectId, name, nowLocal)
      ensures nextProjectId == old(nextProjectId) + (|projects| - |old(projects)|)
      ensures tasks == old(tasks) && notes == old(notes)
      ensures nextTaskId == old(nextTaskId) && nextNoteId == old(nextNoteId)
      ensures pid.Some? && IntOrNull(projectId).None? ==> HasProjectId(projects, pid.value)
    {
      pid := IntOrNull(projectId);
      if pid.None? && StrOrNull(name).Some? {
        var found := FindProjectByName(projects, name.value);
        if found.Some? {
          pid := Some(found.value.id);
          var k :| 0 <= k < |projects| && projects[k] == found.value;
          HasProjectIdAt(projects, k);
        } else {
          ghost var before := projects;
          var created := CreateProject(NewProject(name, None, None), nowLocal);
          pid := Some(created.value.id);
          ProjectIdsSnoc(before, created.value);
        }
      }
    }

    /** createTask: resolves the project, inserts the task with its
        defaults, then inserts each subtask in turn. The inserts are not one
        transaction: a refused subtask leaves the rows inserted before it,
        and a project created by name stays even if the task is refused. */
    method CreateTask(input: NewTask, today: string, nowLocal: string, nowIso: string)
      returns (r: Result<Listed, StoreError>)
      requires Valid()
      modifies this
      ensures Valid()
      ensures notes == old(notes) && nextNoteId == old(nextNoteId)
      ensures projects == ProjectsAfterResolve(old(projects), old(nextProjectId), input.projectId, input.project, nowLocal)
      ensures var pid := ResolvedProjectId(old(projects), old(nextProjectId), input.projectId, input.project);
        var parent := IntOrNull(input.parentId);
        if input.title.None? then
          r == Err(NotNull("title")) && tasks == old(tasks) && nextTaskId == old(nextTaskId)
        else if parent.Some? && !HasTaskId(old(tasks), parent.value) then
          r == Err(ForeignKey("parent_id")) && tasks == old(tasks) && nextTaskId == old(nextTaskId)
        else if pid.Some? && !HasProjectId(projects, pid.value) then
          r == Err(ForeignKey("project_id")) && tasks == old(tasks) && nextTaskId == old(nextTaskId)
        else
          var row := NewTaskRow(input, old(nextTaskId), pid, today, nowLocal, UtcStamp(nowIso));
          var k := FirstUntitled(input.subtasks);
          var subs := SubtaskRows(input.subtasks, k, row.id + 1, row.id, pid, input.priority,
                                  row.targetDate.value, nowLocal);
          && tasks == old(tasks) + [row] + subs
          && nextTaskId == old(nextTaskId) + 1 + k
          && (k < |input.subtasks| ==> r == Err(NotNull("title")))
          && (k == |input.subtasks| ==> r == Ok(Listed(row, subs)))
    {
      var pid := ResolveProject(input.projectId, input.project, nowLocal);
      if input.title.None? {
        return Err(NotNull("title"));
      }
      var parent := IntOrNull(input.parentId);
      if parent.Some? && !HasTaskId(tasks, parent.value) {
        return Err(ForeignKey("parent_id"));
      }
      if pid.Some? && !HasProjectId(projects, pid.value) {
        return Err(ForeignKey("project_id"));
      }
      var row := NewTaskRow(input, nextTaskId, pid, today, nowLocal, UtcStamp(nowIso));
      r := InsertTaskTree(row, input.subtasks, pid, input.priority, nowLocal);
    }

    /** The inserts of createTask once the task row is known: the row, then
        its subtasks; on success the task is returned with its subtasks as
        re-read by getSubtasks. */
    method InsertTaskTree(row: TaskRow, subs: seq<NewSubtask>, pid: Option<int>,
                          priority: Option<string>, nowLocal: string) returns (r: Result<Listed, StoreError>)
      requires Valid()
      requires row.id == nextTaskId && row.targetDate.Some? && row.createdAt == nowLocal
      requires row.projectId == pid
      requires row.parentId.Some? ==> HasTaskId(tasks, row.parentId.value)
      requires pid.Some? ==> HasProjectId(projects, pid.value)
      modifies this
      ensures Valid()
      ensures projects == old(projects) && notes == old(notes)
      ensures nextProjectId == old(nextProjectId) && nextNoteId == old(nextNoteId)
      ensures var k := FirstUntitled(subs);
        var kids := SubtaskRows(subs, k, row.id + 1, row.id, pid, priority, row.targetDate.value, nowLocal);
        && tasks == old(tasks) + [row] + kids
        && nextTaskId == old(nextTaskId) + 1 + k
        && (k < |subs| ==> r == Err(NotNull("title")))
        && (k == |subs| ==> r == Ok(Listed(row, kids)))
    {
      var rows, k := InsertTask(tasks, projects, row, subs, pid, priority, nowLocal);
      tasks := rows;
      nextTaskId := row.id + 1 + k;
      if k < |subs| {
        return Err(NotNull("title"));
      }
      r := Ok(Listed(row, Subtasks(tasks, row.id)));
    }

    /** updateTask: writes only the recognised keys that were given;
        returns null (changing nothing) when none was. */
    method UpdateTask(id: int, patch: TaskPatch, nowLocal: string) returns (r: Updated<TaskRow>)
      requires Valid()
      modifies this
      ensures Valid()
      ensures projects == old(projects) && notes == old(notes)
      ensures nextProjectId == old(nextProjectId) && nextTaskId == old(nextTaskId) && nextNoteId == old(nextNoteId)
      ensures r.NoFields? <==> patch == NoTaskChange
      ensures r.Missing? <==> patch != NoTaskChange && !HasTaskId(old(tasks), id)
      ensures r.Refused? <==> patch != NoTaskChange && HasTaskId(old(tasks), id) && patch.title.Nil?
      ensures r.Refused? ==> r.error == NotNull("title")
      ensures !r.Saved? ==> tasks == old(tasks)
      ensures r.Saved? ==> TaskIndex(old(tasks), id).Some?
      ensures r.Saved? ==> (
        var k := TaskIndex(old(tasks), id).value;
        && r.row == ApplyTaskPatch(old(tasks)[k], patch, nowLocal)
        && tasks == old(tasks)[k := r.row])
    {
      var any := AnyTaskKeys(patch);
      if !any {
        return NoFields;
      }
      var found := TaskIndex(tasks, id);
      TaskIdsIndex(tasks, id);
      if found.None? {
        return Missing;
      }
      if patch.title.Nil? {
        return Refused(NotNull("title"));
      }
      var k := found.value;
      var row := ApplyTaskPatch(tasks[k], patch, nowLocal);
      PatchKeepsTasksWellFormed(tasks, nextTaskId, projects, k, row);
      tasks := tasks[k := row];
      r := Saved(row);
    }

    /** deleteTask: removes the task's children, then the task, and with
        them every row below (ON DELETE CASCADE); returns the number of
        rows the second statement removed. */
    method DeleteTask(id: int) returns (changes: nat)
      requires Valid()
      modifies this
      ensures Valid()
      ensures projects == old(projects) && notes == old(notes)
      ensures nextProjectId == old(nextProjectId) && nextTaskId == old(nextTaskId) && nextNoteId == old(nextNoteId)
      ensures tasks == Cascade(old(tasks), id).0
      ensures changes == if HasTaskId(old(tasks), id) then 1 else 0
      ensures tasks == Filter(old(tasks), Survives(old(tasks), id))
      ensures forall t :: t in old(tasks) ==> (t in tasks <==> !Below(old(tasks), t, id))
    {
      changes := if HasTaskId(tasks, id) then 1 else 0;
      var kept: seq<TaskRow> := [];
      var gone: set<int> := {};
      var i := 0;
      while i < |tasks|
        invariant 0 <= i <= |tasks|
        invariant (kept, gone) == Cascade(tasks[..i], id)
      {
        var t := tasks[i];
        assert tasks[..i + 1] == tasks[..i] + [t];
        if Doomed(t, id, gone) {
          gone := gone + {t.id};
        } else {
          kept := kept + [t];
        }
        i := i + 1;
      }
      assert tasks[..i] == tasks;
      CascadeKeepsWellFormed(tasks, nextTaskId, projects, id);
      CascadeKeepsOutsideBelow(tasks, nextTaskId, id);
      tasks := kept;
    }

    /** createNote: `title` is NOT NULL; empty content is NULL, the
        category defaults to memo, `pinned` is stored as 0/1. */
    method CreateNote(input: NewNote, nowLocal: string) returns (r: Result<Note, StoreError>)
      requires Valid()
      modifies this
      ensures Valid()
      ensures projects == old(projects) && tasks == old(tasks)
      ensures nextProjectId == old(nextProjectId) && nextTaskId == old(nextTaskId)
      ensures input.title.None? ==>
        r == Err(NotNull("title")) && notes == old(notes) && nextNoteId == old(nextNoteId)
      ensures input.title.Some? ==>
        && r == Ok(Note(old(nextNoteId), input.title.value, StrOrNull(input.content),
                        Some(StrOr(input.category, MEMO)), if input.pinned then 1 else 0,
                        IntOrNull(input.projectId), nowLocal, nowLocal))
        && notes == old(notes) + [r.value]
        && nextNoteId == old(nextNoteId) + 1
    {
      if input.title.None? {
        return Err(NotNull("title"));
      }
      var n := Note(nextNoteId, input.title.value, StrOrNull(input.content), Some(StrOr(input.category, MEMO)),
                    if input.pinned then 1 else 0, IntOrNull(input.projectId), nowLocal, nowLocal);
      assert (notes + [n])[..|notes|] == notes;
      notes := notes + [n];
      nextNoteId := nextNoteId + 1;
      r := Ok(n);
    }

    /** updateNote: writes only the recognised keys that were given, and
        then always refreshes `updated_at`; returns null when none was. */
    method UpdateNote(id: int, patch: NotePatch, nowLocal: string) returns (r: Updated<Note>)
      requires Valid()
      modifies this
      ensures Valid()
      ensures projects == old(projects) && tasks == old(tasks)
      ensures nextProjectId == old(nextProjectId) && nextTaskId == old(nextTaskId) && nextNoteId == old(nextNoteId)
      ensures r.NoFields? <==> patch == NotePatch(Absent, Absent, Absent, Absent, Absent)
      ensures r.Missing? <==> patch != NotePatch(Absent, Absent, Absent, Absent, Absent) && NoteIndex(old(notes), id).None?
      ensures r.Refused? <==>
        patch != NotePatch(Absent, Absent, Absent, Absent, Absent) && NoteIndex(old(notes), id).Some? && patch.title.Nil?
      ensures r.Refused? ==> r.error == NotNull("title")
      ensures !r.Saved? ==> notes == old(notes)
      ensures r.NoFields? || r.Missing? || r.Refused? || r.Saved?
      ensures patch != NotePatch(Absent, Absent, Absent, Absent, Absent) && NoteIndex(old(notes), id).Some? ==>
        var k := NoteIndex(old(notes), id).value;
        if patch.title.Nil? then r == Refused(NotNull("title"))
        else
          && r == Saved(ApplyNotePatch(old(notes)[k], patch, nowLocal))
          && notes == old(notes)[k := r.row]
    {
      var any := AnyNoteKeys(patch);
      if !any {
        return NoFields;
      }
      var found := NoteIndex(notes, id);
      if found.None? {
        return Missing;
      }
      if patch.title.Nil? {
        return Refused(NotNull("title"));
      }
      var k := found.value;
      NotesPinnedAt(notes, nextNoteId, k);
      var row := ApplyNotePatch(notes[k], patch, nowLocal);
      PatchKeepsNotesWellFormed(notes, nextNoteId, k, row);
      notes := notes[k := row];
      r := Saved(row);
    }
  }

  /** The re-query at the end of createTask returns exactly the subtasks
      it inserted, in insertion order. */
  lemma NewTaskSubtasks(before: seq<TaskRow>, row: TaskRow, subs: seq<NewSubtask>, k: nat,
                        pid: Option<int>, priority: Option<string>, nowLocal: string)
    requires TasksWellFormed(before, row.id) && row.targetDate.Some? && row.createdAt == nowLocal
    requires row.parentId.Some? ==> HasTaskId(before, row.parentId.value)
    requires TitledUpTo(subs, k)
    ensures var kids := SubtaskRows(subs, k, row.id + 1, row.id, pid, priority, row.targetDate.value, nowLocal);
      Subtasks(before + [row] + kids, row.id) == kids
  {
    var kids := SubtaskRows(subs, k, row.id + 1, row.id, pid, priority, row.targetDate.value, nowLocal);
    SubtaskRowsShape(subs, k, row.id + 1, row.id, pid, priority, row.targetDate.value, nowLocal);
    forall t | t in kids ensures t.parentId == Some(row.id) && t.createdAt == row.createdAt {
      var a :| 0 <= a < |kids| && kids[a] == t;
    }
    TasksWellFormedFlat(before, row.id);
    forall t | t in before && t.parentId.Some? ensures t.parentId.value < row.id {
      var a :| 0 <= a < |before| && before[a] == t;
    }
    if row.parentId.Some? {
      TaskIdsIndex(before, row.parentId.value);
    }
    SubtasksOfNewTask(before, row, kids);
  }

  /** The re-query at the end of createTask returns exactly the subtasks
      just inserted, in insertion order: no earlier row can point at the
      new id, and every subtask has the same `created_at`. */
  lemma SubtasksOfNewTask(before: seq<TaskRow>, row: TaskRow, kids: seq<TaskRow>)
    requires forall t :: t in before ==> t.parentId.Some? ==> t.parentId.value < row.id
    requires row.parentId.Some? ==> row.parentId.value < row.id
    requires forall t :: t in kids ==> t.parentId == Some(row.id) && t.createdAt == row.createdAt
    ensures Subtasks(before + [row] + kids, row.id) == kids
  {
    var p := ChildOf(row.id);
    assert forall x :: x in before ==> !p(x);
    FilterNone(before, p);
    assert forall x :: x in [row] ==> !p(x);
    FilterNone([row], p);
    FilterAppend(before, [row], p);
    assert forall x :: x in kids ==> p(x);
    FilterAll(kids, p);
    FilterAppend(before + [row], kids, p);
    assert Filter(before + [row] + kids, p) == kids;
    var k := [Asc(Text(row.createdAt))];
    assert forall x :: x in kids ==> CreatedOrder(x) == k;
    SortByEqualKeys(kids, CreatedOrder, k);
  }
}

/** The read queries of the task store (db.js), as functions of the
    `tasks` table: each is a WHERE clause (a predicate on one row) followed
    by an ORDER BY (a sort key), and the top-level lists then attach every
    row's subtasks. */
module Queries {
  import opened Common
  import opened SqlOrder
  import opened Rows

  /** CASE priority WHEN 'must' THEN 0 WHEN 'normal' THEN 1 ELSE 2 END;
      NULL matches no WHEN branch. */
  function PriorityRank(p: Option<string>): int
  {
    if p == Some(MUST) then 0 else if p == Some(NORMAL) then 1 else 2
  }

  predicate IsTopLevel(t: TaskRow) { t.parentId.None? }

  predicate IsPending(t: TaskRow) { t.status == Some(PENDING) }

  function TextOrNull(o: Option<string>): SqlValue
  {
    if o.Some? then Text(o.value) else Null
  }

  /** The optional project filter: a falsy project id (`if (projectId)`)
      adds no condition; otherwise `t.project_id = ?`, which NULL fails. */
  predicate InProject(t: TaskRow, projectId: Option<int>)
  {
    IntOrNull(projectId).Some? ==> t.projectId == IntOrNull(projectId)
  }

  // ---- getSubtasks / attachSubtasks ----

  predicate IsChildOf(t: TaskRow, parentId: int) { t.parentId == Some(parentId) }

  function ChildOf(parentId: int): TaskRow -> bool { t => IsChildOf(t, parentId) }

  function CreatedOrder(t: TaskRow): seq<Term> { [Asc(Text(t.createdAt))] }

  /** getSubtasks: the rows whose parent is `parentId`, oldest first. */
  function Subtasks(rows: seq<TaskRow>, parentId: int): (r: seq<TaskRow>)
    ensures forall t :: t in r <==> t in rows && IsChildOf(t, parentId)
    ensures forall t :: multiset(r)[t] == if IsChildOf(t, parentId) then multiset(rows)[t] else 0
    ensures SortedBy(r, CreatedOrder)
  {
    SortBy(Filter(rows, ChildOf(parentId)), CreatedOrder)
  }

  /** attachSubtasks: each parent, in order, with its own subtasks. */
  function AttachSubtasks(rows: seq<TaskRow>, parents: seq<TaskRow>): (r: seq<Listed>)
    ensures |r| == |parents|
    ensures forall i :: 0 <= i < |r| ==> r[i].task == parents[i]
    ensures forall i, s :: 0 <= i < |r| ==>
      (s in r[i].subtasks <==> s in rows && s.parentId == Some(parents[i].id))
    ensures forall i :: 0 <= i < |r| ==> r[i].subtasks == Subtasks(rows, parents[i].id)
  {
    seq(|parents|, i requires 0 <= i < |parents| => Listed(parents[i], Subtasks(rows, parents[i].id)))
  }

  // ---- getTasksByDate ----

  /** The WHERE clause of getTasksByDate: a top-level task planned for
      `date`, or planned earlier and still pending; a NULL target date
      satisfies neither comparison. */
  predicate InDateView(t: TaskRow, date: string, projectId: Option<int>)
  {
    && IsTopLevel(t)
    && t.targetDate.Some?
    && (t.targetDate.value == date || (CmpStr(t.targetDate.value, date) < 0 && IsPending(t)))
    && InProject(t, projectId)
  }

  function DateOrder(t: TaskRow): seq<Term>
  {
    [Asc(Int(PriorityRank(t.priority))), Asc(TextOrNull(t.targetDate)), Asc(Text(t.createdAt))]
  }

  /** The rows getTasksByDate selects, in its order. */
  function DateViewRows(rows: seq<TaskRow>, date: string, projectId: Option<int>): (r: seq<TaskRow>)
    ensures forall t :: t in r <==> t in rows && InDateView(t, date, projectId)
    ensures forall t :: multiset(r)[t] == if InDateView(t, date, projectId) then multiset(rows)[t] else 0
    ensures SortedBy(r, DateOrder)
  {
    var r := SortBy(Filter(rows, t => InDateView(t, date, projectId)), DateOrder);
    assert forall t :: (t => InDateView(t, date, projectId))(t) == InDateView(t, date, projectId);
    r
  }

  function GetTasksByDate(rows: seq<TaskRow>, date: string, projectId: Option<int>): (r: seq<Listed>)
    ensures forall i :: 0 <= i < |r| ==> r[i].task in rows && InDateView(r[i].task, date, projectId)
    ensures forall i, s :: 0 <= i < |r| && s in r[i].subtasks ==> s in rows && IsChildOf(s, r[i].task.id)
    ensures |r| == |DateViewRows(rows, date, projectId)|
    ensures forall i :: 0 <= i < |r| ==> r[i].task == DateViewRows(rows, date, projectId)[i] && r[i].subtasks == Subtasks(rows, r[i].task.id)
  {
    AttachSubtasks(rows, DateViewRows(rows, date, projectId))
  }

  /** In getTasksByDate's result every 'must' task precedes every 'normal'
      task, which precedes every task of any other priority. */
  lemma DateViewPriorityFirst(rows: seq<TaskRow>, date: string, projectId: Option<int>, i: int, j: int)
    requires 0 <= i < j < |DateViewRows(rows, date, projectId)|
    ensures PriorityRank(DateViewRows(rows, date, projectId)[i].priority)
         <= PriorityRank(DateViewRows(rows, date, projectId)[j].priority)
  {
    var r := DateViewRows(rows, date, projectId);
    KeyLeHead(DateOrder(r[i]), DateOrder(r[j]));
  }

  // ---- getTodayTasks ----

  /** The WHERE clause of getTodayTasks. */
  predicate InTodayView(t: TaskRow, today: string, projectId: Option<int>)
  {
    && IsTopLevel(t)
    && IsPending(t)
    && (t.targetDate.None? || CmpStr(t.targetDate.value, today) <= 0)
    && InProject(t, projectId)
  }

  function TodayOrder(t: TaskRow): seq<Term>
  {
    [Asc(Int(PriorityRank(t.priority))), Desc(TextOrNull(t.targetDate)), Asc(Text(t.createdAt))]
  }

  function TodayViewRows(rows: seq<TaskRow>, today: string, projectId: Option<int>): (r: seq<TaskRow>)
    ensures forall t :: t in r <==> t in rows && InTodayView(t, today, projectId)
    ensures forall t :: multiset(r)[t] == if InTodayView(t, today, projectId) then multiset(rows)[t] else 0
    ensures SortedBy(r, TodayOrder)
  {
    var r := SortBy(Filter(rows, t => InTodayView(t, today, projectId)), TodayOrder);
    assert forall t :: (t => InTodayView(t, today, projectId))(t) == InTodayView(t, today, projectId);
    r
  }

  function GetTodayTasks(rows: seq<TaskRow>, today: string, projectId: Option<int>): (r: seq<Listed>)
    ensures forall i :: 0 <= i < |r| ==> r[i].task in rows && InTodayView(r[i].task, today, projectId)
    ensures forall i, s :: 0 <= i < |r| && s in r[i].subtasks ==> s in rows && IsChildOf(s, r[i].task.id)
    ensures |r| == |TodayViewRows(rows, today, projectId)|
    ensures forall i :: 0 <= i < |r| ==> r[i].task == TodayViewRows(rows, today, projectId)[i] && r[i].subtasks == Subtasks(rows, r[i].task.id)
  {
    AttachSubtasks(rows, TodayViewRows(rows, today, projectId))
  }

  /** Within one priority, today's list puts the latest target date first
      and undated tasks last (NULL is the smallest value, sorted DESC). */
  lemma TodayUndatedLast(rows: seq<TaskRow>, today: string, projectId: Option<int>, i: int, j: int)
    requires 0 <= i < j < |TodayViewRows(rows, today, projectId)|
    requires PriorityRank(TodayViewRows(rows, today, projectId)[i].priority)
          == PriorityRank(TodayViewRows(rows, today, projectId)[j].priority)
    requires TodayViewRows(rows, today, projectId)[i].targetDate.None?
    ensures TodayViewRows(rows, today, projectId)[j].targetDate.None?
  {
    var r := TodayViewRows(rows, today, projectId);
    assert KeyLe(TodayOrder(r[i]), TodayOrder(r[j]));
    var a, b := TodayOrder(r[i]), TodayOrder(r[j]);
    KeyLeHead(a, b);
    KeyLeHead(a[1..], b[1..]);
  }

  // ---- getTasksByProject ----

  predicate InProjectView(t: TaskRow, projectId: int)
  {
    t.projectId == Some(projectId) && IsTopLevel(t)
  }

  function ProjectOrder(t: TaskRow): seq<Term>
  {
    [Desc(TextOrNull(t.targetDate)), Asc(Text(t.createdAt))]
  }

  function ProjectViewRows(rows: seq<TaskRow>, projectId: int): (r: seq<TaskRow>)
    ensures forall t :: t in r <==> t in rows && InProjectView(t, projectId)
    ensures forall t :: multiset(r)[t] == if InProjectView(t, projectId) then multiset(rows)[t] else 0
    ensures SortedBy(r, ProjectOrder)
  {
    var r := SortBy(Filter(rows, t => InProjectView(t, projectId)), ProjectOrder);
    assert forall t :: (t => InProjectView(t, projectId))(t) == InProjectView(t, projectId);
    r
  }

  function GetTasksByProject(rows: seq<TaskRow>, projectId: int): (r: seq<Listed>)
    ensures forall i :: 0 <= i < |r| ==> r[i].task in rows && InProjectView(r[i].task, projectId)
    ensures forall i, s :: 0 <= i < |r| && s in r[i].subtasks ==> s in rows && IsChildOf(s, r[i].task.id)
    ensures |r| == |ProjectViewRows(rows, projectId)|
    ensures forall i :: 0 <= i < |r| ==> r[i].task == ProjectViewRows(rows, projectId)[i] && r[i].subtasks == Subtasks(rows, r[i].task.id)
  {
    AttachSubtasks(rows, ProjectViewRows(rows, projectId))
  }

  /** A subtask never heads an entry of the three top-level lists; it is
      reached only through its parent's attached subtasks. */
  lemma SubtaskNeverTopLevel(rows: seq<TaskRow>, s: TaskRow, date: string, today: string,
                             projectId: Option<int>, project: int)
    requires s.parentId.Some?
    ensures forall l :: l in GetTasksByDate(rows, date, projectId) ==> l.task != s
    ensures forall l :: l in GetTodayTasks(rows, today, projectId) ==> l.task != s
    ensures forall l :: l in GetTasksByProject(rows, project) ==> l.task != s
  {
  }

  // ---- getCompletedTasksByMonth ----

  /** `${year}-${String(month).padStart(2, '0')}-01` */
  function MonthStart(year: int, month: int): string
  {
    IntStr(year) + "-" + Pad2(IntStr(month)) + "-01"
  }

  /** The half-open range [start, end) of completion stamps for a month;
      December's end is January 1st of the next year. */
  function MonthBounds(year: int, month: int): (string, string)
  {
    var nextMonth := if month == 12 then 1 else month + 1;
    var nextYear := if month == 12 then year + 1 else year;
    (MonthStart(year, month), MonthStart(nextYear, nextMonth))
  }

  /** The WHERE clause of getCompletedTasksByMonth for the stamps
      [start, end). */
  predicate CompletedBetween(t: TaskRow, start: string, end: string, projectId: Option<int>)
  {
    && IsDone(t)
    && t.completedAt.Some?
    && CmpStr(t.completedAt.value, start) >= 0
    && CmpStr(t.completedAt.value, end) < 0
    && InProject(t, projectId)
  }

  function CompletedOrder(t: TaskRow): seq<Term> { [Asc(TextOrNull(t.completedAt))] }

  /** The done tasks completed within [start, end), oldest completion first. */
  function CompletedRows(rows: seq<TaskRow>, start: string, end: string, projectId: Option<int>): (r: seq<TaskRow>)
    ensures forall t :: t in r <==> t in rows && CompletedBetween(t, start, end, projectId)
    ensures forall t :: multiset(r)[t] == if CompletedBetween(t, start, end, projectId) then multiset(rows)[t] else 0
    ensures SortedBy(r, CompletedOrder)
  {
    var r := SortBy(Filter(rows, t => CompletedBetween(t, start, end, projectId)), CompletedOrder);
    assert forall t :: (t => CompletedBetween(t, start, end, projectId))(t) == CompletedBetween(t, start, end, projectId);
    r
  }

  /** getCompletedTasksByMonth: the completed rows of the month's range. */
  function CompletedInMonth(rows: seq<TaskRow>, year: int, month: int, projectId: Option<int>): seq<TaskRow>
  {
    CompletedRows(rows, MonthBounds(year, month).0, MonthBounds(year, month).1, projectId)
  }
}

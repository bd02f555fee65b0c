/** The three tables of the task store as records, and the shapes of the
    arguments the store's operations accept. Nullable columns are Option;
    a field of a partial update distinguishes a key that is absent
    (JavaScript `undefined`, not written) from one given as `null`
    (written, clearing the column). */
module Rows {
  import opened Common

  const PENDING: string := "pending"
  const DONE: string := "done"
  const MUST: string := "must"
  const NORMAL: string := "normal"
  const LOW: string := "low"
  const MEMO: string := "memo"

  /** One row of the `tasks` table. */
  datatype TaskRow = TaskRow(
    id: nat,
    parentId: Option<int>,
    projectId: Option<int>,
    title: string,
    description: Option<string>,
    estimateMinutes: Option<int>,
    actualMinutes: Option<int>,
    priority: Option<string>,
    status: Option<string>,
    targetDate: Option<string>,
    createdAt: string,
    completedAt: Option<string>,
    stopwatchElapsed: Option<int>,
    stopwatchStartedAt: Option<string>)

  /** One row of the `projects` table. */
  datatype Project = Project(
    id: nat,
    name: string,
    folderPath: Option<string>,
    techStack: Option<string>,
    createdAt: string)

  /** One row of the `notes` table; `pinned` is stored as 0 or 1. */
  datatype Note = Note(
    id: nat,
    title: string,
    content: Option<string>,
    category: Option<string>,
    pinned: int,
    projectId: Option<int>,
    createdAt: string,
    updatedAt: string)

  /** A key of a partial update: not given, given as null (Nil), or given a value. */
  datatype Field<+T> = Absent | Nil | Val(v: T)

  /** The keys `updateTask` recognises; any other key is ignored. */
  datatype TaskPatch = TaskPatch(
    title: Field<string>,
    description: Field<string>,
    estimateMinutes: Field<int>,
    actualMinutes: Field<int>,
    priority: Field<string>,
    status: Field<string>,
    targetDate: Field<string>,
    stopwatchElapsed: Field<int>,
    stopwatchStartedAt: Field<string>)

  const NoTaskChange: TaskPatch :=
    TaskPatch(Absent, Absent, Absent, Absent, Absent, Absent, Absent, Absent, Absent)

  /** The keys `updateNote` recognises; `pinned` is read for its truthiness. */
  datatype NotePatch = NotePatch(
    title: Field<string>,
    content: Field<string>,
    category: Field<string>,
    pinned: Field<bool>,
    projectId: Field<int>)

  /** The argument of `createTask`; a missing key and null are both None. */
  datatype NewTask = NewTask(
    parentId: Option<int>,
    projectId: Option<int>,
    project: Option<string>,
    title: Option<string>,
    description: Option<string>,
    estimateMinutes: Option<int>,
    priority: Option<string>,
    targetDate: Option<string>,
    status: Option<string>,
    subtasks: seq<NewSubtask>)

  datatype NewSubtask = NewSubtask(
    title: Option<string>,
    description: Option<string>,
    estimateMinutes: Option<int>,
    priority: Option<string>)

  /** The argument of `createNote`; `pinned` is its truthiness. */
  datatype NewNote = NewNote(
    title: Option<string>,
    content: Option<string>,
    category: Option<string>,
    pinned: bool,
    projectId: Option<int>)

  datatype NewProject = NewProject(
    name: Option<string>,
    folderPath: Option<string>,
    techStack: Option<string>)

  /** A top-level task as the list queries return it: the row with its
      subtasks attached. */
  datatype Listed = Listed(task: TaskRow, subtasks: seq<TaskRow>)

  /** The ways a write is refused by the store's constraints. */
  datatype StoreError =
    | NotNull(column: string)
    | UniqueViolation(column: string)
    | ForeignKey(column: string)

  predicate IsDone(t: TaskRow) { t.status == Some(DONE) }
}

/** The stopwatch of a task, as both renderers drive it. A task's card
    carries the stored elapsed seconds and the start stamp as data
    attributes; the renderers compute the running total from them and
    send partial updates to updateTask. Parsing the start stamp into
    milliseconds and reading the clock happen outside the model: both are
    parameters (`startMs`, `nowMs`). */
module Stopwatch {
  import opened Common
  import opened Rows
  import opened Store

  /** The data attributes of a card: `stopwatch_elapsed || 0` and
      `stopwatch_started_at || ''`. */
  datatype SwSource = SwSource(elapsed: int, started: string)

  function SwSourceOf(t: TaskRow): (s: SwSource)
    ensures s.started == "" <==> t.stopwatchStartedAt.None? || t.stopwatchStartedAt == Some("")
  {
    SwSource(IntOr0(t.stopwatchElapsed), StrOr(t.stopwatchStartedAt, ""))
  }

  /** calcElapsed: the stored seconds plus, while running, the whole
      seconds since the start, never a negative amount. */
  function CalcElapsed(base: int, started: string, startMs: int, nowMs: int): (r: int)
    ensures r >= base
    ensures started == "" ==> r == base
    ensures started != "" && nowMs < startMs ==> r == base
    ensures started != "" && startMs <= nowMs ==>
      1000 * (r - base) <= nowMs - startMs < 1000 * (r - base + 1)
  {
    if started == "" then base
    else
      var diff := (nowMs - startMs) / 1000;
      base + (if diff > 0 then diff else 0)
  }

  /** The running total only grows as the clock advances. */
  lemma CalcElapsedMonotone(base: int, started: string, startMs: int, now1: int, now2: int)
    requires now1 <= now2
    ensures CalcElapsed(base, started, startMs, now1) <= CalcElapsed(base, started, startMs, now2)
  {
    if started != "" && startMs <= now1 {
      var r1, r2 := CalcElapsed(base, started, startMs, now1), CalcElapsed(base, started, startMs, now2);
      assert 1000 * (r1 - base) <= now1 - startMs;
      assert now2 - startMs < 1000 * (r2 - base + 1);
    }
  }

  /** `totalSec > 0 ? Math.ceil(totalSec / 60) : null`: the minutes that
      cover the elapsed seconds. */
  function ActualMinutes(totalSec: int): (r: Option<int>)
    ensures r.Some? <==> totalSec > 0
    ensures r.Some? ==> r.value >= 1 && 60 * (r.value - 1) < totalSec <= 60 * r.value
  {
    if totalSec > 0 then Some((totalSec + 59) / 60) else None
  }

  /** The fields completeTaskWithStopwatch sends: done, the stopwatch
      reset, and the covered minutes when any time was recorded. */
  function CompletionPatch(src: SwSource, startMs: int, nowMs: int): (p: TaskPatch)
    ensures p.status == Val(DONE) && p.stopwatchElapsed == Val(0) && p.stopwatchStartedAt == Nil
    ensures var total := CalcElapsed(src.elapsed, src.started, startMs, nowMs);
      && (total > 0 ==> p.actualMinutes == Val(ActualMinutes(total).value))
      && (total <= 0 ==> p.actualMinutes == Absent)
    ensures p.title == Absent && p.description == Absent && p.estimateMinutes == Absent
    ensures p.priority == Absent && p.targetDate == Absent
  {
    var total := CalcElapsed(src.elapsed, src.started, startMs, nowMs);
    var actual := ActualMinutes(total);
    NoTaskChange.(
      status := Val(DONE),
      stopwatchElapsed := Val(0),
      stopwatchStartedAt := Nil,
      actualMinutes := if actual.Some? then Val(actual.value) else Absent)
  }

  /** Pause: store the running total and clear the start. */
  function PausePatch(src: SwSource, startMs: int, nowMs: int): (p: TaskPatch)
    ensures p.stopwatchElapsed == Val(CalcElapsed(src.elapsed, src.started, startMs, nowMs))
    ensures p.stopwatchStartedAt == Nil
    ensures p.(stopwatchElapsed := Absent, stopwatchStartedAt := Absent) == NoTaskChange
  {
    NoTaskChange.(
      stopwatchElapsed := Val(CalcElapsed(src.elapsed, src.started, startMs, nowMs)),
      stopwatchStartedAt := Nil)
  }

  /** Stop: zero the total and clear the start. */
  const StopPatch: TaskPatch := NoTaskChange.(stopwatchElapsed := Val(0), stopwatchStartedAt := Nil)

  /** Start or resume: stamp the start with the local time. */
  function StartPatch(nowLocal: string): (p: TaskPatch)
    ensures p.stopwatchStartedAt == Val(nowLocal)
    ensures p.(stopwatchStartedAt := Absent) == NoTaskChange
  {
    NoTaskChange.(stopwatchStartedAt := Val(nowLocal))
  }

  // ---- what the stopwatch shows ----

  datatype SwState = Idle | Running | Paused

  /** stopwatchHtml (sticker): nothing when the total is 0 and there is no
      start; otherwise "running" when a start is set, else "paused". */
  function StickerSwState(src: SwSource): (s: SwState)
    ensures s == Idle <==> src.elapsed == 0 && src.started == ""
    ensures s == Running <==> src.started != ""
  {
    if src.elapsed == 0 && src.started == "" then Idle
    else if src.started != "" then Running
    else Paused
  }

  /** The task card (main window): shown when the total is positive or a
      start is set; "running" when a start is set, else "paused" when the
      total is positive. */
  function MainSwState(src: SwSource): (s: SwState)
    ensures s == Running <==> src.started != ""
    ensures s == Paused <==> src.started == "" && src.elapsed > 0
  {
    if src.started != "" then Running
    else if src.elapsed > 0 then Paused
    else Idle
  }

  /** The two windows agree for every total the stopwatch itself writes. */
  lemma SwStatesAgree(src: SwSource)
    requires src.elapsed >= 0
    ensures StickerSwState(src) == MainSwState(src)
  {
  }

  /** They disagree on a negative stored total with no start, which
      updateTask accepts from any caller: the sticker shows it as paused,
      the main window hides it. */
  lemma SwStatesDisagreeOnNegative()
    ensures StickerSwState(SwSource(-1, "")) == Paused
    ensures MainSwState(SwSource(-1, "")) == Idle
  {
  }

  // ---- the updates applied to a row ----

  /** Completing a task marks it done, stamps completed_at, resets the
      stopwatch to idle and records the covered minutes when time was
      recorded; title, notes, estimate, priority and date are kept. */
  lemma CompleteTaskWithStopwatch(row: TaskRow, startMs: int, nowMs: int, now: string)
    ensures var src := SwSourceOf(row);
      var total := CalcElapsed(src.elapsed, src.started, startMs, nowMs);
      var r := ApplyTaskPatch(row, CompletionPatch(src, startMs, nowMs), now);
      && IsDone(r) && r.completedAt == Some(now)
      && r.stopwatchElapsed == Some(0) && r.stopwatchStartedAt.None?
      && MainSwState(SwSourceOf(r)) == Idle && StickerSwState(SwSourceOf(r)) == Idle
      && (total > 0 ==> r.actualMinutes.Some? && 60 * (r.actualMinutes.value - 1) < total <= 60 * r.actualMinutes.value)
      && (total <= 0 ==> r.actualMinutes == row.actualMinutes)
      && r.title == row.title && r.description == row.description
      && r.estimateMinutes == row.estimateMinutes && r.priority == row.priority
      && r.targetDate == row.targetDate
  {
  }

  /** Pausing keeps the accumulated total and stops the clock. */
  lemma PauseKeepsTotal(row: TaskRow, startMs: int, nowMs: int, now: string)
    ensures var src := SwSourceOf(row);
      var r := ApplyTaskPatch(row, PausePatch(src, startMs, nowMs), now);
      && r.stopwatchStartedAt.None?
      && r.stopwatchElapsed == Some(CalcElapsed(src.elapsed, src.started, startMs, nowMs))
      && r.stopwatchElapsed.value >= src.elapsed
      && r.status == row.status && r.completedAt == row.completedAt
      && r.actualMinutes == row.actualMinutes
  {
  }

  /** Stopping discards the total: the stopwatch shows nothing. */
  lemma StopClears(row: TaskRow, now: string)
    ensures var r := ApplyTaskPatch(row, StopPatch, now);
      && r.stopwatchElapsed == Some(0) && r.stopwatchStartedAt.None?
      && MainSwState(SwSourceOf(r)) == Idle && StickerSwState(SwSourceOf(r)) == Idle
      && r.status == row.status && r.completedAt == row.completedAt
  {
  }

  /** Starting and then pausing adds the whole seconds between the two
      clicks to the stored total: a resumed stopwatch accumulates. */
  lemma {:induction false} StartThenPauseAccumulates(row: TaskRow, nowLocal: string, startMs: int, nowMs: int, now: string)
    requires nowLocal != ""
    requires startMs <= nowMs
    ensures var started := ApplyTaskPatch(row, StartPatch(nowLocal), now);
      var paused := ApplyTaskPatch(started, PausePatch(SwSourceOf(started), startMs, nowMs), now);
      && MainSwState(SwSourceOf(started)) == Running
      && paused.stopwatchStartedAt.None?
      && paused.stopwatchElapsed == Some(IntOr0(row.stopwatchElapsed) + (nowMs - startMs) / 1000)
  {
    var started := ApplyTaskPatch(row, StartPatch(nowLocal), now);
    assert started.stopwatchStartedAt == Some(nowLocal);
    assert started.stopwatchElapsed == row.stopwatchElapsed;
    assert SwSourceOf(started) == SwSource(IntOr0(row.stopwatchElapsed), nowLocal);
  }
}

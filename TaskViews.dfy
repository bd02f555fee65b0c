/** What the two windows show of a task list (windows/main/renderer.js and
    windows/sticker/renderer.js): the pending totals of the status line
    and of the sticker footer, the in-progress panel, the sticker's lookup
    of a task by id and its focus mode, the expanded-task sets, and a
    card's subtask progress. The list comes from getTodayTasks,
    getTasksByDate or getTasksByProject: top-level tasks with their
    subtasks attached. */
module TaskViews {
  import opened Common
  import opened Rows
  import opened Format
  import opened Stopwatch

  predicate NotDone(t: TaskRow) { !IsDone(t) }

  function Unfinished(): TaskRow -> bool { t => NotDone(t) }

  function Finished(): TaskRow -> bool { t => IsDone(t) }

  // ---- pending totals ----

  /** The subtasks that are not done, in order. */
  function PendingSubs(subs: seq<TaskRow>): (r: seq<TaskRow>)
    ensures forall x :: x in r <==> x in subs && NotDone(x)
    decreases |subs|
  {
    if subs == [] then []
    else
      var s := subs[|subs| - 1];
      assert subs == subs[..|subs| - 1] + [s];
      PendingSubs(subs[..|subs| - 1]) + (if NotDone(s) then [s] else [])
  }

  /** A listed task that is not done counts with its subtasks that are not
      done. */
  function PendingOf(l: Listed): seq<TaskRow>
  {
    [l.task] + PendingSubs(l.subtasks)
  }

  /** The tasks the status line counts (`allPending` in the main window):
      each task that is not done, followed by its subtasks that are not
      done. The subtasks of a done task are not counted. */
  function Pending(ls: seq<Listed>): seq<TaskRow>
    decreases |ls|
  {
    if ls == [] then []
    else
      var last := ls[|ls| - 1];
      Pending(ls[..|ls| - 1]) + (if NotDone(last.task) then PendingOf(last) else [])
  }

  /** The sum of `estimate_minutes || 0`. */
  function EstimateSum(rows: seq<TaskRow>): int
    decreases |rows|
  {
    if rows == [] then 0 else EstimateSum(rows[..|rows| - 1]) + IntOr0(rows[|rows| - 1].estimateMinutes)
  }

  lemma {:induction false} EstimateSumAppend(a: seq<TaskRow>, b: seq<TaskRow>)
    ensures EstimateSum(a + b) == EstimateSum(a) + EstimateSum(b)
    decreases |b|
  {
    if b == [] {
      assert a + b == a;
    } else {
      var b' := b[..|b| - 1];
      assert (a + b)[..|a + b| - 1] == a + b';
      EstimateSumAppend(a, b');
    }
  }

  lemma EstimateSumSnoc(a: seq<TaskRow>, t: TaskRow)
    ensures EstimateSum(a + [t]) == EstimateSum(a) + IntOr0(t.estimateMinutes)
  {
    assert (a + [t])[..|a|] == a;
  }

  lemma PendingSubsStep(subs: seq<TaskRow>, j: int)
    requires 0 <= j < |subs|
    ensures var f, f' := PendingSubs(subs[..j]), PendingSubs(subs[..j + 1]);
      && |f'| == |f| + (if NotDone(subs[j]) then 1 else 0)
      && EstimateSum(f') == EstimateSum(f) + (if NotDone(subs[j]) then IntOr0(subs[j].estimateMinutes) else 0)
  {
    assert subs[..j + 1][..j] == subs[..j];
    var f := PendingSubs(subs[..j]);
    if NotDone(subs[j]) {
      assert PendingSubs(subs[..j + 1]) == f + [subs[j]];
      EstimateSumSnoc(f, subs[j]);
    } else {
      assert PendingSubs(subs[..j + 1]) == f + [];
      assert f + [] == f;
    }
  }

  /** Nothing counted is done; every task that is not done is counted,
      and so is every subtask of it that is not done. */
  lemma {:induction false} PendingMembers(ls: seq<Listed>)
    ensures forall t :: t in Pending(ls) ==> NotDone(t)
    ensures forall i :: 0 <= i < |ls| && NotDone(ls[i].task) ==> ls[i].task in Pending(ls)
    ensures forall i, s :: 0 <= i < |ls| && NotDone(ls[i].task) && s in ls[i].subtasks && NotDone(s) ==> s in Pending(ls)
    decreases |ls|
  {
    if ls != [] {
      var init, last := ls[..|ls| - 1], ls[|ls| - 1];
      PendingMembers(init);
      var tail := if NotDone(last.task) then PendingOf(last) else [];
      assert Pending(ls) == Pending(init) + tail;
      forall t | t in tail
        ensures NotDone(t)
      {
        if t != last.task {
          assert t in PendingSubs(last.subtasks);
        }
      }
      forall i, s | 0 <= i < |ls| && NotDone(ls[i].task) && s in ls[i].subtasks && NotDone(s)
        ensures s in Pending(ls)
      {
        if i < |ls| - 1 {
          assert ls[i] == init[i];
        } else {
          assert s in PendingSubs(last.subtasks);
        }
      }
      forall i | 0 <= i < |ls| && NotDone(ls[i].task)
        ensures ls[i].task in Pending(ls)
      {
        if i < |ls| - 1 {
          assert ls[i] == init[i];
        }
      }
    }
  }

  /** PendingSubs keeps exactly the subtasks that are not done, in order. */
  lemma {:induction false} PendingSubsIsFilter(subs: seq<TaskRow>)
    ensures PendingSubs(subs) == Filter(subs, Unfinished())
    ensures forall x :: multiset(PendingSubs(subs))[x] == if NotDone(x) then multiset(subs)[x] else 0
    decreases |subs|
  {
    if subs != [] {
      PendingSubsIsFilter(subs[..|subs| - 1]);
    }
  }

  /** The counted tasks read entry by entry from the front: each task that
      is not done, then those of its subtasks that are not done. */
  function PendingFromFront(ls: seq<Listed>): seq<TaskRow>
    decreases |ls|
  {
    if ls == [] then []
    else
      (if NotDone(ls[0].task) then [ls[0].task] + Filter(ls[0].subtasks, Unfinished()) else [])
      + PendingFromFront(ls[1..])
  }

  lemma {:induction false} PendingAppend(a: seq<Listed>, b: seq<Listed>)
    ensures Pending(a + b) == Pending(a) + Pending(b)
    decreases |b|
  {
    if b == [] {
      assert a + b == a;
    } else {
      var b', last := b[..|b| - 1], b[|b| - 1];
      assert (a + b)[..|a + b| - 1] == a + b';
      PendingAppend(a, b');
      var tail := if NotDone(last.task) then PendingOf(last) else [];
      AppendAssoc(Pending(a), Pending(b'), tail);
    }
  }

  /** The counted tasks are the same whichever end the list is read from. */
  lemma {:induction false} PendingMatchesFront(ls: seq<Listed>)
    ensures Pending(ls) == PendingFromFront(ls)
    decreases |ls|
  {
    if ls != [] {
      var l, rest := ls[0], ls[1..];
      PendingMatchesFront(rest);
      assert ls == [l] + rest;
      PendingAppend([l], rest);
      PendingSingle(l);
      PendingSubsIsFilter(l.subtasks);
    }
  }

  lemma PendingSingle(l: Listed)
    ensures Pending([l]) == if NotDone(l.task) then PendingOf(l) else []
  {
    assert [l][..0] == [];
  }

  /** The main window's status line totals: the number of pending tasks
      and their estimated minutes. */
  function MainTotals(ls: seq<Listed>): (r: (nat, int))
  {
    (|Pending(ls)|, EstimateSum(Pending(ls)))
  }

  lemma PendingStep(ls: seq<Listed>, i: int)
    requires 0 <= i < |ls|
    ensures Pending(ls[..i + 1]) == Pending(ls[..i]) + (if NotDone(ls[i].task) then PendingOf(ls[i]) else [])
  {
    assert ls[..i + 1][..i] == ls[..i];
  }

  /** Counting a pending task and then its pending subtasks adds its
      share to the totals. */
  lemma PendingOfTotals(acc: seq<Listed>, l: Listed)
    requires NotDone(l.task)
    ensures |Pending(acc) + PendingOf(l)| == |Pending(acc)| + 1 + |PendingSubs(l.subtasks)|
    ensures EstimateSum(Pending(acc) + PendingOf(l)) ==
      EstimateSum(Pending(acc)) + IntOr0(l.task.estimateMinutes) + EstimateSum(PendingSubs(l.subtasks))
  {
    EstimateSumAppend(Pending(acc), PendingOf(l));
    EstimateSumAppend([l.task], PendingSubs(l.subtasks));
    assert EstimateSum([l.task]) == IntOr0(l.task.estimateMinutes) by {
      assert [l.task][..0] == [];
    }
  }

  /** The sticker's footer totals, counted in a loop; they are the main
      window's totals. */
  method StickerTotals(ls: seq<Listed>) returns (totalPending: nat, totalMin: int)
    ensures (totalPending, totalMin) == MainTotals(ls)
  {
    totalPending, totalMin := 0, 0;
    var i := 0;
    while i < |ls|
      invariant 0 <= i <= |ls|
      invariant totalPending == |Pending(ls[..i])| && totalMin == EstimateSum(Pending(ls[..i]))
    {
      var l := ls[i];
      if NotDone(l.task) {
        var before, beforeMin := totalPending, totalMin;
        totalPending := totalPending + 1;
        totalMin := totalMin + IntOr0(l.task.estimateMinutes);
        var j := 0;
        while j < |l.subtasks|
          invariant 0 <= j <= |l.subtasks|
          invariant totalPending == before + 1 + |PendingSubs(l.subtasks[..j])|
          invariant totalMin == beforeMin + IntOr0(l.task.estimateMinutes) + EstimateSum(PendingSubs(l.subtasks[..j]))
        {
          var s := l.subtasks[j];
          PendingSubsStep(l.subtasks, j);
          if NotDone(s) {
            totalPending := totalPending + 1;
            totalMin := totalMin + IntOr0(s.estimateMinutes);
          }
          j := j + 1;
        }
        assert l.subtasks[..j] == l.subtasks;
        PendingStep(ls, i);
        PendingOfTotals(ls[..i], l);
      } else {
        PendingStep(ls, i);
        assert Pending(ls[..i + 1]) == Pending(ls[..i]);
      }
      i := i + 1;
    }
    assert ls[..i] == ls;
  }

  /** updateStatus: "남은 작업 n개". */
  function StatusHead(count: nat): string { "남은 작업 " + NatStr(count) + "개" }

  /** The status line: its head, followed by " | 예상 " and the estimate
      when there is any. */
  function StatusLine(count: nat, minutes: int): string
  {
    if minutes > 0 then StatusHead(count) + " | 예상 " + FormatMinutes(minutes) else StatusHead(count)
  }

  /** The sticker footer: "n개 남음". */
  function FooterHead(count: nat): string { NatStr(count) + "개 남음" }

  /** The sticker footer: empty for an empty list, else its head, followed
      by " | " and the estimate when there is any. */
  function StickerFooter(ls: seq<Listed>, count: nat, minutes: int): string
  {
    if ls == [] then ""
    else if minutes > 0 then FooterHead(count) + " | " + FormatMin(minutes)
    else FooterHead(count)
  }

  lemma ReadBackAfter(pre: string, d: string, m: int, u: Units)
    requires ParseDuration(d, u) == Some(m)
    ensures |pre| <= |pre + d| && (pre + d)[..|pre|] == pre && ParseDuration((pre + d)[|pre|..], u) == Some(m)
  {
    assert (pre + d)[|pre|..] == d;
  }

  /** The status line shows the count and, when there is an estimate,
      ends with a duration that reads back as its minutes. */
  lemma StatusLineReadBack(count: nat, minutes: int)
    ensures ParseNat(NatStr(count)) == count
    ensures var pre := StatusHead(count) + " | 예상 ";
      var line := StatusLine(count, minutes);
      && (minutes <= 0 ==> line == StatusHead(count))
      && (minutes > 0 ==> |pre| <= |line| && line[..|pre|] == pre && ParseDuration(line[|pre|..], Korean) == Some(minutes))
  {
    ParseNatStr(count);
    if minutes > 0 {
      DurationsAgree(minutes);
      ReadBackAfter(StatusHead(count) + " | 예상 ", FormatMinutes(minutes), minutes, Korean);
    }
  }

  /** The footer is empty only for an empty list; otherwise it shows the
      count and, when there is an estimate, ends with a duration that
      reads back as its minutes. */
  lemma FooterReadBack(ls: seq<Listed>, count: nat, minutes: int)
    ensures var pre := FooterHead(count) + " | ";
      var footer := StickerFooter(ls, count, minutes);
      && (footer == "" <==> ls == [])
      && (ls != [] && minutes <= 0 ==> footer == FooterHead(count))
      && (ls != [] && minutes > 0 ==> |pre| <= |footer| && footer[..|pre|] == pre && ParseDuration(footer[|pre|..], Compact) == Some(minutes))
  {
    if ls != [] && minutes > 0 {
      DurationsAgree(minutes);
      ReadBackAfter(FooterHead(count) + " | ", FormatMin(minutes), minutes, Compact);
    }
  }

  // ---- in progress ----

  /** A task as a window shows it, with the title of its parent when it
      is a subtask (`_parentTitle`). */
  datatype Shown = Shown(task: TaskRow, parentTitle: Option<string>)

  /** Shown in the in-progress panel: a start is set and it is not done. */
  predicate Runs(t: TaskRow) { StrOrNull(t.stopwatchStartedAt).Some? && NotDone(t) }

  function RunningSubs(subs: seq<TaskRow>, title: string): seq<Shown>
    decreases |subs|
  {
    if subs == [] then []
    else
      var s := subs[|subs| - 1];
      RunningSubs(subs[..|subs| - 1], title) + (if Runs(s) then [Shown(s, Some(title))] else [])
  }

  function RunningOf(l: Listed): seq<Shown>
  {
    (if Runs(l.task) then [Shown(l.task, None)] else []) + RunningSubs(l.subtasks, l.task.title)
  }

  /** The in-progress panel's list: each running task, followed by its
      running subtasks, which carry its title. */
  function InProgressList(ls: seq<Listed>): seq<Shown>
    decreases |ls|
  {
    if ls == [] then [] else InProgressList(ls[..|ls| - 1]) + RunningOf(ls[|ls| - 1])
  }

  lemma RunningSubsStep(subs: seq<TaskRow>, j: int, title: string)
    requires 0 <= j < |subs|
    ensures RunningSubs(subs[..j + 1], title) ==
      RunningSubs(subs[..j], title) + (if Runs(subs[j]) then [Shown(subs[j], Some(title))] else [])
  {
    assert subs[..j + 1][..j] == subs[..j];
  }

  lemma InProgressStep(ls: seq<Listed>, i: int)
    requires 0 <= i < |ls|
    ensures InProgressList(ls[..i + 1]) == InProgressList(ls[..i]) + RunningOf(ls[i])
  {
    assert ls[..i + 1][..i] == ls[..i];
  }

  /** renderInProgress's loop. */
  method InProgress(ls: seq<Listed>) returns (running: seq<Shown>)
    ensures running == InProgressList(ls)
  {
    running := [];
    var i := 0;
    while i < |ls|
      invariant 0 <= i <= |ls|
      invariant running == InProgressList(ls[..i])
    {
      var t := ls[i];
      var head := if Runs(t.task) then [Shown(t.task, None)] else [];
      var before := running + head;
      running := before;
      var j := 0;
      while j < |t.subtasks|
        invariant 0 <= j <= |t.subtasks|
        invariant running == before + RunningSubs(t.subtasks[..j], t.task.title)
      {
        var s := t.subtasks[j];
        RunningSubsStep(t.subtasks, j, t.task.title);
        if Runs(s) {
          running := running + [Shown(s, Some(t.task.title))];
        }
        j := j + 1;
      }
      assert t.subtasks[..j] == t.subtasks;
      AppendAssoc(InProgressList(ls[..i]), head, RunningSubs(t.subtasks, t.task.title));
      InProgressStep(ls, i);
      i := i + 1;
    }
    assert ls[..i] == ls;
  }

  lemma {:induction false} RunningSubsMembers(subs: seq<TaskRow>, title: string)
    ensures forall x :: x in RunningSubs(subs, title) <==> x.task in subs && Runs(x.task) && x.parentTitle == Some(title)
    decreases |subs|
  {
    if subs != [] {
      var init := subs[..|subs| - 1];
      RunningSubsMembers(init, title);
      assert subs == init + [subs[|subs| - 1]];
    }
  }

  lemma RunningOfMembers(l: Listed)
    ensures forall x :: x in RunningOf(l) <==>
      (Runs(l.task) && x == Shown(l.task, None)) || (x.task in l.subtasks && Runs(x.task) && x.parentTitle == Some(l.task.title))
  {
    RunningSubsMembers(l.subtasks, l.task.title);
  }

  /** A task the panel shows is one both windows draw as running. */
  lemma RunsIsRunning(t: TaskRow)
    requires Runs(t)
    ensures MainSwState(SwSourceOf(t)) == Running && StickerSwState(SwSourceOf(t)) == Running
  {
  }

  /** `x` is shown for the entry `l`: the task itself, untagged, or one
      of its subtasks tagged with its title; either way it runs. */
  predicate ShownFrom(x: Shown, l: Listed)
  {
    || (x == Shown(l.task, None) && Runs(l.task))
    || (x.task in l.subtasks && Runs(x.task) && x.parentTitle == Some(l.task.title))
  }

  /** Exactly the running tasks and running subtasks are shown, each
      subtask with the title of the task it is listed under. */
  lemma {:induction false} RunningMembers(ls: seq<Listed>)
    ensures forall x :: x in InProgressList(ls) ==> Runs(x.task)
    ensures forall x :: x in InProgressList(ls) ==> exists i :: 0 <= i < |ls| && ShownFrom(x, ls[i])
    ensures forall i :: 0 <= i < |ls| && Runs(ls[i].task) ==> Shown(ls[i].task, None) in InProgressList(ls)
    ensures forall i, s :: 0 <= i < |ls| && s in ls[i].subtasks && Runs(s) ==>
      Shown(s, Some(ls[i].task.title)) in InProgressList(ls)
    decreases |ls|
  {
    if ls != [] {
      var init, last := ls[..|ls| - 1], ls[|ls| - 1];
      RunningMembers(init);
      RunningOfMembers(last);
      assert InProgressList(ls) == InProgressList(init) + RunningOf(last);
      forall i | 0 <= i < |ls| && Runs(ls[i].task)
        ensures Shown(ls[i].task, None) in InProgressList(ls)
      {
        if i < |ls| - 1 {
          assert ls[i] == init[i];
        }
      }
      forall i, s | 0 <= i < |ls| && s in ls[i].subtasks && Runs(s)
        ensures Shown(s, Some(ls[i].task.title)) in InProgressList(ls)
      {
        if i < |ls| - 1 {
          assert ls[i] == init[i];
        }
      }
      forall x | x in InProgressList(ls)
        ensures exists i :: 0 <= i < |ls| && ShownFrom(x, ls[i])
      {
        if x in InProgressList(init) {
          var i :| 0 <= i < |init| && ShownFrom(x, init[i]);
          assert ls[i] == init[i];
        } else {
          assert ShownFrom(x, ls[|ls| - 1]);
        }
      }
    }
  }

  // ---- findTaskById ----

  /** The first task with id `id`, looking at each listed task and then
      at its subtasks, in order. */
  function FindIn(ls: seq<Listed>, id: int): Option<Shown>
    decreases |ls|
  {
    if ls == [] then None
    else if ls[0].task.id == id then Some(Shown(ls[0].task, None))
    else match IndexWhere(ls[0].subtasks, (s: TaskRow) => s.id == id)
      case Some(k) => Some(Shown(ls[0].subtasks[k], Some(ls[0].task.title)))
      case None => FindIn(ls[1..], id)
  }

  /** findTaskById's loop. */
  method FindTaskById(ls: seq<Listed>, id: int) returns (r: Option<Shown>)
    ensures r == FindIn(ls, id)
  {
    var i := 0;
    while i < |ls|
      invariant 0 <= i <= |ls|
      invariant FindIn(ls, id) == FindIn(ls[i..], id)
    {
      var t := ls[i];
      assert ls[i..][0] == t && ls[i..][1..] == ls[i + 1..];
      if t.task.id == id {
        return Some(Shown(t.task, None));
      }
      var k := IndexWhere(t.subtasks, (s: TaskRow) => s.id == id);
      if k.Some? {
        return Some(Shown(t.subtasks[k.value], Some(t.task.title)));
      }
      i := i + 1;
    }
    return None;
  }

  /** What is found has the id, a subtask comes with its parent's title;
      nothing is found only when no task and no subtask has the id. */
  lemma {:induction false} FindInSound(ls: seq<Listed>, id: int)
    ensures var r := FindIn(ls, id);
      && (r.Some? ==> r.value.task.id == id)
      && (r.Some? && r.value.parentTitle.None? ==> exists i :: 0 <= i < |ls| && ls[i].task == r.value.task)
      && (r.Some? && r.value.parentTitle.Some? ==>
            exists i :: 0 <= i < |ls| && r.value.task in ls[i].subtasks && r.value.parentTitle == Some(ls[i].task.title))
      && (r.None? ==> forall i :: 0 <= i < |ls| ==> ls[i].task.id != id && forall s :: s in ls[i].subtasks ==> s.id != id)
    decreases |ls|
  {
    if ls != [] && ls[0].task.id != id {
      var k := IndexWhere(ls[0].subtasks, (s: TaskRow) => s.id == id);
      if k.None? {
        FindInSound(ls[1..], id);
        var r := FindIn(ls, id);
        if r.Some? && r.value.parentTitle.None? {
          var i :| 0 <= i < |ls[1..]| && ls[1..][i].task == r.value.task;
          assert ls[i + 1].task == r.value.task;
        }
        if r.Some? && r.value.parentTitle.Some? {
          var i :| 0 <= i < |ls[1..]| && r.value.task in ls[1..][i].subtasks && r.value.parentTitle == Some(ls[1..][i].task.title);
          assert ls[i + 1] == ls[1..][i];
        }
        if r.None? {
          forall i | 0 <= i < |ls|
            ensures ls[i].task.id != id && forall s :: s in ls[i].subtasks ==> s.id != id
          {
            if i > 0 {
              assert ls[i] == ls[1..][i - 1];
            } else {
              forall s | s in ls[0].subtasks
                ensures s.id != id
              {
                var j :| 0 <= j < |ls[0].subtasks| && ls[0].subtasks[j] == s;
              }
            }
          }
        }
      } else {
        assert ls[0].subtasks[k.value] in ls[0].subtasks;
      }
    }
  }

  // ---- expanded tasks ----

  /** `has(id) ? delete(id) : add(id)`. */
  function Toggled(ids: set<int>, id: int): (r: set<int>)
  {
    if id in ids then ids - {id} else ids + {id}
  }

  /** Toggling flips the one id, keeps every other, and toggling twice
      restores the set. */
  lemma ToggleFlips(ids: set<int>, id: int)
    ensures id in Toggled(ids, id) <==> id !in ids
    ensures forall x :: x != id ==> (x in Toggled(ids, id) <==> x in ids)
    ensures Toggled(Toggled(ids, id), id) == ids
  {
  }

  /** The set of tasks whose subtasks are shown (`expandedTasks` in the
      main window, `expandedSticker` in the sticker). */
  class Expanded {
    var ids: set<int>

    constructor ()
      ensures ids == {}
    {
      ids := {};
    }

    /** The expand button. */
    method Toggle(id: int)
      modifies this
      ensures ids == Toggled(old(ids), id)
    {
      if id in ids {
        ids := ids - {id};
      } else {
        ids := ids + {id};
      }
    }

    /** The add-subtask button: expands without toggling. */
    method Add(id: int)
      modifies this
      ensures ids == old(ids) + {id}
    {
      ids := ids + {id};
    }
  }

  // ---- a card's progress ----

  function DoneCount(subs: seq<TaskRow>): (n: nat)
    ensures n <= |subs|
    ensures n == |Filter(subs, Finished())|
    decreases |subs|
  {
    if subs == [] then 0 else DoneCount(subs[..|subs| - 1]) + (if IsDone(subs[|subs| - 1]) then 1 else 0)
  }

  /** Every subtask is either done or pending. */
  lemma {:induction false} DoneCountSplits(subs: seq<TaskRow>)
    ensures DoneCount(subs) + |PendingSubs(subs)| == |subs|
    decreases |subs|
  {
    if subs != [] {
      DoneCountSplits(subs[..|subs| - 1]);
    }
  }

  /** Math.round(done / total * 100) in exact arithmetic: the nearest
      percentage, halves rounded up. */
  function ProgressPercent(done: nat, total: nat): int
  {
    if total == 0 then 0 else (200 * done + total) / (2 * total)
  }

  /** The percentage is within 0..100, is the nearest one to
      done/total, and is 0 with nothing done and 100 with everything done. */
  lemma ProgressBounds(done: nat, total: nat)
    requires done <= total
    ensures var r := ProgressPercent(done, total);
      && 0 <= r <= 100
      && (total > 0 ==> 2 * total * r <= 200 * done + total < 2 * total * r + 2 * total)
      && (done == 0 ==> r == 0)
      && (total > 0 && done == total ==> r == 100)
  {
    if total > 0 {
      var n, k := 200 * done + total, 2 * total;
      var r := n / k;
      QuotientBounds(n, k);
      if r > 100 {
        MulMono(k, 101, r);
      }
      if done == 0 {
        QuotientUnique(n, k, 0);
      }
      if done == total {
        QuotientUnique(n, k, 100);
      }
    }
  }

  lemma QuotientBounds(n: nat, k: int)
    requires k > 0
    ensures k * (n / k) <= n < k * (n / k) + k
  {
  }

  lemma QuotientUnique(n: nat, k: int, q: int)
    requires k > 0 && k * q <= n < k * q + k
    ensures n / k == q
  {
    QuotientBounds(n, k);
    var r := n / k;
    if r < q {
      MulMono(k, r + 1, q);
    } else if r > q {
      MulMono(k, q + 1, r);
    }
  }

  lemma MulMono(k: nat, a: int, b: int)
    requires a <= b
    ensures k * a <= k * b
  {
  }

  // ---- the sticker's focus mode ----

  datatype StickerView = FocusView(shown: Shown) | ListView

  /** The sticker's focused task (`focusTaskId`). */
  class StickerFocus {
    var focusTaskId: Option<int>

    constructor ()
      ensures focusTaskId.None?
    {
      focusTaskId := None;
    }

    /** loadTasks: while a (truthy) focus id names a task or subtask of the
        list that is not done, the sticker shows that task alone; otherwise
        the focus is dropped and the list is shown. */
    method LoadTasks(ls: seq<Listed>) returns (view: StickerView)
      modifies this
      ensures var f := if IntOrNull(old(focusTaskId)).Some? then FindIn(ls, old(focusTaskId).value) else None;
        if f.Some? && NotDone(f.value.task) then view == FocusView(f.value) && focusTaskId == old(focusTaskId)
        else view == ListView && focusTaskId == (if IntOrNull(old(focusTaskId)).Some? then None else old(focusTaskId))
    {
      if IntOrNull(focusTaskId).Some? {
        var found := FindTaskById(ls, focusTaskId.value);
        if found.Some? && NotDone(found.value.task) {
          return FocusView(found.value);
        }
        focusTaskId := None;
      }
      return ListView;
    }

    /** The back button. */
    method Back()
      modifies this
      ensures focusTaskId.None?
    {
      focusTaskId := None;
    }

    /** The complete button: the completion update of the focused task,
        and the focus is dropped. */
    method CompleteFocused(src: SwSource, startMs: int, nowMs: int) returns (p: TaskPatch)
      modifies this
      ensures p == CompletionPatch(src, startMs, nowMs) && focusTaskId.None?
    {
      p := CompletionPatch(src, startMs, nowMs);
      focusTaskId := None;
    }

    /** The context menu's focus item: starts the stopwatch unless it runs,
        and focuses the task. */
    method Focus(id: int, isRunning: bool, nowLocal: string) returns (start: Option<TaskPatch>)
      modifies this
      ensures start == if isRunning then None else Some(StartPatch(nowLocal))
      ensures focusTaskId == Some(id)
    {
      start := if isRunning then None else Some(StartPatch(nowLocal));
      focusTaskId := Some(id);
    }
  }

  /** Focusing a pending task of the list shows it alone, with its
      parent's title when it is a subtask; a done or missing one returns to
      the list. The id 0 is falsy: it stays stored but is never shown. */
  method FocusThenLoad(st: StickerFocus, ls: seq<Listed>, id: int, nowLocal: string) returns (view: StickerView)
    modifies st
    ensures id == 0 ==> view == ListView && st.focusTaskId == Some(0)
    ensures var f := FindIn(ls, id);
      && (id != 0 && f.Some? && NotDone(f.value.task) ==> view == FocusView(f.value) && st.focusTaskId == Some(id))
      && (id != 0 && (f.None? || IsDone(f.value.task)) ==> view == ListView && st.focusTaskId.None?)
  {
    var _ := st.Focus(id, true, nowLocal);
    view := st.LoadTasks(ls);
  }
}

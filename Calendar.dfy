/** The calendar of the main window (renderCalendar): the month's completed
    tasks filed by day, each day's list with subtasks under their parents,
    the cell preview, the month summary, and the navigation state that the
    prev/next buttons and the day cells change. The HTML itself, the grid
    layout (first weekday, days in the month) and "today" are left out. */
module Calendar {
  import opened Common
  import opened Rows
  import opened Queries

  /** The day a completed task is filed under: the first ten characters of
      completed_at, or none when it is null or empty. */
  function DayKey(t: TaskRow): (k: Option<string>)
    ensures k.Some? <==> t.completedAt.Some? && t.completedAt.value != ""
    ensures k.Some? ==> 1 <= |k.value| <= 10 && k.value <= t.completedAt.value
    ensures k.Some? ==> |k.value| == if |t.completedAt.value| < 10 then |t.completedAt.value| else 10
  {
    if t.completedAt.Some? && t.completedAt.value != "" then
      var c := t.completedAt.value;
      Some(if |c| <= 10 then c else c[..10])
    else None
  }

  function OnDay(d: string): TaskRow -> bool { t => DayKey(t) == Some(d) }

  /** The tasks filed under day `d`, in query order. */
  function DayRows(rows: seq<TaskRow>, d: string): seq<TaskRow>
  {
    Filter(rows, OnDay(d))
  }

  /** The days in the order they first appear: the order of the keys of
      the `byDay` object. */
  function DayOrder(rows: seq<TaskRow>): seq<string>
    decreases |rows|
  {
    if rows == [] then []
    else
      var order := DayOrder(rows[..|rows| - 1]);
      var k := DayKey(rows[|rows| - 1]);
      if k.Some? && k.value !in order then order + [k.value] else order
  }

  predicate NoRepeats(s: seq<string>)
  {
    forall i, j :: 0 <= i < j < |s| ==> s[i] != s[j]
  }

  lemma DayRowsSnoc(rows: seq<TaskRow>, t: TaskRow, d: string)
    ensures DayRows(rows + [t], d) == DayRows(rows, d) + (if DayKey(t) == Some(d) then [t] else [])
  {
    assert (rows + [t])[..|rows|] == rows;
  }

  /** A day is listed exactly when some task is filed under it, and no day
      is listed twice. */
  lemma {:induction false} DayOrderMembers(rows: seq<TaskRow>)
    ensures NoRepeats(DayOrder(rows))
    ensures forall d :: d in DayOrder(rows) <==> DayRows(rows, d) != []
    decreases |rows|
  {
    if rows != [] {
      var init, last := rows[..|rows| - 1], rows[|rows| - 1];
      assert rows == init + [last];
      DayOrderMembers(init);
      forall d
        ensures d in DayOrder(rows) <==> DayRows(rows, d) != []
      {
        DayRowsSnoc(init, last, d);
      }
    }
  }

  /** `days` and `byDay` file exactly the rows `rows`. */
  predicate FiledAs(rows: seq<TaskRow>, days: seq<string>, byDay: map<string, seq<TaskRow>>)
  {
    && days == DayOrder(rows)
    && byDay.Keys == set d | d in days
    && forall d :: d in byDay ==> byDay[d] == DayRows(rows, d)
  }

  /** Filing one more row: nowhere when it has no day, under a day
      already seen, or under a new day appended to the order. */
  lemma FileUndated(rows: seq<TaskRow>, t: TaskRow, days: seq<string>, byDay: map<string, seq<TaskRow>>)
    requires FiledAs(rows, days, byDay) && DayKey(t).None?
    ensures FiledAs(rows + [t], days, byDay)
  {
    assert (rows + [t])[..|rows|] == rows;
    forall d | d in byDay
      ensures byDay[d] == DayRows(rows + [t], d)
    {
      DayRowsSnoc(rows, t, d);
    }
  }

  lemma FileSeenDay(rows: seq<TaskRow>, t: TaskRow, days: seq<string>, byDay: map<string, seq<TaskRow>>)
    requires FiledAs(rows, days, byDay) && DayKey(t).Some? && DayKey(t).value in byDay
    ensures FiledAs(rows + [t], days, byDay[DayKey(t).value := byDay[DayKey(t).value] + [t]])
  {
    var k := DayKey(t).value;
    var byDay' := byDay[k := byDay[k] + [t]];
    assert (rows + [t])[..|rows|] == rows;
    assert k in days;
    forall d | d in byDay'
      ensures byDay'[d] == DayRows(rows + [t], d)
    {
      DayRowsSnoc(rows, t, d);
    }
  }

  lemma FileNewDay(rows: seq<TaskRow>, t: TaskRow, days: seq<string>, byDay: map<string, seq<TaskRow>>)
    requires FiledAs(rows, days, byDay) && DayKey(t).Some? && DayKey(t).value !in byDay
    ensures FiledAs(rows + [t], days + [DayKey(t).value], byDay[DayKey(t).value := [t]])
  {
    var k := DayKey(t).value;
    var byDay' := byDay[k := [t]];
    assert (rows + [t])[..|rows|] == rows;
    assert k !in days;
    DayOrderMembers(rows);
    assert DayRows(rows, k) == [];
    assert byDay'.Keys == set d | d in days + [k];
    forall d | d in byDay'
      ensures byDay'[d] == DayRows(rows + [t], d)
    {
      DayRowsSnoc(rows, t, d);
    }
  }

  /** The first loop of renderCalendar: files every completed task with a
      day under that day, keeping the days in first-seen order. */
  method BucketByDay(completed: seq<TaskRow>) returns (days: seq<string>, byDay: map<string, seq<TaskRow>>)
    ensures days == DayOrder(completed)
    ensures byDay.Keys == set d | d in days
    ensures forall d :: d in byDay ==> byDay[d] == DayRows(completed, d)
  {
    days, byDay := [], map[];
    var i := 0;
    while i < |completed|
      invariant 0 <= i <= |completed|
      invariant FiledAs(completed[..i], days, byDay)
    {
      var t := completed[i];
      assert completed[..i + 1] == completed[..i] + [t];
      var k := DayKey(t);
      if k.None? {
        FileUndated(completed[..i], t, days, byDay);
      } else if k.value in byDay {
        FileSeenDay(completed[..i], t, days, byDay);
        byDay := byDay[k.value := byDay[k.value] + [t]];
      } else {
        FileNewDay(completed[..i], t, days, byDay);
        byDay := byDay[k.value := [t]];
        days := days + [k.value];
      }
      i := i + 1;
    }
    assert completed[..i] == completed;
  }

  // ---- one day's list ----

  /** A task as a day lists it, with the subtasks shown under it. */
  datatype Entry = Entry(task: TaskRow, subs: seq<TaskRow>)

  /** `!t.parent_id`: no parent, or the falsy parent 0. */
  predicate IsRoot(t: TaskRow) { IntOrNull(t.parentId).None? }

  function RootF(): TaskRow -> bool { t => IsRoot(t) }

  function ChildF(): TaskRow -> bool { t => !IsRoot(t) }

  function IdsOf(ps: seq<TaskRow>): set<int>
    decreases |ps|
  {
    if ps == [] then {} else IdsOf(ps[..|ps| - 1]) + {ps[|ps| - 1].id}
  }

  /** `parents.some(p => p.id === c.parent_id)`. */
  predicate HasParentIn(c: TaskRow, ps: seq<TaskRow>)
  {
    c.parentId.Some? && c.parentId.value in IdsOf(ps)
  }

  function OrphanOf(ps: seq<TaskRow>): TaskRow -> bool { c => !HasParentIn(c, ps) }

  /** Each parent with its children of the same day. */
  function Groups(ps: seq<TaskRow>, cs: seq<TaskRow>): (r: seq<Entry>)
    ensures |r| == |ps|
    decreases |ps|
  {
    if ps == [] then []
    else
      var p := ps[|ps| - 1];
      Groups(ps[..|ps| - 1], cs) + [Entry(p, Filter(cs, ChildOf(p.id)))]
  }

  function Leaves(os: seq<TaskRow>): (r: seq<Entry>)
    ensures |r| == |os|
    decreases |os|
  {
    if os == [] then [] else Leaves(os[..|os| - 1]) + [Entry(os[|os| - 1], [])]
  }

  /** The list of one day: its top-level tasks, each with its children
      completed the same day, then the children whose parent is not among
      them, with no subtasks. */
  function GroupDay(tasks: seq<TaskRow>): (r: seq<Entry>)
  {
    var parents := Filter(tasks, RootF());
    var children := Filter(tasks, ChildF());
    Groups(parents, children) + Leaves(Filter(children, OrphanOf(parents)))
  }

  /** Each key of `groupByDay` is a filed day, holding that day's list. */
  predicate GroupedAs(byDay: map<string, seq<TaskRow>>, groupByDay: map<string, seq<Entry>>)
  {
    forall d :: d in groupByDay ==> d in byDay && groupByDay[d] == GroupDay(byDay[d])
  }

  lemma GroupOneDay(byDay: map<string, seq<TaskRow>>, groupByDay: map<string, seq<Entry>>, d: string)
    requires GroupedAs(byDay, groupByDay) && d in byDay
    ensures GroupedAs(byDay, groupByDay[d := GroupDay(byDay[d])])
  {
  }

  /** The second loop of renderCalendar: each filed day's list. */
  method GroupAllDays(days: seq<string>, byDay: map<string, seq<TaskRow>>) returns (groupByDay: map<string, seq<Entry>>)
    requires forall d :: d in days ==> d in byDay
    ensures groupByDay.Keys == set d | d in days
    ensures forall d :: d in groupByDay ==> groupByDay[d] == GroupDay(byDay[d])
  {
    groupByDay := map[];
    var i := 0;
    while i < |days|
      invariant 0 <= i <= |days|
      invariant forall d :: d in groupByDay <==> d in days[..i]
      invariant GroupedAs(byDay, groupByDay)
    {
      var d := days[i];
      assert days[..i + 1] == days[..i] + [d];
      GroupOneDay(byDay, groupByDay, d);
      groupByDay := groupByDay[d := GroupDay(byDay[d])];
      i := i + 1;
    }
    assert days[..i] == days;
  }

  /** Every task shown, a listed task followed by its subtasks. */
  function Flatten(es: seq<Entry>): seq<TaskRow>
    decreases |es|
  {
    if es == [] then []
    else
      var e := es[|es| - 1];
      Flatten(es[..|es| - 1]) + ([e.task] + e.subs)
  }

  predicate DistinctIds(ps: seq<TaskRow>)
    decreases |ps|
  {
    ps == [] || (ps[|ps| - 1].id !in IdsOf(ps[..|ps| - 1]) && DistinctIds(ps[..|ps| - 1]))
  }

  lemma {:induction false} FilterIds(s: seq<TaskRow>, p: TaskRow -> bool)
    requires DistinctIds(s)
    ensures IdsOf(Filter(s, p)) <= IdsOf(s)
    ensures DistinctIds(Filter(s, p))
    decreases |s|
  {
    if s != [] {
      var init := s[..|s| - 1];
      FilterIds(init, p);
      var f := Filter(init, p);
      if p(s[|s| - 1]) {
        assert (f + [s[|s| - 1]])[..|f|] == f;
      }
    }
  }

  lemma {:induction false} FlattenAppend(a: seq<Entry>, b: seq<Entry>)
    ensures Flatten(a + b) == Flatten(a) + Flatten(b)
    decreases |b|
  {
    if b == [] {
      assert a + b == a;
    } else {
      var b', e := b[..|b| - 1], b[|b| - 1];
      var x := [e.task] + e.subs;
      assert (a + b)[..|a + b| - 1] == a + b';
      assert (a + b)[|a + b| - 1] == e;
      assert Flatten(a + b) == Flatten(a + b') + x;
      FlattenAppend(a, b');
      assert Flatten(b) == Flatten(b') + x;
      AppendAssoc(Flatten(a), Flatten(b'), x);
    }
  }

  lemma {:induction false} FlattenLeaves(os: seq<TaskRow>)
    ensures Flatten(Leaves(os)) == os
    decreases |os|
  {
    if os != [] {
      var init := os[..|os| - 1];
      assert Leaves(os)[..|os| - 1] == Leaves(init);
      FlattenLeaves(init);
      assert os == init + [os[|os| - 1]];
    }
  }

  /** Parents with distinct ids hand out every child exactly once: to its
      parent, or to the orphans. */
  lemma {:induction false} GroupsCover(ps: seq<TaskRow>, cs: seq<TaskRow>)
    requires DistinctIds(ps)
    ensures multiset(Flatten(Groups(ps, cs))) + multiset(Filter(cs, OrphanOf(ps)))
      == multiset(ps) + multiset(cs)
    decreases |ps|
  {
    if ps == [] {
      assert forall x :: OrphanOf(ps)(x);
    } else {
      var init, p := ps[..|ps| - 1], ps[|ps| - 1];
      var kids := Filter(cs, ChildOf(p.id));
      assert ps == init + [p];
      GroupsSnoc(init, p, cs);
      GroupsCover(init, cs);
      OrphanStep(init, p, cs);
      CombineCounts(multiset(Flatten(Groups(init, cs))), multiset(kids), multiset(Filter(cs, OrphanOf(ps))),
        multiset(Filter(cs, OrphanOf(init))), multiset(init), multiset(cs), p);
    }
  }

  lemma GroupsSnoc(init: seq<TaskRow>, p: TaskRow, cs: seq<TaskRow>)
    ensures multiset(Flatten(Groups(init + [p], cs)))
      == multiset(Flatten(Groups(init, cs))) + multiset{p} + multiset(Filter(cs, ChildOf(p.id)))
  {
    var ps := init + [p];
    var kids := Filter(cs, ChildOf(p.id));
    var g := Groups(ps, cs);
    assert ps[..|ps| - 1] == init;
    assert g == Groups(init, cs) + [Entry(p, kids)];
    assert g[..|g| - 1] == Groups(init, cs) && g[|g| - 1] == Entry(p, kids);
    assert Flatten(g) == Flatten(Groups(init, cs)) + ([p] + kids);
  }

  lemma CombineCounts(f0: multiset<TaskRow>, kids: multiset<TaskRow>, oPs: multiset<TaskRow>,
    oInit: multiset<TaskRow>, init: multiset<TaskRow>, cs: multiset<TaskRow>, p: TaskRow)
    requires f0 + oInit == init + cs
    requires kids + oPs == oInit
    ensures f0 + multiset{p} + kids + oPs == init + multiset{p} + cs
  {
    forall x
      ensures (f0 + multiset{p} + kids + oPs)[x] == (init + multiset{p} + cs)[x]
    {
      assert (f0 + oInit)[x] == (init + cs)[x];
      assert (kids + oPs)[x] == oInit[x];
    }
  }

  /** The children of a new parent leave the orphans. */
  lemma OrphanStep(init: seq<TaskRow>, p: TaskRow, cs: seq<TaskRow>)
    requires p.id !in IdsOf(init)
    ensures multiset(Filter(cs, ChildOf(p.id))) + multiset(Filter(cs, OrphanOf(init + [p])))
      == multiset(Filter(cs, OrphanOf(init)))
  {
    var ps := init + [p];
    assert ps[..|ps| - 1] == init;
    assert IdsOf(ps) == IdsOf(init) + {p.id};
    var kids, oPs, oInit := Filter(cs, ChildOf(p.id)), Filter(cs, OrphanOf(ps)), Filter(cs, OrphanOf(init));
    forall x
      ensures multiset(kids)[x] + multiset(oPs)[x] == multiset(oInit)[x]
    {
      assert OrphanOf(ps)(x) == !HasParentIn(x, ps);
      assert OrphanOf(init)(x) == !HasParentIn(x, init);
      assert ChildOf(p.id)(x) == (x.parentId == Some(p.id));
    }
  }

  /** Every task of the day is shown exactly once, as a listed task or as a
      subtask under its parent, provided the day's tasks have distinct ids
      (they are rows of one table). */
  lemma GroupDayCovers(tasks: seq<TaskRow>)
    requires DistinctIds(tasks)
    ensures multiset(Flatten(GroupDay(tasks))) == multiset(tasks)
  {
    var parents := Filter(tasks, RootF());
    var children := Filter(tasks, ChildF());
    var orphans := Filter(children, OrphanOf(parents));
    FilterIds(tasks, RootF());
    GroupsCover(parents, children);
    FlattenAppend(Groups(parents, children), Leaves(orphans));
    FlattenLeaves(orphans);
    RootsAndChildren(tasks);
    CombineHalves(multiset(Flatten(Groups(parents, children))), multiset(orphans),
      multiset(parents), multiset(children), multiset(tasks));
  }

  /** The top-level tasks and the children split the day. */
  lemma RootsAndChildren(tasks: seq<TaskRow>)
    ensures multiset(Filter(tasks, RootF())) + multiset(Filter(tasks, ChildF())) == multiset(tasks)
  {
    forall x
      ensures (multiset(Filter(tasks, RootF())) + multiset(Filter(tasks, ChildF())))[x] == multiset(tasks)[x]
    {
      assert RootF()(x) == IsRoot(x) && ChildF()(x) == !IsRoot(x);
    }
  }

  lemma CombineHalves(groups: multiset<TaskRow>, orphans: multiset<TaskRow>,
    parents: multiset<TaskRow>, children: multiset<TaskRow>, tasks: multiset<TaskRow>)
    requires groups + orphans == parents + children
    requires parents + children == tasks
    ensures groups + orphans == tasks
  {
  }

  /** The listed tasks come in order: the top-level tasks first, each
      carrying exactly its same-day children, then the orphans, which
      carry nothing. */
  lemma GroupDayShape(tasks: seq<TaskRow>, i: int)
    requires 0 <= i < |GroupDay(tasks)|
    ensures var parents := Filter(tasks, RootF());
      var e := GroupDay(tasks)[i];
      && e.task in tasks
      && (i < |parents| ==> IsRoot(e.task) && forall s :: s in e.subs <==> s in tasks && !IsRoot(s) && s.parentId == Some(e.task.id))
      && (i >= |parents| ==> !IsRoot(e.task) && !HasParentIn(e.task, parents) && e.subs == [])
  {
    var parents := Filter(tasks, RootF());
    var children := Filter(tasks, ChildF());
    var orphans := Filter(children, OrphanOf(parents));
    var g := GroupDay(tasks);
    if i < |parents| {
      GroupsAt(parents, children, i);
      var e := g[i];
      assert e.task == parents[i];
      assert RootF()(e.task);
      forall s
        ensures s in e.subs <==> s in tasks && !IsRoot(s) && s.parentId == Some(e.task.id)
      {
        assert ChildF()(s) == !IsRoot(s);
        assert ChildOf(e.task.id)(s) == (s.parentId == Some(e.task.id));
      }
    } else {
      LeavesAt(orphans, i - |parents|);
      var e := g[i];
      assert e.task == orphans[i - |parents|];
      assert e.task in orphans;
      assert OrphanOf(parents)(e.task) && ChildF()(e.task);
    }
  }

  lemma {:induction false} GroupsAt(ps: seq<TaskRow>, cs: seq<TaskRow>, i: int)
    requires 0 <= i < |ps|
    ensures Groups(ps, cs)[i] == Entry(ps[i], Filter(cs, ChildOf(ps[i].id)))
    decreases |ps|
  {
    if i < |ps| - 1 {
      GroupsAt(ps[..|ps| - 1], cs, i);
    }
  }

  lemma {:induction false} LeavesAt(os: seq<TaskRow>, i: int)
    requires 0 <= i < |os|
    ensures Leaves(os)[i] == Entry(os[i], [])
    decreases |os|
  {
    if i < |os| - 1 {
      LeavesAt(os[..|os| - 1], i);
    }
  }

  // ---- a day's cell and the month summary ----

  /** A cell shows the first three entries and "+n" for the rest. */
  function CellPreview(items: seq<Entry>): (r: (seq<Entry>, Option<nat>))
    ensures |r.0| == if |items| < 3 then |items| else 3
    ensures r.0 == items[..|r.0|]
    ensures r.1.Some? <==> |items| > 3
    ensures r.1.Some? ==> |r.0| + r.1.value == |items|
  {
    if |items| > 3 then (items[..3], Some(|items| - 3)) else (items, None)
  }

  /** The "+n" badge of an entry: its number of subtasks, when there are any. */
  function SubsBadge(e: Entry): (b: Option<nat>)
    ensures b.Some? <==> e.subs != []
    ensures b.Some? ==> b.value == |e.subs|
  {
    if |e.subs| > 0 then Some(|e.subs|) else None
  }

  /** "this month: n done · d active days": every returned row counts,
      and the days are the distinct days of the filed rows. */
  function MonthSummary(completed: seq<TaskRow>): (r: (nat, nat))
  {
    (|completed|, |DayOrder(completed)|)
  }

  lemma {:induction false} MonthSummaryBounds(completed: seq<TaskRow>)
    ensures MonthSummary(completed).1 <= MonthSummary(completed).0
    ensures MonthSummary(completed).1 == 0 <==> forall t :: t in completed ==> DayKey(t).None?
    decreases |completed|
  {
    if completed != [] {
      var init, last := completed[..|completed| - 1], completed[|completed| - 1];
      MonthSummaryBounds(init);
      assert completed == init + [last];
      if DayKey(last).Some? {
        assert DayOrder(completed) != [];
      }
    }
  }

  lemma {:induction false} NoRepeatsCard(s: seq<string>)
    requires NoRepeats(s)
    ensures |set d | d in s| == |s|
    decreases |s|
  {
    if s != [] {
      var init := s[..|s| - 1];
      assert s == init + [s[|s| - 1]];
      assert (set d | d in s) == (set d | d in init) + {s[|s| - 1]};
      NoRepeatsCard(init);
    }
  }

  /** The summary line as renderCalendar computes it: the number of rows
      returned and the number of keys of `byDay`. */
  method SummaryLine(completed: seq<TaskRow>) returns (total: nat, activeDays: nat)
    ensures (total, activeDays) == MonthSummary(completed)
  {
    var days, byDay := BucketByDay(completed);
    DayOrderMembers(completed);
    NoRepeatsCard(days);
    total := |completed|;
    activeDays := |byDay.Keys|;
  }

  // ---- navigation ----

  /** The month after (year, month). */
  function NextMonth(year: int, month: int): (r: (int, int))
  {
    if month + 1 > 12 then (year + 1, 1) else (year, month + 1)
  }

  /** The month before (year, month). */
  function PrevMonth(year: int, month: int): (r: (int, int))
  {
    if month - 1 < 1 then (year - 1, 12) else (year, month - 1)
  }

  /** Months counted from January of year 0. */
  function MonthIndex(year: int, month: int): int { 12 * year + month - 1 }

  /** Next and prev move one month forward and back and keep the month
      in 1..12, so each undoes the other. */
  lemma MonthSteps(year: int, month: int)
    requires 1 <= month <= 12
    ensures var (y, m) := NextMonth(year, month); 1 <= m <= 12 && MonthIndex(y, m) == MonthIndex(year, month) + 1
    ensures var (y, m) := PrevMonth(year, month); 1 <= m <= 12 && MonthIndex(y, m) == MonthIndex(year, month) - 1
    ensures PrevMonth(NextMonth(year, month).0, NextMonth(year, month).1) == (year, month)
    ensures NextMonth(PrevMonth(year, month).0, PrevMonth(year, month).1) == (year, month)
  {
  }

  /** The query range of a month ends where the next month's begins. */
  lemma MonthsTile(year: int, month: int)
    requires 1 <= month <= 12
    ensures MonthBounds(year, month).1 == MonthBounds(NextMonth(year, month).0, NextMonth(year, month).1).0
  {
  }

  /** The calendar's shown month and the day whose detail panel is open. */
  class CalendarNav {
    var year: int
    var month: int
    var selectedDay: Option<string>

    predicate Valid()
      reads this
    {
      1 <= month <= 12
    }

    constructor (year: int, month: int)
      requires 1 <= month <= 12
      ensures Valid()
      ensures this.year == year && this.month == month && selectedDay.None?
    {
      this.year := year;
      this.month := month;
      selectedDay := None;
    }

    /** The previous-month button: closes the detail panel. */
    method Prev()
      modifies this
      ensures (year, month) == PrevMonth(old(year), old(month))
      ensures selectedDay.None?
      ensures old(Valid()) ==> Valid()
    {
      month := month - 1;
      if month < 1 {
        month := 12;
        year := year - 1;
      }
      selectedDay := None;
    }

    /** The next-month button: closes the detail panel. */
    method Next()
      modifies this
      ensures (year, month) == NextMonth(old(year), old(month))
      ensures selectedDay.None?
      ensures old(Valid()) ==> Valid()
    {
      month := month + 1;
      if month > 12 {
        month := 1;
        year := year + 1;
      }
      selectedDay := None;
    }

    /** A click on a day's cell opens its detail panel, or closes it when
      it is already open; a cell without a date does nothing. */
    method SelectDay(date: string)
      modifies this
      ensures year == old(year) && month == old(month)
      ensures date == "" ==> selectedDay == old(selectedDay)
      ensures date != "" && old(selectedDay) == Some(date) ==> selectedDay.None?
      ensures date != "" && old(selectedDay) != Some(date) ==> selectedDay == Some(date)
    {
      if date == "" {
        return;
      }
      selectedDay := if selectedDay == Some(date) then None else Some(date);
    }

    /** The detail panel's close button. */
    method CloseDetail()
      modifies this
      ensures year == old(year) && month == old(month) && selectedDay.None?
    {
      selectedDay := None;
    }
  }

  /** Clicking the same day twice leaves the panel as it was when it was
      closed, and the month untouched. */
  method SelectTwice(nav: CalendarNav, date: string)
    requires nav.selectedDay.None? && date != ""
    modifies nav
    ensures nav.selectedDay.None? && nav.year == old(nav.year) && nav.month == old(nav.month)
  {
    nav.SelectDay(date);
    assert nav.selectedDay == Some(date);
    nav.SelectDay(date);
  }
}

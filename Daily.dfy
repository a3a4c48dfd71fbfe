/** The range view (src/components/pages/Daily.jsx): the tasks due today,
    this week or this month, sorted by priority, with a confirmed delete
    and a small statistics panel. The clock is not modelled: today's date
    string, the day of the week and the week and month bounds are inputs. */
module Daily {
  import opened Tasks
  import opened Seqs
  import opened JsStrings
  import opened IsoDates
  import opened Store

  /** An inclusive pair of `YYYY-MM-DD` bounds, as `getWeekRange` and
      `getMonthRange` return them. */
  datatype Window = Window(start: string, end: string)

  /** What the view reads from the clock: today's date string and the
      bounds of the current week and of the current month. */
  datatype Calendar = Calendar(today: string, week: Window, month: Window)

  /** The days from today back to this week's Monday, as `getWeekRange`
      computes them from `getDay()` (0 is Sunday): the result lands on a
      Monday no more than six days back. */
  function MondayOffset(dayOfWeek: int): (offset: int)
    requires 0 <= dayOfWeek <= 6
    ensures -6 <= offset <= 0
    ensures (dayOfWeek + offset) % 7 == 1
  {
    -dayOfWeek + (if dayOfWeek == 0 then -6 else 1)
  }

  /** The week's Monday and Sunday as days of the month (before `setDate`
      carries them into a neighbouring month): today lies between them and
      they are six days apart. */
  function WeekDays(dayOfMonth: int, dayOfWeek: int): (w: (int, int))
    requires 0 <= dayOfWeek <= 6
    ensures w.0 <= dayOfMonth <= w.1
    ensures w.1 == w.0 + 6
    ensures (dayOfWeek + (w.0 - dayOfMonth)) % 7 == 1
  {
    var monday := dayOfMonth + MondayOffset(dayOfWeek);
    (monday, monday + 6)
  }

  /** Only one offset of at most six days back reaches a Monday, so the
      week always starts on the Monday of the current ISO week. */
  lemma MondayOffsetUnique(dayOfWeek: int, offset: int)
    requires 0 <= dayOfWeek <= 6
    requires -6 <= offset <= 0 && (dayOfWeek + offset) % 7 == 1
    ensures offset == MondayOffset(dayOfWeek)
  {
  }

  /** The `filteredTasks` test: a task without a due date never passes;
      otherwise `day` compares with today's date, `week` and `month` check
      both bounds with JavaScript's string comparison, and any other range
      lets nothing through. */
  function InPeriod(t: Task, timeRange: string, cal: Calendar): (b: bool)
    ensures b ==> t.dueDate != ""
    ensures b ==> timeRange == "day" || timeRange == "week" || timeRange == "month"
    ensures timeRange == "day" ==> (b <==> t.dueDate != "" && t.dueDate == cal.today)
  {
    if t.dueDate == "" then false
    else if timeRange == "day" then t.dueDate == cal.today
    else if timeRange == "week" then
      !LexLess(t.dueDate, cal.week.start) && !LexLess(cal.week.end, t.dueDate)
    else if timeRange == "month" then
      !LexLess(t.dueDate, cal.month.start) && !LexLess(cal.month.end, t.dueDate)
    else false
  }

  /** `filteredTasks`: the store's tasks due in the selected period, in
      store order. */
  function FilteredTasks(ts: seq<Task>, timeRange: string, cal: Calendar): (r: seq<Task>)
    ensures IsSubsequence(r, ts)
    ensures forall t :: t in r <==> t in ts && InPeriod(t, timeRange, cal)
    ensures forall t :: multiset(r)[t] == if InPeriod(t, timeRange, cal) then multiset(ts)[t] else 0
  {
    Filter(ts, (t: Task) => InPeriod(t, timeRange, cal))
  }

  /** A task with an empty or missing due date is never shown. */
  lemma NoDueDateNeverShown(ts: seq<Task>, timeRange: string, cal: Calendar, t: Task)
    requires t.dueDate == ""
    ensures t !in FilteredTasks(ts, timeRange, cal)
  {
  }

  /** For `day`, a task is shown exactly when it is due on today's date. */
  lemma DayShowsExactlyToday(ts: seq<Task>, cal: Calendar, t: Task)
    ensures t in FilteredTasks(ts, "day", cal) <==>
            t in ts && t.dueDate != "" && t.dueDate == cal.today
  {
  }

  /** The bounds of the week and month windows for the range. */
  function WindowOf(timeRange: string, cal: Calendar): Window
  {
    if timeRange == "week" then cal.week else cal.month
  }

  /** For `week` and `month`, `dueDate >= start && dueDate <= end` is the
      inclusive window `start <= dueDate <= end` of the string order. */
  lemma WindowIsInclusive(t: Task, timeRange: string, cal: Calendar)
    requires timeRange == "week" || timeRange == "month"
    ensures var w := WindowOf(timeRange, cal);
            InPeriod(t, timeRange, cal) <==>
              && t.dueDate != ""
              && (w.start == t.dueDate || LexLess(w.start, t.dueDate))
              && (t.dueDate == w.end || LexLess(t.dueDate, w.end))
  {
    var w := WindowOf(timeRange, cal);
    LexTrichotomy(t.dueDate, w.start);
    LexTrichotomy(w.end, t.dueDate);
  }

  /** With well-formed dates the window test is a chronological one: the
      task is due neither before the first day nor after the last. */
  lemma WindowIsChronological(t: Task, timeRange: string, cal: Calendar)
    requires timeRange == "week" || timeRange == "month"
    requires IsDate(t.dueDate)
    requires IsDate(WindowOf(timeRange, cal).start) && IsDate(WindowOf(timeRange, cal).end)
    ensures var w := WindowOf(timeRange, cal);
            InPeriod(t, timeRange, cal) <==>
              !Before(t.dueDate, w.start) && !Before(w.end, t.dueDate)
  {
    var w := WindowOf(timeRange, cal);
    LexIsChronological(t.dueDate, w.start);
    LexIsChronological(w.end, t.dueDate);
  }

  /** A range other than `day`, `week` and `month` shows no task. */
  lemma OtherRangeShowsNothing(ts: seq<Task>, timeRange: string, cal: Calendar)
    requires timeRange != "day" && timeRange != "week" && timeRange != "month"
    ensures FilteredTasks(ts, timeRange, cal) == []
  {
    FilterNonePass(ts, (t: Task) => InPeriod(t, timeRange, cal));
  }

  /** `priorityOrder`: high 1, medium 2, low 3. */
  function PriorityRank(p: Priority): (r: int)
    ensures 1 <= r <= 3
  {
    match p
    case High => 1
    case Medium => 2
    case Low => 3
  }

  function TaskRank(t: Task): int
  {
    PriorityRank(t.priority)
  }

  /** The ranks tell the priorities apart and put high before medium
      before low. */
  lemma RankOrdersPriorities(p: Priority, q: Priority)
    ensures PriorityRank(p) == PriorityRank(q) <==> p == q
    ensures PriorityRank(p) < PriorityRank(q) <==> (p == High && q != High) || (p == Medium && q == Low)
  {
  }


  /** `sortedTasks`: a rearrangement of the filtered tasks with every high
      task before every medium one and every medium before every low one,
      the tasks of each priority in their filtered order (the sort is
      stable). */
  function SortedTasks(filtered: seq<Task>): (r: seq<Task>)
    ensures multiset(r) == multiset(filtered)
    ensures forall i, j :: 0 <= i < j < |r| ==> PriorityRank(r[i].priority) <= PriorityRank(r[j].priority)
    ensures forall p :: OfPriority(r, p) == OfPriority(filtered, p)
  {
    var r := SortBy(filtered, TaskRank);
    SamePriorityClasses(filtered, r);
    r
  }

  /** A priority's tasks are the tasks of its rank, the ranks being distinct. */
  lemma SamePriorityClasses(s: seq<Task>, r: seq<Task>)
    requires forall k :: KeyClass(r, TaskRank, k) == KeyClass(s, TaskRank, k)
    ensures forall p :: OfPriority(r, p) == OfPriority(s, p)
  {
    forall p
      ensures OfPriority(r, p) == OfPriority(s, p)
    {
      var k := PriorityRank(p);
      KeyClassAsFilter(r, TaskRank, k, (t: Task) => t.priority == p);
      KeyClassAsFilter(s, TaskRank, k, (t: Task) => t.priority == p);
    }
  }

  /** Every task has exactly one of the three priorities. */
  lemma {:induction false} PriorityPartition(ts: seq<Task>)
    ensures |OfPriority(ts, High)| + |OfPriority(ts, Medium)| + |OfPriority(ts, Low)| == |ts|
  {
    if ts != [] {
      PriorityPartition(ts[1..]);
    }
  }

  /** The figures of the statistics panel. */
  datatype Stats = Stats(total: nat, high: nat, completed: nat)

  /** The panel counts all filtered tasks, the high-priority ones and the
      completed ones. The high count and the counts of the other two
      priorities add up to the total, and so do the completed count and
      the count of open tasks. */
  function StatsOf(filtered: seq<Task>): (st: Stats)
    ensures st.total == |filtered|
    ensures st.high == |OfPriority(filtered, High)|
    ensures st.completed == |Filter(filtered, IsCompleted)|
    ensures st.high <= st.total && st.completed <= st.total
    ensures st.high + |OfPriority(filtered, Medium)| + |OfPriority(filtered, Low)| == st.total
    ensures st.completed + |Filter(filtered, IsOpen)| == st.total
  {
    PriorityPartition(filtered);
    FilterComplement(filtered, IsCompleted, IsOpen);
    Stats(|filtered|, |OfPriority(filtered, High)|, |Filter(filtered, IsCompleted)|)
  }

  /** `handleDelete`: the store deletes the task only when the user
      confirms; `confirmed` is the answer to the confirmation dialog. */
  method HandleDelete(store: TaskStore, taskId: int, confirmed: bool)
    modifies store
    ensures store.tasks == if confirmed then WithoutId(old(store.tasks), taskId) else old(store.tasks)
  {
    if confirmed {
      store.DeleteTask(taskId);
    }
  }

  /** Of three tasks due yesterday, today and tomorrow, the day view shows
      only today's. */
  lemma DayExample(a: Task, b: Task, c: Task)
    requires a.dueDate == "2024-01-01" && b.dueDate == "2024-01-02" && c.dueDate == "2024-01-03"
    ensures FilteredTasks([a, b, c], "day", Calendar("2024-01-02", Window("", ""), Window("", ""))) == [b]
  {
    var cal := Calendar("2024-01-02", Window("", ""), Window("", ""));
    assert a.dueDate[9] != cal.today[9] && c.dueDate[9] != cal.today[9];
    var r := FilteredTasks([a, b, c], "day", cal);
    assert multiset([a, b, c]) == multiset{a, b, c};
    assert multiset(r) == multiset{b};
    assert |r| == 1 && r[0] in multiset(r);
  }

  /** A low-priority task listed before a high-priority one comes out
      after it. */
  lemma SortExample(a: Task, b: Task)
    requires a.priority == Low && b.priority == High
    ensures SortedTasks([a, b]) == [b, a]
  {
    var r := SortedTasks([a, b]);
    assert a in multiset(r) && b in multiset(r);
  }

  /** "No tasks for the selected period" is shown exactly when no task of
      the store falls in the period; sorting neither adds nor drops one. */
  lemma NoTasksMessage(ts: seq<Task>, timeRange: string, cal: Calendar)
    ensures |SortedTasks(FilteredTasks(ts, timeRange, cal))| == 0 <==>
            forall t :: t in ts ==> !InPeriod(t, timeRange, cal)
  {
    var f := FilteredTasks(ts, timeRange, cal);
    var r := SortedTasks(f);
    if |r| != 0 {
      assert r[0] in multiset(r);
      assert r[0] in f;
    }
  }
}

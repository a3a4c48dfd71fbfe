/** The top-priority page (src/components/pages/mainPage.jsx): the first
    five high-priority tasks, a message when there is none and a note when
    more than five exist. */
module MainPage {
  import opened Tasks
  import opened Seqs

  /** How many tasks the page lists at most (`slice(0, 5)`). */
  const TopLimit: nat := 5

  /** `highPriorityTasks`: the high-priority tasks, in store order. */
  function HighPriorityTasks(ts: seq<Task>): (r: seq<Task>)
    ensures IsSubsequence(r, ts)
    ensures forall t :: t in r <==> t in ts && t.priority == High
    ensures forall t :: multiset(r)[t] == if t.priority == High then multiset(ts)[t] else 0
  {
    OfPriority(ts, High)
  }

  /** `highPriorityTasks.slice(0, 5)`; `slice` stops at the end of a
      shorter list. */
  function TopTasks(ts: seq<Task>): (r: seq<Task>)
    ensures var high := HighPriorityTasks(ts);
            && |r| == (if |high| < TopLimit then |high| else TopLimit)
            && r == high[..|r|]
  {
    var high := HighPriorityTasks(ts);
    if |high| <= TopLimit then high else high[..TopLimit]
  }

  /** What the page shows: the listed tasks, the total the overflow note
      reports, and which of the two messages appear. */
  datatype View = View(top: seq<Task>, highCount: nat, showsEmptyMessage: bool, showsOverflowNote: bool)

  function Render(ts: seq<Task>): (v: View)
    ensures v.top == TopTasks(ts) && v.highCount == |HighPriorityTasks(ts)|
    ensures v.showsEmptyMessage <==> v.top == []
    ensures v.showsOverflowNote ==> |v.top| == TopLimit < v.highCount
    ensures !v.showsOverflowNote ==> v.top == HighPriorityTasks(ts)
  {
    var high := HighPriorityTasks(ts);
    View(TopTasks(ts), |high|, |high| == 0, |high| > TopLimit)
  }

  /** Every listed task is a high-priority task of the store. */
  lemma TopTasksAreStoredHighTasks(ts: seq<Task>)
    ensures forall t :: t in TopTasks(ts) ==> t in ts && t.priority == High
  {
    var high := HighPriorityTasks(ts);
    var top := TopTasks(ts);
    forall t | t in top
      ensures t in high
    {
      var i :| 0 <= i < |top| && top[i] == t;
      assert high[i] == t;
    }
  }

  /** The empty message appears exactly when no task has high priority. */
  lemma EmptyMessageIffNoHighTask(ts: seq<Task>)
    ensures Render(ts).showsEmptyMessage <==> forall i :: 0 <= i < |ts| ==> ts[i].priority != High
  {
    var high := HighPriorityTasks(ts);
    if |high| != 0 {
      assert high[0] in high;
    } else {
      forall i | 0 <= i < |ts|
        ensures ts[i].priority != High
      {
        assert ts[i] in ts;
      }
    }
  }

  /** The overflow note appears exactly when some high-priority task is not
      listed, and it reports the full count of high-priority tasks. */
  lemma OverflowNoteIffTruncated(ts: seq<Task>)
    ensures var v := Render(ts);
            && |v.top| <= v.highCount
            && (v.showsOverflowNote <==> |v.top| < v.highCount)
            && (v.showsOverflowNote ==> |v.top| == TopLimit)
  {
  }
}

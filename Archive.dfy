/** The archive view (src/components/pages/Weekly.jsx): the completed
    tasks whose title or description contains the search term, ignoring
    case, sorted by completion time newest or oldest first. */
module Archive {
  import opened Tasks
  import opened Seqs
  import opened JsStrings
  import opened Store

  /** `new Date(task.completionDate)` in milliseconds; a `null` date reads
      as the epoch. */
  function CompletionTime(t: Task): int
  {
    match t.completionDate
    case Some(ms) => ms
    case None => 0
  }

  /** Completing a task stamps it with the current time, and restoring it
      clears the stamp, so a restored task that is completed again sorts by
      its new time. */
  lemma CompletionTimeOfHandlers(t: Task, now: int)
    ensures CompletionTime(MarkCompleted(now)(t)) == now
    ensures CompletionTime(MarkRestored(t)) == 0
    ensures CompletionTime(MarkCompleted(now)(MarkRestored(t))) == now
  {
  }

  /** Sort keys of the two comparators: `b - a` puts later times first,
      `a - b` earlier ones. */
  function NewestFirstKey(t: Task): int
  {
    -CompletionTime(t)
  }

  function OldestFirstKey(t: Task): int
  {
    CompletionTime(t)
  }

  /** The search test: the lower-cased term occurs in the lower-cased
      title or in the lower-cased description. */
  predicate MatchesSearch(t: Task, searchTerm: string)
  {
    Includes(Lower(t.title), Lower(searchTerm)) || Includes(Lower(t.description), Lower(searchTerm))
  }

  /** A task matches exactly when the lower-cased term starts at some
      position of its lower-cased title or description. */
  lemma MatchesSearchIff(t: Task, searchTerm: string)
    ensures MatchesSearch(t, searchTerm) <==>
            exists i :: OccursAt(Lower(t.title), Lower(searchTerm), i)
                     || OccursAt(Lower(t.description), Lower(searchTerm), i)
  {
    var title, description, term := Lower(t.title), Lower(t.description), Lower(searchTerm);
    IncludesIffOccurs(title, term);
    IncludesIffOccurs(description, term);
    if Includes(title, term) {
      var i :| OccursAt(title, term, i);
      assert MatchesSearch(t, searchTerm);
      assert OccursAt(Lower(t.title), Lower(searchTerm), i);
      assert OccursAt(title, term, i) || OccursAt(description, term, i);
    } else if Includes(description, term) {
      var i :| OccursAt(description, term, i);
      assert OccursAt(title, term, i) || OccursAt(description, term, i);
    }
  }

  /** The tasks that pass the search, in order. */
  function SearchHits(ts: seq<Task>, searchTerm: string): (r: seq<Task>)
    ensures IsSubsequence(r, ts)
    ensures forall t :: t in r <==> t in ts && MatchesSearch(t, searchTerm)
    ensures forall t :: multiset(r)[t] == if MatchesSearch(t, searchTerm) then multiset(ts)[t] else 0
  {
    Filter(ts, (t: Task) => MatchesSearch(t, searchTerm))
  }

  /** `completedTasks`: a rearrangement of the completed tasks that match
      the search, ordered by completion time, later first for `newest` and
      earlier first for any other value of `sortBy`; tasks completed at the
      same time keep their store order. */
  function CompletedTasks(ts: seq<Task>, searchTerm: string, sortBy: string): (r: seq<Task>)
    ensures forall t :: t in r <==> t in ts && t.completed && MatchesSearch(t, searchTerm)
    ensures multiset(r) == multiset(SearchHits(Filter(ts, IsCompleted), searchTerm))
    ensures sortBy == "newest" ==>
              forall i, j :: 0 <= i < j < |r| ==> CompletionTime(r[j]) <= CompletionTime(r[i])
    ensures sortBy != "newest" ==>
              forall i, j :: 0 <= i < j < |r| ==> CompletionTime(r[i]) <= CompletionTime(r[j])
    ensures sortBy == "newest" ==>
              forall k :: KeyClass(r, NewestFirstKey, k) ==
                          KeyClass(SearchHits(Filter(ts, IsCompleted), searchTerm), NewestFirstKey, k)
    ensures sortBy != "newest" ==>
              forall k :: KeyClass(r, OldestFirstKey, k) ==
                          KeyClass(SearchHits(Filter(ts, IsCompleted), searchTerm), OldestFirstKey, k)
  {
    var hits := SearchHits(Filter(ts, IsCompleted), searchTerm);
    if sortBy == "newest" then
      var r := SortBy(hits, NewestFirstKey);
      PermutationMembers(r, hits);
      r
    else
      var r := SortBy(hits, OldestFirstKey);
      PermutationMembers(r, hits);
      r
  }

  /** Every string contains the empty string, so an empty search keeps
      every completed task. */
  lemma EmptySearchKeepsAllCompleted(ts: seq<Task>, sortBy: string)
    ensures multiset(CompletedTasks(ts, "", sortBy)) == multiset(Filter(ts, IsCompleted))
  {
    var done := Filter(ts, IsCompleted);
    forall i | 0 <= i < |done|
      ensures MatchesSearch(done[i], "")
    {
      assert Lower("") == "";
    }
    FilterAllPass(done, (t: Task) => MatchesSearch(t, ""));
  }

  /** Search terms that lower-case alike give the same archive, in the same
      order: "MILK", "Milk" and "milk" find the same tasks. */
  lemma SearchIgnoresCase(ts: seq<Task>, a: string, b: string, sortBy: string)
    requires Lower(a) == Lower(b)
    ensures CompletedTasks(ts, a, sortBy) == CompletedTasks(ts, b, sortBy)
  {
    var done := Filter(ts, IsCompleted);
    FilterCongruent(done, (t: Task) => MatchesSearch(t, a), (t: Task) => MatchesSearch(t, b));
  }

  /** A task titled "Buy Milk" is found by the search term "milk". */
  lemma SearchExample(t: Task)
    requires t.title == "Buy Milk"
    ensures MatchesSearch(t, "milk")
  {
    assert Lower("milk") == "milk";
    assert Lower(t.title) == "buy milk";
    assert OccursAt(Lower(t.title), "milk", 4);
    IncludesIffOccurs(Lower(t.title), "milk");
  }

  /** The empty-archive message is shown exactly when no completed task
      matches the search; otherwise "found" reports the number of tasks
      listed, each of them a completed match. */
  lemma EmptyArchiveMessage(ts: seq<Task>, searchTerm: string, sortBy: string)
    ensures |CompletedTasks(ts, searchTerm, sortBy)| == 0 <==>
            forall t :: t in ts ==> !(t.completed && MatchesSearch(t, searchTerm))
  {
    var r := CompletedTasks(ts, searchTerm, sortBy);
    if |r| != 0 {
      assert r[0] in r;
    }
  }
}

/** The task list held by the application root (src/App.js) and the
    handlers that replace it: add, delete, toggle, complete, restore and
    permanent delete. Each handler computes its new list with a pure
    spread, `filter` or `map`; those are the functions below, and the
    `TaskStore` class holds the list and swaps it as `setTasks` does. */
module Store {
  import opened Tasks
  import opened Seqs

  /** `tasks.filter(task => task.id !== taskId)`. */
  function WithoutId(ts: seq<Task>, id: int): (r: seq<Task>)
    ensures IsSubsequence(r, ts)
    ensures forall t :: t in r <==> t in ts && t.id != id
    ensures forall t :: multiset(r)[t] == if t.id != id then multiset(ts)[t] else 0
  {
    Filter(ts, (t: Task) => t.id != id)
  }

  /** `tasks.map(task => task.id === taskId ? f(task) : task)`. */
  function UpdateById(ts: seq<Task>, id: int, f: Task -> Task): (r: seq<Task>)
    ensures |r| == |ts|
    ensures forall i :: 0 <= i < |ts| && ts[i].id != id ==> r[i] == ts[i]
    ensures forall i :: 0 <= i < |ts| && ts[i].id == id ==> r[i] == f(ts[i])
  {
    if ts == [] then []
    else [if ts[0].id == id then f(ts[0]) else ts[0]] + UpdateById(ts[1..], id, f)
  }

  /** `{ ...task, completed: !task.completed }`. */
  function FlipCompleted(t: Task): Task
  {
    t.(completed := !t.completed)
  }

  /** `{ ...task, completed: true, completionDate: now }`. */
  function MarkCompleted(now: int): Task -> Task
  {
    (t: Task) => t.(completed := true, completionDate := Some(now))
  }

  /** `{ ...task, completed: false, completionDate: null }`. */
  function MarkRestored(t: Task): Task
  {
    t.(completed := false, completionDate := None)
  }

  /** The three edits on one task: the toggle undoes itself and never
      touches the completion date; completing and restoring are idempotent,
      and a restore erases whatever the completion wrote. */
  lemma TaskEditLaws(t: Task, now: int)
    ensures FlipCompleted(FlipCompleted(t)) == t
    ensures FlipCompleted(t).completed != t.completed
    ensures FlipCompleted(t).completionDate == t.completionDate
    ensures MarkCompleted(now)(MarkCompleted(now)(t)) == MarkCompleted(now)(t)
    ensures MarkRestored(MarkRestored(t)) == MarkRestored(t)
    ensures MarkRestored(MarkCompleted(now)(t)) == MarkRestored(t)
    ensures IsCompleted(MarkCompleted(now)(t)) && !IsCompleted(MarkRestored(t))
  {
  }

  /** The list `handleToggleComplete` produces: on the matching tasks the
      completion flag is flipped and nothing else (not even the completion
      date) changes. */
  function Toggled(ts: seq<Task>, id: int): (r: seq<Task>)
    ensures |r| == |ts|
    ensures forall i :: 0 <= i < |ts| ==>
              && r[i].id == ts[i].id && r[i].title == ts[i].title
              && r[i].description == ts[i].description && r[i].priority == ts[i].priority
              && r[i].dueDate == ts[i].dueDate && r[i].completionDate == ts[i].completionDate
              && r[i].completed == (ts[i].completed != (ts[i].id == id))
  {
    UpdateById(ts, id, FlipCompleted)
  }

  /** The list `handleCompleteTask` produces at time `now`: matching tasks are
      archived with that time, the others are untouched. */
  function Completed(ts: seq<Task>, id: int, now: int): (r: seq<Task>)
    ensures |r| == |ts|
    ensures forall i :: 0 <= i < |ts| && ts[i].id != id ==> r[i] == ts[i]
    ensures forall i :: 0 <= i < |ts| && ts[i].id == id ==>
              r[i].completed && r[i].completionDate == Some(now)
              && r[i] == ts[i].(completed := r[i].completed, completionDate := r[i].completionDate)
  {
    UpdateById(ts, id, MarkCompleted(now))
  }

  /** The list `handleRestoreTask` produces: matching tasks leave the archive
      and lose their completion date, the others are untouched. */
  function Restored(ts: seq<Task>, id: int): (r: seq<Task>)
    ensures |r| == |ts|
    ensures forall i :: 0 <= i < |ts| && ts[i].id != id ==> r[i] == ts[i]
    ensures forall i :: 0 <= i < |ts| && ts[i].id == id ==>
              !r[i].completed && r[i].completionDate == None
              && r[i] == ts[i].(completed := r[i].completed, completionDate := r[i].completionDate)
  {
    UpdateById(ts, id, MarkRestored)
  }

  /** Deleting an id no task carries leaves the list as it was. */
  lemma DeleteAbsentIsNoOp(ts: seq<Task>, id: int)
    requires forall i :: 0 <= i < |ts| ==> ts[i].id != id
    ensures WithoutId(ts, id) == ts
  {
    FilterAllPass(ts, (t: Task) => t.id != id);
  }

  /** Toggling the same id twice gives back the original list. */
  lemma ToggleTwiceIsIdentity(ts: seq<Task>, id: int)
    ensures Toggled(Toggled(ts, id), id) == ts
  {
    var once := Toggled(ts, id);
    var twice := Toggled(once, id);
    forall i | 0 <= i < |ts|
      ensures twice[i] == ts[i]
    {
      assert once[i].id == ts[i].id;
    }
  }

  /** Completing and then restoring an id takes every matching task out of
      the archive, whatever its state before: the same list as restoring
      alone. */
  lemma CompleteThenRestore(ts: seq<Task>, id: int, now: int)
    ensures Restored(Completed(ts, id, now), id) == Restored(ts, id)
    ensures forall i :: 0 <= i < |ts| && ts[i].id == id ==>
              var t := Restored(Completed(ts, id, now), id)[i];
              !t.completed && t.completionDate == None
  {
    var c := Completed(ts, id, now);
    var a := Restored(c, id);
    var b := Restored(ts, id);
    forall i | 0 <= i < |ts|
      ensures a[i] == b[i]
    {
      assert c[i].id == ts[i].id;
    }
  }

  /** Every task's completion flag and completion date agree. */
  predicate ArchiveConsistent(ts: seq<Task>)
  {
    forall i :: 0 <= i < |ts| ==> (ts[i].completed <==> ts[i].completionDate.Some?)
  }

  /** Completing and restoring keep completion flags and dates in step. */
  lemma CompleteRestoreKeepConsistency(ts: seq<Task>, id: int, now: int)
    requires ArchiveConsistent(ts)
    ensures ArchiveConsistent(Completed(ts, id, now))
    ensures ArchiveConsistent(Restored(ts, id))
  {
  }

  /** Toggling does not: an open task with no completion date toggled by
      its id is marked completed and still has no completion date. */
  lemma ToggleBreaksConsistency(t: Task)
    requires !t.completed && t.completionDate == None
    ensures ArchiveConsistent([t])
    ensures !ArchiveConsistent(Toggled([t], t.id))
  {
    assert Toggled([t], t.id)[0].completed;
  }

  /** No two tasks share an id. */
  predicate UniqueIds(ts: seq<Task>)
  {
    forall i, j :: 0 <= i < j < |ts| ==> ts[i].id != ts[j].id
  }

  /** Adding a task with a fresh id keeps ids unique, and the added task is
      then the only one with its id. */
  lemma AddKeepsIdsUnique(ts: seq<Task>, t: Task)
    requires UniqueIds(ts)
    requires forall i :: 0 <= i < |ts| ==> ts[i].id != t.id
    ensures UniqueIds(ts + [t])
    ensures forall i :: 0 <= i < |ts + [t]| && (ts + [t])[i].id == t.id ==> i == |ts|
  {
  }

  /** Deleting, toggling, completing and restoring never create a duplicate id. */
  lemma {:induction false} EditsKeepIdsUnique(ts: seq<Task>, id: int, now: int)
    requires UniqueIds(ts)
    ensures UniqueIds(WithoutId(ts, id))
    ensures UniqueIds(Toggled(ts, id))
    ensures UniqueIds(Completed(ts, id, now))
    ensures UniqueIds(Restored(ts, id))
  {
    SubsequenceKeepsIdsUnique(WithoutId(ts, id), ts);
    SameIdsKeepUnique(ts, Toggled(ts, id));
    SameIdsKeepUnique(ts, Completed(ts, id, now));
    SameIdsKeepUnique(ts, Restored(ts, id));
  }

  /** A list with the same ids, position by position, as a list with
      unique ids has unique ids. */
  lemma SameIdsKeepUnique(ts: seq<Task>, r: seq<Task>)
    requires UniqueIds(ts)
    requires |r| == |ts| && forall i :: 0 <= i < |ts| ==> r[i].id == ts[i].id
    ensures UniqueIds(r)
  {
  }

  lemma {:induction false} SubsequenceKeepsIdsUnique(r: seq<Task>, ts: seq<Task>)
    requires UniqueIds(ts) && IsSubsequence(r, ts)
    ensures UniqueIds(r)
    decreases |ts|
  {
    if r != [] {
      if r[0] == ts[0] && IsSubsequence(r[1..], ts[1..]) {
        SubsequenceKeepsIdsUnique(r[1..], ts[1..]);
        SubsequenceMembers(r[1..], ts[1..]);
        forall j | 0 < j < |r|
          ensures r[0].id != r[j].id
        {
          assert r[j] == r[1..][j - 1];
          assert r[j] in r[1..];
          var k :| 0 <= k < |ts[1..]| && ts[1..][k] == r[j];
          assert ts[k + 1] == r[j];
        }
      } else {
        SubsequenceKeepsIdsUnique(r, ts[1..]);
      }
    }
  }

  /** The application root's task list. */
  class TaskStore {
    var tasks: seq<Task>

    /** `useState([])`: the list starts empty. */
    constructor ()
      ensures tasks == []
    {
      tasks := [];
    }

    /** `addTask`: `[...tasks, newTask]`. */
    method AddTask(newTask: Task)
      modifies this
      ensures tasks == old(tasks) + [newTask]
      ensures |tasks| == |old(tasks)| + 1 && tasks[|tasks| - 1] == newTask
      ensures forall i :: 0 <= i < |old(tasks)| ==> tasks[i] == old(tasks)[i]
    {
      tasks := tasks + [newTask];
    }

    /** `handleDeleteTask`. */
    method DeleteTask(taskId: int)
      modifies this
      ensures tasks == WithoutId(old(tasks), taskId)
    {
      tasks := WithoutId(tasks, taskId);
    }

    /** `handleToggleComplete`. */
    method ToggleComplete(taskId: int)
      modifies this
      ensures tasks == Toggled(old(tasks), taskId)
    {
      tasks := UpdateById(tasks, taskId, FlipCompleted);
    }

    /** `handleCompleteTask`; `now` is the time `new Date()` reads. */
    method CompleteTask(taskId: int, now: int)
      modifies this
      ensures tasks == Completed(old(tasks), taskId, now)
    {
      tasks := UpdateById(tasks, taskId, MarkCompleted(now));
    }

    /** `handleRestoreTask`. */
    method RestoreTask(taskId: int)
      modifies this
      ensures tasks == Restored(old(tasks), taskId)
    {
      tasks := UpdateById(tasks, taskId, MarkRestored);
    }

    /** `handleDeletePermanently`: the same filter as `handleDeleteTask`. */
    method DeletePermanently(taskId: int)
      modifies this
      ensures tasks == WithoutId(old(tasks), taskId)
    {
      tasks := WithoutId(tasks, taskId);
    }
  }
}

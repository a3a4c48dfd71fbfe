/** The task record shared by the store and every page. */
module Tasks {
  import opened Seqs

  datatype Option<T> = None | Some(value: T)

  /** The three values the add form's priority selector offers. */
  datatype Priority = Low | Medium | High

  /** A to-do item. `dueDate` is a `YYYY-MM-DD` string, the empty string
      standing for a missing date; `completionDate` is a time in milliseconds
      since the epoch, `None` standing for `null` or a missing field. */
  datatype Task = Task(
    id: int,
    title: string,
    description: string,
    priority: Priority,
    dueDate: string,
    completed: bool,
    completionDate: Option<int>)

  predicate IsCompleted(t: Task) { t.completed }

  predicate IsOpen(t: Task) { !t.completed }

  /** The tasks of one priority, in store order: the filter behind the
      range view's high-priority count and the main page's list. */
  function OfPriority(ts: seq<Task>, p: Priority): seq<Task>
  {
    Filter(ts, (t: Task) => t.priority == p)
  }
}

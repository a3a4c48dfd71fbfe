# To-do planner: a Dafny model of its task store and views

The application is a small React to-do planner. The root component
(`src/App.js`) holds the list of tasks and the handlers that replace it:
add, delete, toggle, complete with a time stamp, restore from the archive,
and delete for good. Four pages read that list:

- the range view (`Daily.jsx`) shows the tasks due today, this week or this month, sorted by priority, with a statistics panel and a delete that must be confirmed;
- the archive (`Weekly.jsx`) shows the completed tasks that match a case-insensitive search, newest or oldest first;
- the main page (`mainPage.jsx`) lists the first five high-priority tasks;
- the add form (`Add.jsx`) validates its fields, builds the new task and resets itself.

The pages receive only the toggle, the two deletes, the restore and the
add handler (`src/App.js:78-110`). `handleCompleteTask` is passed to no
page, so in the running application a task is completed only through the
range view's toggle, which sets no completion date. The model still covers
the completion handler, as `Store.Completed` and
`Store.TaskStore.CompleteTask`.

This project models those parts in Dafny and proves what they promise.

Modules:

- `Tasks`: the task record.
  - `Task(id, title, description, priority, dueDate, completed, completionDate)`.
  - `priority` is `Low | Medium | High`.
  - `dueDate` is a string, and `""` stands for a missing date.
  - `completionDate` is `Option<int>`, the instant in milliseconds that the stored ISO string denotes.
  - `IsCompleted`, `IsOpen` and `OfPriority` are the filters the pages share.
- `Seqs`: the JavaScript array operations the views use.
  - `Filter` is `filter`.
  - `SortBy` is the stable `sort` with a comparator `key(a) - key(b)`.
  - `KeyClass` is the elements with one key, in order; a sort is stable exactly when it keeps every such class.
- `JsStrings`: the JavaScript string operations.
  - `Trim` uses the ECMAScript white-space and line-terminator set.
  - `Lower` is `toLowerCase`.
  - `Includes` is `includes`.
  - `LexLess` is `<` on strings.
- `IsoDates`: `YYYY-MM-DD` strings. For them the string order is the calendar order.
- `Store` (`src/App.js`):
  - pure functions give each handler's new list;
  - the class `TaskStore` holds `tasks` and has one method per handler.
- `Daily`, `Archive`, `MainPage`, `AddForm`: one module per page.
  - `AddForm.Form` is a class over the form's state.

## Model

| member | source | states |
|---|---|---|
| Seqs.Filter | src/components/pages/mainPage.jsx:5 | `filter` keeps exactly the elements that pass, each with its multiplicity, in their original order (a subsequence) |
| Seqs.SubsequenceMembers | src/App.js:37 | every element of a subsequence is an element of the whole list |
| Seqs.FilterAllPass | src/App.js:37 | a filter that every element passes returns the list unchanged |
| Seqs.FilterNonePass | src/components/pages/Daily.jsx:52-53 | a filter that no element passes returns the empty list |
| Seqs.FilterCongruent | src/components/pages/Weekly.jsx:12-15 | two tests that agree on every element give the same filter |
| Seqs.FilterComplement | src/components/pages/Daily.jsx:155-157 | the elements that pass a test and those that pass its negation add up to the whole list |
| Seqs.PermutationMembers | src/components/pages/Weekly.jsx:16-22 | a rearrangement has the same elements |
| Seqs.KeyClassAsFilter | src/components/pages/Daily.jsx:58-61 | a test that picks exactly the elements of one key selects that key's class |
| Seqs.Insert | src/components/pages/Daily.jsx:58-61 | inserting adds exactly one element and loses none |
| Seqs.SortedCons | src/components/pages/Daily.jsx:58-61 | proof helper of `InsertSorted`: a head no larger than any element of a sorted tail gives a sorted list |
| Seqs.InsertSorted | src/components/pages/Daily.jsx:58-61 | inserting into a list ordered by key keeps it ordered |
| Seqs.KeyClassCons | src/components/pages/Daily.jsx:58-61 | proof helper of `InsertKeyClass`: the key class of a list with a given head is that head followed by the tail's class, or the tail's class alone |
| Seqs.InsertKeyClass | src/components/pages/Daily.jsx:58-61 | insertion puts the new element first in its key class and reorders no class |
| Seqs.SortBy | src/components/pages/Daily.jsx:58-61 | the stable sort is a permutation, is ordered by key, and keeps the relative order of elements with equal keys |
| Seqs.SortByKeyClasses | src/components/pages/Daily.jsx:58-61 | inserting the head into the sorted tail restores every key class of the whole list |
| JsStrings.LeadingSpace | src/components/pages/Add.jsx:25 | counts exactly the leading white space: every counted character is white space, and the next one is not |
| JsStrings.TextEnd | src/components/pages/Add.jsx:25 | finds where the text ends: only white space follows that position, and the character before it is not white space |
| JsStrings.Trim | src/components/pages/Add.jsx:25 | `trim()` is empty exactly for blank strings; otherwise it is a slice of the input, starts and ends with a non-space, and only white space lies around it |
| JsStrings.TrimIdempotent | src/components/pages/Add.jsx:61-62 | trimming a trimmed string changes nothing |
| JsStrings.Lower | src/components/pages/Weekly.jsx:13-14 | `toLowerCase()` keeps the length and lower-cases each character |
| JsStrings.LowerIdempotent | src/components/pages/Weekly.jsx:13-14 | lower-casing twice is lower-casing once |
| JsStrings.IncludesIffOccurs | src/components/pages/Weekly.jsx:13-14 | `Includes`, the model of `includes`, holds exactly when the needle occurs at some position |
| JsStrings.LexTrichotomy | src/components/pages/Daily.jsx:48 | `LexLess`, the model of `<` on strings, is a strict total order: exactly one of `a < b`, `a == b`, `b < a` |
| IsoDates.Weight | src/components/pages/Daily.jsx:48 | proof helper of `AlignedLexIsNumeric`: a digit's value is at most 9 |
| IsoDates.Pow10 | src/components/pages/Daily.jsx:48 | proof helper of `AlignedLexIsNumeric`: powers of ten are positive |
| IsoDates.MulStep | src/components/pages/Daily.jsx:48 | proof helper of `NumeralBound`: a smaller multiplier leaves room for one more unit |
| IsoDates.NumeralBound | src/components/pages/Daily.jsx:48 | proof helper of `AlignedLexIsNumeric`: an n-digit numeral is below 10^n |
| IsoDates.AlignedLexIsNumeric | src/components/pages/Daily.jsx:48 | for strings of the same shape, the string order is the order of their numerals |
| IsoDates.DateNumeral | src/components/pages/Daily.jsx:48 | proof helper of `LexIsChronological`: a date's numeral is year·10^6 + month·10^3 + day |
| IsoDates.LexIsChronological | src/components/pages/Daily.jsx:48 | for `YYYY-MM-DD` strings, `a < b` holds exactly when a's day comes before b's |
| Store.WithoutId | src/App.js:36-38 | removing an id keeps exactly the tasks with other ids, each with its multiplicity, in order |
| Store.UpdateById | src/App.js:41-45 | `map` applies the edit at the matching positions and leaves every other task as it was |
| Store.Toggled | src/App.js:41-45 | toggling flips `completed` on the matching tasks and changes no other field, not even the completion date |
| Store.Completed | src/App.js:48-54 | completing marks the matching tasks completed with the given time and changes nothing else |
| Store.Restored | src/App.js:56-62 | restoring marks the matching tasks not completed with no date and changes nothing else |
| Store.TaskEditLaws | src/App.js:43-59 | on one task: `FlipCompleted` (line 43) flips the flag, undoes itself and never touches the completion date; `MarkCompleted` (line 51) and `MarkRestored` (line 59) are idempotent, and a restore erases whatever a completion wrote |
| Store.DeleteAbsentIsNoOp | src/App.js:36-38 | deleting an id that no task carries changes nothing |
| Store.ToggleTwiceIsIdentity | src/App.js:41-45 | toggling the same id twice gives back the original list |
| Store.CompleteThenRestore | src/App.js:48-62 | completing then restoring equals restoring alone, and leaves the task out of the archive |
| Store.CompleteRestoreKeepConsistency | src/App.js:48-62 | completing and restoring keep each task's flag and completion date in step |
| Store.ToggleBreaksConsistency | src/App.js:41-45 | toggling an open task with no date gives a completed task without a completion date |
| Store.AddKeepsIdsUnique | src/App.js:31-33 | appending a task with a fresh id keeps ids unique, and the new task is the only one with its id |
| Store.EditsKeepIdsUnique | src/App.js:36-66 | delete, toggle, complete, restore and permanent delete never create a duplicate id |
| Store.SameIdsKeepUnique | src/App.js:41-62 | a list with the same ids, position by position, as a list with unique ids has unique ids |
| Store.SubsequenceKeepsIdsUnique | src/App.js:64-66 | a subsequence of a list with unique ids has unique ids |
| Store.TaskStore.constructor | src/App.js:18 | the list starts empty |
| Store.TaskStore.AddTask | src/App.js:31-33 | the new list is the old one with the task appended at the end |
| Store.TaskStore.DeleteTask | src/App.js:36-38 | the new list is the old one without the tasks carrying the id |
| Store.TaskStore.ToggleComplete | src/App.js:41-45 | the new list is the old one with the matching tasks toggled |
| Store.TaskStore.CompleteTask | src/App.js:48-54 | the new list is the old one with the matching tasks completed at `now` |
| Store.TaskStore.RestoreTask | src/App.js:56-62 | the new list is the old one with the matching tasks restored |
| Store.TaskStore.DeletePermanently | src/App.js:64-66 | the same removal as `DeleteTask` |
| Daily.MondayOffset | src/components/pages/Daily.jsx:15-16 | the offset reaches a Monday at most six days back |
| Daily.WeekDays | src/components/pages/Daily.jsx:15-19 | today lies between the week's Monday and Sunday, which are six days apart |
| Daily.MondayOffsetUnique | src/components/pages/Daily.jsx:16 | only one offset of at most six days back reaches a Monday |
| Daily.InPeriod | src/components/pages/Daily.jsx:41-54 | a task passes only when it has a due date and the range is `day`, `week` or `month`; for `day` it passes exactly when it is due today |
| Daily.FilteredTasks | src/components/pages/Daily.jsx:40-55 | exactly the tasks due in the period, each with its multiplicity, in store order |
| Daily.NoDueDateNeverShown | src/components/pages/Daily.jsx:41 | a task without a due date is never shown |
| Daily.DayShowsExactlyToday | src/components/pages/Daily.jsx:44-45 | for `day`, a task is shown exactly when it is due today |
| Daily.WindowIsInclusive | src/components/pages/Daily.jsx:46-51 | for `week` and `month`, both bounds are inclusive in the string order |
| Daily.WindowIsChronological | src/components/pages/Daily.jsx:46-51 | with well-formed dates, a task is shown exactly when it is due neither before the first day nor after the last |
| Daily.OtherRangeShowsNothing | src/components/pages/Daily.jsx:52-53 | any other range shows no task |
| Daily.PriorityRank | src/components/pages/Daily.jsx:59 | every priority has a rank of 1, 2 or 3 |
| Daily.RankOrdersPriorities | src/components/pages/Daily.jsx:59-60 | the ranks tell the three priorities apart, and order high before medium before low |
| Daily.SortedTasks | src/components/pages/Daily.jsx:58-61 | the sorted list is a permutation with high before medium before low, and each priority keeps its filtered order |
| Daily.SamePriorityClasses | src/components/pages/Daily.jsx:59-60 | keeping every rank's class keeps every priority's tasks in order |
| Daily.PriorityPartition | src/components/pages/Daily.jsx:59 | every task has exactly one of the three priorities |
| Daily.StatsOf | src/components/pages/Daily.jsx:149-157 | the total is the number of shown tasks; the high count is the number of shown high-priority tasks, and with the medium and low counts it adds up to the total; the completed count is the number of shown completed tasks, and with the open ones it adds up to the total |
| Daily.HandleDelete | src/components/pages/Daily.jsx:64-68 | the store deletes the task only when the user confirms, and is unchanged otherwise |
| Daily.DayExample | src/components/pages/Daily.jsx:44-45 | of tasks due yesterday, today and tomorrow, only today's is shown |
| Daily.SortExample | src/components/pages/Daily.jsx:58-61 | a low-priority task listed before a high-priority one comes out after it |
| Daily.NoTasksMessage | src/components/pages/Daily.jsx:134-135 | the "no tasks" message appears exactly when no task falls in the period |
| Archive.MatchesSearchIff | src/components/pages/Weekly.jsx:12-15 | `MatchesSearch`, the search test, holds exactly when the lower-cased term starts at some position of the lower-cased title or of the lower-cased description |
| Archive.SearchHits | src/components/pages/Weekly.jsx:12-15 | keeps exactly the tasks that pass the search test, each with its multiplicity, in store order (a subsequence) |
| Archive.CompletedTasks | src/components/pages/Weekly.jsx:10-22 | exactly the completed matching tasks, each with its multiplicity, newest first for `newest` and oldest first for any other value; tasks with the same completion time keep their store order |
| Archive.CompletionTimeOfHandlers | src/components/pages/Weekly.jsx:18-20 | `CompletionTime`, the time both comparators read: a task completed at `now` sorts at `now`, a restored one at the epoch, and a restored task completed again at its new time |
| Archive.EmptySearchKeepsAllCompleted | src/components/pages/Weekly.jsx:12-15 | the initial empty search keeps every completed task |
| Archive.SearchIgnoresCase | src/components/pages/Weekly.jsx:13-14 | terms that lower-case alike give the same archive, in the same order |
| Archive.SearchExample | src/components/pages/Weekly.jsx:13-14 | "Buy Milk" is found by "milk" |
| Archive.EmptyArchiveMessage | src/components/pages/Weekly.jsx:47-56 | the empty-archive message appears exactly when no completed task matches |
| MainPage.HighPriorityTasks | src/components/pages/mainPage.jsx:5 | exactly the high-priority tasks, each with its multiplicity, in store order |
| MainPage.TopTasks | src/components/pages/mainPage.jsx:8 | the listed tasks are the first min(5, N) high-priority tasks, N being their number |
| MainPage.TopTasksAreStoredHighTasks | src/components/pages/mainPage.jsx:5-8 | every listed task is a high-priority task of the store |
| MainPage.Render | src/components/pages/mainPage.jsx:14-46 | the page lists the top tasks and reports the full high-priority count; the empty message appears exactly when nothing is listed; the overflow note appears only when five are listed out of more, and without it every high-priority task is listed |
| MainPage.EmptyMessageIffNoHighTask | src/components/pages/mainPage.jsx:14-18 | the empty message appears exactly when no task has high priority |
| MainPage.OverflowNoteIffTruncated | src/components/pages/mainPage.jsx:43-46 | the "shown 5 of N" note appears exactly when some high-priority task is not listed, and then five are listed |
| AddForm.Fails | src/components/pages/Add.jsx:25-37 | a title or a description fails exactly when it is blank (empty or only white space); a due date fails exactly when it is empty |
| AddForm.FormErrors | src/components/pages/Add.jsx:21-44 | one error per failing field: a blank title or description, or a missing due date, each with its message; the map is empty exactly when all three are acceptable |
| AddForm.ErrorsByField | src/components/pages/Add.jsx:21-37 | a map holding exactly the failing fields, each with its message, is the error map |
| AddForm.NewTaskIsTrimmed | src/components/pages/Add.jsx:59-66 | `NewTask`, the object `handleSubmit` builds: it keeps the id, priority and due date, is open with no completion date, and holds the trimmed title and description, each a stretch of its input with no white space at either end, empty exactly when the input was blank |
| AddForm.SubmittedTaskIsClean | src/components/pages/Add.jsx:59-66 | a task built from a valid form has a non-empty title and description, each trimmed from its input; it keeps the due date and priority, and is not completed |
| AddForm.Form.constructor | src/components/pages/Add.jsx:11-15 | empty fields, medium priority, no errors |
| AddForm.Form.ValidateForm | src/components/pages/Add.jsx:21-44 | stores the error map of the current fields, and answers true exactly when that map is empty |
| AddForm.Form.HandleSubmit | src/components/pages/Add.jsx:50-88 | an invalid form changes only its errors and leaves the store alone; a valid one appends the built task to the store and resets the form |

## Left out

- The two-second delayed load of the sample tasks (`src/App.js:21-25`) is not modelled. It depends on a timer, and the sample data file is not part of this model.
- Routing, the navigation bar, and all rendering markup, labels and CSS classes are left out.
- The toast notification and the console output of `handleSubmit` are left out.
- The locale formatting functions are left out: `formatDate`, `getPriorityLabel` and `toLocaleDateString`.
- The clock is not modelled. `getCurrentDate`, `getWeekRange` and `getMonthRange` read it and convert with `toISOString`, which mixes local and UTC time.
  - Today's string and the week and month bounds are inputs (`Daily.Calendar`).
  - Only the arithmetic that finds the week's Monday is modelled (`Daily.MondayOffset`, `Daily.WeekDays`).
  - The month bounds and the carry of `setDate` into a neighbouring month are not modelled.
- `Date.now()` for a new task's id and `new Date()` for the completion time are left out; they are parameters (`id`, `now`).
- The answer of `window.confirm` is left out; it is the parameter `confirmed`.
- `completionDate` is stored as an ISO string. The model keeps the instant it denotes, in milliseconds, not the string.
- Archive.CompletedTasks: a task that has no completion date sorts as time 0. That is exact for the `null` left by a restore. A task created by the form has no `completionDate` field at all; there `new Date(undefined)` gives NaN, and the order the source produces then depends on the engine.
- JsStrings.Lower: lower-cases only Basic Latin and the basic Cyrillic block (U+0400 to U+042F). Other characters are left unchanged, whereas `toLowerCase` applies the full Unicode case mapping.
- JsStrings.LexLess: compares characters by code point, whereas JavaScript compares UTF-16 code units. The two orders differ only between characters above U+FFFF and characters in U+E000 to U+FFFF.
- The date input's `min` attribute (`src/components/pages/Add.jsx:146`) makes the browser refuse past dates. It is enforced by the browser, not by `validateForm`, so the model accepts any non-empty due date.
- Priority values other than high, medium and low are not modelled; the form can only produce those three.
- The `onChange` setters of the form and the archive controls are not modelled: they only store the typed value. The search term and the sort choice are parameters of `Archive.CompletedTasks`.
- A task's position in the store is its identity in the model. React keys and object identity are not modelled.

## Notes

- Toggling a task in the range view flips `completed` and leaves `completionDate` alone (`src/App.js:41-45`).
  - Toggling to done sets no completion date. A task that never had one, such as every task the form creates, ends up completed with no date, and a task that kept an old date keeps it.
  - When the range view toggles a task that has a completion date back to open, the task keeps its date. Only the archive's restore clears it.
  - The model follows the code: `Store.ToggleBreaksConsistency` shows the flag and the date falling out of step, while completing and restoring keep them in step.
- `dueDate` is a plain string in the source, so the model does not assume well-formed dates. The week and month tests are string comparisons; `IsoDates.LexIsChronological` shows they agree with the calendar when the dates are well formed.

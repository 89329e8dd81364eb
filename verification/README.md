# Momentum task state, in Dafny

The model covers the task-state core of the Momentum dashboard's
`site/js/tasks.js`. The app keeps one ordered array of tasks, and every
render derives three lists from it: today, upcoming and completed. Users
change the array by creating, completing, deleting and dragging tasks. The
model covers six parts:

- **Seqs** (`seqs.dfy`): a stable filter with the lemmas the other modules
  share. These are membership, order, concatenation, counting and
  permutation facts.
- **Dates** and **Classifier** (`dates.dfy`, `classifier.dfy`): `isToday`
  and `isUpcoming`. A due date is turned into a day number the way
  `new Date(y, m - 1, d)` does it. Months and days out of range carry over,
  and years 0 to 99 are read as 1900 to 1999. A day more than 10^8 days
  from 1 January 1970 gives an invalid `Date` with a NaN time, as
  ECMAScript's TimeClip has it, and such a date is neither today nor
  upcoming. The clock's reading of today is a parameter.
- **Text**, **Tasks** and **Store** (`text.dfy`, `tasks.dfy`, `store.dfy`):
  the task record and the store mutations. These are create (with
  JavaScript's `trim`), the complete toggle and delete, each returning the
  new array.
- **Views** and **Reorder** (`views.dfy`, `reorder.dfy`): the three-way
  partition done by `renderTasks`, and the drop handler's
  `tasks.sort((a, b) => newOrder.indexOf(a.id) - newOrder.indexOf(b.id))`.
  `Array.prototype.sort` is stable, so that call has exactly one possible
  result: the stable sort by key. The model computes it by insertion sort.
- **Metrics** (`metrics.dfy`): the progress percentage, the "You have N
  tasks" count and the navigation badges.
- **Scenarios** (`scenarios.dfy`): concrete cases worked through the
  model.

### Where the intended behaviour and the code differ

In four places what one would expect of the dashboard differs from what
`tasks.js` does. The model follows the code in each case below.

- **Drop sort with tasks missing from the dropped-on list.** Dragging task
  2 above task 1 in the today list of the store [1, 2, 3] is meant to give
  [2, 1, 3]. The code sorts the whole array by
  `newOrder.indexOf(id)`. Task 3 is not in `newOrder`, so its key is -1 and
  it moves to the front, giving [3, 2, 1] (`Scenarios.DragToTop`).
- **Dropping without moving.** One would expect this to be a no-op. In
  the code it changes the order when a task missing from the dropped-on
  list sits after one of that list's tasks: the store [1, 2, 3] with the
  today list [1, 2] becomes [3, 1, 2] (`Scenarios.DropInPlaceMovesOthers`),
  while [3, 1, 2] stays as it is (`Scenarios.DropInPlaceAfterOthers`). In
  general it is a no-op exactly when the array is already sorted by the
  key (`Reorder.ReorderNoOpIffSorted`).
- **Error cases.** One would expect toggle, delete and reorder to report
  an unknown id or a broken invariant as an error. The code has no such
  errors. Toggling or deleting
  an unknown id changes nothing (`Store.ToggleAbsent`,
  `Store.DeleteAbsent`). The drop sort accepts any `newOrder`.
- **Unique ids.** Ids are meant to be unique. The code does not enforce
  them, because ids come from `Date.now()`. The model states
  `UniqueIds` as a requirement where a property needs it. It proves that
  create with a fresh id, toggle, delete and reorder all preserve it.

## Model

| member | source | states |
|---|---|---|
| Classifier.IsToday | momentum/site/js/tasks.js:77-88 | An empty due date counts as today. An unparseable date, or one outside the time-value range, is never today. A date that is today has today's day number. |
| Classifier.IsUpcoming | momentum/site/js/tasks.js:90-101 | Only a parseable date can be upcoming, and an upcoming date is never today. A date outside the time-value range, or a today outside it, is never upcoming. An upcoming date has a day number after today's. |
| Classifier.FullYear | momentum/site/js/tasks.js:84 | The year given to `new Date`: each year y in 0-99 becomes 1900 + y, and other years are kept. The result is never a two-digit year. |
| Classifier.ClassifyByCalendar | momentum/site/js/tasks.js:77-101 | For valid dates from year 100 on, both within the time-value range, the due date is today exactly when it is the same calendar day. It is upcoming exactly when it is a later day, and neither exactly when it is an earlier day. |
| Dates.DayNumber | momentum/site/js/tasks.js:84 | The day number of `new Date(y, m - 1, d)` (ECMAScript MakeDay). For a valid date it lies within its own year. |
| Dates.MakeDayCarries | momentum/site/js/tasks.js:84 | Out-of-range components carry as MakeDay does: twelve months more is a year later, one day more is the next day number, and the day after a month's last day is the first of the next month. |
| Dates.SupportedYears | momentum/site/js/tasks.js:84-87 | Every valid date from year 1 to year 275759 lies within the time-value range, so its `getTime()` is a number. |
| Dates.DayOrder | momentum/site/js/tasks.js:84-87 | For valid dates, comparing day numbers (the `getTime()` of local midnight) agrees with calendar order in both directions. Equal numbers mean the same date. |
| Text.Trim | momentum/site/js/tasks.js:54 | `trim` removes exactly the leading and trailing JavaScript whitespace. The result is an infix of the input with no whitespace at either end, and is empty exactly when the input is all whitespace. |
| Text.TrimIdempotent | momentum/site/js/tasks.js:54 | Trimming twice gives the same result as trimming once. |
| Store.Create | momentum/site/js/tasks.js:54-65 | A text that is blank after trimming adds nothing. Otherwise the array gains one task at the end: the given id, the trimmed text and notes, the raw due date, and not completed. The earlier tasks are unchanged. |
| Store.CreateKeepsUniqueIds | momentum/site/js/tasks.js:59-60 | Creating a task with an id nobody carries keeps ids unique. |
| Store.Toggle | momentum/site/js/tasks.js:237-238 | Same length and the same fields, except that `completed` flips exactly for the tasks carrying the id. |
| Store.ToggleTwice | momentum/site/js/tasks.js:238 | Toggling the same id twice restores the array. |
| Store.ToggleOne | momentum/site/js/tasks.js:238 | With unique ids, only the one task carrying the id changes, and only in `completed`. |
| Store.ToggleAbsent | momentum/site/js/tasks.js:238 | Toggling an id nobody carries changes nothing. |
| Store.ToggleKeepsUniqueIds | momentum/site/js/tasks.js:238 | Toggling keeps ids unique. |
| Store.Delete | momentum/site/js/tasks.js:257 | No task with the id remains. A task survives exactly when it was present and carries another id. |
| Store.DeleteAbsent | momentum/site/js/tasks.js:257 | Deleting an id nobody carries changes nothing. |
| Store.DeleteOne | momentum/site/js/tasks.js:257 | With unique ids, delete removes exactly the one task at that id's position and keeps the rest in order. |
| Store.DeleteKeepsOrder | momentum/site/js/tasks.js:257 | Two surviving tasks keep their relative order. |
| Store.DeleteKeepsUniqueIds | momentum/site/js/tasks.js:257 | Deleting keeps ids unique. |
| Store.DeleteUndoesCreate | momentum/site/js/tasks.js:54-65 | Deleting the id of a freshly created task restores the array it was created in. |
| Views.BucketOf | momentum/site/js/tasks.js:126-134 | A task goes to the completed list exactly when it is completed, and to upcoming exactly when it is open and upcoming. Everything else goes to today. |
| Views.Partition | momentum/site/js/tasks.js:123-135 | Each list is the stable filter of the task array by its bucket. |
| Views.PartitionIsPermutation | momentum/site/js/tasks.js:123-135 | The three lists together hold exactly the tasks of the array, as a multiset. |
| Views.PartitionPlacesOnce | momentum/site/js/tasks.js:123-135 | Every task is in the list of its bucket and in no other list. |
| Views.BucketKeepsOrder | momentum/site/js/tasks.js:123-135 | Two tasks of one list appear in the array's order. |
| Views.BucketByCalendar | momentum/site/js/tasks.js:126-134 | For an open task with a valid date from year 100 on, and a valid today, both within the time-value range, the task is upcoming exactly when its date is after today. Otherwise it is in the today list, including when overdue. Two-digit years are excluded because they are read as 19xx. |
| Views.CreateAppendsToBucket | momentum/site/js/tasks.js:59-67 | A created task is appended to its own list and the other lists stay the same. |
| Views.DeleteCommutesWithPartition | momentum/site/js/tasks.js:257-259 | Deleting from the array and then partitioning gives the same result as deleting from each list. |
| Views.ToggleMovesOnlyTarget | momentum/site/js/tasks.js:238-240 | Toggling keeps every other task in its list. The toggled task enters or leaves the completed list. |
| Reorder.IndexOf | momentum/site/js/tasks.js:163 | `indexOf` gives the first position of the id, or -1 exactly when the id is absent. |
| Reorder.Reorder | momentum/site/js/tasks.js:163 | The drop sort returns a permutation of the tasks, sorted by `newOrder.indexOf(id)`. |
| Reorder.ReorderStable | momentum/site/js/tasks.js:163 | The sort is stable: the tasks sharing a key stay in their original order. |
| Reorder.ReorderUnlistedFirst | momentum/site/js/tasks.js:163 | Tasks missing from `newOrder` come first, in their original order, and the listed tasks follow. |
| Reorder.ReorderFollowsNewOrder | momentum/site/js/tasks.js:159-163 | With unique ids, the listed tasks appear in the order of `newOrder`. |
| Reorder.ReorderNoOpIffSorted | momentum/site/js/tasks.js:163 | The sort leaves the array unchanged exactly when it is already sorted by key. |
| Reorder.ReorderSortedIsIdentity | momentum/site/js/tasks.js:163 | An array already sorted by key is returned as it is. |
| Reorder.ReorderIdempotent | momentum/site/js/tasks.js:163 | Repeating the same drop changes nothing more. |
| Reorder.ReorderKeepsUniqueIds | momentum/site/js/tasks.js:163 | Reordering keeps ids unique. |
| Reorder.ReorderKeepsBuckets | momentum/site/js/tasks.js:163 | No task changes list. Each list holds the same tasks before and after the drop. |
| Metrics.CompletedCount | momentum/site/js/tasks.js:279 | The number of completed tasks is at most the number of tasks. |
| Metrics.IncompleteCount | momentum/site/js/tasks.js:104 | The incomplete count and the completed count add up to the number of tasks. |
| Metrics.ProgressPercent | momentum/site/js/tasks.js:278-280 | The percentage is 0 with no tasks and lies in 0..100. It is the completed share rounded to the nearest integer, halves up. It is 0 when nothing is done and 100 when everything is. |
| Metrics.IncompleteIsTodayPlusUpcoming | momentum/site/js/tasks.js:104 | The task-count message's number is the size of the today list plus the size of the upcoming list. |
| Metrics.BadgesMatchLists | momentum/site/js/tasks.js:290-302 | The upcoming and completed badges count their lists. The today badge plus the overdue or unparseable open tasks equals the today list's size. |
| Scenarios.ThreeTasks | momentum/site/js/tasks.js:123-135 | Two open undated tasks and one completed task give today [A, B], an empty upcoming list and completed [C]. Progress is 33 and the count is 2. |
| Scenarios.BlankTextRejected | momentum/site/js/tasks.js:54-58 | A whitespace-only text creates nothing. |
| Scenarios.DragToTop | momentum/site/js/tasks.js:163 | The store [1, 2, 3] with visible order [2, 1] becomes [3, 2, 1]. |
| Scenarios.DropInPlaceMovesOthers | momentum/site/js/tasks.js:163 | The store [1, 2, 3] with visible order [1, 2] becomes [3, 1, 2]. |
| Scenarios.DropInPlaceAfterOthers | momentum/site/js/tasks.js:163 | The store [3, 1, 2] with visible order [1, 2] stays as it is. |
| Scenarios.LeapDayBoundaries | momentum/site/js/tasks.js:77-101 | On 2024-02-28 the same day is today and the leap day is upcoming. The day before is neither. |
| Scenarios.DayOverflowCarries | momentum/site/js/tasks.js:84 | 2024-02-30 is read as 2024-03-01, so it is upcoming on 2024-02-28. |
| Scenarios.TimeRangeEnds | momentum/site/js/tasks.js:84-100 | On 2026-10-10 a task due 275760-09-13 is upcoming. One due a day later has a NaN time, so it is neither today nor upcoming and an open task with that date stays in the today list. |
| Scenarios.LastTimeDay | momentum/site/js/tasks.js:84 | 275760-09-13 is exactly 10^8 days after 1 January 1970, the last day a `Date` can hold. |
| Scenarios.FirstTimeDay | momentum/site/js/tasks.js:84 | -271821-04-20 is exactly 10^8 days before 1 January 1970, the first day in range, and the day before it is out of range. |
| Scenarios.TwoDigitYear | momentum/site/js/tasks.js:84 | Year 24 is read as 1924, so that date is neither today nor upcoming in 2024. |

## Left out

- The DOM is not modelled: card creation, empty-state markup, animations, icons, confetti, the greeting and `updateInsightsSummary`. They display state and do not change it.
- Persistence (`saveTasks` and loading from `localStorage` with JSON) is not modelled. Each store operation returns the new array, and that array is what would be saved.
- The clock is a parameter. `Date.now()` ids are an argument of `Store.Create`, and today's date is an argument of the classifier.
- Metrics.BadgesMatchLists: relies on a single clock reading per render. `tasks.js` reads the clock anew in every `isToday` and `isUpcoming` call, so a render that crosses midnight can sort some tasks against one day and others, or the badges, against the next. The badges then need not match the lists.
- Classifier.IsToday: compares whole day numbers at UTC-style midnights, so the TimeClip range is taken in days with no time-zone offset. At the two ends of the range a local offset can move the exact boundary by a day.
- Splitting the date-picker string into numbers is not modelled. A due date is already `NoDate` (empty string), `Day(y, m, d)` (three numeric parts) or `Unparseable` (a `NaN` date).
- Time zones and daylight-saving transitions are not modelled. Both sides are set to local midnight, and the model compares whole day numbers.
- `getDragAfterElement` and the hover-time card movement are left out. They only produce the visible order, which reaches the model as `newOrder`.
- The pluralised message text and the `console.log` call are left out. Only the count is modelled.
- `theme.js` is not part of this model.
- Store.Toggle: flips every task carrying the id, while tasks.js flips the one object whose button was clicked. The two agree when ids are unique (`Store.ToggleOne`).
- Metrics.ProgressPercent: computes `Math.round(completed / total * 100)` in exact arithmetic, not IEEE double. On exact halves the floating-point product can fall just below the half. For example, 29 completed of 200 gives 14.499999999999998 and so 14 in the browser, where the model gives 15.
- Metrics.NavCounts: states no contract of its own. `Metrics.BadgesMatchLists` relates it to the lists.

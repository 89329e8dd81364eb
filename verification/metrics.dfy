/** The render metrics: the progress bar (`updateProgressBar`), the
    "You have N tasks" count (`updateTaskCountMessage`) and the navigation
    badges (`updateNavCounts`), each computed from the whole `tasks` array. */
module Metrics {
  import opened Seqs
  import opened Arith
  import opened Dates
  import opened Classifier
  import opened Tasks
  import opened Views

  function Done(): Task -> bool {
    (t: Task) => t.completed
  }

  function Open(): Task -> bool {
    (t: Task) => !t.completed
  }

  function CompletedCount(tasks: seq<Task>): (n: nat)
    ensures n <= |tasks|
  {
    |Filter(tasks, Done())|
  }

  /** The count shown in the task-count message: the incomplete tasks. With
      the completed ones it accounts for every task. */
  function IncompleteCount(tasks: seq<Task>): (n: nat)
    ensures n + CompletedCount(tasks) == |tasks|
  {
    FilterSplitLength(tasks, (t: Task) => true, Open(), Done());
    FilterAll(tasks, (t: Task) => true);
    |Filter(tasks, Open())|
  }

  /** The progress bar width in percent: 0 for an empty list, otherwise
      `Math.round(completed / total * 100)` computed exactly, that is the
      integer nearest to the completed share with halves rounded up. */
  function ProgressPercent(tasks: seq<Task>): (r: int)
    ensures 0 <= r <= 100
    ensures |tasks| == 0 ==> r == 0
    ensures |tasks| > 0 ==>
      2 * (r * |tasks|) - |tasks| <= 200 * CompletedCount(tasks) < 2 * (r * |tasks|) + |tasks|
    ensures CompletedCount(tasks) == 0 ==> r == 0
    ensures |tasks| > 0 && CompletedCount(tasks) == |tasks| ==> r == 100
  {
    var total := |tasks|;
    var done := CompletedCount(tasks);
    if total == 0 then 0
    else
      var r := (200 * done + total) / (2 * total);
      RoundedShare(done, total, r);
      r
  }

  /** The arithmetic behind ProgressPercent: floor((200c + t) / 2t) is the
      percentage of c out of t rounded half up. */
  lemma RoundedShare(c: nat, t: nat, r: int)
    requires 0 < t && c <= t && r == (200 * c + t) / (2 * t)
    ensures 2 * (r * t) - t <= 200 * c < 2 * (r * t) + t
    ensures 0 <= r <= 100
    ensures c == 0 ==> r == 0
    ensures c == t ==> r == 100
  {
    var m := (200 * c + t) % (2 * t);
    assert (2 * t) * r + m == 200 * c + t;
    assert (2 * t) * r == 2 * (r * t);
    RoundingBounds(c, t, r, m);
  }

  /** A quotient r with remainder m as above lies in 0..100, is 0 for no
      completed tasks and 100 for all. */
  lemma RoundingBounds(c: nat, t: nat, r: int, m: int)
    requires 0 < t && c <= t && 2 * (r * t) + m == 200 * c + t && 0 <= m < 2 * t
    ensures 0 <= r <= 100
    ensures c == 0 ==> r == 0
    ensures c == t ==> r == 100
  {
    if r > 100 {
      MulLe(101, r, t);
    } else if r < 0 {
      MulLe(r, -1, t);
    } else if c == 0 && r >= 1 {
      MulLe(1, r, t);
    } else if c == t && r <= 99 {
      MulLe(r, 99, t);
    }
  }

  /** The badge predicates of `updateNavCounts`. */
  function TodayBadgeTask(today: Date): Task -> bool {
    (t: Task) => !t.completed && IsToday(t.dueDate, today)
  }

  function UpcomingBadgeTask(today: Date): Task -> bool {
    (t: Task) => !t.completed && IsUpcoming(t.dueDate, today)
  }

  /** Incomplete tasks that land in the today list only by the fallback:
      overdue or unparseable dates. */
  function Overdue(today: Date): Task -> bool {
    (t: Task) => !t.completed && !IsToday(t.dueDate, today) && !IsUpcoming(t.dueDate, today)
  }

  datatype Badges = Badges(today: nat, upcoming: nat, completed: nat)

  function NavCounts(tasks: seq<Task>, today: Date): Badges {
    Badges(|Filter(tasks, TodayBadgeTask(today))|,
           |Filter(tasks, UpcomingBadgeTask(today))|,
           CompletedCount(tasks))
  }

  /** The incomplete count is the size of the today list plus the size of the
      upcoming list. */
  lemma IncompleteIsTodayPlusUpcoming(tasks: seq<Task>, today: Date)
    ensures var p := Partition(tasks, today);
      IncompleteCount(tasks) == |p.today| + |p.upcoming|
  {
    FilterSplitLength(tasks, Open(), InBucket(today, TodayList), InBucket(today, UpcomingList));
  }

  /** The upcoming and completed badges count their lists; the today badge
      leaves out the overdue and unparseable tasks the today list shows, so
      it is at most the today list's size. */
  lemma BadgesMatchLists(tasks: seq<Task>, today: Date)
    ensures var p, b := Partition(tasks, today), NavCounts(tasks, today);
      && b.upcoming == |p.upcoming|
      && b.completed == |p.completed|
      && b.today + |Filter(tasks, Overdue(today))| == |p.today|
      && b.today <= |p.today|
  {
    FilterAgree(tasks, UpcomingBadgeTask(today), InBucket(today, UpcomingList));
    FilterAgree(tasks, Done(), InBucket(today, CompletedList));
    FilterSplitLength(tasks, InBucket(today, TodayList), TodayBadgeTask(today), Overdue(today));
  }
}

/** The view partitioner: the bucketing loop of `renderTasks`, which walks the
    canonical `tasks` array once and appends each task's card to the today,
    upcoming or completed list. */
module Views {
  import opened Seqs
  import opened Dates
  import opened Classifier
  import opened Tasks
  import opened Store

  datatype Bucket = TodayList | UpcomingList | CompletedList

  /** The three lists in canonical order. */
  datatype Buckets = Buckets(today: seq<Task>, upcoming: seq<Task>, completed: seq<Task>)

  /** The list a task's card goes to: completed tasks to the completed list;
      otherwise `isToday` sends it to today, `isUpcoming` to upcoming, and
      anything else (overdue, unparseable) falls back to today. So the
      upcoming list gets exactly the incomplete tasks due after today, and
      today every incomplete task that is not. */
  function BucketOf(t: Task, today: Date): (b: Bucket)
    ensures b == CompletedList <==> t.completed
    ensures b == UpcomingList <==> !t.completed && IsUpcoming(t.dueDate, today)
  {
    if t.completed then CompletedList
    else if IsToday(t.dueDate, today) then TodayList
    else if IsUpcoming(t.dueDate, today) then UpcomingList
    else TodayList
  }

  function InBucket(today: Date, b: Bucket): Task -> bool {
    (t: Task) => BucketOf(t, today) == b
  }

  /** One pass over `tasks`, appending each task to its list. Each list is
      the stable filter of `tasks` by its bucket. */
  function Partition(tasks: seq<Task>, today: Date): (p: Buckets)
    ensures p.today == Filter(tasks, InBucket(today, TodayList))
    ensures p.upcoming == Filter(tasks, InBucket(today, UpcomingList))
    ensures p.completed == Filter(tasks, InBucket(today, CompletedList))
  {
    if |tasks| == 0 then Buckets([], [], [])
    else
      var prev := Partition(tasks[..|tasks| - 1], today);
      var t := tasks[|tasks| - 1];
      match BucketOf(t, today)
      case TodayList => prev.(today := prev.today + [t])
      case UpcomingList => prev.(upcoming := prev.upcoming + [t])
      case CompletedList => prev.(completed := prev.completed + [t])
  }

  /** The three lists together hold exactly the tasks, each copy once. */
  lemma PartitionIsPermutation(tasks: seq<Task>, today: Date)
    ensures var p := Partition(tasks, today);
      && multiset(p.today) + multiset(p.upcoming) + multiset(p.completed) == multiset(tasks)
      && |p.today| + |p.upcoming| + |p.completed| == |tasks|
  {
    var p := Partition(tasks, today);
    var m := multiset(p.today) + multiset(p.upcoming) + multiset(p.completed);
    forall x
      ensures m[x] == multiset(tasks)[x]
    {
      FilterCount(tasks, InBucket(today, TodayList), x);
      FilterCount(tasks, InBucket(today, UpcomingList), x);
      FilterCount(tasks, InBucket(today, CompletedList), x);
    }
    assert m == multiset(tasks);
    assert |m| == |p.today| + |p.upcoming| + |p.completed|;
  }

  /** A task of the list is in the list of its bucket and in no other list;
      in particular a completed task is in the completed list whatever its
      due date. */
  lemma PartitionPlacesOnce(tasks: seq<Task>, today: Date, t: Task)
    requires t in tasks
    ensures var p := Partition(tasks, today);
      && (t in p.today <==> BucketOf(t, today) == TodayList)
      && (t in p.upcoming <==> BucketOf(t, today) == UpcomingList)
      && (t in p.completed <==> t.completed)
  {
    FilterMember(tasks, InBucket(today, TodayList), t);
    FilterMember(tasks, InBucket(today, UpcomingList), t);
    FilterMember(tasks, InBucket(today, CompletedList), t);
  }

  /** Two tasks of the same list appear in it in their canonical order. */
  lemma BucketKeepsOrder(tasks: seq<Task>, today: Date, b: Bucket, i: int, j: int)
    requires 0 <= i < j < |tasks|
    requires BucketOf(tasks[i], today) == b && BucketOf(tasks[j], today) == b
    ensures var list := Filter(tasks, InBucket(today, b));
      exists k, l :: 0 <= k < l < |list| && list[k] == tasks[i] && list[l] == tasks[j]
  {
    FilterKeepsOrder(tasks, InBucket(today, b), i, j);
  }

  /** For an incomplete task with a valid due date (year 100 or later) and a
      valid today, both within the time-value range, the list is decided on
      the calendar: upcoming exactly when the due date is after today; no
      date, an unparseable date, today and earlier days all go to today. */
  lemma BucketByCalendar(t: Task, today: Date)
    requires !t.completed && ValidDate(today)
    requires InTimeRange(DateNumber(today))
    requires t.dueDate.Day? ==> ValidDate(t.dueDate.date) && t.dueDate.date.year >= 100
    requires t.dueDate.Day? ==> InTimeRange(DateNumber(t.dueDate.date))
    ensures BucketOf(t, today) == UpcomingList <==> t.dueDate.Day? && Before(today, t.dueDate.date)
    ensures BucketOf(t, today) == TodayList <==> !(t.dueDate.Day? && Before(today, t.dueDate.date))
  {
    if t.dueDate.Day? {
      ClassifyByCalendar(t.dueDate.date, today);
    }
  }

  /** Creating a task appends it to the end of its own list and leaves the
      other lists alone. */
  lemma CreateAppendsToBucket(tasks: seq<Task>, today: Date, id: int, text: string, dueDate: DueDate, notes: string)
    requires !Text.AllTrimmable(text)
    ensures var c := Create(tasks, id, text, dueDate, notes);
      var t := c[|tasks|];
      var p, q := Partition(tasks, today), Partition(c, today);
      && q.today == p.today + (if BucketOf(t, today) == TodayList then [t] else [])
      && q.upcoming == p.upcoming + (if BucketOf(t, today) == UpcomingList then [t] else [])
      && q.completed == p.completed
  {
    var c := Create(tasks, id, text, dueDate, notes);
    assert c[..|c| - 1] == tasks;
  }

  /** Deleting a task deletes it from each list and changes nothing else. */
  lemma DeleteCommutesWithPartition(tasks: seq<Task>, today: Date, id: int)
    ensures var p, q := Partition(tasks, today), Partition(Delete(tasks, id), today);
      && q.today == Delete(p.today, id)
      && q.upcoming == Delete(p.upcoming, id)
      && q.completed == Delete(p.completed, id)
  {
    FilterCommute(tasks, Keeps(id), InBucket(today, TodayList));
    FilterCommute(tasks, Keeps(id), InBucket(today, UpcomingList));
    FilterCommute(tasks, Keeps(id), InBucket(today, CompletedList));
  }

  /** Toggling moves only the toggled tasks: a task not carrying the id keeps
      its list, and a task carrying it moves into the completed list or out of
      it. */
  lemma ToggleMovesOnlyTarget(tasks: seq<Task>, today: Date, id: int, i: int)
    requires 0 <= i < |tasks|
    ensures var r := Toggle(tasks, id);
      && (tasks[i].id != id ==> BucketOf(r[i], today) == BucketOf(tasks[i], today))
      && (tasks[i].id == id ==> (BucketOf(r[i], today) == CompletedList <==> !tasks[i].completed))
  {
  }
}

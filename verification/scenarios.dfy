/** Concrete walk-throughs of the model on small task lists. */
module Scenarios {
  import opened Text
  import opened Dates
  import opened Classifier
  import opened Tasks
  import opened Store
  import opened Views
  import opened Reorder
  import opened Metrics

  function Undated(id: int, text: string, completed: bool): Task {
    Task(id, text, NoDate, "", completed)
  }

  /** Two open undated tasks and one completed one: the open ones are listed
      under today in their order, the completed one under completed, and the
      progress bar shows round(100 / 3) = 33 percent. */
  lemma ThreeTasks(today: Date)
    ensures var a, b, c := Undated(1, "A", false), Undated(2, "B", false), Undated(3, "C", true);
      var p := Partition([a, b, c], today);
      && p == Buckets([a, b], [], [c])
      && ProgressPercent([a, b, c]) == 33
      && IncompleteCount([a, b, c]) == 2
  {
    var a, b, c := Undated(1, "A", false), Undated(2, "B", false), Undated(3, "C", true);
    var tasks := [a, b, c];
    assert tasks[..2] == [a, b] && tasks[..2][..1] == [a];
    assert CompletedCount(tasks) == 1 by {
      assert Seqs.Filter(tasks, Done()) == [c] by {
        assert Seqs.Filter([a], Done()) == [];
        assert Seqs.Filter([a, b], Done()) == [];
      }
    }
  }

  /** A whitespace-only text creates nothing. */
  lemma BlankTextRejected(tasks: seq<Task>, id: int)
    ensures Create(tasks, id, "  \t ", NoDate, "") == tasks
  {
    assert AllTrimmable("  \t ") by {
      var s := "  \t ";
      assert forall i :: 0 <= i < |s| ==> s[i] == ' ' || s[i] == '\t';
    }
  }

  /** Dragging task 2 above task 1 in the today list (store [1, 2, 3], visible
      order after the drop [2, 1]) gives [3, 2, 1]: task 3, absent from the
      visible order, moves to the front. */
  lemma DragToTop(t1: Task, t2: Task, t3: Task)
    requires t1.id == 1 && t2.id == 2 && t3.id == 3
    ensures Reorder.Reorder([t1, t2, t3], [2, 1]) == [t3, t2, t1]
  {
    assert Key([2, 1], t1) == 1 && Key([2, 1], t2) == 0 && Key([2, 1], t3) == -1;
    ReorderPairSwapped([2, 1], t1, t2);
    AppendLowestSwapped([2, 1], t1, t2, t3);
  }

  /** Dropping a card back where it was is not a no-op: with task 3 in
      another list and the today list left as [1, 2], the store [1, 2, 3]
      becomes [3, 1, 2]. */
  lemma DropInPlaceMovesOthers(t1: Task, t2: Task, t3: Task)
    requires t1.id == 1 && t2.id == 2 && t3.id == 3
    ensures Reorder.Reorder([t1, t2, t3], [1, 2]) == [t3, t1, t2]
  {
    assert Key([1, 2], t1) == 0 && Key([1, 2], t2) == 1 && Key([1, 2], t3) == -1;
    ReorderPairSorted([1, 2], t1, t2);
    AppendLowestKept([1, 2], t1, t2, t3);
  }

  /** When the tasks missing from the dropped-on list already come before
      it, dropping in place is a no-op: the store [3, 1, 2] with the today
      list left as [1, 2] stays as it is. */
  lemma DropInPlaceAfterOthers(t1: Task, t2: Task, t3: Task)
    requires t1.id == 1 && t2.id == 2 && t3.id == 3
    ensures Reorder.Reorder([t3, t1, t2], [1, 2]) == [t3, t1, t2]
  {
    assert Key([1, 2], t3) == -1 && Key([1, 2], t1) == 0 && Key([1, 2], t2) == 1;
    ReorderSortedIsIdentity([t3, t1, t2], [1, 2]);
  }

  /** Two tasks in key order stay as they are. */
  lemma ReorderPairSorted(order: seq<int>, t1: Task, t2: Task)
    requires Key(order, t1) <= Key(order, t2)
    ensures Reorder.Reorder([t1, t2], order) == [t1, t2]
  {
    ReorderSortedIsIdentity([t1, t2], order);
  }

  /** Two tasks out of key order are swapped. */
  lemma ReorderPairSwapped(order: seq<int>, t1: Task, t2: Task)
    requires Key(order, t1) > Key(order, t2)
    ensures Reorder.Reorder([t1, t2], order) == [t2, t1]
  {
    assert Reorder.Reorder([t1], order) == [t1];
    assert [t1] + [t2] == [t1, t2];
    ReorderSnoc([t1], order, t2);
    InsertLowest([t1], order, t2);
  }

  /** A third task whose key is below those of two tasks left in place goes
      in front of them. */
  lemma AppendLowestKept(order: seq<int>, t1: Task, t2: Task, t3: Task)
    requires Reorder.Reorder([t1, t2], order) == [t1, t2]
    requires Key(order, t1) > Key(order, t3) && Key(order, t2) > Key(order, t3)
    ensures Reorder.Reorder([t1, t2, t3], order) == [t3, t1, t2]
  {
    var s := [t1, t2];
    assert s + [t3] == [t1, t2, t3] && [t3] + s == [t3, t1, t2];
    AppendLowest(s, s, order, t3);
  }

  /** A third task whose key is below those of two swapped tasks goes in
      front of them. */
  lemma AppendLowestSwapped(order: seq<int>, t1: Task, t2: Task, t3: Task)
    requires Reorder.Reorder([t1, t2], order) == [t2, t1]
    requires Key(order, t3) < Key(order, t2) < Key(order, t1)
    ensures Reorder.Reorder([t1, t2, t3], order) == [t3, t2, t1]
  {
    var s, r := [t1, t2], [t2, t1];
    assert s + [t3] == [t1, t2, t3] && [t3] + r == [t3, t2, t1];
    AppendLowest(s, r, order, t3);
  }

  /** A task appended after tasks that all sort above it ends up first. */
  lemma AppendLowest(s: seq<Task>, r: seq<Task>, order: seq<int>, t: Task)
    requires Reorder.Reorder(s, order) == r
    requires forall j :: 0 <= j < |r| ==> Key(order, r[j]) > Key(order, t)
    ensures Reorder.Reorder(s + [t], order) == [t] + r
  {
    ReorderSnoc(s, order, t);
    InsertLowest(r, order, t);
  }

  /** The drop sort of a list with one more task at the end inserts that task
      into the sorted shorter list. */
  lemma ReorderSnoc(s: seq<Task>, order: seq<int>, t: Task)
    ensures Reorder.Reorder(s + [t], order) == Insert(Reorder.Reorder(s, order), order, t)
  {
    assert (s + [t])[..|s|] == s;
  }

  /** A task whose key is below every key of a sorted list goes to its
      front. */
  lemma InsertLowest(s: seq<Task>, order: seq<int>, t: Task)
    requires SortedByKey(s, order)
    requires forall j :: 0 <= j < |s| ==> Key(order, s[j]) > Key(order, t)
    ensures Insert(s, order, t) == [t] + s
  {
    assert s[..0] == [] && s[0..] == s;
  }

  /** Around a leap day, with today = 2024-02-28: the same day is today, the
      leap day upcoming, and the day before neither, so an open task due then
      stays in the today list. */
  lemma LeapDayBoundaries()
    ensures var today := Date(2024, 2, 28);
      && IsToday(Day(Date(2024, 2, 28)), today)
      && IsUpcoming(Day(Date(2024, 2, 29)), today)
      && !IsToday(Day(Date(2024, 2, 27)), today) && !IsUpcoming(Day(Date(2024, 2, 27)), today)
  {
    var today := Date(2024, 2, 28);
    assert IsLeapYear(2024);
    ClassifyByCalendar(Date(2024, 2, 28), today);
    ClassifyByCalendar(Date(2024, 2, 29), today);
    ClassifyByCalendar(Date(2024, 2, 27), today);
  }

  /** A day past the end of the month carries over: 2024-02-30 is 1 March,
      which is upcoming on 2024-02-28. */
  lemma DayOverflowCarries()
    ensures DueDayNumber(Date(2024, 2, 30)) == DateNumber(Date(2024, 3, 1))
    ensures IsUpcoming(Day(Date(2024, 2, 30)), Date(2024, 2, 28))
  {
    assert IsLeapYear(2024);
    assert DaysBeforeMonth(2024, 3) == DaysBeforeMonth(2024, 2) + 29;
  }

  /** The ends of the time-value range: 275760-09-13 is the last day a
      `Date` can hold, so an open task due then is upcoming, while one due a
      day later has a NaN time, is neither today nor upcoming, and stays in
      the today list. */
  lemma TimeRangeEnds(id: int)
    ensures var today := Date(2026, 10, 10);
      && IsUpcoming(Day(Date(275760, 9, 13)), today)
      && !IsUpcoming(Day(Date(275760, 9, 14)), today)
      && !IsToday(Day(Date(275760, 9, 14)), today)
      && BucketOf(Task(id, "far", Day(Date(275760, 9, 14)), "", false), today) == TodayList
  {
    LastTimeDay();
    SupportedYears(Date(2026, 10, 10));
  }

  /** 275760-09-13 lies exactly 10^8 days after the epoch. */
  lemma LastTimeDay()
    ensures DateNumber(Date(275760, 9, 13)) == EpochDay + MaxTimeDays
    ensures DueDayNumber(Date(275760, 9, 14)) == EpochDay + MaxTimeDays + 1
  {
    assert DaysBeforeYear(275760) == EpochDay + 99999744;
    assert DaysBeforeMonth(275760, 9) == 243 + 1 by {
      assert IsLeapYear(275760);
      assert DaysBeforeMonth(275760, 3) == 60;
    }
  }

  /** -271821-04-20 lies exactly 10^8 days before the epoch, the first day a
      `Date` can hold. */
  lemma FirstTimeDay()
    ensures DateNumber(Date(-271821, 4, 20)) == EpochDay - MaxTimeDays
    ensures InTimeRange(DateNumber(Date(-271821, 4, 20)))
    ensures !InTimeRange(DateNumber(Date(-271821, 4, 19)))
  {
    assert DaysBeforeYear(-271821) == EpochDay - MaxTimeDays - 109;
    assert DaysBeforeMonth(-271821, 4) == 90 by {
      assert !IsLeapYear(-271821);
    }
  }

  /** A two-digit year is read in the 1900s: 0024-03-01 is 1924, long past. */
  lemma TwoDigitYear()
    ensures DueDayNumber(Date(24, 3, 1)) == DateNumber(Date(1924, 3, 1))
    ensures !IsUpcoming(Day(Date(24, 3, 1)), Date(2024, 2, 28))
    ensures !IsToday(Day(Date(24, 3, 1)), Date(2024, 2, 28))
  {
    ClassifyByCalendar(Date(1924, 3, 1), Date(2024, 2, 28));
  }
}

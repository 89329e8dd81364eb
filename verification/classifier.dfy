/** The date classifier: `isToday` and `isUpcoming` of tasks.js, with the
    clock reading ("today") passed in. */
module Classifier {
  import opened Dates

  /** A task's due date as the form stores it. `NoDate` is the empty string
      (no date picked), `Day` a string whose three `-`-separated parts are
      numbers, and `Unparseable` any other string, for which the JavaScript
      `Date` is invalid and its `getTime()` is NaN. */
  datatype DueDate = NoDate | Day(date: Date) | Unparseable

  /** `new Date(year, month - 1, day)` maps the years 0 to 99 to 1900 to 1999
      (ECMAScript MakeFullYear); other years are taken as they are. */
  function FullYear(y: int): (r: int)
    ensures 0 <= y <= 99 ==> r == 1900 + y
    ensures y >= 100 || y < 0 ==> r == y
    ensures r >= 100 || r < 0
  {
    if 0 <= y <= 99 then 1900 + y else y
  }

  /** The day number of local midnight of a due date, as tasks.js builds it. */
  function DueDayNumber(d: Date): int {
    DayNumber(FullYear(d.year), d.month, d.day)
  }

  /** `isToday`: an empty date counts as today; otherwise the due day and
      today are compared at midnight. An invalid date, unparseable or out of
      the time-value range, has a NaN time and equals nothing. */
  function IsToday(due: DueDate, today: Date): (r: bool)
    ensures due.NoDate? ==> r
    ensures due.Unparseable? ==> !r
    ensures due.Day? && !InTimeRange(DueDayNumber(due.date)) ==> !r
    ensures due.Day? && r ==> DueDayNumber(due.date) == DateNumber(today)
  {
    match due
    case NoDate => true
    case Unparseable => false
    case Day(d) => InTimeRange(DueDayNumber(d)) && DueDayNumber(d) == DateNumber(today)
  }

  /** `isUpcoming`: true only for a valid date strictly after today, so
      never together with `isToday`. A NaN time on either side makes the
      comparison false. */
  function IsUpcoming(due: DueDate, today: Date): (r: bool)
    ensures r ==> due.Day? && !IsToday(due, today)
    ensures due.Day? && !InTimeRange(DueDayNumber(due.date)) ==> !r
    ensures !InTimeRange(DateNumber(today)) ==> !r
    ensures r ==> due.Day? && DueDayNumber(due.date) > DateNumber(today)
  {
    match due
    case NoDate => false
    case Unparseable => false
    case Day(d) =>
      && InTimeRange(DueDayNumber(d)) && InTimeRange(DateNumber(today))
      && DueDayNumber(d) > DateNumber(today)
  }

  /** For a valid due date with a year of at least 100, and a valid today,
      both within the time-value range, the classifier is calendar
      comparison: the date is today exactly when it is the same calendar day,
      upcoming exactly when it is a later day, and neither exactly when it is
      an earlier day. */
  lemma ClassifyByCalendar(d: Date, today: Date)
    requires ValidDate(d) && d.year >= 100 && ValidDate(today)
    requires InTimeRange(DateNumber(d)) && InTimeRange(DateNumber(today))
    ensures IsToday(Day(d), today) <==> d == today
    ensures IsUpcoming(Day(d), today) <==> Before(today, d)
    ensures !IsToday(Day(d), today) && !IsUpcoming(Day(d), today) <==> Before(d, today)
  {
    assert DueDayNumber(d) == DateNumber(d);
    DayOrder(d, today);
    DayOrder(today, d);
  }
}

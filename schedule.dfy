/*
 * `findNextActivity` and `findNextLesson`: the instant of the next Wednesday activity
 * (19:00) and of the next Sunday lesson (12:00), computed from the current instant
 * `now`, which the bot reads from the local clock and this model takes as a parameter.
 */
module Schedule {
  import opened GoTime

  /** `day` is the first day from `from` on (inclusive) that falls on weekday `weekday`. */
  ghost predicate FirstOnOrAfter(from: int, day: int, weekday: int) {
    from <= day
    && WeekdayOf(day) == weekday
    && forall k :: from <= k < day ==> WeekdayOf(k) != weekday
  }

  /** `findNextActivity`: 19:00 on today's date, moved forward to Wednesday unless today is one. */
  function FindNextActivity(now: Instant): (r: Instant)
    ensures ValidInstant(r) && r.hour == 19 && r.minute == 0 && r.second == 0
    ensures WeekdayOf(r.day) == Wednesday
    ensures now.day <= r.day <= now.day + 6
  {
    var activityTime := AtClock(now, 19);
    var weekday := WeekdayOf(now.day);
    if weekday < 3 then AddDays(activityTime, 3 - weekday)
    else if weekday > 3 then AddDays(activityTime, 10 - weekday)
    else activityTime
  }

  /** `findNextLesson`: 12:00 on today's date, moved forward by 7 minus today's weekday. */
  function FindNextLesson(now: Instant): (r: Instant)
    ensures ValidInstant(r) && r.hour == 12 && r.minute == 0 && r.second == 0
    ensures WeekdayOf(r.day) == Sunday
    ensures now.day + 1 <= r.day <= now.day + 7
  {
    var activityTime := AtClock(now, 12);
    var weekday := WeekdayOf(now.day);
    // `findNextLesson` tests `weekday < 7`, which every weekday satisfies.
    if weekday < 7 then AddDays(activityTime, 7 - weekday)
    else activityTime
  }

  /** Stepping `n` days (less than a week) from `from` reaches weekday `weekday` for the first time. */
  lemma FirstOnOrAfterByOffset(from: int, n: int, weekday: int)
    requires 0 <= n < 7
    requires (WeekdayOf(from) + n) % 7 == weekday
    ensures FirstOnOrAfter(from, from + n, weekday)
  {
    WeekdayShift(from, n);
    forall k | from <= k < from + n
      ensures WeekdayOf(k) != weekday
    {
      WeekdayShift(from, k - from);
    }
  }

  /** The activity is on the first Wednesday from today on, today included. */
  lemma NextActivityIsFirstWednesday(now: Instant)
    ensures FirstOnOrAfter(now.day, FindNextActivity(now).day, Wednesday)
  {
    var r := FindNextActivity(now);
    FirstOnOrAfterByOffset(now.day, r.day - now.day, Wednesday);
  }

  /** The lesson is on the first Sunday after today, today excluded. */
  lemma NextLessonIsFirstSundayAfter(now: Instant)
    ensures FirstOnOrAfter(now.day + 1, FindNextLesson(now).day, Sunday)
  {
    var r := FindNextLesson(now);
    FirstOnOrAfterByOffset(now.day + 1, r.day - now.day - 1, Sunday);
  }

  /** On a Wednesday the activity is today at 19:00, whatever the time now. */
  lemma ActivityOnWednesdayIsToday(now: Instant)
    requires WeekdayOf(now.day) == Wednesday
    ensures FindNextActivity(now) == Instant(now.day, 19, 0, 0)
  {
  }

  /** So on a Wednesday after 19:00 the "next" activity lies in the past. */
  lemma ActivityCanBeInThePast(now: Instant)
    requires WeekdayOf(now.day) == Wednesday
    requires Before(Instant(now.day, 19, 0, 0), now)
    ensures Before(FindNextActivity(now), now)
  {
  }

  /** On a Sunday the next lesson is a week later, never today. */
  lemma LessonOnSundayIsNextWeek(now: Instant)
    requires WeekdayOf(now.day) == Sunday
    ensures FindNextLesson(now).day == now.day + 7
  {
  }

  /** From Monday 4 March 2024 at 10:00 the activity is that Wednesday at 19:00 and the lesson that Sunday at 12:00. */
  lemma MondayMorningScenario()
    ensures WeekdayOf(19786) == Monday
    ensures FindNextActivity(Instant(19786, 10, 0, 0)) == Instant(19788, 19, 0, 0)
    ensures FindNextLesson(Instant(19786, 10, 0, 0)) == Instant(19792, 12, 0, 0)
  {
    var now := Instant(19786, 10, 0, 0);
    assert WeekdayOf(now.day) == Monday;
    assert FindNextActivity(now) == AddDays(AtClock(now, 19), 2);
    assert FindNextLesson(now) == AddDays(AtClock(now, 12), 6);
  }
}

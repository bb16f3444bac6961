/** Every window a spec reaches can be clicked to on the booking calendar. */
module StayReach {
  import opened Outcomes
  import opened Text
  import opened CivilCalendar
  import opened IsoDates
  import opened Fixtures
  import opened StayOffsets
  import opened StayDates
  import opened StayGuarantees
  import opened CalendarWalk

  const MAX_MONTH_HOPS := 24

  // ---------- months between two days ----------

  function MonthOfDay(day: int): int {
    MonthIndex(CivilFromDays(day))
  }

  /** The first day of a month. */
  function MonthStart(month: int): int {
    DayNumber(CivilDate(month / 12, month % 12 + 1, 1))
  }

  lemma NextMonthStart(month: int)
    ensures 28 <= MonthStart(month + 1) - MonthStart(month) <= 31
  {
    hide DayFromYear, IsLeapYear;
    var year := month / 12;
    if month % 12 == 11 {
      assert (month + 1) / 12 == year + 1 && (month + 1) % 12 == 0;
      YearLength(year);
    } else {
      assert (month + 1) / 12 == year && (month + 1) % 12 == month % 12 + 1;
    }
  }

  lemma {:induction false} MonthStartsApart(month: int, months: nat)
    ensures MonthStart(month + months) - MonthStart(month) >= 28 * months
  {
    hide MonthStart;
    if months > 0 {
      MonthStartsApart(month, months - 1);
      NextMonthStart(month + (months - 1));
      assert month + (months - 1) + 1 == month + months;
    }
  }

  lemma DayInMonth(day: int)
    ensures 0 <= day - MonthStart(MonthOfDay(day)) <= 30
  {
    hide CivilFromDays, DayFromYear, DaysBeforeMonth;
    KernelInverse(day);
    var date := CivilFromDays(day);
    assert MonthIndex(date) / 12 == date.year && MonthIndex(date) % 12 == date.month - 1;
  }

  /** `days` days cross at most one month more than they hold lots of 28. */
  lemma MonthsAhead(day: int, days: nat)
    ensures 0 <= MonthOfDay(day + days) - MonthOfDay(day)
    ensures MonthOfDay(day + days) - MonthOfDay(day) <= days / 28 + 1
  {
    hide MonthOfDay, MonthStart;
    DayInMonth(day);
    DayInMonth(day + days);
    var from, next := MonthOfDay(day), MonthOfDay(day + days);
    if from < next {
      MonthEnd(day);
      MonthStartsApart(from + 1, next - from - 1);
    } else if next < from {
      MonthStartsApart(next, from - next);
      MonthStartsApart(next + 1, from - next - 1);
      NextMonthStart(next);
      MonthEnd(day + days);
    }
  }

  lemma MonthEnd(day: int)
    ensures day < MonthStart(MonthOfDay(day) + 1)
  {
    hide CivilFromDays, DayFromYear, IsLeapYear;
    KernelInverse(day);
    var date := CivilFromDays(day);
    assert MonthIndex(date) / 12 == date.year && MonthIndex(date) % 12 == date.month - 1;
    if date.month == 12 {
      YearLength(date.year);
      assert (MonthIndex(date) + 1) / 12 == date.year + 1 && (MonthIndex(date) + 1) % 12 == 0;
    } else {
      assert (MonthIndex(date) + 1) / 12 == date.year && (MonthIndex(date) + 1) % 12 == date.month;
    }
  }

  // ---------- selecting a stay ----------

  method SelectCalendarDay(calendar: BookingCalendar, dateOnly: string) returns (spent: Outcome<int>)
    modifies calendar
    ensures MonthKeyOfHeading(old(calendar.Heading())).Throw? ==> spent.Throw? && calendar.month == old(calendar.month)
    ensures IsCalendarDate(dateOnly) && DateNamed(dateOnly).year >= 1000 && HasFourDigitHeading(old(calendar.month)) ==>
              var distance := Distance(old(calendar.month), TargetMonth(dateOnly));
              && spent == (if distance <= 24 then Ok(distance) else Throw(NotReached))
              && (distance <= 24 ==> calendar.month == TargetMonth(dateOnly))
  {
    hide IsDateOnly, DateNamed, HeadingText, MonthKeyOfHeading;
    spent := WalkCalendarToMonth(calendar, dateOnly, MAX_MONTH_HOPS);
  }

  /** The text of a four-digit day is a date the calendar kernel reads as that day. */
  lemma DayAsTarget(day: int)
    requires HasFourDigitYear(day) && CivilFromDays(day).year >= 1
    ensures InTimeRange(day) && IsCalendarDate(IsoDay(day))
    ensures DateNamed(IsoDay(day)) == CivilFromDays(day) && TargetMonth(IsoDay(day)) == MonthOfDay(day)
  {
    FourDigitYearsInRange(day);
    YearOfDay(day);
    hide CivilFromDays, DateText, IsDateShaped, DateNamed;
    DateTextParts(CivilFromDays(day));
  }

  /** The run dates a calendar heading can name: from the year 1000. */
  predicate HasHeadings(today: int) {
    CivilFromDays(today).year >= 1000
  }

  lemma YearsLater(today: int, days: nat)
    requires HasHeadings(today) && today + days <= LAST_DAY
    ensures HasFourDigitYear(today + days) && HasHeadings(today + days)
    ensures HasFourDigitHeading(MonthOfDay(today + days))
  {
    hide CivilFromDays;
    MonthsAhead(today, days);
    KernelInverse(today);
    KernelInverse(today + days);
    YearOfDay(today);
    YearOfDay(today + days);
  }

  /** Where each window a spec reaches lies, for the walk. */
  lemma StayTargets(dates: SeededDates, today: int, index: int) returns (ahead: nat)
    requires RunsOn(dates, today) && HasHeadings(today) && 0 <= index < 64
    ensures ahead <= 588 && today + ahead + 2 <= LAST_DAY
    ensures AllottedWindow(dates, index).Ok? && IsTwoNights(AllottedWindow(dates, index).value, today + ahead)
  {
    hide AllottedWindow, LoadFixtures, UsableCount, StepOffset, UsableOffset, TwoNights, CivilFromDays;
    UsableTotals(Weekday(today));
    AllotmentExact(dates, today, index);
    var step := AllottedDay(dates, today, index);
    SpecIndicesLeaveRoom(Weekday(today), index, step);
    StepFacts(today, step);
    ahead := StepOffset(Weekday(today), step);
  }

  /** Before the year 1000 the run date's own month has no readable heading. */
  lemma NoHeading(today: int)
    requires HasFourDigitYear(today) && !HasHeadings(today)
    ensures MonthKeyOfHeading(HeadingText(MonthOfDay(today) / 12, MonthOfDay(today) % 12 + 1)).Throw?
  {
    hide CivilFromDays, MonthKeyOfHeading, HeadingText;
    KernelInverse(today);
    YearOfDay(today);
    var date := CivilFromDays(today);
    assert MonthOfDay(today) / 12 == date.year && MonthOfDay(today) % 12 == date.month - 1;
    HeadingRead(date.year, date.month);
  }

  /**
   * On every run date from the year 1000 whose seasons end in four-digit years, a calendar opened on
   * the run date's month reaches the check-in month of any index a spec uses, and then the check-out
   * month, inside the hop bound: 22 hops at most, and then at most one. On earlier run dates it throws.
   */
  method SelectStay(calendar: BookingCalendar, window: StayWindow, ghost dates: SeededDates, ghost today: int, ghost index: int)
    returns (spent: Outcome<(int, int)>)
    modifies calendar
    ensures (RunsOn(dates, today) && 0 <= index < 64 && AllottedWindow(dates, index) == Ok(window)
             && old(calendar.month) == MonthOfDay(today)) ==> (spent.Ok? <==> HasHeadings(today))
    ensures RunsOn(dates, today) && HasHeadings(today) && 0 <= index < 64 && AllottedWindow(dates, index) == Ok(window)
            && old(calendar.month) == MonthOfDay(today) ==>
              && spent.Ok? && 0 <= spent.value.0 <= 22 && 0 <= spent.value.1 <= 1
              && IsCalendarDate(window.checkIn) && IsCalendarDate(window.checkOut)
              && spent.value.0 == TargetMonth(window.checkIn) - MonthOfDay(today)
              && calendar.month == TargetMonth(window.checkOut) == TargetMonth(window.checkIn) + spent.value.1
  {
    hide AllottedWindow, RunsOn, MonthOfDay, HasHeadings, IsCalendarDate, TargetMonth, IsDateOnly, DateNamed, IsoDay, CivilFromDays,
      MonthKeyOfHeading, HeadingText;
    ghost var served := RunsOn(dates, today) && HasHeadings(today) && 0 <= index < 64
                        && AllottedWindow(dates, index) == Ok(window) && calendar.month == MonthOfDay(today);
    if served {
      var ahead := StayTargets(dates, today, index);
      TargetsInReach(today, ahead, window);
    }
    if RunsOn(dates, today) && !HasHeadings(today) {
      DayOfRun(dates, today);
      NoHeading(today);
    }
    var toCheckIn :- SelectCalendarDay(calendar, window.checkIn);
    var toCheckOut :- SelectCalendarDay(calendar, window.checkOut);
    return Ok((toCheckIn, toCheckOut));
  }

  lemma DayOfRun(dates: SeededDates, today: int)
    requires RunsOn(dates, today)
    ensures HasFourDigitYear(today)
  {
    hide LoadFixtures;
  }

  /** A run date on which the fixtures load and the first spec is served, but its month cannot be read. */
  lemma EarlyRunDate() returns (dates: SeededDates, today: int, window: StayWindow)
    ensures RunsOn(dates, today) && dates.today == "0999-12-31" && !HasHeadings(today)
    ensures AllottedWindow(dates, 0) == Ok(window)
  {
    hide IsoDay, LoadFixtures, AllottedWindow, CivilFromDays;
    today := LastDayOf999();
    FixturesLoad(today);
    dates := LoadFixtures(IsoDay(today)).value;
    LoadedToday(dates, IsoDay(today));
    UsableTotals(Weekday(today));
    AllotmentExact(dates, today, 0);
    window := AllottedWindow(dates, 0).value;
  }

  lemma LastDayOf999() returns (today: int)
    ensures InsideHorizon(today) && InTimeRange(today) && IsoDay(today) == "0999-12-31" && CivilFromDays(today).year == 999
  {
    hide IsoDay, DateText, CivilFromDays;
    FourDigitSpan();
    var date := CivilDate(999, 12, 31);
    today := DayNumber(date);
    assert today == -354_286 by { DaysTo999(); }
    TextOfDate(date);
    CivilOfDayNumber(date);
    assert DateText(date) == "0999-12-31" by { TextOf999(); }
  }

  lemma DaysTo999()
    ensures DayNumber(CivilDate(999, 12, 31)) == -354_286
  {
  }

  lemma TextOf999()
    ensures DateText(CivilDate(999, 12, 31)) == "0999-12-31"
  {
    hide Padded;
    FourDigits(999);
    TwoDigits(12);
    TwoDigits(31);
  }

  lemma TargetsInReach(today: int, ahead: nat, window: StayWindow)
    requires HasHeadings(today) && ahead <= 588 && today + ahead + 2 <= LAST_DAY && IsTwoNights(window, today + ahead)
    ensures IsCalendarDate(window.checkIn) && IsCalendarDate(window.checkOut)
    ensures DateNamed(window.checkIn).year >= 1000 && DateNamed(window.checkOut).year >= 1000
    ensures HasFourDigitHeading(MonthOfDay(today)) && HasFourDigitHeading(TargetMonth(window.checkIn))
    ensures 0 <= TargetMonth(window.checkIn) - MonthOfDay(today) <= 22
    ensures 0 <= TargetMonth(window.checkOut) - TargetMonth(window.checkIn) <= 1
  {
    hide CivilFromDays, IsoDay, MonthOfDay, IsCalendarDate, TargetMonth, DateNamed, HasFourDigitHeading;
    YearsLater(today, 0);
    YearsLater(today, ahead);
    YearsLater(today, ahead + 2);
    DayAsTarget(today + ahead);
    DayAsTarget(today + ahead + 2);
    MonthsAhead(today, ahead);
    MonthsAhead(today + ahead, 2);
  }
}

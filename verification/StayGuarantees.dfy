/**
 * What the allocators guarantee on every run date: how many windows there are, which, that no two
 * share a night, and exactly which run dates these guarantees reach.
 */
module StayGuarantees {
  import opened Outcomes
  import opened Text
  import opened CivilCalendar
  import opened IsoDates
  import opened Fixtures
  import opened StayOffsets
  import opened StayDates

  /** `dates` are the fixtures of run date `today`, and every seeded season ends in a four-digit year. */
  predicate RunsOn(dates: SeededDates, today: int) {
    InsideHorizon(today) && InTimeRange(today) && LoadFixtures(IsoDay(today)) == Ok(dates)
  }

  // ---------- text stands for days ----------

  /** The first day past the four-digit years; its text, and that of its month, names no later day. */
  const FIRST_LONG_DAY := LAST_DAY + 1

  lemma FourDigitSpan()
    ensures FIRST_DAY == -719_528 && LAST_DAY == 2_932_896
  {
  }

  lemma JanuaryForgets(days: nat)
    requires days <= 30
    ensures InTimeRange(FIRST_LONG_DAY + days)
    ensures IsoDay(FIRST_LONG_DAY + days) == MonthText(10_000, 1)
    ensures Remembered(FIRST_LONG_DAY + days) == FIRST_LONG_DAY
  {
    var date := CivilDate(10_000, 1, 1 + days);
    assert DayNumber(date) == FIRST_LONG_DAY + days;
    FourDigitSpan();
    CivilOfDayNumber(date);
    hide CivilFromDays, DayNumber, MonthText, DateText;
  }

  lemma SeasonBoundHolds(bound: int, night: int)
    requires InTimeRange(bound) && InTimeRange(night) && FIRST_DAY <= night && bound <= LAST_DAY
    requires bound < FIRST_DAY ==> night <= LAST_DAY
    ensures AtMost(IsoDay(bound), IsoDay(night)) <==> bound <= night <= LAST_DAY
    ensures FIRST_DAY <= bound && night <= LAST_DAY ==> (AtMost(IsoDay(night), IsoDay(bound)) <==> night <= bound)
  {
    hide IsoDay, Less;
    if night > LAST_DAY {
      LongYearsSortFirst(night, bound);
    } else if bound < FIRST_DAY {
      LongYearsSortFirst(bound, night);
      LessAsymmetric(IsoDay(bound), IsoDay(night));
    } else {
      IsoDayOrder(bound, night);
      IsoDayOrder(night, bound);
    }
  }

  /** A season of the fixtures holds both nights from `day` exactly when the offsets say so. */
  lemma SeasonHolds(season: Season, today: int, start: int, stop: int, day: int)
    requires InsideHorizon(today) && -90 <= start <= HORIZON && 0 <= stop <= HORIZON && day <= today + 2500
    requires InTimeRange(today + start) && InTimeRange(today + stop) && InTimeRange(day) && InTimeRange(day + 1)
    requires season.start == IsoDay(today + start) && season.end == IsoDay(today + stop)
    requires FIRST_DAY <= day <= FIRST_LONG_DAY
    ensures HoldsEvery(season, [IsoDay(day), IsoDay(day + 1)]) <==> start <= day - today && day + 1 - today <= stop
  {
    hide IsoDay, Less, AtMost;
    var nights := [IsoDay(day), IsoDay(day + 1)];
    assert HoldsEvery(season, nights) <==>
             && AtMost(season.start, nights[0]) && AtMost(nights[0], season.end)
             && AtMost(season.start, nights[1]) && AtMost(nights[1], season.end);
    FourDigitSpan();
    SeasonBoundHolds(today + start, day);
    SeasonBoundHolds(today + start, day + 1);
    SeasonBoundHolds(today + stop, day);
    SeasonBoundHolds(today + stop, day + 1);
  }

  lemma LoadedSeasons(dates: SeededDates, today: int)
    requires RunsOn(dates, today)
    ensures dates.today == IsoDay(today)
    ensures InTimeRange(today - 90) && InTimeRange(today + 239) && InTimeRange(today + 270) && InTimeRange(today + 599)
    ensures dates.seasons == [Season("winter", IsoDay(today - 90), IsoDay(today + 239)),
                              Season("summer", IsoDay(today + 270), IsoDay(today + 599))]
  {
    hide IsoDay, ShiftDateOnly, RelWindows, RelMondayWindows;
    FourDigitYearsInRange(today);
    ShiftOfIsoDay(today, -90);
    ShiftOfIsoDay(today, 239);
    ShiftOfIsoDay(today, 270);
    ShiftOfIsoDay(today, 599);
  }

  lemma SeasonExactly(dates: SeededDates, today: int, day: int)
    requires RunsOn(dates, today) && InTimeRange(day) && InTimeRange(day + 1)
    requires FIRST_DAY <= day <= FIRST_LONG_DAY && day <= today + 2500
    ensures |dates.seasons| == 2
    ensures HoldsEvery(dates.seasons[0], [IsoDay(day), IsoDay(day + 1)]) <==> -90 <= day - today && day + 1 - today <= 239
    ensures HoldsEvery(dates.seasons[1], [IsoDay(day), IsoDay(day + 1)]) <==> 270 <= day - today && day + 1 - today <= HORIZON
    ensures IsWindowInSeededSeason(dates, [IsoDay(day), IsoDay(day + 1)]) <==> InSeasonOffset(day - today)
  {
    hide IsoDay, HoldsEvery, LoadFixtures;
    LoadedSeasons(dates, today);
    SeasonHolds(dates.seasons[0], today, -90, 239, day);
    SeasonHolds(dates.seasons[1], today, 270, HORIZON, day);
  }

  /** Two nights from a day on are usable exactly when their offsets are. */
  lemma UsableExactly(dates: SeededDates, today: int, day: int)
    requires RunsOn(dates, today) && InTimeRange(day) && InTimeRange(day + 1)
    requires today <= day <= FIRST_LONG_DAY && day <= today + 2500
    ensures IsUsable(dates, [IsoDay(day), IsoDay(day + 1)]) <==> UsableOffset(Weekday(today), day - today)
  {
    hide IsoDay, HoldsEvery, LoadFixtures, IsWindowInSeededSeason, ReservedOffset, SeededDates.IsReserved;
    SeasonExactly(dates, today, day);
    var nights := [IsoDay(day), IsoDay(day + 1)];
    assert IsUsable(dates, nights) <==>
             !dates.IsReserved(nights[0]) && !dates.IsReserved(nights[1]) && IsWindowInSeededSeason(dates, nights);
    if day + 1 <= LAST_DAY {
      ReservedExactly(today, day);
      ReservedExactly(today, day + 1);
    }
  }

  // ---------- the walk, in days ----------

  /** Two nights from a day on, as the allocator hands them out. */
  function TwoNights(day: int): StayWindow
    requires InTimeRange(day) && InTimeRange(day + 2)
  {
    StayWindow(IsoDay(day), IsoDay(day + 2), [IsoDay(day), IsoDay(day + 1)])
  }

  /** The day the walk's text stands for after `step` weeks: past the four-digit years it stands still. */
  function MondayAt(first: int, step: nat): int {
    if first + 7 * step <= LAST_DAY then first + 7 * step else FIRST_LONG_DAY
  }

  /** The days a walk may start from. */
  predicate StartsInRange(first: int) {
    FIRST_DAY <= first <= LAST_DAY + 30
  }

  predicate UsableMonday(dates: SeededDates, first: int, step: nat)
    requires StartsInRange(first)
  {
    FourDigitSpan();
    var day := MondayAt(first, step);
    IsUsable(dates, [IsoDay(day), IsoDay(day + 1)])
  }

  /** The step of the first usable Monday, from `step` on, with `remaining` usable ones before it. */
  function StepAllotted(dates: SeededDates, first: int, step: nat, remaining: int): Option<nat>
    requires StartsInRange(first)
    decreases MAX_MONDAYS - step
  {
    if step >= MAX_MONDAYS then None
    else if UsableMonday(dates, first, step) then
      if remaining == 0 then Some(step) else StepAllotted(dates, first, step + 1, remaining - 1)
    else StepAllotted(dates, first, step + 1, remaining)
  }

  lemma MondayText(first: int, step: nat, days: nat)
    requires StartsInRange(first) && days <= 7
    ensures var day := MondayAt(first, step);
            && InTimeRange(day) && InTimeRange(day + days)
            && ShiftDateOnly(IsoDay(day), days) == Ok(IsoDay(day + days))
            && InTimeRange(MondayAt(first, step + 1)) && IsoDay(day + 7) == IsoDay(MondayAt(first, step + 1))
  {
    hide IsoDay, ShiftDateOnly, DayFromYear, MonthText;
    FourDigitSpan();
    var day := MondayAt(first, step);
    ShiftOfText(day, days);
    JanuaryForgets(0);
    if day == FIRST_LONG_DAY {
      JanuaryForgets(7);
    } else if day + 7 > LAST_DAY {
      JanuaryForgets(day + 7 - FIRST_LONG_DAY);
    }
  }

  /** The text walk is the walk over days. */
  lemma {:induction false} WalkInDays(dates: SeededDates, first: int, step: nat, remaining: int)
    requires StartsInRange(first) && step <= MAX_MONDAYS
    ensures InTimeRange(MondayAt(first, step))
    ensures var walk := WalkMondays(dates, IsoDay(MondayAt(first, step)), remaining, MAX_MONDAYS - step);
            match StepAllotted(dates, first, step, remaining)
            case None => walk == Throw(NoWindow)
            case Some(found) =>
              InTimeRange(MondayAt(first, found)) && InTimeRange(MondayAt(first, found) + 2)
              && walk == Ok(TwoNights(MondayAt(first, found)))
    decreases MAX_MONDAYS - step
  {
    hide IsoDay, ShiftDateOnly, IsUsable, MondayAt;
    MondayText(first, step, 1);
    MondayText(first, step, 2);
    MondayText(first, step, 7);
    if step < MAX_MONDAYS {
      WalkInDays(dates, first, step + 1, remaining);
      WalkInDays(dates, first, step + 1, remaining - 1);
    }
  }

  // ---------- an index is a count ----------

  /** How many of the walk's first `steps` Mondays are usable. */
  function UsableMondays(dates: SeededDates, first: int, steps: nat): nat
    requires StartsInRange(first)
  {
    if steps == 0 then 0
    else UsableMondays(dates, first, steps - 1) + (if UsableMonday(dates, first, steps - 1) then 1 else 0)
  }

  /** The allotted Monday is the usable one with exactly `remaining` usable ones before it, if there is one. */
  lemma {:induction false} AllottedByCount(dates: SeededDates, first: int, step: nat, remaining: int)
    requires StartsInRange(first) && step <= MAX_MONDAYS
    ensures var before := UsableMondays(dates, first, step);
            match StepAllotted(dates, first, step, remaining)
            case None => remaining < 0 || UsableMondays(dates, first, MAX_MONDAYS) <= before + remaining
            case Some(found) =>
              && step <= found < MAX_MONDAYS && remaining >= 0 && UsableMonday(dates, first, found)
              && UsableMondays(dates, first, found) == before + remaining
    decreases MAX_MONDAYS - step
  {
    hide UsableMonday;
    if step < MAX_MONDAYS {
      AllottedByCount(dates, first, step + 1, remaining);
      AllottedByCount(dates, first, step + 1, remaining - 1);
    }
  }

  // ---------- on a run date whose seasons end in four-digit years ----------

  /** A start's text is the walk's first text. */
  lemma FirstText(first: int)
    requires StartsInRange(first)
    ensures InTimeRange(first) && InTimeRange(MondayAt(first, 0)) && IsoDay(MondayAt(first, 0)) == IsoDay(first)
    ensures first > LAST_DAY ==> MondayAt(first, 0) == FIRST_LONG_DAY
  {
    hide IsoDay, MonthText, Remembered, FIRST_DAY, LAST_DAY, DayFromYear;
    FourDigitSpan();
    if first > LAST_DAY {
      JanuaryForgets(0);
      JanuaryForgets(first - FIRST_LONG_DAY);
    }
  }

  /** The day the walk starts on: the first Monday at least three weeks ahead, while that is a four-digit day. */
  function WalkStart(today: int): int {
    if today + FIRST_WINDOW_OFFSET_DAYS <= LAST_DAY then today + StepOffset(Weekday(today), 0)
    else today + FIRST_WINDOW_OFFSET_DAYS
  }

  lemma FirstMondayInReach(today: int)
    requires HasFourDigitYear(today) && InTimeRange(today) && today + FIRST_WINDOW_OFFSET_DAYS <= LAST_DAY
    ensures var first := WalkStart(today);
            && InTimeRange(first) && StartsInRange(first)
            && forall dates: SeededDates :: dates.today == IsoDay(today) ==> FirstMonday(dates) == Ok(IsoDay(first))
  {
    hide IsoDay, ParseDay, ShiftDateOnly;
    FourDigitSpan();
    var earliest := today + FIRST_WINDOW_OFFSET_DAYS;
    ShiftOfIsoDay(today, FIRST_WINDOW_OFFSET_DAYS);
    ParseOfIsoDay(earliest);
    WeekdayLater(today, FIRST_WINDOW_OFFSET_DAYS);
    ShiftOfIsoDay(earliest, WalkStart(today) - earliest);
  }

  /** The walk starts on the first real Monday at least three weeks after the run date. */
  lemma FirstMondayExact(dates: SeededDates, today: int) returns (monday: int)
    requires HasFourDigitYear(today) && InTimeRange(today) && today + 21 <= LAST_DAY && dates.today == IsoDay(today)
    ensures today + 21 <= monday <= today + 27 && IsRealMonday(monday) && InTimeRange(monday)
    ensures FirstMonday(dates) == Ok(IsoDay(monday))
  {
    hide IsoDay, FirstMonday, Weekday, IsRealMonday;
    FirstMondayInReach(today);
    monday := WalkStart(today);
    WeekdayLater(today, 21);
    NextMonday(today + 21);
  }

  /** On Monday 1 June 2026 the walk starts on Monday 22 June. */
  lemma FirstMondayOfJune(dates: SeededDates)
    requires dates.today == "2026-06-01"
    ensures FirstMonday(dates) == Ok("2026-06-22")
  {
    hide IsoDay, FirstMonday, DateText, DayNumber;
    JuneDays();
    FourDigitSpan();
    TextOfDate(CivilDate(2026, 6, 1));
    TextOfDate(CivilDate(2026, 6, 22));
    var monday := FirstMondayExact(dates, 20_605);
    MondayNumber(monday);
    assert monday == 20_626;
  }

  lemma JuneDays()
    ensures DayNumber(CivilDate(2026, 6, 1)) == 20_605 && DayNumber(CivilDate(2026, 6, 22)) == 20_626
    ensures DateText(CivilDate(2026, 6, 1)) == "2026-06-01" && DateText(CivilDate(2026, 6, 22)) == "2026-06-22"
  {
    JuneNumbers();
    JuneTexts();
  }

  lemma JuneNumbers()
    ensures DayNumber(CivilDate(2026, 6, 1)) == 20_605 && DayNumber(CivilDate(2026, 6, 22)) == 20_626
  {
  }

  lemma JuneTexts()
    ensures DateText(CivilDate(2026, 6, 1)) == "2026-06-01" && DateText(CivilDate(2026, 6, 22)) == "2026-06-22"
  {
    hide Padded;
    FourDigits(2026);
    TwoDigits(6);
    TwoDigits(1);
    TwoDigits(22);
  }

  lemma FirstMondayPastReach(today: int)
    requires HasFourDigitYear(today) && InTimeRange(today) && today + FIRST_WINDOW_OFFSET_DAYS > LAST_DAY
    ensures var first := WalkStart(today);
            && InTimeRange(first) && StartsInRange(first)
            && forall dates: SeededDates :: dates.today == IsoDay(today) ==> FirstMonday(dates) == Ok(IsoDay(first))
  {
    hide IsoDay, ParseDay, ShiftDateOnly, Weekday, DayFromYear, CivilFromDays, MonthText;
    FourDigitSpan();
    var earliest := today + FIRST_WINDOW_OFFSET_DAYS;
    ShiftOfIsoDay(today, FIRST_WINDOW_OFFSET_DAYS);
    ParseOfIsoDay(earliest);
    JanuaryForgets(earliest - FIRST_LONG_DAY);
    var ahead := (8 - Weekday(FIRST_LONG_DAY)) % 7;
    ShiftOfText(earliest, ahead);
    JanuaryForgets(ahead);
  }

  /** The walk's first text is that of the day it starts on. */
  lemma FirstMondayDay(dates: SeededDates, today: int)
    requires HasFourDigitYear(today) && InTimeRange(today) && dates.today == IsoDay(today)
    ensures StartsInRange(WalkStart(today)) && InTimeRange(MondayAt(WalkStart(today), 0))
    ensures FirstMonday(dates) == Ok(IsoDay(MondayAt(WalkStart(today), 0)))
  {
    hide IsoDay, FirstMonday, WalkStart, MondayAt;
    if today + FIRST_WINDOW_OFFSET_DAYS <= LAST_DAY {
      FirstMondayInReach(today);
    } else {
      FirstMondayPastReach(today);
    }
    FirstText(WalkStart(today));
  }

  lemma UsableMondayExactly(dates: SeededDates, today: int, step: nat)
    requires RunsOn(dates, today) && step < MAX_MONDAYS
    ensures StartsInRange(today + StepOffset(Weekday(today), 0))
    ensures UsableMonday(dates, today + StepOffset(Weekday(today), 0), step)
            <==> UsableOffset(Weekday(today), StepOffset(Weekday(today), step))
    ensures UsableOffset(Weekday(today), StepOffset(Weekday(today), step)) ==>
              MondayAt(today + StepOffset(Weekday(today), 0), step) == today + StepOffset(Weekday(today), step)
  {
    hide IsoDay, IsUsable, ReservedOffset, LoadFixtures;
    FourDigitSpan();
    var weekday := Weekday(today);
    UsableExactly(dates, today, MondayAt(today + StepOffset(weekday, 0), step));
  }

  lemma {:induction false} UsableMondaysExactly(dates: SeededDates, today: int, steps: nat)
    requires RunsOn(dates, today) && steps <= MAX_MONDAYS && StartsInRange(today + StepOffset(Weekday(today), 0))
    ensures UsableMondays(dates, today + StepOffset(Weekday(today), 0), steps) == UsableCount(Weekday(today), steps)
  {
    hide UsableMonday, UsableOffset, StepOffset, LoadFixtures, StartsInRange, IsoDay;
    if steps > 0 {
      UsableMondaysExactly(dates, today, steps - 1);
      UsableMondayExactly(dates, today, steps - 1);
    }
  }

  /** The step a weekday's run dates allot to an index: the usable one with `index` usable ones before it. */
  ghost predicate IsAllottedStep(weekday: int, index: nat, step: nat) {
    step < MAX_MONDAYS && UsableOffset(weekday, StepOffset(weekday, step)) && UsableCount(weekday, step) == index
  }

  lemma AllottedStepUnique(weekday: int, i: nat, j: nat, stepOfI: nat, stepOfJ: nat)
    requires IsAllottedStep(weekday, i, stepOfI) && IsAllottedStep(weekday, j, stepOfJ)
    ensures i < j <==> stepOfI < stepOfJ
    ensures i == j <==> stepOfI == stepOfJ
  {
    hide UsableOffset, StepOffset;
    if stepOfI < stepOfJ {
      CountMonotone(weekday, stepOfI + 1, stepOfJ);
    } else if stepOfJ < stepOfI {
      CountMonotone(weekday, stepOfJ + 1, stepOfI);
    }
  }

  /** The two nights allotted to `index` on a run date, told by its weekday: so many days ahead. */
  ghost predicate IsAllotment(today: int, index: nat, window: StayWindow) {
    exists step: nat :: IsAllottedStep(Weekday(today), index, step) && IsTwoNights(window, today + StepOffset(Weekday(today), step))
  }

  predicate IsTwoNights(window: StayWindow, day: int) {
    InTimeRange(day) && InTimeRange(day + 2) && window == TwoNights(day)
  }

  /**
   * On every run date the allocator serves exactly the indices below its weekday's total, and serves
   * each from the weekday alone; `AllotmentByWeekday` compares two run dates.
   */
  lemma AllotmentExact(dates: SeededDates, today: int, index: int)
    requires RunsOn(dates, today)
    ensures 0 <= index < UsableTotal(Weekday(today)) ==>
              AllottedWindow(dates, index).Ok? && IsAllotment(today, index, AllottedWindow(dates, index).value)
    ensures !(0 <= index < UsableTotal(Weekday(today))) ==> AllottedWindow(dates, index) == Throw(NoWindow)
  {
    hide IsoDay, IsUsable, ShiftDateOnly, UsableOffset, LoadFixtures, FirstMonday, MondayAt, UsableMonday, UsableCount,
         TwoNights, UsableMondays, WalkMondays, StepOffset;
    LoadedSeasons(dates, today);
    FirstMondayDay(dates, today);
    var weekday := Weekday(today);
    UsableMondayExactly(dates, today, 0);
    var first := WalkStart(today);
    FourDigitSpan();
    WalkInDays(dates, first, 0, index);
    AllottedByCount(dates, first, 0, index);
    UsableMondaysExactly(dates, today, 0);
    UsableMondaysExactly(dates, today, MAX_MONDAYS);
    UsableTotals(weekday);
    if StepAllotted(dates, first, 0, index).Some? {
      var step := StepAllotted(dates, first, 0, index).value;
      UsableMondaysExactly(dates, today, step);
      UsableMondayExactly(dates, today, step);
      CountMonotone(weekday, step + 1, MAX_MONDAYS);
      UsableCountSteps(weekday, step);
      assert IsAllottedStep(weekday, index, step);
    }
  }

  lemma UsableCountSteps(weekday: int, step: nat)
    requires UsableOffset(weekday, StepOffset(weekday, step))
    ensures UsableCount(weekday, 0) == 0 && UsableCount(weekday, step + 1) == UsableCount(weekday, step) + 1
  {
    hide UsableOffset, StepOffset;
  }

  // ---------- no two share a night ----------

  predicate ShareANight(a: StayWindow, b: StayWindow) {
    exists i, j :: 0 <= i < |a.nights| && 0 <= j < |b.nights| && a.nights[i] == b.nights[j]
  }

  /** Windows of four-digit days share a night exactly when their check-ins are less than two days apart. */
  lemma TwoNightsShare(a: int, b: int)
    requires FIRST_DAY <= a && a + 1 <= LAST_DAY && FIRST_DAY <= b && b + 1 <= LAST_DAY
    ensures InTimeRange(a) && InTimeRange(a + 2) && InTimeRange(b) && InTimeRange(b + 2)
    ensures ShareANight(TwoNights(a), TwoNights(b)) <==> -1 <= b - a <= 1
    ensures Less(TwoNights(a).checkIn, TwoNights(b).checkIn) <==> a < b
    ensures TwoNights(a) == TwoNights(b) <==> a == b
  {
    hide IsoDay, Less;
    FourDigitSpan();
    var nightsA, nightsB := TwoNights(a).nights, TwoNights(b).nights;
    IsoDayOrder(a, b);
    IsoDayOrder(a, b + 1);
    IsoDayOrder(a + 1, b);
    IsoDayOrder(a + 1, b + 1);
    if a == b {
      assert nightsA[0] == nightsB[0];
    } else if a + 1 == b {
      assert nightsA[1] == nightsB[0];
    } else if a == b + 1 {
      assert nightsA[0] == nightsB[1];
    }
  }

  lemma StepFacts(today: int, step: nat)
    requires InsideHorizon(today) && UsableOffset(Weekday(today), StepOffset(Weekday(today), step))
    ensures var day := today + StepOffset(Weekday(today), step);
            && today + 21 <= day && day + 1 <= today + HORIZON && Weekday(day) == 1
            && FIRST_DAY <= day && day + 1 <= LAST_DAY && InTimeRange(day) && InTimeRange(day + 2)
  {
    hide ReservedOffset, DayFromYear, Weekday, StepOffset, FIRST_DAY, LAST_DAY;
    FourDigitSpan();
    StepWeekday(today, step);
  }

  lemma StepWeekday(today: int, step: nat)
    ensures Weekday(today + StepOffset(Weekday(today), step)) == 1
    ensures StepOffset(Weekday(today), step) >= FIRST_WINDOW_OFFSET_DAYS
  {
    var w, earliest := (today + 4) % 7, (today + 21 + 4) % 7;
    assert earliest == w;
    assert StepOffset(w, step) == 21 + (8 - w) % 7 + 7 * step;
    assert (w + (8 - w) % 7) % 7 == 1;
  }

  lemma AllottedDay(dates: SeededDates, today: int, index: int) returns (step: nat)
    requires RunsOn(dates, today) && AllottedWindow(dates, index).Ok?
    ensures 0 <= index && IsAllottedStep(Weekday(today), index, step)
    ensures IsTwoNights(AllottedWindow(dates, index).value, today + StepOffset(Weekday(today), step))
  {
    hide AllottedWindow, LoadFixtures, TwoNights, UsableOffset, UsableCount, StepOffset, IsTwoNights;
    AllotmentExact(dates, today, index);
    step :| IsAllottedStep(Weekday(today), index, step)
            && IsTwoNights(AllottedWindow(dates, index).value, today + StepOffset(Weekday(today), step));
  }

  predicate IsAhead(window: StayWindow, today: int, ahead: int) {
    IsTwoNights(window, today + ahead)
  }

  /** On any two run dates of one weekday the same indices are served, each the same number of days ahead. */
  lemma AllotmentByWeekday(dates: SeededDates, today: int, dates': SeededDates, today': int, index: int)
    requires RunsOn(dates, today) && RunsOn(dates', today') && Weekday(today) == Weekday(today')
    ensures AllottedWindow(dates, index).Ok? <==> AllottedWindow(dates', index).Ok?
    ensures AllottedWindow(dates, index).Ok? ==>
              exists ahead ::
                IsAhead(AllottedWindow(dates, index).value, today, ahead) && IsAhead(AllottedWindow(dates', index).value, today', ahead)
  {
    hide AllottedWindow, RunsOn, IsAllottedStep, IsAllotment, IsTwoNights, StepOffset, UsableTotal, Weekday;
    AllotmentExact(dates, today, index);
    AllotmentExact(dates', today', index);
    if AllottedWindow(dates, index).Ok? {
      var step := AllottedDay(dates, today, index);
      var step' := AllottedDay(dates', today', index);
      AllottedStepUnique(Weekday(today), index, index, step, step');
      assert IsAhead(AllottedWindow(dates, index).value, today, StepOffset(Weekday(today), step));
      assert IsAhead(AllottedWindow(dates', index).value, today', StepOffset(Weekday(today), step));
    }
  }

  lemma WeeksApart(weekday: int, step: nat, step': nat)
    ensures StepOffset(weekday, step') - StepOffset(weekday, step) == 7 * step' - 7 * step
  {
  }

  /** Later indices get later windows, and different indices share no night. */
  lemma AllotmentsApart(dates: SeededDates, today: int, i: int, j: int)
    requires RunsOn(dates, today) && AllottedWindow(dates, i).Ok? && AllottedWindow(dates, j).Ok?
    ensures var a, b := AllottedWindow(dates, i).value, AllottedWindow(dates, j).value;
            && (i < j <==> Less(a.checkIn, b.checkIn))
            && (i == j <==> a == b)
            && (i != j <==> !ShareANight(a, b))
  {
    hide AllottedWindow, LoadFixtures, UsableOffset, UsableCount, StepOffset, TwoNights, ShareANight, Less;
    var stepOfI := AllottedDay(dates, today, i);
    var stepOfJ := AllottedDay(dates, today, j);
    AllottedStepUnique(Weekday(today), i, j, stepOfI, stepOfJ);
    StepFacts(today, stepOfI);
    StepFacts(today, stepOfJ);
    WeeksApart(Weekday(today), stepOfI, stepOfJ);
    TwoNightsShare(today + StepOffset(Weekday(today), stepOfI), today + StepOffset(Weekday(today), stepOfJ));
  }

  /** Every window is a future Monday's two nights, clear of every seeded night, in exactly one season. */
  lemma AllotmentClear(dates: SeededDates, today: int, index: int)
    requires RunsOn(dates, today) && AllottedWindow(dates, index).Ok?
    ensures var window := AllottedWindow(dates, index).value;
            && DayOfWeek(window.checkIn) == Ok(1) && Less(dates.today, window.checkIn)
            && (exists monday :: IsRealMonday(monday) && IsTwoNights(window, monday))
            && |window.nights| == 2 && (forall i :: 0 <= i < 2 ==> !dates.IsReserved(window.nights[i]))
            && |dates.seasons| == 2
            && (HoldsEvery(dates.seasons[0], window.nights) <==> !HoldsEvery(dates.seasons[1], window.nights))
            && SeasonForWindow(dates, window.nights)
               == Ok(if HoldsEvery(dates.seasons[0], window.nights) then "winter" else "summer")
  {
    hide AllottedWindow, LoadFixtures, UsableCount, IsoDay, HoldsEvery, SeededDates.IsReserved, ReservedOffset, ParseDay,
         Less, StepOffset;
    var step := AllottedDay(dates, today, index);
    var day := today + StepOffset(Weekday(today), step);
    StepFacts(today, step);
    LoadedSeasons(dates, today);
    ParseOfIsoDay(day);
    IsoDayOrder(today, day);
    SeasonExactly(dates, today, day);
    UsableExactly(dates, today, day);
    var window := AllottedWindow(dates, index).value;
    assert window.nights == [IsoDay(day), IsoDay(day + 1)];
    FindSeasonOfTwo(dates.seasons, window.nights);
    assert IsRealMonday(day) by { MondayNumber(day); }
    assert IsTwoNights(window, day);
  }

  lemma FindSeasonOfTwo(seasons: seq<Season>, nights: seq<string>)
    requires |seasons| == 2 && (HoldsEvery(seasons[0], nights) || HoldsEvery(seasons[1], nights))
    ensures FindSeason(seasons, nights) == Ok(seasons[if HoldsEvery(seasons[0], nights) then 0 else 1].key)
  {
    hide HoldsEvery;
    assert FindSeason(seasons, nights) == if HoldsEvery(seasons[0], nights) then Ok(seasons[0].key) else FindSeason(seasons[1..], nights);
    assert seasons[1..][0] == seasons[1];
  }

  /** Attempts meet exactly when their strided indices do, so specs based below the stride never meet. */
  lemma AttemptsApart(dates: SeededDates, today: int, base: int, retry: int, base': int, retry': int)
    requires RunsOn(dates, today)
    requires AllottedWindow(dates, base + 16 * retry).Ok?
    requires AllottedWindow(dates, base' + 16 * retry').Ok?
    ensures var a := AllottedWindow(dates, base + 16 * retry).value;
            var b := AllottedWindow(dates, base' + 16 * retry').value;
            && (ShareANight(a, b) <==> base + 16 * retry == base' + 16 * retry')
            && (0 <= base < 16 && 0 <= base' < 16 ==> (ShareANight(a, b) <==> base == base' && retry == retry'))
  {
    hide AllottedWindow, RunsOn, ShareANight;
    AllotmentsApart(dates, today, base + 16 * retry, base' + 16 * retry');
  }

  // ---------- exactly which run dates ----------

  predicate HaveOwnWindows(dates: SeededDates, i: int, j: int) {
    && AllottedWindow(dates, i).Ok? && AllottedWindow(dates, j).Ok?
    && AllottedWindow(dates, i).value.checkIn != AllottedWindow(dates, j).value.checkIn
  }

  /** Every index a spec reaches, 0 to 63, gets its own window. */
  predicate ServesEverySpec(dates: SeededDates) {
    forall i, j :: 0 <= i < j < 64 ==> HaveOwnWindows(dates, i, j)
  }

  /** Past the horizon only winter weeks are usable in four-digit years: the first 32 at most. */
  lemma UsablePastHorizon(dates: SeededDates, today: int, step: nat)
    requires HasFourDigitYear(today) && InTimeRange(today) && today + HORIZON > LAST_DAY
    requires LoadFixtures(IsoDay(today)) == Ok(dates) && StartsInRange(WalkStart(today))
    requires UsableMonday(dates, WalkStart(today), step) && step >= 32
    ensures MondayAt(WalkStart(today), step) == FIRST_LONG_DAY
  {
    hide IsoDay, Less, ShiftDateOnly, RelWindows, RelMondayWindows, SeededDates.IsReserved;
    FourDigitSpan();
    ShiftOfIsoDay(today, -90);
    ShiftOfIsoDay(today, 239);
    ShiftOfIsoDay(today, 270);
    ShiftOfIsoDay(today, 599);
    var day := MondayAt(WalkStart(today), step);
    if day <= LAST_DAY {
      var nights := [IsoDay(day), IsoDay(day + 1)];
      var season :| 0 <= season < |dates.seasons| && HoldsEvery(dates.seasons[season], nights);
      assert AtMost(nights[0], dates.seasons[season].end);
      LongYearsSortFirst(today + 599, day);
      if today + 239 <= LAST_DAY {
        IsoDayOrder(today + 239, day);
      } else {
        LongYearsSortFirst(today + 239, day);
      }
      assert false;
    }
  }

  /**
   * The allocator serves every spec exactly on the run dates whose seasons end in four-digit years.
   * Later run dates write the summer's end as a text that sorts before every date, and the walk comes
   * to a stand on a month's name, so two indices fail or fall together.
   */
  lemma HorizonIsExact(today: int)
    requires HasFourDigitYear(today)
    ensures InTimeRange(today) && LoadFixtures(IsoDay(today)).Ok?
    ensures ServesEverySpec(LoadFixtures(IsoDay(today)).value) <==> today + HORIZON <= LAST_DAY
  {
    hide AllottedWindow, LoadFixtures, IsoDay;
    FixturesLoad(today);
    var dates := LoadFixtures(IsoDay(today)).value;
    if today + HORIZON <= LAST_DAY {
      forall i, j | 0 <= i < j < 64 ensures HaveOwnWindows(dates, i, j) {
        OwnWindows(dates, today, i, j);
      }
    } else if ServesEverySpec(dates) {
      assert HaveOwnWindows(dates, 32, 33);
      StandsStill(dates, today, 32);
      StandsStill(dates, today, 33);
      assert false;
    }
  }

  /** The first run date past the horizon: its fixtures load, and two specs fail or share a window. */
  lemma FirstFailingRunDate()
    ensures LoadFixtures("9998-05-12").Ok? && !ServesEverySpec(LoadFixtures("9998-05-12").value)
  {
    hide AllottedWindow, LoadFixtures, IsoDay, ServesEverySpec;
    FourDigitSpan();
    var today := LAST_DAY - 598;
    assert InTimeRange(today) && IsoDay(today) == "9998-05-12" by { LateText(); }
    HorizonIsExact(today);
  }

  lemma LateText()
    ensures InTimeRange(LAST_DAY - 598) && IsoDay(LAST_DAY - 598) == "9998-05-12"
  {
    hide IsoDay, DateText, Padded;
    var date := CivilDate(9998, 5, 12);
    assert DayNumber(date) == LAST_DAY - 598;
    TextOfDate(date);
    assert DateText(date) == "9998-05-12" by { LateParts(); }
  }

  lemma LateParts()
    ensures DateText(CivilDate(9998, 5, 12)) == "9998-05-12"
  {
    hide Padded;
    FourDigits(9998);
    TwoDigits(5);
    TwoDigits(12);
  }

  lemma OwnWindows(dates: SeededDates, today: int, i: int, j: int)
    requires RunsOn(dates, today) && 0 <= i < j < 64
    ensures HaveOwnWindows(dates, i, j)
  {
    hide AllottedWindow, LoadFixtures, UsableCount, IsAllotment, ShareANight, Less;
    UsableTotals(Weekday(today));
    AllotmentExact(dates, today, i);
    AllotmentExact(dates, today, j);
    AllotmentsApart(dates, today, i, j);
    LessIrreflexive(AllottedWindow(dates, i).value.checkIn);
  }

  lemma LoadedToday(dates: SeededDates, today: string)
    requires LoadFixtures(today) == Ok(dates)
    ensures dates.today == today
  {
    hide RelSeason, RelWindows, RelMondayWindows;
  }

  lemma StandsStill(dates: SeededDates, today: int, index: int)
    requires HasFourDigitYear(today) && InTimeRange(today) && today + HORIZON > LAST_DAY
    requires LoadFixtures(IsoDay(today)) == Ok(dates) && index >= 32 && AllottedWindow(dates, index).Ok?
    ensures InTimeRange(FIRST_LONG_DAY) && AllottedWindow(dates, index).value.checkIn == IsoDay(FIRST_LONG_DAY)
  {
    hide LoadFixtures, IsoDay, UsableMonday, WalkStart, WalkMondays, StepAllotted, UsableMondays, FirstMonday, MondayAt;
    LoadedToday(dates, IsoDay(today));
    FirstMondayDay(dates, today);
    var first := WalkStart(today);
    WalkInDays(dates, first, 0, index);
    AllottedByCount(dates, first, 0, index);
    var step := StepAllotted(dates, first, 0, index).value;
    UsableMondaysBound(dates, first, step);
    UsableMondaysBound(dates, first, 0);
    UsablePastHorizon(dates, today, step);
  }

  lemma {:induction false} UsableMondaysBound(dates: SeededDates, first: int, steps: nat)
    requires StartsInRange(first)
    ensures UsableMondays(dates, first, steps) <= steps
  {
    hide UsableMonday;
    if steps > 0 {
      UsableMondaysBound(dates, first, steps - 1);
    }
  }

  // ---------- the linked move ----------

  /** Both of the linked move's stays are usable, `week` weeks after a Monday `offset` days ahead. */
  predicate PairUsable(weekday: int, offset: int, week: nat) {
    UsableOffset(weekday, offset + 3 + week * 7) && UsableOffset(weekday, offset + 10 + week * 7)
  }

  predicate NoPairUsable(weekday: int, offset: int, start: nat, stop: nat) {
    forall week: nat :: start <= week < stop ==> !PairUsable(weekday, offset, week)
  }

  predicate IsPair(pair: (StayWindow, StayWindow), monday: int, week: nat) {
    IsTwoNights(pair.0, monday + 3 + week * 7) && IsTwoNights(pair.1, monday + 10 + week * 7)
  }

  /** A night whose text is past the four-digit years is in no season. */
  lemma LongNightInNoSeason(dates: SeededDates, today: int, nights: seq<string>, long: int, i: nat)
    requires RunsOn(dates, today) && LAST_DAY < long <= today + 3000 && InTimeRange(long)
    requires i < |nights| && nights[i] == IsoDay(long)
    ensures !IsUsable(dates, nights)
  {
    hide IsoDay, Less, LoadFixtures, SeededDates.IsReserved;
    FourDigitSpan();
    LoadedSeasons(dates, today);
    LongYearsSortFirst(long, today - 90);
    LongYearsSortFirst(long, today + 270);
    forall k | 0 <= k < |dates.seasons| ensures !HoldsEvery(dates.seasons[k], nights) {
      assert !AtMost(dates.seasons[k].start, nights[i]);
    }
  }

  /** One stay of the pair: its text, and that it is usable exactly when its offset is. */
  lemma LinkedStay(dates: SeededDates, today: int, monday: int, offset: nat)
    requires RunsOn(dates, today) && today <= monday && monday + 1 <= LAST_DAY && monday <= today + HORIZON && offset <= 1500
    ensures InTimeRange(monday) && StayAt(IsoDay(monday), offset).Ok?
    ensures IsUsable(dates, StayAt(IsoDay(monday), offset).value.nights) <==> UsableOffset(Weekday(today), monday + offset - today)
    ensures UsableOffset(Weekday(today), monday + offset - today) ==> IsTwoNights(StayAt(IsoDay(monday), offset).value, monday + offset)
  {
    hide IsoDay, ShiftDateOnly, LoadFixtures, IsUsable, ReservedOffset, DayFromYear, CivilFromDays;
    FourDigitSpan();
    var day := monday + offset;
    ShiftOfIsoDay(monday, offset);
    KernelInverse(day);
    ShiftOfText(day, 1);
    ShiftOfText(day, 2);
    var nights := StayAt(IsoDay(monday), offset).value.nights;
    assert nights[0] == IsoDay(day);
    if day > LAST_DAY {
      LongNightInNoSeason(dates, today, nights, day, 0);
    } else if day == LAST_DAY {
      assert nights[1] == IsoDay(day + 1);
      LongNightInNoSeason(dates, today, nights, day + 1, 1);
    } else {
      assert nights == [IsoDay(day), IsoDay(day + 1)];
      UsableExactly(dates, today, day);
    }
  }

  lemma NoneFromHere(weekday: int, offset: int, start: nat, stop: nat)
    requires !PairUsable(weekday, offset, start) && NoPairUsable(weekday, offset, start + 1, stop)
    ensures NoPairUsable(weekday, offset, start, stop)
  {
    hide PairUsable;
  }

  /** What the linked move's search answers, from `week` on: the first usable pair, or that there is none. */
  ghost predicate IsFirstPair(weekday: int, offset: int, monday: int, week: nat, answer: Outcome<(StayWindow, StayWindow)>) {
    match answer
    case Ok(pair) =>
      exists found: nat :: week <= found < 200 && PairUsable(weekday, offset, found) && IsPair(pair, monday, found)
        && NoPairUsable(weekday, offset, week, found)
    case Throw(error) => error == NoWindow && NoPairUsable(weekday, offset, week, 200)
  }

  lemma FirstPairFromNext(weekday: int, offset: int, monday: int, week: nat, answer: Outcome<(StayWindow, StayWindow)>)
    requires week < 200 && !PairUsable(weekday, offset, week) && IsFirstPair(weekday, offset, monday, week + 1, answer)
    ensures IsFirstPair(weekday, offset, monday, week, answer)
  {
    hide PairUsable, IsPair;
    if answer.Ok? {
      var found: nat :| week < found < 200 && PairUsable(weekday, offset, found) && IsPair(answer.value, monday, found)
        && NoPairUsable(weekday, offset, week + 1, found);
      NoneFromHere(weekday, offset, week, found);
    } else {
      NoneFromHere(weekday, offset, week, 200);
    }
  }

  lemma {:induction false} LinkedPairInDays(dates: SeededDates, today: int, monday: int, week: nat)
    requires RunsOn(dates, today) && today <= monday && monday + 1 <= LAST_DAY && monday <= today + HORIZON && week <= 200
    requires InTimeRange(monday)
    ensures IsFirstPair(Weekday(today), monday - today, monday, week, LinkedPairFrom(dates, IsoDay(monday), week))
    decreases 200 - week
  {
    hide IsoDay, LoadFixtures, IsUsable, UsableOffset, StayAt, IsTwoNights, Weekday;
    if week < 200 {
      LinkedStay(dates, today, monday, 3 + week * 7);
      LinkedStay(dates, today, monday, 10 + week * 7);
      if PairUsable(Weekday(today), monday - today, week) {
        assert IsPair(LinkedPairFrom(dates, IsoDay(monday), week).value, monday, week);
      } else {
        LinkedPairInDays(dates, today, monday, week + 1);
        FirstPairFromNext(Weekday(today), monday - today, monday, week, LinkedPairFrom(dates, IsoDay(monday), week + 1));
      }
    }
  }

  /**
   * From an allotted Monday the linked move gets the earliest usable pair of weeks, and fails only
   * when there is none; neither of its stays shares a night with any allotted window, or the other.
   */
  lemma LinkedMoveExact(dates: SeededDates, today: int, index: int)
    requires RunsOn(dates, today) && AllottedWindow(dates, index).Ok?
    ensures exists monday: int ::
              && IsTwoNights(AllottedWindow(dates, index).value, monday)
              && IsFirstPair(Weekday(today), monday - today, monday, 0, LinkedMove(dates, AllottedWindow(dates, index).value.checkIn))
  {
    hide IsoDay, LoadFixtures, AllottedWindow, LinkedPairFrom, UsableOffset, UsableCount, ParseDay, StepOffset, PairUsable, IsPair;
    var step := AllottedDay(dates, today, index);
    StepFacts(today, step);
    var monday := today + StepOffset(Weekday(today), step);
    ParseOfIsoDay(monday);
    LinkedPairInDays(dates, today, monday, 0);
  }

  /** The linked move refuses a check-in that is no Monday, and only that as a bad argument. */
  lemma LinkedMoveNeedsMonday(dates: SeededDates, day: int)
    requires HasFourDigitYear(day) && InTimeRange(day)
    ensures LinkedMove(dates, IsoDay(day)) == Throw(BadArgument) ==> !IsRealMonday(day)
    ensures !IsRealMonday(day) ==> LinkedMove(dates, IsoDay(day)) == Throw(BadArgument)
  {
    hide IsoDay, ParseDay, StayAt, IsUsable, IsRealMonday;
    ParseOfIsoDay(day);
    MondayNumber(day);
    if LinkedMove(dates, IsoDay(day)) == Throw(BadArgument) {
      SearchIsNoBadArgument(dates, IsoDay(day), 0);
    }
  }

  lemma StayThrows(anchor: string, offset: int)
    ensures StayAt(anchor, offset).Throw? ==> StayAt(anchor, offset).error == InvalidDate
  {
    hide ParseDay, IsoDay;
  }

  lemma {:induction false} SearchIsNoBadArgument(dates: SeededDates, anchor: string, week: nat)
    ensures LinkedPairFrom(dates, anchor, week) != Throw(BadArgument)
    decreases 200 - week
  {
    hide IsUsable, StayAt;
    if week < 200 {
      StayThrows(anchor, 3 + week * 7);
      StayThrows(anchor, 10 + week * 7);
      SearchIsNoBadArgument(dates, anchor, week + 1);
    }
  }

  lemma LinkedMoveApart(dates: SeededDates, today: int, index: int, other: int)
    requires RunsOn(dates, today) && AllottedWindow(dates, index).Ok? && AllottedWindow(dates, other).Ok?
    requires LinkedMove(dates, AllottedWindow(dates, index).value.checkIn).Ok?
    ensures var pair := LinkedMove(dates, AllottedWindow(dates, index).value.checkIn).value;
            && !ShareANight(pair.0, AllottedWindow(dates, other).value)
            && !ShareANight(pair.1, AllottedWindow(dates, other).value)
            && !ShareANight(pair.0, pair.1)
  {
    hide IsoDay, LoadFixtures, AllottedWindow, LinkedPairFrom, LinkedMove, UsableOffset, UsableCount, ParseDay, StepOffset,
         ShareANight, TwoNights;
    var pair := LinkedMove(dates, AllottedWindow(dates, index).value.checkIn).value;
    LinkedMoveExact(dates, today, index);
    var monday: int :| IsTwoNights(AllottedWindow(dates, index).value, monday)
      && IsFirstPair(Weekday(today), monday - today, monday, 0, Ok(pair));
    var week: nat :| PairUsable(Weekday(today), monday - today, week) && IsPair(pair, monday, week);
    var own := AllottedDay(dates, today, index);
    StepFacts(today, own);
    SameDay(AllottedWindow(dates, index).value, monday, today + StepOffset(Weekday(today), own));
    var step := AllottedDay(dates, today, other);
    StepFacts(today, step);
    WeeksApart(Weekday(today), own, step);
    PairBounds(Weekday(today), monday - today, week);
    var day := today + StepOffset(Weekday(today), step);
    assert day == monday + 7 * step - 7 * own;
    TwoNightsShare(monday + 3 + week * 7, day);
    TwoNightsShare(monday + 10 + week * 7, day);
    TwoNightsShare(monday + 3 + week * 7, monday + 10 + week * 7);
  }

  lemma PairBounds(weekday: int, offset: int, week: nat)
    requires PairUsable(weekday, offset, week)
    ensures -90 <= offset + 3 + week * 7 && offset + 10 + week * 7 + 1 <= HORIZON
  {
    hide ReservedOffset;
  }

  /** The seeded nights end before day 366, so every later pair inside the summer is usable. */
  lemma LatePairUsable(weekday: int, offset: int, week: nat)
    requires 366 <= offset + 3 + week * 7 && offset + 10 + week * 7 + 1 <= HORIZON
    ensures PairUsable(weekday, offset, week)
  {
    hide HeldByDay, HeldOnMonday;
    forall night | night >= 366 ensures !ReservedOffset(weekday, night) {
      HeldNights(night);
      HeldMondays(weekday, night);
    }
  }

  /** The Mondays of indices 0 to 63 leave room for a pair: at most 588 days ahead. */
  lemma SpecIndicesLeaveRoom(weekday: int, index: nat, step: nat)
    requires 0 <= weekday < 7 && index < 64 && IsAllottedStep(weekday, index, step)
    ensures StepOffset(weekday, step) <= 588
  {
    hide ReservedOffset;
    UsableTotals(weekday);
    CountPastSeasons(weekday, MAX_MONDAYS);
    var last := if weekday == 2 || weekday == 3 then 82 else 83;
    assert UsableCount(weekday, last) >= 65;
    if step < last {
      CountSlow(weekday, step, last);
    } else {
      CountMonotone(weekday, last, step);
    }
  }

  lemma {:induction false} CountSlow(weekday: int, fewer: nat, more: nat)
    requires fewer <= more
    ensures UsableCount(weekday, more) - UsableCount(weekday, fewer) <= more - fewer
    decreases more
  {
    hide UsableOffset, StepOffset;
    if fewer < more {
      CountSlow(weekday, fewer, more - 1);
    }
  }

  /** The linked move succeeds from the window of every index a spec reaches. */
  lemma LinkedMoveServed(dates: SeededDates, today: int, index: int)
    requires RunsOn(dates, today) && 0 <= index < 64
    ensures AllottedWindow(dates, index).Ok? && LinkedMove(dates, AllottedWindow(dates, index).value.checkIn).Ok?
  {
    hide IsoDay, LoadFixtures, AllottedWindow, LinkedPairFrom, LinkedMove, UsableOffset, UsableCount, ParseDay, StepOffset,
         TwoNights, PairUsable;
    UsableTotals(Weekday(today));
    AllotmentExact(dates, today, index);
    LinkedMoveExact(dates, today, index);
    var monday: int :| IsTwoNights(AllottedWindow(dates, index).value, monday)
      && IsFirstPair(Weekday(today), monday - today, monday, 0, LinkedMove(dates, AllottedWindow(dates, index).value.checkIn));
    var step := AllottedDay(dates, today, index);
    StepFacts(today, step);
    SameDay(AllottedWindow(dates, index).value, monday, today + StepOffset(Weekday(today), step));
    SpecIndicesLeaveRoom(Weekday(today), index, step);
    var offset := monday - today;
    var week: nat := if offset + 3 >= 366 then 0 else (366 - offset - 3 + 6) / 7;
    LatePairUsable(Weekday(today), offset, week);
  }

  lemma SameDay(window: StayWindow, a: int, b: int)
    requires IsTwoNights(window, a) && IsTwoNights(window, b) && HasFourDigitYear(b)
    ensures a == b
  {
    hide IsoDay;
    IsoDayInjective(b, a);
  }

  // ---------- past windows ----------

  /** A range of days as the caller writes it: its first day, and the first day after it. */
  predicate IsRangeText(text: (string, string), range: (int, int)) {
    && FIRST_DAY <= range.0 < range.1 <= LAST_DAY
    && InTimeRange(range.0) && InTimeRange(range.1)
    && text == (IsoDay(range.0), IsoDay(range.1))
  }

  /** One of the two nights from `day` on is in the range. */
  predicate HoldsANight(range: (int, int), day: int) {
    range.0 <= day < range.1 || range.0 <= day + 1 < range.1
  }

  /** An attempt is blocked exactly when one of its two nights is in one of the blocked ranges. */
  lemma BlockedExactly(day: int, blocked: seq<(string, string)>, ranges: seq<(int, int)>)
    requires FIRST_DAY <= day && day + 2 <= LAST_DAY && |ranges| == |blocked|
    requires forall i :: 0 <= i < |ranges| ==> IsRangeText(blocked[i], ranges[i])
    ensures InTimeRange(day) && InTimeRange(day + 2)
    ensures OverlapsBlockedRange(IsoDay(day), IsoDay(day + 2), blocked)
            <==> exists i :: 0 <= i < |ranges| && HoldsANight(ranges[i], day)
  {
    hide IsoDay, Less;
    FourDigitSpan();
    forall i | 0 <= i < |ranges|
      ensures (Less(IsoDay(day), blocked[i].1) && Less(blocked[i].0, IsoDay(day + 2))) <==> HoldsANight(ranges[i], day)
    {
      IsoDayOrder(day, ranges[i].1);
      IsoDayOrder(ranges[i].0, day + 2);
    }
    if j :| 0 <= j < |ranges| && HoldsANight(ranges[j], day) {
      assert Less(IsoDay(day), blocked[j].1) && Less(blocked[j].0, IsoDay(day + 2));
    }
  }

  lemma PastWindowParts(dates: SeededDates, retry: int, blocked: seq<(string, string)>, window: StayWindow)
    requires 0 <= retry <= 2 && |window.nights| == 2 && window.nights[0] == window.checkIn
    requires ShiftDateOnly(dates.today, PAST_RETRY_OFFSETS_DAYS[retry]) == Ok(window.checkIn)
    requires ShiftDateOnly(window.checkIn, 2) == Ok(window.checkOut) && ShiftDateOnly(window.checkIn, 1) == Ok(window.nights[1])
    requires IsWindowInSeededSeason(dates, window.nights)
    ensures PastStayWindowForAttempt(dates, retry, blocked)
            == if OverlapsBlockedRange(window.checkIn, window.checkOut, blocked) then Throw(NoWindow) else Ok(window)
  {
    hide ShiftDateOnly, IsWindowInSeededSeason, OverlapsBlockedRange, PAST_RETRY_OFFSETS_DAYS;
    assert window.nights == [window.checkIn, window.nights[1]];
  }

  /** Each attempt gets its two nights, unless one of them is blocked: only then does it throw. */
  lemma PastWindowExact(dates: SeededDates, today: int, retry: int, blocked: seq<(string, string)>, day: int)
    requires RunsOn(dates, today) && FIRST_DAY <= today - 16 && 0 <= retry <= 2
    requires day == today - (7 + 4 * retry) && InTimeRange(day) && InTimeRange(day + 2)
    ensures PastStayWindowForAttempt(dates, retry, blocked)
            == if OverlapsBlockedRange(IsoDay(day), IsoDay(day + 2), blocked) then Throw(NoWindow) else Ok(TwoNights(day))
  {
    hide IsoDay, ShiftDateOnly, RunsOn, IsWindowInSeededSeason, OverlapsBlockedRange, PastStayWindowForAttempt, FIRST_DAY;
    PastDay(dates, today, day - today);
    PastWindowParts(dates, retry, blocked, TwoNights(day));
  }

  /** A day of the last two weeks or so, and the two after it: how they are written, and their season. */
  lemma PastDay(dates: SeededDates, today: int, offset: int)
    requires RunsOn(dates, today) && FIRST_DAY <= today - 16 && -16 <= offset <= -2
    ensures var day := today + offset;
            && InTimeRange(day) && InTimeRange(day + 1) && InTimeRange(day + 2)
            && ShiftDateOnly(dates.today, offset) == Ok(IsoDay(day))
            && ShiftDateOnly(IsoDay(day), 1) == Ok(IsoDay(day + 1)) && ShiftDateOnly(IsoDay(day), 2) == Ok(IsoDay(day + 2))
            && IsWindowInSeededSeason(dates, [IsoDay(day), IsoDay(day + 1)])
  {
    hide IsoDay, ShiftDateOnly, LoadFixtures, IsWindowInSeededSeason, HoldsEvery;
    FourDigitSpan();
    LoadedToday(dates, IsoDay(today));
    var day := today + offset;
    ShiftOfIsoDay(today, offset);
    ShiftOfIsoDay(day, 1);
    ShiftOfIsoDay(day, 2);
    SeasonExactly(dates, today, day);
  }

  lemma NothingBlocked(checkIn: string, checkOut: string)
    ensures !OverlapsBlockedRange(checkIn, checkOut, [])
  {
  }

  /** The attempts' past windows share no night with each other. */
  lemma PastWindowsApart(dates: SeededDates, today: int, retry: int, retry': int)
    requires RunsOn(dates, today) && FIRST_DAY <= today - 16 && 0 <= retry <= 2 && 0 <= retry' <= 2 && retry != retry'
    ensures PastStayWindowForAttempt(dates, retry, []).Ok? && PastStayWindowForAttempt(dates, retry', []).Ok?
    ensures !ShareANight(PastStayWindowForAttempt(dates, retry, []).value, PastStayWindowForAttempt(dates, retry', []).value)
  {
    hide PastStayWindowForAttempt, LoadFixtures, TwoNights, ShareANight, OverlapsBlockedRange, IsoDay, Less;
    FourDigitSpan();
    var a, b := today - (7 + 4 * retry), today - (7 + 4 * retry');
    PastWindowExact(dates, today, retry, [], a);
    PastWindowExact(dates, today, retry', [], b);
    NothingBlocked(IsoDay(a), IsoDay(a + 2));
    NothingBlocked(IsoDay(b), IsoDay(b + 2));
    TwoNightsShare(a, b);
  }

  /** The past window of an attempt: two nights from 7, 11 or 15 days back. */
  predicate IsPastWindow(window: StayWindow, today: int, retry: int) {
    IsTwoNights(window, today - (7 + 4 * retry))
  }

  /** Does a two-night stay from `day` share a night with some attempt's past window? */
  ghost predicate BlocksAnAttempt(today: int, day: int)
    requires InTimeRange(day) && InTimeRange(day + 2)
  {
    exists retry, window :: 0 <= retry <= 2
      && IsPastWindow(window, today, retry) && ShareANight(TwoNights(day), window)
  }

  /**
   * A leftover two-night stay blocks some attempt exactly when it checks in on one of nine days, all
   * of them in the swept band of eleven, 16 to 6 days back; the sweep's other two, 13 and 9 days back,
   * block nothing.
   */
  lemma LeftoverBandCovers(today: int, day: int)
    requires FIRST_DAY <= today - 16 && today <= LAST_DAY && FIRST_DAY <= day && day + 1 <= LAST_DAY
    ensures InTimeRange(day) && InTimeRange(day + 2)
    ensures BlocksAnAttempt(today, day)
            <==> -16 <= day - today <= -6 && day - today !in {-13, -9}
  {
    hide IsoDay, TwoNights, ShareANight;
    FourDigitSpan();
    TwoNightsShare(day, today - 7);
    TwoNightsShare(day, today - 11);
    TwoNightsShare(day, today - 15);
    if -1 <= today - 7 - day <= 1 {
      assert IsPastWindow(TwoNights(today - 7), today, 0);
    } else if -1 <= today - 11 - day <= 1 {
      assert IsPastWindow(TwoNights(today - 11), today, 1);
    } else if -1 <= today - 15 - day <= 1 {
      assert IsPastWindow(TwoNights(today - 15), today, 2);
    }
  }
}

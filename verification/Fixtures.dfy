/**
 * The seeded seasons and booking windows, every one an offset from the run date. They are built
 * once, from the run date's text, and are what the stay-window allocators read.
 */
module Fixtures {
  import opened Outcomes
  import opened Text
  import opened CivilCalendar
  import opened IsoDates

  datatype StayWindow = StayWindow(checkIn: string, checkOut: string, nights: seq<string>)

  datatype Season = Season(key: string, start: string, end: string)

  predicate AnyHolds(windows: seq<StayWindow>, night: string) {
    exists i :: 0 <= i < |windows| && night in windows[i].nights
  }

  /** What the fixtures module exports to the allocators, frozen when it is loaded. */
  datatype SeededDates = SeededDates(today: string, seasons: seq<Season>, windows: seq<StayWindow>) {
    predicate IsReserved(night: string) {
      AnyHolds(windows, night)
    }
  }

  /** `count` nights from `checkIn`, each shifted from the check-in's own text. */
  function NightsFrom(checkIn: string, count: nat): Outcome<seq<string>> {
    if count == 0 then Ok([])
    else
      var earlier :- NightsFrom(checkIn, count - 1);
      var night :- ShiftDateOnly(checkIn, count - 1);
      Ok(earlier + [night])
  }

  function WindowFrom(checkIn: string, count: nat): Outcome<StayWindow> {
    var nights :- NightsFrom(checkIn, count);
    var checkOut :- ShiftDateOnly(checkIn, count);
    Ok(StayWindow(checkIn, checkOut, nights))
  }

  /** A window `count` nights long starting `offset` days from the run date. */
  function RelWindow(today: string, offset: int, count: nat): Outcome<StayWindow> {
    var checkIn :- ShiftDateOnly(today, offset);
    WindowFrom(checkIn, count)
  }

  /** The weekday of a date-only string. */
  function DayOfWeek(dateOnly: string): Outcome<int> {
    match ParseDay(dateOnly)
    case None => Throw(InvalidDate)
    case Some(day) => Ok(Weekday(day))
  }

  /** The two-night window of the first Monday at least `minOffset` days from the run date. */
  function RelMondayWindow(today: string, minOffset: int): Outcome<StayWindow> {
    var seed :- ShiftDateOnly(today, minOffset);
    var weekday :- DayOfWeek(seed);
    var checkIn :- ShiftDateOnly(seed, (8 - weekday) % 7);
    WindowFrom(checkIn, 2)
  }

  // ---------- the tables ----------

  /** Offset and nights of every window placed by days; only which nights are held is ever asked. */
  const DAY_WINDOWS: seq<(int, nat)> := [
    (-25, 2), (30, 2), (35, 3), (-40, 3), (-34, 3), (-31, 2), (-28, 3), (-45, 3), (40, 2), (45, 2), (33, 2),
    (-37, 2), (150, 1), (151, 1),            // the demo seed's bookings
    (55, 2), (60, 3), (65, 2),               // the optional demo lodge
    (300, 2), (310, 2), (320, 2), (340, 1),  // cancelled, help widget, owed, unreconciled
    (360, 1), (362, 1), (364, 1), (-60, 2),  // bank refunds, finished change request
    (90, 2), (97, 2), (104, 2), (111, 2)     // the second lodge's
  ]

  /** Least offset of every window placed on a Monday: the full and the offered waitlist, internet banking. */
  const MONDAY_WINDOWS: seq<int> := [63, 70, 56]

  function RelWindows(today: string, specs: seq<(int, nat)>): Outcome<seq<StayWindow>> {
    if specs == [] then Ok([])
    else
      var first :- RelWindow(today, specs[0].0, specs[0].1);
      var rest :- RelWindows(today, specs[1..]);
      Ok([first] + rest)
  }

  function RelMondayWindows(today: string, specs: seq<int>): Outcome<seq<StayWindow>> {
    if specs == [] then Ok([])
    else
      var first :- RelMondayWindow(today, specs[0]);
      var rest :- RelMondayWindows(today, specs[1..]);
      Ok([first] + rest)
  }

  function RelSeason(today: string, key: string, from: int, to: int): Outcome<Season> {
    var start :- ShiftDateOnly(today, from);
    var end :- ShiftDateOnly(today, to);
    Ok(Season(key, start, end))
  }

  function LoadFixtures(today: string): Outcome<SeededDates> {
    var winter :- RelSeason(today, "winter", -90, 239);
    var summer :- RelSeason(today, "summer", 270, 599);
    var byDay :- RelWindows(today, DAY_WINDOWS);
    var byMonday :- RelMondayWindows(today, MONDAY_WINDOWS);
    Ok(SeededDates(today, [winter, summer], byDay + byMonday))
  }

  // ---------- weekdays are those of the real calendar ----------

  /** 4 January 1970, a Sunday: the real day all weekdays are counted from. */
  const A_SUNDAY := CivilDate(1970, 1, 4)

  /** The weekday of every real date is how far it is past a real Sunday, modulo seven. */
  lemma WeekdayExact(s: string)
    requires IsDateOnly(s)
    ensures DayOfWeek(s) == Ok((DayNumber(DateNamed(s)) - DayNumber(A_SUNDAY)) % 7)
  {
    hide IsDateOnly, DateNamed;
    assert DayNumber(A_SUNDAY) == 3 by { SundayNumber(); }
  }

  lemma SundayNumber()
    ensures DayNumber(A_SUNDAY) == 3
  {
  }

  /** Day 0 of 1970 was a Thursday, and each day's weekday follows the one before. */
  lemma WeekdaysFollow(day: int)
    requires HasFourDigitYear(day) && InTimeRange(day) && HasFourDigitYear(day + 1) && InTimeRange(day + 1)
    ensures DayOfWeek("1970-01-01") == Ok(4) && DayOfWeek(IsoDay(day)).Ok?
    ensures DayOfWeek(IsoDay(day + 1)) == Ok((DayOfWeek(IsoDay(day)).value + 1) % 7)
  {
    hide IsoDay, DayOfWeek, HasFourDigitYear;
    WeekdayOfDay(day);
    WeekdayOfDay(day + 1);
    assert HasFourDigitYear(0) by { EpochIsFourDigit(); }
    WeekdayOfDay(0);
    EpochText();
  }

  lemma EpochIsFourDigit()
    ensures HasFourDigitYear(0)
  {
  }

  lemma WeekdayOfDay(day: int)
    requires HasFourDigitYear(day) && InTimeRange(day)
    ensures DayOfWeek(IsoDay(day)) == Ok((day + 4) % 7)
  {
    hide IsoDay, ParseDay;
    ParseOfIsoDay(day);
  }

  lemma EpochText()
    ensures IsoDay(0) == "1970-01-01"
  {
    hide IsoDay, DateText, DayNumber;
    EpochNumber();
    EpochParts();
    TextOfDate(CivilDate(1970, 1, 1));
  }

  lemma EpochNumber()
    ensures DayNumber(CivilDate(1970, 1, 1)) == 0
  {
  }

  lemma EpochParts()
    ensures DateText(CivilDate(1970, 1, 1)) == "1970-01-01"
  {
    hide Padded;
    FourDigits(1970);
    TwoDigits(1);
  }

  /** A real Monday: a whole number of weeks from Monday 5 January 1970. */
  predicate IsRealMonday(day: int) {
    (day - DayNumber(CivilDate(1970, 1, 5))) % 7 == 0
  }

  lemma MondayNumber(day: int)
    ensures IsRealMonday(day) <==> Weekday(day) == 1
    ensures DayNumber(CivilDate(1970, 1, 5)) == 4
  {
  }

  // ---------- what they hold, as offsets from the run date ----------

  /** The first Monday at least `minOffset` days after a day whose weekday is `weekday`. */
  function MondayOffset(weekday: int, minOffset: int): int {
    minOffset + (8 - (weekday + minOffset) % 7) % 7
  }

  /** Does one of these windows placed by days hold the night `offset`? */
  predicate HeldByDay(specs: seq<(int, nat)>, offset: int) {
    exists i :: 0 <= i < |specs| && specs[i].0 <= offset < specs[i].0 + specs[i].1
  }

  /** Does one of these windows placed on Mondays hold the night `offset`? */
  predicate HeldOnMonday(weekday: int, specs: seq<int>, offset: int) {
    exists i :: 0 <= i < |specs| && MondayOffset(weekday, specs[i]) <= offset < MondayOffset(weekday, specs[i]) + 2
  }

  /** Is the night `offset` days after the run date held by a seeded booking? */
  predicate ReservedOffset(weekday: int, offset: int) {
    HeldByDay(DAY_WINDOWS, offset) || HeldOnMonday(weekday, MONDAY_WINDOWS, offset)
  }

  /** The farthest day the seeded seasons reach. */
  const HORIZON := 599

  /** A run date whose seeded seasons all end in four-digit years. */
  predicate InsideHorizon(today: int) {
    HasFourDigitYear(today) && today + HORIZON <= LAST_DAY
  }

  /** Night `i` of `count` counted from the text of `from`. */
  function IsoNight(from: int, count: nat, i: nat): string
    requires InTimeRange(Remembered(from)) && InTimeRange(Remembered(from) + count) && i < count
  {
    IsoDay(Remembered(from) + i)
  }

  lemma {:induction false} NightsFromText(from: int, count: nat)
    requires InTimeRange(from) && InTimeRange(Remembered(from)) && InTimeRange(Remembered(from) + count)
    ensures var nights := NightsFrom(IsoDay(from), count);
            && nights.Ok? && |nights.value| == count
            && forall i :: 0 <= i < count ==> nights.value[i] == IsoNight(from, count, i)
  {
    hide IsoDay, ParseDay, ShiftDateOnly, Remembered;
    if count > 0 {
      NightsFromText(from, count - 1);
      ShiftOfText(from, count - 1);
      var earlier := NightsFrom(IsoDay(from), count - 1).value;
      assert NightsFrom(IsoDay(from), count).value == earlier + [IsoDay(Remembered(from) + (count - 1))];
      assert forall i :: 0 <= i < count - 1 ==> earlier[i] == IsoNight(from, count - 1, i) == IsoNight(from, count, i);
    }
  }

  /** Which nights from `from` on a window of `count` nights holds; `from` must not precede its text's memory. */
  lemma WindowHolds(from: int, count: nat, night: int)
    requires InTimeRange(from) && InTimeRange(Remembered(from)) && InTimeRange(Remembered(from) + count)
    requires HasFourDigitYear(night) && InTimeRange(night)
    requires Remembered(from) == from || from + count <= night
    ensures WindowFrom(IsoDay(from), count).Ok?
    ensures IsoDay(night) in WindowFrom(IsoDay(from), count).value.nights <==> from <= night < from + count
  {
    hide IsoDay, ParseDay, ShiftDateOnly, NightsFrom, HasFourDigitYear;
    NightsFromText(from, count);
    ShiftOfText(from, count);
    var nights := WindowFrom(IsoDay(from), count).value.nights;
    var start := Remembered(from);
    assert start <= from by { KernelInverse(from); }
    forall i | 0 <= i < count && nights[i] == IsoDay(night) ensures start + i == night {
      IsoDayInjective(night, start + i);
    }
    if from <= night < from + count {
      assert nights[night - from] == IsoDay(night);
    }
  }

  lemma RelWindowHolds(today: int, offset: int, count: nat, night: int)
    requires InsideHorizon(today) && -100 <= offset && offset + count <= HORIZON && (offset >= 0 || offset + count <= 0)
    requires today <= night && HasFourDigitYear(night)
    ensures RelWindow(IsoDay(today), offset, count).Ok?
    ensures IsoDay(night) in RelWindow(IsoDay(today), offset, count).value.nights <==> offset <= night - today < offset + count
  {
    hide IsoDay, ParseDay, ShiftDateOnly, WindowFrom, CivilFromDays;
    FourDigitYearsInRange(today);
    FourDigitYearsInRange(night);
    ShiftOfText(today, offset);
    KernelInverse(today + offset);
    WindowHolds(today + offset, count, night);
  }

  lemma WeekdayLater(day: int, days: int)
    ensures Weekday(day + days) == (Weekday(day) + days) % 7
  {
  }

  lemma RelMondayWindowHolds(today: int, minOffset: int, night: int)
    requires InsideHorizon(today) && 0 <= minOffset <= 100
    requires HasFourDigitYear(night)
    ensures RelMondayWindow(IsoDay(today), minOffset).Ok?
    ensures var offset := MondayOffset(Weekday(today), minOffset);
            && minOffset <= offset < minOffset + 7
            && (IsoDay(night) in RelMondayWindow(IsoDay(today), minOffset).value.nights <==> offset <= night - today < offset + 2)
  {
    hide IsoDay, ParseDay, ShiftDateOnly, WindowFrom, CivilFromDays;
    FourDigitYearsInRange(today);
    FourDigitYearsInRange(night);
    ShiftOfText(today, minOffset);
    ParseOfIsoDay(today + minOffset);
    WeekdayLater(today, minOffset);
    var offset := MondayOffset(Weekday(today), minOffset);
    ShiftOfText(today + minOffset, offset - minOffset);
    WindowHolds(today + offset, 2, night);
  }

  lemma AnyHoldsOfConcatenation(a: seq<StayWindow>, b: seq<StayWindow>, night: string)
    ensures AnyHolds(a + b, night) <==> AnyHolds(a, night) || AnyHolds(b, night)
  {
    if AnyHolds(a, night) {
      var i :| 0 <= i < |a| && night in a[i].nights;
      assert (a + b)[i] == a[i];
    }
    if AnyHolds(b, night) {
      var i :| 0 <= i < |b| && night in b[i].nights;
      assert (a + b)[|a| + i] == b[i];
    }
  }

  lemma {:induction false} RelWindowsHold(today: int, specs: seq<(int, nat)>, night: int)
    requires InsideHorizon(today) && today <= night && HasFourDigitYear(night) && InTimeRange(today) && InTimeRange(night)
    requires forall i :: 0 <= i < |specs| ==>
               -100 <= specs[i].0 && specs[i].0 + specs[i].1 <= HORIZON && (specs[i].0 >= 0 || specs[i].0 + specs[i].1 <= 0)
    ensures RelWindows(IsoDay(today), specs).Ok?
    ensures AnyHolds(RelWindows(IsoDay(today), specs).value, IsoDay(night)) <==> HeldByDay(specs, night - today)
  {
    hide IsoDay, RelWindow, CivilFromDays;
    if specs != [] {
      RelWindowHolds(today, specs[0].0, specs[0].1, night);
      RelWindowsHold(today, specs[1..], night);
      var first, rest := RelWindow(IsoDay(today), specs[0].0, specs[0].1).value, RelWindows(IsoDay(today), specs[1..]).value;
      AnyHoldsOfConcatenation([first], rest, IsoDay(night));
      assert AnyHolds([first], IsoDay(night)) <==> IsoDay(night) in first.nights by { assert [first][0] == first; }
      assert specs == [specs[0]] + specs[1..];
    }
  }

  lemma {:induction false} RelMondayWindowsHold(today: int, specs: seq<int>, night: int)
    requires InsideHorizon(today) && HasFourDigitYear(night) && InTimeRange(today) && InTimeRange(night)
    requires forall i :: 0 <= i < |specs| ==> 0 <= specs[i] <= 100
    ensures RelMondayWindows(IsoDay(today), specs).Ok?
    ensures AnyHolds(RelMondayWindows(IsoDay(today), specs).value, IsoDay(night))
            <==> HeldOnMonday(Weekday(today), specs, night - today)
  {
    hide IsoDay, RelMondayWindow, CivilFromDays, MondayOffset;
    if specs != [] {
      RelMondayWindowHolds(today, specs[0], night);
      RelMondayWindowsHold(today, specs[1..], night);
      var first, rest := RelMondayWindow(IsoDay(today), specs[0]).value, RelMondayWindows(IsoDay(today), specs[1..]).value;
      AnyHoldsOfConcatenation([first], rest, IsoDay(night));
      assert AnyHolds([first], IsoDay(night)) <==> IsoDay(night) in first.nights by { assert [first][0] == first; }
      assert specs == [specs[0]] + specs[1..];
    }
  }

  /** The loaded text holds exactly the nights the offset tables say, counted from the run date. */
  lemma ReservedExactly(today: int, night: int)
    requires InsideHorizon(today) && today <= night && HasFourDigitYear(night) && InTimeRange(today) && InTimeRange(night)
    ensures LoadFixtures(IsoDay(today)).Ok?
    ensures LoadFixtures(IsoDay(today)).value.IsReserved(IsoDay(night)) <==> ReservedOffset(Weekday(today), night - today)
  {
    hide IsoDay, CivilFromDays, RelWindows, RelMondayWindows, HeldByDay, HeldOnMonday;
    RelWindowsHold(today, DAY_WINDOWS, night);
    RelMondayWindowsHold(today, MONDAY_WINDOWS, night);
    FourDigitYearsInRange(today);
    ShiftOfText(today, -90);
    ShiftOfText(today, 239);
    ShiftOfText(today, 270);
    ShiftOfText(today, 599);
    AnyHoldsOfConcatenation(RelWindows(IsoDay(today), DAY_WINDOWS).value, RelMondayWindows(IsoDay(today), MONDAY_WINDOWS).value, IsoDay(night));
  }

  // ---------- the fixtures load on every four-digit run date ----------

  /** Days far enough inside a `Date`'s range for any shift the fixtures make. */
  predicate IsNear(day: int) {
    -1_000_000 <= day <= 4_000_000
  }

  lemma RememberedIsNear(day: int)
    ensures day - 30 <= Remembered(day) <= day
  {
    hide CivilFromDays;
    KernelInverse(day);
  }

  lemma ShiftLoads(day: int, days: int)
    requires IsNear(day) && -2000 <= days <= 2000
    ensures InTimeRange(day) && InTimeRange(Remembered(day) + days)
    ensures ShiftDateOnly(IsoDay(day), days) == Ok(IsoDay(Remembered(day) + days))
    ensures day + days - 30 <= Remembered(day) + days <= day + days
  {
    hide IsoDay, ShiftDateOnly, Remembered;
    RememberedIsNear(day);
    ShiftOfText(day, days);
  }

  lemma WindowLoads(day: int, count: nat)
    requires IsNear(day) && count <= 1000
    ensures InTimeRange(day) && WindowFrom(IsoDay(day), count).Ok?
  {
    hide IsoDay, ShiftDateOnly, Remembered, NightsFrom;
    RememberedIsNear(day);
    NightsFromText(day, count);
    ShiftLoads(day, count);
  }

  lemma RelWindowLoads(today: int, offset: int, count: nat)
    requires HasFourDigitYear(today) && InTimeRange(today) && -1000 <= offset <= 1000 && count <= 1000
    ensures RelWindow(IsoDay(today), offset, count).Ok?
  {
    hide IsoDay, ShiftDateOnly, Remembered, WindowFrom;
    FourDigitYearsInRange(today);
    ShiftLoads(today, offset);
    WindowLoads(Remembered(today) + offset, count);
  }

  lemma RelMondayWindowLoads(today: int, minOffset: int)
    requires HasFourDigitYear(today) && InTimeRange(today) && -1000 <= minOffset <= 1000
    ensures RelMondayWindow(IsoDay(today), minOffset).Ok?
  {
    hide IsoDay, ShiftDateOnly, Remembered, WindowFrom, ParseDay;
    FourDigitYearsInRange(today);
    ShiftLoads(today, minOffset);
    var seed := Remembered(today) + minOffset;
    ParseOfIsoDay(seed);
    RememberedIsNear(seed);
    var days := (8 - Weekday(Remembered(seed))) % 7;
    ShiftLoads(seed, days);
    WindowLoads(Remembered(seed) + days, 2);
  }

  lemma {:induction false} RelWindowsLoad(today: int, specs: seq<(int, nat)>)
    requires HasFourDigitYear(today) && InTimeRange(today)
    requires forall i :: 0 <= i < |specs| ==> -1000 <= specs[i].0 <= 1000 && specs[i].1 <= 1000
    ensures RelWindows(IsoDay(today), specs).Ok?
  {
    hide IsoDay, RelWindow;
    if specs != [] {
      RelWindowLoads(today, specs[0].0, specs[0].1);
      RelWindowsLoad(today, specs[1..]);
    }
  }

  lemma {:induction false} RelMondayWindowsLoad(today: int, specs: seq<int>)
    requires HasFourDigitYear(today) && InTimeRange(today)
    requires forall i :: 0 <= i < |specs| ==> -1000 <= specs[i] <= 1000
    ensures RelMondayWindows(IsoDay(today), specs).Ok?
  {
    hide IsoDay, RelMondayWindow;
    if specs != [] {
      RelMondayWindowLoads(today, specs[0]);
      RelMondayWindowsLoad(today, specs[1..]);
    }
  }

  /** On every run date with a four-digit year the fixtures load, whatever becomes of their later dates. */
  lemma FixturesLoad(today: int)
    requires HasFourDigitYear(today)
    ensures InTimeRange(today) && LoadFixtures(IsoDay(today)).Ok?
  {
    hide IsoDay, ShiftDateOnly, Remembered, RelWindows, RelMondayWindows;
    FourDigitYearsInRange(today);
    ShiftLoads(today, -90);
    ShiftLoads(today, 239);
    ShiftLoads(today, 270);
    ShiftLoads(today, 599);
    RelWindowsLoad(today, DAY_WINDOWS);
    RelMondayWindowsLoad(today, MONDAY_WINDOWS);
  }

  // ---------- the windows, end to end ----------

  /** A window placed by days, from the run date: its check-in, its check-out and every night between. */
  lemma RelWindowSpan(today: int, offset: int, count: nat)
    requires HasFourDigitYear(today) && HasFourDigitYear(today + offset) && -1000 <= offset <= 1000 && count <= 1000
    ensures IsNear(today + offset) && IsNear(today + offset + count) && InTimeRange(today)
    ensures var window := RelWindow(IsoDay(today), offset, count);
            && window.Ok?
            && window.value.checkIn == IsoDay(today + offset) && window.value.checkOut == IsoDay(today + offset + count)
            && |window.value.nights| == count
            && forall i :: 0 <= i < count ==> window.value.nights[i] == IsoNight(today + offset, count, i)
  {
    hide IsoDay, ShiftDateOnly, NightsFrom, IsoNight;
    FourDigitYearsInRange(today);
    FourDigitYearsInRange(today + offset);
    ShiftOfIsoDay(today, offset);
    ShiftOfIsoDay(today + offset, count);
    NightsFromText(today + offset, count);
  }

  /** A window placed on a Monday: the two nights from the first real Monday at least so many days ahead. */
  lemma RelMondayWindowSpan(today: int, minOffset: int) returns (monday: int)
    requires InsideHorizon(today) && 0 <= minOffset <= 100
    ensures IsNear(monday) && InTimeRange(today)
    ensures today + minOffset <= monday < today + minOffset + 7 && IsRealMonday(monday)
    ensures RelMondayWindow(IsoDay(today), minOffset)
            == Ok(StayWindow(IsoDay(monday), IsoDay(monday + 2), [IsoDay(monday), IsoDay(monday + 1)]))
  {
    hide IsoDay, ShiftDateOnly, ParseDay, WindowFrom, Weekday;
    FourDigitYearsInRange(today);
    var earliest := today + minOffset;
    ShiftOfIsoDay(today, minOffset);
    ParseOfIsoDay(earliest);
    var days := (8 - Weekday(earliest)) % 7;
    monday := earliest + days;
    ShiftOfIsoDay(earliest, days);
    TwoNightWindow(monday);
    NextMonday(earliest);
  }

  lemma TwoNightWindow(day: int)
    requires HasFourDigitYear(day) && IsNear(day)
    ensures WindowFrom(IsoDay(day), 2) == Ok(StayWindow(IsoDay(day), IsoDay(day + 2), [IsoDay(day), IsoDay(day + 1)]))
  {
    hide IsoDay, ShiftDateOnly, NightsFrom;
    NightsFromText(day, 2);
    ShiftOfIsoDay(day, 2);
    var nights := NightsFrom(IsoDay(day), 2).value;
    assert nights[0] == IsoNight(day, 2, 0) && nights[1] == IsoNight(day, 2, 1);
    assert nights == [IsoDay(day), IsoDay(day + 1)];
  }

  /** From any day the first real Monday is less than a week away, as the weekday says. */
  lemma NextMonday(day: int)
    ensures var monday := day + (8 - Weekday(day)) % 7; day <= monday < day + 7 && IsRealMonday(monday)
  {
    hide IsRealMonday;
    var w := Weekday(day);
    MondayNumber(day + (8 - w) % 7);
    assert Weekday(day + (8 - w) % 7) == (w + (8 - w) % 7) % 7;
  }
}

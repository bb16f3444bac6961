/**
 * The proleptic Gregorian calendar, twice: the day number of a civil date as section 21.4.1 of
 * ECMA-262 defines it, and the closed integer forms of the club's calendar kernel. The two agree on
 * every date, and the kernel's inverse is the inverse of both.
 */
module CivilCalendar {

  datatype CivilDate = CivilDate(year: int, month: int, day: int)

  predicate IsLeapYear(year: int) {
    (year % 4 == 0 && year % 100 != 0) || year % 400 == 0
  }

  function DaysInMonth(year: int, month: int): (days: int)
    requires 1 <= month <= 12
    ensures 28 <= days <= 31
  {
    if month == 2 then (if IsLeapYear(year) then 29 else 28)
    else if month in {4, 6, 9, 11} then 30
    else 31
  }

  /** A date the calendar really has. */
  predicate IsReal(date: CivilDate) {
    1 <= date.month <= 12 && 1 <= date.day <= DaysInMonth(date.year, date.month)
  }

  // ---------- ECMA-262, section 21.4.1 ----------

  /** The day number of 1 January. */
  function DayFromYear(year: int): int {
    365 * (year - 1970) + (year - 1969) / 4 - (year - 1901) / 100 + (year - 1601) / 400
  }

  /** Days from 1 January to the first of `month`. */
  function DaysBeforeMonth(year: int, month: int): (days: int)
    requires 1 <= month <= 12
    ensures 28 * (month - 1) <= days
    decreases month
  {
    if month == 1 then 0 else DaysBeforeMonth(year, month - 1) + DaysInMonth(year, month - 1)
  }

  /** Days since 1 January 1970. */
  function DayNumber(date: CivilDate): int
    requires IsReal(date)
  {
    DayFromYear(date.year) + DaysBeforeMonth(date.year, date.month) + date.day - 1
  }

  // ---------- the kernel's closed forms ----------

  function DaysFromCivil(date: CivilDate): int {
    var shiftedYear := date.year - (if date.month <= 2 then 1 else 0);
    var era := shiftedYear / 400;
    var yearOfEra := shiftedYear - era * 400;
    var dayOfYear := (153 * (date.month + (if date.month > 2 then -3 else 9)) + 2) / 5 + date.day - 1;
    var dayOfEra := yearOfEra * 365 + yearOfEra / 4 - yearOfEra / 100 + dayOfYear;
    era * 146_097 + dayOfEra - 719_468
  }

  function YearOfEra(dayOfEra: int): int {
    (dayOfEra - dayOfEra / 1460 + dayOfEra / 36_524 - dayOfEra / 146_096) / 365
  }

  /** Days from 1 March to the first of the month `monthPrime` months later. */
  function MarchBasedStart(monthPrime: int): int {
    (153 * monthPrime + 2) / 5
  }

  /** Day `dayOfYear` of March-based year `yearOfEra` of an era, as the kernel names it. */
  function NamedDay(era: int, yearOfEra: int, dayOfYear: int): CivilDate {
    var monthPrime := (5 * dayOfYear + 2) / 153;
    var month := monthPrime + (if monthPrime < 10 then 3 else -9);
    CivilDate(yearOfEra + era * 400 + (if month <= 2 then 1 else 0), month, dayOfYear - MarchBasedStart(monthPrime) + 1)
  }

  function DayOfEra(dayNumber: int): int {
    dayNumber + 719_468 - (dayNumber + 719_468) / 146_097 * 146_097
  }

  function CivilFromDays(dayNumber: int): CivilDate {
    var dayOfEra := DayOfEra(dayNumber);
    var yearOfEra := YearOfEra(dayOfEra);
    var dayOfYear := dayOfEra - (365 * yearOfEra + yearOfEra / 4 - yearOfEra / 100);
    NamedDay((dayNumber + 719_468) / 146_097, yearOfEra, dayOfYear)
  }

  // ---------- they agree ----------

  /** The kernel counts years from 1 March, so a leap day is the last day of its year. */
  lemma MonthStarts(year: int, month: int)
    requires 1 <= month <= 12
    ensures month > 2 ==>
              DaysBeforeMonth(year, month) == MarchBasedStart(month - 3) + 59 + (if IsLeapYear(year) then 1 else 0)
    ensures month <= 2 ==> DaysBeforeMonth(year, month) == MarchBasedStart(month + 9) - 306
  {
    if month > 1 {
      MonthStarts(year, month - 1);
    }
  }

  /** Days from 1 March of year 0 to 1 March of `shiftedYear`. */
  function MarchYearStart(shiftedYear: int): int {
    365 * shiftedYear + shiftedYear / 4 - shiftedYear / 100 + shiftedYear / 400
  }

  lemma EraYears(shiftedYear: int, era: int, yearOfEra: int)
    requires shiftedYear == 400 * era + yearOfEra && 0 <= yearOfEra < 400
    ensures MarchYearStart(shiftedYear) == era * 146_097 + yearOfEra * 365 + yearOfEra / 4 - yearOfEra / 100
  {
    assert shiftedYear / 4 == 100 * era + yearOfEra / 4;
    assert shiftedYear / 100 == 4 * era + yearOfEra / 100;
    assert shiftedYear / 400 == era;
  }

  lemma YearStartFromMarch(year: int)
    ensures DayFromYear(year) == MarchYearStart(year - 1) + 306 - 719_468
  {
    assert (year - 1969) / 4 == (year - 1) / 4 - 492;
    assert (year - 1901) / 100 == (year - 1) / 100 - 19;
    assert (year - 1601) / 400 == (year - 1) / 400 - 4;
  }

  /** How the three quotients of a year differ from those of the year before. */
  lemma QuotientBy4(year: int)
    ensures year / 4 == (year - 1) / 4 + if year % 4 == 0 then 1 else 0
  {
  }

  lemma QuotientBy100(year: int)
    ensures year / 100 == (year - 1) / 100 + if year % 100 == 0 then 1 else 0
  {
  }

  lemma QuotientBy400(year: int)
    ensures year / 400 == (year - 1) / 400 + if year % 400 == 0 then 1 else 0
  {
  }

  lemma HundredsAreFours(year: int)
    requires year % 100 == 0
    ensures year % 4 == 0
  {
    var hundreds := year / 100;
    assert year == 4 * (25 * hundreds);
  }

  lemma FourHundredsAreHundreds(year: int)
    requires year % 400 == 0
    ensures year % 100 == 0
  {
    var fourHundreds := year / 400;
    assert year == 100 * (4 * fourHundreds);
  }

  lemma LeapRule(year: int)
    ensures (if IsLeapYear(year) then 1 else 0)
            == (if year % 4 == 0 then 1 else 0) - (if year % 100 == 0 then 1 else 0) + (if year % 400 == 0 then 1 else 0)
  {
    if year % 400 == 0 {
      FourHundredsAreHundreds(year);
    }
    if year % 100 == 0 {
      HundredsAreFours(year);
    }
  }

  lemma LeapDays(year: int)
    ensures MarchYearStart(year) == MarchYearStart(year - 1) + 365 + if IsLeapYear(year) then 1 else 0
  {
    hide IsLeapYear;
    QuotientBy4(year);
    QuotientBy100(year);
    QuotientBy400(year);
    LeapRule(year);
  }

  lemma MarchYearStarts(year: int)
    ensures DayFromYear(year) == MarchYearStart(year - 1) + 306 - 719_468
    ensures DayFromYear(year) + 59 + (if IsLeapYear(year) then 1 else 0) == MarchYearStart(year) - 719_468
  {
    hide DayFromYear, MarchYearStart, IsLeapYear;
    YearStartFromMarch(year);
    LeapDays(year);
  }

  /** The kernel's form, year and month apart: a March-based year's start and a month's start in it. */
  lemma MarchForm(date: CivilDate)
    ensures var shiftedYear := date.year - (if date.month <= 2 then 1 else 0);
            var monthPrime := date.month + (if date.month > 2 then -3 else 9);
            DaysFromCivil(date) == MarchYearStart(shiftedYear) + MarchBasedStart(monthPrime) + date.day - 1 - 719_468
  {
    hide MarchYearStart;
    var shiftedYear := date.year - (if date.month <= 2 then 1 else 0);
    EraYears(shiftedYear, shiftedYear / 400, shiftedYear % 400);
  }

  /** The kernel's closed form is the standard's day number. */
  lemma KernelCountsDays(date: CivilDate)
    requires IsReal(date)
    ensures DaysFromCivil(date) == DayNumber(date)
  {
    hide DaysFromCivil, MarchYearStart, MarchBasedStart, DayFromYear, DaysBeforeMonth, IsLeapYear;
    MarchForm(date);
    MonthStarts(date.year, date.month);
    MarchYearStarts(date.year);
  }

  // ---------- the inverse ----------

  function Smaller(a: int, b: int): int {
    if a <= b then a else b
  }

  /**
   * The kernel's year division is exact: a day written as centuries, four-year cycles, years and a
   * rest inside its era falls in the year those name. The rest reaches 365 only in a leap year.
   */
  lemma YearOfEraExact(century: int, cycle: int, year: int, rest: int)
    requires 0 <= century <= 3 && 0 <= cycle <= 24 && 0 <= year <= 3
    requires 0 <= rest <= (if year == 3 && (cycle < 24 || century == 3) then 365 else 364)
    ensures YearOfEra(36_524 * century + 1461 * cycle + 365 * year + rest) == 100 * century + 4 * cycle + year
  {
    var day := 36_524 * century + 1461 * cycle + 365 * year + rest;
    var spare := 24 * century + cycle + 365 * year + rest;
    assert day == 1460 * (25 * century + cycle) + spare;
    var late := if spare >= 1460 then 1 else 0;
    assert day / 1460 == 25 * century + cycle + late;
    var last := if day == 146_096 then 1 else 0;
    assert day / 36_524 == century + last && day / 146_096 == last;
  }

  lemma YearParts(century: int, cycle: int, year: int)
    requires 0 <= century <= 3 && 0 <= cycle <= 24 && 0 <= year <= 3
    ensures var y := 100 * century + 4 * cycle + year;
            && y / 4 == 25 * century + cycle
            && y / 100 == century
            && (IsLeapYear(y + 1) <==> year == 3 && (cycle < 24 || century == 3))
  {
    var y := 100 * century + 4 * cycle + year;
    assert (y + 1) % 4 == 0 <==> year == 3;
    assert (y + 1) / 100 == century + (if 4 * cycle + year == 99 then 1 else 0);
    assert (y + 1) / 400 == (if y == 399 then 1 else 0);
  }

  /** Where a day of an era falls: the kernel's division picks the March-based year holding it. */
  lemma YearOfEraHoldsDay(dayOfEra: int)
    requires 0 <= dayOfEra < 146_097
    ensures var y := YearOfEra(dayOfEra);
            && 0 <= y < 400
            && 0 <= dayOfEra - (365 * y + y / 4 - y / 100)
            && dayOfEra - (365 * y + y / 4 - y / 100) < (if IsLeapYear(y + 1) then 366 else 365)
  {
    hide YearOfEra, IsLeapYear;
    var century := Smaller(dayOfEra / 36_524, 3);
    var inCentury := dayOfEra - 36_524 * century;
    var cycle := Smaller(inCentury / 1461, 24);
    var inCycle := inCentury - 1461 * cycle;
    var year := Smaller(inCycle / 365, 3);
    var rest := inCycle - 365 * year;
    YearOfEraExact(century, cycle, year, rest);
    YearParts(century, cycle, year);
  }

  /** A day of a March-based year, from 1 March on, is a real day of the month the kernel names. */
  lemma MonthOfDay(year: int, dayOfYear: int)
    requires 0 <= dayOfYear < (if IsLeapYear(year + 1) then 366 else 365)
    ensures var monthPrime := (5 * dayOfYear + 2) / 153;
            && 0 <= monthPrime <= 11
            && IsReal(CivilDate(year + (if monthPrime < 10 then 0 else 1),
                                monthPrime + (if monthPrime < 10 then 3 else -9),
                                dayOfYear - MarchBasedStart(monthPrime) + 1))
  {
    var monthPrime := (5 * dayOfYear + 2) / 153;
    assert 153 * monthPrime <= 5 * dayOfYear + 2 < 153 * (monthPrime + 1);
  }

  lemma NamedDayCounts(era: int, yearOfEra: int, dayOfYear: int)
    requires 0 <= yearOfEra < 400 && 0 <= dayOfYear < (if IsLeapYear(yearOfEra + 1) then 366 else 365)
    ensures IsReal(NamedDay(era, yearOfEra, dayOfYear))
    ensures DaysFromCivil(NamedDay(era, yearOfEra, dayOfYear))
            == era * 146_097 + yearOfEra * 365 + yearOfEra / 4 - yearOfEra / 100 + dayOfYear - 719_468
  {
    MonthOfDay(yearOfEra, dayOfYear);
    LeapEras(yearOfEra + 1, era);
    LeapEras(yearOfEra, era);
    var date := NamedDay(era, yearOfEra, dayOfYear);
    var shiftedYear := date.year - (if date.month <= 2 then 1 else 0);
    assert shiftedYear == 400 * era + yearOfEra && shiftedYear / 400 == era;
  }

  /** The kernel's inverse names a real date, and its day number is the one given. */
  lemma KernelInverse(dayNumber: int)
    ensures IsReal(CivilFromDays(dayNumber))
    ensures DayNumber(CivilFromDays(dayNumber)) == dayNumber
  {
    hide YearOfEra, IsLeapYear, NamedDay, DaysFromCivil, DayNumber, IsReal;
    var era := (dayNumber + 719_468) / 146_097;
    var dayOfEra := DayOfEra(dayNumber);
    YearOfEraHoldsDay(dayOfEra);
    var yearOfEra := YearOfEra(dayOfEra);
    var dayOfYear := dayOfEra - (365 * yearOfEra + yearOfEra / 4 - yearOfEra / 100);
    NamedDayCounts(era, yearOfEra, dayOfYear);
    KernelCountsDays(NamedDay(era, yearOfEra, dayOfYear));
  }

  lemma LeapEras(year: int, era: int)
    ensures IsLeapYear(year + 400 * era) == IsLeapYear(year)
  {
    assert (year + 400 * era) / 4 == year / 4 + 100 * era;
    assert (year + 400 * era) / 100 == year / 100 + 4 * era;
    assert (year + 400 * era) / 400 == year / 400 + era;
  }

  // ---------- order, and so one date a day ----------

  /** Calendar order: year, then month, then day. */
  predicate Earlier(a: CivilDate, b: CivilDate) {
    a.year < b.year || (a.year == b.year && (a.month < b.month || (a.month == b.month && a.day < b.day)))
  }

  lemma {:induction false} MonthsInOrder(year: int, m: int, n: int)
    requires 1 <= m < n <= 12
    ensures DaysBeforeMonth(year, m) + DaysInMonth(year, m) <= DaysBeforeMonth(year, n)
    decreases n
  {
    if m < n - 1 {
      MonthsInOrder(year, m, n - 1);
    }
  }

  lemma YearLength(year: int)
    ensures DayFromYear(year + 1) == DayFromYear(year) + DaysBeforeMonth(year, 12) + 31
  {
    hide DayFromYear, IsLeapYear, MarchYearStart;
    MonthStarts(year, 12);
    MarchYearStarts(year);
    MarchYearStarts(year + 1);
  }

  lemma {:induction false} YearsInOrder(m: int, n: int)
    requires m < n
    ensures DayFromYear(m) + DaysBeforeMonth(m, 12) + 31 <= DayFromYear(n)
    decreases n - m
  {
    hide DayFromYear, DaysBeforeMonth;
    YearLength(m);
    if m + 1 < n {
      YearsInOrder(m + 1, n);
    }
  }

  lemma EarlierDay(a: CivilDate, b: CivilDate)
    requires IsReal(a) && IsReal(b) && Earlier(a, b)
    ensures DayNumber(a) < DayNumber(b)
  {
    if a.year < b.year {
      YearsInOrder(a.year, b.year);
      if a.month < 12 {
        MonthsInOrder(a.year, a.month, 12);
      }
    } else if a.month < b.month {
      MonthsInOrder(a.year, a.month, b.month);
    }
  }

  /** Day numbers order real dates exactly as the calendar does, so no two dates share one. */
  lemma DayNumberOrder(a: CivilDate, b: CivilDate)
    requires IsReal(a) && IsReal(b)
    ensures DayNumber(a) < DayNumber(b) <==> Earlier(a, b)
    ensures DayNumber(a) == DayNumber(b) <==> a == b
  {
    if Earlier(a, b) {
      EarlierDay(a, b);
    } else if Earlier(b, a) {
      EarlierDay(b, a);
    }
  }

  /** The kernel's inverse undoes the day number: with `KernelInverse`, a bijection. */
  lemma CivilOfDayNumber(date: CivilDate)
    requires IsReal(date)
    ensures CivilFromDays(DayNumber(date)) == date
  {
    KernelInverse(DayNumber(date));
    DayNumberOrder(CivilFromDays(DayNumber(date)), date);
  }
}

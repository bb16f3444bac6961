/**
 * Date-only strings. A date is the `YYYY-MM-DD` text the fixtures pass around; shifting one goes
 * through a UTC `Date` and keeps the first ten characters of its ISO form, which is not the date
 * any more once the year needs six digits.
 */
module IsoDates {
  import opened Outcomes
  import opened Text
  import opened CivilCalendar

  /** A `Date` holds at most this many days either side of 1970 (section 21.4.1.1 of ECMA-262). */
  const TIME_RANGE_DAYS := 100_000_000

  predicate InTimeRange(day: int) {
    -TIME_RANGE_DAYS <= day <= TIME_RANGE_DAYS
  }

  const FIRST_DAY := DayFromYear(0)
  const LAST_DAY := DayFromYear(10_000) - 1

  /** The days whose year is written with four digits. */
  predicate HasFourDigitYear(day: int) {
    FIRST_DAY <= day <= LAST_DAY
  }

  lemma YearOfDay(day: int)
    ensures HasFourDigitYear(day) <==> 0 <= CivilFromDays(day).year <= 9999
    ensures day > LAST_DAY <==> CivilFromDays(day).year >= 10_000
    ensures InTimeRange(day) ==> -1_000_000 < CivilFromDays(day).year < 1_000_000
    ensures IsReal(CivilFromDays(day))
  {
    KernelInverse(day);
    var date := CivilFromDays(day);
    DayNumberOrder(date, CivilDate(0, 1, 1));
    DayNumberOrder(date, CivilDate(10_000, 1, 1));
    DayNumberOrder(date, CivilDate(1_000_000, 1, 1));
    DayNumberOrder(date, CivilDate(-999_999, 1, 1));
  }

  function Magnitude(n: int): nat {
    if n < 0 then -n else n
  }

  /** `YYYY-MM-DD`. */
  function DateText(date: CivilDate): string
    requires IsReal(date) && 0 <= date.year <= 9999
  {
    assert Pow10(2) == 100 && Pow10(4) == 10_000;
    Padded(date.year, 4) + "-" + Padded(date.month, 2) + "-" + Padded(date.day, 2)
  }

  /** A signed six-digit year and a month: all that ten characters hold of a year outside 0 to 9999. */
  function MonthText(year: int, month: int): string
    requires -1_000_000 < year < 1_000_000 && 1 <= month <= 12
  {
    assert Pow10(2) == 100 && Pow10(6) == 1_000_000;
    [if year < 0 then '-' else '+'] + Padded(Magnitude(year), 6) + "-" + Padded(month, 2)
  }

  /** `toISOString().slice(0, 10)` of the UTC midnight that starts `day`. */
  function IsoDay(day: int): (s: string)
    requires InTimeRange(day)
  {
    YearOfDay(day);
    var date := CivilFromDays(day);
    if HasFourDigitYear(day) then DateText(date) else MonthText(date.year, date.month)
  }

  // ---------- reading a string back ----------

  /** The shape `^\d{4}-\d{2}-\d{2}$`. */
  predicate IsDateShaped(s: string) {
    |s| == 10 && AllDigits(s[..4]) && s[4] == '-' && AllDigits(s[5..7]) && s[7] == '-' && AllDigits(s[8..])
  }

  function DateNamed(s: string): CivilDate
    requires IsDateShaped(s)
  {
    CivilDate(Number(s[..4]), Number(s[5..7]), Number(s[8..]))
  }

  /** `YYYY-MM-DD` naming a day the calendar has. */
  predicate IsDateOnly(s: string) {
    IsDateShaped(s) && IsReal(DateNamed(s))
  }

  /** The shape of `MonthText`. */
  predicate IsMonthShaped(s: string) {
    |s| == 10 && s[0] in "+-" && AllDigits(s[1..7]) && s[7] == '-' && AllDigits(s[8..])
  }

  function MonthNamed(s: string): CivilDate
    requires IsMonthShaped(s)
  {
    CivilDate((if s[0] == '-' then -1 else 1) * Number(s[1..7]), Number(s[8..]), 1)
  }

  /**
   * The day `new Date(s + "T00:00:00.000Z")` starts, or none for an invalid `Date`. The standard
   * refuses the year -000000 and every string of another shape or naming no real day.
   */
  function ParseDay(s: string): Option<int> {
    if IsDateOnly(s) then Some(DayNumber(DateNamed(s)))
    else if IsMonthShaped(s) && s[..7] != "-000000" && IsReal(MonthNamed(s)) && InTimeRange(DayNumber(MonthNamed(s)))
    then Some(DayNumber(MonthNamed(s)))
    else None
  }

  /** Whole days later, or earlier. */
  function ShiftDateOnly(dateOnly: string, days: int): Outcome<string> {
    var start := ParseDay(dateOnly);
    if start == None || !InTimeRange(start.value + days) then Throw(InvalidDate) else Ok(IsoDay(start.value + days))
  }

  /** `Date.prototype.getUTCDay` of a day: 0 is Sunday. Day 0 was a Thursday. */
  function Weekday(day: int): int {
    (day + 4) % 7
  }

  // ---------- a day and its text name each other ----------

  lemma DateTextParts(date: CivilDate)
    requires IsReal(date) && 0 <= date.year <= 9999
    ensures IsDateShaped(DateText(date)) && DateNamed(DateText(date)) == date
  {
    var s := DateText(date);
    assert s[..4] == Padded(date.year, 4) && s[5..7] == Padded(date.month, 2) && s[8..] == Padded(date.day, 2);
    NumberOfPadded(date.year, 4);
    NumberOfPadded(date.month, 2);
    NumberOfPadded(date.day, 2);
  }

  lemma MonthTextParts(year: int, month: int)
    requires -1_000_000 < year < 1_000_000 && 1 <= month <= 12 && year != 0
    ensures var s := MonthText(year, month);
            && IsMonthShaped(s) && !IsDateShaped(s)
            && MonthNamed(s) == CivilDate(year, month, 1)
            && s[..7] != "-000000"
            && s[0] == (if year < 0 then '-' else '+')
  {
    var s := MonthText(year, month);
    assert s[1..7] == Padded(Magnitude(year), 6) && s[8..] == Padded(month, 2);
    NumberOfPadded(Magnitude(year), 6);
    NumberOfPadded(month, 2);
    assert !IsDigit(s[..4][0]);
    if s[..7] == "-000000" {
      assert s[1..7] == s[..7][1..] == "000000" == Padded(0, 6);
      NumberOfPadded(0, 6);
    }
  }

  /** The day a ten-character ISO prefix stands for: the day itself, or the first of its month. */
  function Remembered(day: int): int
  {
    KernelInverse(day);
    if HasFourDigitYear(day) then day else day - (CivilFromDays(day).day - 1)
  }

  /** Text keeps a day exactly while its year has four digits; past that it keeps only the month. */
  lemma ParseOfIsoDay(day: int)
    requires InTimeRange(day)
    ensures ParseDay(IsoDay(day)) == if InTimeRange(Remembered(day)) then Some(Remembered(day)) else None
  {
    hide CivilFromDays, DayFromYear, DateText, MonthText, IsDateShaped, IsMonthShaped, DateNamed, MonthNamed;
    YearOfDay(day);
    KernelInverse(day);
    var date := CivilFromDays(day);
    if HasFourDigitYear(day) {
      DateTextParts(date);
    } else {
      MonthTextParts(date.year, date.month);
    }
  }

  lemma IsoDayOfParse(s: string)
    requires IsDateOnly(s)
    ensures var day := DayNumber(DateNamed(s)); HasFourDigitYear(day) && InTimeRange(day) && IsoDay(day) == s
  {
    var date := DateNamed(s);
    CivilOfDayNumber(date);
    PaddedOfNumber(s[..4]);
    PaddedOfNumber(s[5..7]);
    PaddedOfNumber(s[8..]);
    assert Pow10(4) == 10_000;
    YearOfDay(DayNumber(date));
    assert s == s[..4] + "-" + s[5..7] + "-" + s[8..];
  }

  // ---------- string order is calendar order ----------

  lemma DateTextOrder(a: CivilDate, b: CivilDate)
    requires IsReal(a) && IsReal(b) && 0 <= a.year <= 9999 && 0 <= b.year <= 9999
    ensures Less(DateText(a), DateText(b)) <==> Earlier(a, b)
  {
    hide Padded, Less;
    assert Pow10(2) == 100 && Pow10(4) == 10_000;
    PaddedOrder(a.year, b.year, 4);
    PaddedOrder(a.month, b.month, 2);
    PaddedOrder(a.day, b.day, 2);
    LessIrreflexive("-");
    LessOfConcatenation(Padded(a.year, 4), "-", Padded(b.year, 4), "-");
    LessOfConcatenation(Padded(a.month, 2), "-", Padded(b.month, 2), "-");
    var aYear, bYear := Padded(a.year, 4) + "-", Padded(b.year, 4) + "-";
    var aMonth, bMonth := Padded(a.month, 2) + "-", Padded(b.month, 2) + "-";
    assert aYear == bYear <==> a.year == b.year by { assert aYear[..4] == Padded(a.year, 4) && bYear[..4] == Padded(b.year, 4); }
    assert aMonth == bMonth <==> a.month == b.month by { assert aMonth[..2] == Padded(a.month, 2) && bMonth[..2] == Padded(b.month, 2); }
    LessOfConcatenation(aMonth, Padded(a.day, 2), bMonth, Padded(b.day, 2));
    LessOfConcatenation(aYear, aMonth + Padded(a.day, 2), bYear, bMonth + Padded(b.day, 2));
    assert DateText(a) == aYear + (aMonth + Padded(a.day, 2)) && DateText(b) == bYear + (bMonth + Padded(b.day, 2));
  }

  /** Among four-digit years, plain string comparison compares days. */
  lemma IsoDayOrder(a: int, b: int)
    requires InTimeRange(a) && InTimeRange(b) && HasFourDigitYear(a) && HasFourDigitYear(b)
    ensures Less(IsoDay(a), IsoDay(b)) <==> a < b
    ensures IsoDay(a) == IsoDay(b) <==> a == b
  {
    YearOfDay(a);
    YearOfDay(b);
    DateTextOrder(CivilFromDays(a), CivilFromDays(b));
    KernelInverse(a);
    KernelInverse(b);
    DayNumberOrder(CivilFromDays(a), CivilFromDays(b));
    ParseOfIsoDay(a);
    ParseOfIsoDay(b);
  }

  /** A day past the four-digit years sorts before every day inside them. */
  lemma LongYearsSortFirst(long: int, day: int)
    requires InTimeRange(long) && InTimeRange(day) && !HasFourDigitYear(long) && HasFourDigitYear(day)
    ensures Less(IsoDay(long), IsoDay(day))
  {
    YearOfDay(long);
    YearOfDay(day);
    MonthTextParts(CivilFromDays(long).year, CivilFromDays(long).month);
    DateTextParts(CivilFromDays(day));
    assert IsDigit(IsoDay(day)[..4][0]);
  }

  // ---------- shifting is an action of the integers ----------

  lemma ShiftByZero(s: string)
    requires IsDateOnly(s)
    ensures ShiftDateOnly(s, 0) == Ok(s)
  {
    IsoDayOfParse(s);
  }

  lemma ShiftOfIsoDay(day: int, days: int)
    requires InTimeRange(day) && HasFourDigitYear(day)
    ensures ShiftDateOnly(IsoDay(day), days) == if InTimeRange(day + days) then Ok(IsoDay(day + days)) else Throw(InvalidDate)
  {
    hide CivilFromDays, IsoDay, ParseDay;
    ParseOfIsoDay(day);
  }

  /** The years a `Date` can hold are few enough that a four-digit day is well inside its range. */
  lemma FourDigitYearsInRange(day: int)
    requires HasFourDigitYear(day)
    ensures -800_000 < day < 3_000_000
  {
  }

  /** Shifting text starts from the day the text remembers. */
  lemma ShiftOfText(day: int, days: int)
    requires InTimeRange(day)
    ensures var from := Remembered(day);
            ShiftDateOnly(IsoDay(day), days)
            == if InTimeRange(from) && InTimeRange(from + days) then Ok(IsoDay(from + days)) else Throw(InvalidDate)
  {
    hide CivilFromDays, IsoDay, ParseDay;
    ParseOfIsoDay(day);
  }

  /** No other day is written as a four-digit date is. */
  lemma IsoDayInjective(day: int, other: int)
    requires InTimeRange(day) && HasFourDigitYear(day) && InTimeRange(other) && IsoDay(other) == IsoDay(day)
    ensures other == day
  {
    YearOfDay(day);
    YearOfDay(other);
    DateTextParts(CivilFromDays(day));
    if HasFourDigitYear(other) {
      IsoDayOrder(day, other);
    } else {
      MonthTextParts(CivilFromDays(other).year, CivilFromDays(other).month);
      assert false;
    }
  }

  /** Once the day of the month is forgotten, shifting back does not come home. */
  lemma ForgottenDayIsLost(day: int, a: int)
    requires InTimeRange(day) && HasFourDigitYear(day) && InTimeRange(day + a) && Remembered(day + a) != day + a
    ensures ShiftDateOnly(IsoDay(day + a), -a) != Ok(IsoDay(day))
  {
    hide CivilFromDays, IsoDay, ParseDay, Remembered;
    ShiftOfText(day + a, -a);
    var landed := Remembered(day + a) - a;
    if InTimeRange(landed) && IsoDay(landed) == IsoDay(day) {
      IsoDayInjective(day, landed);
    }
  }

  lemma KeptDayComposes(day: int, a: int, b: int)
    requires InTimeRange(day) && HasFourDigitYear(day) && InTimeRange(day + a) && Remembered(day + a) == day + a
    ensures ShiftDateOnly(IsoDay(day + a), b) == ShiftDateOnly(IsoDay(day), a + b)
  {
    hide CivilFromDays, IsoDay, ParseDay;
    ShiftOfText(day + a, b);
    ShiftOfText(day, a + b);
  }

  /** A real date's own text. */
  lemma TextOfDate(date: CivilDate)
    requires IsReal(date) && 0 <= date.year <= 9999
    ensures var day := DayNumber(date); HasFourDigitYear(day) && InTimeRange(day) && IsoDay(day) == DateText(date)
  {
    hide DayFromYear, DaysBeforeMonth, CivilFromDays, DateText;
    CivilOfDayNumber(date);
    YearOfDay(DayNumber(date));
    FourDigitYearsInRange(DayNumber(date));
  }

  /**
   * Shifting by `a` and then by any `b` is shifting by `a + b` exactly when the date in between has
   * a four-digit year or is the first of its month; otherwise the text forgets the day of the month.
   */
  lemma ShiftComposesExactly(s: string, a: int)
    requires IsDateOnly(s) && ShiftDateOnly(s, a).Ok?
    ensures var between := DayNumber(DateNamed(s)) + a;
            (HasFourDigitYear(between) || CivilFromDays(between).day == 1)
            <==> forall b :: ShiftDateOnly(ShiftDateOnly(s, a).value, b) == ShiftDateOnly(s, a + b)
  {
    hide CivilFromDays, IsoDay, ParseDay, ShiftDateOnly;
    var day := DayNumber(DateNamed(s));
    IsoDayOfParse(s);
    ShiftOfText(day, a);
    if Remembered(day + a) == day + a {
      forall b ensures ShiftDateOnly(ShiftDateOnly(s, a).value, b) == ShiftDateOnly(s, a + b) {
        KeptDayComposes(day, a, b);
      }
    } else {
      ForgottenDayIsLost(day, a);
      ShiftByZero(s);
      assert a + -a == 0;
    }
  }

  /** The last four-digit day, two days on and two days back: the day before it. */
  lemma ShiftForgets()
    ensures ShiftDateOnly("9999-12-31", 2) == Ok("+010000-01")
    ensures ShiftDateOnly("+010000-01", -2) == Ok("9999-12-30")
    ensures ShiftDateOnly("9999-12-31", 0) == Ok("9999-12-31")
  {
    hide IsoDay, ParseDay, ShiftDateOnly, Remembered;
    var day := LAST_DAY;
    LastDays();
    ShiftOfIsoDay(day, 2);
    ShiftOfIsoDay(day, 0);
    ShiftOfText(day + 2, -2);
  }

  lemma LastDays()
    ensures HasFourDigitYear(LAST_DAY) && InTimeRange(LAST_DAY) && InTimeRange(LAST_DAY + 2) && InTimeRange(LAST_DAY - 1)
    ensures IsoDay(LAST_DAY) == "9999-12-31" && IsoDay(LAST_DAY - 1) == "9999-12-30"
    ensures IsoDay(LAST_DAY + 2) == "+010000-01" && Remembered(LAST_DAY + 2) == LAST_DAY + 1
  {
    hide CivilFromDays, DateText, MonthText;
    var last, before, after := CivilDate(9999, 12, 31), CivilDate(9999, 12, 30), CivilDate(10_000, 1, 2);
    assert DayNumber(last) == LAST_DAY && DayNumber(before) == LAST_DAY - 1 && DayNumber(after) == LAST_DAY + 2;
    TextOfDate(last);
    TextOfDate(before);
    CivilOfDayNumber(after);
    LastTexts();
  }

  lemma LastTexts()
    ensures DateText(CivilDate(9999, 12, 31)) == "9999-12-31" && DateText(CivilDate(9999, 12, 30)) == "9999-12-30"
    ensures MonthText(10_000, 1) == "+010000-01"
  {
    hide Padded;
    FourDigits(9999);
    TwoDigits(12);
    TwoDigits(31);
    TwoDigits(30);
    TwoDigits(1);
    SixDigits();
  }

  lemma SixDigits()
    ensures 10_000 < Pow10(6) && Padded(10_000, 6) == "010000"
  {
    assert Pow10(3) == 1000 && Pow10(4) == 10_000 && Pow10(5) == 100_000 && Pow10(6) == 1_000_000;
    FourDigits(100);
    assert Padded(1000, 5) == Padded(100, 4) + "0";
    assert Padded(10_000, 6) == Padded(1000, 5) + "0";
  }

  // ---------- the run date ----------

  /**
   * The check `E2E_FIXTURE_TODAY_NZ` has to pass. `engine` is whatever the JavaScript engine makes
   * of a string naming no real day: an invalid date, or some day it rolls over to.
   */
  predicate FixtureDateAccepted(s: string, engine: string -> Option<int>) {
    var parsed := if IsDateOnly(s) then ParseDay(s) else engine(s);
    && IsDateShaped(s)
    && parsed != None
    && InTimeRange(parsed.value)
    && IsoDay(parsed.value) == s
  }

  /** It accepts exactly the strings naming a real date, however the engine treats the others. */
  lemma FixtureDateCheckIsExact(s: string, engine: string -> Option<int>)
    ensures FixtureDateAccepted(s, engine) <==> IsDateOnly(s)
  {
    if IsDateOnly(s) {
      IsoDayOfParse(s);
    } else if FixtureDateAccepted(s, engine) {
      var day := engine(s).value;
      YearOfDay(day);
      if HasFourDigitYear(day) {
        DateTextParts(CivilFromDays(day));
      } else {
        MonthTextParts(CivilFromDays(day).year, CivilFromDays(day).month);
      }
      assert false;
    }
  }
}

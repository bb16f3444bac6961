/**
 * The walk of the booking calendar to the month of a date. The calendar shows one month under a
 * heading such as "August 2026"; the walk reads the heading, decides its own direction, and clicks
 * one month at a time.
 */
module CalendarWalk {
  import opened Outcomes
  import opened Text
  import opened CivilCalendar
  import opened IsoDates

  const MONTH_NAMES: seq<string> := [
    "January", "February", "March", "April", "May", "June",
    "July", "August", "September", "October", "November", "December"
  ]

  /** What the calendar kernel accepts: a real date of a year from 1 on. */
  predicate IsCalendarDate(s: string) {
    IsDateOnly(s) && DateNamed(s).year >= 1
  }

  function DateOnlyParts(s: string): Outcome<CivilDate> {
    if IsCalendarDate(s) then Ok(DateNamed(s)) else Throw(NotACalendarDate)
  }

  /** A month counted from January of year 0. */
  function MonthIndex(date: CivilDate): int {
    12 * date.year + date.month - 1
  }

  // ---------- month keys and headings ----------

  function MonthKey(year: nat, month: nat): string
    requires 1 <= month <= 12
  {
    assert Pow10(2) == 100;
    Decimal(year) + "-" + Padded(month, 2)
  }

  function MonthKeyOfDateOnly(s: string): Outcome<string> {
    var date :- DateOnlyParts(s);
    Ok(MonthKey(date.year, date.month))
  }

  /** `Intl` counts years before 1 backwards and writes no leading zeros. */
  function HeadingText(year: int, month: int): string
    requires 1 <= month <= 12
  {
    MONTH_NAMES[month - 1] + " " + Decimal(if year >= 1 then year else 1 - year)
  }

  /** The heading a date's month should show. `new Date(year, month)` takes years 0 to 99 as 1900 to 1999. */
  function CalendarMonthHeading(s: string): Outcome<string> {
    var date :- DateOnlyParts(s);
    Ok(HeadingText(if date.year <= 99 then 1900 + date.year else date.year, date.month))
  }

  predicate IsLetter(c: char) {
    'A' <= c <= 'Z' || 'a' <= c <= 'z'
  }

  /** How many letters `s` starts with. */
  function Letters(s: string): (n: nat)
    ensures n <= |s|
  {
    if s != [] && IsLetter(s[0]) then 1 + Letters(s[1..]) else 0
  }

  function PositionOf(names: seq<string>, name: string): int {
    if names == [] then -1
    else if names[0] == name then 0
    else var rest := PositionOf(names[1..], name); if rest < 0 then rest else rest + 1
  }

  /** Reads `^([A-Za-z]+)\s+(\d{4})$` off the trimmed heading; the month name must be one of the twelve. */
  function MonthKeyOfHeading(heading: string): (key: Outcome<string>)
    ensures key.Throw? ==> key.error == NotAMonthHeading
  {
    var text := Trim(heading);
    var name, rest := text[..Letters(text)], text[Letters(text)..];
    var year := TrimStart(rest);
    if name == "" || rest == year || |year| != 4 || !AllDigits(year) || PositionOf(MONTH_NAMES, name) < 0 then Throw(NotAMonthHeading)
    else
      var month := PositionOf(MONTH_NAMES, name) + 1;
      IndexInRange(MONTH_NAMES, name);
      assert Pow10(2) == 100;
      Ok(year + "-" + Padded(month, 2))
  }

  lemma {:induction false} IndexInRange(names: seq<string>, name: string)
    ensures var i := PositionOf(names, name); -1 <= i < |names| && (i >= 0 ==> names[i] == name)
  {
    if names != [] && names[0] != name {
      IndexInRange(names[1..], name);
    }
  }

  lemma {:induction false} PositionOfFirst(names: seq<string>, i: nat)
    requires i < |names| && forall j :: 0 <= j < i ==> names[j] != names[i]
    ensures PositionOf(names, names[i]) == i
  {
    if i > 0 {
      PositionOfFirst(names[1..], i - 1);
    }
  }

  lemma MonthNamesDiffer(month: int, other: int)
    requires 1 <= month < other <= 12
    ensures MONTH_NAMES[month - 1] != MONTH_NAMES[other - 1]
  {
    var a, b := MONTH_NAMES[month - 1], MONTH_NAMES[other - 1];
    assert |a| != |b| || a[0] != b[0] || a[2] != b[2];
  }

  lemma MonthNameLetters(month: int)
    requires 1 <= month <= 12
    ensures var name := MONTH_NAMES[month - 1]; name != "" && forall i :: 0 <= i < |name| ==> IsLetter(name[i])
  {
  }

  lemma MonthNameIndex(month: int)
    requires 1 <= month <= 12
    ensures PositionOf(MONTH_NAMES, MONTH_NAMES[month - 1]) == month - 1
  {
    forall j | 0 <= j < month - 1 ensures MONTH_NAMES[j] != MONTH_NAMES[month - 1] {
      MonthNamesDiffer(j + 1, month);
    }
    hide PositionOf;
    PositionOfFirst(MONTH_NAMES, month - 1);
  }

  lemma {:induction false} LettersOfName(name: string, rest: string)
    requires forall i :: 0 <= i < |name| ==> IsLetter(name[i])
    requires rest != "" && !IsLetter(rest[0])
    ensures Letters(name + rest) == |name|
  {
    if name == "" {
      assert name + rest == rest;
    } else {
      LettersOfName(name[1..], rest);
      assert (name + rest)[1..] == name[1..] + rest;
    }
  }

  /** How the reader takes a name, a space and digits apart. */
  lemma HeadingParts(name: string, digits: string)
    requires name != "" && forall i :: 0 <= i < |name| ==> IsLetter(name[i])
    requires digits != "" && AllDigits(digits)
    ensures var text := name + " " + digits;
            && Trim(text) == text && Letters(text) == |name| && text[..|name|] == name
            && TrimStart(text[|name|..]) == digits && text[|name|..] != digits
  {
    hide Letters, Trim, TrimStart, IsSpace, IsLetter, IsDigit;
    var text, rest := name + " " + digits, " " + digits;
    assert text == name + rest;
    NotSpaces(name[0], digits[0]);
    LettersOfName(name, rest);
    assert text[|name|..] == rest && |rest| > |digits|;
    SpacedDigits(digits);
    HeadingIsTrimmed(name, digits);
  }

  lemma SpacedDigits(digits: string)
    requires digits != "" && !IsSpace(digits[0]) && IsSpace(' ')
    ensures TrimStart(" " + digits) == digits
  {
    hide IsSpace;
    assert (" " + digits)[1..] == digits;
  }

  lemma HeadingIsTrimmed(name: string, digits: string)
    requires name != "" && IsLetter(name[0])
    requires digits != "" && AllDigits(digits)
    ensures Trim(name + " " + digits) == name + " " + digits
  {
    hide Trim, IsSpace, IsLetter, IsDigit;
    var text := name + " " + digits;
    NotSpaces(name[0], digits[|digits| - 1]);
    assert text[0] == name[0] && text[|text| - 1] == digits[|digits| - 1];
    TrimTrims(text);
  }

  lemma NotSpaces(letter: char, digit: char)
    requires IsLetter(letter) && IsDigit(digit)
    ensures !IsSpace(letter) && !IsSpace(digit) && IsSpace(' ') && !IsLetter(' ')
  {
  }

  function YearShown(year: int): nat {
    if year >= 1 then year else 1 - year
  }

  /** A heading reads as the month of the year it shows exactly when that year has four digits. */
  lemma HeadingRead(year: int, month: int)
    requires 1 <= month <= 12
    ensures MonthKeyOfHeading(HeadingText(year, month))
            == if 1000 <= YearShown(year) <= 9999 then Ok(MonthKey(YearShown(year), month)) else Throw(NotAMonthHeading)
  {
    hide Decimal, Padded, PositionOf, Trim, TrimStart, Letters;
    MonthNameLetters(month);
    MonthNameIndex(month);
    HeadingParts(MONTH_NAMES[month - 1], Decimal(YearShown(year)));
    FourDigitDecimal(YearShown(year));
  }

  /** Each month of a four-digit year, by its name. */
  lemma HeadingsByName(year: nat)
    requires 1000 <= year <= 9999
    ensures MonthKeyOfHeading("January " + Decimal(year)) == Ok(Decimal(year) + "-01")
    ensures MonthKeyOfHeading("February " + Decimal(year)) == Ok(Decimal(year) + "-02")
    ensures MonthKeyOfHeading("March " + Decimal(year)) == Ok(Decimal(year) + "-03")
    ensures MonthKeyOfHeading("April " + Decimal(year)) == Ok(Decimal(year) + "-04")
    ensures MonthKeyOfHeading("May " + Decimal(year)) == Ok(Decimal(year) + "-05")
    ensures MonthKeyOfHeading("June " + Decimal(year)) == Ok(Decimal(year) + "-06")
    ensures MonthKeyOfHeading("July " + Decimal(year)) == Ok(Decimal(year) + "-07")
    ensures MonthKeyOfHeading("August " + Decimal(year)) == Ok(Decimal(year) + "-08")
    ensures MonthKeyOfHeading("September " + Decimal(year)) == Ok(Decimal(year) + "-09")
    ensures MonthKeyOfHeading("October " + Decimal(year)) == Ok(Decimal(year) + "-10")
    ensures MonthKeyOfHeading("November " + Decimal(year)) == Ok(Decimal(year) + "-11")
    ensures MonthKeyOfHeading("December " + Decimal(year)) == Ok(Decimal(year) + "-12")
  {
    hide MonthKeyOfHeading, Decimal, Padded;
    NamedHeading(year, 1, "January ", "-01");
    NamedHeading(year, 2, "February ", "-02");
    NamedHeading(year, 3, "March ", "-03");
    NamedHeading(year, 4, "April ", "-04");
    NamedHeading(year, 5, "May ", "-05");
    NamedHeading(year, 6, "June ", "-06");
    NamedHeading(year, 7, "July ", "-07");
    NamedHeading(year, 8, "August ", "-08");
    NamedHeading(year, 9, "September ", "-09");
    NamedHeading(year, 10, "October ", "-10");
    NamedHeading(year, 11, "November ", "-11");
    NamedHeading(year, 12, "December ", "-12");
  }

  lemma NamedHeading(year: nat, month: nat, head: string, tail: string)
    requires 1000 <= year <= 9999 && 1 <= month <= 12 && MONTH_NAMES[month - 1] + " " == head
    requires tail == ['-', DigitChar(month / 10), DigitChar(month % 10)]
    ensures MonthKeyOfHeading(head + Decimal(year)) == Ok(Decimal(year) + tail)
  {
    hide MonthKeyOfHeading, Decimal, Padded, DigitChar;
    HeadingRead(year, month);
    TwoDigits(month);
    assert tail == "-" + Padded(month, 2);
    assert Decimal(year) + "-" + Padded(month, 2) == Decimal(year) + tail;
  }

  /** The heading a date expects reads back as the date's month exactly when its year has four digits. */
  lemma HeadingRoundTrip(s: string)
    requires IsCalendarDate(s)
    ensures MonthKeyOfHeading(CalendarMonthHeading(s).value) == MonthKeyOfDateOnly(s) <==> DateNamed(s).year >= 1000
  {
    hide MonthKeyOfHeading, Decimal, Padded;
    var date := DateNamed(s);
    var shown := if date.year <= 99 then 1900 + date.year else date.year;
    HeadingRead(shown, date.month);
    PaddedOfNumber(s[..4]);
    assert Pow10(4) == 10_000;
    if date.year <= 99 {
      KeysDiffer(shown, date.year, date.month);
    }
  }

  lemma KeysDiffer(a: nat, b: nat, month: nat)
    requires 1000 <= a <= 9999 && b < 1000 && 1 <= month <= 12
    ensures MonthKey(a, month) != MonthKey(b, month)
  {
    hide Decimal, Padded;
    FourDigitDecimal(a);
    FourDigitDecimal(b);
    assert |MonthKey(a, month)| == |Decimal(a)| + 3 && |MonthKey(b, month)| == |Decimal(b)| + 3;
  }

  // ---------- keys order months ----------

  /** Months whose year is written with four digits. */
  predicate HasFourDigitHeading(month: int) {
    12 * 1000 <= month < 12 * 10_000
  }

  function KeyOf(month: int): string
    requires HasFourDigitHeading(month)
  {
    MonthKey(month / 12, month % 12 + 1)
  }

  lemma KeyOrder(a: int, b: int)
    requires HasFourDigitHeading(a) && HasFourDigitHeading(b)
    ensures Less(KeyOf(a), KeyOf(b)) <==> a < b
    ensures KeyOf(a) == KeyOf(b) <==> a == b
  {
    hide Less, Decimal, Padded;
    assert Pow10(2) == 100;
    FourDigitDecimal(a / 12);
    FourDigitDecimal(b / 12);
    PaddedOrder(a / 12, b / 12, 4);
    PaddedOrder(a % 12 + 1, b % 12 + 1, 2);
    var yearA, yearB := Padded(a / 12, 4) + "-", Padded(b / 12, 4) + "-";
    LessIrreflexive("-");
    LessOfConcatenation(Padded(a / 12, 4), "-", Padded(b / 12, 4), "-");
    assert yearA == yearB <==> a / 12 == b / 12 by { assert yearA[..4] == Padded(a / 12, 4) && yearB[..4] == Padded(b / 12, 4); }
    LessOfConcatenation(yearA, Padded(a % 12 + 1, 2), yearB, Padded(b % 12 + 1, 2));
    if KeyOf(a) == KeyOf(b) {
      assert KeyOf(a)[..5] == yearA && KeyOf(b)[..5] == yearB && KeyOf(a)[5..] == KeyOf(b)[5..];
    }
    assert KeyOf(a) == yearA + Padded(a % 12 + 1, 2) && KeyOf(b) == yearB + Padded(b % 12 + 1, 2);
  }

  // ---------- the calendar and the walk ----------

  /** The booking calendar, as far as the walk sees it: the month it shows. */
  class BookingCalendar {
    var month: int

    constructor (month: int)
      ensures this.month == month
    {
      this.month := month;
    }

    function Heading(): string
      reads this
    {
      HeadingText(month / 12, month % 12 + 1)
    }

    method Next()
      modifies this
      ensures month == old(month) + 1
    {
      month := month + 1;
    }

    method Prev()
      modifies this
      ensures month == old(month) - 1
    {
      month := month - 1;
    }
  }

  function Distance(a: int, b: int): nat {
    if a < b then b - a else a - b
  }

  /** Where `hops` clicks towards `target` lead, without overshooting. */
  function Towards(month: int, target: int, hops: nat): int {
    if Distance(month, target) <= hops then target else if month < target then month + hops else month - hops
  }

  function TargetMonth(target: string): int
    requires IsCalendarDate(target)
  {
    MonthIndex(DateNamed(target))
  }

  lemma ShownKey(month: int)
    requires HasFourDigitHeading(month)
    ensures MonthKeyOfHeading(HeadingText(month / 12, month % 12 + 1)) == Ok(KeyOf(month))
  {
    hide MonthKeyOfHeading, HeadingText, MonthKey;
    HeadingRead(month / 12, month % 12 + 1);
  }

  lemma TargetKey(target: string)
    requires IsCalendarDate(target) && DateNamed(target).year >= 1000
    ensures var goal := TargetMonth(target);
            && HasFourDigitHeading(goal)
            && MonthKeyOfDateOnly(target) == Ok(KeyOf(goal))
            && CalendarMonthHeading(target) == Ok(HeadingText(goal / 12, goal % 12 + 1))
  {
    hide HeadingText, MonthKey;
    PaddedOfNumber(target[..4]);
    assert Pow10(4) == 10_000;
    var date := DateNamed(target);
    assert TargetMonth(target) / 12 == date.year && TargetMonth(target) % 12 == date.month - 1;
  }

  /** Two four-digit months show the same heading only if they are one month. */
  lemma HeadingsDiffer(a: int, b: int)
    requires HasFourDigitHeading(a) && HasFourDigitHeading(b)
    ensures HeadingText(a / 12, a % 12 + 1) == HeadingText(b / 12, b % 12 + 1) <==> a == b
  {
    hide HeadingText, MonthKeyOfHeading, KeyOf;
    ShownKey(a);
    ShownKey(b);
    KeyOrder(a, b);
  }

  // ---------- targets before the year 1000 ----------

  predicate IsEarlyTarget(target: string) {
    IsCalendarDate(target) && DateNamed(target).year < 1000
  }

  /** What a year of one to three digits is multiplied by to have four. */
  function Place(year: int): int {
    if year < 10 then 1000 else if year < 100 then 100 else 10
  }

  /**
   * The month the walk makes for instead of an early target: its key has no leading zeros, so it sorts
   * among four-digit years as the January of its year with zeros appended does.
   */
  function WrongGoal(target: string): int
    requires IsEarlyTarget(target)
  {
    12 * (DateNamed(target).year * Place(DateNamed(target).year))
  }

  lemma EarlyYear(target: string)
    requires IsEarlyTarget(target)
    ensures 1 <= DateNamed(target).year <= 999 && 1 <= DateNamed(target).month <= 12
    ensures HasFourDigitHeading(WrongGoal(target)) && WrongGoal(target) <= 12 * 9990
    ensures MonthKeyOfDateOnly(target) == Ok(MonthKey(DateNamed(target).year, DateNamed(target).month))
  {
    hide MonthKey, IsDateShaped, Number;
  }

  /** A four-digit month's key is never an early target's, and below it exactly before the wrong goal. */
  lemma EarlyKey(month: int, target: string)
    requires HasFourDigitHeading(month) && IsEarlyTarget(target)
    ensures var key := MonthKeyOfDateOnly(target).value;
            KeyOf(month) != key && (Less(KeyOf(month), key) <==> month < WrongGoal(target))
  {
    hide Less, Padded, Decimal, DateNamed, MonthKeyOfDateOnly, IsDateShaped, IsReal;
    EarlyYear(target);
    var shown, year := month / 12, DateNamed(target).year;
    assert Pow10(2) == 100;
    var rest := "-" + Padded(DateNamed(target).month, 2);
    FourDigitDecimal(shown);
    ShortDecimal(year);
    LeadingDigits(shown);
    var digits := if year < 10 then 1 else if year < 100 then 2 else 3;
    assert KeyOf(month) == Padded(shown, 4) + ("-" + Padded(month % 12 + 1, 2));
    LeadingKey(shown, digits, "-" + Padded(month % 12 + 1, 2), year, rest);
    assert MonthKeyOfDateOnly(target).value == Decimal(year) + rest;
    assert |KeyOf(month)| == 7;
  }

  lemma LeadingKey(shown: nat, digits: nat, tail: string, year: nat, rest: string)
    requires 1000 <= shown <= 9999 && 1 <= digits <= 3 && 1 <= year <= 999 && rest != "" && rest[0] == '-'
    requires digits == if year < 10 then 1 else if year < 100 then 2 else 3
    ensures shown < Pow10(4) && (Less(Padded(shown, 4) + tail, Decimal(year) + rest) <==> shown < year * Place(year))
    ensures |Decimal(year)| == digits
  {
    hide Less, Padded, Decimal;
    ShortDecimal(year);
    LeadingDigits(shown);
    var all := Padded(shown, 4);
    var head, last := all[..digits], all[digits..] + tail;
    assert all + tail == head + last;
    assert IsDigit(all[digits]) && last[0] == all[digits];
    HeadsDecide(head, last, Decimal(year), rest);
    var leading := if digits == 1 then shown / 1000 else if digits == 2 then shown / 100 else shown / 10;
    assert head == Padded(leading, digits) && Decimal(year) == Padded(year, digits);
    PaddedOrder(leading, year, digits);
  }

  /** Where an early target leaves the walk after so many clicks: at the wrong goal, then to and fro. */
  function Misled(start: int, wrong: int, hops: nat): int {
    if start < wrong then
      if hops <= wrong - start then start + hops else wrong - (hops - (wrong - start)) % 2
    else
      if hops <= start - wrong + 1 then start - hops else wrong - 1 + (hops - (start - wrong + 1)) % 2
  }

  lemma MisledStep(start: int, wrong: int, hops: nat)
    ensures var month := Misled(start, wrong, hops);
            Misled(start, wrong, hops + 1) == if month < wrong then month + 1 else month - 1
    ensures HasFourDigitHeading(start) && HasFourDigitHeading(wrong) && !HasFourDigitHeading(Misled(start, wrong, hops + 1)) ==>
              wrong == 12 * 1000 && hops + 1 > start - wrong && Misled(start, wrong, hops + 1) == wrong - 1
    ensures wrong <= start && hops == start - wrong ==> Misled(start, wrong, hops + 1) == wrong - 1
  {
  }

  /** Of four-digit months only one of the years 1901 to 1999 shows an early target's heading, and only for the years 1 to 99. */
  lemma EarlyArrival(month: int, target: string)
    requires IsEarlyTarget(target) && MonthKeyOfHeading(HeadingText(month / 12, month % 12 + 1)).Ok?
    ensures Ok(HeadingText(month / 12, month % 12 + 1)) == CalendarMonthHeading(target) ==> DateNamed(target).year <= 99
    ensures HasFourDigitHeading(month) ==>
              (Ok(HeadingText(month / 12, month % 12 + 1)) == CalendarMonthHeading(target)
               <==> DateNamed(target).year <= 99 && month == 12 * 1900 + TargetMonth(target))
  {
    hide HeadingText, MonthKeyOfHeading, MonthKey, IsDateShaped, DateNamed;
    var date := DateNamed(target);
    assert 1 <= date.year <= 999 && 1 <= date.month <= 12 by { EarlyYear(target); }
    if date.year <= 99 {
      var other := 12 * 1900 + TargetMonth(target);
      assert other / 12 == 1900 + date.year && other % 12 == date.month - 1;
      if HasFourDigitHeading(month) {
        HeadingsDiffer(month, other);
      }
    } else {
      HeadingRead(date.year, date.month);
    }
  }

  // ---------- the walk ----------

  function Bound(maxHops: int): nat {
    if maxHops > 0 then maxHops else 0
  }

  /** The walk between four-digit years: there exactly if the bound allows it, or the bound's clicks nearer. */
  predicate WalksStraight(start: int, target: string, bound: nat, month: int, spent: Outcome<int>)
    requires IsCalendarDate(target)
  {
    var distance := Distance(start, TargetMonth(target));
    && spent == (if distance <= bound then Ok(distance) else Throw(NotReached))
    && month == Towards(start, TargetMonth(target), bound)
  }

  /**
   * The walk to a target before the year 1000, from a four-digit year: it makes for the wrong goal and
   * either walks off the readable years there, or spends every click and reports arrival exactly if it
   * ends on the month of 1901 to 1999 that shows the same heading.
   */
  predicate WalksAstray(start: int, target: string, bound: nat, month: int, spent: Outcome<int>)
    requires IsEarlyTarget(target)
  {
    var wrong := WrongGoal(target);
    if wrong == 12 * 1000 && start - wrong < bound then
      spent == Throw(NotAMonthHeading) && month == wrong - 1
    else
      && month == Misled(start, wrong, bound)
      && spent == (if DateNamed(target).year <= 99 && month == 12 * 1900 + TargetMonth(target) then Ok(bound) else Throw(NotReached))
  }

  /** What holds after so many clicks from a four-digit month. */
  predicate WalkInv(start: int, target: string, hops: nat, month: int, key: string)
    requires IsCalendarDate(target)
  {
    HasFourDigitHeading(start) ==>
      && HasFourDigitHeading(month) && key == KeyOf(month)
      && (!IsEarlyTarget(target) ==>
            hops <= Distance(start, TargetMonth(target)) && month == Towards(start, TargetMonth(target), hops))
      && (IsEarlyTarget(target) ==>
            && month == Misled(start, WrongGoal(target), hops)
            && (WrongGoal(target) == 12 * 1000 ==> hops <= start - WrongGoal(target)))
  }

  function HeadingOf(month: int): string {
    HeadingText(month / 12, month % 12 + 1)
  }

  function Clicked(month: int, key: string, targetKey: string): int {
    if Less(key, targetKey) then month + 1 else month - 1
  }

  lemma WalkStarts(start: int, target: string, key: string)
    requires IsCalendarDate(target) && MonthKeyOfHeading(HeadingOf(start)) == Ok(key)
    ensures WalkInv(start, target, 0, start, key)
  {
    hide MonthKeyOfHeading, HeadingText, KeyOf, IsDateShaped, DateNamed, IsReal;
    if HasFourDigitHeading(start) {
      ShownKey(start);
      if IsEarlyTarget(target) {
        EarlyYear(target);
      }
    }
  }

  lemma WalkSteps(start: int, target: string, hops: nat, month: int, key: string)
    requires IsCalendarDate(target) && WalkInv(start, target, hops, month, key)
    requires key != MonthKeyOfDateOnly(target).value
    ensures var month' := Clicked(month, key, MonthKeyOfDateOnly(target).value);
            var read := MonthKeyOfHeading(HeadingOf(month'));
            && (read.Ok? ==> WalkInv(start, target, hops + 1, month', read.value))
            && (read.Throw? && HasFourDigitHeading(start) ==>
                  IsEarlyTarget(target) && WalksAstray(start, target, hops + 1, month', Throw(read.error)))
  {
    hide MonthKeyOfHeading, HeadingText, KeyOf, MonthKey, MonthKeyOfDateOnly, DateNamed, IsDateShaped, IsReal, Less,
         WrongGoal, Misled, TargetMonth;
    if HasFourDigitHeading(start) {
      if IsEarlyTarget(target) {
        StepAstray(start, target, hops, month, key);
      } else {
        StepStraight(start, target, hops, month, key);
      }
    }
  }

  lemma StepStraight(start: int, target: string, hops: nat, month: int, key: string)
    requires IsCalendarDate(target) && !IsEarlyTarget(target) && HasFourDigitHeading(start)
    requires WalkInv(start, target, hops, month, key) && key != MonthKeyOfDateOnly(target).value
    ensures var month' := Clicked(month, key, MonthKeyOfDateOnly(target).value);
            && HasFourDigitHeading(month') && MonthKeyOfHeading(HeadingOf(month')) == Ok(KeyOf(month'))
            && WalkInv(start, target, hops + 1, month', KeyOf(month'))
  {
    hide MonthKeyOfHeading, HeadingText, KeyOf, MonthKey, MonthKeyOfDateOnly, DateNamed, IsDateShaped, IsReal, Less, TargetMonth;
    TargetKey(target);
    KeyOrder(month, TargetMonth(target));
    ShownKey(Clicked(month, key, MonthKeyOfDateOnly(target).value));
  }

  lemma StepAstray(start: int, target: string, hops: nat, month: int, key: string)
    requires IsEarlyTarget(target) && HasFourDigitHeading(start)
    requires WalkInv(start, target, hops, month, key) && key != MonthKeyOfDateOnly(target).value
    ensures var month' := Clicked(month, key, MonthKeyOfDateOnly(target).value);
            var read := MonthKeyOfHeading(HeadingOf(month'));
            && (read.Ok? ==> WalkInv(start, target, hops + 1, month', read.value))
            && (read.Throw? ==> WalksAstray(start, target, hops + 1, month', Throw(read.error)))
  {
    hide MonthKeyOfHeading, HeadingText, KeyOf, MonthKey, MonthKeyOfDateOnly, DateNamed, IsDateShaped, IsReal, Less, WrongGoal, Misled;
    EarlyYear(target);
    EarlyKey(month, target);
    MisledStep(start, WrongGoal(target), hops);
    var month' := Clicked(month, key, MonthKeyOfDateOnly(target).value);
    if HasFourDigitHeading(month') {
      ShownKey(month');
    } else {
      BeforeYear1000();
    }
  }

  lemma BeforeYear1000()
    ensures MonthKeyOfHeading(HeadingOf(12 * 1000 - 1)) == Throw(NotAMonthHeading)
  {
    hide MonthKeyOfHeading, HeadingText;
    HeadingRead(999, 12);
  }

  lemma WalkEnds(start: int, target: string, bound: nat, hops: nat, month: int, key: string)
    requires IsCalendarDate(target) && WalkInv(start, target, hops, month, key) && HasFourDigitHeading(start)
    requires hops <= bound && (key == MonthKeyOfDateOnly(target).value || hops == bound)
    ensures var spent := if Ok(HeadingOf(month)) == CalendarMonthHeading(target) then Ok(hops) else Throw(NotReached);
            && (!IsEarlyTarget(target) ==> WalksStraight(start, target, bound, month, spent))
            && (IsEarlyTarget(target) ==> WalksAstray(start, target, bound, month, spent))
  {
    hide MonthKeyOfHeading, HeadingText, KeyOf, MonthKey, MonthKeyOfDateOnly, DateNamed, IsDateShaped, IsReal, Less,
         WrongGoal, Misled, TargetMonth;
    if IsEarlyTarget(target) {
      EarlyKey(month, target);
      ShownKey(month);
      EarlyArrival(month, target);
    } else {
      TargetKey(target);
      KeyOrder(month, TargetMonth(target));
      HeadingsDiffer(month, TargetMonth(target));
    }
  }

  /** Walking away: from January 1000 towards December 999 the one click goes on to February, and fails. */
  lemma EarlyTargetMisleads()
    ensures IsEarlyTarget("0999-12-01") && TargetMonth("0999-12-01") == 12 * 1000 - 1
    ensures WalksAstray(12 * 1000, "0999-12-01", 1, 12 * 1000 + 1, Throw(NotReached))
  {
    hide IsCalendarDate, DateNamed;
    EarlyDates();
  }

  /** False arrival: one click from May 1985 the walk to June of the year 85 reports arrival. */
  lemma EarlyTargetArrivesWrongly()
    ensures IsEarlyTarget("0085-06-01") && TargetMonth("0085-06-01") == 12 * 85 + 5
    ensures WalksAstray(12 * 1985 + 4, "0085-06-01", 1, 12 * 1985 + 5, Ok(1))
  {
    hide IsCalendarDate, DateNamed;
    EarlyDates();
  }

  lemma EarlyDates()
    ensures IsCalendarDate("0999-12-01") && DateNamed("0999-12-01") == CivilDate(999, 12, 1)
    ensures IsCalendarDate("0085-06-01") && DateNamed("0085-06-01") == CivilDate(85, 6, 1)
  {
    hide DateText, IsDateShaped, DateNamed;
    DateTextParts(CivilDate(999, 12, 1));
    DateTextParts(CivilDate(85, 6, 1));
    EarlyTexts();
  }

  lemma EarlyTexts()
    ensures DateText(CivilDate(999, 12, 1)) == "0999-12-01"
    ensures DateText(CivilDate(85, 6, 1)) == "0085-06-01"
  {
    hide Padded;
    FourDigits(999);
    FourDigits(85);
    TwoDigits(12);
    TwoDigits(6);
    TwoDigits(1);
  }

  /**
   * Walks to the month holding `target`, spending at most `maxHops` clicks. Between four-digit years
   * it walks straight; to a target before the year 1000 it walks astray, and never arrives if that is
   * in the years 100 to 999. Any walk that reports arrival shows the expected heading.
   */
  method WalkCalendarToMonth(calendar: BookingCalendar, target: string, maxHops: int) returns (spent: Outcome<int>)
    modifies calendar
    ensures !IsCalendarDate(target) ==> spent == Throw(NotACalendarDate) && calendar.month == old(calendar.month)
    ensures IsCalendarDate(target) && MonthKeyOfHeading(old(calendar.Heading())).Throw? ==>
              spent == Throw(NotAMonthHeading) && calendar.month == old(calendar.month)
    ensures IsCalendarDate(target) && DateNamed(target).year >= 1000 && HasFourDigitHeading(old(calendar.month)) ==>
              WalksStraight(old(calendar.month), target, Bound(maxHops), calendar.month, spent)
    ensures IsEarlyTarget(target) && HasFourDigitHeading(old(calendar.month)) ==>
              WalksAstray(old(calendar.month), target, Bound(maxHops), calendar.month, spent)
    ensures IsEarlyTarget(target) && DateNamed(target).year >= 100 ==> spent.Throw?
    ensures spent.Ok? ==> Ok(calendar.Heading()) == CalendarMonthHeading(target)
  {
    hide MonthKeyOfHeading, HeadingText, KeyOf, MonthKey, Less, IsReal, DateNamed, IsDateShaped, WalkInv, WalksStraight, WalksAstray;
    if !IsCalendarDate(target) {
      return Throw(NotACalendarDate);
    }
    var targetMonth := MonthKeyOfDateOnly(target).value;
    var monthHeading := CalendarMonthHeading(target).value;
    ghost var start := calendar.month;
    var hops := 0;
    if HasFourDigitHeading(start) {
      ShownKey(start);
    }
    var key :- MonthKeyOfHeading(calendar.Heading());
    WalkStarts(start, target, key);
    while key != targetMonth && hops < maxHops
      invariant 0 <= hops <= Bound(maxHops) && MonthKeyOfHeading(calendar.Heading()) == Ok(key)
      invariant WalkInv(start, target, hops, calendar.month, key)
      decreases maxHops - hops
    {
      WalkSteps(start, target, hops, calendar.month, key);
      if Less(key, targetMonth) {
        calendar.Next();
      } else {
        calendar.Prev();
      }
      hops := hops + 1;
      if HasFourDigitHeading(start) && IsEarlyTarget(target) && MonthKeyOfHeading(calendar.Heading()).Throw? {
        StaysAstray(start, target, hops, Bound(maxHops), calendar.month);
      }
      key :- MonthKeyOfHeading(calendar.Heading());
    }
    if HasFourDigitHeading(start) {
      WalkEnds(start, target, Bound(maxHops), hops, calendar.month, key);
    }
    if IsEarlyTarget(target) {
      EarlyArrival(calendar.month, target);
    }
    if calendar.Heading() != monthHeading {
      return Throw(NotReached);
    }
    return Ok(hops);
  }

  /** A walk that has left the readable years has left them under every larger bound. */
  lemma StaysAstray(start: int, target: string, hops: nat, bound: nat, month: int)
    requires IsEarlyTarget(target) && hops <= bound
    requires WalksAstray(start, target, hops, month, Throw(NotAMonthHeading))
    ensures WalksAstray(start, target, bound, month, Throw(NotAMonthHeading))
  {
    hide WrongGoal, Misled, DateNamed, IsDateShaped, IsReal, TargetMonth;
  }
}

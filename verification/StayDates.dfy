/**
 * The stay-window allocators of the end-to-end suite: the n-th usable Monday, the linked move's two
 * Thursdays, and the past windows of the retroactive booking.
 */
module StayDates {
  import opened Outcomes
  import opened Text
  import opened IsoDates
  import opened Fixtures
  import opened StayOffsets

  // ---------- seasons ----------

  predicate HoldsEvery(season: Season, nights: seq<string>) {
    forall i :: 0 <= i < |nights| ==> AtMost(season.start, nights[i]) && AtMost(nights[i], season.end)
  }

  predicate IsWindowInSeededSeason(dates: SeededDates, nights: seq<string>) {
    exists i :: 0 <= i < |dates.seasons| && HoldsEvery(dates.seasons[i], nights)
  }

  function FindSeason(seasons: seq<Season>, nights: seq<string>): Outcome<string> {
    if seasons == [] then Throw(NoWindow)
    else if HoldsEvery(seasons[0], nights) then Ok(seasons[0].key)
    else FindSeason(seasons[1..], nights)
  }

  /** The key of the first seeded season holding every night; throws when there is none. */
  function SeasonForWindow(dates: SeededDates, nights: seq<string>): Outcome<string> {
    FindSeason(dates.seasons, nights)
  }

  predicate IsUsable(dates: SeededDates, nights: seq<string>) {
    (forall i :: 0 <= i < |nights| ==> !dates.IsReserved(nights[i])) && IsWindowInSeededSeason(dates, nights)
  }

  // ---------- the Monday walk ----------

  function FirstMonday(dates: SeededDates): Outcome<string> {
    var earliest :- ShiftDateOnly(dates.today, FIRST_WINDOW_OFFSET_DAYS);
    var weekday :- DayOfWeek(earliest);
    ShiftDateOnly(earliest, (8 - weekday) % 7)
  }

  /** The walk from `monday`, `weeks` Mondays long: the first usable one after `remaining` usable ones. */
  function WalkMondays(dates: SeededDates, monday: string, remaining: int, weeks: nat): Outcome<StayWindow>
    decreases weeks
  {
    if weeks == 0 then Throw(NoWindow)
    else
      var tuesday :- ShiftDateOnly(monday, 1);
      var nights := [monday, tuesday];
      if IsUsable(dates, nights) && remaining == 0 then
        var checkOut :- ShiftDateOnly(monday, 2);
        Ok(StayWindow(monday, checkOut, nights))
      else
        var next :- ShiftDateOnly(monday, 7);
        WalkMondays(dates, next, if IsUsable(dates, nights) then remaining - 1 else remaining, weeks - 1)
  }

  /** What `StayWindowAt` allots to an index. */
  function AllottedWindow(dates: SeededDates, index: int): Outcome<StayWindow> {
    var monday :- FirstMonday(dates);
    WalkMondays(dates, monday, index, MAX_MONDAYS)
  }

  /** The (index + 1)th usable Monday at least three weeks from the run date, for two nights. */
  method StayWindowAt(dates: SeededDates, index: int) returns (window: Outcome<StayWindow>)
    ensures window == AllottedWindow(dates, index)
  {
    hide ShiftDateOnly, DayOfWeek, IsUsable;
    var earliest :- ShiftDateOnly(dates.today, FIRST_WINDOW_OFFSET_DAYS);
    var weekday :- DayOfWeek(earliest);
    var monday :- ShiftDateOnly(earliest, (8 - weekday) % 7);
    var remaining := index;
    for step := 0 to MAX_MONDAYS
      invariant AllottedWindow(dates, index) == WalkMondays(dates, monday, remaining, MAX_MONDAYS - step)
    {
      var tuesday :- ShiftDateOnly(monday, 1);
      var nights := [monday, tuesday];
      var usable := IsUsable(dates, nights);
      if usable {
        if remaining == 0 {
          var checkOut :- ShiftDateOnly(monday, 2);
          return Ok(StayWindow(monday, checkOut, nights));
        }
        remaining := remaining - 1;
      }
      monday :- ShiftDateOnly(monday, 7);
    }
    return Throw(NoWindow);
  }

  const RETRY_WINDOW_STRIDE := 16

  method StayWindowForAttempt(dates: SeededDates, index: int, retry: int) returns (window: Outcome<StayWindow>)
    ensures window == AllottedWindow(dates, index + 16 * retry)
  {
    hide AllottedWindow;
    window := StayWindowAt(dates, index + retry * RETRY_WINDOW_STRIDE);
  }

  // ---------- the linked move ----------

  function StayAt(monday: string, offset: int): Outcome<StayWindow> {
    var checkIn :- ShiftDateOnly(monday, offset);
    var checkOut :- ShiftDateOnly(checkIn, 2);
    var second :- ShiftDateOnly(checkIn, 1);
    Ok(StayWindow(checkIn, checkOut, [checkIn, second]))
  }

  /** The linked move's first usable pair of stays, from `week` weeks after the anchor. */
  function LinkedPairFrom(dates: SeededDates, anchor: string, week: nat): Outcome<(StayWindow, StayWindow)>
    decreases 200 - week
  {
    if week >= 200 then Throw(NoWindow)
    else
      var start :- StayAt(anchor, 3 + week * 7);
      var target :- StayAt(anchor, 10 + week * 7);
      if IsUsable(dates, start.nights) && IsUsable(dates, target.nights) then Ok((start, target))
      else LinkedPairFrom(dates, anchor, week + 1)
  }

  function LinkedMove(dates: SeededDates, anchor: string): Outcome<(StayWindow, StayWindow)> {
    var weekday :- DayOfWeek(anchor);
    if weekday != 1 then Throw(BadArgument) else LinkedPairFrom(dates, anchor, 0)
  }

  /** Two Thursday-to-Saturday stays a week apart, the earliest usable pair after a Monday check-in. */
  method LinkedMoveStayWindows(dates: SeededDates, anchor: string) returns (pair: Outcome<(StayWindow, StayWindow)>)
    ensures pair == LinkedMove(dates, anchor)
  {
    hide ShiftDateOnly, DayOfWeek, IsUsable, StayAt;
    var weekday :- DayOfWeek(anchor);
    if weekday != 1 {
      return Throw(BadArgument);
    }
    for week := 0 to 200
      invariant LinkedMove(dates, anchor) == LinkedPairFrom(dates, anchor, week)
    {
      var start :- StayAt(anchor, 3 + week * 7);
      var target :- StayAt(anchor, 10 + week * 7);
      if IsUsable(dates, start.nights) && IsUsable(dates, target.nights) {
        return Ok((start, target));
      }
    }
    return Throw(NoWindow);
  }

  // ---------- past windows ----------

  const PAST_RETRY_OFFSETS_DAYS: seq<int> := [-7, -11, -15]

  predicate OverlapsBlockedRange(checkIn: string, checkOut: string, blocked: seq<(string, string)>) {
    exists i :: 0 <= i < |blocked| && Less(checkIn, blocked[i].1) && Less(blocked[i].0, checkOut)
  }

  /** The past two-night stay of one Playwright attempt. */
  function PastStayWindowForAttempt(dates: SeededDates, retry: int, blocked: seq<(string, string)>): Outcome<StayWindow> {
    if !(0 <= retry <= 2) then Throw(BadArgument)
    else
      var checkIn :- ShiftDateOnly(dates.today, PAST_RETRY_OFFSETS_DAYS[retry]);
      var checkOut :- ShiftDateOnly(checkIn, 2);
      var second :- ShiftDateOnly(checkIn, 1);
      if OverlapsBlockedRange(checkIn, checkOut, blocked) || !IsWindowInSeededSeason(dates, [checkIn, second])
      then Throw(NoWindow)
      else Ok(StayWindow(checkIn, checkOut, [checkIn, second]))
  }

  function Least(offsets: seq<int>): int
    requires offsets != []
  {
    if |offsets| == 1 then offsets[0]
    else var rest := Least(offsets[1..]); if offsets[0] < rest then offsets[0] else rest
  }

  function Greatest(offsets: seq<int>): int
    requires offsets != []
  {
    if |offsets| == 1 then offsets[0]
    else var rest := Greatest(offsets[1..]); if offsets[0] > rest then offsets[0] else rest
  }

  const OLDEST_LEFTOVER := Least(PAST_RETRY_OFFSETS_DAYS) - 1
  const NEWEST_LEFTOVER := Greatest(PAST_RETRY_OFFSETS_DAYS) + 1

  lemma LeftoverBand()
    ensures OLDEST_LEFTOVER == -16 && NEWEST_LEFTOVER == -6
  {
    assert Least([-15]) == -15 && Least([-11, -15]) == -15 && Greatest([-15]) == -15 && Greatest([-11, -15]) == -11;
    assert PAST_RETRY_OFFSETS_DAYS[1..] == [-11, -15] && PAST_RETRY_OFFSETS_DAYS[1..][1..] == [-15];
  }

  /** The days swept for stays of earlier runs: from a day before the oldest attempt's check-in to a day after the newest's. */
  method PastStayLeftoverCheckIns(dates: SeededDates) returns (checkIns: Outcome<seq<string>>)
    ensures checkIns.Ok? ==> |checkIns.value| == 11
    ensures checkIns.Ok? ==> forall i :: 0 <= i < 11 ==> Ok(checkIns.value[i]) == ShiftDateOnly(dates.today, -16 + i)
    ensures checkIns.Throw? ==> exists i :: -16 <= i <= -6 && ShiftDateOnly(dates.today, i).Throw?
  {
    hide ShiftDateOnly;
    LeftoverBand();
    var found: seq<string> := [];
    var offset := OLDEST_LEFTOVER;
    while offset <= NEWEST_LEFTOVER
      invariant OLDEST_LEFTOVER <= offset <= NEWEST_LEFTOVER + 1 && |found| == offset - OLDEST_LEFTOVER
      invariant forall i :: 0 <= i < |found| ==> Ok(found[i]) == ShiftDateOnly(dates.today, OLDEST_LEFTOVER + i)
    {
      var checkIn :- ShiftDateOnly(dates.today, offset);
      found := found + [checkIn];
      offset := offset + 1;
    }
    return Ok(found);
  }
}

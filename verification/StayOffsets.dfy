/**
 * Which Mondays the fixtures leave usable, as offsets from the run date. Everything here depends on
 * the run date through its weekday alone, so every count is made once for each of seven weekdays.
 */
module StayOffsets {
  import opened Fixtures

  const FIRST_WINDOW_OFFSET_DAYS := 21
  const MAX_MONDAYS := 200

  /** Both nights from `offset` on lie in one seeded season. */
  predicate InSeasonOffset(offset: int) {
    (-90 <= offset && offset + 1 <= 239) || (270 <= offset && offset + 1 <= HORIZON)
  }

  predicate UsableOffset(weekday: int, offset: int) {
    !ReservedOffset(weekday, offset) && !ReservedOffset(weekday, offset + 1) && InSeasonOffset(offset)
  }

  /** Offset of the Monday `step` weeks after the first one far enough ahead. */
  function StepOffset(weekday: int, step: int): int {
    MondayOffset(weekday, FIRST_WINDOW_OFFSET_DAYS) + 7 * step
  }

  /** How many of the first `steps` Mondays are usable. */
  function UsableCount(weekday: int, steps: nat): (count: nat)
    ensures count <= steps
  {
    if steps == 0 then 0
    else UsableCount(weekday, steps - 1) + (if UsableOffset(weekday, StepOffset(weekday, steps - 1)) then 1 else 0)
  }

  /** Usable Mondays in all: how many indices the allocator can serve on a run date of this weekday. */
  function UsableTotal(weekday: int): nat
    requires 0 <= weekday < 7
  {
    [72, 69, 65, 65, 68, 69, 69][weekday]
  }

  // ---------- the tables agree with the fixtures ----------

  /** The seeded nights from the run date on, written out. */
  predicate HeldNight(offset: int) {
    || 30 <= offset < 32 || 33 <= offset < 38 || 40 <= offset < 42 || 45 <= offset < 47 || 55 <= offset < 57
    || 60 <= offset < 63 || 65 <= offset < 67 || 90 <= offset < 92 || 97 <= offset < 99 || 104 <= offset < 106
    || 111 <= offset < 113 || 150 <= offset < 152 || 300 <= offset < 302 || 310 <= offset < 312
    || 320 <= offset < 322 || offset == 340 || offset == 360 || offset == 362 || offset == 364
  }

  lemma WrittenNightsAreHeld(offset: int)
    requires HeldNight(offset)
    ensures HeldByDay(DAY_WINDOWS, offset)
  {
    var w := DAY_WINDOWS;
    assert w[1] == (30, 2) && w[10] == (33, 2) && w[2] == (35, 3) && w[8] == (40, 2) && w[9] == (45, 2);
    assert w[14] == (55, 2) && w[15] == (60, 3) && w[16] == (65, 2) && w[25] == (90, 2) && w[26] == (97, 2);
    assert w[27] == (104, 2) && w[28] == (111, 2) && w[12] == (150, 1) && w[13] == (151, 1);
    assert w[17] == (300, 2) && w[18] == (310, 2) && w[19] == (320, 2) && w[20] == (340, 1);
    assert w[21] == (360, 1) && w[22] == (362, 1) && w[23] == (364, 1);
  }

  lemma HeldNightsAreWritten(offset: int)
    requires offset >= 0 && HeldByDay(DAY_WINDOWS, offset)
    ensures HeldNight(offset)
  {
  }

  lemma HeldNights(offset: int)
    requires offset >= 0
    ensures HeldByDay(DAY_WINDOWS, offset) <==> HeldNight(offset)
  {
    hide HeldNight, HeldByDay;
    if HeldNight(offset) {
      WrittenNightsAreHeld(offset);
    }
    if HeldByDay(DAY_WINDOWS, offset) {
      HeldNightsAreWritten(offset);
    }
  }

  /** The seeded nights placed on Mondays, written out from the first Monday on or after the run date. */
  predicate HeldMondayNight(weekday: int, offset: int) {
    var fromMonday := offset - MondayOffset(weekday, 0);
    fromMonday in {56, 57, 63, 64, 70, 71}
  }

  lemma HeldMondays(weekday: int, offset: int)
    ensures HeldOnMonday(weekday, MONDAY_WINDOWS, offset) <==> HeldMondayNight(weekday, offset)
  {
    var m := MONDAY_WINDOWS;
    assert m[0] == 63 && m[1] == 70 && m[2] == 56;
    assert forall weeks :: MondayOffset(weekday, 7 * weeks) == MondayOffset(weekday, 0) + 7 * weeks;
    assert MondayOffset(weekday, 63) == MondayOffset(weekday, 7 * 9);
    assert MondayOffset(weekday, 70) == MondayOffset(weekday, 7 * 10);
    assert MondayOffset(weekday, 56) == MondayOffset(weekday, 7 * 8);
  }

  /** `UsableOffset` at a step, on the written-out tables; `first` is the first Monday's offset. */
  predicate PlainUsable(first: int, step: int) {
    var offset := first + FIRST_WINDOW_OFFSET_DAYS + 7 * step;
    && !HeldNight(offset) && !HeldNight(offset + 1)
    && 7 * step + 21 !in {56, 57, 63, 64, 70, 71} && 7 * step + 22 !in {56, 57, 63, 64, 70, 71}
    && InSeasonOffset(offset)
  }

  lemma PlainUsableExact(weekday: int, step: int)
    requires 0 <= weekday < 7 && 0 <= step
    ensures UsableOffset(weekday, StepOffset(weekday, step)) <==> PlainUsable((8 - weekday) % 7, step)
  {
    hide HeldByDay, HeldOnMonday, HeldNight, InSeasonOffset;
    var offset := StepOffset(weekday, step);
    HeldNights(offset);
    HeldMondays(weekday, offset);
    HeldNights(offset + 1);
    HeldMondays(weekday, offset + 1);
  }

  // ---------- counting ----------

  predicate Increasing(steps: seq<int>) {
    forall i :: 0 <= i < |steps| - 1 ==> steps[i] < steps[i + 1]
  }

  /** How many of a list lie below `bound`. */
  function Below(steps: seq<int>, bound: int): nat {
    if steps == [] then 0
    else Below(steps[..|steps| - 1], bound) + (if steps[|steps| - 1] < bound then 1 else 0)
  }

  lemma {:induction false} BelowStep(steps: seq<int>, bound: int)
    requires Increasing(steps)
    ensures Below(steps, bound + 1) == Below(steps, bound) + (if bound in steps then 1 else 0)
    ensures steps != [] && steps[|steps| - 1] < bound ==> bound !in steps && Below(steps, bound) == |steps|
    ensures steps == [] || steps[0] >= bound ==> Below(steps, bound) == 0
  {
    if steps != [] {
      var front := steps[..|steps| - 1];
      BelowStep(front, bound);
      assert steps == front + [steps[|steps| - 1]];
    }
  }

  /** `blocked` lists the steps before 83 that are not usable; what is left is counted. */
  lemma {:induction false} CountBelow(weekday: int, first: int, blocked: seq<int>, steps: nat)
    requires 0 <= weekday < 7 && first == (8 - weekday) % 7 && steps <= 83
    requires blocked != [] && blocked[0] >= 0 && Increasing(blocked)
    requires forall step | 0 <= step < 83 :: PlainUsable(first, step) <==> step !in blocked
    ensures UsableCount(weekday, steps) == steps - Below(blocked, steps)
  {
    hide UsableOffset, StepOffset, PlainUsable, Increasing;
    if steps == 0 {
      BelowStep(blocked, 0);
    } else {
      CountBelow(weekday, first, blocked, steps - 1);
      PlainUsableExact(weekday, steps - 1);
      BelowStep(blocked, steps - 1);
    }
  }

  lemma CountByBlocked(weekday: int, first: int, blocked: seq<int>)
    requires 0 <= weekday < 7 && first == (8 - weekday) % 7
    requires blocked != [] && 0 <= blocked[0] && blocked[|blocked| - 1] < 83 && Increasing(blocked)
    requires forall step | 0 <= step < 83 :: PlainUsable(first, step) <==> step !in blocked
    ensures UsableCount(weekday, 83) == 83 - |blocked|
  {
    hide UsableCount, PlainUsable, Below, Increasing;
    CountBelow(weekday, first, blocked, 83);
    BelowStep(blocked, 83);
  }

  lemma SundayRunDates()
    ensures UsableCount(0, 83) == 72
  {
    hide UsableCount;
    CountByBlocked(0, 1, [1, 2, 5, 6, 7, 31, 32, 33, 34, 35, 41]);
  }

  lemma MondayRunDates()
    ensures UsableCount(1, 83) == 69
  {
    hide UsableCount;
    CountByBlocked(1, 0, [2, 5, 6, 7, 10, 11, 12, 13, 32, 33, 34, 35, 40, 49]);
  }

  lemma TuesdayRunDates()
    ensures UsableCount(2, 83) == 65
  {
    hide UsableCount;
    CountByBlocked(2, 6, [1, 2, 4, 5, 6, 7, 9, 10, 11, 12, 31, 32, 33, 34, 39, 42, 48, 82]);
  }

  lemma WednesdayRunDates()
    ensures UsableCount(3, 83) == 65
  {
    hide UsableCount;
    CountByBlocked(3, 5, [1, 2, 4, 5, 6, 7, 9, 10, 11, 12, 31, 32, 33, 34, 39, 42, 48, 82]);
  }

  lemma ThursdayRunDates()
    ensures UsableCount(4, 83) == 68
  {
    hide UsableCount;
    CountByBlocked(4, 4, [1, 2, 3, 5, 6, 7, 18, 31, 32, 33, 34, 42, 45, 48, 82]);
  }

  lemma FridayRunDates()
    ensures UsableCount(5, 83) == 69
  {
    hide UsableCount;
    CountByBlocked(5, 3, [1, 3, 5, 6, 7, 18, 31, 32, 33, 34, 35, 41, 45, 48]);
  }

  lemma SaturdayRunDates()
    ensures UsableCount(6, 83) == 69
  {
    hide UsableCount;
    CountByBlocked(6, 2, [1, 2, 3, 5, 6, 7, 18, 31, 32, 33, 34, 35, 41, 48]);
  }

  lemma {:induction false} CountPastSeasons(weekday: int, steps: nat)
    requires 83 <= steps
    ensures UsableCount(weekday, steps) == UsableCount(weekday, 83)
  {
    hide ReservedOffset;
    if steps > 83 {
      CountPastSeasons(weekday, steps - 1);
    }
  }

  /**
   * How many Mondays a run date offers in the 200 the allocator walks: 72 from a Sunday, 69, 65, 65,
   * 68, 69 and 69 from the days after it. So indices 0 to 64 exist on every run date, and 65 does not.
   */
  lemma UsableTotals(weekday: int)
    requires 0 <= weekday < 7
    ensures UsableCount(weekday, MAX_MONDAYS) == UsableTotal(weekday) >= 65
    ensures UsableTotal(2) == 65
  {
    hide UsableCount;
    CountPastSeasons(weekday, MAX_MONDAYS);
    match weekday {
      case 0 => SundayRunDates();
      case 1 => MondayRunDates();
      case 2 => TuesdayRunDates();
      case 3 => WednesdayRunDates();
      case 4 => ThursdayRunDates();
      case 5 => FridayRunDates();
      case _ => SaturdayRunDates();
    }
  }

  lemma {:induction false} CountMonotone(weekday: int, fewer: nat, more: nat)
    requires fewer <= more
    ensures UsableCount(weekday, fewer) <= UsableCount(weekday, more)
    decreases more
  {
    hide UsableOffset, StepOffset;
    if fewer < more {
      CountMonotone(weekday, fewer, more - 1);
    }
  }
}

# Alpine club bookings: verified models

Dafny models of five parts of the booking system, each proved over every input, every run date or every
interleaving. Verify with `dafny verify dfyconfig.toml`.

1. **The end-to-end suite's dates.** Every spec books real stays on windows computed from the day the suite
   runs on. `CivilCalendar` and `IsoDates` give `YYYY-MM-DD` texts and real Gregorian days (the ECMA-262
   day-number arithmetic of section 21.4.1, and the club's own closed forms). `Fixtures` holds the seeded
   windows and seasons, `StayOffsets` and `StayDates` the allocators, `StayGuarantees` what they promise,
   `CalendarWalk` and `StayReach` the calendar the specs click through.
2. **The agent-context script.** `ImportGraph` (edges both ways, bounded breadth-first search), `Manifest`
   (a document that states its own length) and `PrismaModels` (a brace-matching reader).
3. **Concurrent jobs.** `CronGuards` (overlap flags), `DraftCleanup` (scan, sorted locks, re-scan, delete,
   beside transactions that confirm or edit the same drafts) and `Contention` (the capacity lock and the
   oracle of its load scenario).
4. **The proxy's cache and cookie decisions.** `Proxy`, with `Addresses` for what the characters of an address
   alone decide, `SignedInHint`, `HintConvergence`, and `FamilyInvite` for the invitation's return address;
   `CookieLines` holds the serialised line both cookies share.
5. **The canonical form schemas are compared by.** `SchemaForm`.

Loops and objects that change state are methods and classes with invariants, each proved against a function
or a predicate; the lemmas then say what that function means. Protocols are state machines over their atomic
steps, and their theorems quantify over every finite run. `Outcomes` and `Text` hold what is shared: thrown
errors as values, JavaScript's string order, decimal numbers, split, join and trim.

## Results that differ from the repository's own words

- `e2e/helpers/stay-dates.ts:266-269` gives 66 to 73 usable Mondays and at least 2 Mondays of headroom above
  index 63. The windows listed leave 72, 69, 65, 65, 68, 69 and 69 for run dates from Sunday to Saturday: index
  63 is always served, with at least 1 Monday of headroom (`StayOffsets.UsableTotals`).
- Shifts compose only while the date in between has a four-digit year, or is the first of its month
  (`IsoDates.ShiftComposesExactly`; `IsoDates.ShiftForgets`). So the allocation serves indices 0 to 63 exactly
  on run dates whose last seeded season still ends in a four-digit year (`StayGuarantees.HorizonIsExact`;
  `StayGuarantees.FirstFailingRunDate`).
- A calendar heading reads back as its own month exactly from the year 1000 (`CalendarWalk.HeadingRoundTrip`),
  so the walk to a spec's stay succeeds exactly on run dates from then on (`StayReach.SelectStay`;
  `StayReach.EarlyRunDate`).
- The leftover sweep covers every check-in that can block an attempt, and two that cannot, 13 and 9 days back
  (`StayGuarantees.LeftoverBandCovers`).
- A job's overlap flag is set exactly while a body is in flight only until an opening check-in throws: that call
  stands between setting the flag and the `try` that would clear it, so from then on no tick is ever admitted
  (`CronGuards.FlagTracksBody`, `CronGuards.StuckForGood`; `CronGuards.OpeningThrowSticks`).
- A tick records one outcome unless the check-in that closes its verdict throws, which makes it record a failure
  as well (`CronGuards.RecordsCounted`; `CronGuards.ClosingThrowRecordsTwice`); it closes with exactly what it
  recorded if and only if none of its closing check-ins throws (`CronGuards.OneOutcomeEach`).
- The contention oracle does not fail every run that drops a hold or books past capacity. It passes exactly when
  as many attempts ended without a bed as there is no bed for (`Contention.OracleExact`). So it passes a dropped
  hold whose bed a later attempt takes (`Contention.DroppedHoldHides`), and an attempt booked past capacity
  beside a dropped hold or losing its own (`Contention.BothFaultsHide`, `Contention.OverbookedDropHides`); with a
  bed for everybody, or with every hold kept, it misses neither.
- The calendar walk's key has no leading zeros, so to a target before the year 1000 the walk can click away from
  it: `"1000-01" < "999-12"`. It never arrives there, and for the years 1 to 99 can report arrival in 1901 to
  1999 (`CalendarWalk.WalkCalendarToMonth`, `CalendarWalk.EarlyTargetMisleads`,
  `CalendarWalk.EarlyTargetArrivesWrongly`).
- An import between two data-pruning steps that fails keeps every later step from running
  (`CronGuards.RunDataPruning`).

## Model

| member | source | states |
|---|---|---|
| CivilCalendar.KernelCountsDays | src/lib/club-time/calendar-date.ts:88-100 | The closed form counts, for every real date of any year, exactly the days ECMA-262 counts from leap years and month lengths. |
| CivilCalendar.KernelInverse | src/lib/club-time/calendar-date.ts:103-128 | The inverse closed form names a real date with exactly the given day number, for every integer. |
| CivilCalendar.DayNumberOrder | src/lib/club-time/calendar-date.ts:353-364 | Day numbers order real dates as year, month and day do, and are equal only for equal dates. |
| CivilCalendar.CivilOfDayNumber | src/lib/club-time/calendar-date.ts:88-128 | Naming the day of a real date's number gives that date back: with the inverse, a bijection. |
| IsoDates.ParseOfIsoDay | prisma/e2e-fixtures.ts:48-52 | Reading a written day back gives that day in four-digit years, and otherwise the first of its month or nothing: the ten characters kept of a longer text hold no day. |
| IsoDates.IsoDayOfParse | prisma/e2e-fixtures.ts:48-52 | Every text naming a real date is the text written for the day it names. |
| IsoDates.IsoDayOrder | e2e/helpers/stay-dates.ts:63-67 | Over four-digit years, string order of the texts is calendar order, so the season comparisons compare dates. |
| IsoDates.LongYearsSortFirst | e2e/helpers/stay-dates.ts:63-67 | A text outside the four-digit years sorts before every date: such a season end holds no night. |
| IsoDates.ShiftByZero | prisma/e2e-fixtures.ts:48-52 | Shifting any real date by no days changes nothing. |
| IsoDates.ShiftComposesExactly | prisma/e2e-fixtures.ts:48-52 | Shifting by a and then by every b is shifting by a + b if and only if the date between has a four-digit year or is the first of its month. |
| IsoDates.ShiftForgets | prisma/e2e-fixtures.ts:48-52 | The failing input: two days on from `9999-12-31` and two days back is `9999-12-30`. |
| IsoDates.FixtureDateCheckIsExact | prisma/e2e-fixtures.ts:71-80 | The run-date check accepts exactly the strings naming a real date, whatever the engine makes of the others. |
| Fixtures.WeekdayExact | e2e/helpers/stay-dates.ts:184-186 | The weekday of a text naming a real date is the days from Sunday 4 January 1970 to that date, modulo 7. |
| Fixtures.WeekdaysFollow | e2e/helpers/stay-dates.ts:184-186 | `1970-01-01` is a Thursday, 4, and the weekday of the next day is one more, modulo 7. |
| Fixtures.ReservedExactly | e2e/helpers/stay-dates.ts:44-46 | The fixtures load on every run date inside the horizon, and a later night is reserved in them exactly when its offset from the run date is one of its weekday's reserved offsets. |
| Fixtures.RelMondayWindowSpan | prisma/e2e-fixtures.ts:109-124 | A Monday-anchored window starts on the first real Monday, a whole number of weeks from 5 January 1970, at least so many days ahead, ends two days later and holds exactly those two nights. |
| Fixtures.RelWindowSpan | prisma/e2e-fixtures.ts:89-103 | A window placed by days starts so many days from the run date, ends as many nights later, and holds each night between. |
| Fixtures.FixturesLoad | prisma/e2e-fixtures.ts:71-142 | The fixtures load on every run date with a four-digit year, whatever becomes of their later dates. |
| StayOffsets.UsableTotals | e2e/helpers/stay-dates.ts:193-226 | Every weekday leaves at least 65 usable Mondays out of the 200 walked, after both seasons and every reserved night; Tuesday exactly 65. |
| StayDates.StayWindowAt | e2e/helpers/stay-dates.ts:193-226 | The Monday loop over date texts returns, or throws, exactly what the allotment function says. |
| StayDates.StayWindowForAttempt | e2e/helpers/stay-dates.ts:295-297 | Each attempt of a spec gets the window of the index 16 further on per retry. |
| StayDates.LinkedMoveStayWindows | e2e/helpers/stay-dates.ts:232-256 | The week loop returns, or throws, exactly what the linked-move search says, a check-in other than a Monday included. |
| StayDates.PastStayLeftoverCheckIns | e2e/helpers/stay-dates.ts:171-179 | The loop lists every day of the band once, oldest first, and throws only if some day of it has no date. |
| StayGuarantees.FirstMondayExact | e2e/helpers/stay-dates.ts:193-196 | The walk starts on the first real Monday 21 to 27 days after the run date. |
| StayGuarantees.FirstMondayOfJune | e2e/helpers/stay-dates.ts:193-196 | From Monday `2026-06-01` it starts on Monday `2026-06-22`. |
| StayGuarantees.LoadedSeasons | prisma/e2e-fixtures.ts:139-142 | The two seasons run from 90 days before to 239 days after the run date, winter, and from 270 to 599 days after it, summer. |
| StayGuarantees.AllotmentExact | e2e/helpers/stay-dates.ts:193-226 | On every run date exactly the indices below the weekday's total are served, each with the usable Monday that has exactly that many usable ones before it, so many days ahead as the weekday alone decides; every other index throws. |
| StayGuarantees.AllotmentByWeekday | e2e/helpers/stay-dates.ts:193-226 | On any two run dates of one weekday the same indices are served, each the same number of days ahead. |
| StayGuarantees.AllotmentsApart | e2e/helpers/stay-dates.ts:193-226 | Windows rise strictly with the index, and two indices share a night only if they are equal. |
| StayGuarantees.AllotmentClear | e2e/helpers/stay-dates.ts:74-87 | Every window is the two nights from a future real Monday, holds no seeded night, lies in exactly one season, and `seasonForWindow` names that one. |
| StayGuarantees.AttemptsApart | e2e/helpers/stay-dates.ts:280-297 | Two attempts share a night exactly when base + 16 * retry agree, so never for different bases or retries below 16. |
| StayGuarantees.HorizonIsExact | e2e/helpers/stay-dates.ts:257-297 | On every run date with a four-digit year the fixtures load, and indices 0 to 63 all get windows of their own if and only if the run date is at least 599 days before the end of those years. |
| StayGuarantees.FirstFailingRunDate | e2e/helpers/stay-dates.ts:257-297 | The first failing run date, `9998-05-12`: the fixtures load and two of the indices fail or share a window. |
| StayGuarantees.LinkedMoveNeedsMonday | e2e/helpers/stay-dates.ts:236-238 | The search refuses its check-in as a bad argument exactly when that is no real Monday. |
| StayGuarantees.LinkedMoveExact | e2e/helpers/stay-dates.ts:232-256 | From an allotted Monday the search returns the earliest week both of whose stays, seven days apart, are usable, and throws exactly when there is none. |
| StayGuarantees.LinkedMoveApart | e2e/helpers/stay-dates.ts:228-256 | Neither stay of the pair shares a night with any allotted window, nor with the other. |
| StayGuarantees.LinkedMoveServed | e2e/helpers/stay-dates.ts:232-256 | The search succeeds from the window of every index 0 to 63, on every run date inside the horizon. |
| StayGuarantees.PastWindowExact | e2e/helpers/stay-dates.ts:107-133 | Each of the three attempts gets its two nights 7, 11 or 15 days back, and throws only if they overlap a blocked range: the season never refuses them. |
| StayGuarantees.BlockedExactly | e2e/helpers/stay-dates.ts:122-124 | Two nights overlap the blocked ranges, compared as strings, exactly when one of the nights is a day of some range. |
| StayGuarantees.PastWindowsApart | e2e/helpers/stay-dates.ts:95-133 | The three past windows are pairwise free of shared nights. |
| StayGuarantees.LeftoverBandCovers | e2e/helpers/stay-dates.ts:134-179 | A two-night stay shares a night with some attempt's past window if and only if its check-in is in the swept band and is not 13 or 9 days back. |
| CalendarWalk.HeadingRead | e2e/helpers/calendar-navigation.ts:27-38 | A shown heading reads back as the month of the year it shows exactly when that year has four digits, and is refused otherwise. |
| CalendarWalk.HeadingsByName | e2e/helpers/calendar-navigation.ts:27-38 | Each of the twelve month names, before any four-digit year, reads back as that year and its own number, `January` as 01 to `December` as 12. |
| CalendarWalk.HeadingRoundTrip | e2e/helpers/calendar-navigation.ts:12-24 | The heading expected for a date reads back as that date's month if and only if its year is 1000 or later. |
| CalendarWalk.KeyOrder | e2e/helpers/calendar-navigation.ts:129-191 | Between four-digit years month keys are ordered, and equal, as the months are, so the walk's direction is right. |
| CalendarWalk.EarlyKey | e2e/helpers/calendar-navigation.ts:12-15 | The key of a target before the year 1000, which has no leading zeros, is no four-digit month's key, and sorts above exactly the months before one wrong goal: the January of its year with zeros appended. |
| CalendarWalk.EarlyArrival | e2e/helpers/calendar-navigation.ts:18-24 | A four-digit month shows such a target's expected heading if and only if the target's year is 1 to 99 and the month is that of 1901 to 1999. |
| CalendarWalk.WalkCalendarToMonth | e2e/helpers/calendar-navigation.ts:129-191 | From a four-digit month, to a target from the year 1000 on, the walk returns exactly the month distance if the bound allows it and else fails having moved the bound's clicks nearer, never past; to an earlier target it makes for the wrong goal, spends every click or walks off the readable years, and reports arrival if and only if it ends on the month of 1901 to 1999 with the same heading. Targets of the years 100 to 999 always throw; bad dates and unreadable headings are refused unmoved; arrival always shows the expected heading. |
| CalendarWalk.EarlyTargetMisleads | e2e/helpers/calendar-navigation.ts:146-148 | The failing input: from January 1000 to December 999, one month back, a walk of one click goes to February 1000 and fails. |
| CalendarWalk.EarlyTargetArrivesWrongly | e2e/helpers/calendar-navigation.ts:18-24 | The other: from May 1985 the walk to June of the year 85 stops at June 1985 after one click and reports arrival. |
| StayReach.MonthsAhead | e2e/helpers/booking.ts:110-147 | So many days ahead cross at most one month more than they hold whole lots of 28 days, over real month lengths. |
| StayReach.SelectCalendarDay | e2e/helpers/booking.ts:130-147 | Selecting a day reaches its month exactly when it is within 24 clicks, and throws unmoved on an unreadable heading. |
| StayReach.SelectStay | e2e/helpers/booking.ts:130-147 | On every run date inside the horizon, for every index 0 to 63, the walk opened on the run date's month reaches the check-in month in at most 22 clicks and then the check-out month in at most one, if and only if the run date is in the year 1000 or later; before, it throws. |
| StayReach.EarlyRunDate | e2e/helpers/booking.ts:130-147 | A run date on which the selection throws: `0999-12-31`, where the fixtures load and index 0 is served. |
| ImportGraph.BuildTypeScriptGraph | scripts/agent-context.ts:322-352 | A file imports exactly what its specifiers resolved to, and `importers` is the exact converse of `imports`, with no empty entries. |
| ImportGraph.SelectGraphNodes | scripts/agent-context.ts:354-378 | A node is mapped to h if and only if its shortest undirected import distance from a TypeScript entry is h and h is within the depth, for any graph and depth. |
| ImportGraph.TypeScriptExact | scripts/agent-context.ts:214-216 | An entry is a TypeScript file exactly when its path is some stem and `.ts`, `.tsx`, `.mts` or `.cts`. |
| ImportGraph.DistanceExists | scripts/agent-context.ts:354-378 | A node some walk reaches has a shortest distance, no longer than that walk. |
| ImportGraph.DistancePredecessor | scripts/agent-context.ts:354-378 | A node at a positive distance has a neighbour one hop nearer. |
| ImportGraph.DistanceSymmetric | scripts/agent-context.ts:340-378 | In a built graph two files are as far from each other whichever of them is the entry. |
| Manifest.ClaimsRise | scripts/agent-context.ts:528-560 | The claimed length never falls from one attempt to the next. |
| Manifest.ClaimsStayBelow | scripts/agent-context.ts:528-560 | No claim passes a length that fits, so the loop meets the least fixed point. |
| Manifest.FifthClaimFits | scripts/agent-context.ts:531-559 | The fifth claim equals the fourth for all document sizes, well inside the ten attempts. |
| Manifest.TextIsItsLines | scripts/agent-context.ts:532-551 | Every attempt's text is the given head and then, line by line, `manifest.json`'s count, each document's count under its own name, and the combined count. |
| Manifest.BuildManifest | scripts/agent-context.ts:517-561 | The text written gives its own length as the manifest's count and, as the total, that length and the three documents' together; it ends with the lines spelled out, each document's count under its name, and is the shortest text that does. |
| PrismaModels.HeaderAtExact | scripts/agent-context.ts:442-443 | A model header is found at a place exactly when the text reads there as line start, keyword, white space, name, white space and brace, and in one way only. |
| PrismaModels.NoHeaderMissed | scripts/agent-context.ts:443-449 | Every place that reads as a header is matched, or lies inside a header matched before it. |
| PrismaModels.FindBlockEnd | scripts/agent-context.ts:450-464 | The brace loop stops just past the first place where the braces balance, with positive depth all the way there, and reports none exactly when they never close. |
| PrismaModels.InnerLinesExact | scripts/agent-context.ts:467-469 | Of a block's lines exactly those between its first and its last are read, whichever line breaks stand between them. |
| PrismaModels.FieldExact | scripts/agent-context.ts:470-471 | A line is a field exactly when, trimmed, it reads as an identifier and at least one white space. |
| PrismaModels.FieldCountExact | scripts/agent-context.ts:467-475 | The field count is the number of places whose line is a field. |
| PrismaModels.TypeNameExact | scripts/agent-context.ts:480-482 | A line names a type exactly when, trimmed, it reads as identifier, white space and a second identifier as long as it can be, and then it names that second one. |
| PrismaModels.TypeOfOwner | scripts/agent-context.ts:480-482 | The line `  owner Member` is a field and names `Member`. |
| PrismaModels.ParsePrismaModels | scripts/agent-context.ts:440-487 | It throws exactly when some header's braces never close; otherwise every named model is kept from its last header, as the block up to its balancing brace, with its relations. |
| PrismaModels.AddRelations | scripts/agent-context.ts:480-486 | A model's relations are exactly the other parsed models its field lines name. |
| CronGuards.NextKeepsInv | src/instrumentation.node.ts:1289-1318 | Every tick or resumed await keeps: one run in flight at most, the last admitted, with the flag set. |
| CronGuards.OneBodyAtATime | src/instrumentation.node.ts:370-379 | In every interleaving two runs in flight are the same run. |
| CronGuards.FlagTracksBody | src/instrumentation.node.ts:1289-1318 | The flag is set exactly while a run is in flight if and only if no opening check-in has thrown; once one has, it is set with none in flight. |
| CronGuards.OpeningThrowSticks | src/instrumentation.node.ts:1291-1304 | The failing run: one tick whose opening check-in throws leaves the flag set with nothing in flight. |
| CronGuards.StuckForGood | src/instrumentation.node.ts:1291-1304 | After an opening check-in has thrown nothing changes any more: every later tick is skipped. |
| CronGuards.OneOutcomeEach | src/instrumentation.node.ts:382-406 | A run closes with exactly what it recorded if and only if none of its closing check-ins threw; an ended run has recorded one outcome or two, and closed at most once. |
| CronGuards.RecordsCounted | src/instrumentation.node.ts:1304-1317 | An ended run has recorded exactly one outcome, or exactly two if and only if the check-in closing its verdict threw; a run in flight one less. |
| CronGuards.ClosingsCounted | src/instrumentation.node.ts:1304-1317 | An ended run has closed exactly once if and only if no check-in closing its failure threw, and else never; a run in flight has not closed. |
| CronGuards.ClosingThrowRecordsTwice | src/instrumentation.node.ts:1304-1317 | The failing run: work that succeeds, a closing check-in that throws, and a success and a failure recorded for it. |
| CronGuards.OutcomeIsTheWorks | src/instrumentation.node.ts:1305-1315 | What a run records first is what its work came to: the verdict it returned, or an error if it threw. |
| CronGuards.EveryTickAnswered | src/instrumentation.node.ts:1289-1293 | A tick is skipped exactly while the flag is set, and admitted exactly while it is clear. |
| CronGuards.AdmittedRunEnds | src/instrumentation.node.ts:1294-1318 | From every state that admits a tick it can run to its end: whatever verdict its work returns, or if it throws, it records and closes with exactly that, once, and the flag is clear. |
| CronGuards.RunDataPruning | src/instrumentation.node.ts:917-1034 | Every step before the first import that fails runs whatever became of the steps before it, and none after it; the errors are those of the failed steps in order; the job succeeds exactly when no step and no import failed. With every import loading, every step runs. |
| CronGuards.ToldInOrder | src/instrumentation.node.ts:917-948 | The tags run and the errors collected of two stretches of actions are those of the first and then those of the second; a step adds its tag, and its error under that tag if it failed, and an import nothing. |
| CronGuards.NoStepErrors | src/instrumentation.node.ts:933-948 | There are as many errors as failed steps, and none exactly when no step failed. |
| DraftCleanup.NextKeepsInv | src/instrumentation.node.ts:1136-1187 | Every step of every transaction keeps: exclusive locks, locks taken in order, and each cleanup's drafts expired and under locks of its plan. |
| DraftCleanup.BookingsKeepDependents | src/instrumentation.node.ts:1157-1176 | In every interleaving no booking in the table has lost its dependents. |
| DraftCleanup.CleanupDeletesWhatItCleared | src/instrumentation.node.ts:1168-1178 | A cleanup's commit removes dependents of exactly the bookings it deletes, changes no other, and each deleted one was an expired draft at a lodge whose lock it holds. |
| DraftCleanup.CleanupDeletesExactly | src/instrumentation.node.ts:1157-1178 | In every interleaving, the bookings a cleanup's commit removes are exactly those that were drafts with an expiry before its cut-off when it re-scanned, but for the ones withheld. |
| DraftCleanup.LoneCleanup | src/instrumentation.node.ts:1137-1178 | The plainest run: one expired draft, one cleanup, and at its end the draft and its dependents are gone. |
| DraftCleanup.ConfirmationConfirms | src/instrumentation.node.ts:1157-1160 | The confirmation beside it makes its draft a confirmed booking without an expiry and changes no other booking and no dependents. |
| DraftCleanup.ConfirmedStays | src/instrumentation.node.ts:1157-1160 | Once confirmed, a booking is never deleted by a cleanup or robbed of its dependents, whatever runs after. |
| DraftCleanup.ConfirmationCanCommit | src/instrumentation.node.ts:1157-1160 | A confirmation that re-read its draft under the locks still finds it a draft, with its dependents, when it commits. |
| DraftCleanup.NeverDeadlocked | src/instrumentation.node.ts:1146-1155 | No reachable state holds a group of transactions each waiting for a lock another of the group holds: cleanups lock lodges in sorted order, bookings the global lock before one lodge. |
| DraftCleanup.SomebodyMoves | src/instrumentation.node.ts:1146-1155 | In every reachable state with open transactions, one of them can take a step of its own other than giving up. |
| Contention.NextKeepsInv | load/scenarios/booking-contention.js:4-17 | Every step keeps: the occupancy is the baseline and the beds held, only the lock holder has looked, and without the overbooked holds the night is never over capacity. |
| Contention.EveryRunCanFinish | load/scenarios/booking-contention.js:4-17 | Every run, whatever went wrong in it, can go on without a further fault until every attempt is answered: the lock is always held by an attempt that can still act. |
| Contention.OracleExact | load/lib/contention-invariant.js:5-17 | A finished run passes, whatever was overbooked or dropped in it, if and only if the baseline fits and as many attempts ended without a bed, refused or dropped, as there is no bed for. |
| Contention.FaultlessPasses | load/README.md:25-30 | Without a fault the final occupancy is min(capacity, baseline + attempts) and the oracle passes. |
| Contention.DroppedPassesIfFull | load/lib/contention-invariant.js:1-4 | A finished run that dropped a hold passes if and only if the night is exactly full all the same. |
| Contention.DroppedHoldFails | load/lib/contention-invariant.js:1-4 | Where there is a bed for every attempt, the oracle passes if and only if no hold was dropped. |
| Contention.DroppedAfterwardsFails | load/lib/contention-invariant.js:1-4 | A hold dropped after every attempt was answered, an overbooked one or not, fails any run in which nobody was overbooked, and any run that passed before it. |
| Contention.OverbookingFails | load/README.md:25-30 | A finished run that admitted somebody past capacity passes if and only if as many ended without a bed as there is no bed for; with every hold kept the night is over capacity and it fails. |
| Contention.DroppedHoldHides | load/lib/contention-invariant.js:1-4 | A run with a dropped hold that passes: one bed, two attempts, the freed bed taken again. |
| Contention.BothFaultsHide | load/lib/contention-invariant.js:1-4 | A run with both faults that passes: one bed, two attempts, one overbooked and the other dropped. |
| Contention.OverbookedDropHides | load/lib/contention-invariant.js:1-4 | The other such run: the overbooked attempt loses its own hold, and the oracle passes. |
| Proxy.PublicWebsiteIsPageShaped | src/proxy.ts:613-616 | An address in the public website's territory is never an `/api` handler's or an asset's, so it need not be asked again. |
| Proxy.DirectiveExact | src/proxy.ts:486-617 | The two cache functions cover every page-shaped GET and HEAD between them and nothing else; the anonymous directive goes exactly to a GET of `/` without a session cookie. |
| Addresses.DirectiveByAddress | src/proxy.ts:327-340 | By the characters of the address alone: a GET of `/` without a session cookie gets the anonymous directive; every other GET and HEAD outside `/api` gets the private-only one unless it ends in one of the seven image extensions, in any letter case, and is not under an odd-cased `/API`; everything else gets none. |
| Addresses.ImagesAreLeftAlone | src/proxy.ts:249-261 | A stem, a dot and an image extension, outside `/api` in any case, gets no directive and no cookie whatever the request. |
| Addresses.OtherFilesAreDocuments | src/proxy.ts:263-277 | What follows the last dot decides: an address with any other extension is a page's, outside the handlers. |
| Addresses.ImageAddresses | src/proxy.ts:279-297 | `/LOGO.PnG` is left to the asset layer, `/API/LOGO.PnG` is a page's. |
| Addresses.WebsiteByAddress | src/lib/public-website-paths.ts:527-555 | The public website is `/` and every other address that is none of three files, no image, and under none of the listed roots nor one that starts with an underscore. |
| Addresses.SessionCookieExact | src/proxy.ts:196-197 | A session cookie's name is one of the two libraries', with or without `__Secure-`, whole or followed by a dot and digits. |
| Addresses.HintByAddress | src/proxy.ts:385-407 | The marker's cookie is written exactly on a GET of a page's address whose marker disagrees with the session, as 1 for thirty days or removed, for the whole site, never `HttpOnly`, and `Secure` exactly in production. |
| Addresses.InvitationByAddress | src/lib/family-invite-return-address.ts:561-592 | The invitation's cookie is written exactly on a GET of `/family-invite/` and 64 hexadecimal digits: removed with a session, and without one, for a document, set for two minutes to the nonce the render gets and this path; always `HttpOnly`. |
| Proxy.CookieOnlyOnPrivate | src/proxy.ts:299-318 | Whenever the proxy writes a cookie it has written one of its two private directives on that response; next to the invitation's cookie always the private-only one, outside the website's territory. |
| Proxy.InviteIsNoWebsite | src/lib/family-invite-return-address.ts:230-235 | The invitation's one address shape is page-shaped by its form, is no website address and is not `/`. |
| Proxy.SyncSignedInHint | src/proxy.ts:385-407 | One cookie is appended exactly for a page-shaped GET whose marker disagrees with the session, and none otherwise. |
| Proxy.SyncFamilyInviteReturnAddress | src/proxy.ts:416-421 | The plan's cookie is appended exactly when there is a plan. |
| Proxy.ApplyPrivateOnlyCacheControl | src/proxy.ts:655-664 | A directive already chosen stays; otherwise a GET or HEAD outside `/api` gets the private-only one and anything else none. |
| Proxy.HandleRequest | src/proxy.ts:941-1024 | A response passed through carries the cookies, directive and `Vary` these decide, and no cookie without a private directive; a gate's own response gets no cookie, keeps its directive and, outside `/api`, has one on every GET and HEAD. The render is forwarded no marker, and a nonce only together with the cookie that carries it. |
| Proxy.SetFamilyInviteReturnNonceHeader | src/lib/family-invite-return-address.ts:605-614 | A client's own copy of the nonce header is dropped whatever the plan; the render gets a nonce exactly when one was minted. |
| FamilyInvite.ParseExact | src/lib/family-invite-return-address.ts:321-367 | A cookie value reads as a nonce and a path if and only if it is what building from them writes: a round trip that accepts nothing else. |
| FamilyInvite.NoncesMatch | src/lib/family-invite-return-address.ts:378-390 | The comparison without early exit, or-ing the xor of the codes, says yes exactly for equal nonces. |
| FamilyInvite.MatchFamilyInviteReturnCookie | src/lib/family-invite-return-address.ts:392-416 | A path is honoured exactly when the cookie was built from it and from the very nonce presented. |
| FamilyInvite.MintedForOneTab | src/lib/family-invite-return-address.ts:561-592 | The cookie of a minting response is stored under its name with a value that honours the request's own path for the minted nonce, and nothing for any other. |
| SignedInHint.StripKeepsTheRest | src/proxy.ts:450-466 | The forwarded header cuts into exactly the pairs that are neither the marker nor blank, each trimmed, in their order; it is null if and only if there are none. |
| SignedInHint.StripTwice | src/proxy.ts:450-466 | Stripping what was stripped changes nothing. |
| SignedInHint.StripReadsTheSame | src/lib/signed-in-hint.ts:57-70 | The render never reads the marker from the forwarded header, and reads every other cookie as it was sent. |
| SignedInHint.FirstPairWins | src/lib/signed-in-hint.ts:57-70 | A cookie reads as the first pair that gives its name a value, and as nothing if none does. |
| HintConvergence.SentHint | src/lib/signed-in-hint.ts:57-70 | The marker is read from a header exactly when the browser holds it with its one value, wherever it stands among other cookies. |
| CookieLines.SerialisedReads | src/lib/signed-in-hint.ts:89-104 | A browser reads the serialised line back as the name and value written, and removes the cookie exactly at `Max-Age=0`. |
| CookieLines.AttributesExact | src/lib/family-invite-return-address.ts:472-489 | Beside its pair a line carries `Path=/`, `SameSite=Lax`, its `Max-Age`, `HttpOnly` and `Secure` as asked, and nothing else. |
| HintConvergence.ResponseSetsHint | src/proxy.ts:385-407 | After a page GET's cookies the marker shows exactly if the session cookie was sent; any other response leaves it. |
| HintConvergence.HintFollowsSession | src/proxy.ts:385-407 | Along every visit the marker is the session state of the latest page GET passed through, and was written exactly as often as that state changed. |
| HintConvergence.PagesConverge | src/proxy.ts:353-407 | Along a visit of page GETs the last response's marker is the session state its request carried, and the writes are the session changes, plus one if the marker began wrong. |
| SchemaForm.CleanIsItsWords | scripts/rehearse-epic-deploy.ts:450-453 | A cleaned line is its words with one space between them, so spacing and indentation are all it forgets. |
| SchemaForm.SortedOnce | scripts/rehearse-epic-deploy.ts:457 | Two sorted lists of the same lines are the same list: what the sort returns does not depend on how it sorts. |
| SchemaForm.SameFormExactly | scripts/rehearse-epic-deploy.ts:450-459 | Two schemas have the same form if and only if they hold the same lines as word sequences, each as often, blank and bare `*` lines aside. |
| SchemaForm.FormIsFinal | scripts/rehearse-epic-deploy.ts:520-528 | The form of the form is the form. |

## Left out

- The page itself: clicking, waiting, locators, and the day button of `selectCalendarDay`. The calendar is the month it shows, and a click moves it by one.
- Reading the clock and `Intl`: the run date, the month names and the shape of a heading are taken as given.
- `shiftDateOnly` on strings that are neither a real date nor a written month: what an engine's `Date` makes of them varies, and no shift here produces one.
- CalendarWalk.WalkCalendarToMonth: from a month of a year at or below -999, whose heading shows a positive year, only its error cases and what arrival shows are stated.
- StayGuarantees.PastWindowExact: run dates from day 17 of year 0, because an earlier past stay has no four-digit year.
- StayGuarantees.BlockedExactly: for blocked ranges of real, four-digit days that are not empty, which is what callers pass.
- StayGuarantees.LeftoverBandCovers: for stays in four-digit years.
- `seededBookingDates`, personas and seed content.
- The TypeScript syntax visitor, specifier resolution, nearby tests, git, hashing, publishing and rendering of `scripts/agent-context.ts`: the graph takes what each specifier resolved to.
- Manifest.BuildManifest: counts are whole numbers of any size, so the exponent notation of numbers from 10^21 on is not modelled, and everything before the manifest's own count is one given text.
- PrismaModels.ParsePrismaModels: the iteration order of the map is not modelled; the renderer sorts by name.
- Sentry, logging and the database: steps that succeed or throw. Logging is taken not to throw, and `recordCronRun` counts as recording although it swallows a failed insert.
- The Xero inbound job, which has no guard, and the finance job; the list of data-pruning steps and imports is a parameter.
- DraftCleanup.NextKeepsInv: Postgres itself. Locks are held to the end, reads see what is committed, two lodges are taken never to share a lock key, and of the transactions beside a cleanup only those that confirm or edit one draft under the global and the lodge lock are modelled.
- Bookings that change lodge, and cancellations, beside the draft cleanup.
- Contention.OracleExact: every counted attempt is made; one whose sign-in fails is caught by the scenario's other thresholds.
- The CSP, nonces, security headers, query strings and matcher patterns of the proxy, and the two gates, whose responses are parameters.
- Proxy.CookieOnlyOnPrivate: the return-path guard in front of the invitation pattern is left out, because it changes no address the pattern admits; the nonce is a parameter.
- FamilyInvite.MatchFamilyInviteReturnCookie: a query parameter given twice, of which the first value is presented, and the login hops that carry the nonce.
- HintConvergence.HintFollowsSession: a browser reads names, values and `Max-Age=0`; paths, domains and expiry by time are not modelled, and parsing the session cookie's name out of the header is the framework's.
- SchemaForm.SameFormExactly: characters are Unicode scalar values, so the order of lines with characters beyond the basic plane may differ from JavaScript's; equality of forms does not depend on it.
- CSP, payments, ledger and pricing under `src/lib`, and the audit and repair scripts.

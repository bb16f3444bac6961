/**
 * The exact occupancy oracle of the booking-contention load scenario, and the protocol it judges: many
 * attempts at one night of one lodge, each of which takes the lodge's lock, looks at the occupancy, and
 * books a bed if it saw one free.
 */
module Contention {
  import opened Outcomes

  // ---------- the oracle ----------

  datatype Verdict = Verdict(expectedFinal: int, passed: bool)

  function EvaluateContentionOccupancy(baseline: int, finalOccupied: int, capacity: int, attempts: int): Verdict {
    var expectedFinal := if capacity <= baseline + attempts then capacity else baseline + attempts;
    Verdict(expectedFinal, 0 <= baseline <= capacity && finalOccupied == expectedFinal)
  }

  // ---------- the protocol ----------

  datatype Attempt =
    | Waiting            // at the barrier, or blocked on the lodge lock
    | Locked             // holds the lock
    | Looked(seen: int)  // holds the lock and has read the occupancy
    | Won                // answered 201; its bed is held
    | Refused            // answered 409
    | Overbooked         // answered 201 although it saw no bed free: a fault
    | Dropped(overbooked: bool)  // answered 201, but its bed is not held: a fault, after the other or alone

  /** The attempts that hold a bed, and those that ended without one. */
  const HELD: set<Attempt> := {Won, Overbooked}
  const LOST: set<Attempt> := {Refused, Dropped(false), Dropped(true)}

  datatype Night = Night(occupied: int, holder: Option<nat>, attempts: seq<Attempt>)

  datatype Step =
    | Acquire(who: nat)
    | Look(who: nat)
    | Commit(who: nat)
    | Overbook(who: nat)
    | Drop(who: nat)

  predicate Next(capacity: int, s: Night, s': Night, step: Step) {
    var who := step.who;
    && who < |s.attempts|
    && match step {
         case Acquire(_) =>
           s.holder == None && s.attempts[who] == Waiting
           && s' == Night(s.occupied, Some(who), s.attempts[who := Locked])
         case Look(_) =>
           s.attempts[who] == Locked
           && s' == s.(attempts := s.attempts[who := Looked(s.occupied)])
         case Commit(_) =>
           s.attempts[who].Looked?
           && s' == if s.attempts[who].seen < capacity
                    then Night(s.occupied + 1, None, s.attempts[who := Won])
                    else Night(s.occupied, None, s.attempts[who := Refused])
         case Overbook(_) =>
           s.attempts[who].Looked? && s.attempts[who].seen >= capacity
           && s' == Night(s.occupied + 1, None, s.attempts[who := Overbooked])
         case Drop(_) =>
           s.attempts[who] in HELD
           && s' == s.(occupied := s.occupied - 1, attempts := s.attempts[who := Dropped(s.attempts[who] == Overbooked)])
       }
  }

  predicate Opens(s: Night, baseline: int) {
    s.occupied == baseline && s.holder == None && forall i :: 0 <= i < |s.attempts| ==> s.attempts[i] == Waiting
  }

  /** Every attempt has been answered. */
  predicate Complete(s: Night) {
    forall i :: 0 <= i < |s.attempts| ==> s.attempts[i] in HELD + LOST
  }

  predicate SomeDropped(attempts: seq<Attempt>) {
    Dropped(false) in attempts || Dropped(true) in attempts
  }

  /** Somebody was admitted past capacity, whether or not the bed is still held. */
  predicate SomeOverbooked(attempts: seq<Attempt>) {
    Overbooked in attempts || Dropped(true) in attempts
  }

  // ---------- counting attempts ----------

  function Count(attempts: seq<Attempt>, kinds: set<Attempt>): nat {
    if attempts == [] then 0
    else Count(attempts[..|attempts| - 1], kinds) + if attempts[|attempts| - 1] in kinds then 1 else 0
  }

  lemma {:induction false} CountAfter(attempts: seq<Attempt>, kinds: set<Attempt>, who: nat, a: Attempt)
    requires who < |attempts|
    ensures Count(attempts[who := a], kinds)
            == Count(attempts, kinds) - (if attempts[who] in kinds then 1 else 0) + (if a in kinds then 1 else 0)
  {
    var last := |attempts| - 1;
    if who < last {
      assert attempts[who := a][..last] == attempts[..last][who := a];
      CountAfter(attempts[..last], kinds, who, a);
    } else {
      assert attempts[who := a][..last] == attempts[..last];
    }
  }

  lemma {:induction false} CountBounds(attempts: seq<Attempt>, kinds: set<Attempt>)
    ensures Count(attempts, kinds) <= |attempts|
    ensures Count(attempts, kinds) == |attempts| <==> forall i :: 0 <= i < |attempts| ==> attempts[i] in kinds
    ensures Count(attempts, kinds) == 0 <==> forall i :: 0 <= i < |attempts| ==> attempts[i] !in kinds
  {
    if attempts != [] {
      var front := attempts[..|attempts| - 1];
      CountBounds(front, kinds);
      assert forall i :: 0 <= i < |front| ==> front[i] == attempts[i];
    }
  }

  lemma {:induction false} CountOfUnion(attempts: seq<Attempt>, some: set<Attempt>, others: set<Attempt>)
    requires some !! others
    ensures Count(attempts, some + others) == Count(attempts, some) + Count(attempts, others)
  {
    if attempts != [] {
      CountOfUnion(attempts[..|attempts| - 1], some, others);
    }
  }

  function Held(attempts: seq<Attempt>): nat {
    Count(attempts, HELD)
  }

  function Lost(attempts: seq<Attempt>): nat {
    Count(attempts, LOST)
  }

  // ---------- what every step keeps ----------

  /**
   * The occupancy is the baseline and the beds held; only the holder of the lock has looked, and what
   * it saw is still true unless a hold was dropped. Without the overbooked holds the night is never over
   * capacity; it is full once an attempt was refused and nobody's hold was dropped. Nobody sees a full
   * night that has a bed for every attempt.
   */
  predicate Inv(baseline: int, capacity: int, s: Night) {
    && s.occupied == baseline + Held(s.attempts)
    && baseline + Count(s.attempts, {Won}) <= capacity
    && (forall i :: 0 <= i < |s.attempts| ==> HasSeen(baseline, s, i))
    && (Refused in s.attempts || SomeOverbooked(s.attempts) ==> capacity < baseline + |s.attempts|)
    && (!SomeDropped(s.attempts) ==>
          && (Refused in s.attempts ==> s.occupied >= capacity)
          && (Overbooked in s.attempts ==> s.occupied > capacity))
  }

  /** What an attempt may be doing: it is past the barrier only with the lock, and what it saw is close to true. */
  predicate HasSeen(baseline: int, s: Night, i: nat)
    requires i < |s.attempts|
  {
    var a := s.attempts[i];
    && (a == Locked || a.Looked? ==> s.holder == Some(i))
    && (a.Looked? ==> s.occupied <= a.seen < baseline + |s.attempts|)
    && (a.Looked? && !SomeDropped(s.attempts) ==> a.seen == s.occupied)
  }

  lemma StepCounts(capacity: int, s: Night, s': Night, step: Step)
    requires Next(capacity, s, s', step)
    ensures var before, after := s.attempts[step.who], s'.attempts[step.who];
            && Held(s'.attempts) == Held(s.attempts) - (if before in HELD then 1 else 0) + (if after in HELD then 1 else 0)
            && Count(s'.attempts, {Won}) == Count(s.attempts, {Won}) - (if before == Won then 1 else 0) + (if after == Won then 1 else 0)
            && (before !in HELD ==> Held(s.attempts) < |s.attempts|)
            && Count(s.attempts, {Won}) <= Held(s.attempts)
  {
    var who := step.who;
    CountAfter(s.attempts, HELD, who, s'.attempts[who]);
    CountAfter(s.attempts, {Won}, who, s'.attempts[who]);
    CountBounds(s.attempts, HELD);
    CountOfUnion(s.attempts, {Won}, {Overbooked});
    assert HELD == {Won} + {Overbooked};
  }

  lemma NextKeepsInv(baseline: int, capacity: int, s: Night, s': Night, step: Step)
    requires Inv(baseline, capacity, s) && Next(capacity, s, s', step)
    ensures Inv(baseline, capacity, s')
  {
    hide Count, Held;
    var who := step.who;
    StepCounts(capacity, s, s', step);
    SameElsewhere(s.attempts, s'.attempts, who);
    assert s.attempts[who] in s.attempts && s'.attempts[who] in s'.attempts && HasSeen(baseline, s, who);
    forall i | 0 <= i < |s'.attempts| ensures HasSeen(baseline, s', i) {
      assert HasSeen(baseline, s, i);
    }
  }

  /** Two lists of attempts that differ at one place at most list the same others. */
  lemma SameElsewhere(before: seq<Attempt>, after: seq<Attempt>, who: nat)
    requires who < |before| && |after| == |before| && after == before[who := after[who]]
    ensures forall a :: a in after && a != after[who] ==> a in before
    ensures forall a :: a in before && a != before[who] ==> a in after
  {
    forall a | a in before && a != before[who] ensures a in after {
      var i :| 0 <= i < |before| && before[i] == a;
      assert after[i] == a;
    }
  }

  // ---------- every run ----------

  predicate IsRun(baseline: int, capacity: int, run: seq<Night>, steps: seq<Step>) {
    && |run| == |steps| + 1 && Opens(run[0], baseline)
    && forall i :: 0 <= i < |steps| ==> Next(capacity, run[i], run[i + 1], steps[i])
  }

  lemma {:induction false} RunKeepsInv(baseline: int, capacity: int, run: seq<Night>, steps: seq<Step>, i: nat)
    requires IsRun(baseline, capacity, run, steps) && i < |run| && baseline <= capacity
    ensures Inv(baseline, capacity, run[i]) && |run[i].attempts| == |run[0].attempts|
  {
    if i == 0 {
      CountBounds(run[0].attempts, HELD);
      CountBounds(run[0].attempts, {Won});
    } else {
      hide Inv;
      RunKeepsInv(baseline, capacity, run, steps, i - 1);
      assert Next(capacity, run[i - 1], run[i], steps[i - 1]);
      NextKeepsInv(baseline, capacity, run[i - 1], run[i], steps[i - 1]);
    }
  }

  lemma HeldOrLost(s: Night)
    requires Complete(s)
    ensures Held(s.attempts) + Lost(s.attempts) == |s.attempts|
    ensures Lost(s.attempts) == 0 <==> Refused !in s.attempts && !SomeDropped(s.attempts)
  {
    CountOfUnion(s.attempts, HELD, LOST);
    CountBounds(s.attempts, HELD + LOST);
    CountBounds(s.attempts, LOST);
  }

  /** The attempts there is no bed for: those beyond the capacity. */
  function Surplus(baseline: int, capacity: int, attempts: nat): int {
    if baseline + attempts <= capacity then 0 else baseline + attempts - capacity
  }

  /**
   * What the oracle says of every finished run, whatever went wrong in it: it passes exactly when the
   * baseline fits and as many attempts ended without a bed as there is no bed for.
   */
  lemma OracleExact(baseline: int, capacity: int, run: seq<Night>, steps: seq<Step>)
    requires IsRun(baseline, capacity, run, steps) && Complete(run[|steps|])
    ensures var last := run[|steps|];
            EvaluateContentionOccupancy(baseline, last.occupied, capacity, |run[0].attempts|).passed
            <==> 0 <= baseline <= capacity && Lost(last.attempts) == Surplus(baseline, capacity, |run[0].attempts|)
  {
    hide Held, Lost, Complete;
    if baseline <= capacity {
      RunKeepsInv(baseline, capacity, run, steps, |steps|);
      HeldOrLost(run[|steps|]);
    }
  }

  /** A finished run without a fault fills the night up to the capacity, no further, and passes. */
  lemma FaultlessPasses(baseline: int, capacity: int, run: seq<Night>, steps: seq<Step>)
    requires IsRun(baseline, capacity, run, steps) && 0 <= baseline <= capacity && Complete(run[|steps|])
    requires !SomeOverbooked(run[|steps|].attempts) && !SomeDropped(run[|steps|].attempts)
    ensures var verdict := EvaluateContentionOccupancy(baseline, run[|steps|].occupied, capacity, |run[0].attempts|);
            verdict.passed && run[|steps|].occupied == verdict.expectedFinal
  {
    hide Held, Lost, Complete, Next;
    RunKeepsInv(baseline, capacity, run, steps, |steps|);
    HeldOrLost(run[|steps|]);
    WithinCapacity(baseline, capacity, run[|steps|]);
  }

  /** Short of the overbooked holds the night is never over capacity. */
  lemma WithinCapacity(baseline: int, capacity: int, s: Night)
    requires Inv(baseline, capacity, s)
    ensures Overbooked !in s.attempts ==> s.occupied <= capacity
  {
    CountOfUnion(s.attempts, {Won}, {Overbooked});
    assert HELD == {Won} + {Overbooked};
    CountBounds(s.attempts, {Overbooked});
  }

  /** A finished run that dropped a hold passes exactly when the night is full all the same. */
  lemma DroppedPassesIfFull(baseline: int, capacity: int, run: seq<Night>, steps: seq<Step>)
    requires IsRun(baseline, capacity, run, steps) && 0 <= baseline <= capacity && Complete(run[|steps|])
    requires SomeDropped(run[|steps|].attempts)
    ensures EvaluateContentionOccupancy(baseline, run[|steps|].occupied, capacity, |run[0].attempts|).passed
            <==> run[|steps|].occupied == capacity
  {
    hide Held, Lost, Complete, Next;
    RunKeepsInv(baseline, capacity, run, steps, |steps|);
    HeldOrLost(run[|steps|]);
  }

  /** Where there is a bed for every attempt, the oracle passes exactly when no hold was dropped. */
  lemma DroppedHoldFails(baseline: int, capacity: int, run: seq<Night>, steps: seq<Step>)
    requires IsRun(baseline, capacity, run, steps) && Complete(run[|steps|])
    requires 0 <= baseline && baseline + |run[0].attempts| <= capacity
    ensures EvaluateContentionOccupancy(baseline, run[|steps|].occupied, capacity, |run[0].attempts|).passed
            <==> !SomeDropped(run[|steps|].attempts)
  {
    hide Held, Lost, Complete, Next;
    RunKeepsInv(baseline, capacity, run, steps, |steps|);
    HeldOrLost(run[|steps|]);
  }

  /** What a drop does: one bed fewer, and everybody who was overbooked still was. */
  lemma DropStep(capacity: int, s: Night, s': Night, step: Step)
    requires Next(capacity, s, s', step) && step.Drop?
    ensures s'.occupied == s.occupied - 1 && |s'.attempts| == |s.attempts|
    ensures SomeOverbooked(s.attempts) ==> SomeOverbooked(s'.attempts)
  {
    assert s'.attempts[step.who] in s'.attempts;
    SameElsewhere(s.attempts, s'.attempts, step.who);
  }

  /**
   * A hold dropped once every attempt has been answered, an overbooked one or not, fails a run that
   * overbooked nobody, and any run that would have passed without that drop.
   */
  lemma DroppedAfterwardsFails(baseline: int, capacity: int, run: seq<Night>, steps: seq<Step>)
    requires IsRun(baseline, capacity, run, steps) && steps != []
    requires Complete(run[|steps| - 1]) && steps[|steps| - 1].Drop?
    ensures var attempts, before, after := |run[0].attempts|, run[|steps| - 1], run[|steps|];
            EvaluateContentionOccupancy(baseline, after.occupied, capacity, attempts).passed ==>
              && SomeOverbooked(after.attempts)
              && !EvaluateContentionOccupancy(baseline, before.occupied, capacity, attempts).passed
  {
    hide Inv, Complete, SomeOverbooked, SomeDropped, Held;
    var n := |steps|;
    assert Next(capacity, run[n - 1], run[n], steps[n - 1]);
    hide Next;
    DropStep(capacity, run[n - 1], run[n], steps[n - 1]);
    if !SomeOverbooked(run[n].attempts) && baseline <= capacity {
      RunKeepsInv(baseline, capacity, run, steps, n - 1);
      RunKeepsInv(baseline, capacity, run, steps, n);
      OneBedShort(baseline, capacity, run[n - 1], run[n]);
    }
  }

  lemma OneBedShort(baseline: int, capacity: int, s: Night, s': Night)
    requires Inv(baseline, capacity, s) && Inv(baseline, capacity, s') && !SomeOverbooked(s.attempts)
    requires s'.occupied == s.occupied - 1 && |s'.attempts| == |s.attempts|
    ensures s'.occupied < capacity && s'.occupied < baseline + |s.attempts|
  {
    WithinCapacity(baseline, capacity, s);
    CountBounds(s.attempts, HELD);
  }

  /**
   * A finished run that admitted somebody past capacity passes exactly when as many ended without a
   * bed as there is no bed for; with every hold kept it leaves the night over capacity and fails.
   */
  lemma OverbookingFails(baseline: int, capacity: int, run: seq<Night>, steps: seq<Step>)
    requires IsRun(baseline, capacity, run, steps) && 0 <= baseline <= capacity && Complete(run[|steps|])
    requires SomeOverbooked(run[|steps|].attempts)
    ensures var last := run[|steps|];
            var passed := EvaluateContentionOccupancy(baseline, last.occupied, capacity, |run[0].attempts|).passed;
            && (passed <==> Lost(last.attempts) == baseline + |run[0].attempts| - capacity)
            && (!SomeDropped(last.attempts) ==> last.occupied > capacity && !passed)
  {
    hide Held, Lost, Complete, Next;
    RunKeepsInv(baseline, capacity, run, steps, |steps|);
    OracleExact(baseline, capacity, run, steps);
  }

  // ---------- no attempt is ever stuck ----------

  predicate IsBusy(a: Attempt) {
    a == Locked || a.Looked?
  }

  /** The lock is held exactly by an attempt that has yet to be answered. */
  ghost predicate LockIsBusy(s: Night) {
    forall i: nat :: i < |s.attempts| && IsBusy(s.attempts[i]) <==> s.holder == Some(i)
  }

  lemma NextKeepsLockBusy(capacity: int, s: Night, s': Night, step: Step)
    requires LockIsBusy(s) && Next(capacity, s, s', step)
    ensures LockIsBusy(s')
  {
    var who := step.who;
    assert IsBusy(s.attempts[who]) <==> s.holder == Some(who);
    forall i: nat ensures i < |s'.attempts| && IsBusy(s'.attempts[i]) <==> s'.holder == Some(i) {
      assert i < |s.attempts| && IsBusy(s.attempts[i]) <==> s.holder == Some(i);
    }
  }

  lemma {:induction false} RunKeepsLockBusy(baseline: int, capacity: int, run: seq<Night>, steps: seq<Step>, i: nat)
    requires IsRun(baseline, capacity, run, steps) && i < |run|
    ensures LockIsBusy(run[i])
  {
    if i > 0 {
      RunKeepsLockBusy(baseline, capacity, run, steps, i - 1);
      NextKeepsLockBusy(capacity, run[i - 1], run[i], steps[i - 1]);
    }
  }

  /** The steps the attempts have yet to take. */
  function StepsLeft(attempts: seq<Attempt>): nat {
    if attempts == [] then 0
    else StepsLeft(attempts[..|attempts| - 1]) + OwnStepsLeft(attempts[|attempts| - 1])
  }

  function OwnStepsLeft(a: Attempt): nat {
    if a == Waiting then 3 else if a == Locked then 2 else if a.Looked? then 1 else 0
  }

  lemma {:induction false} StepsLeftAfter(attempts: seq<Attempt>, who: nat, a: Attempt)
    requires who < |attempts|
    ensures StepsLeft(attempts[who := a]) == StepsLeft(attempts) - OwnStepsLeft(attempts[who]) + OwnStepsLeft(a)
  {
    hide OwnStepsLeft;
    var last := |attempts| - 1;
    if who < last {
      assert attempts[who := a][..last] == attempts[..last][who := a];
      StepsLeftAfter(attempts[..last], who, a);
    } else {
      assert attempts[who := a][..last] == attempts[..last];
    }
  }

  /** Until every attempt is answered some attempt has a step to take, and it brings the end nearer. */
  lemma SomebodyMoves(capacity: int, s: Night) returns (s': Night, step: Step)
    requires LockIsBusy(s) && !Complete(s)
    ensures Next(capacity, s, s', step) && !step.Overbook? && !step.Drop?
    ensures StepsLeft(s'.attempts) == StepsLeft(s.attempts) - 1
  {
    hide StepsLeft;
    var who :| 0 <= who < |s.attempts| && s.attempts[who] !in HELD + LOST;
    if s.holder.Some? {
      who := s.holder.value;
      assert IsBusy(s.attempts[who]);
    }
    var a := s.attempts[who];
    assert !IsBusy(a) ==> a == Waiting;
    if a == Waiting {
      assert s.holder == None;
      step, s' := Acquire(who), Night(s.occupied, Some(who), s.attempts[who := Locked]);
    } else if a == Locked {
      step, s' := Look(who), s.(attempts := s.attempts[who := Looked(s.occupied)]);
    } else if a.seen < capacity {
      step, s' := Commit(who), Night(s.occupied + 1, None, s.attempts[who := Won]);
    } else {
      step, s' := Commit(who), Night(s.occupied, None, s.attempts[who := Refused]);
    }
    StepsLeftAfter(s.attempts, who, s'.attempts[who]);
  }

  /** Every run, whatever went wrong in it so far, can go on without a further fault until every attempt is answered. */
  lemma {:induction false} EveryRunCanFinish(baseline: int, capacity: int, run: seq<Night>, steps: seq<Step>)
    returns (whole: seq<Night>, all: seq<Step>)
    requires IsRun(baseline, capacity, run, steps)
    ensures IsRun(baseline, capacity, whole, all) && run <= whole && steps <= all && Complete(whole[|all|])
    ensures forall i :: |steps| <= i < |all| ==> !all[i].Overbook? && !all[i].Drop?
    decreases StepsLeft(run[|steps|].attempts)
  {
    hide Complete, StepsLeft, LockIsBusy, Next;
    var s := run[|steps|];
    if Complete(s) {
      return run, steps;
    }
    RunKeepsLockBusy(baseline, capacity, run, steps, |steps|);
    var s', step := SomebodyMoves(capacity, s);
    var longer, more := run + [s'], steps + [step];
    forall i | 0 <= i < |more| ensures Next(capacity, longer[i], longer[i + 1], more[i]) {
      assert i < |steps| ==> Next(capacity, run[i], run[i + 1], steps[i]);
    }
    whole, all := EveryRunCanFinish(baseline, capacity, longer, more);
    assert all[|steps|] == more[|steps|];
  }

  /**
   * A dropped hold can hide: one bed, two attempts. The first wins it and loses its hold, the second
   * wins it again, and the oracle passes.
   */
  lemma DroppedHoldHides() returns (run: seq<Night>, steps: seq<Step>)
    ensures IsRun(0, 1, run, steps) && Complete(run[|steps|]) && |run[0].attempts| == 2
    ensures SomeDropped(run[|steps|].attempts) && !SomeOverbooked(run[|steps|].attempts)
    ensures EvaluateContentionOccupancy(0, run[|steps|].occupied, 1, 2).passed
  {
    run := [
      Night(0, None, [Waiting, Waiting]), Night(0, Some(0), [Locked, Waiting]), Night(0, Some(0), [Looked(0), Waiting]),
      Night(1, None, [Won, Waiting]), Night(0, None, [Dropped(false), Waiting]), Night(0, Some(1), [Dropped(false), Locked]),
      Night(0, Some(1), [Dropped(false), Looked(0)]), Night(1, None, [Dropped(false), Won])
    ];
    steps := [Acquire(0), Look(0), Commit(0), Drop(0), Acquire(1), Look(1), Commit(1)];
    forall i | 0 <= i < |steps| ensures Next(1, run[i], run[i + 1], steps[i]) {
    }
  }

  /**
   * The two faults together can hide: one bed, two attempts. The first wins it, the second is
   * overbooked, the first loses its hold, and the oracle passes.
   */
  lemma BothFaultsHide() returns (run: seq<Night>, steps: seq<Step>)
    ensures IsRun(0, 1, run, steps) && Complete(run[|steps|]) && |run[0].attempts| == 2
    ensures Dropped(false) in run[|steps|].attempts && Overbooked in run[|steps|].attempts
    ensures EvaluateContentionOccupancy(0, run[|steps|].occupied, 1, 2).passed
  {
    run := [
      Night(0, None, [Waiting, Waiting]), Night(0, Some(0), [Locked, Waiting]), Night(0, Some(0), [Looked(0), Waiting]),
      Night(1, None, [Won, Waiting]), Night(1, Some(1), [Won, Locked]), Night(1, Some(1), [Won, Looked(1)]),
      Night(2, None, [Won, Overbooked]), Night(1, None, [Dropped(false), Overbooked])
    ];
    steps := [Acquire(0), Look(0), Commit(0), Acquire(1), Look(1), Overbook(1), Drop(0)];
    forall i | 0 <= i < |steps| ensures Next(1, run[i], run[i + 1], steps[i]) {
    }
  }

  /** So can an overbooked attempt that loses its own hold: the night is as it should be again. */
  lemma OverbookedDropHides() returns (run: seq<Night>, steps: seq<Step>)
    ensures IsRun(0, 1, run, steps) && Complete(run[|steps|]) && |run[0].attempts| == 2
    ensures Dropped(true) in run[|steps|].attempts
    ensures EvaluateContentionOccupancy(0, run[|steps|].occupied, 1, 2).passed
  {
    run := [
      Night(0, None, [Waiting, Waiting]), Night(0, Some(0), [Locked, Waiting]), Night(0, Some(0), [Looked(0), Waiting]),
      Night(1, None, [Won, Waiting]), Night(1, Some(1), [Won, Locked]), Night(1, Some(1), [Won, Looked(1)]),
      Night(2, None, [Won, Overbooked]), Night(1, None, [Won, Dropped(true)])
    ];
    steps := [Acquire(0), Look(0), Commit(0), Acquire(1), Look(1), Overbook(1), Drop(1)];
    forall i | 0 <= i < |steps| ensures Next(1, run[i], run[i + 1], steps[i]) {
    }
  }
}

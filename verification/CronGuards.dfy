/**
 * The overlap guard of a scheduled job, as a state machine over interleaved ticks and awaits, and the
 * step loop of the data-pruning job. JavaScript runs a callback without interruption from one await
 * to the next, so each step below is one such stretch.
 */
module CronGuards {
  import opened Outcomes

  // ---------- one guarded job ----------

  datatype CheckIn = CheckedOk | CheckedError

  /** Where the callback of an admitted tick stands; every phase but the last is an await. */
  datatype Phase =
    | Working                     // inside the job's own work
    | Returned(verdict: CheckIn)  // recording, in the try block, what the work came to
    | Caught                      // recording a failure, in the catch block
    | Done

  /** One admitted tick: its phase, the outcomes it recorded and the check-ins it closed with. */
  datatype Run = Run(phase: Phase, recorded: seq<CheckIn>, closed: seq<CheckIn>)

  /** `running` is the job's flag; `runs` are the ticks admitted so far, by number. */
  datatype Job = Job(running: bool, runs: seq<Run>)

  datatype Step =
    | Skip                    // a tick that finds the flag set
    | Open                    // a tick that sets the flag and opens its check-in
    | OpenThrows              // the same, but opening the check-in throws, before the try block
    | WorkReturns(run: nat, verdict: CheckIn)
    | WorkThrows(run: nat)
    | Closes(run: nat)              // recorded in the try block, closing check-in, finally block
    | ClosingThrows(run: nat)       // recorded in the try block, the closing check-in throws into the catch block
    | CatchCloses(run: nat)         // recorded in the catch block, closing check-in, finally block
    | CatchClosingThrows(run: nat)  // recorded in the catch block, the closing check-in throws, finally block

  predicate Next(s: Job, s': Job, step: Step) {
    match step
    case Skip => s.running && s' == s
    case Open => !s.running && s' == Job(true, s.runs + [Run(Working, [], [])])
    case OpenThrows => !s.running && s' == s.(running := true)
    case WorkReturns(run, verdict) =>
      run < |s.runs| && s.runs[run].phase == Working
      && s' == s.(runs := s.runs[run := s.runs[run].(phase := Returned(verdict))])
    case WorkThrows(run) =>
      run < |s.runs| && s.runs[run].phase == Working
      && s' == s.(runs := s.runs[run := s.runs[run].(phase := Caught)])
    case Closes(run) =>
      run < |s.runs| && s.runs[run].phase.Returned?
      && s' == Job(false, s.runs[run := Ended(s.runs[run], s.runs[run].phase.verdict, true)])
    case ClosingThrows(run) =>
      run < |s.runs| && s.runs[run].phase.Returned?
      && s' == s.(runs := s.runs[run := Ended(s.runs[run], s.runs[run].phase.verdict, false).(phase := Caught)])
    case CatchCloses(run) =>
      run < |s.runs| && s.runs[run].phase == Caught
      && s' == Job(false, s.runs[run := Ended(s.runs[run], CheckedError, true)])
    case CatchClosingThrows(run) =>
      run < |s.runs| && s.runs[run].phase == Caught
      && s' == Job(false, s.runs[run := Ended(s.runs[run], CheckedError, false)])
  }

  function Ended(run: Run, outcome: CheckIn, closes: bool): Run {
    Run(Done, run.recorded + [outcome], run.closed + if closes then [outcome] else [])
  }

  predicate InFlight(s: Job, run: nat) {
    run < |s.runs| && s.runs[run].phase != Done
  }

  predicate AnyInFlight(s: Job) {
    exists run :: 0 <= run < |s.runs| && InFlight(s, run)
  }

  // ---------- what every step keeps ----------

  /** A run's records: none while it works, and in the end one, or two if a closing check-in threw. */
  predicate Accounted(run: Run) {
    match run.phase
    case Working => run.recorded == [] && run.closed == []
    case Returned(_) => run.recorded == [] && run.closed == []
    case Caught => |run.recorded| <= 1 && run.closed == []
    case Done => 1 <= |run.recorded| <= 2 && |run.closed| <= 1
  }

  /** At most one run is in flight, and then it is the last one and the flag is set. */
  predicate Inv(s: Job) {
    && (forall run :: 0 <= run < |s.runs| ==> Accounted(s.runs[run]))
    && (forall run :: 0 <= run < |s.runs| && InFlight(s, run) ==> s.running && run == |s.runs| - 1)
  }

  lemma NextKeepsInv(s: Job, s': Job, step: Step)
    requires Inv(s) && Next(s, s', step)
    ensures Inv(s')
  {
    forall run | 0 <= run < |s'.runs| && InFlight(s', run) ensures s'.running && run == |s'.runs| - 1 {
      if run < |s.runs| {
        assert InFlight(s, run);
      }
      if !step.Skip? && !step.Open? && !step.OpenThrows? {
        assert InFlight(s, step.run);
      }
    }
  }

  // ---------- every run of the machine ----------

  predicate IsTrace(trace: seq<Job>, steps: seq<Step>) {
    && |trace| == |steps| + 1 && trace[0] == Job(false, [])
    && forall i :: 0 <= i < |steps| ==> Next(trace[i], trace[i + 1], steps[i])
  }

  lemma {:induction false} TraceKeepsInv(trace: seq<Job>, steps: seq<Step>, i: nat)
    requires IsTrace(trace, steps) && i < |trace|
    ensures Inv(trace[i])
  {
    hide Inv, Next;
    if i == 0 {
      assert Inv(Job(false, [])) by { StartInv(); }
    } else {
      TraceKeepsInv(trace, steps, i - 1);
      NextKeepsInv(trace[i - 1], trace[i], steps[i - 1]);
    }
  }

  lemma StartInv()
    ensures Inv(Job(false, []))
  {
  }

  lemma RunIsAccounted(trace: seq<Job>, steps: seq<Step>, i: nat, run: nat)
    requires IsTrace(trace, steps) && i < |trace| && run < |trace[i].runs|
    ensures Accounted(trace[i].runs[run])
  {
    TraceKeepsInv(trace, steps, i);
  }

  /** In every interleaving of ticks and awaits, at most one body of the job is in flight. */
  lemma OneBodyAtATime(trace: seq<Job>, steps: seq<Step>, i: nat, a: nat, b: nat)
    requires IsTrace(trace, steps) && i < |trace| && InFlight(trace[i], a) && InFlight(trace[i], b)
    ensures a == b && trace[i].running
  {
    TraceKeepsInv(trace, steps, i);
  }

  predicate NoOpeningThrew(steps: seq<Step>, count: nat) {
    forall i :: 0 <= i < count && i < |steps| ==> steps[i] != OpenThrows
  }

  /**
   * The flag is set exactly while a body is in flight, exactly as long as no opening check-in has
   * thrown. One that throws does so between setting the flag and the try block that would clear it:
   * from then on the flag stays set with nothing in flight.
   */
  lemma {:induction false} FlagTracksBody(trace: seq<Job>, steps: seq<Step>, i: nat)
    requires IsTrace(trace, steps) && i < |trace|
    ensures NoOpeningThrew(steps, i) <==> (trace[i].running <==> AnyInFlight(trace[i]))
    ensures !NoOpeningThrew(steps, i) ==> trace[i].running && !AnyInFlight(trace[i])
  {
    hide Inv;
    if i > 0 {
      FlagTracksBody(trace, steps, i - 1);
      var s, s', step := trace[i - 1], trace[i], steps[i - 1];
      assert Next(s, s', step);
      FlagStep(s, s', step) by { TraceKeepsInv(trace, steps, i - 1); }
      assert NoOpeningThrew(steps, i) <==> NoOpeningThrew(steps, i - 1) && step != OpenThrows;
    }
  }

  lemma FlagStep(s: Job, s': Job, step: Step)
    requires Inv(s) && Next(s, s', step)
    ensures step == OpenThrows ==> s'.running && AnyInFlight(s') == AnyInFlight(s)
    ensures step != OpenThrows && (s.running <==> AnyInFlight(s)) ==> (s'.running <==> AnyInFlight(s'))
    ensures s.running && !AnyInFlight(s) ==> s' == s
  {
    NextKeepsInv(s, s', step);
    match step {
      case Skip =>
      case OpenThrows => assert forall run: nat :: InFlight(s', run) == InFlight(s, run);
      case Open => assert InFlight(s', |s.runs|);
      case _ =>
        var run := step.run;
        assert InFlight(s, run);
        assert s'.runs[run].phase != Done ==> InFlight(s', run);
    }
  }

  /** The shortest such run: one tick, whose opening check-in throws. */
  lemma OpeningThrowSticks()
    ensures IsTrace([Job(false, []), Job(true, [])], [OpenThrows])
    ensures Job(true, []).running && !AnyInFlight(Job(true, []))
  {
    var trace, steps := [Job(false, []), Job(true, [])], [OpenThrows];
    assert Next(trace[0], trace[1], steps[0]);
  }

  /** After an opening check-in has thrown, no tick is ever admitted again. */
  lemma {:induction false} StuckForGood(trace: seq<Job>, steps: seq<Step>, i: nat, j: nat)
    requires IsTrace(trace, steps) && i <= j < |trace| && !NoOpeningThrew(steps, i)
    ensures trace[j] == trace[i]
    decreases j
  {
    hide Inv;
    if i < j {
      StuckForGood(trace, steps, i, j - 1);
      FlagTracksBody(trace, steps, i);
      assert Next(trace[j - 1], trace[j], steps[j - 1]);
      FlagStep(trace[j - 1], trace[j], steps[j - 1]) by { TraceKeepsInv(trace, steps, j - 1); }
    }
  }

  predicate ClosingThrew(step: Step, run: nat) {
    (step.ClosingThrows? || step.CatchClosingThrows?) && step.run == run
  }

  predicate NoClosingThrew(steps: seq<Step>, count: nat, run: nat) {
    forall i :: 0 <= i < count && i < |steps| ==> !ClosingThrew(steps[i], run)
  }

  /**
   * An admitted tick closed with exactly what it recorded just as long as no closing check-in of its
   * own threw.
   */
  lemma {:induction false} OneOutcomeEach(trace: seq<Job>, steps: seq<Step>, i: nat, run: nat)
    requires IsTrace(trace, steps) && i < |trace| && run < |trace[i].runs|
    ensures NoClosingThrew(steps, i, run) <==> trace[i].runs[run].recorded == trace[i].runs[run].closed
    ensures trace[i].runs[run].phase == Done ==>
              1 <= |trace[i].runs[run].recorded| <= 2 && |trace[i].runs[run].closed| <= 1
  {
    hide Inv, Next, Accounted, NoClosingThrew, ClosingThrew;
    RunBounded(trace, steps, i, run);
    var before, step := trace[i - 1], steps[i - 1];
    assert Next(before, trace[i], step);
    NoClosingThrewStep(steps, i - 1, run);
    if run < |before.runs| {
      RunIsAccounted(trace, steps, i - 1, run);
      OneOutcomeEach(trace, steps, i - 1, run);
      RecordsStep(before, trace[i], step, run);
    } else {
      NotYetAdmitted(trace, steps, i - 1, run);
      AdmittedEmpty(before, trace[i], step, run);
      assert !ClosingThrew(Open, run) by { OpeningIsNoClosing(run); }
    }
  }

  lemma NoClosingThrewStep(steps: seq<Step>, i: nat, run: nat)
    requires i < |steps|
    ensures NoClosingThrew(steps, i + 1, run) <==> NoClosingThrew(steps, i, run) && !ClosingThrew(steps[i], run)
  {
  }

  lemma OpeningIsNoClosing(run: nat)
    ensures !ClosingThrew(Open, run)
  {
  }

  lemma RunBounded(trace: seq<Job>, steps: seq<Step>, i: nat, run: nat)
    requires IsTrace(trace, steps) && i < |trace| && run < |trace[i].runs|
    ensures i > 0
    ensures trace[i].runs[run].phase == Done ==>
              1 <= |trace[i].runs[run].recorded| <= 2 && |trace[i].runs[run].closed| <= 1
  {
    RunIsAccounted(trace, steps, i, run);
  }

  lemma RecordsStep(s: Job, s': Job, step: Step, run: nat)
    requires Next(s, s', step) && run < |s.runs| && Accounted(s.runs[run])
    ensures run < |s'.runs|
    ensures s'.runs[run].recorded == s'.runs[run].closed <==>
              s.runs[run].recorded == s.runs[run].closed && !ClosingThrew(step, run)
  {
    if s'.runs[run] != s.runs[run] {
      assert step.run == run;
    }
  }

  lemma AdmittedEmpty(s: Job, s': Job, step: Step, run: nat)
    requires Next(s, s', step) && |s.runs| <= run < |s'.runs|
    ensures step == Open && s'.runs[run] == Run(Working, [], [])
  {
  }

  /** A run not yet admitted has had no step of its own. */
  lemma {:induction false} NotYetAdmitted(trace: seq<Job>, steps: seq<Step>, i: nat, run: nat)
    requires IsTrace(trace, steps) && i < |trace| && run >= |trace[i].runs|
    ensures NoClosingThrew(steps, i, run)
  {
    if i > 0 {
      assert Next(trace[i - 1], trace[i], steps[i - 1]);
      NotYetAdmitted(trace, steps, i - 1, run);
    }
  }

  predicate VerdictStood(steps: seq<Step>, count: nat, run: nat) {
    forall i :: 0 <= i < count && i < |steps| ==> steps[i] != ClosingThrows(run)
  }

  /** An ended run has recorded one outcome, or two exactly if the check-in closing its verdict threw. */
  lemma {:induction false} RecordsCounted(trace: seq<Job>, steps: seq<Step>, i: nat, run: nat)
    requires IsTrace(trace, steps) && i < |trace| && run < |trace[i].runs|
    ensures |trace[i].runs[run].recorded|
            == (if trace[i].runs[run].phase == Done then 1 else 0) + (if VerdictStood(steps, i, run) then 0 else 1)
  {
    hide Inv, Next;
    if i > 0 {
      var before, step := trace[i - 1], steps[i - 1];
      assert Next(before, trace[i], step);
      assert VerdictStood(steps, i, run) <==> VerdictStood(steps, i - 1, run) && step != ClosingThrows(run);
      if run < |before.runs| {
        RunIsAccounted(trace, steps, i - 1, run);
        RecordsCounted(trace, steps, i - 1, run);
        CountStep(before, trace[i], step, run);
      } else {
        NotYetAdmitted(trace, steps, i - 1, run);
        AdmittedEmpty(before, trace[i], step, run);
      }
    }
  }

  lemma CountStep(s: Job, s': Job, step: Step, run: nat)
    requires Next(s, s', step) && run < |s.runs| && Accounted(s.runs[run])
    ensures run < |s'.runs|
    ensures step == ClosingThrows(run) ==> s.runs[run].recorded == [] && |s'.runs[run].recorded| == 1 && s'.runs[run].phase == Caught
    ensures step != ClosingThrows(run) ==>
              |s'.runs[run].recorded| - |s.runs[run].recorded|
              == (if s'.runs[run].phase == Done then 1 else 0) - (if s.runs[run].phase == Done then 1 else 0)
    ensures step == ClosingThrows(run) ==> s.runs[run].phase != Done
  {
    if s'.runs[run] != s.runs[run] {
      assert step.run == run;
    }
  }

  predicate CatchStood(steps: seq<Step>, count: nat, run: nat) {
    forall i :: 0 <= i < count && i < |steps| ==> steps[i] != CatchClosingThrows(run)
  }

  /** An ended run has closed once, unless the check-in that closes its failure threw: then it never closed. */
  lemma {:induction false} ClosingsCounted(trace: seq<Job>, steps: seq<Step>, i: nat, run: nat)
    requires IsTrace(trace, steps) && i < |trace| && run < |trace[i].runs|
    ensures |trace[i].runs[run].closed| == if trace[i].runs[run].phase == Done && CatchStood(steps, i, run) then 1 else 0
    ensures trace[i].runs[run].phase != Done ==> CatchStood(steps, i, run)
  {
    hide Inv, Next, Accounted, CatchStood;
    assert i > 0 by { RunBounded(trace, steps, i, run); }
    var before, step := trace[i - 1], steps[i - 1];
    assert Next(before, trace[i], step);
    CatchStoodStep(steps, i - 1, run);
    if run < |before.runs| {
      RunIsAccounted(trace, steps, i - 1, run);
      ClosingsCounted(trace, steps, i - 1, run);
      CloseStep(before, trace[i], step, run);
    } else {
      assert CatchStood(steps, i - 1, run) by { NotYetAdmitted(trace, steps, i - 1, run); CatchStoodIfNone(steps, i - 1, run); }
      AdmittedEmpty(before, trace[i], step, run);
    }
  }

  lemma CatchStoodIfNone(steps: seq<Step>, count: nat, run: nat)
    requires NoClosingThrew(steps, count, run)
    ensures CatchStood(steps, count, run)
  {
  }

  lemma CatchStoodStep(steps: seq<Step>, i: nat, run: nat)
    requires i < |steps|
    ensures CatchStood(steps, i + 1, run) <==> CatchStood(steps, i, run) && steps[i] != CatchClosingThrows(run)
  {
  }

  lemma CloseStep(s: Job, s': Job, step: Step, run: nat)
    requires Next(s, s', step) && run < |s.runs| && Accounted(s.runs[run])
    ensures run < |s'.runs|
    ensures step == CatchClosingThrows(run) ==>
              s.runs[run].phase == Caught && s'.runs[run].phase == Done && s'.runs[run].closed == []
    ensures step != CatchClosingThrows(run) ==>
              |s'.runs[run].closed| - |s.runs[run].closed|
              == (if s'.runs[run].phase == Done then 1 else 0) - (if s.runs[run].phase == Done then 1 else 0)
    ensures s.runs[run].phase == Done ==> s'.runs[run] == s.runs[run]
  {
    if s'.runs[run] != s.runs[run] {
      assert step.run == run;
    }
  }

  /** A tick whose work succeeds and whose closing check-in throws: it records a success and a failure. */
  lemma ClosingThrowRecordsTwice() returns (trace: seq<Job>, steps: seq<Step>)
    ensures IsTrace(trace, steps)
    ensures trace[|steps|] == Job(false, [Run(Done, [CheckedOk, CheckedError], [CheckedError])])
  {
    trace := [
      Job(false, []), Job(true, [Run(Working, [], [])]), Job(true, [Run(Returned(CheckedOk), [], [])]),
      Job(true, [Run(Caught, [CheckedOk], [])]), Job(false, [Run(Done, [CheckedOk, CheckedError], [CheckedError])])
    ];
    steps := [Open, WorkReturns(0, CheckedOk), ClosingThrows(0), CatchCloses(0)];
    assert Ended(trace[2].runs[0], CheckedOk, false).(phase := Caught) == trace[3].runs[0];
    assert Ended(trace[3].runs[0], CheckedError, true) == trace[4].runs[0];
    forall i | 0 <= i < |steps| ensures Next(trace[i], trace[i + 1], steps[i]) {
    }
  }

  /** The first outcome a run records is what its work came to: its verdict, or an error if it threw. */
  lemma {:induction false} OutcomeIsTheWorks(trace: seq<Job>, steps: seq<Step>, k: nat, i: nat, run: nat, verdict: CheckIn)
    requires IsTrace(trace, steps) && k < i < |trace|
    requires steps[k] == WorkReturns(run, verdict) || (steps[k] == WorkThrows(run) && verdict == CheckedError)
    ensures run < |trace[i].runs| && trace[i].runs[run].phase != Working
    ensures trace[i].runs[run].recorded == [] ==>
              trace[i].runs[run].phase == if steps[k].WorkThrows? then Caught else Returned(verdict)
    ensures trace[i].runs[run].recorded != [] ==> trace[i].runs[run].recorded[0] == verdict
    ensures trace[i].runs[run].phase == Done ==> trace[i].runs[run].recorded != []
    decreases i
  {
    hide Inv;
    var before, step := trace[i - 1], steps[i - 1];
    assert Next(before, trace[i], step);
    if i == k + 1 {
      RunIsAccounted(trace, steps, i - 1, run);
    } else {
      OutcomeIsTheWorks(trace, steps, k, i - 1, run, verdict);
    }
  }

  // ---------- what a tick and a run can do ----------

  /** A tick is always answered: skipped while the flag is set, admitted otherwise. */
  lemma EveryTickAnswered(s: Job)
    ensures (exists s' :: Next(s, s', Skip)) <==> s.running
    ensures (exists s' :: Next(s, s', Open)) <==> !s.running
  {
    assert s.running ==> Next(s, s, Skip);
    assert !s.running ==> Next(s, Job(true, s.runs + [Run(Working, [], [])]), Open);
  }

  /**
   * An admitted run whose check-ins do not throw records what its work came to and closes with it, and
   * the flag is clear again: from any state that admits it, for a verdict or for a throw.
   */
  lemma AdmittedRunEnds(s: Job, verdict: CheckIn, throws: bool)
    requires !s.running && (throws ==> verdict == CheckedError)
    ensures var run := |s.runs|;
            exists s1, s2 ::
              && Next(s, s1, Open) && InFlight(s1, run)
              && Next(s1, s2, if throws then WorkThrows(run) else WorkReturns(run, verdict)) && InFlight(s2, run)
              && Next(s2, Job(false, s.runs + [Run(Done, [verdict], [verdict])]), if throws then CatchCloses(run) else Closes(run))
  {
    var run := |s.runs|;
    var s1 := Job(true, s.runs + [Run(Working, [], [])]);
    var s2 := Job(true, s.runs + [Run(if throws then Caught else Returned(verdict), [], [])]);
    var s3 := Job(false, s.runs + [Run(Done, [verdict], [verdict])]);
    assert s1.runs[run := s2.runs[run]] == s2.runs;
    assert s2.runs[run := s3.runs[run]] == s3.runs;
    assert Ended(s2.runs[run], verdict, true) == s3.runs[run];
    assert Next(s, s1, Open) && InFlight(s1, run);
    assert InFlight(s2, run);
    assert Next(s1, s2, if throws then WorkThrows(run) else WorkReturns(run, verdict));
    assert Next(s2, s3, if throws then CatchCloses(run) else Closes(run));
  }

  // ---------- the data-pruning job's steps ----------

  /**
   * What the job awaits, in order: steps, each with its tag and the message of the error it ends in, if
   * any; and imports between them, which stand outside any step.
   */
  datatype PruneAction = RunStep(tag: string, error: Option<string>) | Import(error: Option<string>)

  predicate ImportFails(action: PruneAction) {
    action.Import? && action.error.Some?
  }

  predicate StepFails(action: PruneAction) {
    action.RunStep? && action.error.Some?
  }

  /** The first import that fails is at `i`, or there is none and `i` is the end. */
  predicate IsFirstFailedImport(actions: seq<PruneAction>, i: nat) {
    && i <= |actions|
    && (i < |actions| ==> ImportFails(actions[i]))
    && forall k :: 0 <= k < i ==> !ImportFails(actions[k])
  }

  /** The steps' tags, in order. */
  function Tags(actions: seq<PruneAction>): seq<string> {
    if actions == [] then []
    else
      var last := actions[|actions| - 1];
      Tags(actions[..|actions| - 1]) + (if last.RunStep? then [last.tag] else [])
  }

  /** The errors of the failed steps, in order, each under its step's tag. */
  function StepErrors(actions: seq<PruneAction>): seq<string> {
    if actions == [] then []
    else
      var last := actions[|actions| - 1];
      StepErrors(actions[..|actions| - 1]) + (if StepFails(last) then [last.tag + ": " + last.error.value] else [])
  }

  /** Steps are told in their order, each tag once and each failure under its tag; imports are not told. */
  lemma {:induction false} ToldInOrder(before: seq<PruneAction>, after: seq<PruneAction>, tag: string, error: Option<string>)
    ensures Tags(before + after) == Tags(before) + Tags(after)
    ensures StepErrors(before + after) == StepErrors(before) + StepErrors(after)
    ensures Tags([RunStep(tag, error)]) == [tag] && Tags([Import(error)]) == []
    ensures StepErrors([RunStep(tag, error)]) == (if error.Some? then [tag + ": " + error.value] else [])
    ensures StepErrors([Import(error)]) == []
  {
    hide Tags, StepErrors;
    NothingRan();
    OneTold(tag, error);
    if after == [] {
      assert before + after == before;
    } else {
      var all, n := before + after, |after| - 1;
      assert all[..|all| - 1] == before + after[..n] && all[..|all|] == all && after[..|after|] == after;
      ToldInOrder(before, after[..n], tag, error);
      OneMoreAction(all, |all| - 1);
      OneMoreAction(after, n);
    }
  }

  lemma OneTold(tag: string, error: Option<string>)
    ensures Tags([RunStep(tag, error)]) == [tag] && Tags([Import(error)]) == []
    ensures StepErrors([RunStep(tag, error)]) == (if error.Some? then [tag + ": " + error.value] else [])
    ensures StepErrors([Import(error)]) == []
  {
    assert [RunStep(tag, error)][..0] == [] && [Import(error)][..0] == [];
  }

  lemma {:induction false} NoStepErrors(actions: seq<PruneAction>)
    ensures StepErrors(actions) == [] <==> forall i :: 0 <= i < |actions| ==> !StepFails(actions[i])
    ensures |StepErrors(actions)| == |set i | 0 <= i < |actions| && StepFails(actions[i])|
  {
    hide StepFails;
    var failed := set i | 0 <= i < |actions| && StepFails(actions[i]);
    if actions != [] {
      var front := actions[..|actions| - 1];
      NoStepErrors(front);
      var failedFront := set i | 0 <= i < |front| && StepFails(front[i]);
      assert forall i :: 0 <= i < |front| ==> front[i] == actions[i];
      if StepFails(actions[|actions| - 1]) {
        assert failed == failedFront + {|actions| - 1};
      } else {
        assert failed == failedFront;
      }
    }
  }

  /**
   * Each step runs whatever became of the steps before it, up to an import that fails: that one is
   * caught outside and ends the job. It succeeds exactly when no step and no import failed.
   */
  method RunDataPruning(actions: seq<PruneAction>) returns (ran: seq<string>, stepErrors: seq<string>, outcome: CheckIn)
    ensures exists reached :: 0 <= reached <= |actions| && IsFirstFailedImport(actions, reached)
              && ran == Tags(actions[..reached]) && stepErrors == StepErrors(actions[..reached])
    ensures outcome == CheckedOk <==> forall i :: 0 <= i < |actions| ==> actions[i].error == None
    ensures (forall i :: 0 <= i < |actions| ==> !ImportFails(actions[i])) ==>
              ran == Tags(actions) && stepErrors == StepErrors(actions)
  {
    hide Tags, StepErrors;
    ran, stepErrors := [], [];
    assert Tags([]) == [] && StepErrors([]) == [] by { NothingRan(); }
    for i := 0 to |actions|
      invariant ran == Tags(actions[..i]) && stepErrors == StepErrors(actions[..i])
      invariant forall k :: 0 <= k < i ==> !ImportFails(actions[k])
    {
      if ImportFails(actions[i]) {
        assert IsFirstFailedImport(actions, i);
        return ran, stepErrors, CheckedError;
      }
      OneMoreAction(actions, i);
      if actions[i].RunStep? {
        ran := ran + [actions[i].tag];
        if actions[i].error.Some? {
          stepErrors := stepErrors + [actions[i].tag + ": " + actions[i].error.value];
        }
      }
    }
    assert actions[..|actions|] == actions;
    assert IsFirstFailedImport(actions, |actions|);
    NoStepErrors(actions);
    outcome := if |stepErrors| == 0 then CheckedOk else CheckedError;
  }

  lemma NothingRan()
    ensures Tags([]) == [] && StepErrors([]) == []
  {
  }

  lemma OneMoreAction(actions: seq<PruneAction>, i: nat)
    requires i < |actions|
    ensures Tags(actions[..i + 1]) == Tags(actions[..i]) + if actions[i].RunStep? then [actions[i].tag] else []
    ensures StepErrors(actions[..i + 1])
            == StepErrors(actions[..i]) + if StepFails(actions[i]) then [actions[i].tag + ": " + actions[i].error.value] else []
  {
    assert actions[..i + 1][..i] == actions[..i];
  }
}

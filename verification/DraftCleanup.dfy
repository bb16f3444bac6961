/**
 * The draft cleanup transaction beside the transactions that confirm or edit drafts, as a state machine over
 * their interleaved steps. A transaction reads what others have committed, keeps the locks it takes
 * until it ends, and makes its own writes visible when it commits.
 */
module DraftCleanup {
  import opened Outcomes
  import opened Text

  // ---------- the database ----------

  /** `Confirmed` is any status but `DRAFT`; bookings never go back to it. */
  datatype Status = Draft | Confirmed

  datatype Booking = Booking(status: Status, lodge: Option<string>, expiresAt: Option<int>)

  /** `dependents` holds the bookings whose dependent rows are all still there. */
  datatype Database = Database(bookings: map<string, Booking>, dependents: set<string>)

  /** `status: "DRAFT", draftExpiresAt: { lt: before }`. */
  predicate IsExpiredDraft(booking: Booking, before: int) {
    booking.status == Draft && booking.expiresAt.Some? && booking.expiresAt.value < before
  }

  /** A draft without an expiry never expires. */
  predicate NoEarlier(expiresAt: Option<int>, other: Option<int>) {
    other == None || (expiresAt.Some? && expiresAt.value <= other.value)
  }

  function ExpiredDrafts(bookings: map<string, Booking>, before: int): set<string> {
    set id | id in bookings && IsExpiredDraft(bookings[id], before)
  }

  // ---------- locks ----------

  datatype LockKey = Global | Lodge(id: string)

  /** The order in which every transaction takes its locks: global first, then lodges by name. */
  predicate KeyLess(a: LockKey, b: LockKey) {
    b.Lodge? && (a.Global? || Less(a.id, b.id))
  }

  predicate InLockOrder(plan: seq<LockKey>) {
    forall i, j :: 0 <= i < j < |plan| ==> KeyLess(plan[i], plan[j])
  }

  /** The lodge a booking's transaction locks: its own, or the club's default. */
  function LodgeKey(booking: Booking, defaultLodge: string): LockKey {
    Lodge(if booking.lodge.Some? then booking.lodge.value else defaultLodge)
  }

  /** The cleanup's plan: one lock for each lodge of the drafts found, sorted, without repeats. */
  ghost predicate IsCleanupPlan(plan: seq<LockKey>, bookings: map<string, Booking>, found: set<string>, defaultLodge: string)
    requires found <= bookings.Keys
  {
    InLockOrder(plan) && forall key :: key in plan <==> exists id :: id in found && LodgeKey(bookings[id], defaultLodge) == key
  }

  // ---------- transactions ----------

  datatype Program = Cleanup(expiredBefore: int) | ConfirmDraft(target: string)

  datatype Phase =
    | Begun                                             // nothing read inside the transaction yet
    | Locking                                           // the plan is complete; its locks are being taken
    | Rescanned(found: set<string>)                     // cleanup: the drafts found again under the locks
    | DependentsGone(cleared: set<string>)              // cleanup: their dependents deleted
    | RowsGone(cleared: set<string>, deleted: set<string>)  // cleanup: the guarded row delete done
    | Confirming                                        // confirmation: the draft re-read under the lock

  /** Holds the first `taken` locks of its plan. */
  datatype Tx = Tx(program: Program, phase: Phase, plan: seq<LockKey>, taken: nat) {
    predicate Holds(key: LockKey) {
      exists i :: 0 <= i < taken && i < |plan| && plan[i] == key
    }

    predicate Waits() {
      taken < |plan|
    }
  }

  /** `used` are the ids ever given out; `defaultLodge` never changes. */
  datatype State = State(now: int, db: Database, used: set<string>, txs: map<nat, Tx>, defaultLodge: string)

  predicate Free(s: State, key: LockKey) {
    forall t :: t in s.txs ==> !s.txs[t].Holds(key)
  }

  // ---------- steps ----------

  datatype Step =
    | Tick(later: int)
    | Create(id: string, booking: Booking)
    | BeginCleanup(t: nat, expiredBefore: int)
    | Scan(t: nat, plan: seq<LockKey>)
    | BeginConfirm(t: nat, target: string)
    | ReadLockTarget(t: nat)
    | Acquire(t: nat)
    | Rescan(t: nat)
    | RereadDraft(t: nat)
    | ClearDependents(t: nat, withheld: set<string>)
    | DeleteRows(t: nat)
    | CommitCleanup(t: nat)
    | CommitConfirm(t: nat)
    | CommitEdit(t: nat, expiresAt: Option<int>)
    | Abort(t: nat)

  /** Everything but transaction `t` stays. */
  predicate OnlyTx(s: State, s': State, t: nat, tx: Tx) {
    s' == s.(txs := s.txs[t := tx])
  }

  ghost predicate Next(s: State, s': State, step: Step) {
    match step
    case Tick(later) =>
      later >= s.now && s' == s.(now := later)
    case Create(id, booking) =>
      // A new draft expires in the future, or never; anything else is created confirmed.
      && id !in s.used
      && (booking.status == Draft ==> booking.expiresAt == None || booking.expiresAt.value >= s.now)
      && s' == s.(db := Database(s.db.bookings[id := booking], s.db.dependents + {id}), used := s.used + {id})
    case BeginCleanup(t, expiredBefore) =>
      t !in s.txs && expiredBefore <= s.now && OnlyTx(s, s', t, Tx(Cleanup(expiredBefore), Begun, [], 0))
    case Scan(t, plan) =>
      && t in s.txs && s.txs[t].program.Cleanup? && s.txs[t].phase == Begun
      && IsCleanupPlan(plan, s.db.bookings, ExpiredDrafts(s.db.bookings, s.txs[t].program.expiredBefore), s.defaultLodge)
      && OnlyTx(s, s', t, s.txs[t].(phase := Locking, plan := plan))
    case BeginConfirm(t, target) =>
      // The route has seen the booking before it opens the transaction; the global lock comes first.
      t !in s.txs && target in s.used && OnlyTx(s, s', t, Tx(ConfirmDraft(target), Begun, [Global], 0))
    case ReadLockTarget(t) =>
      && t in s.txs && s.txs[t].program.ConfirmDraft? && s.txs[t].phase == Begun && !s.txs[t].Waits()
      && var target := s.txs[t].program.target;
         var key := if target in s.db.bookings then LodgeKey(s.db.bookings[target], s.defaultLodge) else Lodge(s.defaultLodge);
         OnlyTx(s, s', t, s.txs[t].(phase := Locking, plan := [Global, key]))
    case Acquire(t) =>
      && t in s.txs && s.txs[t].Waits() && Free(s, s.txs[t].plan[s.txs[t].taken])
      && OnlyTx(s, s', t, s.txs[t].(taken := s.txs[t].taken + 1))
    case Rescan(t) =>
      && t in s.txs && s.txs[t].program.Cleanup? && s.txs[t].phase == Locking && !s.txs[t].Waits()
      && OnlyTx(s, s', t, s.txs[t].(phase := Rescanned(ExpiredDrafts(s.db.bookings, s.txs[t].program.expiredBefore))))
    case RereadDraft(t) =>
      && t in s.txs && s.txs[t].program.ConfirmDraft? && s.txs[t].phase == Locking && !s.txs[t].Waits()
      && var target := s.txs[t].program.target;
         if target in s.db.bookings && s.db.bookings[target].status == Draft
         then OnlyTx(s, s', t, s.txs[t].(phase := Confirming))
         else s' == s.(txs := s.txs - {t})  // "Booking is no longer a draft"
    case ClearDependents(t, withheld) =>
      // Drafts that financial history names are withheld; nothing of theirs is touched.
      && t in s.txs && s.txs[t].phase.Rescanned?
      && OnlyTx(s, s', t, s.txs[t].(phase := DependentsGone(s.txs[t].phase.found - withheld)))
    case DeleteRows(t) =>
      && t in s.txs && s.txs[t].program.Cleanup? && s.txs[t].phase.DependentsGone?
      && var cleared := s.txs[t].phase.cleared;
         OnlyTx(s, s', t, s.txs[t].(phase :=
           RowsGone(cleared, cleared * ExpiredDrafts(s.db.bookings, s.txs[t].program.expiredBefore))))
    case CommitCleanup(t) =>
      && t in s.txs && s.txs[t].phase.RowsGone?
      && var phase := s.txs[t].phase;
         s' == s.(db := Database(s.db.bookings - phase.deleted, s.db.dependents - phase.cleared), txs := s.txs - {t})
    case CommitConfirm(t) =>
      && t in s.txs && s.txs[t].program.ConfirmDraft? && s.txs[t].phase == Confirming
      && var target := s.txs[t].program.target;
         && target in s.db.bookings
         && var paid := s.db.bookings[target].(status := Confirmed, expiresAt := None);
            s' == s.(db := s.db.(bookings := s.db.bookings[target := paid]), txs := s.txs - {t})
    case CommitEdit(t, expiresAt) =>
      // An edit takes the same locks; the draft stays one, and expires no earlier than it did.
      && t in s.txs && s.txs[t].program.ConfirmDraft? && s.txs[t].phase == Confirming
      && var target := s.txs[t].program.target;
         && target in s.db.bookings
         && NoEarlier(s.db.bookings[target].expiresAt, expiresAt)
         && var edited := s.db.bookings[target].(expiresAt := expiresAt);
            s' == s.(db := s.db.(bookings := s.db.bookings[target := edited]), txs := s.txs - {t})
    case Abort(t) =>
      t in s.txs && s' == s.(txs := s.txs - {t})
  }

  ghost predicate Init(s: State) {
    s.txs == map[] && s.db.bookings.Keys <= s.used && s.db.bookings.Keys <= s.db.dependents
  }

  // ---------- what every step keeps ----------

  ghost predicate Exclusive(s: State) {
    forall t, u, key :: t in s.txs && u in s.txs && s.txs[t].Holds(key) && s.txs[u].Holds(key) ==> t == u
  }

  predicate TxShape(tx: Tx) {
    && tx.taken <= |tx.plan| && InLockOrder(tx.plan)
    && (tx.program.Cleanup? ==> tx.phase != Confirming)
    && (tx.program.ConfirmDraft? ==> tx.phase in {Begun, Locking, Confirming})
    && (tx.phase !in {Begun, Locking} ==> tx.taken == |tx.plan|)
    && (tx.program.Cleanup? && tx.phase == Begun ==> tx.plan == [])
    && (tx.program.ConfirmDraft? && tx.phase == Begun ==> tx.plan == [Global])
  }

  /** The drafts a cleanup works on are still expired drafts, under locks it holds or will take. */
  ghost predicate CleanupCovers(s: State, tx: Tx) {
    tx.program.Cleanup? ==>
      && tx.program.expiredBefore <= s.now
      && var expired := ExpiredDrafts(s.db.bookings, tx.program.expiredBefore);
         && (tx.phase != Begun ==> forall id :: id in expired ==> LodgeKey(s.db.bookings[id], s.defaultLodge) in tx.plan)
         && (tx.phase.Rescanned? ==> tx.phase.found <= expired)
         && (tx.phase.DependentsGone? ==> tx.phase.cleared <= expired)
         && (tx.phase.RowsGone? ==> tx.phase.cleared <= expired && tx.phase.deleted == tx.phase.cleared)
  }

  /** A confirmation holds, or will take, the lock of its own draft's lodge. */
  ghost predicate ConfirmCovers(s: State, tx: Tx) {
    tx.program.ConfirmDraft? ==>
      && tx.program.target in s.used
      && (tx.phase != Begun && tx.program.target in s.db.bookings ==>
            LodgeKey(s.db.bookings[tx.program.target], s.defaultLodge) in tx.plan)
      && (tx.phase == Confirming ==> tx.program.target in s.db.bookings && s.db.bookings[tx.program.target].status == Draft)
  }

  ghost predicate TxInv(s: State, tx: Tx) {
    TxShape(tx) && CleanupCovers(s, tx) && ConfirmCovers(s, tx)
  }

  ghost predicate Inv(s: State) {
    && s.db.bookings.Keys <= s.used
    && s.db.bookings.Keys <= s.db.dependents
    && Exclusive(s)
    && forall t :: t in s.txs ==> TxInv(s, s.txs[t])
  }

  lemma InitInv(s: State)
    requires Init(s)
    ensures Inv(s)
  {
  }

  lemma HoldsItsPlan(tx: Tx, key: LockKey)
    requires tx.taken == |tx.plan| && key in tx.plan
    ensures tx.Holds(key)
  {
    var i :| 0 <= i < |tx.plan| && tx.plan[i] == key;
  }

  /** Two transactions past their locks never work on drafts of one lodge. */
  lemma PastLocksApart(s: State, t: nat, u: nat, key: LockKey)
    requires Inv(s) && t in s.txs && u in s.txs && t != u
    requires s.txs[t].phase !in {Begun, Locking} && s.txs[u].phase !in {Begun, Locking}
    requires key in s.txs[t].plan
    ensures key !in s.txs[u].plan
  {
    hide CleanupCovers, ConfirmCovers, InLockOrder, Tx.Holds;
    HoldsItsPlan(s.txs[t], key);
    if key in s.txs[u].plan {
      HoldsItsPlan(s.txs[u], key);
    }
  }

  /** A step that changes only transaction `t` has only `t` and the locks to answer for. */
  lemma OnlyTxKeepsInv(s: State, s': State, t: nat, tx: Tx)
    requires Inv(s) && OnlyTx(s, s', t, tx) && TxInv(s, tx)
    requires forall key :: tx.Holds(key) ==> (t in s.txs && s.txs[t].Holds(key)) || Free(s, key)
    ensures Inv(s')
  {
    hide TxShape, InLockOrder, Tx.Holds, ExpiredDrafts;
    forall u | u in s'.txs ensures TxInv(s', s'.txs[u]) {
      assert TxInv(s, s'.txs[u]);
    }
    forall a, b, key | a in s'.txs && b in s'.txs && s'.txs[a].Holds(key) && s'.txs[b].Holds(key) ensures a == b {
      assert a != t ==> s.txs[a].Holds(key);
      assert b != t ==> s.txs[b].Holds(key);
    }
  }

  lemma RemovedTxKeepsInv(s: State, s': State, t: nat)
    requires Inv(s) && s' == s.(txs := s.txs - {t})
    ensures Inv(s')
  {
    hide TxShape, InLockOrder, Tx.Holds, ExpiredDrafts;
    forall u | u in s'.txs ensures TxInv(s', s'.txs[u]) {
      assert TxInv(s, s'.txs[u]);
    }
  }

  lemma TickKeepsInv(s: State, s': State, later: int)
    requires Inv(s) && later >= s.now && s' == s.(now := later)
    ensures Inv(s')
  {
    hide TxShape, InLockOrder, Tx.Holds, ExpiredDrafts;
    forall u | u in s'.txs ensures TxInv(s', s'.txs[u]) {
      assert TxInv(s, s'.txs[u]);
    }
  }

  lemma CreateKeepsInv(s: State, s': State, id: string, booking: Booking)
    requires Inv(s) && Next(s, s', Create(id, booking))
    ensures Inv(s')
  {
    hide TxShape, InLockOrder, Tx.Holds;
    forall u | u in s'.txs ensures TxInv(s', s'.txs[u]) {
      assert TxInv(s, s'.txs[u]);
      var tx := s.txs[u];
      if tx.program.Cleanup? {
        var before := tx.program.expiredBefore;
        assert ExpiredDrafts(s'.db.bookings, before) == ExpiredDrafts(s.db.bookings, before);
      }
    }
  }

  /** Commits change bookings only under the lodge locks their transactions hold. */
  ghost predicate ChangedUnderLock(s: State, s': State, t: nat) {
    && t in s.txs && s.txs[t].phase !in {Begun, Locking}
    && s'.txs == s.txs - {t} && s'.now == s.now && s'.used == s.used && s'.defaultLodge == s.defaultLodge
    && s'.db.bookings.Keys <= s.db.bookings.Keys
    && (forall id :: id in s'.db.bookings ==> s'.db.bookings[id].lodge == s.db.bookings[id].lodge)
    && (forall id :: id in s'.db.bookings && s'.db.bookings[id].status == Draft ==>
          s.db.bookings[id].status == Draft && NoEarlier(s.db.bookings[id].expiresAt, s'.db.bookings[id].expiresAt))
    && (forall id :: id in s.db.bookings && LodgeKey(s.db.bookings[id], s.defaultLodge) !in s.txs[t].plan ==>
          id in s'.db.bookings && s'.db.bookings[id] == s.db.bookings[id])
  }

  lemma OthersUndisturbed(s: State, s': State, t: nat, u: nat)
    requires Inv(s) && ChangedUnderLock(s, s', t) && u in s.txs && u != t
    ensures TxInv(s', s.txs[u])
  {
    hide InLockOrder, Tx.Holds, Exclusive;
    var tx := s.txs[u];
    assert TxInv(s, tx);
    forall id | id in s.db.bookings && LodgeKey(s.db.bookings[id], s.defaultLodge) in tx.plan && tx.phase !in {Begun, Locking}
      ensures id in s'.db.bookings && s'.db.bookings[id] == s.db.bookings[id]
    {
      PastLocksApart(s, u, t, LodgeKey(s.db.bookings[id], s.defaultLodge));
    }
    if tx.program.Cleanup? {
      var before := tx.program.expiredBefore;
      assert ExpiredDrafts(s'.db.bookings, before) <= ExpiredDrafts(s.db.bookings, before);
      if tx.phase !in {Begun, Locking} {
        assert forall id :: id in ExpiredDrafts(s.db.bookings, before) ==> id in ExpiredDrafts(s'.db.bookings, before);
      }
    }
  }

  lemma CommitKeepsInv(s: State, s': State, t: nat)
    requires Inv(s) && ChangedUnderLock(s, s', t) && s'.db.bookings.Keys <= s'.db.dependents
    ensures Inv(s')
  {
    hide TxInv, Tx.Holds, ChangedUnderLock;
    assert s'.txs == s.txs - {t} && s'.db.bookings.Keys <= s.db.bookings.Keys && s'.used == s.used by { CommitFrame(s, s', t); }
    forall u | u in s'.txs ensures TxInv(s', s'.txs[u]) {
      OthersUndisturbed(s, s', t, u);
    }
  }

  lemma CommitFrame(s: State, s': State, t: nat)
    requires ChangedUnderLock(s, s', t)
    ensures s'.txs == s.txs - {t} && s'.db.bookings.Keys <= s.db.bookings.Keys && s'.used == s.used
  {
  }

  lemma CommitCleanupKeepsInv(s: State, s': State, t: nat)
    requires Inv(s) && Next(s, s', CommitCleanup(t))
    ensures Inv(s')
  {
    hide InLockOrder, Tx.Holds, Exclusive;
    assert TxInv(s, s.txs[t]);
    CommitKeepsInv(s, s', t);
  }

  lemma CommitConfirmKeepsInv(s: State, s': State, t: nat)
    requires Inv(s) && Next(s, s', CommitConfirm(t))
    ensures Inv(s')
  {
    hide InLockOrder, Tx.Holds, Exclusive;
    assert TxInv(s, s.txs[t]);
    CommitKeepsInv(s, s', t);
  }

  lemma CommitEditKeepsInv(s: State, s': State, t: nat, expiresAt: Option<int>)
    requires Inv(s) && Next(s, s', CommitEdit(t, expiresAt))
    ensures Inv(s')
  {
    hide InLockOrder, Tx.Holds, Exclusive;
    assert TxInv(s, s.txs[t]);
    CommitKeepsInv(s, s', t);
  }

  lemma AcquireKeepsInv(s: State, s': State, t: nat)
    requires Inv(s) && Next(s, s', Acquire(t))
    ensures Inv(s')
  {
    hide InLockOrder, Exclusive, ExpiredDrafts, Free;
    var tx := s'.txs[t];
    assert TxInv(s, s.txs[t]);
    forall key | tx.Holds(key) ensures s.txs[t].Holds(key) || Free(s, key) {
      var i :| 0 <= i < tx.taken && i < |tx.plan| && tx.plan[i] == key;
      assert i < s.txs[t].taken ==> s.txs[t].Holds(key);
    }
    OnlyTxKeepsInv(s, s', t, tx);
  }

  lemma NoNewLocks(s: State, t: nat, tx: Tx)
    requires Inv(s) && t in s.txs && tx.plan == s.txs[t].plan && tx.taken == s.txs[t].taken
    ensures forall key :: tx.Holds(key) ==> s.txs[t].Holds(key)
  {
  }

  lemma ReadLockTargetKeepsInv(s: State, s': State, t: nat)
    requires Inv(s) && Next(s, s', ReadLockTarget(t))
    ensures Inv(s')
  {
    hide Exclusive, ExpiredDrafts, Free;
    assert TxInv(s, s.txs[t]);
    var tx := s'.txs[t];
    forall key | tx.Holds(key) ensures s.txs[t].Holds(key) {
      assert s.txs[t].plan[0] == key;
    }
    OnlyTxKeepsInv(s, s', t, tx);
  }

  /** The steps that only read, or only move a transaction's own phase on. */
  lemma ReadStepsKeepInv(s: State, s': State, step: Step)
    requires Inv(s) && Next(s, s', step)
    requires step.BeginCleanup? || step.Scan? || step.BeginConfirm? || step.Rescan? || step.RereadDraft?
             || step.ClearDependents? || step.DeleteRows?
    ensures Inv(s')
  {
    hide Exclusive, Free, Tx.Holds;
    var t := step.t;
    if t in s.txs {
      assert TxInv(s, s.txs[t]);
    }
    if t in s'.txs {
      var tx := s'.txs[t];
      assert TxInv(s, tx);
      if step.BeginCleanup? || step.BeginConfirm? || step.Scan? {
        assert forall key :: !tx.Holds(key) by { NothingTaken(tx); }
      } else {
        NoNewLocks(s, t, tx);
      }
      OnlyTxKeepsInv(s, s', t, tx);
    } else {
      RemovedTxKeepsInv(s, s', t);
    }
  }

  lemma NothingTaken(tx: Tx)
    requires tx.taken == 0
    ensures forall key :: !tx.Holds(key)
  {
  }

  /** Every step keeps the invariant. */
  lemma NextKeepsInv(s: State, s': State, step: Step)
    requires Inv(s) && Next(s, s', step)
    ensures Inv(s')
  {
    hide Inv, Next;
    match step {
      case Tick(later) => assert later >= s.now && s' == s.(now := later) by { TickStep(s, s', later); } TickKeepsInv(s, s', later);
      case Create(id, booking) => CreateKeepsInv(s, s', id, booking);
      case Abort(t) => assert s' == s.(txs := s.txs - {t}) by { AbortStep(s, s', t); } RemovedTxKeepsInv(s, s', t);
      case CommitCleanup(t) => CommitCleanupKeepsInv(s, s', t);
      case CommitConfirm(t) => CommitConfirmKeepsInv(s, s', t);
      case CommitEdit(t, expiresAt) => CommitEditKeepsInv(s, s', t, expiresAt);
      case Acquire(t) => AcquireKeepsInv(s, s', t);
      case ReadLockTarget(t) => ReadLockTargetKeepsInv(s, s', t);
      case _ => ReadStepsKeepInv(s, s', step);
    }
  }

  lemma TickStep(s: State, s': State, later: int)
    requires Next(s, s', Tick(later))
    ensures later >= s.now && s' == s.(now := later)
  {
  }

  lemma AbortStep(s: State, s': State, t: nat)
    requires Next(s, s', Abort(t))
    ensures s' == s.(txs := s.txs - {t})
  {
  }

  // ---------- every run ----------

  ghost predicate IsRun(run: seq<State>, steps: seq<Step>) {
    && |run| == |steps| + 1 && Init(run[0])
    && forall i :: 0 <= i < |steps| ==> Next(run[i], run[i + 1], steps[i])
  }

  lemma {:induction false} RunKeepsInv(run: seq<State>, steps: seq<Step>, i: nat)
    requires IsRun(run, steps) && i < |run|
    ensures Inv(run[i])
  {
    hide Inv, Next, Init;
    if i == 0 {
      InitInv(run[0]);
    } else {
      RunKeepsInv(run, steps, i - 1);
      NextKeepsInv(run[i - 1], run[i], steps[i - 1]);
    }
  }

  /** In every interleaving, no booking in the table, confirmed or not, has lost its dependents. */
  lemma BookingsKeepDependents(run: seq<State>, steps: seq<Step>, i: nat, id: string)
    requires IsRun(run, steps) && i < |run| && id in run[i].db.bookings
    ensures id in run[i].db.dependents
  {
    hide Next, IsRun;
    RunKeepsInv(run, steps, i);
  }

  /**
   * Whatever else ran in between, a cleanup's commit takes away exactly the dependents of the bookings
   * it deletes, and each of those was an expired draft at a lodge whose lock it holds. A confirmation
   * therefore always finds the draft it re-read, and no confirmed booking is ever deleted.
   */
  lemma CleanupDeletesWhatItCleared(run: seq<State>, steps: seq<Step>, i: nat, t: nat)
    requires IsRun(run, steps) && i < |steps| && steps[i] == CommitCleanup(t)
    ensures var before, after := run[i].db, run[i + 1].db;
            && t in run[i].txs && run[i].txs[t].program.Cleanup?
            && before.bookings.Keys - after.bookings.Keys == before.dependents - after.dependents
            && (forall id :: id in after.bookings ==> after.bookings[id] == before.bookings[id])
            && forall id :: id in before.bookings && id !in after.bookings ==>
                 && IsExpiredDraft(before.bookings[id], run[i].txs[t].program.expiredBefore)
                 && run[i].txs[t].Holds(LodgeKey(before.bookings[id], run[i].defaultLodge))
  {
    hide InLockOrder, Tx.Holds, Exclusive;
    RunKeepsInv(run, steps, i);
    assert Next(run[i], run[i + 1], steps[i]);
    var tx := run[i].txs[t];
    assert TxInv(run[i], tx);
    forall id | id in run[i].db.bookings && id !in run[i + 1].db.bookings
      ensures tx.Holds(LodgeKey(run[i].db.bookings[id], run[i].defaultLodge))
    {
      HoldsItsPlan(tx, LodgeKey(run[i].db.bookings[id], run[i].defaultLodge));
    }
  }

  /** A confirmation that re-read its draft can always commit: nothing deletes or confirms it meanwhile. */
  lemma ConfirmationCanCommit(run: seq<State>, steps: seq<Step>, i: nat, t: nat)
    requires IsRun(run, steps) && i < |run| && t in run[i].txs && run[i].txs[t].phase == Confirming
    ensures run[i].txs[t].program.ConfirmDraft?
    ensures var target := run[i].txs[t].program.target;
            target in run[i].db.bookings && run[i].db.bookings[target].status == Draft && target in run[i].db.dependents
  {
    hide Next, IsRun, InLockOrder, Exclusive;
    RunKeepsInv(run, steps, i);
    assert TxInv(run[i], run[i].txs[t]);
  }

  lemma ConfirmedStep(s: State, s': State, step: Step, id: string)
    requires Inv(s) && Next(s, s', step) && id in s.db.bookings && s.db.bookings[id].status == Confirmed
    ensures id in s'.db.bookings && s'.db.bookings[id] == s.db.bookings[id]
  {
    hide InLockOrder, Tx.Holds, Exclusive, IsCleanupPlan, Free;
    match step {
      case CommitCleanup(t) => assert TxInv(s, s.txs[t]);
      case CommitConfirm(t) => assert TxInv(s, s.txs[t]);
      case CommitEdit(t, _) => assert TxInv(s, s.txs[t]);
      case _ =>
    }
  }

  /** Once confirmed, a booking is never deleted, changed by these transactions, or robbed of its dependents. */
  lemma {:induction false} ConfirmedStays(run: seq<State>, steps: seq<Step>, i: nat, j: nat, id: string)
    requires IsRun(run, steps) && i <= j < |run|
    requires id in run[i].db.bookings && run[i].db.bookings[id].status == Confirmed
    ensures id in run[j].db.bookings && run[j].db.bookings[id] == run[i].db.bookings[id]
    ensures id in run[j].db.dependents
    decreases j
  {
    hide Inv, Next, Init;
    BookingsKeepDependents(run, steps, i, id);
    if i < j {
      ConfirmedStays(run, steps, i, j - 1, id);
      RunKeepsInv(run, steps, j - 1);
      ConfirmedStep(run[j - 1], run[j], steps[j - 1], id);
      BookingsKeepDependents(run, steps, j, id);
    }
  }

  // ---------- what a cleanup and a confirmation do ----------

  /** A cleanup past its re-scan, and what it has gathered since. */
  predicate IsPastRescan(tx: Tx) {
    tx.program.Cleanup? && (tx.phase.Rescanned? || tx.phase.DependentsGone? || tx.phase.RowsGone?)
  }

  /** Transaction `t` is neither aborted nor committed by a step of this stretch. */
  predicate GoesOn(steps: seq<Step>, start: nat, stop: nat, t: nat) {
    forall m :: start <= m < stop && m < |steps| ==> steps[m] != Abort(t) && steps[m] != CommitCleanup(t)
  }

  lemma StepPastRescan(s: State, s': State, step: Step, t: nat)
    requires Next(s, s', step) && t in s.txs && IsPastRescan(s.txs[t]) && step != Abort(t) && step != CommitCleanup(t)
    ensures t in s'.txs && s'.txs[t].program == s.txs[t].program && IsPastRescan(s'.txs[t])
    ensures s'.txs[t].phase.Rescanned? ==> s'.txs[t].phase == s.txs[t].phase
    ensures s.txs[t].phase.DependentsGone? ==>
              s'.txs[t].phase == s.txs[t].phase
              || (s'.txs[t].phase.RowsGone? && s'.txs[t].phase.cleared == s.txs[t].phase.cleared)
    ensures s.txs[t].phase.RowsGone? ==> s'.txs[t].phase == s.txs[t].phase
  {
    hide ExpiredDrafts, IsCleanupPlan, Free, LodgeKey;
  }

  lemma {:induction false} FoundStays(run: seq<State>, steps: seq<Step>, j: nat, m: nat, t: nat)
    requires IsRun(run, steps) && j < m < |run| && steps[j] == Rescan(t) && GoesOn(steps, j, m, t)
    ensures t in run[j].txs && t in run[m].txs && run[m].txs[t].program == run[j].txs[t].program && IsPastRescan(run[m].txs[t])
    ensures run[m].txs[t].phase.Rescanned? ==>
              run[m].txs[t].phase.found == ExpiredDrafts(run[j].db.bookings, run[j].txs[t].program.expiredBefore)
    decreases m
  {
    hide ExpiredDrafts, Init, IsPastRescan;
    assert Next(run[m - 1], run[m], steps[m - 1]);
    if m == j + 1 {
      RescanStep(run[j], run[m], t);
    } else {
      hide Next;
      FoundStays(run, steps, j, m - 1, t);
      StepPastRescan(run[m - 1], run[m], steps[m - 1], t);
      StillRescanned(run[m - 1].txs[t], run[m].txs[t]);
    }
  }

  lemma StillRescanned(tx: Tx, tx': Tx)
    requires tx'.phase.Rescanned? ==> tx'.phase == tx.phase
    ensures tx'.phase.Rescanned? ==> tx.phase.Rescanned? && tx'.phase.found == tx.phase.found
  {
  }

  lemma RescanStep(s: State, s': State, t: nat)
    requires Next(s, s', Rescan(t))
    ensures t in s.txs && t in s'.txs && s'.txs[t].program == s.txs[t].program && IsPastRescan(s'.txs[t])
    ensures s'.txs[t].phase == Rescanned(ExpiredDrafts(s.db.bookings, s.txs[t].program.expiredBefore))
  {
    hide ExpiredDrafts;
  }

  lemma ClearStep(s: State, s': State, t: nat, withheld: set<string>)
    requires Next(s, s', ClearDependents(t, withheld)) && IsPastRescan(s.txs[t])
    ensures s.txs[t].phase.Rescanned? && t in s'.txs && IsPastRescan(s'.txs[t])
    ensures s'.txs[t].phase == DependentsGone(s.txs[t].phase.found - withheld)
  {
  }

  lemma {:induction false} ClearedStays(run: seq<State>, steps: seq<Step>, k: nat, m: nat, t: nat, withheld: set<string>)
    requires IsRun(run, steps) && k < m < |run| && steps[k] == ClearDependents(t, withheld) && GoesOn(steps, k, m, t)
    requires t in run[k].txs && IsPastRescan(run[k].txs[t])
    ensures t in run[m].txs && IsPastRescan(run[m].txs[t]) && run[k].txs[t].phase.Rescanned?
    ensures var cleared := run[k].txs[t].phase.found - withheld;
            run[m].txs[t].phase == DependentsGone(cleared)
            || (run[m].txs[t].phase.RowsGone? && run[m].txs[t].phase.cleared == cleared)
    decreases m
  {
    hide ExpiredDrafts, Init, IsPastRescan;
    assert Next(run[m - 1], run[m], steps[m - 1]);
    hide Next;
    if m == k + 1 {
      ClearStep(run[k], run[m], t, withheld);
    } else {
      ClearedStays(run, steps, k, m - 1, t, withheld);
      StepPastRescan(run[m - 1], run[m], steps[m - 1], t);
    }
  }

  /** A cleanup's commit takes away the rows it deleted, which are those whose dependents it cleared. */
  lemma CommitTakes(s: State, s': State, t: nat)
    requires Inv(s) && Next(s, s', CommitCleanup(t))
    ensures t in s.txs && s.txs[t].phase.RowsGone?
    ensures s.txs[t].phase.cleared <= s.db.bookings.Keys
    ensures s.db.bookings.Keys - s'.db.bookings.Keys == s.txs[t].phase.cleared
  {
    hide InLockOrder, Tx.Holds, Exclusive;
    assert TxInv(s, s.txs[t]);
  }

  /**
   * A cleanup that re-scans, clears and commits deletes exactly the bookings that were drafts with an
   * expiry before its cut-off when it re-scanned, but for those withheld, whatever ran in between.
   */
  lemma CleanupDeletesExactly(
    run: seq<State>, steps: seq<Step>, j: nat, k: nat, i: nat, t: nat, withheld: set<string>
  )
    requires IsRun(run, steps) && j < k < i < |steps| && GoesOn(steps, j, i, t)
    requires steps[j] == Rescan(t) && steps[k] == ClearDependents(t, withheld) && steps[i] == CommitCleanup(t)
    ensures t in run[j].txs && run[j].txs[t].program.Cleanup?
    ensures var rescanned, cutOff := run[j].db.bookings, run[j].txs[t].program.expiredBefore;
            forall id :: id in run[i].db.bookings && id !in run[i + 1].db.bookings <==>
                           && id in rescanned && id !in withheld && rescanned[id].status == Draft
                           && rescanned[id].expiresAt.Some? && rescanned[id].expiresAt.value < cutOff
  {
    hide Inv, Next, IsPastRescan, Init;
    FoundStays(run, steps, j, k, t);
    StepIsNext(run, steps, k);
    ClearStep(run[k], run[k + 1], t, withheld);
    ClearedStays(run, steps, k, i, t, withheld);
    RunKeepsInv(run, steps, i);
    StepIsNext(run, steps, i);
    CommitTakes(run[i], run[i + 1], t);
    FoundStays(run, steps, j, i, t);
    CleanupPhases(run[i].txs[t]);
    hide *;
    DeletedWereExpired(run[i].db.bookings, run[i + 1].db.bookings, run[j].db.bookings,
                       run[j].txs[t].program.expiredBefore, withheld);
  }

  lemma DeletedWereExpired(before: map<string, Booking>, after: map<string, Booking>, rescanned: map<string, Booking>,
                           cutOff: int, withheld: set<string>)
    requires before.Keys - after.Keys == ExpiredDrafts(rescanned, cutOff) - withheld
    ensures forall id :: id in before && id !in after <==>
                           && id in rescanned && id !in withheld && rescanned[id].status == Draft
                           && rescanned[id].expiresAt.Some? && rescanned[id].expiresAt.value < cutOff
  {
    forall id ensures id in before && id !in after <==> id in ExpiredDrafts(rescanned, cutOff) - withheld {
      assert id in before && id !in after <==> id in before.Keys - after.Keys;
    }
  }

  lemma CleanupPhases(tx: Tx)
    requires IsPastRescan(tx)
    ensures tx.program.Cleanup?
  {
  }

  lemma StepIsNext(run: seq<State>, steps: seq<Step>, i: nat)
    requires IsRun(run, steps) && i < |steps|
    ensures Next(run[i], run[i + 1], steps[i])
  {
  }

  /** A confirmation's commit makes its draft a confirmed booking that no longer expires, and changes no other. */
  lemma ConfirmationConfirms(run: seq<State>, steps: seq<Step>, i: nat, t: nat)
    requires IsRun(run, steps) && i < |steps| && steps[i] == CommitConfirm(t)
    ensures t in run[i].txs && run[i].txs[t].program.ConfirmDraft?
    ensures var target, before, after := run[i].txs[t].program.target, run[i].db.bookings, run[i + 1].db.bookings;
            && target in before && before[target].status == Draft
            && after.Keys == before.Keys && run[i + 1].db.dependents == run[i].db.dependents
            && after[target] == Booking(Confirmed, before[target].lodge, None)
            && forall id :: id in before && id != target ==> after[id] == before[id]
  {
    RunKeepsInv(run, steps, i);
    ConfirmStep(run[i], run[i + 1], t);
  }

  lemma ConfirmStep(s: State, s': State, t: nat)
    requires Inv(s) && Next(s, s', CommitConfirm(t))
    ensures t in s.txs && s.txs[t].program.ConfirmDraft?
    ensures var target, before, after := s.txs[t].program.target, s.db.bookings, s'.db.bookings;
            && target in before && before[target].status == Draft
            && after.Keys == before.Keys && s'.db.dependents == s.db.dependents
            && after[target] == Booking(Confirmed, before[target].lodge, None)
            && forall id :: id in before && id != target ==> after[id] == before[id]
  {
    hide InLockOrder, Tx.Holds, Exclusive;
    assert TxInv(s, s.txs[t]);
  }

  // ---------- no deadlock ----------

  function NextKey(tx: Tx): LockKey
    requires tx.Waits()
  {
    tx.plan[tx.taken]
  }

  /** A group of transactions each waiting for a lock that one of the group holds. */
  ghost predicate Deadlocked(s: State, group: set<nat>) {
    group != {} && group <= s.txs.Keys && forall t :: t in group ==> IsBlocked(s, group, t)
  }

  ghost predicate IsBlocked(s: State, group: set<nat>, t: nat)
    requires group <= s.txs.Keys && t in group
  {
    s.txs[t].Waits() && exists u :: u in group && s.txs[u].Holds(NextKey(s.txs[t]))
  }

  /** Some member of a group waits for a lock that no other member waits beyond. */
  lemma {:induction false} FarthestWaiter(s: State, group: set<nat>) returns (t: nat)
    requires group != {} && group <= s.txs.Keys && forall u :: u in group ==> s.txs[u].Waits()
    ensures t in group && forall u :: u in group ==> !KeyLess(NextKey(s.txs[t]), NextKey(s.txs[u]))
    decreases group
  {
    hide KeyLess;
    t :| t in group;
    if group == {t} {
      KeyLessIrreflexive(NextKey(s.txs[t]));
    } else {
      var rest := FarthestWaiter(s, group - {t});
      KeyLessIrreflexive(NextKey(s.txs[t]));
      if KeyLess(NextKey(s.txs[t]), NextKey(s.txs[rest])) {
        KeyLessAsymmetric(NextKey(s.txs[t]), NextKey(s.txs[rest]));
        t := rest;
      } else {
        forall u | u in group ensures !KeyLess(NextKey(s.txs[t]), NextKey(s.txs[u])) {
          NotBeyondEither(NextKey(s.txs[t]), NextKey(s.txs[rest]), NextKey(s.txs[u]));
        }
      }
    }
  }

  lemma KeyLessIrreflexive(key: LockKey)
    ensures !KeyLess(key, key)
  {
    if key.Lodge? {
      LessIrreflexive(key.id);
    }
  }

  lemma KeyLessAsymmetric(a: LockKey, b: LockKey)
    requires KeyLess(a, b)
    ensures !KeyLess(b, a)
  {
    if a.Lodge? {
      LessAsymmetric(a.id, b.id);
    }
  }

  /** The order of lock keys is total, so what is not below the maximum is not below anything under it. */
  lemma NotBeyondEither(a: LockKey, max: LockKey, b: LockKey)
    requires !KeyLess(a, max) && (!KeyLess(max, b) || a == b)
    ensures !KeyLess(a, b)
  {
    KeyLessIrreflexive(a);
    if a != b && KeyLess(a, b) && a.Lodge? && max.Lodge? {
      LessTotal(a.id, max.id);
      if Less(max.id, a.id) {
        LessTransitive(max.id, a.id, b.id);
      }
    }
  }

  /** No reachable state holds a deadlock, whatever cleanups and confirmations are in flight. */
  lemma NeverDeadlocked(run: seq<State>, steps: seq<Step>, i: nat, group: set<nat>)
    requires IsRun(run, steps) && i < |run|
    ensures !Deadlocked(run[i], group)
  {
    hide Next, IsRun, Exclusive, CleanupCovers, ConfirmCovers, KeyLess;
    RunKeepsInv(run, steps, i);
    var s := run[i];
    assert forall u :: u in s.txs ==> InLockOrder(s.txs[u].plan) by {
      assert forall u :: u in s.txs ==> TxInv(s, s.txs[u]);
    }
    if group != {} && group <= s.txs.Keys && forall t :: t in group ==> s.txs[t].Waits() {
      var t := FarthestWaiter(s, group);
      forall u | u in group ensures !s.txs[u].Holds(NextKey(s.txs[t])) {
        if s.txs[u].Holds(NextKey(s.txs[t])) {
          HolderWaitsBeyond(s.txs[u], NextKey(s.txs[t]));
        }
      }
    }
  }

  /** A transaction waits only for locks beyond those it holds. */
  lemma HolderWaitsBeyond(tx: Tx, key: LockKey)
    requires InLockOrder(tx.plan) && tx.Waits() && tx.Holds(key)
    ensures KeyLess(key, NextKey(tx))
  {
    hide KeyLess;
  }

  // ---------- somebody always moves ----------

  lemma KeyLessTotal(a: LockKey, b: LockKey)
    ensures KeyLess(a, b) || a == b || KeyLess(b, a)
  {
    if a.Lodge? && b.Lodge? {
      LessTotal(a.id, b.id);
    }
  }

  lemma KeyLessTransitive(a: LockKey, b: LockKey, c: LockKey)
    requires KeyLess(a, b) && KeyLess(b, c)
    ensures KeyLess(a, c)
  {
    if a.Lodge? && b.Lodge? {
      LessTransitive(a.id, b.id, c.id);
    }
  }

  /** A set of keys has a last one in the lock order. */
  lemma {:induction false} LastKey(keys: set<LockKey>) returns (last: LockKey)
    requires keys != {}
    ensures last in keys && forall key :: key in keys && key != last ==> KeyLess(key, last)
    decreases keys
  {
    hide KeyLess;
    last :| last in keys;
    if keys != {last} {
      var other := LastKey(keys - {last});
      KeyLessTotal(last, other);
      if KeyLess(last, other) {
        last := other;
      } else {
        forall key | key in keys && key != last ensures KeyLess(key, last) {
          if key != other {
            KeyLessTransitive(key, other, last);
          }
        }
      }
    }
  }

  /** Every set of locks can be put in order, without repeats. */
  lemma {:induction false} PlanExists(keys: set<LockKey>) returns (plan: seq<LockKey>)
    ensures InLockOrder(plan) && forall key :: key in plan <==> key in keys
    decreases keys
  {
    hide KeyLess;
    if keys == {} {
      plan := [];
    } else {
      var last := LastKey(keys);
      var front := PlanExists(keys - {last});
      plan := front + [last];
      forall i, j | 0 <= i < j < |plan| ensures KeyLess(plan[i], plan[j]) {
        assert plan[i] in front;
      }
    }
  }

  lemma ScanPlan(bookings: map<string, Booking>, before: int, defaultLodge: string) returns (plan: seq<LockKey>)
    ensures IsCleanupPlan(plan, bookings, ExpiredDrafts(bookings, before), defaultLodge)
  {
    var found := ExpiredDrafts(bookings, before);
    plan := PlanExists(set id | id in found :: LodgeKey(bookings[id], defaultLodge));
  }

  /** Transaction `t` can take a step of its own, other than giving up. */
  ghost predicate CanMove(s: State, t: nat) {
    exists step, s' :: StepOf(step) == Some(t) && !step.Abort? && Next(s, s', step)
  }

  function StepOf(step: Step): Option<nat> {
    if step.Tick? || step.Create? then None else Some(step.t)
  }

  /** A transaction that waits for no lock, or for one that nobody holds, can move. */
  lemma FreeToMove(s: State, t: nat)
    requires Inv(s) && t in s.txs && (s.txs[t].Waits() ==> Free(s, NextKey(s.txs[t])))
    ensures CanMove(s, t)
  {
    hide InLockOrder, Exclusive, CleanupCovers;
    var tx := s.txs[t];
    assert TxInv(s, tx);
    if tx.Waits() {
      MoveBy(s, s.(txs := s.txs[t := tx.(taken := tx.taken + 1)]), Acquire(t), t);
    } else if tx.program.Cleanup? {
      CleanupMoves(s, t);
    } else {
      ConfirmationMoves(s, t);
    }
  }

  lemma MoveBy(s: State, s': State, step: Step, t: nat)
    requires StepOf(step) == Some(t) && !step.Abort? && Next(s, s', step)
    ensures CanMove(s, t)
  {
  }

  lemma CleanupMoves(s: State, t: nat)
    requires t in s.txs && TxShape(s.txs[t]) && s.txs[t].program.Cleanup? && !s.txs[t].Waits()
    ensures CanMove(s, t)
  {
    hide InLockOrder, CanMove, IsCleanupPlan, ExpiredDrafts;
    var tx := s.txs[t];
    match tx.phase {
      case Begun =>
        var plan := ScanPlan(s.db.bookings, tx.program.expiredBefore, s.defaultLodge);
        MoveBy(s, s.(txs := s.txs[t := tx.(phase := Locking, plan := plan)]), Scan(t, plan), t);
      case Locking =>
        var found := ExpiredDrafts(s.db.bookings, tx.program.expiredBefore);
        MoveBy(s, s.(txs := s.txs[t := tx.(phase := Rescanned(found))]), Rescan(t), t);
      case Rescanned(found) =>
        MoveBy(s, s.(txs := s.txs[t := tx.(phase := DependentsGone(found - {}))]), ClearDependents(t, {}), t);
      case DependentsGone(cleared) =>
        var deleted := cleared * ExpiredDrafts(s.db.bookings, tx.program.expiredBefore);
        MoveBy(s, s.(txs := s.txs[t := tx.(phase := RowsGone(cleared, deleted))]), DeleteRows(t), t);
      case RowsGone(cleared, deleted) =>
        MoveBy(s, s.(db := Database(s.db.bookings - deleted, s.db.dependents - cleared), txs := s.txs - {t}), CommitCleanup(t), t);
      case Confirming =>
    }
  }

  lemma ConfirmationMoves(s: State, t: nat)
    requires t in s.txs && TxInv(s, s.txs[t]) && s.txs[t].program.ConfirmDraft? && !s.txs[t].Waits()
    ensures CanMove(s, t)
  {
    hide InLockOrder, CanMove;
    var tx := s.txs[t];
    var target := tx.program.target;
    if tx.phase == Begun {
      var key := if target in s.db.bookings then LodgeKey(s.db.bookings[target], s.defaultLodge) else Lodge(s.defaultLodge);
      MoveBy(s, s.(txs := s.txs[t := tx.(phase := Locking, plan := [Global, key])]), ReadLockTarget(t), t);
    } else if tx.phase == Locking {
      var goesOn := target in s.db.bookings && s.db.bookings[target].status == Draft;
      MoveBy(s, if goesOn then s.(txs := s.txs[t := tx.(phase := Confirming)]) else s.(txs := s.txs - {t}), RereadDraft(t), t);
    } else {
      var paid := s.db.bookings[target].(status := Confirmed, expiresAt := None);
      MoveBy(s, s.(db := s.db.(bookings := s.db.bookings[target := paid]), txs := s.txs - {t}), CommitConfirm(t), t);
    }
  }

  /** Waits for no lock, or for one that nobody holds. */
  predicate IsFree(s: State, t: nat) {
    t in s.txs && (s.txs[t].Waits() ==> Free(s, NextKey(s.txs[t])))
  }

  lemma NotFreeIsBlocked(s: State, t: nat)
    requires t in s.txs && !IsFree(s, t)
    ensures IsBlocked(s, s.txs.Keys, t)
  {
    hide Tx.Holds, NextKey;
    var u :| u in s.txs && s.txs[u].Holds(NextKey(s.txs[t]));
    assert u in s.txs.Keys;
  }

  lemma NobodyFreeIsDeadlock(s: State)
    requires s.txs != map[] && forall t :: t in s.txs ==> !IsFree(s, t)
    ensures Deadlocked(s, s.txs.Keys)
  {
    hide IsFree, IsBlocked;
    var some :| some in s.txs;
    assert some in s.txs.Keys;
    forall t | t in s.txs.Keys ensures IsBlocked(s, s.txs.Keys, t) {
      NotFreeIsBlocked(s, t);
    }
  }

  /** While any transaction is open, one of them can take a step of its own that is no abort. */
  lemma SomebodyMoves(run: seq<State>, steps: seq<Step>, i: nat)
    requires IsRun(run, steps) && i < |run| && run[i].txs != map[]
    ensures exists t :: t in run[i].txs && CanMove(run[i], t)
  {
    hide IsRun, Inv, CanMove, Deadlocked, Free, NextKey;
    var s := run[i];
    RunKeepsInv(run, steps, i);
    NeverDeadlocked(run, steps, i, s.txs.Keys);
    if forall t :: t in s.txs ==> !IsFree(s, t) {
      NobodyFreeIsDeadlock(s);
    } else {
      var t :| t in s.txs && IsFree(s, t);
      FreeToMove(s, t);
    }
  }

  // ---------- one run of each ----------

  const LONE_DATABASE := Database(map["d" := Booking(Draft, None, Some(5))], {"d"})

  /** One expired draft, and one cleanup at some phase. */
  function LoneState(phase: Phase, plan: seq<LockKey>, taken: nat): State {
    State(9, LONE_DATABASE, {"d"}, map[0 := Tx(Cleanup(9), phase, plan, taken)], "main")
  }

  lemma LoneDraft()
    ensures ExpiredDrafts(LONE_DATABASE.bookings, 9) == {"d"}
    ensures IsCleanupPlan([Lodge("main")], LONE_DATABASE.bookings, {"d"}, "main")
  {
    OneDraftPlan(LONE_DATABASE.bookings, "d", "main");
  }

  lemma LoneScan()
    ensures var open := State(9, LONE_DATABASE, {"d"}, map[], "main");
            Next(open, LoneState(Begun, [], 0), BeginCleanup(0, 9))
    ensures Next(LoneState(Begun, [], 0), LoneState(Locking, [Lodge("main")], 0), Scan(0, [Lodge("main")]))
  {
    LoneDraft();
    hide ExpiredDrafts, IsCleanupPlan, LONE_DATABASE;
  }

  lemma LoneRescan()
    ensures Next(LoneState(Locking, [Lodge("main")], 0), LoneState(Locking, [Lodge("main")], 1), Acquire(0))
    ensures Next(LoneState(Locking, [Lodge("main")], 1), LoneState(Rescanned({"d"}), [Lodge("main")], 1), Rescan(0))
  {
    LoneDraft();
    hide ExpiredDrafts, LONE_DATABASE;
  }

  lemma LoneDelete()
    ensures Next(LoneState(Rescanned({"d"}), [Lodge("main")], 1), LoneState(DependentsGone({"d"}), [Lodge("main")], 1),
                 ClearDependents(0, {}))
    ensures Next(LoneState(DependentsGone({"d"}), [Lodge("main")], 1), LoneState(RowsGone({"d"}, {"d"}), [Lodge("main")], 1),
                 DeleteRows(0))
  {
    LoneDraft();
    hide ExpiredDrafts, LONE_DATABASE;
    assert {"d"} - {} == {"d"} && {"d"} * {"d"} == {"d"};
  }

  lemma LoneCommit()
    ensures Next(LoneState(RowsGone({"d"}, {"d"}), [Lodge("main")], 1), State(9, Database(map[], {}), {"d"}, map[], "main"),
                 CommitCleanup(0))
  {
    assert LONE_DATABASE.bookings - {"d"} == map[] && {"d"} - {"d"} == {};
    assert LoneState(RowsGone({"d"}, {"d"}), [Lodge("main")], 1).txs - {0} == map[];
  }

  /** One expired draft and one cleanup, with nothing else running: the draft and its dependents are gone. */
  lemma LoneCleanup() returns (run: seq<State>, steps: seq<Step>)
    ensures IsRun(run, steps)
    ensures run[0].db == Database(map["d" := Booking(Draft, None, Some(5))], {"d"})
    ensures run[|steps|].db == Database(map[], {}) && run[|steps|].txs == map[]
  {
    hide Next, LoneState;
    LoneScan();
    LoneRescan();
    LoneDelete();
    LoneCommit();
    var plan := [Lodge("main")];
    run := [
      State(9, LONE_DATABASE, {"d"}, map[], "main"), LoneState(Begun, [], 0), LoneState(Locking, plan, 0),
      LoneState(Locking, plan, 1), LoneState(Rescanned({"d"}), plan, 1), LoneState(DependentsGone({"d"}), plan, 1),
      LoneState(RowsGone({"d"}, {"d"}), plan, 1), State(9, Database(map[], {}), {"d"}, map[], "main")
    ];
    steps := [
      BeginCleanup(0, 9), Scan(0, plan), Acquire(0), Rescan(0), ClearDependents(0, {}), DeleteRows(0), CommitCleanup(0)
    ];
  }

  lemma OneDraftPlan(bookings: map<string, Booking>, id: string, defaultLodge: string)
    requires id in bookings && LodgeKey(bookings[id], defaultLodge) == Lodge(defaultLodge)
    ensures IsCleanupPlan([Lodge(defaultLodge)], bookings, {id}, defaultLodge)
  {
    assert LodgeKey(bookings[id], defaultLodge) in [Lodge(defaultLodge)];
  }
}

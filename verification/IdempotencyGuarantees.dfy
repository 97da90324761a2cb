/** What the claim protocol guarantees over every run: bounded execution, and single flight with a
    stable commit. */
module IdempotencyGuarantees {
  import opened Wrappers
  import opened Idempotency
  import Lock = MemoryLock

  // ---- Lock exclusion, as the protocol uses it ----

  /** No step makes a call own a lease it did not own before: a lost claim lock stays lost. */
  lemma OwnershipShrinks(cfg: Config, s: Sys, step: Step, h: Lock.Handle)
    requires Enabled(s, step) && h.token < s.lock.nextToken
    requires var s' := Next(cfg, s, step); Lock.Owns(s'.lock, h, s'.now)
    ensures Lock.Owns(s.lock, h, s.now)
  {
    var s' := Next(cfg, s, step);
    match step
    case TryLock(id, swept, tested, stamped) =>
      Lock.AcquireExact(s.lock, LOCK_KEY, cfg.lockTtlMs, swept, tested, stamped, h, s'.now);
    case Unlock(id, landed, tested) =>
      if landed {
        Lock.ReleaseAndRefreshExact(s.lock, s.calls[id].pc.lock, 0, tested, tested, h, s'.now);
      }
    case _ =>
  }

  ghost predicate HoldsClaimLock(s: Sys, id: nat) {
    id in s.calls && s.calls[id].pc.Claiming? && Lock.Owns(s.lock, s.calls[id].pc.lock, s.now)
  }

  /** At most one call is between its re-read and its claim write with the lock still its own. */
  lemma ClaimLockExclusive(s: Sys, i: nat, j: nat)
    requires Shape(s) && HoldsClaimLock(s, i) && HoldsClaimLock(s, j)
    ensures i == j
  {
    assert CallShape(s, i) && CallShape(s, j);
  }

  /** A call holding the claim lock after a step held it before, or just saw no record. */
  ghost predicate WasHolder(s: Sys, step: Step, j: nat) {
    if step.WriteClaim? then HoldsClaimLock(s, j) && step.id != j
    else HoldsClaimLock(s, j) || s.store.None?
  }

  /** A call waiting to write its claim after a step waited before, or has just read that there is no
      record. */
  lemma ClaimingBefore(cfg: Config, s: Sys, s': Sys, step: Step, j: nat)
    requires Enabled(s, step) && s' == Next(cfg, s, step)
    requires j in s'.calls && s'.calls[j].pc.Claiming?
    ensures (j in s.calls && s.calls[j].pc == s'.calls[j].pc)
         || (s.store.None? && !step.WriteClaim?)
    ensures step.WriteClaim? ==> step.id != j
  {
  }

  lemma HoldersShrink(cfg: Config, s: Sys, step: Step, j: nat)
    requires Shape(s) && Enabled(s, step) && HoldsClaimLock(Next(cfg, s, step), j)
    ensures WasHolder(s, step, j)
  {
    var s' := Next(cfg, s, step);
    ClaimingBefore(cfg, s, s', step, j);
    if j in s.calls && s.calls[j].pc == s'.calls[j].pc {
      assert CallShape(s, j);
      OwnershipShrinks(cfg, s, step, s.calls[j].pc.lock);
    }
  }

  // ---- Bounded execution ----

  ghost function Gone(s: Sys): nat {
    s.past.losses + s.past.removals
  }

  /** Each claim beyond the first was written over a record seen missing, which a loss or a
      release had taken out. */
  ghost predicate Bounded(s: Sys) {
    && |s.past.claimed| <= Gone(s) + (if s.store.Some? then 1 else 0)
    && forall id | HoldsClaimLock(s, id) :: |s.past.claimed| <= Gone(s)
  }

  /** How a step touches the claims and the record: only a claim write adds a claim, and a record
      disappears only into a loss or a removal. */
  ghost predicate ClaimEffect(s: Sys, s': Sys, step: Step) {
    && s.past.claimed <= s'.past.claimed
    && Gone(s) <= Gone(s')
    && (step.WriteClaim? ==>
          && s'.past.claimed <= s.past.claimed + {step.id}
          && (s'.past.claimed != s.past.claimed ==> s'.store.Some?))
    && (!step.WriteClaim? ==> s'.past.claimed == s.past.claimed)
    && (s.store.Some? && s'.store.None? ==> Gone(s) < Gone(s'))
  }

  lemma StepClaimEffect(cfg: Config, s: Sys, step: Step)
    requires Enabled(s, step)
    ensures ClaimEffect(s, Next(cfg, s, step), step)
  {
  }

  lemma BoundedAfter(s: Sys, s': Sys, step: Step)
    requires Shape(s) && Bounded(s) && ClaimEffect(s, s', step)
    requires step.WriteClaim? ==> HoldsClaimLock(s, step.id)
    requires forall j | HoldsClaimLock(s', j) :: WasHolder(s, step, j)
    ensures Bounded(s')
  {
    if step.WriteClaim? {
      forall j ensures !HoldsClaimLock(s', j) {
        if HoldsClaimLock(s, j) { ClaimLockExclusive(s, j, step.id); }
      }
      var n := |s.past.claimed|;
      assert |s.past.claimed + {step.id}| <= n + 1;
      assert s'.past.claimed == s.past.claimed || s'.past.claimed == s.past.claimed + {step.id};
    }
  }

  lemma BoundedPreserved(cfg: Config, s: Sys, step: Step)
    requires Shape(s) && Bounded(s) && Enabled(s, step) && Timely(s, step)
    ensures Bounded(Next(cfg, s, step))
  {
    forall j | HoldsClaimLock(Next(cfg, s, step), j) ensures WasHolder(s, step, j) {
      HoldersShrink(cfg, s, step, j);
    }
    StepClaimEffect(cfg, s, step);
    BoundedAfter(s, Next(cfg, s, step), step);
  }

  lemma {:induction false} ShapeThroughout(cfg: Config, states: seq<Sys>, steps: seq<Step>, n: nat)
    requires IsRun(cfg, states, steps) && n < |states|
    ensures Shape(states[n])
  {
    if n > 0 {
      ShapeThroughout(cfg, states, steps, n - 1);
      ShapePreserved(cfg, states[n - 1], steps[n - 1]);
    }
  }

  lemma {:induction false} BoundedThroughout(cfg: Config, states: seq<Sys>, steps: seq<Step>, n: nat)
    requires IsRun(cfg, states, steps) && TimelyRun(cfg, states, steps) && n < |states|
    ensures Bounded(states[n])
  {
    if n > 0 {
      BoundedThroughout(cfg, states, steps, n - 1);
      ShapeThroughout(cfg, states, steps, n - 1);
      BoundedPreserved(cfg, states[n - 1], steps[n - 1]);
    }
  }

  /** How often the work itself was started. */
  function Starts(steps: seq<Step>): nat {
    if steps == [] then 0
    else Starts(steps[..|steps| - 1]) + if steps[|steps| - 1].Start? then 1 else 0
  }

  lemma StepStartEffect(cfg: Config, s: Sys, step: Step)
    requires Shape(s) && Enabled(s, step)
    ensures |Next(cfg, s, step).past.started| == |s.past.started| + if step.Start? then 1 else 0
  {
    if step.Start? { assert CallShape(s, step.id); }
  }

  lemma {:induction false} StartsCounted(cfg: Config, states: seq<Sys>, steps: seq<Step>, n: nat)
    requires IsRun(cfg, states, steps) && n < |states|
    ensures |states[n].past.started| == Starts(steps[..n])
  {
    if n > 0 {
      StartsCounted(cfg, states, steps, n - 1);
      ShapeThroughout(cfg, states, steps, n - 1);
      StepStartEffect(cfg, states[n - 1], steps[n - 1]);
      assert steps[..n][..n - 1] == steps[..n - 1];
    }
  }

  /** Bounded execution: whatever the interleaving, crashes, errors and late writes included, the
      work starts at most once, plus once per record lost and per claim released. */
  lemma BoundedExecution(cfg: Config, states: seq<Sys>, steps: seq<Step>, n: nat)
    requires IsRun(cfg, states, steps) && TimelyRun(cfg, states, steps) && n < |states|
    ensures Starts(steps[..n]) <= 1 + states[n].past.losses + states[n].past.removals
  {
    ShapeThroughout(cfg, states, steps, n);
    BoundedThroughout(cfg, states, steps, n);
    StartsCounted(cfg, states, steps, n);
    Subsets(states[n].past.started, states[n].past.claimed);
  }

  lemma Subsets<T>(a: set<T>, b: set<T>)
    requires a <= b
    ensures |a| <= |b|
  {
    assert b == a + (b - a);
  }

  // ---- Bounded execution without assumptions ----

  predicate LandsOnRecord(s: Sys, step: Step) {
    step.WriteClaim? && step.landed && s.store.Some?
  }

  /** How many of the first `n` steps wrote a claim over a record still standing. */
  function Overwrites(states: seq<Sys>, steps: seq<Step>, n: nat): nat
    requires |states| == |steps| + 1 && n <= |steps|
  {
    if n == 0 then 0
    else Overwrites(states, steps, n - 1) + if LandsOnRecord(states[n - 1], steps[n - 1]) then 1 else 0
  }

  lemma NewClaimLands(cfg: Config, s: Sys, step: Step)
    requires Enabled(s, step)
    ensures Next(cfg, s, step).past.claimed != s.past.claimed ==> step.WriteClaim? && step.landed
  {
  }

  lemma {:induction false} ClaimsCounted(cfg: Config, states: seq<Sys>, steps: seq<Step>, n: nat)
    requires IsRun(cfg, states, steps) && n < |states|
    ensures var s := states[n];
      |s.past.claimed| <= Gone(s) + (if s.store.Some? then 1 else 0) + Overwrites(states, steps, n)
  {
    if n > 0 {
      var s, s', step := states[n - 1], states[n], steps[n - 1];
      ClaimsCounted(cfg, states, steps, n - 1);
      StepClaimEffect(cfg, s, step);
      NewClaimLands(cfg, s, step);
      if s'.past.claimed != s.past.claimed {
        assert s'.past.claimed == s.past.claimed + {step.id};
        assert step.id !in s.past.claimed;
      }
    }
  }

  /** In every run, lapsed locks included, the work starts at most once, plus once per record lost, per
      claim released, and per claim written over a record still standing. */
  lemma {:induction false} BoundedAlways(cfg: Config, states: seq<Sys>, steps: seq<Step>, n: nat)
    requires IsRun(cfg, states, steps) && n < |states|
    ensures Starts(steps[..n])
         <= 1 + states[n].past.losses + states[n].past.removals + Overwrites(states, steps, n)
  {
    ShapeThroughout(cfg, states, steps, n);
    ClaimsCounted(cfg, states, steps, n);
    StartsCounted(cfg, states, steps, n);
    Subsets(states[n].past.started, states[n].past.claimed);
  }

  // ---- Single flight and stable commit ----

  /** No record is lost while the call that owns it is between its claim and its completion;
      `IdempotencyDeadlines` says exactly when that is. */
  ghost predicate Undisturbed(s: Sys, s': Sys) {
    s.store.Some? && s'.past.losses > s.past.losses ==>
      forall id <- s.calls :: ClaimOf(s.calls[id].pc) != Some(s.store.value.record.claimId)
  }

  ghost predicate UndisturbedRun(states: seq<Sys>) {
    forall i | 0 < i < |states| :: Undisturbed(states[i - 1], states[i])
  }

  predicate OwnsRecord(s: Sys, id: nat)
    requires id in s.calls
  {
    && s.store.Some?
    && Some(s.store.value.record.claimId) == ClaimOf(s.calls[id].pc)
    && s.store.value.record.state.InFlight?
  }

  ghost predicate Exclusive(s: Sys) {
    && (forall id <- s.calls :: ClaimOf(s.calls[id].pc).Some? ==> OwnsRecord(s, id))
    && (forall id | HoldsClaimLock(s, id) :: s.store.None?)
  }

  lemma AtMostOneOwner(s: Sys, i: nat, j: nat)
    requires Shape(s) && Exclusive(s) && i in s.calls && j in s.calls
    requires ClaimOf(s.calls[i].pc).Some? && ClaimOf(s.calls[j].pc).Some?
    ensures i == j
  {
  }

  predicate Completes(step: Step) {
    step.WriteResult? || step.DeleteClaim?
  }

  /** Ownership starts with a landed claim write and otherwise only continues or ends. */
  ghost predicate OwnerBefore(s: Sys, s': Sys, step: Step, j: nat) {
    j in s'.calls && ClaimOf(s'.calls[j].pc).Some? ==>
      || (j in s.calls && ClaimOf(s.calls[j].pc) == ClaimOf(s'.calls[j].pc))
      || (step.WriteClaim? && step.id == j && OwnsRecord(s', j))
  }

  /** The record changes only at a claim write, a completion by an owner, or a loss. */
  ghost predicate RecordEffect(s: Sys, s': Sys, step: Step) {
    && (Completes(step) ==>
          && step.id in s.calls && ClaimOf(s.calls[step.id].pc).Some?
          && step.id in s'.calls && ClaimOf(s'.calls[step.id].pc).None?)
    && (!Completes(step) && !step.WriteClaim? && s'.store != s.store ==>
          s.store.Some? && s'.store.None? && s'.past.losses > s.past.losses)
  }

  lemma StepOwnerBefore(cfg: Config, s: Sys, step: Step, j: nat)
    requires Enabled(s, step)
    ensures OwnerBefore(s, Next(cfg, s, step), step, j)
  {
  }

  lemma StepRecordEffect(cfg: Config, s: Sys, step: Step)
    requires Enabled(s, step)
    ensures RecordEffect(s, Next(cfg, s, step), step)
  {
  }

  lemma ExclusiveAfter(s: Sys, s': Sys, step: Step)
    requires Shape(s) && Exclusive(s) && RecordEffect(s, s', step) && Undisturbed(s, s')
    requires forall j <- s'.calls :: OwnerBefore(s, s', step, j)
    requires step.WriteClaim? ==> HoldsClaimLock(s, step.id)
    requires forall j | HoldsClaimLock(s', j) :: WasHolder(s, step, j)
    ensures Exclusive(s')
  {
    forall j <- s'.calls | ClaimOf(s'.calls[j].pc).Some? ensures OwnsRecord(s', j) {
      if Completes(step) { AtMostOneOwner(s, j, step.id); }
    }
    forall j | HoldsClaimLock(s', j) ensures s'.store.None? {
      if step.WriteClaim? { ClaimLockExclusive(s, j, step.id); }
    }
  }

  lemma ExclusivePreserved(cfg: Config, s: Sys, step: Step)
    requires Shape(s) && Exclusive(s) && Enabled(s, step) && Timely(s, step)
    requires Undisturbed(s, Next(cfg, s, step))
    ensures Exclusive(Next(cfg, s, step))
  {
    forall j | HoldsClaimLock(Next(cfg, s, step), j) ensures WasHolder(s, step, j) {
      HoldersShrink(cfg, s, step, j);
    }
    forall j <- Next(cfg, s, step).calls ensures OwnerBefore(s, Next(cfg, s, step), step, j) {
      StepOwnerBefore(cfg, s, step, j);
    }
    StepRecordEffect(cfg, s, step);
    ExclusiveAfter(s, Next(cfg, s, step), step);
  }

  lemma {:induction false} ExclusiveThroughout(cfg: Config, states: seq<Sys>, steps: seq<Step>, n: nat)
    requires IsRun(cfg, states, steps) && TimelyRun(cfg, states, steps) && UndisturbedRun(states)
    requires n < |states|
    ensures Exclusive(states[n])
  {
    if n > 0 {
      ExclusiveThroughout(cfg, states, steps, n - 1);
      ShapeThroughout(cfg, states, steps, n - 1);
      assert Undisturbed(states[n - 1], states[n]);
      ExclusivePreserved(cfg, states[n - 1], steps[n - 1]);
    }
  }

  /** Single flight: at most one call is between its claim and its completion, so at most one
      execution of the work is in flight. */
  lemma SingleFlight(cfg: Config, states: seq<Sys>, steps: seq<Step>, n: nat, i: nat, j: nat)
    requires IsRun(cfg, states, steps) && TimelyRun(cfg, states, steps) && UndisturbedRun(states)
    requires n < |states| && i in states[n].calls && j in states[n].calls
    requires ClaimOf(states[n].calls[i].pc).Some? && ClaimOf(states[n].calls[j].pc).Some?
    ensures i == j
  {
    ShapeThroughout(cfg, states, steps, n);
    ExclusiveThroughout(cfg, states, steps, n);
    AtMostOneOwner(states[n], i, j);
  }

  /** An owner only ever overwrites or deletes its own record, though the check and the write are
      separate steps. */
  lemma OwnRecordOnly(cfg: Config, states: seq<Sys>, steps: seq<Step>, n: nat)
    requires IsRun(cfg, states, steps) && TimelyRun(cfg, states, steps) && UndisturbedRun(states)
    requires n < |steps| && Completes(steps[n])
    ensures steps[n].id in states[n].calls && OwnsRecord(states[n], steps[n].id)
  {
    ExclusiveThroughout(cfg, states, steps, n);
    StepRecordEffect(cfg, states[n], steps[n]);
  }

  predicate Committed(s: Sys) {
    s.store.Some? && s.store.value.record.state.Completed?
  }

  lemma {:induction false} CommitStays(
      cfg: Config, states: seq<Sys>, steps: seq<Step>, i: nat, m: nat)
    requires IsRun(cfg, states, steps) && TimelyRun(cfg, states, steps) && UndisturbedRun(states)
    requires i <= m < |states| && Committed(states[i])
    requires forall k | i <= k < m :: states[k + 1].past.losses == states[k].past.losses
    ensures Committed(states[m])
  {
    if i < m {
      CommitStays(cfg, states, steps, i, m - 1);
      ExclusiveThroughout(cfg, states, steps, m - 1);
      assert Timely(states[m - 1], steps[m - 1]);
      assert steps[m - 1].WriteClaim? ==> HoldsClaimLock(states[m - 1], steps[m - 1].id);
      StepRecordEffect(cfg, states[m - 1], steps[m - 1]);
      assert states[m - 1 + 1].past.losses == states[m - 1].past.losses;
    }
  }

  /** Stable commit: after a result is recorded, the work does not start again before a loss. */
  lemma StableCommit(cfg: Config, states: seq<Sys>, steps: seq<Step>, i: nat, j: nat)
    requires IsRun(cfg, states, steps) && TimelyRun(cfg, states, steps) && UndisturbedRun(states)
    requires i < j < |steps| && steps[i].WriteResult? && steps[i].landed && steps[j].Start?
    ensures exists k | i < k < j :: states[k + 1].past.losses > states[k].past.losses
  {
    if forall k | i < k < j :: states[k + 1].past.losses <= states[k].past.losses {
      forall k | i + 1 <= k < j ensures states[k + 1].past.losses == states[k].past.losses {
        LossesGrow(cfg, states[k], steps[k]);
      }
      CommitStays(cfg, states, steps, i + 1, j);
      ExclusiveThroughout(cfg, states, steps, j);
    }
  }

  lemma LossesGrow(cfg: Config, s: Sys, step: Step)
    requires Enabled(s, step)
    ensures s.past.losses <= Next(cfg, s, step).past.losses
  {
  }
}

/** Exactly when commits and releases stay on their own records: each has to come before its own claim's
    deadline. Calls that only find out that they are late, and write nothing, may take as long as they
    like. */
module IdempotencyOwnership {
  import opened Wrappers
  import opened Idempotency
  import opened IdempotencyGuarantees
  import opened IdempotencyAnswers
  import opened IdempotencyDeadlines

  /** Every commit and release comes less than `inFlightTtlMs` after its call wrote its claim. */
  ghost predicate CompletionDeadlines(cfg: Config, states: seq<Sys>, steps: seq<Step>)
    requires |states| == |steps| + 1
  {
    forall k, n | 0 <= k < n < |steps| && Completes(steps[n]) && WorksOn(states, steps, k, n, steps[n].id) ::
      states[n].now < states[k].now + cfg.inFlightTtlMs
  }

  /** Every commit and release finds its call's own in-flight record. */
  ghost predicate CompletionsOwn(states: seq<Sys>, steps: seq<Step>)
    requires |states| == |steps| + 1
  {
    forall n | 0 <= n < |steps| && Completes(steps[n]) ::
      steps[n].id in states[n].calls && OwnsRecord(states[n], steps[n].id)
  }

  /** The check of the claim has passed and the write or deletion is still to come. */
  predicate AboutToComplete(s: Sys, id: nat) {
    id in s.calls && (s.calls[id].pc.Writing? || s.calls[id].pc.Deleting?)
  }

  // ---- One step ----

  /** No record stands while a call is about to write its claim under the lock. */
  ghost predicate LockClear(s: Sys) {
    forall id | HoldsClaimLock(s, id) :: s.store.None?
  }

  lemma LockClearAfter(s: Sys, s': Sys, step: Step)
    requires Shape(s) && LockClear(s) && RecordEffect(s, s', step)
    requires forall j | HoldsClaimLock(s', j) :: WasHolder(s, step, j)
    requires step.WriteClaim? ==> HoldsClaimLock(s, step.id)
    requires Completes(step) ==> step.id in s.calls && OwnsRecord(s, step.id)
    ensures LockClear(s')
  {
    forall j | HoldsClaimLock(s', j) ensures s'.store.None? {
      assert WasHolder(s, step, j);
      if step.WriteClaim? { ClaimLockExclusive(s, j, step.id); }
    }
  }

  /** A call about to complete after a step was so before, or has just passed its check. */
  lemma CompletingBefore(cfg: Config, s: Sys, s': Sys, step: Step, id: nat)
    requires Enabled(s, step) && s' == Next(cfg, s, step) && AboutToComplete(s', id)
    ensures id in s.calls && ClaimOf(s.calls[id].pc) == ClaimOf(s'.calls[id].pc)
    ensures || (AboutToComplete(s, id) && (step.Tick? || step.Evict? || step.id != id))
            || (&& s.store.Some? && Some(s.store.value.record.claimId) == ClaimOf(s.calls[id].pc)
                && s'.store == s.store)
  {
  }

  /** Before its deadline a call about to complete keeps its record through every step. */
  lemma OwnedAfter(cfg: Config, s: Sys, s': Sys, step: Step, id: nat, until: int)
    requires Enabled(s, step) && s' == Next(cfg, s, step)
    requires Shape(s) && Settled(s) && LockClear(s)
    requires AboutToComplete(s', id) && s'.now < until
    requires AboutToComplete(s, id) ==> OwnsRecord(s, id)
    requires id in s.calls && OwnsRecord(s, id) ==> s.store.value.expiresAt == until
    requires step.WriteClaim? ==> HoldsClaimLock(s, step.id)
    requires Completes(step) ==> step.id in s.calls && OwnsRecord(s, step.id)
    requires step.Evict? ==> Committed(s)
    ensures OwnsRecord(s', id)
  {
    CompletingBefore(cfg, s, s', step, id);
    StepRecordEffect(cfg, s, step);
    if s'.store != s.store && OwnsRecord(s, id) && !Completes(step) && !step.WriteClaim? {
      LossEffect(cfg, s, step, id);
    }
  }

  // ---- Whole runs ----

  lemma {:induction false} ClaimWritten(cfg: Config, states: seq<Sys>, steps: seq<Step>, n: nat, id: nat)
    returns (k: nat)
    requires IsRun(cfg, states, steps) && n < |states|
    requires id in states[n].calls && ClaimOf(states[n].calls[id].pc).Some?
    ensures k < n && k < |steps| && WorksOn(states, steps, k, n, id)
  {
    StepClaimBefore(cfg, states[n - 1], steps[n - 1], id);
    if id in states[n - 1].calls && ClaimOf(states[n - 1].calls[id].pc) == ClaimOf(states[n].calls[id].pc) {
      k := ClaimWritten(cfg, states, steps, n - 1, id);
    } else {
      k := n - 1;
    }
  }

  /** A record its owner still holds expires at the owner's deadline. */
  lemma {:induction false} OwnersExpiry(
      cfg: Config, states: seq<Sys>, steps: seq<Step>, k: nat, n: nat, id: nat)
    requires IsRun(cfg, states, steps) && cfg.inFlightTtlMs > 0 && cfg.ttlMs > 0
    requires k < n < |states| && k < |steps| && WorksOn(states, steps, k, n, id) && OwnsRecord(states[n], id)
    ensures states[n].store.value.expiresAt == states[k].now + cfg.inFlightTtlMs
    ensures states[n].now < states[k].now + cfg.inFlightTtlMs
  {
    var j := InFlightIsRecent(cfg, states, steps, n);
    SameClaim(cfg, states, steps, j, k);
  }

  /** In state `n`, every call about to complete before its deadline owns its record. */
  ghost predicate InTimeOwned(cfg: Config, states: seq<Sys>, steps: seq<Step>, n: nat)
    requires |states| == |steps| + 1 && n < |states|
  {
    forall k, id | 0 <= k < n && WorksOn(states, steps, k, n, id) && AboutToComplete(states[n], id)
                   && states[n].now < states[k].now + cfg.inFlightTtlMs ::
      OwnsRecord(states[n], id)
  }

  /** If all calls about to complete in time own their records, so does whoever completes now. */
  lemma {:induction false} CompletesOwn(cfg: Config, states: seq<Sys>, steps: seq<Step>, n: nat)
    requires IsRun(cfg, states, steps) && CompletionDeadlines(cfg, states, steps) && n < |steps|
    requires InTimeOwned(cfg, states, steps, n) && Completes(steps[n])
    ensures steps[n].id in states[n].calls && OwnsRecord(states[n], steps[n].id)
  {
    assert AboutToComplete(states[n], steps[n].id);
    var k := ClaimWritten(cfg, states, steps, n, steps[n].id);
  }

  lemma {:induction false} InTimeOwnedNext(
      cfg: Config, states: seq<Sys>, steps: seq<Step>, n: nat, k: nat, id: nat)
    requires IsRun(cfg, states, steps) && cfg.inFlightTtlMs > 0 && cfg.ttlMs > 0 && n < |steps|
    requires TimelyRun(cfg, states, steps) && SparesClaims(states, steps)
    requires CompletionDeadlines(cfg, states, steps)
    requires LockClear(states[n]) && InTimeOwned(cfg, states, steps, n)
    requires k < n + 1 && WorksOn(states, steps, k, n + 1, id) && AboutToComplete(states[n + 1], id)
    requires states[n + 1].now < states[k].now + cfg.inFlightTtlMs
    ensures OwnsRecord(states[n + 1], id)
  {
    ShapeThroughout(cfg, states, steps, n);
    SettledThroughout(cfg, states, steps, n);
    CompletingBefore(cfg, states[n], states[n + 1], steps[n], id);
    assert CallShape(states[n], id);
    assert k < n;
    TimePasses(cfg, states[n], steps[n]);
    assert WorksOn(states, steps, k, n, id);
    if OwnsRecord(states[n], id) {
      OwnersExpiry(cfg, states, steps, k, n, id);
    }
    if Completes(steps[n]) {
      CompletesOwn(cfg, states, steps, n);
    }
    assert Timely(states[n], steps[n]);
    OwnedAfter(cfg, states[n], states[n + 1], steps[n], id, states[k].now + cfg.inFlightTtlMs);
  }

  lemma TimePasses(cfg: Config, s: Sys, step: Step)
    requires Enabled(s, step)
    ensures s.now <= Next(cfg, s, step).now
  {
  }

  lemma {:induction false} LockClearNext(cfg: Config, states: seq<Sys>, steps: seq<Step>, n: nat)
    requires IsRun(cfg, states, steps) && TimelyRun(cfg, states, steps) && n < |steps|
    requires CompletionDeadlines(cfg, states, steps)
    requires LockClear(states[n]) && InTimeOwned(cfg, states, steps, n)
    ensures LockClear(states[n + 1])
  {
    ShapeThroughout(cfg, states, steps, n);
    StepRecordEffect(cfg, states[n], steps[n]);
    forall j | HoldsClaimLock(states[n + 1], j) ensures WasHolder(states[n], steps[n], j) {
      HoldersShrink(cfg, states[n], steps[n], j);
    }
    if Completes(steps[n]) {
      CompletesOwn(cfg, states, steps, n);
    }
    assert Timely(states[n], steps[n]);
    LockClearAfter(states[n], states[n + 1], steps[n]);
  }

  lemma {:induction false} OwnedThroughout(cfg: Config, states: seq<Sys>, steps: seq<Step>, n: nat)
    requires IsRun(cfg, states, steps) && cfg.inFlightTtlMs > 0 && cfg.ttlMs > 0 && n < |states|
    requires TimelyRun(cfg, states, steps) && SparesClaims(states, steps)
    requires CompletionDeadlines(cfg, states, steps)
    ensures LockClear(states[n]) && InTimeOwned(cfg, states, steps, n)
  {
    if n > 0 {
      OwnedThroughout(cfg, states, steps, n - 1);
      LockClearNext(cfg, states, steps, n - 1);
      forall k, id | 0 <= k < n && WorksOn(states, steps, k, n, id) && AboutToComplete(states[n], id)
                     && states[n].now < states[k].now + cfg.inFlightTtlMs
        ensures OwnsRecord(states[n], id)
      {
        InTimeOwnedNext(cfg, states, steps, n - 1, k, id);
      }
    }
  }

  /** Every commit and release finds its own record if and only if every one comes before its own
      claim's deadline, as long as claims are written under a live lock and none is evicted. */
  lemma {:induction false} OwnRecordsExact(cfg: Config, states: seq<Sys>, steps: seq<Step>)
    requires IsRun(cfg, states, steps) && cfg.inFlightTtlMs > 0 && cfg.ttlMs > 0
    requires TimelyRun(cfg, states, steps) && SparesClaims(states, steps)
    ensures CompletionsOwn(states, steps) <==> CompletionDeadlines(cfg, states, steps)
  {
    if CompletionDeadlines(cfg, states, steps) {
      forall n | 0 <= n < |steps| && Completes(steps[n])
        ensures steps[n].id in states[n].calls && OwnsRecord(states[n], steps[n].id)
      {
        OwnedThroughout(cfg, states, steps, n);
        CompletesOwn(cfg, states, steps, n);
      }
    }
    if CompletionsOwn(states, steps) {
      forall k, n | 0 <= k < n < |steps| && Completes(steps[n]) && WorksOn(states, steps, k, n, steps[n].id)
        ensures states[n].now < states[k].now + cfg.inFlightTtlMs
      {
        OwnersExpiry(cfg, states, steps, k, n, steps[n].id);
      }
    }
  }

  /** Under the lock deadline and the deadlines of the completing steps alone, a commit or release only
      ever hits its own record. */
  lemma {:induction false} OwnRecordOnTime(cfg: Config, states: seq<Sys>, steps: seq<Step>, n: nat)
    requires IsRun(cfg, states, steps) && cfg.inFlightTtlMs > 0 && cfg.ttlMs > 0
    requires LockDeadlines(cfg, states, steps) && SparesClaims(states, steps)
    requires CompletionDeadlines(cfg, states, steps) && n < |steps| && Completes(steps[n])
    ensures steps[n].id in states[n].calls && OwnsRecord(states[n], steps[n].id)
  {
    LockDeadlinesExact(cfg, states, steps);
    OwnRecordsExact(cfg, states, steps);
  }
}

/** The assumptions of `IdempotencyGuarantees` as deadlines a caller can keep: the claim is written
    before the lock lease runs out, the work finishes before the claim does, and no claim is evicted.
    Both deadlines are exact, and the guarantees follow from them. */
module IdempotencyDeadlines {
  import opened Wrappers
  import opened Idempotency
  import opened IdempotencyGuarantees
  import opened IdempotencyAnswers
  import Lock = MemoryLock

  // ---- The lock deadline ----

  /** The call holds this handle of the claim lock. */
  predicate Holds(s: Sys, id: nat, h: Lock.Handle) {
    id in s.calls && HandleOf(s.calls[id].pc) == Some(h)
  }

  /** This step gives the call this handle. */
  predicate Grants(cfg: Config, s: Sys, step: Step, id: nat, h: Lock.Handle) {
    && step.TryLock? && step.id == id && Enabled(s, step)
    && Lock.Acquired(s.lock, LOCK_KEY, cfg.lockTtlMs, step.swept, step.tested, step.stamped).1 == Some(h)
  }

  /** Each claim is written before the lease of the handle it is written under runs out. */
  ghost predicate LockDeadlines(cfg: Config, states: seq<Sys>, steps: seq<Step>)
    requires IsRun(cfg, states, steps)
  {
    forall k, n | 0 <= k < n < |steps| && MeetsLock(cfg, states, steps, k, n) ::
      states[n].now < steps[k].stamped + cfg.lockTtlMs
  }

  /** Step `n` writes a claim under the handle step `k` granted. */
  ghost predicate MeetsLock(cfg: Config, states: seq<Sys>, steps: seq<Step>, k: nat, n: nat)
    requires IsRun(cfg, states, steps) && k < n < |steps|
  {
    steps[n].WriteClaim? && Grants(cfg, states[k], steps[k], steps[n].id, states[n].calls[steps[n].id].pc.lock)
  }

  /** The lease of a handle still held stands until `until`, and ends then. */
  predicate Leased(s: Sys, h: Lock.Handle, until: int) {
    && h.key == LOCK_KEY && h.token < s.lock.nextToken
    && (s.now < until ==> LOCK_KEY in s.lock.leases && s.lock.leases[LOCK_KEY] == Lock.Lease(h.token, until))
    && (LOCK_KEY in s.lock.leases && s.lock.leases[LOCK_KEY].token == h.token ==>
          s.lock.leases[LOCK_KEY].expiresAt == until)
  }

  lemma LeasedExact(s: Sys, h: Lock.Handle, until: int)
    requires Leased(s, h, until)
    ensures Lock.Owns(s.lock, h, s.now) <==> s.now < until
  {
  }

  lemma GrantLeases(cfg: Config, s: Sys, s': Sys, step: Step, id: nat, h: Lock.Handle)
    requires Grants(cfg, s, step, id, h) && s' == Next(cfg, s, step)
    ensures Leased(s', h, step.stamped + cfg.lockTtlMs)
  {
  }

  lemma OtherLockAttempt(cfg: Config, s: Sys, step: Step, h: Lock.Handle, until: int)
    requires Enabled(s, step) && step.TryLock? && Leased(s, h, until)
    ensures Leased(Next(cfg, s, step), h, until)
  {
  }

  lemma OtherUnlock(cfg: Config, s: Sys, step: Step, h: Lock.Handle, until: int)
    requires Enabled(s, step) && step.Unlock? && Leased(s, h, until)
    requires s.calls[step.id].pc.lock.token != h.token
    ensures Leased(Next(cfg, s, step), h, until)
  {
  }

  /** While a call keeps its handle, nobody else touches its live lease. */
  lemma LeaseKept(cfg: Config, s: Sys, s': Sys, step: Step, id: nat, h: Lock.Handle, until: int)
    requires Shape(s) && Enabled(s, step) && s' == Next(cfg, s, step)
    requires Holds(s, id, h) && Holds(s', id, h) && Leased(s, h, until)
    ensures Leased(s', h, until)
  {
    if step.TryLock? {
      OtherLockAttempt(cfg, s, step, h, until);
    } else if step.Unlock? {
      assert step.id != id;
      OtherUnlock(cfg, s, step, h, until);
    } else {
      LockUntouched(cfg, s, step);
    }
  }

  lemma LockUntouched(cfg: Config, s: Sys, step: Step)
    requires Enabled(s, step) && !step.TryLock? && !step.Unlock?
    ensures Next(cfg, s, step).lock == s.lock && s.now <= Next(cfg, s, step).now
  {
  }

  /** A call holding a handle after a step held it before or was granted it. */
  lemma HandleBefore(cfg: Config, s: Sys, s': Sys, step: Step, id: nat, h: Lock.Handle)
    requires Enabled(s, step) && s' == Next(cfg, s, step) && Holds(s', id, h)
    ensures Holds(s, id, h) || Grants(cfg, s, step, id, h)
    ensures Grants(cfg, s, step, id, h) ==> h.token == s.lock.nextToken
  {
  }

  lemma {:induction false} TokensGrow(cfg: Config, states: seq<Sys>, steps: seq<Step>, k: nat, n: nat)
    requires IsRun(cfg, states, steps) && k <= n < |states|
    ensures states[k].lock.nextToken <= states[n].lock.nextToken
  {
    if k < n {
      TokensGrow(cfg, states, steps, k, n - 1);
      TokenStep(cfg, states[n - 1], steps[n - 1]);
    }
  }

  lemma TokenStep(cfg: Config, s: Sys, step: Step)
    requires Enabled(s, step)
    ensures s.lock.nextToken <= Next(cfg, s, step).lock.nextToken
  {
  }

  lemma {:induction false} NotGrantedAgain(
      cfg: Config, states: seq<Sys>, steps: seq<Step>, k: nat, n: nat, id: nat, h: Lock.Handle)
    requires IsRun(cfg, states, steps) && k < n < |steps| && Grants(cfg, states[k], steps[k], id, h)
    requires Holds(states[n + 1], id, h)
    ensures Holds(states[n], id, h)
  {
    GrantedToken(cfg, states[k], steps[k], id, h);
    TokensGrow(cfg, states, steps, k + 1, n);
    HandleBefore(cfg, states[n], states[n + 1], steps[n], id, h);
  }

  lemma GrantedToken(cfg: Config, s: Sys, step: Step, id: nat, h: Lock.Handle)
    requires Grants(cfg, s, step, id, h)
    ensures h.token < Next(cfg, s, step).lock.nextToken
  {
  }

  ghost predicate HoldsThroughout(states: seq<Sys>, m: nat, n: nat, id: nat, h: Lock.Handle)
    requires m <= n < |states|
  {
    forall j | m <= j <= n :: Holds(states[j], id, h)
  }

  /** If each step that leaves the handle with the call found it there, it was there all along. */
  lemma {:induction false} BackTo(states: seq<Sys>, m: nat, n: nat, id: nat, h: Lock.Handle)
    requires m <= n < |states| && Holds(states[n], id, h)
    requires forall j | m <= j < n && Holds(states[j + 1], id, h) :: Holds(states[j], id, h)
    ensures HoldsThroughout(states, m, n, id, h) && Holds(states[m], id, h)
  {
    if m < n {
      assert Holds(states[n - 1 + 1], id, h);
      BackTo(states, m, n - 1, id, h);
    }
  }

  lemma {:induction false} HeldSince(
      cfg: Config, states: seq<Sys>, steps: seq<Step>, k: nat, n: nat, id: nat, h: Lock.Handle)
    requires IsRun(cfg, states, steps) && k < n < |states| && Grants(cfg, states[k], steps[k], id, h)
    requires Holds(states[n], id, h)
    ensures HoldsThroughout(states, k + 1, n, id, h)
  {
    forall j | k + 1 <= j < n && Holds(states[j + 1], id, h) ensures Holds(states[j], id, h) {
      NotGrantedAgain(cfg, states, steps, k, j, id, h);
    }
    BackTo(states, k + 1, n, id, h);
  }

  lemma {:induction false} LeaseStands(states: seq<Sys>, m: nat, n: nat, h: Lock.Handle, until: int)
    requires m <= n < |states| && Leased(states[m], h, until)
    requires forall j | m <= j < n && Leased(states[j], h, until) :: Leased(states[j + 1], h, until)
    ensures Leased(states[n], h, until)
  {
    if m < n {
      LeaseStands(states, m, n - 1, h, until);
      assert Leased(states[n - 1 + 1], h, until);
    }
  }

  lemma {:induction false} GrantStands(
      cfg: Config, states: seq<Sys>, steps: seq<Step>, k: nat, n: nat, id: nat, h: Lock.Handle)
    requires IsRun(cfg, states, steps) && k < n < |states| && Grants(cfg, states[k], steps[k], id, h)
    requires Holds(states[n], id, h)
    ensures Leased(states[n], h, steps[k].stamped + cfg.lockTtlMs)
  {
    var until := steps[k].stamped + cfg.lockTtlMs;
    GrantLeases(cfg, states[k], states[k + 1], steps[k], id, h);
    HeldSince(cfg, states, steps, k, n, id, h);
    forall j | k + 1 <= j < n && Leased(states[j], h, until) ensures Leased(states[j + 1], h, until) {
      assert Holds(states[j], id, h) && Holds(states[j + 1], id, h);
      KeptAt(cfg, states, steps, j, id, h, until);
    }
    LeaseStands(states, k + 1, n, h, until);
  }

  lemma {:induction false} KeptAt(
      cfg: Config, states: seq<Sys>, steps: seq<Step>, j: nat, id: nat, h: Lock.Handle, until: int)
    requires IsRun(cfg, states, steps) && j < |steps|
    requires Holds(states[j], id, h) && Holds(states[j + 1], id, h) && Leased(states[j], h, until)
    ensures Leased(states[j + 1], h, until)
  {
    ShapeThroughout(cfg, states, steps, j);
    LeaseKept(cfg, states[j], states[j + 1], steps[j], id, h, until);
  }

  lemma {:induction false} GrantOf(
      cfg: Config, states: seq<Sys>, steps: seq<Step>, n: nat, id: nat, h: Lock.Handle) returns (k: nat)
    requires IsRun(cfg, states, steps) && n < |states| && Holds(states[n], id, h)
    ensures k < n && Grants(cfg, states[k], steps[k], id, h)
  {
    if forall j | 0 <= j < n :: !Grants(cfg, states[j], steps[j], id, h) {
      forall j | 0 <= j < n && Holds(states[j + 1], id, h) ensures Holds(states[j], id, h) {
        HandleBefore(cfg, states[j], states[j + 1], steps[j], id, h);
      }
      BackTo(states, 0, n, id, h);
      assert false;
    }
    k :| k < n && Grants(cfg, states[k], steps[k], id, h);
  }

  /** A claim is written under a live lease exactly when less than `lockTtlMs` has passed since the
      lock was granted. */
  lemma {:induction false} ClaimInTime(cfg: Config, states: seq<Sys>, steps: seq<Step>, n: nat)
    returns (k: nat)
    requires IsRun(cfg, states, steps) && n < |steps| && steps[n].WriteClaim?
    ensures k < n && MeetsLock(cfg, states, steps, k, n)
    ensures Timely(states[n], steps[n]) <==> states[n].now < steps[k].stamped + cfg.lockTtlMs
  {
    var id := steps[n].id;
    var h := states[n].calls[id].pc.lock;
    k := GrantOf(cfg, states, steps, n, id, h);
    GrantStands(cfg, states, steps, k, n, id, h);
    LeasedExact(states[n], h, steps[k].stamped + cfg.lockTtlMs);
  }

  /** Keeping the lock deadline is exactly what the guarantees assume about the lock. */
  lemma {:induction false} LockDeadlinesExact(cfg: Config, states: seq<Sys>, steps: seq<Step>)
    requires IsRun(cfg, states, steps)
    ensures LockDeadlines(cfg, states, steps) <==> TimelyRun(cfg, states, steps)
  {
    if LockDeadlines(cfg, states, steps) {
      forall n | 0 <= n < |steps| ensures Timely(states[n], steps[n]) {
        if steps[n].WriteClaim? {
          var k := ClaimInTime(cfg, states, steps, n);
        }
      }
    }
    if TimelyRun(cfg, states, steps) {
      forall k, n | 0 <= k < n < |steps| && MeetsLock(cfg, states, steps, k, n)
        ensures states[n].now < steps[k].stamped + cfg.lockTtlMs
      {
        var id := steps[n].id;
        var h := states[n].calls[id].pc.lock;
        GrantStands(cfg, states, steps, k, n, id, h);
        LeasedExact(states[n], h, steps[k].stamped + cfg.lockTtlMs);
        assert Timely(states[n], steps[n]);
      }
    }
  }

  // ---- The claim deadline ----

  /** In state `n` a call still works on the claim that step `k` wrote. */
  predicate WorksOn(states: seq<Sys>, steps: seq<Step>, k: nat, n: nat, id: nat)
    requires k < n < |states| && k < |steps|
  {
    && steps[k].WriteClaim? && id in states[n].calls
    && ClaimOf(states[n].calls[id].pc) == Some(states[k].nextClaim)
  }

  /** Each call has committed or released its claim before `inFlightTtlMs` have passed since it wrote
      it. */
  ghost predicate WorkDeadlines(cfg: Config, states: seq<Sys>, steps: seq<Step>) {
    forall k, n, id | 0 <= k < n < |states| && k < |steps| && WorksOn(states, steps, k, n, id) ::
      states[n].now < states[k].now + cfg.inFlightTtlMs
  }

  /** Only completed records are evicted. */
  ghost predicate SparesClaims(states: seq<Sys>, steps: seq<Step>)
    requires |states| == |steps| + 1
  {
    forall n | 0 <= n < |steps| && steps[n].Evict? :: states[n].store.Some? && Committed(states[n])
  }

  /** A completed record's claim is no longer held by any call, and no claim id is in use early. */
  ghost predicate Settled(s: Sys) {
    && (s.store.Some? ==> s.store.value.record.claimId < s.nextClaim)
    && (Committed(s) ==>
          forall id <- s.calls :: ClaimOf(s.calls[id].pc) != Some(s.store.value.record.claimId))
  }

  /** The record after a step: as before, or a new claim, or the acting owner's result. */
  ghost predicate RecordAfter(s: Sys, s': Sys, step: Step) {
    s'.store.Some? ==>
      || s'.store == s.store
      || (&& step.WriteClaim? && s'.store.value.record.state.InFlight?
          && s'.store.value.record.claimId == s.nextClaim && s'.nextClaim == s.nextClaim + 1)
      || (&& step.WriteResult? && step.id in s.calls && step.id in s'.calls
          && ClaimOf(s.calls[step.id].pc) == Some(s'.store.value.record.claimId)
          && ClaimOf(s'.calls[step.id].pc).None?)
  }

  lemma StepRecordAfter(cfg: Config, s: Sys, step: Step)
    requires Enabled(s, step)
    ensures RecordAfter(s, Next(cfg, s, step), step) && s.nextClaim <= Next(cfg, s, step).nextClaim
  {
  }

  /** A claim held after a step was held by the same call before, or was just written. */
  ghost predicate ClaimBefore(s: Sys, s': Sys, step: Step, id: nat) {
    id in s'.calls && ClaimOf(s'.calls[id].pc).Some? ==>
      || (id in s.calls && ClaimOf(s.calls[id].pc) == ClaimOf(s'.calls[id].pc))
      || (step.WriteClaim? && ClaimOf(s'.calls[id].pc) == Some(s.nextClaim))
  }

  lemma StepClaimBefore(cfg: Config, s: Sys, step: Step, id: nat)
    requires Enabled(s, step)
    ensures ClaimBefore(s, Next(cfg, s, step), step, id)
  {
  }

  lemma SettledAfter(s: Sys, s': Sys, step: Step)
    requires Shape(s) && Settled(s) && RecordAfter(s, s', step) && s.nextClaim <= s'.nextClaim
    requires forall id <- s'.calls :: ClaimBefore(s, s', step, id)
    ensures Settled(s')
  {
    if s'.store.Some? && step.WriteResult? && step.id in s.calls {
      assert CallShape(s, step.id);
    }
  }

  lemma {:induction false} SettledThroughout(cfg: Config, states: seq<Sys>, steps: seq<Step>, n: nat)
    requires IsRun(cfg, states, steps) && n < |states|
    ensures Settled(states[n])
  {
    if n > 0 {
      var s, step := states[n - 1], steps[n - 1];
      SettledThroughout(cfg, states, steps, n - 1);
      ShapeThroughout(cfg, states, steps, n - 1);
      StepRecordAfter(cfg, s, step);
      forall id <- states[n].calls ensures ClaimBefore(s, states[n], step, id) {
        StepClaimBefore(cfg, s, step, id);
      }
      SettledAfter(s, states[n], step);
    }
  }

  lemma {:induction false} ClaimsGrow(cfg: Config, states: seq<Sys>, steps: seq<Step>, k: nat, n: nat)
    requires IsRun(cfg, states, steps) && k <= n < |states|
    ensures states[k].nextClaim <= states[n].nextClaim
    ensures k < n && steps[k].WriteClaim? ==> states[k].nextClaim < states[n].nextClaim
  {
    if k < n {
      ClaimsGrow(cfg, states, steps, k, n - 1);
      StepRecordAfter(cfg, states[n - 1], steps[n - 1]);
    }
  }

  /** Claim ids name their claim writes. */
  lemma {:induction false} SameClaim(cfg: Config, states: seq<Sys>, steps: seq<Step>, j: nat, k: nat)
    requires IsRun(cfg, states, steps) && j < |steps| && k < |steps|
    requires steps[j].WriteClaim? && steps[k].WriteClaim? && states[j].nextClaim == states[k].nextClaim
    ensures j == k
  {
    if j < k {
      ClaimsGrow(cfg, states, steps, j, k);
    } else if k < j {
      ClaimsGrow(cfg, states, steps, k, j);
    }
  }

  /** A record lost while its owner works had expired after the owner's deadline, or was evicted. */
  lemma LossEffect(cfg: Config, s: Sys, step: Step, id: nat)
    requires Enabled(s, step) && s.store.Some? && Next(cfg, s, step).past.losses > s.past.losses
    requires id in s.calls && ClaimOf(s.calls[id].pc).Some?
    ensures var s' := Next(cfg, s, step);
      step.Evict? || (&& s.store.value.expiresAt <= s'.now && id in s'.calls
                      && ClaimOf(s'.calls[id].pc) == ClaimOf(s.calls[id].pc))
  {
  }

  lemma {:induction false} OnTimeUndisturbed(cfg: Config, states: seq<Sys>, steps: seq<Step>, n: nat)
    requires IsRun(cfg, states, steps) && cfg.inFlightTtlMs > 0 && cfg.ttlMs > 0
    requires WorkDeadlines(cfg, states, steps) && SparesClaims(states, steps) && n < |steps|
    ensures Undisturbed(states[n], states[n + 1])
  {
    var s, s', step := states[n], states[n + 1], steps[n];
    if s.store.Some? && s'.past.losses > s.past.losses {
      SettledThroughout(cfg, states, steps, n);
      forall id <- s.calls ensures ClaimOf(s.calls[id].pc) != Some(s.store.value.record.claimId) {
        if ClaimOf(s.calls[id].pc) == Some(s.store.value.record.claimId) {
          assert !Committed(s);
          LossEffect(cfg, s, step, id);
          var k := InFlightIsRecent(cfg, states, steps, n);
          assert WorksOn(states, steps, k, n + 1, id);
        }
      }
    }
  }

  lemma {:induction false} UndisturbedOnTime(
      cfg: Config, states: seq<Sys>, steps: seq<Step>, k: nat, n: nat, id: nat)
    requires IsRun(cfg, states, steps) && cfg.inFlightTtlMs > 0 && cfg.ttlMs > 0
    requires TimelyRun(cfg, states, steps) && UndisturbedRun(states)
    requires k < n < |states| && WorksOn(states, steps, k, n, id)
    ensures states[n].now < states[k].now + cfg.inFlightTtlMs
  {
    ExclusiveThroughout(cfg, states, steps, n);
    assert OwnsRecord(states[n], id);
    var j := InFlightIsRecent(cfg, states, steps, n);
    SameClaim(cfg, states, steps, j, k);
  }

  /** As long as no claim is evicted, keeping the claim deadline is what the guarantees assume about
      the work; and in a timely run it is exactly that. */
  lemma {:induction false} WorkDeadlinesExact(cfg: Config, states: seq<Sys>, steps: seq<Step>)
    requires IsRun(cfg, states, steps) && cfg.inFlightTtlMs > 0 && cfg.ttlMs > 0
    requires SparesClaims(states, steps)
    ensures WorkDeadlines(cfg, states, steps) ==> UndisturbedRun(states)
    ensures TimelyRun(cfg, states, steps) && UndisturbedRun(states) ==> WorkDeadlines(cfg, states, steps)
  {
    if WorkDeadlines(cfg, states, steps) {
      forall i | 0 < i < |states| ensures Undisturbed(states[i - 1], states[i]) {
        OnTimeUndisturbed(cfg, states, steps, i - 1);
      }
    }
    if TimelyRun(cfg, states, steps) && UndisturbedRun(states) {
      forall k, n, id | 0 <= k < n < |states| && k < |steps| && WorksOn(states, steps, k, n, id)
        ensures states[n].now < states[k].now + cfg.inFlightTtlMs
      {
        UndisturbedOnTime(cfg, states, steps, k, n, id);
      }
    }
  }

  // ---- The guarantees under the deadlines ----

  ghost predicate OnTime(cfg: Config, states: seq<Sys>, steps: seq<Step>) {
    && IsRun(cfg, states, steps) && cfg.inFlightTtlMs > 0 && cfg.ttlMs > 0
    && LockDeadlines(cfg, states, steps) && WorkDeadlines(cfg, states, steps) && SparesClaims(states, steps)
  }

  lemma {:induction false} OnTimeIsEnough(cfg: Config, states: seq<Sys>, steps: seq<Step>)
    requires OnTime(cfg, states, steps)
    ensures TimelyRun(cfg, states, steps) && UndisturbedRun(states)
  {
    LockDeadlinesExact(cfg, states, steps);
    WorkDeadlinesExact(cfg, states, steps);
  }

  /** Bounded execution under the lock deadline alone. */
  lemma {:induction false} BoundedOnTime(cfg: Config, states: seq<Sys>, steps: seq<Step>, n: nat)
    requires IsRun(cfg, states, steps) && LockDeadlines(cfg, states, steps) && n < |states|
    ensures Starts(steps[..n]) <= 1 + states[n].past.losses + states[n].past.removals
  {
    LockDeadlinesExact(cfg, states, steps);
    BoundedExecution(cfg, states, steps, n);
  }

  /** Single flight when every call keeps both deadlines. */
  lemma {:induction false} SingleFlightOnTime(
      cfg: Config, states: seq<Sys>, steps: seq<Step>, n: nat, i: nat, j: nat)
    requires OnTime(cfg, states, steps) && n < |states| && i in states[n].calls && j in states[n].calls
    requires ClaimOf(states[n].calls[i].pc).Some? && ClaimOf(states[n].calls[j].pc).Some?
    ensures i == j
  {
    OnTimeIsEnough(cfg, states, steps);
    SingleFlight(cfg, states, steps, n, i, j);
  }

  /** On time, a recorded result keeps the work from starting again until a record is lost. */
  lemma {:induction false} StableCommitOnTime(
      cfg: Config, states: seq<Sys>, steps: seq<Step>, i: nat, j: nat)
    requires OnTime(cfg, states, steps)
    requires i < j < |steps| && steps[i].WriteResult? && steps[i].landed && steps[j].Start?
    ensures exists k | i < k < j :: states[k + 1].past.losses > states[k].past.losses
  {
    OnTimeIsEnough(cfg, states, steps);
    StableCommit(cfg, states, steps, i, j);
  }
}

/** How a call ends: after its work it checks its claim once, and what the check finds decides, in every
    run, whether it records its result, takes its claim away, or leaves the record alone. */
module IdempotencyCompletion {
  import opened Wrappers
  import opened Idempotency
  import opened IdempotencyGuarantees
  import Lock = MemoryLock

  predicate Acts(step: Step, id: nat) {
    !step.Tick? && !step.Evict? && step.id == id
  }

  /** The call takes none of the steps from `a` up to `b`. */
  ghost predicate Silent(steps: seq<Step>, a: nat, b: nat, id: nat)
    requires b <= |steps|
  {
    forall k | a <= k < b :: !Acts(steps[k], id)
  }

  lemma {:induction false} SilentStays(cfg: Config, states: seq<Sys>, steps: seq<Step>, a: nat, b: nat, id: nat)
    requires IsRun(cfg, states, steps) && a <= b < |states| && Silent(steps, a, b, id) && id in states[a].calls
    ensures id in states[b].calls && states[b].calls[id] == states[a].calls[id]
  {
    if a < b {
      SilentStays(cfg, states, steps, a, b - 1, id);
      assert !Acts(steps[b - 1], id);
      CallStays(cfg, states[b - 1], steps[b - 1], id);
    }
  }

  lemma CallStays(cfg: Config, s: Sys, step: Step, id: nat)
    requires Enabled(s, step) && !Acts(step, id) && id in s.calls
    ensures id in Next(cfg, s, step).calls && Next(cfg, s, step).calls[id] == s.calls[id]
  {
  }

  // ---- The claim a call holds is the one it wrote ----

  lemma ClaimStep(cfg: Config, s: Sys, step: Step, id: nat)
    requires Enabled(s, step)
    requires id in Next(cfg, s, step).calls && ClaimOf(Next(cfg, s, step).calls[id].pc).Some?
    ensures || (id in s.calls && ClaimOf(s.calls[id].pc) == ClaimOf(Next(cfg, s, step).calls[id].pc))
            || (step == WriteClaim(id, true, true) && ClaimOf(Next(cfg, s, step).calls[id].pc) == Some(s.nextClaim))
  {
  }

  lemma {:induction false} OwnClaim(cfg: Config, states: seq<Sys>, steps: seq<Step>, n: nat, id: nat)
    returns (k: nat)
    requires IsRun(cfg, states, steps) && n < |states| && id in states[n].calls
    requires ClaimOf(states[n].calls[id].pc).Some?
    ensures k < n && steps[k] == WriteClaim(id, true, true)
    ensures ClaimOf(states[n].calls[id].pc) == Some(states[k].nextClaim)
  {
    ClaimStep(cfg, states[n - 1], steps[n - 1], id);
    if id in states[n - 1].calls && ClaimOf(states[n - 1].calls[id].pc) == ClaimOf(states[n].calls[id].pc) {
      k := OwnClaim(cfg, states, steps, n - 1, id);
    } else {
      k := n - 1;
    }
  }

  // ---- The check decides ----

  /** The work has ended, with a value or by throwing. */
  predicate Worked(step: Step, id: nat) {
    (step.Return? || step.Throw?) && step.id == id
  }

  /** The value is one to be recorded. */
  predicate ToRecord(cfg: Config, work: Step) {
    work.Return? && cfg.recordable(work.value)
  }

  /** What the caller is told, whatever becomes of the record. */
  function Answer(work: Step): Outcome {
    if work.Return? then Executed(work.value) else Failed
  }

  /** The check finds the claim: it could read, and the record in the slot carries this claim id. */
  predicate Finds(s: Sys, check: Step, claimId: nat) {
    check.Recheck? && check.ok && s.store.Some? && s.store.value.record.claimId == claimId
  }

  /** After the check: a claim found is about to be written over if the value is to be recorded, and
      about to be deleted if not; a claim not found ends the call. */
  predicate Decided(cfg: Config, pc: Pc, work: Step, found: bool) {
    if !found then pc == Done(Answer(work))
    else if ToRecord(cfg, work) then pc.Writing? && pc.value == work.value
    else pc.Deleting? && pc.outcome == Answer(work)
  }

  lemma WorkEnds(cfg: Config, s: Sys, work: Step, id: nat)
    requires Enabled(s, work) && Worked(work, id)
    ensures id in Next(cfg, s, work).calls
    ensures var pc := Next(cfg, s, work).calls[id].pc;
      if ToRecord(cfg, work) then pc.Committing? && pc.value == work.value
      else pc.Releasing? && pc.outcome == Answer(work)
  {
  }

  lemma CheckStep(cfg: Config, s: Sys, check: Step, id: nat, work: Step)
    requires Enabled(s, check) && check.Recheck? && check.id == id && Worked(work, id)
    requires var pc := s.calls[id].pc;
      if ToRecord(cfg, work) then pc.Committing? && pc.value == work.value
      else pc.Releasing? && pc.outcome == Answer(work)
    ensures id in Next(cfg, s, check).calls
    ensures Decided(cfg, Next(cfg, s, check).calls[id].pc, work, Finds(s, check, s.calls[id].pc.claimId))
  {
  }

  /** The check decides, in every run: call `id` has ended its work at step `r`, checks its claim at `n`
      and has not moved since, up to state `j`; `k` is where it wrote that claim. If the check found the
      claim, the one thing left for the call to do (short of crashing) is to write its result, when that
      is to be recorded, and to delete the claim, when not; otherwise it is done, with the same answer. */
  lemma {:induction false} CheckDecides(
      cfg: Config, states: seq<Sys>, steps: seq<Step>, r: nat, n: nat, j: nat, id: nat) returns (k: nat)
    requires IsRun(cfg, states, steps) && r < n < j < |states|
    requires Worked(steps[r], id) && steps[n].Recheck? && steps[n].id == id
    requires Silent(steps, r + 1, n, id) && Silent(steps, n + 1, j, id)
    ensures k < r && steps[k] == WriteClaim(id, true, true) && id in states[j].calls
    ensures var found := Finds(states[n], steps[n], states[k].nextClaim);
      && Decided(cfg, states[j].calls[id].pc, steps[r], found)
      && (forall landed :: Enabled(states[j], WriteResult(id, landed)) <==> found && ToRecord(cfg, steps[r]))
      && (forall landed :: Enabled(states[j], DeleteClaim(id, landed)) <==> found && !ToRecord(cfg, steps[r]))
      && (forall step | Acts(step, id) && Enabled(states[j], step) :: step.Crash? || Completing(cfg, step, steps[r]))
  {
    WorkEnds(cfg, states[r], steps[r], id);
    SilentStays(cfg, states, steps, r + 1, n, id);
    CheckStep(cfg, states[n], steps[n], id, steps[r]);
    SilentStays(cfg, states, steps, n + 1, j, id);
    k := OwnClaim(cfg, states, steps, r, id);
    ClaimKept(cfg, states[r], steps[r], id);
    LeftToDo(cfg, states[j], id, steps[r], Finds(states[n], steps[n], states[k].nextClaim));
  }

  /** The step that completes a call whose work ended so. */
  predicate Completing(cfg: Config, step: Step, work: Step) {
    if ToRecord(cfg, work) then step.WriteResult? else step.DeleteClaim?
  }

  lemma LeftToDo(cfg: Config, s: Sys, id: nat, work: Step, found: bool)
    requires id in s.calls && Decided(cfg, s.calls[id].pc, work, found)
    ensures forall landed :: Enabled(s, WriteResult(id, landed)) <==> found && ToRecord(cfg, work)
    ensures forall landed :: Enabled(s, DeleteClaim(id, landed)) <==> found && !ToRecord(cfg, work)
    ensures forall step | Acts(step, id) && Enabled(s, step) :: step.Crash? || Completing(cfg, step, work)
  {
  }

  lemma ClaimKept(cfg: Config, s: Sys, work: Step, id: nat)
    requires Enabled(s, work) && Worked(work, id)
    ensures ClaimOf(Next(cfg, s, work).calls[id].pc) == ClaimOf(s.calls[id].pc)
    ensures ClaimOf(s.calls[id].pc).Some?
  {
  }

  // ---- No answer before the completion ----

  predicate IsCrashed(s: Sys, id: nat) {
    id in s.calls && s.calls[id].pc.Crashed?
  }

  lemma {:induction false} CrashedOn(states: seq<Sys>, a: nat, b: nat, id: nat)
    requires a <= b < |states| && IsCrashed(states[a], id)
    requires forall j | a <= j < b && IsCrashed(states[j], id) :: IsCrashed(states[j + 1], id)
    ensures IsCrashed(states[b], id)
  {
    if a < b {
      CrashedOn(states, a, b - 1, id);
      assert IsCrashed(states[b - 1 + 1], id);
    }
  }

  lemma {:induction false} CrashedStays(cfg: Config, states: seq<Sys>, steps: seq<Step>, a: nat, b: nat, id: nat)
    requires IsRun(cfg, states, steps) && a <= b < |states| && IsCrashed(states[a], id)
    ensures IsCrashed(states[b], id)
  {
    forall j | a <= j < b && IsCrashed(states[j], id) ensures IsCrashed(states[j + 1], id) {
      CrashedNext(cfg, states[j], states[j + 1], steps[j], id);
    }
    CrashedOn(states, a, b, id);
  }

  lemma CrashedNext(cfg: Config, s: Sys, s': Sys, step: Step, id: nat)
    requires Enabled(s, step) && s' == Next(cfg, s, step) && IsCrashed(s, id)
    ensures IsCrashed(s', id)
  {
  }

  /** The first step the call takes from `a` on, or `b` if it takes none before. */
  lemma {:induction false} FirstAct(steps: seq<Step>, a: nat, b: nat, id: nat) returns (m: nat)
    requires a <= b <= |steps|
    ensures a <= m <= b && Silent(steps, a, m, id) && (m < b ==> Acts(steps[m], id))
    decreases b - a
  {
    if a == b || Acts(steps[a], id) { return a; }
    m := FirstAct(steps, a + 1, b, id);
  }

  /** A call whose check found its claim is not answered before it has written its result or deleted its
      claim. */
  lemma {:induction false} CompletesFirst(
      cfg: Config, states: seq<Sys>, steps: seq<Step>, r: nat, n: nat, j: nat, id: nat)
    returns (k: nat, m: nat)
    requires IsRun(cfg, states, steps) && r < n < j < |states|
    requires Worked(steps[r], id) && steps[n].Recheck? && steps[n].id == id && Silent(steps, r + 1, n, id)
    requires id in states[j].calls && states[j].calls[id].pc.Done?
    ensures k < r && steps[k] == WriteClaim(id, true, true)
    ensures Finds(states[n], steps[n], states[k].nextClaim) ==>
              && n < m < j && Silent(steps, n + 1, m, id)
              && Acts(steps[m], id) && Completing(cfg, steps[m], steps[r])
  {
    m := FirstAct(steps, n + 1, j, id);
    k := CheckDecides(cfg, states, steps, r, n, m, id);
    if m < j && Finds(states[n], steps[n], states[k].nextClaim) && steps[m].Crash? {
      CrashLands(cfg, states[m], steps[m], id);
      CrashedStays(cfg, states, steps, m + 1, j, id);
    }
  }

  lemma CrashLands(cfg: Config, s: Sys, step: Step, id: nat)
    requires Enabled(s, step) && step == Crash(id)
    ensures id in Next(cfg, s, step).calls && Next(cfg, s, step).calls[id].pc.Crashed?
  {
  }

  // ---- What a completion leaves behind ----

  predicate PassesTime(step: Step) {
    step.Tick? || step.TryLock? || step.Unlock?
  }

  /** Whether a write or deletion lands decides the slot, whatever the call is told; only the clock and an
      eviction touch it otherwise. */
  lemma WritesLand(cfg: Config, s: Sys, step: Step)
    requires Enabled(s, step)
    ensures var s' := Next(cfg, s, step);
      match step
      case WriteClaim(id, _, true) =>
        s'.store == Some(Entry(Record(InFlight, s.calls[id].fingerprint, s.nextClaim), s.now + cfg.inFlightTtlMs))
      case WriteResult(id, true) =>
        var c := s.calls[id];
        s'.store == Some(Entry(Record(Completed(c.pc.value), c.fingerprint, c.pc.claimId), s.now + c.ttlMs))
      case DeleteClaim(_, true) => s'.store == None
      case Evict => s'.store == None
      case _ =>
        s'.store == if PassesTime(step) && s.store.Some? && s.store.value.expiresAt <= s'.now then None else s.store
  {
  }

  /** A deletion that lands leaves no record, so that a call that then looks for one, before or under the
      lock, goes on to claim. */
  lemma {:induction false} ReleaseReopens(cfg: Config, states: seq<Sys>, steps: seq<Step>, n: nat)
    requires IsRun(cfg, states, steps) && n < |steps| && steps[n].DeleteClaim? && steps[n].landed
    ensures var s := states[n + 1];
      && s.store.None?
      && (forall other <- s.calls | s.calls[other].pc.Loading? ::
            Next(cfg, s, Load(other, true)).calls[other].pc.Acquiring?)
      && (forall other <- s.calls | s.calls[other].pc.Rereading? ::
            Next(cfg, s, Reread(other, true)).calls[other].pc.Claiming?)
  {
  }

  /** The release of the claim lock. One that does not land changes nothing; after one that does, the
      handle owns nothing any more, no other handle's standing changes, and if the lease was still its
      own, the next attempt of any waiting call gets the lock. */
  lemma {:induction false} UnlockFrees(
      cfg: Config, states: seq<Sys>, steps: seq<Step>, n: nat, now: int, g: Lock.Handle, attempt: Step)
    requires IsRun(cfg, states, steps) && n < |steps| && steps[n].Unlock? && steps[n].tested <= now
    requires attempt.TryLock? && Enabled(states[n + 1], attempt)
    ensures var s, s', h := states[n], states[n + 1], states[n].calls[steps[n].id].pc.lock;
      && (if steps[n].landed then !Lock.Owns(s'.lock, h, now) else s'.lock == s.lock)
      && (g.key != h.key || g.token != h.token ==> (Lock.Owns(s'.lock, g, now) <==> Lock.Owns(s.lock, g, now)))
      && (steps[n].landed && Lock.Owns(s.lock, h, steps[n].tested) ==>
            Next(cfg, s', attempt).calls[attempt.id].pc.Rereading?)
  {
    var s, h, tested := states[n], states[n].calls[steps[n].id].pc.lock, steps[n].tested;
    ShapeThroughout(cfg, states, steps, n);
    assert CallShape(s, steps[n].id);
    Lock.ReleaseAndRefreshExact(s.lock, h, 0, tested, tested, g, now);
  }
}

/** Why each call is answered as it is, and what a commit records: each answer is settled by one step of
    the call itself, and where a record decides it, by the call's own read of that record; no
    interleaving, error or crash turns it into another. */
module IdempotencyAnswers {
  import opened Wrappers
  import opened Idempotency

  /** A record answers for the request it was made by, and for no other. */
  function FromRecord(r: Record, fingerprint: string): Outcome {
    match r
    case Record(Completed(value), f, _) => if f == fingerprint then Replayed(value) else Mismatch
    case Record(InFlight, f, _) => if f == fingerprint then Refused else Mismatch
  }

  /** The answer a step settles for its call: by a failure, by giving up, by the record it reads, or by
      the end of the work. */
  function Verdict(s: Sys, step: Step): Option<Outcome>
    requires Enabled(s, step)
  {
    match step
    case Arrive(_, fingerprint, _) => if fingerprint == "" then Some(Failed) else None
    case Load(id, ok) => if ok then ReadVerdict(s, s.calls[id].fingerprint) else Some(Failed)
    case Reread(id, ok) => if ok then ReadVerdict(s, s.calls[id].fingerprint) else Some(Failed)
    case LockError(_) => Some(Failed)
    case GiveUp(_) => Some(Refused)
    case WriteClaim(_, ok, _) => if ok then None else Some(Failed)
    case Return(_, value) => Some(Executed(value))
    case Throw(_) => Some(Failed)
    case _ => None
  }

  function ReadVerdict(s: Sys, fingerprint: string): Option<Outcome> {
    match s.store
    case None => None
    case Some(entry) => Some(FromRecord(entry.record, fingerprint))
  }

  /** The call can only end with this answer, if it does not crash. */
  predicate HeadingFor(c: Call, outcome: Outcome) {
    match c.pc
    case Unlocking(_, Existing(r)) => FromRecord(r, c.fingerprint) == outcome
    case Unlocking(_, ClaimFailed) => outcome == Failed
    case Committing(_, value) => outcome == Executed(value)
    case Writing(_, value) => outcome == Executed(value)
    case Releasing(_, o) => outcome == o
    case Deleting(_, o) => outcome == o
    case Done(o) => outcome == o
    case Crashed => true
    case _ => false
  }

  predicate Heads(s: Sys, id: nat, outcome: Outcome) {
    id in s.calls && HeadingFor(s.calls[id], outcome)
  }

  lemma VerdictHeads(cfg: Config, s: Sys, s': Sys, step: Step, outcome: Outcome)
    requires Enabled(s, step) && s' == Next(cfg, s, step) && Verdict(s, step) == Some(outcome)
    ensures !step.Tick? && !step.Evict? && Heads(s', step.id, outcome)
  {
  }

  lemma OwnHeadingKept(cfg: Config, s: Sys, s': Sys, step: Step, outcome: Outcome)
    requires !step.Tick? && !step.Evict? && Enabled(s, step) && s' == Next(cfg, s, step)
    requires Heads(s, step.id, outcome)
    ensures Heads(s', step.id, outcome) && Verdict(s, step).None?
  {
  }

  lemma OthersHeadingKept(cfg: Config, s: Sys, s': Sys, step: Step, id: nat)
    requires Enabled(s, step) && s' == Next(cfg, s, step) && id in s.calls
    requires step.Tick? || step.Evict? || step.id != id
    ensures id in s'.calls && s'.calls[id] == s.calls[id]
  {
  }

  lemma HeadingKept(cfg: Config, s: Sys, s': Sys, step: Step, id: nat, outcome: Outcome)
    requires Enabled(s, step) && s' == Next(cfg, s, step) && Heads(s, id, outcome)
    ensures Heads(s', id, outcome)
    ensures !step.Tick? && !step.Evict? && step.id == id ==> Verdict(s, step).None?
  {
    if step.Tick? || step.Evict? || step.id != id {
      OthersHeadingKept(cfg, s, s', step, id);
    } else {
      OwnHeadingKept(cfg, s, s', step, outcome);
    }
  }

  lemma {:induction false} HeadsOn(states: seq<Sys>, a: nat, b: nat, id: nat, outcome: Outcome)
    requires a <= b < |states| && Heads(states[a], id, outcome)
    requires forall j | a <= j < b && Heads(states[j], id, outcome) :: Heads(states[j + 1], id, outcome)
    ensures Heads(states[b], id, outcome)
  {
    if a < b {
      HeadsOn(states, a, b - 1, id, outcome);
      assert Heads(states[b - 1 + 1], id, outcome);
    }
  }

  /** A settled answer stands: whatever happens after the step that settled it, the call is answered so
      or crashes first. */
  lemma {:induction false} VerdictStands(cfg: Config, states: seq<Sys>, steps: seq<Step>, k: nat, n: nat)
    returns (outcome: Outcome)
    requires IsRun(cfg, states, steps) && k < n < |states| && Verdict(states[k], steps[k]).Some?
    ensures !steps[k].Tick? && !steps[k].Evict? && Heads(states[n], steps[k].id, outcome)
    ensures Verdict(states[k], steps[k]) == Some(outcome)
  {
    outcome := Verdict(states[k], steps[k]).value;
    VerdictHeads(cfg, states[k], states[k + 1], steps[k], outcome);
    var id := steps[k].id;
    forall j | k + 1 <= j < n && Heads(states[j], id, outcome) ensures Heads(states[j + 1], id, outcome) {
      HeadingKept(cfg, states[j], states[j + 1], steps[j], id, outcome);
    }
    HeadsOn(states, k + 1, n, id, outcome);
  }

  /** Step `k` settles this answer for this call. */
  predicate Settles(s: Sys, step: Step, id: nat, outcome: Outcome) {
    !step.Tick? && !step.Evict? && step.id == id && Enabled(s, step) && Verdict(s, step) == Some(outcome)
  }

  ghost predicate SettledBefore(states: seq<Sys>, steps: seq<Step>, n: nat, id: nat, outcome: Outcome)
    requires n <= |steps| && n <= |states|
  {
    exists k | 0 <= k < n :: Settles(states[k], steps[k], id, outcome)
  }

  lemma HeadingFrom(cfg: Config, s: Sys, s': Sys, step: Step, id: nat, outcome: Outcome)
    requires Enabled(s, step) && s' == Next(cfg, s, step)
    requires Heads(s', id, outcome) && !s'.calls[id].pc.Crashed?
    ensures (Heads(s, id, outcome) && !s.calls[id].pc.Crashed?) || Settles(s, step, id, outcome)
  {
    if step.Tick? || step.Evict? || step.id != id {
      OthersStay(cfg, s, step, id);
    } else {
      OwnHeading(cfg, s, s', step, outcome);
    }
  }

  lemma OwnHeading(cfg: Config, s: Sys, s': Sys, step: Step, outcome: Outcome)
    requires !step.Tick? && !step.Evict? && Enabled(s, step) && s' == Next(cfg, s, step)
    requires Heads(s', step.id, outcome) && !s'.calls[step.id].pc.Crashed?
    ensures (Heads(s, step.id, outcome) && !s.calls[step.id].pc.Crashed?) || Verdict(s, step) == Some(outcome)
  {
  }

  lemma {:induction false} HeadingSettled(
      cfg: Config, states: seq<Sys>, steps: seq<Step>, n: nat, id: nat, outcome: Outcome)
    requires IsRun(cfg, states, steps) && n < |states|
    requires Heads(states[n], id, outcome) && !states[n].calls[id].pc.Crashed?
    ensures SettledBefore(states, steps, n, id, outcome)
  {
    HeadingFrom(cfg, states[n - 1], states[n], steps[n - 1], id, outcome);
    if !Settles(states[n - 1], steps[n - 1], id, outcome) {
      HeadingSettled(cfg, states, steps, n - 1, id, outcome);
      var k :| 0 <= k < n - 1 && Settles(states[k], steps[k], id, outcome);
      assert k < n;
    }
  }

  /** Exactly: a call is answered so if and only if one of its steps has settled that answer: it failed,
      gave up on the lock, read a record that says so, or ended its work that way. */
  lemma {:induction false} AnswersExact(
      cfg: Config, states: seq<Sys>, steps: seq<Step>, n: nat, id: nat, outcome: Outcome)
    requires IsRun(cfg, states, steps) && n < |states|
    requires id in states[n].calls && states[n].calls[id].pc.Done?
    ensures states[n].calls[id].pc == Done(outcome) <==> SettledBefore(states, steps, n, id, outcome)
  {
    if states[n].calls[id].pc == Done(outcome) {
      HeadingSettled(cfg, states, steps, n, id, outcome);
    }
    if SettledBefore(states, steps, n, id, outcome) {
      var k :| 0 <= k < n && Settles(states[k], steps[k], id, outcome);
      var o := VerdictStands(cfg, states, steps, k, n);
    }
  }

  lemma OthersStay(cfg: Config, s: Sys, step: Step, id: nat)
    requires Enabled(s, step) && (step.Tick? || step.Evict? || step.id != id)
    ensures id in Next(cfg, s, step).calls ==> id in s.calls && Next(cfg, s, step).calls[id] == s.calls[id]
  {
  }

  // ---- What a commit records ----

  ghost predicate Took(steps: seq<Step>, n: nat, step: Step)
    requires n <= |steps|
  {
    exists k | 0 <= k < n :: steps[k] == step
  }

  lemma TookStays(steps: seq<Step>, n: nat, step: Step)
    requires n < |steps| && Took(steps, n, step)
    ensures Took(steps, n + 1, step)
  {
    var k :| 0 <= k < n && steps[k] == step;
    assert k < n + 1;
  }

  /** A positive lifetime of the call's own wins over the configured one. */
  function Lifetime(cfg: Config, ttlMs: Option<int>): int {
    if ttlMs.Some? && ttlMs.value > 0 then ttlMs.value else cfg.ttlMs
  }

  lemma {:induction false} Arrived(cfg: Config, states: seq<Sys>, steps: seq<Step>, n: nat, id: nat)
    returns (ttlMs: Option<int>)
    requires IsRun(cfg, states, steps) && n < |states| && id in states[n].calls
    ensures Took(steps, n, Arrive(id, states[n].calls[id].fingerprint, ttlMs))
    ensures states[n].calls[id].ttlMs == Lifetime(cfg, ttlMs)
  {
    var step, s := steps[n - 1], states[n - 1];
    if step.Arrive? && step.id == id {
      ttlMs := step.ttlMs;
      assert steps[n - 1] == Arrive(id, states[n].calls[id].fingerprint, ttlMs);
    } else {
      CallKept(cfg, s, step, id);
      ttlMs := Arrived(cfg, states, steps, n - 1, id);
      TookStays(steps, n - 1, Arrive(id, states[n].calls[id].fingerprint, ttlMs));
    }
  }

  lemma CallKept(cfg: Config, s: Sys, step: Step, id: nat)
    requires Enabled(s, step) && id in Next(cfg, s, step).calls && !(step.Arrive? && step.id == id)
    ensures id in s.calls
    ensures var c, c' := s.calls[id], Next(cfg, s, step).calls[id];
      c'.fingerprint == c.fingerprint && c'.ttlMs == c.ttlMs
  {
  }

  /** A commit records the value its own call's execution returned, under the fingerprint and for the
      lifetime that call arrived with. */
  lemma {:induction false} CommitExact(cfg: Config, states: seq<Sys>, steps: seq<Step>, n: nat)
    returns (ttlMs: Option<int>)
    requires IsRun(cfg, states, steps) && n < |steps| && steps[n].WriteResult? && steps[n].landed
    ensures var id, entry := steps[n].id, states[n + 1].store;
      && entry.Some? && entry.value.record.state.Completed?
      && Took(steps, n, Arrive(id, entry.value.record.fingerprint, ttlMs))
      && Took(steps, n, Return(id, entry.value.record.state.value))
      && entry.value.expiresAt == states[n].now + Lifetime(cfg, ttlMs)
  {
    var id := steps[n].id;
    var answer := Executed(states[n].calls[id].pc.value);
    HeadingSettled(cfg, states, steps, n, id, answer);
    var k :| 0 <= k < n && Settles(states[k], steps[k], id, answer);
    assert steps[k] == Return(id, answer.value);
    ttlMs := Arrived(cfg, states, steps, n, steps[n].id);
  }

  // ---- How long an abandoned claim is in the way ----

  /** A step either leaves the record alone and alive, or writes it, or removes it. */
  lemma RecordAlive(cfg: Config, s: Sys, step: Step)
    requires Enabled(s, step) && cfg.inFlightTtlMs > 0
    requires s.store.Some? ==> s.now < s.store.value.expiresAt
    requires Next(cfg, s, step).store.Some? && Next(cfg, s, step).store.value.record.state.InFlight?
    ensures var s' := Next(cfg, s, step); var entry := s'.store.value;
      if step.WriteClaim? && step.landed then
        && entry.record.claimId == s.nextClaim
        && entry.expiresAt == s.now + cfg.inFlightTtlMs && s'.now == s.now
      else s.store == s'.store && s'.now < entry.expiresAt
  {
  }

  /** Every stored record is still alive: expiry is never late. */
  lemma {:induction false} StoreAlive(cfg: Config, states: seq<Sys>, steps: seq<Step>, n: nat)
    requires IsRun(cfg, states, steps) && n < |states| && cfg.inFlightTtlMs > 0 && cfg.ttlMs > 0
    ensures states[n].store.Some? ==> states[n].now < states[n].store.value.expiresAt
  {
    if n > 0 {
      StoreAlive(cfg, states, steps, n - 1);
      if steps[n - 1].WriteResult? {
        var ttlMs := Arrived(cfg, states, steps, n - 1, steps[n - 1].id);
      }
    }
  }

  /** A claim in the way was written less than `inFlightTtlMs` ago: a call that crashed, or could not
      release its claim, blocks its key no longer than that. */
  lemma {:induction false} InFlightIsRecent(cfg: Config, states: seq<Sys>, steps: seq<Step>, n: nat)
    returns (k: nat)
    requires IsRun(cfg, states, steps) && n < |states| && cfg.inFlightTtlMs > 0 && cfg.ttlMs > 0
    requires states[n].store.Some? && states[n].store.value.record.state.InFlight?
    ensures k < n && steps[k].WriteClaim? && steps[k].landed
    ensures var entry := states[n].store.value;
      && entry.record.claimId == states[k].nextClaim
      && entry.expiresAt == states[k].now + cfg.inFlightTtlMs
      && states[n].now < states[k].now + cfg.inFlightTtlMs
  {
    StoreAlive(cfg, states, steps, n - 1);
    RecordAlive(cfg, states[n - 1], steps[n - 1]);
    if steps[n - 1].WriteClaim? && steps[n - 1].landed {
      k := n - 1;
    } else {
      k := InFlightIsRecent(cfg, states, steps, n - 1);
    }
  }
}

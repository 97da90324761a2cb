/** The protocol by which calls claim a key, work, and record the result, as a transition system over
    any number of concurrent `run` calls on one key.

    Every `await` on the store or the lock is one atomic step; the clock, eviction, store and lock
    errors and crashes are steps of the environment. The lock is the in-process lock's own table,
    so mutual exclusion is not assumed here but used from `MemoryLock`. */
module Idempotency {
  import opened Wrappers
  import Lock = MemoryLock

  type Value = string

  datatype Config = Config(ttlMs: int, inFlightTtlMs: int, lockTtlMs: int, recordable: Value -> bool)

  const LOCK_KEY := "idempotency:lock"

  datatype RecordState = InFlight | Completed(value: Value)

  datatype Record = Record(state: RecordState, fingerprint: string, claimId: nat)

  datatype Entry = Entry(record: Record, expiresAt: int)

  datatype Outcome = Executed(value: Value) | Replayed(value: Value) | Refused | Mismatch | Failed

  /** What claiming produced: an id, the record that made it unnecessary, or an error. */
  datatype Claim = Claimed(claimId: nat) | Existing(record: Record) | ClaimFailed

  /** Where one `run` call is. */
  datatype Pc =
    | Loading
    | Acquiring
    | Rereading(lock: Lock.Handle)
    | Claiming(lock: Lock.Handle)
    | Unlocking(lock: Lock.Handle, claim: Claim)
    | Starting(claimId: nat)
    | Running(claimId: nat)
    | Committing(claimId: nat, value: Value)
    | Writing(claimId: nat, value: Value)
    | Releasing(claimId: nat, outcome: Outcome)
    | Deleting(claimId: nat, outcome: Outcome)
    | Done(outcome: Outcome)
    | Crashed

  datatype Call = Call(fingerprint: string, ttlMs: int, pc: Pc)

  /** What has happened so far. `losses` counts records that expired or were evicted, `removals`
      records taken out by a claim release, `returned` the values executions produced. */
  datatype History = History(
    claimed: set<nat>, started: set<nat>, returned: set<(nat, string, Value)>, losses: nat, removals: nat)

  datatype Sys = Sys(
    now: int, store: Option<Entry>, lock: Lock.Table, calls: map<nat, Call>, nextClaim: nat, past: History)

  datatype Step =
    | Arrive(id: nat, fingerprint: string, ttlMs: Option<int>)
    | Load(id: nat, ok: bool)
    | TryLock(id: nat, swept: int, tested: int, stamped: int)
    | LockError(id: nat)
    | GiveUp(id: nat)
    | Reread(id: nat, ok: bool)
    | WriteClaim(id: nat, ok: bool, landed: bool)
    | Unlock(id: nat, landed: bool, tested: int)
    | Start(id: nat)
    | Return(id: nat, value: Value)
    | Throw(id: nat)
    | Recheck(id: nat, ok: bool)
    | WriteResult(id: nat, landed: bool)
    | DeleteClaim(id: nat, landed: bool)
    | Crash(id: nat)
    | Tick(to: int)
    | Evict

  function Init(now: int): Sys {
    Sys(now, None, Lock.EMPTY, map[], 0, History({}, {}, {}, 0, 0))
  }

  // ---- Steps ----

  /** Another fingerprint is a mismatch whatever state the record is in. */
  function Resolve(r: Record, fingerprint: string): Outcome {
    if r.fingerprint != fingerprint then Mismatch
    else match r.state case Completed(value) => Replayed(value) case InFlight => Refused
  }

  /** Time passes; a record whose time has come is gone. */
  function Advance(s: Sys, to: int): Sys {
    if s.store.Some? && s.store.value.expiresAt <= to then Lose(s).(now := to) else s.(now := to)
  }

  function Lose(s: Sys): Sys {
    s.(store := None, past := s.past.(losses := s.past.losses + 1))
  }

  function Goto(s: Sys, id: nat, pc: Pc): Sys
    requires id in s.calls
  {
    s.(calls := s.calls[id := s.calls[id].(pc := pc)])
  }

  predicate Enabled(s: Sys, step: Step) {
    match step
    case Arrive(id, _, _) => id !in s.calls
    case Load(id, _) => id in s.calls && s.calls[id].pc.Loading?
    case TryLock(id, swept, tested, stamped) =>
      id in s.calls && s.calls[id].pc.Acquiring? && s.now <= swept <= tested <= stamped
    case LockError(id) => id in s.calls && s.calls[id].pc.Acquiring?
    case GiveUp(id) => id in s.calls && s.calls[id].pc.Acquiring?
    case Reread(id, _) => id in s.calls && s.calls[id].pc.Rereading?
    case WriteClaim(id, ok, landed) => id in s.calls && s.calls[id].pc.Claiming? && (ok ==> landed)
    case Unlock(id, _, tested) => id in s.calls && s.calls[id].pc.Unlocking? && s.now <= tested
    case Start(id) => id in s.calls && s.calls[id].pc.Starting?
    case Return(id, _) => id in s.calls && s.calls[id].pc.Running?
    case Throw(id) => id in s.calls && s.calls[id].pc.Running?
    case Recheck(id, _) => id in s.calls && (s.calls[id].pc.Committing? || s.calls[id].pc.Releasing?)
    case WriteResult(id, _) => id in s.calls && s.calls[id].pc.Writing?
    case DeleteClaim(id, _) => id in s.calls && s.calls[id].pc.Deleting?
    case Crash(id) => id in s.calls && !s.calls[id].pc.Done?
    case Tick(to) => s.now <= to
    case Evict => s.store.Some?
  }

  function Next(cfg: Config, s: Sys, step: Step): Sys
    requires Enabled(s, step)
  {
    match step
    case Arrive(id, fingerprint, ttlMs) =>
      var ttl := if ttlMs.Some? && ttlMs.value > 0 then ttlMs.value else cfg.ttlMs;
      var pc := if fingerprint == "" then Done(Failed) else Loading;
      s.(calls := s.calls[id := Call(fingerprint, ttl, pc)])
    case Load(id, ok) =>
      if !ok then Goto(s, id, Done(Failed))
      else if s.store.None? then Goto(s, id, Acquiring)
      else Goto(s, id, Done(Resolve(s.store.value.record, s.calls[id].fingerprint)))
    case TryLock(id, swept, tested, stamped) =>
      var (lock, handle) := Lock.Acquired(s.lock, LOCK_KEY, cfg.lockTtlMs, swept, tested, stamped);
      var s' := Advance(s, stamped).(lock := lock);
      if handle.Some? then Goto(s', id, Rereading(handle.value)) else s'
    case LockError(id) => Goto(s, id, Done(Failed))
    case GiveUp(id) => Goto(s, id, Done(Refused))
    case Reread(id, ok) =>
      var h := s.calls[id].pc.lock;
      if !ok then Goto(s, id, Unlocking(h, ClaimFailed))
      else if s.store.None? then Goto(s, id, Claiming(h))
      else Goto(s, id, Unlocking(h, Existing(s.store.value.record)))
    case WriteClaim(id, ok, landed) =>
      var record := Record(InFlight, s.calls[id].fingerprint, s.nextClaim);
      var s' := s.(
        nextClaim := s.nextClaim + 1,
        store := if landed then Some(Entry(record, s.now + cfg.inFlightTtlMs)) else s.store,
        past := if ok then s.past.(claimed := s.past.claimed + {id}) else s.past);
      Goto(s', id, Unlocking(s.calls[id].pc.lock, if ok then Claimed(s.nextClaim) else ClaimFailed))
    case Unlock(id, landed, tested) =>
      var s' := Advance(s, tested);
      var s'' := if landed then s'.(lock := Lock.Released(s.lock, s.calls[id].pc.lock, tested).0) else s';
      (match s.calls[id].pc.claim
       case Claimed(claimId) => Goto(s'', id, Starting(claimId))
       case Existing(record) => Goto(s'', id, Done(Resolve(record, s.calls[id].fingerprint)))
       case ClaimFailed => Goto(s'', id, Done(Failed)))
    case Start(id) =>
      Goto(s.(past := s.past.(started := s.past.started + {id})), id, Running(s.calls[id].pc.claimId))
    case Return(id, value) =>
      var s' := s.(past := s.past.(returned := s.past.returned + {(id, s.calls[id].fingerprint, value)}));
      var claimId := s.calls[id].pc.claimId;
      if cfg.recordable(value) then Goto(s', id, Committing(claimId, value))
      else Goto(s', id, Releasing(claimId, Executed(value)))
    case Throw(id) => Goto(s, id, Releasing(s.calls[id].pc.claimId, Failed))
    case Recheck(id, ok) =>
      var pc := s.calls[id].pc;
      var ours := ok && s.store.Some? && s.store.value.record.claimId == pc.claimId;
      if pc.Committing? then
        Goto(s, id, if ours then Writing(pc.claimId, pc.value) else Done(Executed(pc.value)))
      else
        Goto(s, id, if ours then Deleting(pc.claimId, pc.outcome) else Done(pc.outcome))
    case WriteResult(id, landed) =>
      var c := s.calls[id];
      var record := Record(Completed(c.pc.value), c.fingerprint, c.pc.claimId);
      var s' := if landed then s.(store := Some(Entry(record, s.now + c.ttlMs))) else s;
      Goto(s', id, Done(Executed(c.pc.value)))
    case DeleteClaim(id, landed) =>
      var s' := if landed && s.store.Some? then
                  s.(store := None, past := s.past.(removals := s.past.removals + 1))
                else s;
      Goto(s', id, Done(s.calls[id].pc.outcome))
    case Crash(id) => Goto(s, id, Crashed)
    case Tick(to) => Advance(s, to)
    case Evict => Lose(s)
  }

  // ---- Runs ----

  ghost predicate IsRun(cfg: Config, states: seq<Sys>, steps: seq<Step>) {
    && |states| == |steps| + 1
    && states[0] == Init(states[0].now)
    && forall i | 0 <= i < |steps| :: Enabled(states[i], steps[i]) && states[i + 1] == Next(cfg, states[i], steps[i])
  }

  /** The claim lock covers the re-read and the write: a claim is only written while the writer's
      lease is still its own. `IdempotencyDeadlines` says exactly when that is. */
  predicate Timely(s: Sys, step: Step)
    requires Enabled(s, step)
  {
    step.WriteClaim? ==> Lock.Owns(s.lock, s.calls[step.id].pc.lock, s.now)
  }

  ghost predicate TimelyRun(cfg: Config, states: seq<Sys>, steps: seq<Step>)
    requires IsRun(cfg, states, steps)
  {
    forall i | 0 <= i < |steps| :: Timely(states[i], steps[i])
  }

  // ---- Structure every state keeps ----

  function HandleOf(pc: Pc): Option<Lock.Handle> {
    if pc.Rereading? || pc.Claiming? || pc.Unlocking? then Some(pc.lock) else None
  }

  /** The claim a call holds between writing it and committing or releasing it. */
  function ClaimOf(pc: Pc): Option<nat> {
    match pc
    case Unlocking(_, Claimed(claimId)) => Some(claimId)
    case Starting(claimId) => Some(claimId)
    case Running(claimId) => Some(claimId)
    case Committing(claimId, _) => Some(claimId)
    case Writing(claimId, _) => Some(claimId)
    case Releasing(claimId, _) => Some(claimId)
    case Deleting(claimId, _) => Some(claimId)
    case _ => None
  }

  predicate BeforeStart(pc: Pc) {
    pc.Starting? || (pc.Unlocking? && pc.claim.Claimed?)
  }

  /** States a call can only be in if it never claimed. */
  predicate BeforeClaim(pc: Pc) {
    || pc.Loading? || pc.Acquiring? || pc.Rereading? || pc.Claiming?
    || (pc.Unlocking? && !pc.claim.Claimed?) || (pc.Done? && pc.outcome.Replayed?)
  }

  predicate CallShape(s: Sys, id: nat)
    requires id in s.calls
  {
    var pc := s.calls[id].pc;
    && (BeforeClaim(pc) ==> id !in s.past.claimed)
    && (ClaimOf(pc).Some? ==> id in s.past.claimed && ClaimOf(pc).value < s.nextClaim)
    && (BeforeStart(pc) ==> id !in s.past.started)
    && (pc.Releasing? || pc.Deleting? ==> !pc.outcome.Replayed?)
    && (HandleOf(pc).Some? ==> HandleOf(pc).value.key == LOCK_KEY
                               && HandleOf(pc).value.token < s.lock.nextToken)
  }

  ghost predicate Shape(s: Sys) {
    && s.past.started <= s.past.claimed <= s.calls.Keys
    && (forall id <- s.calls :: CallShape(s, id))
    && (forall i <- s.calls, j <- s.calls ::
          i != j && HandleOf(s.calls[i].pc).Some? && HandleOf(s.calls[j].pc).Some? ==>
            HandleOf(s.calls[i].pc).value.token != HandleOf(s.calls[j].pc).value.token)
    && (forall i <- s.calls, j <- s.calls ::
          i != j && ClaimOf(s.calls[i].pc).Some? && ClaimOf(s.calls[j].pc).Some? ==>
            ClaimOf(s.calls[i].pc) != ClaimOf(s.calls[j].pc))
  }

  /** What a step of one call may change: that call, its own entries in the history, and the two
      counters; its handle and its claim are the ones it had or new ones. */
  ghost predicate Moves(s: Sys, s': Sys, id: nat) {
    && id in s'.calls && s'.calls == s.calls[id := s'.calls[id]]
    && s.past.claimed <= s'.past.claimed <= s.past.claimed + {id}
    && s.past.started <= s'.past.started <= s.past.started + {id}
    && (id in s'.past.started ==> id in s'.past.claimed)
    && s.nextClaim <= s'.nextClaim && s.lock.nextToken <= s'.lock.nextToken
    && CallShape(s', id)
    && (HandleOf(s'.calls[id].pc).Some? ==>
          || (id in s.calls && HandleOf(s.calls[id].pc) == HandleOf(s'.calls[id].pc))
          || HandleOf(s'.calls[id].pc).value.token >= s.lock.nextToken)
    && (ClaimOf(s'.calls[id].pc).Some? ==>
          || (id in s.calls && ClaimOf(s.calls[id].pc) == ClaimOf(s'.calls[id].pc))
          || ClaimOf(s'.calls[id].pc).value >= s.nextClaim)
  }

  lemma ShapeAfterMove(s: Sys, s': Sys, id: nat)
    requires Shape(s) && Moves(s, s', id)
    ensures Shape(s')
  {
    forall j <- s.calls | j != id ensures CallShape(s', j) {
      assert CallShape(s, j);
    }
    forall i <- s'.calls, j <- s'.calls
      ensures i != j && HandleOf(s'.calls[i].pc).Some? && HandleOf(s'.calls[j].pc).Some? ==>
            HandleOf(s'.calls[i].pc).value.token != HandleOf(s'.calls[j].pc).value.token
      ensures i != j && ClaimOf(s'.calls[i].pc).Some? && ClaimOf(s'.calls[j].pc).Some? ==>
            ClaimOf(s'.calls[i].pc) != ClaimOf(s'.calls[j].pc)
    {
      assert i in s.calls ==> CallShape(s, i);
      assert j in s.calls ==> CallShape(s, j);
    }
  }

  // One lemma for each group of steps; they share nothing but the shape of the conclusion.

  predicate Arriving(step: Step) {
    step.Arrive? || step.Load? || step.LockError? || step.GiveUp? || step.Reread?
  }

  predicate Working(step: Step) {
    step.WriteClaim? || step.Start? || step.Return? || step.Throw?
  }

  predicate Finishing(step: Step) {
    step.Recheck? || step.WriteResult? || step.DeleteClaim? || step.Crash?
  }

  lemma TryLockMoves(cfg: Config, s: Sys, step: Step)
    requires Enabled(s, step) && step.TryLock? && CallShape(s, step.id)
    requires step.id in s.past.started ==> step.id in s.past.claimed
    ensures Moves(s, Next(cfg, s, step), step.id)
  {
  }

  lemma UnlockMoves(cfg: Config, s: Sys, step: Step)
    requires Enabled(s, step) && step.Unlock? && CallShape(s, step.id)
    requires step.id in s.past.started ==> step.id in s.past.claimed
    ensures Moves(s, Next(cfg, s, step), step.id)
  {
  }

  lemma ArrivingMoves(cfg: Config, s: Sys, step: Step)
    requires Enabled(s, step) && Arriving(step)
    requires step.id in s.past.started ==> step.id in s.past.claimed
    requires step.id in s.past.claimed ==> step.id in s.calls
    requires step.id in s.calls ==> CallShape(s, step.id)
    ensures Moves(s, Next(cfg, s, step), step.id)
  {
  }

  lemma WorkingMoves(cfg: Config, s: Sys, step: Step)
    requires Enabled(s, step) && Working(step) && CallShape(s, step.id)
    requires step.id in s.past.started ==> step.id in s.past.claimed
    ensures Moves(s, Next(cfg, s, step), step.id)
  {
  }

  lemma FinishingMoves(cfg: Config, s: Sys, step: Step)
    requires Enabled(s, step) && Finishing(step) && CallShape(s, step.id)
    requires step.id in s.past.started ==> step.id in s.past.claimed
    ensures Moves(s, Next(cfg, s, step), step.id)
  {
  }

  lemma StepMoves(cfg: Config, s: Sys, step: Step)
    requires Shape(s) && Enabled(s, step) && !step.Tick? && !step.Evict?
    ensures Moves(s, Next(cfg, s, step), step.id)
  {
    assert step.id in s.calls ==> CallShape(s, step.id);
    if Arriving(step) {
      ArrivingMoves(cfg, s, step);
    } else if Working(step) {
      WorkingMoves(cfg, s, step);
    } else if Finishing(step) {
      FinishingMoves(cfg, s, step);
    } else if step.TryLock? {
      TryLockMoves(cfg, s, step);
    } else {
      UnlockMoves(cfg, s, step);
    }
  }

  /** Time and eviction touch no call. */
  lemma ShapeAfterTime(s: Sys, s': Sys)
    requires Shape(s) && s'.calls == s.calls && s'.nextClaim == s.nextClaim && s'.lock == s.lock
    requires s'.past.claimed == s.past.claimed && s'.past.started == s.past.started
    ensures Shape(s')
  {
    forall id <- s.calls ensures CallShape(s', id) {
      assert CallShape(s, id);
    }
  }

  lemma ShapePreserved(cfg: Config, s: Sys, step: Step)
    requires Shape(s) && Enabled(s, step)
    ensures Shape(Next(cfg, s, step))
  {
    if step.Tick? || step.Evict? {
      ShapeAfterTime(s, Next(cfg, s, step));
    } else {
      StepMoves(cfg, s, step);
      ShapeAfterMove(s, Next(cfg, s, step), step.id);
    }
  }
}

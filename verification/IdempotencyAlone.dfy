/** One call with nobody in its way is the atomic operation its documentation describes: it looks the
    key up, and either answers from the record or does the work, records it or leaves the key free. */
module IdempotencyAlone {
  import opened Wrappers
  import opened Idempotency
  import opened IdempotencyAnswers
  import opened IdempotencyPaths
  import Lock = MemoryLock

  /** What the work comes to. */
  datatype Work = Gives(value: Value) | Throws

  /** The clock over one call: the three readings of the lock attempt, the one of the unlock, and the end
      of the work. */
  datatype Times = Times(swept: int, tested: int, stamped: int, unlocked: int, finished: int)

  predicate InOrder(t: Times, from: int) {
    from <= t.swept <= t.tested <= t.stamped <= t.unlocked <= t.finished
  }

  /** No handle of the claim lock owns it from `from` on. */
  ghost predicate Free(lock: Lock.Table, from: int) {
    forall token, now | from <= now :: !Lock.Owns(lock, Lock.Handle(LOCK_KEY, token, 0), now)
  }

  // ---- The operation ----

  /** The answer to a call and the record it leaves; `claimId` marks the claim it would write. */
  function Operation(
      cfg: Config, store: Option<Entry>, fingerprint: string, ttlMs: Option<int>, work: Work, finished: int,
      claimId: nat)
    : (Outcome, Option<Entry>)
  {
    if fingerprint == "" then (Failed, store)
    else match store
      case Some(entry) => (FromRecord(entry.record, fingerprint), store)
      case None =>
        match work
        case Throws => (Failed, None)
        case Gives(value) =>
          (Executed(value),
           if cfg.recordable(value) then
             Some(Entry(Record(Completed(value), fingerprint, claimId), finished + Lifetime(cfg, ttlMs)))
           else None)
  }

  // ---- Its steps ----

  function Claims(id: nat, fingerprint: string, ttlMs: Option<int>, t: Times): seq<Step> {
    [Arrive(id, fingerprint, ttlMs), Load(id, true), TryLock(id, t.swept, t.tested, t.stamped),
     Reread(id, true), WriteClaim(id, true, true), Unlock(id, true, t.unlocked), Start(id)]
  }

  function Finishes(cfg: Config, id: nat, t: Times, work: Work): seq<Step> {
    [Tick(t.finished), if work.Gives? then Return(id, work.value) else Throw(id), Recheck(id, true),
     if work.Gives? && cfg.recordable(work.value) then WriteResult(id, true) else DeleteClaim(id, true)]
  }

  /** The steps of one call that meets no error. */
  function Steps(
      cfg: Config, store: Option<Entry>, id: nat, fingerprint: string, ttlMs: Option<int>, t: Times, work: Work)
    : seq<Step>
  {
    if fingerprint == "" then [Arrive(id, fingerprint, ttlMs)]
    else if store.Some? then [Arrive(id, fingerprint, ttlMs), Load(id, true)]
    else Claims(id, fingerprint, ttlMs, t) + Finishes(cfg, id, t, work)
  }

  // ---- Taking them ----

  /** `s` with one call put where it is. */
  function At(s: Sys, id: nat, call: Call): Sys {
    s.(calls := s.calls[id := call])
  }

  lemma Append(cfg: Config, s: Sys, steps: seq<Step>, mid: Sys, step: Step, end: Sys)
    requires After(cfg, false, s, steps) == Some(mid) && Enabled(mid, step) && Next(cfg, mid, step) == end
    ensures After(cfg, false, s, steps + [step]) == Some(end)
  {
    assert After(cfg, false, end, []) == Some(end) && [step][1..] == [];
    Then(cfg, false, s, steps, mid, [step], end);
  }

  lemma Arrives(cfg: Config, s: Sys, id: nat, fingerprint: string, ttlMs: Option<int>)
    requires id !in s.calls
    ensures Enabled(s, Arrive(id, fingerprint, ttlMs))
    ensures Next(cfg, s, Arrive(id, fingerprint, ttlMs))
         == At(s, id, Call(fingerprint, Lifetime(cfg, ttlMs), if fingerprint == "" then Done(Failed) else Loading))
  {
  }

  lemma Loads(cfg: Config, s: Sys, id: nat, c: Call)
    requires c.pc.Loading?
    ensures Enabled(At(s, id, c), Load(id, true))
    ensures Next(cfg, At(s, id, c), Load(id, true))
         == At(s, id, c.(pc := if s.store.None? then Acquiring
                               else Done(FromRecord(s.store.value.record, c.fingerprint))))
  {
    AtAgain(s, id, c, c.(pc := if s.store.None? then Acquiring
                               else Done(FromRecord(s.store.value.record, c.fingerprint))));
  }

  lemma AtAgain(s: Sys, id: nat, c: Call, d: Call)
    ensures At(At(s, id, c), id, d) == At(s, id, d)
  {
    assert s.calls[id := c][id := d] == s.calls[id := d];
  }

  /** With the lock free and no record, the attempt is granted. */
  lemma Locks(cfg: Config, s: Sys, id: nat, c: Call, t: Times) returns (s': Sys, h: Lock.Handle)
    requires c.pc.Acquiring? && s.store.None? && InOrder(t, s.now) && Free(s.lock, t.tested)
    ensures Enabled(At(s, id, c), TryLock(id, t.swept, t.tested, t.stamped))
    ensures Next(cfg, At(s, id, c), TryLock(id, t.swept, t.tested, t.stamped)) == At(s', id, c.(pc := Rereading(h)))
    ensures s' == s.(now := t.stamped, lock := s'.lock)
    ensures h.key == LOCK_KEY && forall token | token != h.token ::
              forall now :: !Lock.Owns(s'.lock, Lock.Handle(LOCK_KEY, token, 0), now)
  {
    var (lock, got) := Lock.Acquired(s.lock, LOCK_KEY, cfg.lockTtlMs, t.swept, t.tested, t.stamped);
    Lock.AcquireExact(
      s.lock, LOCK_KEY, cfg.lockTtlMs, t.swept, t.tested, t.stamped, Lock.Handle(LOCK_KEY, 0, 0), t.stamped);
    h := got.value;
    s' := s.(now := t.stamped, lock := lock);
    AtAgain(s', id, c, c.(pc := Rereading(h)));
  }

  lemma Rereads(cfg: Config, s: Sys, id: nat, c: Call)
    requires c.pc.Rereading? && s.store.None?
    ensures Enabled(At(s, id, c), Reread(id, true))
    ensures Next(cfg, At(s, id, c), Reread(id, true)) == At(s, id, c.(pc := Claiming(c.pc.lock)))
  {
    AtAgain(s, id, c, c.(pc := Claiming(c.pc.lock)));
  }

  function WithClaim(cfg: Config, s: Sys, id: nat, fingerprint: string): Sys {
    s.(nextClaim := s.nextClaim + 1,
       store := Some(Entry(Record(InFlight, fingerprint, s.nextClaim), s.now + cfg.inFlightTtlMs)),
       past := s.past.(claimed := s.past.claimed + {id}))
  }

  lemma WritesClaim(cfg: Config, s: Sys, id: nat, c: Call)
    requires c.pc.Claiming?
    ensures Enabled(At(s, id, c), WriteClaim(id, true, true))
    ensures Next(cfg, At(s, id, c), WriteClaim(id, true, true))
         == At(WithClaim(cfg, s, id, c.fingerprint), id, c.(pc := Unlocking(c.pc.lock, Claimed(s.nextClaim))))
  {
    AtAgain(WithClaim(cfg, s, id, c.fingerprint), id, c, c.(pc := Unlocking(c.pc.lock, Claimed(s.nextClaim))));
  }

  lemma Unlocks(cfg: Config, s: Sys, id: nat, c: Call, unlocked: int) returns (s': Sys)
    requires c.pc.Unlocking? && c.pc.claim.Claimed? && c.pc.lock.key == LOCK_KEY && s.now <= unlocked
    requires s.store.Some? && unlocked < s.store.value.expiresAt
    requires forall token | token != c.pc.lock.token ::
               forall now :: !Lock.Owns(s.lock, Lock.Handle(LOCK_KEY, token, 0), now)
    ensures Enabled(At(s, id, c), Unlock(id, true, unlocked))
    ensures Next(cfg, At(s, id, c), Unlock(id, true, unlocked)) == At(s', id, c.(pc := Starting(c.pc.claim.claimId)))
    ensures s' == s.(now := unlocked, lock := s'.lock) && Free(s'.lock, unlocked)
  {
    var h := c.pc.lock;
    s' := s.(now := unlocked, lock := Lock.Released(s.lock, h, unlocked).0);
    forall token, now | unlocked <= now ensures !Lock.Owns(s'.lock, Lock.Handle(LOCK_KEY, token, 0), now) {
      Lock.ReleaseAndRefreshExact(s.lock, h, 0, unlocked, unlocked, Lock.Handle(LOCK_KEY, token, 0), now);
    }
    AtAgain(s', id, c, c.(pc := Starting(c.pc.claim.claimId)));
  }

  function WithStart(s: Sys, id: nat): Sys {
    s.(past := s.past.(started := s.past.started + {id}))
  }

  lemma Starts(cfg: Config, s: Sys, id: nat, c: Call)
    requires c.pc.Starting?
    ensures Enabled(At(s, id, c), Start(id))
    ensures Next(cfg, At(s, id, c), Start(id)) == At(WithStart(s, id), id, c.(pc := Running(c.pc.claimId)))
  {
    AtAgain(WithStart(s, id), id, c, c.(pc := Running(c.pc.claimId)));
  }

  /** The state in which the call starts its work: its claim is written and the lock free again. */
  function Begun(cfg: Config, s: Sys, id: nat, fingerprint: string, t: Times, lock: Lock.Table): Sys {
    WithStart(WithClaim(cfg, s.(now := t.stamped), id, fingerprint).(now := t.unlocked, lock := lock), id)
  }

  /** Up to the lock. */
  lemma {:induction false} LocksAlone(
      cfg: Config, s: Sys, id: nat, fingerprint: string, ttlMs: Option<int>, t: Times)
    returns (locked: Sys, h: Lock.Handle)
    requires id !in s.calls && fingerprint != "" && s.store.None? && InOrder(t, s.now) && Free(s.lock, t.tested)
    ensures After(cfg, false, s, Claims(id, fingerprint, ttlMs, t)[..3])
         == Some(At(locked, id, Call(fingerprint, Lifetime(cfg, ttlMs), Rereading(h))))
    ensures locked == s.(now := t.stamped, lock := locked.lock)
    ensures h.key == LOCK_KEY && forall token | token != h.token ::
              forall now :: !Lock.Owns(locked.lock, Lock.Handle(LOCK_KEY, token, 0), now)
  {
    var c := Call(fingerprint, Lifetime(cfg, ttlMs), Loading);
    var waiting := c.(pc := Acquiring);
    var steps := Claims(id, fingerprint, ttlMs, t);
    Arrives(cfg, s, id, fingerprint, ttlMs);
    Append(cfg, s, [], s, steps[0], At(s, id, c));
    Loads(cfg, s, id, c);
    Append(cfg, s, [steps[0]], At(s, id, c), steps[1], At(s, id, waiting));
    locked, h := Locks(cfg, s, id, waiting, t);
    Append(cfg, s, [steps[0]] + [steps[1]], At(s, id, waiting), steps[2], At(locked, id, c.(pc := Rereading(h))));
    assert [steps[0]] + [steps[1]] + [steps[2]] == steps[..3];
  }

  /** Under the lock: the claim is written. */
  lemma {:induction false} WritesAlone(
      cfg: Config, s: Sys, id: nat, fingerprint: string, ttlMs: Option<int>, t: Times)
    returns (claimed: Sys, h: Lock.Handle)
    requires id !in s.calls && fingerprint != "" && s.store.None? && InOrder(t, s.now) && Free(s.lock, t.tested)
    ensures After(cfg, false, s, Claims(id, fingerprint, ttlMs, t)[..5])
         == Some(At(claimed, id, Call(fingerprint, Lifetime(cfg, ttlMs), Unlocking(h, Claimed(s.nextClaim)))))
    ensures claimed == WithClaim(cfg, s.(now := t.stamped, lock := claimed.lock), id, fingerprint)
    ensures h.key == LOCK_KEY && forall token | token != h.token ::
              forall now :: !Lock.Owns(claimed.lock, Lock.Handle(LOCK_KEY, token, 0), now)
  {
    var steps := Claims(id, fingerprint, ttlMs, t);
    var locked;
    locked, h := LocksAlone(cfg, s, id, fingerprint, ttlMs, t);
    var c := Call(fingerprint, Lifetime(cfg, ttlMs), Rereading(h));
    Rereads(cfg, locked, id, c);
    var claiming := c.(pc := Claiming(h));
    Append(cfg, s, steps[..3], At(locked, id, c), steps[3], At(locked, id, claiming));
    WritesClaim(cfg, locked, id, claiming);
    claimed := WithClaim(cfg, locked, id, fingerprint);
    Append(cfg, s, steps[..3] + [steps[3]], At(locked, id, claiming), steps[4],
           At(claimed, id, c.(pc := Unlocking(h, Claimed(s.nextClaim)))));
    assert steps[..3] + [steps[3]] + [steps[4]] == steps[..5];
  }

  lemma {:induction false} ClaimsAlone(
      cfg: Config, s: Sys, id: nat, fingerprint: string, ttlMs: Option<int>, t: Times) returns (lock: Lock.Table)
    requires id !in s.calls && fingerprint != "" && s.store.None? && InOrder(t, s.now) && Free(s.lock, t.tested)
    requires t.unlocked < t.stamped + cfg.inFlightTtlMs
    ensures Free(lock, t.unlocked)
    ensures After(cfg, false, s, Claims(id, fingerprint, ttlMs, t))
         == Some(At(Begun(cfg, s, id, fingerprint, t, lock), id,
                    Call(fingerprint, Lifetime(cfg, ttlMs), Running(s.nextClaim))))
  {
    var steps := Claims(id, fingerprint, ttlMs, t);
    var claimed, h := WritesAlone(cfg, s, id, fingerprint, ttlMs, t);
    var unlocking := Call(fingerprint, Lifetime(cfg, ttlMs), Unlocking(h, Claimed(s.nextClaim)));
    var free := Unlocks(cfg, claimed, id, unlocking, t.unlocked);
    var starting := unlocking.(pc := Starting(s.nextClaim));
    Append(cfg, s, steps[..5], At(claimed, id, unlocking), steps[5], At(free, id, starting));
    Starts(cfg, free, id, starting);
    Append(cfg, s, steps[..5] + [steps[5]], At(free, id, starting), steps[6],
           At(WithStart(free, id), id, starting.(pc := Running(s.nextClaim))));
    lock := free.lock;
    assert steps[..5] + [steps[5]] + [steps[6]] == steps;
  }

  // ---- The end of the work ----

  function WithReturn(s: Sys, id: nat, fingerprint: string, work: Work): Sys {
    match work
    case Throws => s
    case Gives(value) => s.(past := s.past.(returned := s.past.returned + {(id, fingerprint, value)}))
  }

  predicate Records(cfg: Config, work: Work) {
    work.Gives? && cfg.recordable(work.value)
  }

  function AnswerOf(work: Work): Outcome {
    match work
    case Throws => Failed
    case Gives(value) => Executed(value)
  }

  lemma Waits(cfg: Config, s: Sys, id: nat, c: Call, finished: int)
    requires s.now <= finished && s.store.Some? && finished < s.store.value.expiresAt
    ensures Enabled(At(s, id, c), Tick(finished))
    ensures Next(cfg, At(s, id, c), Tick(finished)) == At(s.(now := finished), id, c)
  {
  }

  lemma Works(cfg: Config, s: Sys, id: nat, c: Call, work: Work)
    requires c.pc.Running?
    ensures var step := if work.Gives? then Return(id, work.value) else Throw(id);
      && Enabled(At(s, id, c), step)
      && Next(cfg, At(s, id, c), step)
         == At(WithReturn(s, id, c.fingerprint, work), id,
               c.(pc := if Records(cfg, work) then Committing(c.pc.claimId, work.value)
                        else Releasing(c.pc.claimId, AnswerOf(work))))
  {
    AtAgain(WithReturn(s, id, c.fingerprint, work), id, c,
            c.(pc := if Records(cfg, work) then Committing(c.pc.claimId, work.value)
                     else Releasing(c.pc.claimId, AnswerOf(work))));
  }

  lemma Checks(cfg: Config, s: Sys, id: nat, c: Call, claimId: nat, work: Work)
    requires c.pc == if Records(cfg, work) then Committing(claimId, work.value)
                     else Releasing(claimId, AnswerOf(work))
    requires s.store.Some? && s.store.value.record.claimId == claimId
    ensures Enabled(At(s, id, c), Recheck(id, true))
    ensures Next(cfg, At(s, id, c), Recheck(id, true))
         == At(s, id, c.(pc := if Records(cfg, work) then Writing(claimId, work.value)
                               else Deleting(claimId, AnswerOf(work))))
  {
    AtAgain(s, id, c, c.(pc := if Records(cfg, work) then Writing(claimId, work.value)
                               else Deleting(claimId, AnswerOf(work))));
  }

  function WithRecord(cfg: Config, s: Sys, c: Call, work: Work, claimId: nat): Sys {
    if Records(cfg, work) then
      s.(store := Some(Entry(Record(Completed(work.value), c.fingerprint, claimId), s.now + c.ttlMs)))
    else s.(store := None, past := s.past.(removals := s.past.removals + 1))
  }

  lemma Completes(cfg: Config, s: Sys, id: nat, c: Call, claimId: nat, work: Work)
    requires c.pc == if Records(cfg, work) then Writing(claimId, work.value)
                     else Deleting(claimId, AnswerOf(work))
    requires s.store.Some?
    ensures var step := if Records(cfg, work) then WriteResult(id, true) else DeleteClaim(id, true);
      && Enabled(At(s, id, c), step)
      && Next(cfg, At(s, id, c), step)
         == At(WithRecord(cfg, s, c, work, claimId), id, c.(pc := Done(AnswerOf(work))))
  {
    AtAgain(WithRecord(cfg, s, c, work, claimId), id, c, c.(pc := Done(AnswerOf(work))));
  }

  lemma {:induction false} FinishesAlone(cfg: Config, s: Sys, id: nat, c: Call, t: Times, work: Work)
    requires c.pc.Running? && s.now <= t.finished
    requires s.store.Some? && s.store.value.record.claimId == c.pc.claimId && t.finished < s.store.value.expiresAt
    ensures var worked := WithReturn(s.(now := t.finished), id, c.fingerprint, work);
      After(cfg, false, At(s, id, c), Finishes(cfg, id, t, work))
      == Some(At(WithRecord(cfg, worked, c, work, c.pc.claimId), id, c.(pc := Done(AnswerOf(work)))))
  {
    var steps, claimId, start := Finishes(cfg, id, t, work), c.pc.claimId, At(s, id, c);
    Waits(cfg, s, id, c, t.finished);
    var late := s.(now := t.finished);
    Append(cfg, start, [], start, steps[0], At(late, id, c));
    Works(cfg, late, id, c, work);
    var worked := WithReturn(late, id, c.fingerprint, work);
    var ending := c.(pc := if Records(cfg, work) then Committing(claimId, work.value)
                           else Releasing(claimId, AnswerOf(work)));
    Append(cfg, start, [steps[0]], At(late, id, c), steps[1], At(worked, id, ending));
    Checks(cfg, worked, id, ending, claimId, work);
    var found := c.(pc := if Records(cfg, work) then Writing(claimId, work.value)
                          else Deleting(claimId, AnswerOf(work)));
    Append(cfg, start, [steps[0]] + [steps[1]], At(worked, id, ending), steps[2], At(worked, id, found));
    Completes(cfg, worked, id, found, claimId, work);
    Append(cfg, start, [steps[0]] + [steps[1]] + [steps[2]], At(worked, id, found), steps[3],
           At(WithRecord(cfg, worked, c, work, claimId), id, c.(pc := Done(AnswerOf(work)))));
    assert [steps[0]] + [steps[1]] + [steps[2]] + [steps[3]] == steps;
  }

  // ---- The whole call ----

  /** When the call finds no record, the lock is free for its attempt and its claim outlives its work. */
  ghost predicate Unhindered(cfg: Config, s: Sys, t: Times) {
    s.store.None? ==> InOrder(t, s.now) && Free(s.lock, t.tested) && t.finished < t.stamped + cfg.inFlightTtlMs
  }

  /** A call without a fingerprint, or that finds a record. */
  lemma {:induction false} AnsweredAlone(
      cfg: Config, s: Sys, id: nat, fingerprint: string, ttlMs: Option<int>, t: Times, work: Work)
    returns (end: Sys)
    requires id !in s.calls && (fingerprint == "" || s.store.Some?)
    ensures After(cfg, false, s, Steps(cfg, s.store, id, fingerprint, ttlMs, t, work)) == Some(end)
    ensures var outcome := Operation(cfg, s.store, fingerprint, ttlMs, work, t.finished, s.nextClaim).0;
      end == At(s, id, Call(fingerprint, Lifetime(cfg, ttlMs), Done(outcome)))
  {
    var c := Call(fingerprint, Lifetime(cfg, ttlMs), if fingerprint == "" then Done(Failed) else Loading);
    Arrives(cfg, s, id, fingerprint, ttlMs);
    Append(cfg, s, [], s, Arrive(id, fingerprint, ttlMs), At(s, id, c));
    assert [] + [Arrive(id, fingerprint, ttlMs)] == [Arrive(id, fingerprint, ttlMs)];
    end := At(s, id, c);
    if fingerprint != "" {
      Loads(cfg, s, id, c);
      end := At(s, id, c.(pc := Done(FromRecord(s.store.value.record, fingerprint))));
      Append(cfg, s, [Arrive(id, fingerprint, ttlMs)], At(s, id, c), Load(id, true), end);
      assert [Arrive(id, fingerprint, ttlMs)] + [Load(id, true)] == [Arrive(id, fingerprint, ttlMs), Load(id, true)];
    }
  }

  /** The state a call leaves that did its work. */
  function Worked(
      cfg: Config, s: Sys, id: nat, fingerprint: string, ttlMs: Option<int>, t: Times, work: Work, lock: Lock.Table)
    : Sys
  {
    var running := Call(fingerprint, Lifetime(cfg, ttlMs), Running(s.nextClaim));
    var worked := WithReturn(Begun(cfg, s, id, fingerprint, t, lock).(now := t.finished), id, fingerprint, work);
    At(WithRecord(cfg, worked, running, work, s.nextClaim), id, running.(pc := Done(AnswerOf(work))))
  }

  lemma {:induction false} WorksAlone(
      cfg: Config, s: Sys, id: nat, fingerprint: string, ttlMs: Option<int>, t: Times, work: Work)
    returns (lock: Lock.Table)
    requires id !in s.calls && fingerprint != "" && s.store.None? && Unhindered(cfg, s, t)
    ensures Free(lock, t.unlocked)
    ensures After(cfg, false, s, Claims(id, fingerprint, ttlMs, t) + Finishes(cfg, id, t, work))
         == Some(Worked(cfg, s, id, fingerprint, ttlMs, t, work, lock))
  {
    lock := ClaimsAlone(cfg, s, id, fingerprint, ttlMs, t);
    var begun := Begun(cfg, s, id, fingerprint, t, lock);
    var running := Call(fingerprint, Lifetime(cfg, ttlMs), Running(s.nextClaim));
    FinishesAlone(cfg, begun, id, running, t, work);
    Then(cfg, false, s, Claims(id, fingerprint, ttlMs, t), At(begun, id, running), Finishes(cfg, id, t, work),
         Worked(cfg, s, id, fingerprint, ttlMs, t, work, lock));
  }

  lemma WorkedExact(
      cfg: Config, s: Sys, id: nat, fingerprint: string, ttlMs: Option<int>, t: Times, work: Work, lock: Lock.Table)
    requires s.store.None? && fingerprint != ""
    ensures var end := Worked(cfg, s, id, fingerprint, ttlMs, t, work, lock);
      var (outcome, store) := Operation(cfg, None, fingerprint, ttlMs, work, t.finished, s.nextClaim);
      && end.calls == s.calls[id := Call(fingerprint, Lifetime(cfg, ttlMs), Done(outcome))]
      && end.store == store && end.now == t.finished && end.lock == lock
      && end.past.started == s.past.started + {id} && end.nextClaim == s.nextClaim + 1
  {
  }

  /** From any state, a call with nobody in its way is the atomic operation: it gives its answer, leaves
      its record, and leaves the lock as free as it found it. */
  lemma {:induction false} AloneIsAtomic(
      cfg: Config, s: Sys, id: nat, fingerprint: string, ttlMs: Option<int>, t: Times, work: Work)
    returns (end: Sys)
    requires id !in s.calls && Unhindered(cfg, s, t)
    ensures After(cfg, false, s, Steps(cfg, s.store, id, fingerprint, ttlMs, t, work)) == Some(end)
    ensures var (outcome, store) := Operation(cfg, s.store, fingerprint, ttlMs, work, t.finished, s.nextClaim);
      && end.calls == s.calls[id := Call(fingerprint, Lifetime(cfg, ttlMs), Done(outcome))]
      && end.store == store
    ensures if fingerprint == "" || s.store.Some? then
              end.now == s.now && end.lock == s.lock && end.past == s.past
            else
              && end.now == t.finished && Free(end.lock, t.finished)
              && end.past.started == s.past.started + {id} && end.nextClaim == s.nextClaim + 1
  {
    if fingerprint == "" || s.store.Some? {
      end := AnsweredAlone(cfg, s, id, fingerprint, ttlMs, t, work);
    } else {
      var lock := WorksAlone(cfg, s, id, fingerprint, ttlMs, t, work);
      WorkedExact(cfg, s, id, fingerprint, ttlMs, t, work, lock);
      end := Worked(cfg, s, id, fingerprint, ttlMs, t, work, lock);
    }
  }

  /** The first call's result, as the record it leaves. */
  function Left(cfg: Config, fingerprint: string, ttlMs: Option<int>, work: Work, finished: int, claimId: nat)
    : Option<Entry>
  {
    Operation(cfg, None, fingerprint, ttlMs, work, finished, claimId).1
  }

  lemma Pauses(cfg: Config, s: Sys, to: int) returns (s': Sys)
    requires s.now <= to
    ensures Enabled(s, Tick(to)) && Next(cfg, s, Tick(to)) == s' && s'.now == to
    ensures s'.store == if s.store.Some? && s.store.value.expiresAt <= to then None else s.store
    ensures s'.calls == s.calls && s'.lock == s.lock && s'.past.started == s.past.started
  {
    s' := Advance(s, to);
  }

  /** Two calls, the second some time after the first. A recorded value is replayed to the same request
      and refused to another until its lifetime is over; after that, and after a first call that recorded
      nothing, the second call does its own work. */
  lemma {:induction false} SecondCall(
      cfg: Config, s: Sys, id: nat, fingerprint: string, ttlMs: Option<int>, t: Times, work: Work, pause: int,
      other: nat, fingerprint': string, ttlMs': Option<int>, t': Times, work': Work)
    returns (end: Sys)
    requires id !in s.calls && other !in s.calls && id != other && fingerprint != "" && fingerprint' != ""
    requires s.store.None? && Unhindered(cfg, s, t)
    requires t.finished <= pause && InOrder(t', pause) && t'.finished < t'.stamped + cfg.inFlightTtlMs
    ensures var kept := Records(cfg, work) && pause < t.finished + Lifetime(cfg, ttlMs);
      var store := if kept then Left(cfg, fingerprint, ttlMs, work, t.finished, s.nextClaim) else None;
      && After(cfg, false, s, Steps(cfg, None, id, fingerprint, ttlMs, t, work) + [Tick(pause)]
                              + Steps(cfg, store, other, fingerprint', ttlMs', t', work')) == Some(end)
      && id in end.calls && end.calls[id].pc == Done(AnswerOf(work))
      && other in end.calls && (other in end.past.started <==> !kept || other in s.past.started)
      && end.calls[other].pc == Done(if !kept then AnswerOf(work')
                                     else if fingerprint' == fingerprint then Replayed(work.value)
                                     else Mismatch)
  {
    var first := Steps(cfg, None, id, fingerprint, ttlMs, t, work);
    var mid := AloneIsAtomic(cfg, s, id, fingerprint, ttlMs, t, work);
    var paused := Pauses(cfg, mid, pause);
    Append(cfg, s, first, mid, Tick(pause), paused);
    end := AloneIsAtomic(cfg, paused, other, fingerprint', ttlMs', t', work');
    Then(cfg, false, s, first + [Tick(pause)], paused,
         Steps(cfg, paused.store, other, fingerprint', ttlMs', t', work'), end);
  }
}

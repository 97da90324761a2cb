/** The two assumptions of `IdempotencyGuarantees` cannot be dropped: one run each in which a deadline
    is missed and the guarantee fails. */
module IdempotencyLimits {
  import opened Wrappers
  import opened Idempotency
  import opened IdempotencyGuarantees
  import opened IdempotencyPaths
  import Lock = MemoryLock

  const CONFIG := Config(1000, 100, 5, value => true)

  function Two(
      now: int, store: Option<Entry>, lock: Lock.Table, first: Pc, second: Pc, nextClaim: nat, past: History)
    : Sys
  {
    Sys(now, store, lock, map[0 := Call("f", 1000, first), 1 := Call("f", 1000, second)], nextClaim, past)
  }

  function Held(token: int, until: int): Lock.Table {
    Lock.Table(map[LOCK_KEY := Lock.Lease(token, until)], token + 1)
  }

  const QUIET := History({}, {}, {}, 0, 0)
  const FIRST := Lock.Handle(LOCK_KEY, 1, 5)
  const SECOND := Lock.Handle(LOCK_KEY, 2, 5)

  // ---- Without `Timely`: two executions, no loss and no release ----

  const BOTH_MISS: seq<Step> := [
    Arrive(0, "f", None), Arrive(1, "f", None), Load(0, true), Load(1, true)]
  /** The first call's lock lease lapses between its re-read and its claim write. */
  const LAPSE: seq<Step> := [
    TryLock(0, 0, 0, 0), Reread(0, true), TryLock(1, 5, 5, 5), Reread(1, true)]
  const BOTH_CLAIM: seq<Step> := [
    WriteClaim(0, true, true), WriteClaim(1, true, true), Unlock(0, false, 5), Unlock(1, false, 5)]
  const BOTH_START: seq<Step> := [Start(0), Start(1)]

  const MISSED := Two(0, None, Lock.EMPTY, Acquiring, Acquiring, 0, QUIET)
  const LAPSED := Two(5, None, Held(2, 10), Claiming(FIRST), Claiming(SECOND), 0, QUIET)
  const CLAIMED := Two(5, Some(Entry(Record(InFlight, "f", 1), 105)), Held(2, 10), Starting(0), Starting(1), 2,
                       History({0, 1}, {}, {}, 0, 0))

  const TWICE := Two(5, Some(Entry(Record(InFlight, "f", 1), 105)), Held(2, 10), Running(0), Running(1), 2,
                     History({0, 1}, {0, 1}, {}, 0, 0))

  lemma BothMiss()
    ensures After(CONFIG, false, Init(0), BOTH_MISS) == Some(MISSED)
  {
    assert After(CONFIG, false, Init(0), BOTH_MISS).value.calls == MISSED.calls;
  }

  lemma Lapse()
    ensures After(CONFIG, false, MISSED, LAPSE) == Some(LAPSED)
  {
    assert Lock.Acquired(MISSED.lock, LOCK_KEY, 5, 0, 0, 0) == (Held(1, 5), Some(FIRST));
    assert Lock.Acquired(Held(1, 5), LOCK_KEY, 5, 5, 5, 5) == (LAPSED.lock, Some(SECOND));
    assert After(CONFIG, false, MISSED, LAPSE).value.calls == LAPSED.calls;
  }

  lemma BothClaim()
    ensures After(CONFIG, false, LAPSED, BOTH_CLAIM) == Some(CLAIMED)
  {
    assert After(CONFIG, false, LAPSED, BOTH_CLAIM).value.calls == CLAIMED.calls;
    assert After(CONFIG, false, LAPSED, BOTH_CLAIM).value.past == CLAIMED.past;
  }

  lemma BothStart()
    ensures After(CONFIG, false, CLAIMED, BOTH_START) == Some(TWICE)
  {
    assert After(CONFIG, false, CLAIMED, BOTH_START).value.calls == TWICE.calls;
    assert After(CONFIG, false, CLAIMED, BOTH_START).value.past == TWICE.past;
  }

  lemma LapsedLockRunsTwice() returns (states: seq<Sys>, steps: seq<Step>)
    ensures IsRun(CONFIG, states, steps)
    ensures states[|steps|].past == History({0, 1}, {0, 1}, {}, 0, 0)
  {
    BothMiss();
    Lapse();
    BothClaim();
    BothStart();
    Then(CONFIG, false, Init(0), BOTH_MISS, MISSED, LAPSE, LAPSED);
    Then(CONFIG, false, Init(0), BOTH_MISS + LAPSE, LAPSED, BOTH_CLAIM, CLAIMED);
    Then(CONFIG, false, Init(0), BOTH_MISS + LAPSE + BOTH_CLAIM, CLAIMED, BOTH_START, TWICE);
    steps := BOTH_MISS + LAPSE + BOTH_CLAIM + BOTH_START;
    states := Trace(CONFIG, false, Init(0), steps);
  }

  // ---- Without `UndisturbedRun`: a late write lands on another call's record ----

  const CLAIM_FIRST: seq<Step> := [
    Arrive(0, "f", None), Arrive(1, "f", None), Load(0, true), TryLock(0, 0, 0, 0), Reread(0, true)]
  const START_FIRST: seq<Step> := [WriteClaim(0, true, true), Unlock(0, false, 0), Start(0)]
  const FINISH_FIRST: seq<Step> := [Return(0, "v"), Recheck(0, true)]
  /** The first call's claim expires after its check passed and before its write. */
  const EXPIRE: seq<Step> := [Tick(100), Load(1, true), TryLock(1, 100, 100, 100)]
  const MISS_SECOND: seq<Step> := [Reread(1, true)]
  const RECLAIM: seq<Step> := [WriteClaim(1, true, true)]

  const OURS := Some(Entry(Record(InFlight, "f", 0), 100))
  const WORKED := History({0}, {0}, {(0, "f", "v")}, 0, 0)
  const CLAIMING := Two(0, None, Held(1, 5), Claiming(FIRST), Loading, 0, QUIET)
  const RUNNING := Two(0, OURS, Held(1, 5), Running(0), Loading, 1, History({0}, {0}, {}, 0, 0))
  const WRITING := Two(0, OURS, Held(1, 5), Writing(0, "v"), Loading, 1, WORKED)
  const EXPIRED := Two(100, None, Held(2, 105), Writing(0, "v"), Rereading(SECOND), 1, WORKED.(losses := 1))
  const MISSED_SECOND := EXPIRED.(calls := EXPIRED.calls[1 := Call("f", 1000, Claiming(SECOND))])
  const RECLAIMED := Two(100, Some(Entry(Record(InFlight, "f", 1), 200)), Held(2, 105), Writing(0, "v"),
                         Unlocking(SECOND, Claimed(1)), 2, History({0, 1}, {0}, {(0, "f", "v")}, 1, 0))

  lemma ClaimFirst()
    ensures After(CONFIG, true, Init(0), CLAIM_FIRST) == Some(CLAIMING)
  {
    assert Lock.Acquired(Lock.EMPTY, LOCK_KEY, 5, 0, 0, 0) == (Held(1, 5), Some(FIRST));
    assert After(CONFIG, true, Init(0), CLAIM_FIRST).value.calls == CLAIMING.calls;
  }

  lemma StartFirst()
    ensures After(CONFIG, true, CLAIMING, START_FIRST) == Some(RUNNING)
  {
    assert After(CONFIG, true, CLAIMING, START_FIRST).value.calls == RUNNING.calls;
    assert After(CONFIG, true, CLAIMING, START_FIRST).value.past == RUNNING.past;
  }

  lemma FinishFirst()
    ensures After(CONFIG, true, RUNNING, FINISH_FIRST) == Some(WRITING)
  {
    assert After(CONFIG, true, RUNNING, FINISH_FIRST).value.calls == WRITING.calls;
    assert After(CONFIG, true, RUNNING, FINISH_FIRST).value.past == WRITING.past;
  }

  lemma Expire()
    ensures After(CONFIG, true, WRITING, EXPIRE) == Some(EXPIRED)
  {
    assert Lock.Acquired(Held(1, 5), LOCK_KEY, 5, 100, 100, 100) == (Held(2, 105), Some(SECOND));
    assert After(CONFIG, true, WRITING, EXPIRE).value.calls == EXPIRED.calls;
  }

  lemma MissSecond()
    ensures After(CONFIG, true, EXPIRED, MISS_SECOND) == Some(MISSED_SECOND)
  {
    assert After(CONFIG, true, EXPIRED, MISS_SECOND).value.calls == MISSED_SECOND.calls;
  }

  lemma Reclaim()
    ensures After(CONFIG, true, MISSED_SECOND, RECLAIM) == Some(RECLAIMED)
  {
    assert After(CONFIG, true, MISSED_SECOND, RECLAIM).value.calls == RECLAIMED.calls;
    assert After(CONFIG, true, MISSED_SECOND, RECLAIM).value.past == RECLAIMED.past;
  }

  /** Up to the point where the first call's claim has expired. */
  lemma ExpiredRun() returns (steps: seq<Step>)
    ensures After(CONFIG, true, Init(0), steps) == Some(EXPIRED)
  {
    ClaimFirst();
    StartFirst();
    FinishFirst();
    Expire();
    Then(CONFIG, true, Init(0), CLAIM_FIRST, CLAIMING, START_FIRST, RUNNING);
    Then(CONFIG, true, Init(0), CLAIM_FIRST + START_FIRST, RUNNING, FINISH_FIRST, WRITING);
    Then(CONFIG, true, Init(0), CLAIM_FIRST + START_FIRST + FINISH_FIRST, WRITING, EXPIRE, EXPIRED);
    steps := CLAIM_FIRST + START_FIRST + FINISH_FIRST + EXPIRE;
  }

  /** Up to the point where the second call is about to claim. */
  lemma MissedRun() returns (steps: seq<Step>)
    ensures After(CONFIG, true, Init(0), steps) == Some(MISSED_SECOND)
  {
    steps := ExpiredRun();
    MissSecond();
    Then(CONFIG, true, Init(0), steps, EXPIRED, MISS_SECOND, MISSED_SECOND);
    steps := steps + MISS_SECOND;
  }

  /** The call whose claim expired is about to write over the other's. */
  lemma LateWriteHitsAnotherRecord() returns (states: seq<Sys>, steps: seq<Step>)
    ensures IsRun(CONFIG, states, steps) && TimelyRun(CONFIG, states, steps)
    ensures forall i | 0 <= i < |steps| :: !steps[i].Evict?
    ensures Enabled(states[|steps|], WriteResult(0, true)) && 1 in states[|steps|].calls
    ensures !OwnsRecord(states[|steps|], 0) && OwnsRecord(states[|steps|], 1)
  {
    var before := MissedRun();
    Reclaim();
    Then(CONFIG, true, Init(0), before, MISSED_SECOND, RECLAIM, RECLAIMED);
    steps := before + RECLAIM;
    states := Trace(CONFIG, true, Init(0), steps);
  }

  // ---- One late write makes a prompt call write over another's record too ----

  const WORK_SECOND: seq<Step> := [Unlock(1, false, 100), Start(1), Return(1, "w")]
  const LATE_WRITE: seq<Step> := [Recheck(1, true), WriteResult(0, true)]

  const BOTH_WORKED := History({0, 1}, {0, 1}, {(0, "f", "v"), (1, "f", "w")}, 1, 0)
  const SECOND_WORKED :=
    Two(100, Some(Entry(Record(InFlight, "f", 1), 200)), Held(2, 105), Writing(0, "v"), Committing(1, "w"), 2,
        BOTH_WORKED)
  const OVERWRITTEN :=
    Two(100, Some(Entry(Record(Completed("v"), "f", 0), 1100)), Held(2, 105), Done(Executed("v")),
        Writing(1, "w"), 2, BOTH_WORKED)

  lemma WorkSecond()
    ensures After(CONFIG, true, RECLAIMED, WORK_SECOND) == Some(SECOND_WORKED)
  {
    assert After(CONFIG, true, RECLAIMED, WORK_SECOND).value.calls == SECOND_WORKED.calls;
    assert After(CONFIG, true, RECLAIMED, WORK_SECOND).value.past == SECOND_WORKED.past;
  }

  lemma LateWrite()
    ensures After(CONFIG, true, SECOND_WORKED, LATE_WRITE) == Some(OVERWRITTEN)
  {
    assert After(CONFIG, true, SECOND_WORKED, LATE_WRITE).value.calls == OVERWRITTEN.calls;
  }

  /** The second call claims and completes within one instant, and still writes over a record that is
      not its own: the first call's late write landed between its check and its write. */
  lemma PromptCallHitsAnotherRecord() returns (states: seq<Sys>, steps: seq<Step>, claimed: nat)
    ensures IsRun(CONFIG, states, steps) && TimelyRun(CONFIG, states, steps)
    ensures forall i | 0 <= i < |steps| :: !steps[i].Evict?
    ensures claimed < |steps| && steps[claimed] == WriteClaim(1, true, true)
    ensures states[claimed].now == states[|steps|].now
    ensures Enabled(states[|steps|], WriteResult(1, true)) && !OwnsRecord(states[|steps|], 1)
  {
    var before := MissedRun();
    var rest := PromptRest();
    Then(CONFIG, true, Init(0), before, MISSED_SECOND, rest, OVERWRITTEN);
    steps, claimed := before + rest, |before|;
    states := Trace(CONFIG, true, Init(0), steps);
    StateAfter(CONFIG, true, states, before, rest);
  }

  /** The second call's whole run, with the first call's late write in it. */
  lemma PromptRest() returns (rest: seq<Step>)
    ensures After(CONFIG, true, MISSED_SECOND, rest) == Some(OVERWRITTEN)
    ensures rest != [] && rest[0] == WriteClaim(1, true, true)
  {
    Reclaim();
    WorkSecond();
    LateWrite();
    Then(CONFIG, true, MISSED_SECOND, RECLAIM, RECLAIMED, WORK_SECOND, SECOND_WORKED);
    Then(CONFIG, true, MISSED_SECOND, RECLAIM + WORK_SECOND, SECOND_WORKED, LATE_WRITE, OVERWRITTEN);
    rest := RECLAIM + WORK_SECOND + LATE_WRITE;
  }
}

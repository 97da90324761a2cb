/** The retry loop that runs a function under a lock. */
module WithLock {
  import opened Arithmetic

  /** What one `acquire` call answers. */
  datatype Answer = Granted | Busy | Broken

  datatype Ending = Returned | Threw | Contended | LockFailed

  /** The first attempt that ends the loop: it was not merely busy, or the deadline had passed. */
  ghost predicate IsLast(answer: nat -> Answer, clock: nat -> int, deadline: int, k: nat) {
    && (answer(k) != Busy || clock(k) >= deadline)
    && forall i: nat | i < k :: answer(i) == Busy && clock(i) < deadline
  }

  function NonNegative(n: int): nat {
    if n > 0 then n else 0
  }

  /** Runs the loop against an environment given by its answers: `answer(i)` is what the i-th
      attempt gets, `clock(i)` the reading after it, `fnThrows` whether the guarded function fails.
      A sleep lasts at least `pollMs`, if that is positive, and time does not stand still: some attempt
      `last` is answered or comes after the deadline. A release that throws is reported elsewhere and
      changes nothing here. */
  method Run(
      start: int, waitMs: int, pollMs: int, answer: nat -> Answer, clock: nat -> int, fnThrows: bool,
      ghost last: nat)
      returns (ending: Ending, attempts: nat, calls: nat, releases: nat)
    requires start <= clock(0) && forall i: nat :: clock(i) + NonNegative(pollMs) <= clock(i + 1)
    requires answer(last) != Busy || clock(last) >= start + waitMs
    ensures attempts > 0 && IsLast(answer, clock, start + waitMs, attempts - 1)
    ensures pollMs > 0 ==> attempts <= (NonNegative(waitMs) + pollMs - 1) / pollMs + 1
    ensures calls == releases == if answer(attempts - 1) == Granted then 1 else 0
    ensures ending == match answer(attempts - 1)
                      case Granted => if fnThrows then Threw else Returned
                      case Busy => Contended
                      case Broken => LockFailed
  {
    var deadline := start + waitMs;
    attempts, calls, releases := 0, 0, 0;
    while true
      invariant calls == releases == 0 && attempts <= last
      invariant forall i: nat | i < attempts :: answer(i) == Busy && clock(i) < deadline
      invariant pollMs > 0 ==> clock(attempts) >= start + attempts * pollMs
      invariant pollMs > 0 ==> attempts <= (NonNegative(waitMs) + pollMs - 1) / pollMs
      decreases last - attempts
    {
      var held := answer(attempts);
      attempts := attempts + 1;
      if held == Granted {
        calls := 1;
        releases := 1;
        return if fnThrows then Threw else Returned, attempts, calls, releases;
      }
      if held == Broken {
        return LockFailed, attempts, calls, releases;
      }
      if clock(attempts - 1) >= deadline {
        return Contended, attempts, calls, releases;
      }
      if pollMs > 0 {
        AttemptsWithin(waitMs, pollMs, attempts);
        assert attempts * pollMs == (attempts - 1) * pollMs + pollMs;
      }
    }
  }

  /** With a positive poll interval the sleeps alone bring the deadline, so no environment keeps the
      loop going. */
  lemma DeadlineComes(start: int, waitMs: int, pollMs: int, clock: nat -> int) returns (last: nat)
    requires pollMs > 0 && start <= clock(0) && forall i: nat :: clock(i) + pollMs <= clock(i + 1)
    ensures clock(last) >= start + waitMs
  {
    last := NonNegative(waitMs);
    ClockAdvances(start, pollMs, clock, last);
    Scale(last, 1, pollMs);
  }

  lemma {:induction false} ClockAdvances(start: int, pollMs: int, clock: nat -> int, i: nat)
    requires pollMs > 0 && start <= clock(0) && forall j: nat :: clock(j) + pollMs <= clock(j + 1)
    ensures clock(i) >= start + i * pollMs
  {
    if i > 0 {
      ClockAdvances(start, pollMs, clock, i - 1);
      assert clock(i - 1) + pollMs <= clock(i - 1 + 1);
      assert i * pollMs == (i - 1) * pollMs + pollMs;
    }
  }

  lemma AttemptsWithin(waitMs: nat, pollMs: int, attempts: int)
    requires pollMs > 0 && attempts > 0 && (attempts - 1) * pollMs < waitMs
    ensures attempts <= (waitMs + pollMs - 1) / pollMs
  {
    var q := (waitMs + pollMs - 1) / pollMs;
    assert waitMs <= pollMs * q;
    CancelFactor(pollMs, attempts - 1, q);
  }
}

/** The per-partition circuit breaker: a closed / open / half-open machine driven by a clock.

    The code reads its clock twice in one call (once to test an interval, once to stamp the new
    state), so every event carries both readings. Nothing below assumes they are equal. */
module CircuitBreaker {
  import opened Arithmetic

  datatype RawConfig = RawConfig(failureThreshold: int, openDurationMs: int, halfOpenMaxAttempts: int)

  /** The configuration schema admits positive integers only. */
  type Config = c: RawConfig |
      c.failureThreshold > 0 && c.openDurationMs > 0 && c.halfOpenMaxAttempts > 0
    witness RawConfig(5, 30_000, 1)

  datatype Mode = Closed | Open | HalfOpen

  datatype Snapshot =
    Snapshot(mode: Mode, failures: int, openedAt: int, halfOpenAt: int, attempts: int)

  const INITIAL := Snapshot(Closed, 0, 0, 0, 0)

  /** A call on the breaker, with the clock readings it makes. */
  datatype Event =
    | Ask(tested: int, stamped: int)
    | Success
    | Failure(stamped: int)

  function Reopen(s: Snapshot, now: int): Snapshot {
    s.(mode := Open, openedAt := now, attempts := 0)
  }

  /** What one event does to the breaker, and whether it lets a call through. */
  function Next(cfg: Config, s: Snapshot, e: Event): (Snapshot, bool) {
    match e
    case Success =>
      (if s.mode.HalfOpen? then s.(mode := Closed, failures := 0, attempts := 0)
       else s.(failures := 0), false)
    case Failure(now) =>
      if s.mode.HalfOpen? then (Reopen(s, now), false)
      else
        var counted := s.(failures := s.failures + 1);
        (if counted.failures >= cfg.failureThreshold then Reopen(counted, now) else counted, false)
    case Ask(tested, stamped) =>
      var s' :=
        if s.mode.Open? && tested - s.openedAt >= cfg.openDurationMs then
          s.(mode := HalfOpen, halfOpenAt := stamped, attempts := 0)
        else if && s.mode.HalfOpen?
                && s.attempts >= cfg.halfOpenMaxAttempts
                && tested - s.halfOpenAt >= cfg.openDurationMs then
          Reopen(s, stamped)
        else s;
      if s'.mode.HalfOpen? && s'.attempts < cfg.halfOpenMaxAttempts then
        (s'.(attempts := s'.attempts + 1), true)
      else
        (s', s'.mode.Closed?)
  }

  // ---- The object the code keeps per partition ----

  class PartitionBreaker {
    const config: Config
    var mode: Mode
    var failures: int
    var openedAt: int
    var halfOpenAt: int
    var halfOpenAttempts: int

    ghost function View(): Snapshot
      reads this
    {
      Snapshot(mode, failures, openedAt, halfOpenAt, halfOpenAttempts)
    }

    constructor (config: Config)
      ensures this.config == config && View() == INITIAL
    {
      this.config := config;
      mode, failures, openedAt, halfOpenAt, halfOpenAttempts := Closed, 0, 0, 0, 0;
    }

    /** Lets a call through or not; while half-open, letting one through uses up a probe. */
    method CanProceed(tested: int, stamped: int) returns (granted: bool)
      modifies this
      ensures (View(), granted) == Next(config, old(View()), Ask(tested, stamped))
    {
      if mode == Open && tested - openedAt >= config.openDurationMs {
        ToHalfOpen(stamped);
      } else if mode == HalfOpen && HalfOpenStalled(tested) {
        Trip(stamped);
      }
      if mode == HalfOpen {
        if halfOpenAttempts >= config.halfOpenMaxAttempts {
          return false;
        }
        halfOpenAttempts := halfOpenAttempts + 1;
        return true;
      }
      return mode == Closed;
    }

    method Succeeded()
      modifies this
      ensures View() == Next(config, old(View()), Success).0
    {
      if mode == HalfOpen {
        mode, failures, halfOpenAttempts := Closed, 0, 0;
        return;
      }
      failures := 0;
    }

    method Failed(stamped: int)
      modifies this
      ensures View() == Next(config, old(View()), Failure(stamped)).0
    {
      if mode == HalfOpen {
        Trip(stamped);
        return;
      }
      failures := failures + 1;
      if failures >= config.failureThreshold {
        Trip(stamped);
      }
    }

    predicate HalfOpenStalled(now: int)
      reads this
    {
      halfOpenAttempts >= config.halfOpenMaxAttempts && now - halfOpenAt >= config.openDurationMs
    }

    method Trip(now: int)
      modifies this
      ensures View() == Reopen(old(View()), now)
    {
      mode, openedAt, halfOpenAttempts := Open, now, 0;
    }

    method ToHalfOpen(now: int)
      modifies this
      ensures View() == old(View()).(mode := HalfOpen, halfOpenAt := now, attempts := 0)
    {
      mode, halfOpenAt, halfOpenAttempts := HalfOpen, now, 0;
    }
  }

  /** A breaker for each key that has been asked about. */
  class PartitionedCircuitBreaker {
    const config: Config
    var partitions: map<string, PartitionBreaker>

    ghost predicate Valid()
      reads this
    {
      && (forall k <- partitions :: partitions[k].config == config)
      && (forall j <- partitions, k <- partitions :: j != k ==> partitions[j] != partitions[k])
    }

    /** The state a key's breaker is in; a key never used behaves as a new breaker. */
    ghost function Partition(key: string): Snapshot
      reads this, partitions.Values
    {
      if key in partitions then partitions[key].View() else INITIAL
    }

    constructor (config: Config)
      ensures Valid() && this.config == config
      ensures forall k :: Partition(k) == INITIAL
    {
      this.config := config;
      partitions := map[];
    }

    /** Repeated lookups give the same object, and creating one disturbs no partition. */
    method ForPartition(key: string) returns (breaker: PartitionBreaker)
      requires Valid()
      modifies this
      ensures Valid()
      ensures key in partitions && partitions[key] == breaker
      ensures forall k <- old(partitions) :: k in partitions && partitions[k] == old(partitions[k])
      ensures key !in old(partitions) ==> fresh(breaker)
      ensures partitions.Keys == old(partitions.Keys) + {key}
      ensures forall k :: Partition(k) == old(Partition(k))
    {
      if key in partitions {
        return partitions[key];
      }
      breaker := new PartitionBreaker(config);
      partitions := partitions[key := breaker];
    }

    /** A call for one key moves that key's breaker by one event and no other key's. */
    method CanProceedFor(key: string, tested: int, stamped: int) returns (granted: bool)
      requires Valid()
      modifies this, partitions.Values
      ensures Valid()
      ensures (Partition(key), granted) == Next(config, old(Partition(key)), Ask(tested, stamped))
      ensures forall k :: k != key ==> Partition(k) == old(Partition(k))
    {
      var breaker := ForPartition(key);
      granted := breaker.CanProceed(tested, stamped);
    }

    method FailedFor(key: string, stamped: int)
      requires Valid()
      modifies this, partitions.Values
      ensures Valid()
      ensures Partition(key) == Next(config, old(Partition(key)), Failure(stamped)).0
      ensures forall k :: k != key ==> Partition(k) == old(Partition(k))
    {
      var breaker := ForPartition(key);
      breaker.Failed(stamped);
    }

    method SucceededFor(key: string)
      requires Valid()
      modifies this, partitions.Values
      ensures Valid()
      ensures Partition(key) == Next(config, old(Partition(key)), Success).0
      ensures forall k :: k != key ==> Partition(k) == old(Partition(k))
    {
      var breaker := ForPartition(key);
      breaker.Succeeded();
    }
  }

  // ---- Runs ----

  function Run(cfg: Config, s: Snapshot, es: seq<Event>): Snapshot {
    if es == [] then s else Next(cfg, Run(cfg, s, es[..|es| - 1]), es[|es| - 1]).0
  }

  /** How many calls a run lets through. */
  function Grants(cfg: Config, s: Snapshot, es: seq<Event>): nat {
    if es == [] then 0
    else
      Grants(cfg, s, es[..|es| - 1])
      + if Next(cfg, Run(cfg, s, es[..|es| - 1]), es[|es| - 1]).1 then 1 else 0
  }

  /** The clock never runs backwards over the run, starting at `from` and ending at `to`. */
  predicate Clocked(es: seq<Event>, from: int, to: int) {
    if es == [] then from <= to
    else
      match es[|es| - 1]
      case Ask(tested, stamped) => tested <= stamped <= to && Clocked(es[..|es| - 1], from, tested)
      case Success => Clocked(es[..|es| - 1], from, to)
      case Failure(now) => now <= to && Clocked(es[..|es| - 1], from, now)
  }

  ghost predicate StaysTripped(cfg: Config, s: Snapshot, es: seq<Event>) {
    forall k | 0 <= k <= |es| :: !Run(cfg, s, es[..k]).mode.Closed?
  }

  /** Failure reports since the last success report (late reports included). */
  function TrailingFailures(es: seq<Event>): nat {
    if es == [] then 0
    else
      match es[|es| - 1]
      case Ask(_, _) => TrailingFailures(es[..|es| - 1])
      case Success => 0
      case Failure(_) => TrailingFailures(es[..|es| - 1]) + 1
  }

  /** In every reachable state: closed means the count is exactly the consecutive failures so far
      and below the threshold; half-open never hands out more than its cap; and the stamp the
      current state waits on does not lie in the future. */
  lemma {:induction false} ReachableInvariant(cfg: Config, es: seq<Event>, from: int, to: int)
    requires Clocked(es, from, to)
    ensures var s := Run(cfg, INITIAL, es);
      && (s.mode.Closed? ==> s.failures == TrailingFailures(es) < cfg.failureThreshold)
      && (if s.mode.HalfOpen? then 1 <= s.attempts <= cfg.halfOpenMaxAttempts else s.attempts == 0)
      && (s.mode.Open? ==> s.openedAt <= to)
      && (s.mode.HalfOpen? ==> s.halfOpenAt <= to)
  {
    if es != [] {
      var e := es[|es| - 1];
      var mid := match e case Ask(tested, _) => tested case Success => to case Failure(now) => now;
      ReachableInvariant(cfg, es[..|es| - 1], from, mid);
    }
  }

  /** Strengthening of the rate bound: `episodes` half-open periods have begun so far, each at
      least one cooldown after the one before, and each gave out at most the cap. */
  ghost predicate RateInvariant(cfg: Config, s: Snapshot, t0: int, granted: int, episodes: nat) {
    match s.mode
    case Closed => false
    case Open =>
      && s.openedAt >= t0 + episodes * cfg.openDurationMs
      && granted <= cfg.halfOpenMaxAttempts * episodes
    case HalfOpen =>
      && episodes > 0
      && s.halfOpenAt >= t0 + episodes * cfg.openDurationMs
      && 0 <= s.attempts <= cfg.halfOpenMaxAttempts
      && granted <= cfg.halfOpenMaxAttempts * (episodes - 1) + s.attempts
  }

  /** The latest reading of the clock before an event's own. */
  function Since(e: Event, to: int): int {
    match e
    case Ask(tested, _) => tested
    case Success => to
    case Failure(now) => now
  }

  /** One event that leaves the circuit tripped keeps the rate invariant, starting at most one
      episode. */
  lemma RateStep(cfg: Config, s: Snapshot, e: Event, t0: int, granted: int, episodes: nat, to: int)
    returns (after: nat)
    requires RateInvariant(cfg, s, t0, granted, episodes) && !Next(cfg, s, e).0.mode.Closed?
    requires t0 + episodes * cfg.openDurationMs <= Since(e, to) <= to && Clocked([e], t0, to)
    ensures RateInvariant(cfg, Next(cfg, s, e).0, t0, granted + (if Next(cfg, s, e).1 then 1 else 0), after)
    ensures t0 + after * cfg.openDurationMs <= to
  {
    after := episodes;
    var cap, d := cfg.halfOpenMaxAttempts, cfg.openDurationMs;
    assert e.Ask? ==> e.tested <= e.stamped <= to;
    if e.Ask? && s.mode.Open? && e.tested - s.openedAt >= d {
      assert (episodes + 1) * d == episodes * d + d;
      assert cap * (episodes + 1 - 1) == cap * episodes;
      after := episodes + 1;
    } else if s.mode.HalfOpen? {
      assert cap * (episodes - 1) + cap == cap * episodes;
    }
  }

  lemma {:induction false} RateInvariantHolds(
      cfg: Config, s: Snapshot, es: seq<Event>, t0: int, to: int) returns (episodes: nat)
    requires s.mode.Open? && s.openedAt == t0
    requires Clocked(es, t0, to) && StaysTripped(cfg, s, es)
    ensures RateInvariant(cfg, Run(cfg, s, es), t0, Grants(cfg, s, es), episodes)
    ensures t0 + episodes * cfg.openDurationMs <= to
  {
    if es == [] { return 0; }
    var init, e := es[..|es| - 1], es[|es| - 1];
    StaysTrippedBefore(cfg, s, es);
    ClockedLast(es, t0, to);
    episodes := RateInvariantHolds(cfg, s, init, t0, Since(e, to));
    episodes := RateStep(cfg, Run(cfg, s, init), e, t0, Grants(cfg, s, init), episodes, to);
  }

  lemma {:induction false} StaysTrippedBefore(cfg: Config, s: Snapshot, es: seq<Event>)
    requires es != [] && StaysTripped(cfg, s, es)
    ensures StaysTripped(cfg, s, es[..|es| - 1]) && !Run(cfg, s, es).mode.Closed?
  {
    var init := es[..|es| - 1];
    forall k | 0 <= k <= |init| ensures !Run(cfg, s, init[..k]).mode.Closed? {
      assert init[..k] == es[..k];
    }
    assert es[..|es|] == es;
  }

  lemma {:induction false} ClockedLast(es: seq<Event>, from: int, to: int)
    requires es != [] && Clocked(es, from, to)
    ensures var e := es[|es| - 1];
      Clocked(es[..|es| - 1], from, Since(e, to)) && Clocked([e], from, to) && from <= Since(e, to) <= to
  {
    var e := es[|es| - 1];
    ClockedSpan(es[..|es| - 1], from, Since(e, to));
    assert [e][..0] == [];
  }

  lemma {:induction false} ClockedSpan(es: seq<Event>, from: int, to: int)
    requires Clocked(es, from, to)
    ensures from <= to
  {
    if es != [] {
      ClockedSpan(es[..|es| - 1], from, Since(es[|es| - 1], to));
    }
  }

  /** The probe-rate bound: from a closed-to-open transition until the circuit next closes, at
      most `halfOpenMaxAttempts` calls pass per elapsed cooldown, whatever reports arrive. */
  lemma ProbeRateBound(
      cfg: Config, before: Snapshot, trip: Event, es: seq<Event>, t: int)
    requires before.mode.Closed?
    requires var tripped := Next(cfg, before, trip).0;
      && tripped.mode.Open?
      && Clocked(es, tripped.openedAt, t)
      && StaysTripped(cfg, tripped, es)
    ensures var tripped := Next(cfg, before, trip).0;
      Grants(cfg, tripped, es)
      <= cfg.halfOpenMaxAttempts * ((t - tripped.openedAt) / cfg.openDurationMs)
  {
    var tripped := Next(cfg, before, trip).0;
    var t0, d, cap := tripped.openedAt, cfg.openDurationMs, cfg.halfOpenMaxAttempts;
    var episodes := RateInvariantHolds(cfg, tripped, es, t0, t);
    QuotientAtLeast(t - t0, d, episodes);
    Scale(cap, episodes, (t - t0) / d);
    var s := Run(cfg, tripped, es);
    if s.mode.HalfOpen? {
      assert cap * (episodes - 1) + cap == cap * episodes;
    }
  }

  /** No wedge: of any three consecutive asks a cooldown apart, one is let through. */
  lemma NoWedge(cfg: Config, es: seq<Event>, from: int, now: int, a: Event, b: Event, c: Event)
    requires Clocked(es, from, now)
    requires a.Ask? && b.Ask? && c.Ask?
    requires now <= a.tested <= a.stamped && b.tested <= b.stamped && c.tested <= c.stamped
    requires b.tested - a.stamped >= cfg.openDurationMs
    requires c.tested - b.stamped >= cfg.openDurationMs
    ensures var s := Run(cfg, INITIAL, es);
      var (s1, first) := Next(cfg, s, a);
      var (s2, second) := Next(cfg, s1, b);
      first || second || Next(cfg, s2, c).1
  {
    ReachableInvariant(cfg, es, from, now);
  }

  /** Two asks a cooldown apart are not enough: after a probe that never reports, the first is
      refused inside the half-open cooldown and the second only forces the circuit back open. */
  lemma NoWedgeNeedsThree()
    ensures var cfg: Config := RawConfig(1, 10, 1);
      var s := Run(cfg, INITIAL, [Failure(0), Ask(10, 10)]);
      var (s1, first) := Next(cfg, s, Ask(11, 11));
      !first && !Next(cfg, s1, Ask(21, 21)).1
  {
    var cfg: Config := RawConfig(1, 10, 1);
    assert [Failure(0), Ask(10, 10)][..1] == [Failure(0)];
    assert Run(cfg, INITIAL, [Failure(0)]) == Snapshot(Open, 1, 0, 0, 0) by {
      assert [Failure(0)][..0] == [];
    }
  }
}

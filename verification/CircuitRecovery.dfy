/** When the breaker lets calls through again, and when it stops: a success report closes a half-open
    circuit for as long as too few consecutive failures follow, a failure report keeps everyone out for a
    whole cooldown, and a half-open period hands out its probes and no fewer. */
module CircuitRecovery {
  import opened CircuitBreaker

  /** No run of failure reports reaches the threshold. */
  predicate BelowThreshold(cfg: Config, es: seq<Event>) {
    forall k | 0 <= k <= |es| :: TrailingFailures(es[..k]) < cfg.failureThreshold
  }

  lemma {:induction false} BelowBefore(cfg: Config, es: seq<Event>)
    requires es != [] && BelowThreshold(cfg, es)
    ensures BelowThreshold(cfg, es[..|es| - 1]) && TrailingFailures(es) < cfg.failureThreshold
  {
    assert es[..|es|] == es;
    var init := es[..|es| - 1];
    forall k | 0 <= k <= |init| ensures TrailingFailures(init[..k]) < cfg.failureThreshold {
      assert init[..k] == es[..k];
    }
  }

  /** A closed circuit with nothing counted against it stays closed as long as the reports stay below
      the threshold. */
  lemma {:induction false} StaysClosed(cfg: Config, s: Snapshot, es: seq<Event>)
    requires s.mode.Closed? && s.failures == 0 && BelowThreshold(cfg, es)
    ensures Run(cfg, s, es).mode.Closed? && Run(cfg, s, es).failures == TrailingFailures(es)
  {
    if es != [] {
      BelowBefore(cfg, es);
      StaysClosed(cfg, s, es[..|es| - 1]);
    }
  }

  /** Nobody passes an open circuit before its cooldown is over, whatever reports arrive late. */
  lemma {:induction false} StaysOpen(cfg: Config, s: Snapshot, es: seq<Event>, to: int)
    requires s.mode.Open? && Clocked(es, s.openedAt, to) && to < s.openedAt + cfg.openDurationMs
    ensures Run(cfg, s, es).mode.Open? && Run(cfg, s, es).openedAt >= s.openedAt
    ensures Grants(cfg, s, es) == 0
  {
    if es != [] {
      var init, e := es[..|es| - 1], es[|es| - 1];
      ClockedLast(es, s.openedAt, to);
      StaysOpen(cfg, s, init, Since(e, to));
    }
  }

  lemma RefusedWhileOpen(cfg: Config, s: Snapshot, es: seq<Event>, to: int, tested: int, stamped: int)
    requires s.mode.Open? && Clocked(es, s.openedAt, to) && to <= tested < s.openedAt + cfg.openDurationMs
    ensures !Next(cfg, Run(cfg, s, es), Ask(tested, stamped)).1
  {
    StaysOpen(cfg, s, es, to);
  }

  /** Recovery: one success report on a half-open circuit lets every later ask through, whatever the
      clock says, until `failureThreshold` failures in a row have been reported; the report that makes
      it so many, and no other, shuts the next asks out. */
  lemma {:induction false} RecoveryExact(
      cfg: Config, half: Snapshot, es: seq<Event>, ask: Event, now: int, later: Event)
    requires half.mode.HalfOpen? && BelowThreshold(cfg, es) && ask.Ask? && later.Ask?
    requires now <= later.tested < now + cfg.openDurationMs
    ensures var s := Run(cfg, Next(cfg, half, Success).0, es);
      && Next(cfg, s, ask).1
      && (Next(cfg, Next(cfg, s, Failure(now)).0, later).1 <==> TrailingFailures(es) + 1 < cfg.failureThreshold)
  {
    StaysClosed(cfg, Next(cfg, half, Success).0, es);
  }

  /** The same for a new breaker. */
  lemma {:induction false} TripExact(cfg: Config, es: seq<Event>, ask: Event, now: int, later: Event)
    requires BelowThreshold(cfg, es) && ask.Ask? && later.Ask?
    requires now <= later.tested < now + cfg.openDurationMs
    ensures var s := Run(cfg, INITIAL, es);
      && Next(cfg, s, ask).1
      && (Next(cfg, Next(cfg, s, Failure(now)).0, later).1 <==> TrailingFailures(es) + 1 < cfg.failureThreshold)
  {
    StaysClosed(cfg, INITIAL, es);
  }

  /** A failed probe: one failure report on a half-open circuit refuses every ask for a whole cooldown
      from its stamp on, whatever else is asked or reported. */
  lemma {:induction false} FailedProbe(
      cfg: Config, half: Snapshot, now: int, es: seq<Event>, to: int, ask: Event)
    requires half.mode.HalfOpen? && ask.Ask?
    requires Clocked(es, now, to) && to <= ask.tested < now + cfg.openDurationMs
    ensures var tripped := Next(cfg, half, Failure(now)).0;
      Grants(cfg, tripped, es) == 0 && !Next(cfg, Run(cfg, tripped, es), ask).1
  {
    StaysOpen(cfg, Next(cfg, half, Failure(now)).0, es, to);
  }

  /** Failures in a row, `before` of them before these events. */
  function Streak(before: int, es: seq<Event>): int {
    if es == [] then before
    else
      match es[|es| - 1]
      case Ask(_, _) => Streak(before, es[..|es| - 1])
      case Success => 0
      case Failure(_) => Streak(before, es[..|es| - 1]) + 1
  }

  /** When the cooldown of an open circuit began: at its trip, or at the last late failure report that
      found or made the failures in a row too many. */
  function CooldownStart(cfg: Config, s: Snapshot, es: seq<Event>): int {
    if es == [] then s.openedAt
    else
      var e := es[|es| - 1];
      if e.Failure? && Streak(s.failures, es) >= cfg.failureThreshold then e.stamped
      else CooldownStart(cfg, s, es[..|es| - 1])
  }

  /** Nobody asks after a cooldown. */
  predicate AsksTooEarly(cfg: Config, s: Snapshot, es: seq<Event>) {
    es == []
    || (&& AsksTooEarly(cfg, s, es[..|es| - 1])
        && var e := es[|es| - 1];
           e.Ask? ==> e.tested < CooldownStart(cfg, s, es[..|es| - 1]) + cfg.openDurationMs)
  }

  lemma {:induction false} CooldownRuns(cfg: Config, s: Snapshot, es: seq<Event>)
    requires s.mode.Open? && AsksTooEarly(cfg, s, es)
    ensures var s' := Run(cfg, s, es);
      s'.mode.Open? && s'.failures == Streak(s.failures, es) && s'.openedAt == CooldownStart(cfg, s, es)
    ensures Grants(cfg, s, es) == 0
  {
    if es != [] {
      CooldownRuns(cfg, s, es[..|es| - 1]);
    }
  }

  /** The first ask to pass an open circuit is the first one a cooldown after the trip or after the last
      late failure report that counts; success reports and refused asks do not prolong it. */
  lemma {:induction false} CooldownExact(cfg: Config, s: Snapshot, es: seq<Event>, ask: Event)
    requires s.mode.Open? && AsksTooEarly(cfg, s, es) && ask.Ask?
    ensures Next(cfg, Run(cfg, s, es), ask).1 <==> ask.tested >= CooldownStart(cfg, s, es) + cfg.openDurationMs
  {
    CooldownRuns(cfg, s, es);
  }

  /** The probes of a half-open period: of the asks made within a cooldown of its beginning, with none
      reported on yet, exactly the first `halfOpenMaxAttempts` pass. */
  lemma {:induction false} ProbesExact(cfg: Config, s: Snapshot, asks: seq<Event>)
    requires s.mode.Open? && asks != [] && forall e | e in asks :: e.Ask?
    requires asks[0].tested >= s.openedAt + cfg.openDurationMs
    requires forall i | 0 < i < |asks| :: asks[i].tested < asks[0].stamped + cfg.openDurationMs
    ensures var cap, n := cfg.halfOpenMaxAttempts, |asks|;
      && Grants(cfg, s, asks) == (if n < cap then n else cap)
      && Run(cfg, s, asks)
         == s.(mode := HalfOpen, halfOpenAt := asks[0].stamped, attempts := if n < cap then n else cap)
  {
    var init := asks[..|asks| - 1];
    if init == [] {
      assert asks == [asks[0]] && Run(cfg, s, []) == s && Grants(cfg, s, []) == 0;
    } else {
      assert forall e | e in init :: e in asks;
      assert init[0] == asks[0] && forall i | 0 < i < |init| :: init[i] == asks[i];
      ProbesExact(cfg, s, init);
      assert asks[|asks| - 1] in asks;
    }
  }

  /** Probes that never report hold everyone up for a cooldown; the first ask after it is refused too and
      starts another cooldown, after which asks pass again. */
  lemma {:induction false} StalledExact(cfg: Config, half: Snapshot, ask: Event, later: Event)
    requires half.mode.HalfOpen? && half.attempts >= cfg.halfOpenMaxAttempts
    requires ask.Ask? && later.Ask? && ask.tested <= ask.stamped <= later.tested
    ensures var (s, granted) := Next(cfg, half, ask);
      && !granted
      && (ask.tested < half.halfOpenAt + cfg.openDurationMs ==> s == half)
      && (ask.tested >= half.halfOpenAt + cfg.openDurationMs ==>
            (Next(cfg, s, later).1 <==> later.tested >= ask.stamped + cfg.openDurationMs))
  {
    if ask.tested >= half.halfOpenAt + cfg.openDurationMs {
      CooldownExact(cfg, Next(cfg, half, ask).0, [], later);
    }
  }
}

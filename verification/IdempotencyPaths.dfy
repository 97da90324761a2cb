/** Stretches of a run given by their steps alone. */
module IdempotencyPaths {
  import opened Wrappers
  import opened Idempotency

  /** Writes no claim under a lapsed lease and evicts nothing. */
  predicate Proper(s: Sys, step: Step)
    requires Enabled(s, step)
  {
    Timely(s, step) && !step.Evict?
  }

  /** The state a list of steps ends in; `None` if some step is not enabled or, when `proper` is asked
      for, not proper. */
  function After(cfg: Config, proper: bool, s: Sys, steps: seq<Step>): Option<Sys>
    decreases steps
  {
    if steps == [] then Some(s)
    else if Enabled(s, steps[0]) && (proper ==> Proper(s, steps[0])) then
      After(cfg, proper, Next(cfg, s, steps[0]), steps[1..])
    else None
  }

  ghost predicate Leads(cfg: Config, proper: bool, states: seq<Sys>, steps: seq<Step>) {
    && |states| == |steps| + 1
    && forall i | 0 <= i < |steps| ::
         && Enabled(states[i], steps[i]) && states[i + 1] == Next(cfg, states[i], steps[i])
         && (proper ==> Proper(states[i], steps[i]))
  }

  lemma {:induction false} Trace(cfg: Config, proper: bool, s: Sys, steps: seq<Step>) returns (states: seq<Sys>)
    requires After(cfg, proper, s, steps).Some?
    ensures Leads(cfg, proper, states, steps)
    ensures states[0] == s && states[|steps|] == After(cfg, proper, s, steps).value
    decreases steps
  {
    if steps == [] { return [s]; }
    states := Trace(cfg, proper, Next(cfg, s, steps[0]), steps[1..]);
    states := [s] + states;
  }

  lemma {:induction false} Then(cfg: Config, proper: bool, s: Sys, a: seq<Step>, mid: Sys, b: seq<Step>, end: Sys)
    requires After(cfg, proper, s, a) == Some(mid) && After(cfg, proper, mid, b) == Some(end)
    ensures After(cfg, proper, s, a + b) == Some(end)
    decreases a
  {
    if a == [] {
      assert a + b == b;
    } else {
      assert (a + b)[1..] == a[1..] + b;
      Then(cfg, proper, Next(cfg, s, a[0]), a[1..], mid, b, end);
    }
  }

  lemma {:induction false} StateAfter(cfg: Config, proper: bool, states: seq<Sys>, first: seq<Step>, rest: seq<Step>)
    requires Leads(cfg, proper, states, first + rest)
    ensures After(cfg, proper, states[0], first) == Some(states[|first|])
    decreases first
  {
    if first != [] {
      var later := first[1..];
      assert (first + rest)[1..] == later + rest;
      assert forall i | 0 <= i < |later + rest| :: (later + rest)[i] == (first + rest)[i + 1];
      LeadsRest(cfg, proper, states, first + rest);
      StateAfter(cfg, proper, states[1..], later, rest);
      assert first[0] == (first + rest)[0];
    }
  }

  lemma LeadsRest(cfg: Config, proper: bool, states: seq<Sys>, steps: seq<Step>)
    requires steps != [] && Leads(cfg, proper, states, steps)
    ensures Leads(cfg, proper, states[1..], steps[1..])
    ensures Enabled(states[0], steps[0]) && states[1] == Next(cfg, states[0], steps[0])
    ensures proper ==> Proper(states[0], steps[0])
  {
    forall i | 0 <= i < |steps[1..]| ensures
      && Enabled(states[1..][i], steps[1..][i])
      && states[1..][i + 1] == Next(cfg, states[1..][i], steps[1..][i])
      && (proper ==> Proper(states[1..][i], steps[1..][i]))
    {
      assert states[1..][i] == states[i + 1] && steps[1..][i] == steps[i + 1];
    }
  }
}

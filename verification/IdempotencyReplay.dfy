/** Where a replayed value comes from, in every run: lapsed locks, expiries and lost claims
    included. */
module IdempotencyReplay {
  import opened Idempotency
  import opened IdempotencyGuarantees

  /** Execution `id` of the work returned this value for this fingerprint, and it was accepted. */
  predicate Produced(cfg: Config, s: Sys, id: nat, fingerprint: string, value: Value) {
    && id in s.past.started
    && (id, fingerprint, value) in s.past.returned
    && cfg.recordable(value)
  }

  ghost predicate RecordBacked(cfg: Config, s: Sys, r: Record) {
    r.state.Completed? ==> exists q :: Produced(cfg, s, q, r.fingerprint, r.state.value)
  }

  ghost predicate CallBacked(cfg: Config, s: Sys, id: nat)
    requires id in s.calls
  {
    match s.calls[id].pc
    case Unlocking(_, Existing(r)) => RecordBacked(cfg, s, r)
    case Running(_) => id in s.past.started
    case Committing(_, value) => Produced(cfg, s, id, s.calls[id].fingerprint, value)
    case Writing(_, value) => Produced(cfg, s, id, s.calls[id].fingerprint, value)
    case Releasing(_, outcome) => !outcome.Replayed?
    case Deleting(_, outcome) => !outcome.Replayed?
    case Done(Replayed(value)) => exists q :: Produced(cfg, s, q, s.calls[id].fingerprint, value)
    case _ => true
  }

  ghost predicate Backed(cfg: Config, s: Sys) {
    && (s.store.Some? ==> RecordBacked(cfg, s, s.store.value.record))
    && (forall id <- s.calls :: CallBacked(cfg, s, id))
  }

  lemma PastGrows(cfg: Config, s: Sys, step: Step)
    requires Enabled(s, step)
    ensures s.past.started <= Next(cfg, s, step).past.started
    ensures s.past.returned <= Next(cfg, s, step).past.returned
  {
  }

  lemma RecordStaysBacked(cfg: Config, s: Sys, s': Sys, r: Record)
    requires RecordBacked(cfg, s, r)
    requires s.past.started <= s'.past.started && s.past.returned <= s'.past.returned
    ensures RecordBacked(cfg, s', r)
  {
    if r.state.Completed? {
      var q :| Produced(cfg, s, q, r.fingerprint, r.state.value);
      assert Produced(cfg, s', q, r.fingerprint, r.state.value);
    }
  }

  lemma CallStaysBacked(cfg: Config, s: Sys, s': Sys, id: nat)
    requires id in s.calls && id in s'.calls && s.calls[id] == s'.calls[id]
    requires CallBacked(cfg, s, id)
    requires s.past.started <= s'.past.started && s.past.returned <= s'.past.returned
    ensures CallBacked(cfg, s', id)
  {
    match s.calls[id].pc
    case Unlocking(_, Existing(r)) => RecordStaysBacked(cfg, s, s', r);
    case Done(Replayed(value)) =>
      var q :| Produced(cfg, s, q, s.calls[id].fingerprint, value);
      assert Produced(cfg, s', q, s.calls[id].fingerprint, value);
    case _ =>
  }

  /** The record after a step is the one before, or this call's own, or none. */
  lemma StoreStaysBacked(cfg: Config, s: Sys, step: Step)
    requires Backed(cfg, s) && Enabled(s, step)
    ensures var s' := Next(cfg, s, step);
      s'.store.Some? ==> RecordBacked(cfg, s', s'.store.value.record)
  {
    var s' := Next(cfg, s, step);
    PastGrows(cfg, s, step);
    if s'.store.Some? {
      if step.WriteResult? && step.landed {
        assert CallBacked(cfg, s, step.id);
        assert Produced(cfg, s', step.id, s.calls[step.id].fingerprint, s.calls[step.id].pc.value);
      } else if s.store == s'.store {
        RecordStaysBacked(cfg, s, s', s.store.value.record);
      }
    }
  }

  lemma MovedCallBacked(cfg: Config, s: Sys, step: Step)
    requires Enabled(s, step) && !step.Tick? && !step.Evict?
    requires s.store.Some? ==> RecordBacked(cfg, s, s.store.value.record)
    requires step.id in s.calls ==> CallBacked(cfg, s, step.id)
    ensures CallBacked(cfg, Next(cfg, s, step), step.id)
  {
    var s' := Next(cfg, s, step);
    PastGrows(cfg, s, step);
    if (step.Load? || step.Reread?) && s.store.Some? {
      RecordStaysBacked(cfg, s, s', s.store.value.record);
    }
    if step.Unlock? && s.calls[step.id].pc.claim.Existing? {
      RecordStaysBacked(cfg, s, s', s.calls[step.id].pc.claim.record);
    }
  }

  /** A step leaves every call but its own as it was. */
  ghost predicate OthersKept(s: Sys, s': Sys, step: Step) {
    forall id <- s'.calls ::
      (id in s.calls && s'.calls[id] == s.calls[id]) || (!step.Tick? && !step.Evict? && step.id == id)
  }

  lemma StepKeepsOthers(cfg: Config, s: Sys, step: Step)
    requires Enabled(s, step)
    ensures OthersKept(s, Next(cfg, s, step), step)
  {
  }

  lemma BackedAfter(cfg: Config, s: Sys, s': Sys, step: Step)
    requires Backed(cfg, s) && OthersKept(s, s', step)
    requires s.past.started <= s'.past.started && s.past.returned <= s'.past.returned
    requires s'.store.Some? ==> RecordBacked(cfg, s', s'.store.value.record)
    requires !step.Tick? && !step.Evict? ==> step.id in s'.calls && CallBacked(cfg, s', step.id)
    ensures Backed(cfg, s')
  {
    forall id <- s'.calls ensures CallBacked(cfg, s', id) {
      if id in s.calls && s'.calls[id] == s.calls[id] {
        CallStaysBacked(cfg, s, s', id);
      }
    }
  }

  lemma BackedPreserved(cfg: Config, s: Sys, step: Step)
    requires Backed(cfg, s) && Enabled(s, step)
    ensures Backed(cfg, Next(cfg, s, step))
  {
    PastGrows(cfg, s, step);
    StoreStaysBacked(cfg, s, step);
    StepKeepsOthers(cfg, s, step);
    if !step.Tick? && !step.Evict? {
      MovedCallBacked(cfg, s, step);
    }
    BackedAfter(cfg, s, Next(cfg, s, step), step);
  }

  lemma {:induction false} BackedThroughout(cfg: Config, states: seq<Sys>, steps: seq<Step>, n: nat)
    requires IsRun(cfg, states, steps) && n < |states|
    ensures Backed(cfg, states[n])
  {
    if n > 0 {
      BackedThroughout(cfg, states, steps, n - 1);
      BackedPreserved(cfg, states[n - 1], steps[n - 1]);
    }
  }

  lemma NewReturn(cfg: Config, s: Sys, step: Step, id: nat, fingerprint: string, value: Value)
    requires Enabled(s, step)
    requires (id, fingerprint, value) in Next(cfg, s, step).past.returned
    ensures (id, fingerprint, value) in s.past.returned
         || (step == Return(id, value) && s.calls[id].fingerprint == fingerprint)
  {
  }

  /** Every value in the history was returned by a step of the run. */
  lemma {:induction false} ReturnedEarlier(
      cfg: Config, states: seq<Sys>, steps: seq<Step>, n: nat, id: nat, fingerprint: string, value: Value)
      returns (m: nat)
    requires IsRun(cfg, states, steps) && n < |states|
    requires (id, fingerprint, value) in states[n].past.returned
    ensures m < n && steps[m] == Return(id, value) && states[m].calls[id].fingerprint == fingerprint
  {
    if (id, fingerprint, value) in states[n - 1].past.returned {
      m := ReturnedEarlier(cfg, states, steps, n - 1, id, fingerprint, value);
    } else {
      NewReturn(cfg, states[n - 1], steps[n - 1], id, fingerprint, value);
      m := n - 1;
    }
  }

  /** Replay provenance: a call answered `replayed` gets a value that an earlier execution of
      another call returned for the very same fingerprint, and that `recordable` accepted. */
  lemma ReplayProvenance(cfg: Config, states: seq<Sys>, steps: seq<Step>, n: nat, id: nat)
    requires IsRun(cfg, states, steps) && n < |states|
    requires id in states[n].calls && states[n].calls[id].pc.Done?
    requires states[n].calls[id].pc.outcome.Replayed?
    ensures var value := states[n].calls[id].pc.outcome.value;
      cfg.recordable(value) &&
      exists m, q :: && 0 <= m < n && q != id && steps[m] == Return(q, value)
                     && states[m].calls[q].fingerprint == states[n].calls[id].fingerprint
  {
    var c := states[n].calls[id];
    BackedThroughout(cfg, states, steps, n);
    ShapeThroughout(cfg, states, steps, n);
    assert CallBacked(cfg, states[n], id) && CallShape(states[n], id);
    var q :| Produced(cfg, states[n], q, c.fingerprint, c.pc.outcome.value);
    var m := ReturnedEarlier(cfg, states, steps, n, q, c.fingerprint, c.pc.outcome.value);
  }
}

/** The record slot of the protocol is one key of the in-memory cache: each store step of a call is one
    cache call on that key, expiry is the cache's own, and whatever other users of the cache do is, for
    this key, either nothing or one eviction. */
module IdempotencyStore {
  import opened Wrappers
  import opened Idempotency
  import Cache = CacheEviction
  import opened CacheLifetime

  /** How records are held in the cache. */
  type Encoding = Record -> string

  /** The cached form of a record slot. */
  function Cached(encode: Encoding, store: Option<Entry>): Option<Cache.Entry> {
    match store
    case None => None
    case Some(entry) => Some(Cache.Entry(encode(entry.record), Some(entry.expiresAt)))
  }

  predicate Represents(encode: Encoding, slots: seq<Cache.Slot>, key: string, s: Sys) {
    Kept(slots, key, s.now) == Cached(encode, s.store)
  }

  // ---- The protocol's store steps ----

  /** The cache calls a step makes. */
  function CacheCalls(cfg: Config, encode: Encoding, key: string, s: Sys, step: Step): seq<Cache.Event>
    requires Enabled(s, step)
  {
    match step
    case Load(_, ok) => if ok then [Cache.Reading(key, s.now)] else []
    case Reread(_, ok) => if ok then [Cache.Reading(key, s.now)] else []
    case Recheck(_, ok) => if ok then [Cache.Reading(key, s.now)] else []
    case WriteClaim(_, _, landed) => if landed then Writes(cfg, encode, key, s, step) else []
    case WriteResult(_, landed) => if landed then Writes(cfg, encode, key, s, step) else []
    case DeleteClaim(_, landed) => if landed then [Cache.Deleting(key)] else []
    case _ => []
  }

  /** The write of the record the step leaves in the slot. */
  function Writes(cfg: Config, encode: Encoding, key: string, s: Sys, step: Step): seq<Cache.Event>
    requires Enabled(s, step)
  {
    match Cached(encode, Next(cfg, s, step).store)
    case None => []
    case Some(e) => [Cache.Writing(Cache.Slot(key, e), s.now)]
  }

  predicate PositiveLifetimes(cfg: Config, s: Sys) {
    cfg.inFlightTtlMs > 0 && forall id <- s.calls :: s.calls[id].ttlMs > 0
  }

  /** What a step does to a live slot and the clock, by the kind of step. */
  lemma StoreEffect(cfg: Config, s: Sys, step: Step)
    requires Enabled(s, step) && PositiveLifetimes(cfg, s) && !step.Evict?
    requires s.store.Some? ==> s.now < s.store.value.expiresAt
    ensures var s' := Next(cfg, s, step);
      if (step.WriteClaim? || step.WriteResult?) && step.landed then
        s'.now == s.now && s'.store.Some? && s.now < s'.store.value.expiresAt
      else if step.DeleteClaim? && step.landed then
        s'.now == s.now && s'.store == None
      else
        && s.now <= s'.now
        && s'.store == if s.store.Some? && s.store.value.expiresAt <= s'.now then None else s.store
  {
  }

  /** Each step of a call is its cache calls: if the cache represents the slot before, it does so
      afterwards. Expiry needs no call at all. */
  lemma {:induction false} StepsOnCache(
      cfg: Config, encode: Encoding, maxEntries: Option<nat>, es: seq<Cache.Event>, key: string, s: Sys, step: Step)
    requires Enabled(s, step) && !step.Evict? && PositiveLifetimes(cfg, s) && Cache.ValidCap(maxEntries)
    requires Represents(encode, Cache.Stored(maxEntries, es), key, s)
    ensures Represents(
      encode, Cache.Stored(maxEntries, es + CacheCalls(cfg, encode, key, s, step)), key, Next(cfg, s, step))
  {
    var s', calls := Next(cfg, s, step), CacheCalls(cfg, encode, key, s, step);
    StoreEffect(cfg, s, step);
    if (step.WriteClaim? || step.WriteResult?) && step.landed {
      WriteKeeps(maxEntries, es, key, Cached(encode, s'.store).value, s.now, s.now);
    } else if step.DeleteClaim? && step.landed {
      DeleteDrops(maxEntries, es, key, s.now);
    } else {
      LaterKept(Cache.Stored(maxEntries, es), key, s.now, s'.now);
      if calls == [] {
        assert es + calls == es;
      } else {
        ReadKeeps(maxEntries, es, key, s.now, key, s'.now);
      }
    }
  }

  /** What a call reads off the slot is what the cache answers. */
  lemma ReadsFromCache(encode: Encoding, slots: seq<Cache.Slot>, key: string, s: Sys)
    requires Represents(encode, slots, key, s)
    ensures s.store.None? <==> Kept(slots, key, s.now).None?
    ensures s.store.Some? ==> Kept(slots, key, s.now).value.value == encode(s.store.value.record)
  {
  }

  // ---- Other users of the cache ----

  predicate Foreign(e: Cache.Event, key: string, now: int) {
    match e
    case Reading(k, at) => k != key && at <= now
    case Writing(slot, at) => slot.key != key && at <= now
    case Deleting(k) => k != key
  }

  /** A call on another key leaves the slot as it is or evicts the record, which is the protocol's own
      `Evict` step; and it evicts only when every entry is live and this one was inserted first. */
  lemma {:induction false} OthersOnCache(
      encode: Encoding, maxEntries: Option<nat>, es: seq<Cache.Event>, e: Cache.Event, key: string, s: Sys)
    requires Cache.ValidCap(maxEntries) && Foreign(e, key, s.now)
    requires Represents(encode, Cache.Stored(maxEntries, es), key, s)
    ensures || Represents(encode, Cache.Stored(maxEntries, es + [e]), key, s)
            || (&& s.store.Some? && Represents(encode, Cache.Stored(maxEntries, es + [e]), key, Lose(s))
                && e.Writing? && Cache.Evicts(Cache.Stored(maxEntries, es), maxEntries, e.now))
  {
    match e
    case Reading(k, at) => ReadKeeps(maxEntries, es, k, at, key, s.now);
    case Deleting(k) => DeleteOther(maxEntries, es, k, key, s.now);
    case Writing(slot, at) =>
      WriteOther(maxEntries, es, slot, at, key, s.now);
      LostOrKept(encode, Cache.Stored(maxEntries, es), Cache.Stored(maxEntries, es + [e]), key, s);
  }

  lemma LostOrKept(
      encode: Encoding, before: seq<Cache.Slot>, after: seq<Cache.Slot>, key: string, s: Sys)
    requires Represents(encode, before, key, s)
    ensures Kept(after, key, s.now) == Kept(before, key, s.now) ==> Represents(encode, after, key, s)
    ensures Kept(before, key, s.now).Some? && Kept(after, key, s.now).None? ==>
              s.store.Some? && Represents(encode, after, key, Lose(s))
  {
  }

  // ---- Whole executions over a shared cache ----

  /** One move: a step of the protocol, or a call on the cache by somebody else. */
  datatype Move = Own(step: Step) | Other(event: Cache.Event)

  /** The protocol and the history of its cache; `None` if a move cannot be made. */
  function Moved(
      cfg: Config, encode: Encoding, maxEntries: Option<nat>, key: string, start: int, moves: seq<Move>)
    : Option<(Sys, seq<Cache.Event>)>
  {
    if moves == [] then Some((Init(start), []))
    else
      var before := Moved(cfg, encode, maxEntries, key, start, moves[..|moves| - 1]);
      if before.None? then None
      else
        var (s, es) := before.value;
        match moves[|moves| - 1]
        case Own(step) =>
          if Enabled(s, step) && !step.Evict? then
            Some((Next(cfg, s, step), es + CacheCalls(cfg, encode, key, s, step)))
          else None
        case Other(e) =>
          if !Foreign(e, key, s.now) then None
          else
            Some((if s.store.Some? && Kept(Cache.Stored(maxEntries, es + [e]), key, s.now).None? then Lose(s) else s,
                  es + [e]))
  }

  lemma LifetimesKept(cfg: Config, s: Sys, step: Step)
    requires Enabled(s, step) && PositiveLifetimes(cfg, s) && cfg.ttlMs > 0
    ensures PositiveLifetimes(cfg, Next(cfg, s, step))
  {
  }

  lemma {:induction false} OtherMove(
      encode: Encoding, maxEntries: Option<nat>, es: seq<Cache.Event>, e: Cache.Event, key: string, s: Sys)
    requires Cache.ValidCap(maxEntries) && Foreign(e, key, s.now)
    requires Represents(encode, Cache.Stored(maxEntries, es), key, s)
    ensures var lost := s.store.Some? && Kept(Cache.Stored(maxEntries, es + [e]), key, s.now).None?;
      Represents(encode, Cache.Stored(maxEntries, es + [e]), key, if lost then Lose(s) else s)
  {
    OthersOnCache(encode, maxEntries, es, e, key, s);
  }

  /** Every execution over a cache shared with others is a run of the protocol: the cache represents its
      record slot all along, and evictions by others are its `Evict` steps. */
  lemma {:induction false} ExecutionIsRun(
      cfg: Config, encode: Encoding, maxEntries: Option<nat>, key: string, start: int, moves: seq<Move>)
    returns (states: seq<Sys>, steps: seq<Step>)
    requires cfg.inFlightTtlMs > 0 && cfg.ttlMs > 0 && Cache.ValidCap(maxEntries)
    requires Moved(cfg, encode, maxEntries, key, start, moves).Some?
    ensures IsRun(cfg, states, steps)
    ensures var (s, es) := Moved(cfg, encode, maxEntries, key, start, moves).value;
      states[|steps|] == s && PositiveLifetimes(cfg, s) && Represents(encode, Cache.Stored(maxEntries, es), key, s)
  {
    if moves == [] {
      states, steps := [Init(start)], [];
      assert Cache.Stored(maxEntries, []) == [];
    } else {
      states, steps := ExecutionIsRun(cfg, encode, maxEntries, key, start, moves[..|moves| - 1]);
      var (s, es) := Moved(cfg, encode, maxEntries, key, start, moves[..|moves| - 1]).value;
      var (s', es') := Moved(cfg, encode, maxEntries, key, start, moves).value;
      match moves[|moves| - 1]
      case Own(step) =>
        StepsOnCache(cfg, encode, maxEntries, es, key, s, step);
        LifetimesKept(cfg, s, step);
        states, steps := Longer(cfg, states, steps, step);
      case Other(e) =>
        OtherMove(encode, maxEntries, es, e, key, s);
        if s' != s {
          LifetimesKept(cfg, s, Evict);
          states, steps := Longer(cfg, states, steps, Evict);
        }
    }
  }

  lemma Longer(cfg: Config, states: seq<Sys>, steps: seq<Step>, step: Step)
    returns (longer: seq<Sys>, more: seq<Step>)
    requires IsRun(cfg, states, steps) && Enabled(states[|steps|], step)
    ensures IsRun(cfg, longer, more) && |more| == |steps| + 1
    ensures longer[|more|] == Next(cfg, states[|steps|], step)
  {
    longer, more := states + [Next(cfg, states[|steps|], step)], steps + [step];
    forall i | 0 <= i < |more| ensures Enabled(longer[i], more[i]) && longer[i + 1] == Next(cfg, longer[i], more[i]) {
      if i < |steps| {
        assert longer[i] == states[i] && longer[i + 1] == states[i + 1] && more[i] == steps[i];
      }
    }
  }
}

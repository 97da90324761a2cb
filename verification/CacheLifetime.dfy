/** How long a write is answered: what a read finds for one key after any history of calls, and the
    lifetime a write is given. */
module CacheLifetime {
  import opened Wrappers
  import opened CacheEviction

  /** What the cache holds for a key, unless it has expired. */
  function Kept(slots: seq<Slot>, key: string, now: int): Option<Entry> {
    var i := Position(slots, key);
    if i >= 0 && !slots[i].entry.Expired(now) then Some(slots[i].entry) else None
  }

  /** What a read of the key answers. */
  function Found(slots: seq<Slot>, key: string, now: int): Option<Value> {
    match Kept(slots, key, now)
    case None => None
    case Some(entry) => Some(entry.value)
  }

  // ---- What one call on the cache does to one key ----

  lemma {:induction false} PositionExact(slots: seq<Slot>, i: nat, key: string)
    requires i < |slots| && slots[i].key == key
    requires forall j | 0 <= j < |slots| && j != i :: slots[j].key != key
    ensures Position(slots, key) == i
  {
  }

  predicate Distinct(slots: seq<Slot>) {
    forall i, j | 0 <= i < j < |slots| :: slots[i].key != slots[j].key
  }

  lemma OrderedIsDistinct(slots: seq<Slot>, born: map<string, nat>, next: nat)
    requires Ordered(slots, born, next)
    ensures Distinct(slots)
  {
    forall i, j | 0 <= i < j < |slots| ensures slots[i].key != slots[j].key {
      OrderedPair(slots, born, next, i, j);
    }
  }

  /** With distinct keys, what is kept is a matter of membership. */
  lemma {:induction false} KeptExact(slots: seq<Slot>, key: string, now: int, e: Entry)
    requires Distinct(slots)
    ensures Kept(slots, key, now) == Some(e) <==> Slot(key, e) in slots && !e.Expired(now)
  {
    if Slot(key, e) in slots {
      var i :| 0 <= i < |slots| && slots[i] == Slot(key, e);
      PositionExact(slots, i, key);
    }
  }

  /** Two lists that agree about one key's slot keep the same for it. */
  lemma {:induction false} SameKept(a: seq<Slot>, b: seq<Slot>, key: string, now: int)
    requires Distinct(a) && Distinct(b)
    requires forall e: Entry | !e.Expired(now) :: Slot(key, e) in a <==> Slot(key, e) in b
    ensures Kept(a, key, now) == Kept(b, key, now)
  {
    if Kept(a, key, now).Some? {
      KeptExact(a, key, now, Kept(a, key, now).value);
      KeptExact(b, key, now, Kept(a, key, now).value);
    }
    if Kept(b, key, now).Some? {
      KeptExact(b, key, now, Kept(b, key, now).value);
      KeptExact(a, key, now, Kept(b, key, now).value);
    }
  }

  lemma StoredIsDistinct(maxEntries: Option<nat>, es: seq<Event>)
    requires ValidCap(maxEntries)
    ensures Distinct(Stored(maxEntries, es))
  {
    HistoryOrdered(maxEntries, es);
    OrderedIsDistinct(Stored(maxEntries, es), Born(maxEntries, es), |es|);
  }

  /** A read leaves every key's live entry alone. */
  lemma {:induction false} ReadKeeps(
      maxEntries: Option<nat>, es: seq<Event>, read: string, at: int, key: string, now: int)
    requires ValidCap(maxEntries) && at <= now
    ensures Kept(Stored(maxEntries, es + [Reading(read, at)]), key, now)
         == Kept(Stored(maxEntries, es), key, now)
  {
    var slots := Stored(maxEntries, es);
    HistoryAppend(maxEntries, es, Reading(read, at));
    StoredIsDistinct(maxEntries, es);
    StoredIsDistinct(maxEntries, es + [Reading(read, at)]);
    HistoryOrdered(maxEntries, es);
    var i := Position(slots, read);
    if i >= 0 && slots[i].entry.Expired(at) {
      RemovedKeeps(slots, i, Born(maxEntries, es), |es|);
      forall e: Entry | !e.Expired(now)
        ensures Slot(key, e) in slots <==> Slot(key, e) in Removed(slots, i)
      {
        if key == read { KeptExact(slots, key, now, e); }
      }
      SameKept(slots, Removed(slots, i), key, now);
    }
  }

  /** A write is kept until it expires. */
  lemma {:induction false} WriteKeeps(
      maxEntries: Option<nat>, es: seq<Event>, key: string, e: Entry, at: int, now: int)
    requires ValidCap(maxEntries)
    ensures Kept(Stored(maxEntries, es + [Writing(Slot(key, e), at)]), key, now)
         == if e.Expired(now) then None else Some(e)
  {
    var event := Writing(Slot(key, e), at);
    HistoryAppend(maxEntries, es, event);
    StoredIsDistinct(maxEntries, es + [event]);
    var slots, after := Stored(maxEntries, es), Stored(maxEntries, es + [event]);
    var i := Position(slots, key);
    PositionExact(after, if i >= 0 then i else |after| - 1, key);
  }

  /** A deleted key is gone. */
  lemma {:induction false} DeleteDrops(maxEntries: Option<nat>, es: seq<Event>, key: string, now: int)
    requires ValidCap(maxEntries)
    ensures Kept(Stored(maxEntries, es + [Deleting(key)]), key, now) == None
  {
    var slots, after := Stored(maxEntries, es), Stored(maxEntries, es + [Deleting(key)]);
    HistoryAppend(maxEntries, es, Deleting(key));
    HistoryOrdered(maxEntries, es);
    StoredIsDistinct(maxEntries, es + [Deleting(key)]);
    var i := Position(slots, key);
    if i >= 0 { RemovedKeeps(slots, i, Born(maxEntries, es), |es|); }
    if Kept(after, key, now).Some? {
      KeptExact(after, key, now, Kept(after, key, now).value);
    }
  }

  lemma {:induction false} LaterKept(slots: seq<Slot>, key: string, now: int, later: int)
    requires now <= later
    ensures Kept(slots, key, later)
         == match Kept(slots, key, now)
            case None => None
            case Some(e) => if e.Expired(later) then None else Some(e)
  {
  }

  lemma {:induction false} DeleteOther(
      maxEntries: Option<nat>, es: seq<Event>, other: string, key: string, now: int)
    requires ValidCap(maxEntries) && other != key
    ensures Kept(Stored(maxEntries, es + [Deleting(other)]), key, now) == Kept(Stored(maxEntries, es), key, now)
  {
    var slots := Stored(maxEntries, es);
    HistoryAppend(maxEntries, es, Deleting(other));
    HistoryOrdered(maxEntries, es);
    StoredIsDistinct(maxEntries, es);
    StoredIsDistinct(maxEntries, es + [Deleting(other)]);
    var i := Position(slots, other);
    if i >= 0 {
      RemovedKeeps(slots, i, Born(maxEntries, es), |es|);
      SameKept(slots, Removed(slots, i), key, now);
    }
  }

  /** Writing another key adds nothing to this one, and takes a live entry away only as a fair
      eviction. */
  lemma {:induction false} WriteOther(
      maxEntries: Option<nat>, es: seq<Event>, slot: Slot, at: int, key: string, now: int)
    requires ValidCap(maxEntries) && slot.key != key && at <= now
    ensures var before := Kept(Stored(maxEntries, es), key, now);
      var after := Kept(Stored(maxEntries, es + [Writing(slot, at)]), key, now);
      after == before || (before.Some? && after.None? && Evicts(Stored(maxEntries, es), maxEntries, at))
  {
    var slots, after := Stored(maxEntries, es), Stored(maxEntries, es + [Writing(slot, at)]);
    StoredIsDistinct(maxEntries, es);
    StoredIsDistinct(maxEntries, es + [Writing(slot, at)]);
    if Kept(after, key, now).Some? {
      var e := Kept(after, key, now).value;
      KeptExact(after, key, now, e);
      NothingAdded(maxEntries, es, slot, at, Slot(key, e));
      KeptExact(slots, key, now, e);
    } else if Kept(slots, key, now).Some? {
      var e := Kept(slots, key, now).value;
      KeptExact(slots, key, now, e);
      KeptExact(after, key, now, e);
      StillLive(e, at, now);
      FirstInFirstOut(maxEntries, es, slot, at, Slot(key, e));
    }
  }

  lemma StillLive(e: Entry, at: int, now: int)
    requires at <= now && !e.Expired(now)
    ensures !e.Expired(at)
  {
  }

  lemma {:induction false} NothingAdded(
      maxEntries: Option<nat>, es: seq<Event>, slot: Slot, at: int, t: Slot)
    requires ValidCap(maxEntries) && t.key != slot.key
    requires t in Stored(maxEntries, es + [Writing(slot, at)])
    ensures t in Stored(maxEntries, es)
  {
    var slots := Stored(maxEntries, es);
    HistoryAppend(maxEntries, es, Writing(slot, at));
    HistoryOrdered(maxEntries, es);
    var i := Position(slots, slot.key);
    if i < 0 {
      TrimmedFits(slots, maxEntries, at, Born(maxEntries, es), |es|);
    }
  }

  // ---- The lifetime of a write ----

  /** The per-write TTL wins when positive; otherwise the cache's own, if any. */
  function Expiry(ttlMs: Option<int>, expiryMs: Option<int>, now: int): Option<int> {
    if ttlMs.Some? && ttlMs.value > 0 then Some(now + ttlMs.value)
    else if expiryMs.Some? then Some(now + expiryMs.value)
    else None
  }

  /** A write at `written` asks to be answered at `now`: its own positive TTL is still running; or it
      has none and the cache's expiry is still running; or there is neither. */
  predicate Lives(ttlMs: Option<int>, expiryMs: Option<int>, written: int, now: int) {
    var own := ttlMs.Some? && ttlMs.value > 0;
    || (own && now < written + ttlMs.value)
    || (!own && expiryMs.Some? && now < written + expiryMs.value)
    || (!own && expiryMs.None?)
  }

  /** The call neither writes nor deletes the key, nor evicts it, and comes no later than `now`. */
  predicate Spares(maxEntries: Option<nat>, slots: seq<Slot>, e: Event, key: string, now: int) {
    match e
    case Reading(_, at) => at <= now
    case Deleting(k) => k != key
    case Writing(s, at) => s.key != key && at <= now && !EvictsKey(maxEntries, slots, s.key, at, key)
  }

  /** Inserting `other` takes the entry of `key` out: the house is full of live entries and it stands
      first. */
  predicate EvictsKey(maxEntries: Option<nat>, slots: seq<Slot>, other: string, at: int, key: string) {
    Position(slots, other) < 0 && Evicts(slots, maxEntries, at) && slots[0].key == key
  }

  lemma {:induction false} OthersKeep(
      maxEntries: Option<nat>, es: seq<Event>, slot: Slot, at: int, key: string, now: int)
    requires ValidCap(maxEntries) && slot.key != key && at <= now
    requires !EvictsKey(maxEntries, Stored(maxEntries, es), slot.key, at, key)
    ensures Kept(Stored(maxEntries, es + [Writing(slot, at)]), key, now) == Kept(Stored(maxEntries, es), key, now)
  {
    var slots := Stored(maxEntries, es);
    WriteOther(maxEntries, es, slot, at, key, now);
    StoredIsDistinct(maxEntries, es);
    StoredIsDistinct(maxEntries, es + [Writing(slot, at)]);
    if Kept(slots, key, now).Some? {
      var e := Kept(slots, key, now).value;
      KeptExact(slots, key, now, e);
      StillLive(e, at, now);
      FirstInFirstOut(maxEntries, es, slot, at, Slot(key, e));
      if Position(slots, slot.key) < 0 && Evicts(slots, maxEntries, at) {
        HistoryOrdered(maxEntries, es);
        HeadOldest(slots, Born(maxEntries, es), |es|);
        assert slots[0] in slots && slots[0] != Slot(key, e);
        assert Slot(key, e) in slots[1..] by { HeadOrTail(slots); }
      }
      KeptExact(Stored(maxEntries, es + [Writing(slot, at)]), key, now, e);
    }
  }

  /** A call that spares the key changes nothing a later read of it finds. */
  lemma {:induction false} SparedKept(maxEntries: Option<nat>, es: seq<Event>, e: Event, key: string, now: int)
    requires ValidCap(maxEntries) && Spares(maxEntries, Stored(maxEntries, es), e, key, now)
    ensures Kept(Stored(maxEntries, es + [e]), key, now) == Kept(Stored(maxEntries, es), key, now)
  {
    match e
    case Reading(k, at) => ReadKeeps(maxEntries, es, k, at, key, now);
    case Deleting(k) => DeleteOther(maxEntries, es, k, key, now);
    case Writing(slot, at) => OthersKeep(maxEntries, es, slot, at, key, now);
  }

  /** Between call `n` and the end of the history nothing writes, deletes or evicts the key. */
  ghost predicate Undisturbed(maxEntries: Option<nat>, es: seq<Event>, n: nat, key: string, now: int) {
    forall m | n < m < |es| :: Spares(maxEntries, Stored(maxEntries, es[..m]), es[m], key, now)
  }

  /** In any history, a read finds the value of the last write exactly while that write's lifetime lasts,
      as long as nothing has deleted or evicted it. */
  lemma {:induction false} LifetimeExact(
      maxEntries: Option<nat>, expiryMs: Option<int>, es: seq<Event>, n: nat, key: string, value: Value,
      ttlMs: Option<int>, written: int, at: int, now: int)
    requires ValidCap(maxEntries) && n < |es| && Undisturbed(maxEntries, es, n, key, now)
    requires es[n] == Writing(Slot(key, Entry(value, Expiry(ttlMs, expiryMs, written))), at)
    ensures Found(Stored(maxEntries, es), key, now)
         == if Lives(ttlMs, expiryMs, written, now) then Some(value) else None
  {
    var init, last := es[..|es| - 1], es[|es| - 1];
    assert es == init + [last];
    if n == |init| {
      WriteKeeps(maxEntries, init, key, last.slot.entry, at, now);
    } else {
      assert init == es[..|init|];
      forall m | n < m < |init| ensures Spares(maxEntries, Stored(maxEntries, init[..m]), init[m], key, now) {
        assert init[..m] == es[..m];
      }
      LifetimeExact(maxEntries, expiryMs, init, n, key, value, ttlMs, written, at, now);
      SparedKept(maxEntries, init, last, key, now);
    }
  }
}

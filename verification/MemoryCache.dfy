/** The in-memory cache refines a TTL map with first-in-first-out loss. The ghost fields hold the
    unbounded TTL map it stands for, what that map has lost, and the history of calls. */
module MemoryCache {
  import opened CacheEviction
  import opened CacheLifetime
  import opened Wrappers

  /** The slots agree with the ideal map: nothing stored is stale, deleted or lost, and nothing live
      is missing except what was lost. */
  ghost predicate Faithful(slots: seq<Slot>, ideal: map<string, Entry>, lost: set<string>, now: int) {
    && lost <= ideal.Keys
    && (forall s | s in slots :: s.key in ideal && s.entry == ideal[s.key] && s.key !in lost)
    && (forall k | k in ideal && k !in lost && !ideal[k].Expired(now) :: Slot(k, ideal[k]) in slots)
  }

  lemma InsertFaithful(
      slots: seq<Slot>, room: seq<Slot>, ideal: map<string, Entry>, lost: set<string>, now: int, s: Slot,
      evicted: Option<string>)
    requires Faithful(slots, ideal, lost, now) && Position(slots, s.key) < 0
    requires forall t | t in room :: t in slots && Some(t.key) != evicted
    requires forall t | t in slots && !t.entry.Expired(now) :: t in room || Some(t.key) == evicted
    requires evicted.Some? ==> evicted.value in ideal
    ensures Faithful(room + [s], ideal[s.key := s.entry],
                     lost - {s.key} + (if evicted.Some? then {evicted.value} - {s.key} else {}), now)
  {
    forall k | k in ideal && k != s.key && k !in lost && Some(k) != evicted && !ideal[k].Expired(now)
      ensures Slot(k, ideal[k]) in room + [s]
    {
      assert Slot(k, ideal[k]) in slots;
      assert Slot(k, ideal[k]) in room;
    }
  }

  lemma OverwriteFaithful(
      slots: seq<Slot>, i: nat, ideal: map<string, Entry>, lost: set<string>, now: int, s: Slot,
      born: map<string, nat>, next: nat)
    requires Faithful(slots, ideal, lost, now) && Ordered(slots, born, next)
    requires i < |slots| && slots[i].key == s.key
    ensures Faithful(slots[i := s], ideal[s.key := s.entry], lost - {s.key}, now)
  {
    var after := slots[i := s];
    assert after[i] == s;
    assert forall j | 0 <= j < |slots| && j != i :: after[j] == slots[j] && slots[j].key != s.key;
    forall k | k in ideal && k != s.key && k !in lost && !ideal[k].Expired(now)
      ensures Slot(k, ideal[k]) in after
    {
      var j :| 0 <= j < |slots| && slots[j] == Slot(k, ideal[k]);
      assert after[j] == slots[j];
    }
  }

  lemma DeleteFaithful(
      slots: seq<Slot>, i: nat, ideal: map<string, Entry>, lost: set<string>, now: int,
      born: map<string, nat>, next: nat)
    requires Faithful(slots, ideal, lost, now) && Ordered(slots, born, next) && i < |slots|
    ensures Faithful(Removed(slots, i), ideal - {slots[i].key}, lost - {slots[i].key}, now)
  {
    RemovedKeeps(slots, i, born, next);
  }

  /** What a TTL map that has lost some keys answers. */
  function Answer(ideal: map<string, Entry>, lost: set<string>, key: string, now: int): Option<Value> {
    if key in ideal && key !in lost && !ideal[key].Expired(now) then Some(ideal[key].value) else None
  }

  lemma {:induction false} ReadFaithful(
      slots: seq<Slot>, ideal: map<string, Entry>, lost: set<string>, clock: int, key: string, now: int,
      born: map<string, nat>, next: nat)
    requires Faithful(slots, ideal, lost, clock) && Ordered(slots, born, next) && clock <= now
    ensures Faithful(Applied(slots, None, Reading(key, now)), ideal, lost, now)
    ensures Answer(ideal, lost, key, now) == Found(slots, key, now)
  {
    var i := Position(slots, key);
    if i >= 0 {
      assert slots[i] in slots;
      RemovedKeeps(slots, i, born, next);
    }
  }

  class InMemoryCache {
    const expiryMs: Option<int>
    const maxEntries: Option<nat>
    var slots: seq<Slot>

    /** Every write not deleted since, with its expiry: what an unbounded cache would hold. */
    ghost var ideal: map<string, Entry>
    /** Keys evicted since they were last written. */
    ghost var lost: set<string>
    /** Every call so far. */
    ghost var history: seq<Event>
    ghost var clock: int

    ghost predicate Valid()
      reads this
    {
      && ValidCap(maxEntries)
      && slots == Stored(maxEntries, history)
      && Faithful(slots, ideal, lost, clock)
    }

    /** What the cache promises to answer at `now`: the latest write, unless it was deleted, has
        expired or was evicted. */
    ghost function Promised(key: string, now: int): Option<Value>
      reads this
    {
      Answer(ideal, lost, key, now)
    }

    constructor (expiryMs: Option<int>, maxEntries: Option<int>, now: int)
      ensures Valid() && ideal == map[] && lost == {} && history == [] && clock == now
      ensures this.expiryMs == if expiryMs.Some? && expiryMs.value > 0 then expiryMs else None
      ensures this.maxEntries == (match maxEntries
                                  case None => Some(100_000)
                                  case Some(n) => if n > 0 then Some(n) else None)
    {
      this.expiryMs := if expiryMs.Some? && expiryMs.value > 0 then expiryMs else None;
      this.maxEntries :=
        match maxEntries case None => Some(100_000) case Some(n) => if n > 0 then Some(n) else None;
      slots, ideal, lost, history, clock := [], map[], {}, [], now;
    }

    /** A read returns exactly what is promised; dropping the expired slot it met changes nothing. */
    method Get(key: string, now: int) returns (value: Option<Value>)
      requires Valid() && clock <= now
      modifies this`slots, this`clock, this`history
      ensures Valid() && clock == now && history == old(history) + [Reading(key, now)]
      ensures value == Promised(key, now) == Found(Stored(maxEntries, old(history)), key, now)
    {
      HistoryOrdered(maxEntries, history);
      HistoryAppend(maxEntries, history, Reading(key, now));
      ReadFaithful(slots, ideal, lost, clock, key, now, Born(maxEntries, history), |history|);
      var i := Position(slots, key);
      clock, history := now, history + [Reading(key, now)];
      if i < 0 {
        return None;
      }
      if slots[i].entry.Expired(now) {
        slots := Removed(slots, i);
        return None;
      }
      return Some(slots[i].entry.value);
    }

    method Delete(key: string)
      requires Valid()
      modifies this`slots, this`ideal, this`lost, this`history
      ensures Valid() && history == old(history) + [Deleting(key)]
      ensures ideal == old(ideal) - {key} && lost == old(lost) - {key}
    {
      HistoryAppend(maxEntries, history, Deleting(key));
      var i := Position(slots, key);
      if i >= 0 {
        HistoryOrdered(maxEntries, history);
        DeleteFaithful(slots, i, ideal, lost, clock, Born(maxEntries, history), |history|);
        slots := Removed(slots, i);
      }
      ideal, lost, history := ideal - {key}, lost - {key}, history + [Deleting(key)];
    }

    /** Drops every expired slot, walking the map while deleting from it. */
    method SweepExpired(now: int)
      modifies this`slots
      ensures slots == Swept(old(slots), now)
    {
      ghost var done, rest := [], slots;
      var i := 0;
      while i < |slots|
        invariant slots == done + rest && i == |done|
        invariant Swept(old(slots), now) == done + Swept(rest, now)
        decreases |rest|
      {
        SweepStep(done, rest, now);
        RemovedMiddle(done, rest);
        var slot := slots[i];
        if slot.entry.Expired(now) {
          slots := Removed(slots, i);
        } else {
          i := i + 1;
          done := done + [slot];
        }
        rest := rest[1..];
      }
    }

    /** Makes room for one entry: expired entries go first, then the oldest inserted. */
    method EvictIfNeeded(now: int)
      requires maxEntries.Some? ==> 0 < maxEntries.value
      modifies this`slots
      ensures slots == Trimmed(old(slots), maxEntries, now)
    {
      if maxEntries.None? || |slots| < maxEntries.value {
        return;
      }
      SweepExpired(now);
      ghost var live := slots;
      while |slots| >= maxEntries.value
        invariant |slots| <= |live| && slots == live[|live| - |slots|..]
        invariant |slots| < |live| ==> |slots| >= maxEntries.value - 1
      {
        slots := slots[1..];
      }
    }

    /** A write replaces what is promised for its key, and takes at most one other promise away:
        the oldest inserted of a full house of live entries, with nothing expired left to drop. */
    method Set(key: string, value: Value, ttlMs: Option<int>, stamped: int, tested: int)
      returns (ghost evicted: Option<string>)
      requires Valid() && clock <= stamped <= tested
      modifies this
      ensures Valid() && clock == tested
      ensures var entry := Entry(value, Expiry(ttlMs, expiryMs, stamped));
        && history == old(history) + [Writing(Slot(key, entry), tested)]
        && ideal == old(ideal)[key := entry]
      ensures forall now ::
          Promised(key, now) == if Lives(ttlMs, expiryMs, stamped, now) then Some(value) else None
      ensures lost == old(lost) - {key} + (if evicted.Some? then {evicted.value} else {})
      ensures evicted.Some? <==> Position(old(slots), key) < 0 && Evicts(old(slots), maxEntries, tested)
      ensures evicted.Some? ==>
                && EvictedFairly(old(slots), maxEntries, evicted.value, key, tested,
                                 Born(maxEntries, old(history)))
                && old(Promised(evicted.value, tested)).Some?
    {
      var s := Slot(key, Entry(value, Expiry(ttlMs, expiryMs, stamped)));
      evicted := None;
      clock := tested;
      var i := Position(slots, key);
      if i < 0 {
        ghost var all, wanted, gone, order := slots, ideal, lost, Born(maxEntries, history);
        evicted := Insert(s, tested);
        if evicted.Some? {
          FairWasPromised(all, maxEntries, wanted, gone, evicted.value, key, tested, order);
        }
      } else {
        Overwrite(i, s, tested);
      }
    }

    /** Overwriting keeps the key's place, so it does not make the entry any younger. */
    method Overwrite(i: nat, s: Slot, now: int)
      requires Valid() && i == Position(slots, s.key) && clock == now
      modifies this`slots, this`ideal, this`lost, this`history
      ensures Valid() && slots == old(slots)[i := s] && history == old(history) + [Writing(s, now)]
      ensures ideal == old(ideal)[s.key := s.entry] && lost == old(lost) - {s.key}
    {
      HistoryOrdered(maxEntries, history);
      HistoryAppend(maxEntries, history, Writing(s, now));
      OverwriteFaithful(slots, i, ideal, lost, now, s, Born(maxEntries, history), |history|);
      slots := slots[i := s];
      ideal, lost, history := ideal[s.key := s.entry], lost - {s.key}, history + [Writing(s, now)];
    }

    method Insert(s: Slot, now: int) returns (ghost evicted: Option<string>)
      requires Valid() && clock == now && Position(slots, s.key) < 0
      modifies this
      ensures Valid() && clock == now && history == old(history) + [Writing(s, now)]
      ensures ideal == old(ideal)[s.key := s.entry]
      ensures lost == old(lost) - {s.key} + (if evicted.Some? then {evicted.value} else {})
      ensures evicted.Some? <==> Evicts(old(slots), maxEntries, now)
      ensures evicted.Some? ==>
                EvictedFairly(old(slots), maxEntries, evicted.value, s.key, now, Born(maxEntries, old(history)))
    {
      evicted := if Evicts(slots, maxEntries, now) then Some(Swept(slots, now)[0].key) else None;
      HistoryOrdered(maxEntries, history);
      HistoryAppend(maxEntries, history, Writing(s, now));
      InsertKeeps(slots, maxEntries, ideal, lost, now, s, evicted, Born(maxEntries, history), |history|);
      EvictIfNeeded(now);
      slots := slots + [s];
      history := history + [Writing(s, now)];
      ideal := ideal[s.key := s.entry];
      lost := lost - {s.key} + (if evicted.Some? then {evicted.value} else {});
    }
  }

  lemma {:induction false} FairWasPromised(
      all: seq<Slot>, maxEntries: Option<nat>, ideal: map<string, Entry>, lost: set<string>, gone: string,
      key: string, now: int, born: map<string, nat>)
    requires Faithful(all, ideal, lost, now) && EvictedFairly(all, maxEntries, gone, key, now, born)
    ensures gone in ideal && gone !in lost && !ideal[gone].Expired(now)
  {
    assert all[Position(all, gone)] in all;
  }

  /** The proof of `Insert`, on values. */
  lemma {:induction false} InsertKeeps(
      all: seq<Slot>, maxEntries: Option<nat>, ideal: map<string, Entry>, lost: set<string>, now: int,
      s: Slot, evicted: Option<string>, born: map<string, nat>, next: nat)
    requires ValidCap(maxEntries) && Ordered(all, born, next) && Faithful(all, ideal, lost, now)
    requires maxEntries.Some? ==> |all| <= maxEntries.value
    requires Position(all, s.key) < 0
    requires evicted == if Evicts(all, maxEntries, now) then Some(Swept(all, now)[0].key) else None
    ensures Faithful(Trimmed(all, maxEntries, now) + [s], ideal[s.key := s.entry],
                     lost - {s.key} + (if evicted.Some? then {evicted.value} else {}), now)
    ensures evicted.Some? ==> EvictedFairly(all, maxEntries, evicted.value, s.key, now, born)
  {
    if evicted.Some? {
      FairEviction(all, maxEntries, s.key, now, born, next);
    }
    RoomMade(all, maxEntries, now, evicted, born, next);
    InsertFaithful(all, Trimmed(all, maxEntries, now), ideal, lost, now, s, evicted);
    assert evicted.Some? ==> evicted.value != s.key;
  }

  /** Only the evicted key's live entry is missing from the room made. */
  lemma {:induction false} RoomMade(
      all: seq<Slot>, maxEntries: Option<nat>, now: int, evicted: Option<string>, born: map<string, nat>,
      next: nat)
    requires ValidCap(maxEntries) && Ordered(all, born, next)
    requires maxEntries.Some? ==> |all| <= maxEntries.value
    requires evicted == if Evicts(all, maxEntries, now) then Some(Swept(all, now)[0].key) else None
    ensures forall t | t in Trimmed(all, maxEntries, now) :: t in all && Some(t.key) != evicted
    ensures forall t | t in all && !t.entry.Expired(now) ::
              t in Trimmed(all, maxEntries, now) || Some(t.key) == evicted
    ensures evicted.Some? ==> exists t :: t in all && t.key == evicted.value
  {
    TrimmedKeeps(all, maxEntries, now, born, next);
  }
}

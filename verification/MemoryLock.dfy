/** The in-process lock: a table of leases by key, each grant stamped with a token that is never
    reused. The code reads its clock up to three times per call, so every operation
    takes each reading separately. */
module MemoryLock {
  import opened Wrappers

  datatype Lease = Lease(token: int, expiresAt: int)

  datatype Table = Table(leases: map<string, Lease>, nextToken: int)

  /** What `acquire` hands out. */
  datatype Handle = Handle(key: string, token: int, ttlMs: int)

  const EMPTY := Table(map[], 1)

  predicate Owns(t: Table, h: Handle, now: int) {
    && h.key in t.leases
    && t.leases[h.key].token == h.token
    && t.leases[h.key].expiresAt > now
  }

  function Live(leases: map<string, Lease>, now: int): map<string, Lease> {
    map k | k in leases && leases[k].expiresAt > now :: leases[k]
  }

  function Acquired(t: Table, key: string, ttlMs: int, swept: int, tested: int, stamped: int)
    : (Table, Option<Handle>)
  {
    var live := Live(t.leases, swept);
    if key in live && live[key].expiresAt > tested then
      (t.(leases := live), None)
    else
      (Table(live[key := Lease(t.nextToken, stamped + ttlMs)], t.nextToken + 1),
       Some(Handle(key, t.nextToken, ttlMs)))
  }

  function Released(t: Table, h: Handle, tested: int): (Table, bool) {
    if Owns(t, h, tested) then (t.(leases := t.leases - {h.key}), true) else (t, false)
  }

  function Refreshed(t: Table, h: Handle, ttlMs: int, tested: int, stamped: int): (Table, bool) {
    if Owns(t, h, tested) then
      (t.(leases := t.leases[h.key := Lease(h.token, stamped + ttlMs)]), true)
    else (t, false)
  }

  // ---- The object ----

  class MemoryDistributedLock {
    const defaultTtlMs: int
    var leases: map<string, Lease>
    var nextToken: int

    ghost function View(): Table
      reads this
    {
      Table(leases, nextToken)
    }

    constructor (defaultTtlMs: int)
      ensures View() == EMPTY && this.defaultTtlMs == defaultTtlMs
    {
      this.defaultTtlMs := defaultTtlMs;
      leases, nextToken := map[], 1;
    }

    method Acquire(key: string, ttlMs: Option<int>, swept: int, tested: int, stamped: int)
      returns (lock: Option<Handle>)
      modifies this
      ensures (View(), lock)
           == Acquired(old(View()), key, ttlMs.GetOr(defaultTtlMs), swept, tested, stamped)
    {
      var dropped := SweepExpired(swept);
      if key in leases && leases[key].expiresAt > tested {
        return None;
      }
      var ttl := ttlMs.GetOr(defaultTtlMs);
      var token := nextToken;
      nextToken := nextToken + 1;
      leases := leases[key := Lease(token, stamped + ttl)];
      return Some(Handle(key, token, ttl));
    }

    /** Drops exactly the lapsed leases, and counts them. */
    method SweepExpired(now: int) returns (swept: nat)
      modifies this`leases
      ensures leases == Live(old(leases), now)
      ensures swept == |old(leases)| - |leases|
    {
      swept := 0;
      var pending := leases.Keys;
      while pending != {}
        invariant pending <= leases.Keys <= old(leases).Keys
        invariant forall k <- leases :: leases[k] == old(leases)[k]
        invariant forall k <- old(leases) ::
            k in leases <==> k in pending || old(leases)[k].expiresAt > now
        invariant swept == |old(leases)| - |leases|
      {
        var key :| key in pending;
        pending := pending - {key};
        if leases[key].expiresAt <= now {
          assert leases.Keys == (leases - {key}).Keys + {key};
          leases := leases - {key};
          swept := swept + 1;
        }
      }
    }

    method Release(h: Handle, tested: int) returns (freed: bool)
      modifies this
      ensures (View(), freed) == Released(old(View()), h, tested)
    {
      if Holds(h, tested) {
        leases := leases - {h.key};
        return true;
      }
      return false;
    }

    method Refresh(h: Handle, newTtlMs: Option<int>, tested: int, stamped: int) returns (kept: bool)
      modifies this
      ensures (View(), kept)
           == Refreshed(old(View()), h, newTtlMs.GetOr(h.ttlMs), tested, stamped)
    {
      if Holds(h, tested) {
        if h.key in leases {
          leases := leases[h.key := leases[h.key].(expiresAt := stamped + newTtlMs.GetOr(h.ttlMs))];
        }
        return true;
      }
      return false;
    }

    predicate Holds(h: Handle, now: int)
      reads this
      ensures Holds(h, now) <==> Owns(View(), h, now)
    {
      h.key in leases && leases[h.key].token == h.token && leases[h.key].expiresAt > now
    }
  }

  // ---- Histories ----

  datatype Event =
    | Acquiring(key: string, ttlMs: int, swept: int, tested: int, stamped: int)
    | Releasing(handle: Handle, tested: int)
    | Refreshing(handle: Handle, ttlMs: int, tested: int, stamped: int)
  {
    predicate Within(from: int, to: int) {
      match this
      case Acquiring(_, _, swept, tested, stamped) => from <= swept <= tested <= stamped <= to
      case Releasing(_, tested) => from <= tested <= to
      case Refreshing(_, _, tested, stamped) => from <= tested <= stamped <= to
    }
  }

  function Next(t: Table, e: Event): Table {
    match e
    case Acquiring(key, ttlMs, swept, tested, stamped) =>
      Acquired(t, key, ttlMs, swept, tested, stamped).0
    case Releasing(h, tested) => Released(t, h, tested).0
    case Refreshing(h, ttlMs, tested, stamped) => Refreshed(t, h, ttlMs, tested, stamped).0
  }

  function Run(t: Table, es: seq<Event>): Table
    decreases es
  {
    if es == [] then t else Run(Next(t, es[0]), es[1..])
  }

  /** `times[i]` is the clock between the i-th event and the one before it. */
  predicate Clocked(es: seq<Event>, times: seq<int>) {
    && |times| == |es| + 1
    && forall i | 0 <= i < |es| :: es[i].Within(times[i], times[i + 1])
  }

  /** The handle the i-th event of a run hands out, if any. */
  function Issued(t: Table, es: seq<Event>, i: nat): Option<Handle>
    requires i < |es|
    decreases i
  {
    if i > 0 then Issued(Next(t, es[0]), es[1..], i - 1)
    else
      match es[0]
      case Acquiring(key, ttlMs, swept, tested, stamped) =>
        Acquired(t, key, ttlMs, swept, tested, stamped).1
      case _ => None
  }

  lemma {:induction false} TokensIncrease(t: Table, es: seq<Event>)
    ensures t.nextToken <= Run(t, es).nextToken
    ensures forall i | 0 <= i < |es| && Issued(t, es, i).Some? ::
              t.nextToken <= Issued(t, es, i).value.token < Run(t, es).nextToken
    decreases es
  {
    if es != [] {
      TokensIncrease(Next(t, es[0]), es[1..]);
      forall i | 0 <= i < |es| && Issued(t, es, i).Some?
        ensures t.nextToken <= Issued(t, es, i).value.token < Run(t, es).nextToken
      {
        if i > 0 { assert Issued(t, es, i) == Issued(Next(t, es[0]), es[1..], i - 1); }
      }
    }
  }

  /** No two grants of a history share a token. */
  lemma {:induction false} IssuedTokensDistinct(t: Table, es: seq<Event>, i: nat, j: nat)
    requires i < j < |es| && Issued(t, es, i).Some? && Issued(t, es, j).Some?
    ensures Issued(t, es, i).value.token < Issued(t, es, j).value.token
    decreases es
  {
    var t', rest := Next(t, es[0]), es[1..];
    if i == 0 {
      TokensIncrease(t', rest);
      assert Issued(t, es, j) == Issued(t', rest, j - 1);
    } else {
      IssuedTokensDistinct(t', rest, i - 1, j - 1);
    }
  }

  /** Mutual exclusion: after any history, at any instant, at most one issued handle per key owns
      its lease. */
  lemma LeaseExclusion(es: seq<Event>, i: nat, j: nat, now: int)
    requires i < |es| && j < |es|
    requires Issued(EMPTY, es, i).Some? && Issued(EMPTY, es, j).Some?
    requires var hi, hj := Issued(EMPTY, es, i).value, Issued(EMPTY, es, j).value;
      hi.key == hj.key && Owns(Run(EMPTY, es), hi, now) && Owns(Run(EMPTY, es), hj, now)
    ensures i == j
  {
    if i < j {
      IssuedTokensDistinct(EMPTY, es, i, j);
    } else if j < i {
      IssuedTokensDistinct(EMPTY, es, j, i);
    }
  }

  /** A handle already issued that does not own its lease never owns it again. */
  lemma {:induction false} NeverRegained(t: Table, h: Handle, es: seq<Event>, times: seq<int>, now: int)
    requires Clocked(es, times) && times[|es|] <= now
    requires h.token < t.nextToken && !Owns(t, h, times[0])
    ensures !Owns(Run(t, es), h, now)
    decreases es
  {
    if es != [] {
      assert es[0].Within(times[0], times[1]);
      var rest, later := es[1..], times[1..];
      forall i | 0 <= i < |rest| ensures rest[i].Within(later[i], later[i + 1]) {
        assert es[i + 1].Within(times[i + 1], times[i + 2]);
      }
      NeverRegained(Next(t, es[0]), h, rest, later, now);
    }
  }

  /** Releasing or refreshing a lost handle reports so and touches no lease; on an owned handle,
      release ends its ownership for good, refresh moves its expiry, and no other handle's standing
      changes either way. */
  lemma ReleaseAndRefreshExact(
      t: Table, h: Handle, ttlMs: int, tested: int, stamped: int, other: Handle, now: int)
    ensures var (t', freed) := Released(t, h, tested);
      && (!Owns(t, h, tested) ==> !freed && t' == t)
      && (Owns(t, h, tested) ==> freed && !Owns(t', h, now))
      && (other.key != h.key || other.token != h.token ==> (Owns(t', other, now) <==> Owns(t, other, now)))
    ensures var (t', kept) := Refreshed(t, h, ttlMs, tested, stamped);
      && (!Owns(t, h, tested) ==> !kept && t' == t)
      && (Owns(t, h, tested) ==> kept && (Owns(t', h, now) <==> now < stamped + ttlMs))
      && (other.key != h.key || other.token != h.token ==> (Owns(t', other, now) <==> Owns(t, other, now)))
  {
  }

  /** `acquire` succeeds exactly when no handle owns the key; the new handle then owns it until its
      ttl runs out, and no other handle's standing changes. Either way no lease of another key that had
      run out stays in the table. */
  lemma AcquireExact(
      t: Table, key: string, ttlMs: int, swept: int, tested: int, stamped: int, other: Handle, now: int)
    requires swept <= tested <= stamped <= now
    ensures var (t', got) := Acquired(t, key, ttlMs, swept, tested, stamped);
      && (got.None? <==> exists token :: Owns(t, Handle(key, token, 0), tested))
      && (got.Some? ==> got.value.key == key && got.value.ttlMs == ttlMs)
      && (got.Some? ==> (Owns(t', got.value, now) <==> now < stamped + ttlMs))
      && (forall k <- t'.leases :: k == key || (k in t.leases && t.leases[k].expiresAt > swept))
      && (got.Some? && (other.key != key || other.token != got.value.token) ==>
            (Owns(t', other, now) <==> Owns(t, other, now)))
      && (got.None? ==> (Owns(t', other, now) <==> Owns(t, other, now)))
  {
    if key in t.leases && t.leases[key].expiresAt > tested {
      assert Owns(t, Handle(key, t.leases[key].token, 0), tested);
    }
  }
}

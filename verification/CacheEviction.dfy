/** What the in-memory cache stores after any history of calls: an insertion-ordered list of slots
    with lazy expiry and a cap.

    `slots` is the ECMAScript `Map`: keys are distinct, overwriting keeps a key's place, inserting
    appends. */
module CacheEviction {
  import opened Wrappers

  type Value = string

  datatype Entry = Entry(value: Value, expiresAt: Option<int>) {
    predicate Expired(now: int) {
      expiresAt.Some? && expiresAt.value <= now
    }
  }

  datatype Slot = Slot(key: string, entry: Entry)

  function Position(slots: seq<Slot>, key: string): (i: int)
    ensures -1 <= i < |slots|
    ensures i >= 0 ==> slots[i].key == key
    ensures i < 0 ==> forall j | 0 <= j < |slots| :: slots[j].key != key
  {
    if slots == [] then -1
    else if slots[|slots| - 1].key == key then |slots| - 1
    else Position(slots[..|slots| - 1], key)
  }

  function Swept(slots: seq<Slot>, now: int): seq<Slot> {
    if slots == [] then []
    else
      Swept(slots[..|slots| - 1], now)
      + if slots[|slots| - 1].entry.Expired(now) then [] else [slots[|slots| - 1]]
  }

  /** Slots stand in the order their keys were inserted; `born` numbers the insertions, all of
      them below `next`. */
  ghost predicate Ordered(slots: seq<Slot>, born: map<string, nat>, next: nat) {
    && (forall i | 0 <= i < |slots| :: slots[i].key in born && born[slots[i].key] < next)
    && (forall i, j | 0 <= i < j < |slots| :: Older(slots[i], slots[j], born))
  }

  predicate Older(s: Slot, t: Slot, born: map<string, nat>) {
    s.key in born && t.key in born && born[s.key] < born[t.key]
  }

  lemma OrderedPair(slots: seq<Slot>, born: map<string, nat>, next: nat, i: nat, j: nat)
    requires Ordered(slots, born, next) && i < j < |slots|
    ensures Older(slots[i], slots[j], born) && slots[i].key != slots[j].key
  {
    assert Older(slots[i], slots[j], born);
  }

  lemma {:induction false} SweptMember(slots: seq<Slot>, now: int, s: Slot)
    ensures s in Swept(slots, now) <==> s in slots && !s.entry.Expired(now)
  {
    if slots != [] {
      var n := |slots| - 1;
      SweptMember(slots[..n], now, s);
      assert slots == slots[..n] + [slots[n]];
    }
  }

  lemma OrderedSnoc(slots: seq<Slot>, last: Slot, born: map<string, nat>, next: nat)
    requires Ordered(slots, born, next) && last.key in born && born[last.key] < next
    requires forall i | 0 <= i < |slots| :: Older(slots[i], last, born)
    ensures Ordered(slots + [last], born, next)
  {
    var all := slots + [last];
    forall i, j | 0 <= i < j < |all| ensures Older(all[i], all[j], born) {
      if j < |slots| { OrderedPair(slots, born, next, i, j); }
    }
  }

  /** Part of a list in order, taken in order, is in order. */
  lemma OrderedDrop(slots: seq<Slot>, n: nat, born: map<string, nat>, next: nat)
    requires n <= |slots| && Ordered(slots, born, next)
    ensures Ordered(slots[n..], born, next)
  {
    forall i, j | 0 <= i < j < |slots[n..]| ensures Older(slots[n..][i], slots[n..][j], born) {
      OrderedPair(slots, born, next, n + i, n + j);
    }
  }

  /** Sweeping keeps exactly the live slots, in order. */
  lemma {:induction false} SweptKeeps(slots: seq<Slot>, now: int, born: map<string, nat>, next: nat)
    requires Ordered(slots, born, next)
    ensures Ordered(Swept(slots, now), born, next) && |Swept(slots, now)| <= |slots|
    ensures forall s :: s in Swept(slots, now) <==> s in slots && !s.entry.Expired(now)
  {
    forall s { SweptMember(slots, now, s); }
    if slots != [] {
      var init := slots[..|slots| - 1];
      assert Ordered(init, born, next) by {
        forall i, j | 0 <= i < j < |init| ensures Older(init[i], init[j], born) {
          OrderedPair(slots, born, next, i, j);
        }
      }
      SweptKeeps(init, now, born, next);
      forall i | 0 <= i < |Swept(init, now)| ensures Older(Swept(init, now)[i], slots[|init|], born) {
        SweptMember(init, now, Swept(init, now)[i]);
        var j :| 0 <= j < |init| && init[j] == Swept(init, now)[i];
        OrderedPair(slots, born, next, j, |init|);
      }
      OrderedSnoc(Swept(init, now), slots[|init|], born, next);
    }
  }

  function Removed(slots: seq<Slot>, i: nat): seq<Slot>
    requires i < |slots|
  {
    slots[..i] + slots[i + 1..]
  }

  lemma RemovedMember(slots: seq<Slot>, i: nat, born: map<string, nat>, next: nat, s: Slot)
    requires i < |slots| && Ordered(slots, born, next)
    ensures s in Removed(slots, i) <==> s in slots && s.key != slots[i].key
  {
    if s in slots && s.key != slots[i].key {
      var j :| 0 <= j < |slots| && slots[j] == s;
      assert s in if j < i then slots[..i] else slots[i + 1..];
    }
    if s in Removed(slots, i) {
      var j :| 0 <= j < |Removed(slots, i)| && Removed(slots, i)[j] == s;
      if j < i { OrderedPair(slots, born, next, j, i); } else { OrderedPair(slots, born, next, i, j + 1); }
    }
  }

  lemma {:induction false} RemovedKeeps(slots: seq<Slot>, i: nat, born: map<string, nat>, next: nat)
    requires i < |slots| && Ordered(slots, born, next)
    ensures Ordered(Removed(slots, i), born, next)
    ensures forall s :: s in Removed(slots, i) <==> s in slots && s.key != slots[i].key
  {
    var rest := Removed(slots, i);
    forall j, k | 0 <= j < k < |rest| ensures Older(rest[j], rest[k], born) {
      OrderedPair(slots, born, next, if j < i then j else j + 1, if k < i then k else k + 1);
    }
    forall s ensures s in rest <==> s in slots && s.key != slots[i].key {
      RemovedMember(slots, i, born, next, s);
    }
  }

  lemma {:induction false} SweptFirst(slots: seq<Slot>, now: int)
    requires slots != []
    ensures Swept(slots, now)
         == (if slots[0].entry.Expired(now) then [] else [slots[0]]) + Swept(slots[1..], now)
  {
    if |slots| > 1 {
      SweptFirst(slots[..|slots| - 1], now);
      assert slots[..|slots| - 1][1..] == slots[1..][..|slots| - 2];
    }
  }

  lemma RemovedMiddle(done: seq<Slot>, rest: seq<Slot>)
    requires rest != []
    ensures Removed(done + rest, |done|) == done + rest[1..]
  {
  }

  /** One step of the sweep: `done` has been kept, `rest` is still to be looked at. */
  lemma {:induction false} SweepStep(done: seq<Slot>, rest: seq<Slot>, now: int)
    requires rest != []
    ensures (done + rest)[|done|] == rest[0] && done + [rest[0]] + rest[1..] == done + rest
    ensures done + Swept(rest, now)
         == (if rest[0].entry.Expired(now) then done else done + [rest[0]]) + Swept(rest[1..], now)
  {
    SweptFirst(rest, now);
    Regroup(done, rest[0], Swept(rest[1..], now));
    Regroup(done, rest[0], rest[1..]);
    assert [rest[0]] + rest[1..] == rest;
  }

  lemma Regroup(a: seq<Slot>, s: Slot, b: seq<Slot>)
    ensures a + ([s] + b) == a + [s] + b && [] + b == b
  {
  }

  lemma {:induction false} SweptShorter(slots: seq<Slot>, now: int)
    ensures |Swept(slots, now)| <= |slots|
    ensures |Swept(slots, now)| == |slots| ==> Swept(slots, now) == slots
  {
    if slots != [] {
      SweptShorter(slots[..|slots| - 1], now);
      LastAppended(slots);
    }
  }

  lemma LastAppended(slots: seq<Slot>)
    requires slots != []
    ensures slots[..|slots| - 1] + [slots[|slots| - 1]] == slots
  {
  }

  /** If sweeping removes nothing, everything was live. */
  lemma {:induction false} FullHouse(slots: seq<Slot>, now: int)
    requires |Swept(slots, now)| == |slots|
    ensures Swept(slots, now) == slots && forall s | s in slots :: !s.entry.Expired(now)
  {
    SweptShorter(slots, now);
    forall s | s in slots ensures !s.entry.Expired(now) {
      SweptMember(slots, now, s);
    }
  }

  /** What is left after making room for one more entry. */
  function Trimmed(slots: seq<Slot>, maxEntries: Option<nat>, now: int): seq<Slot> {
    if maxEntries.None? || |slots| < maxEntries.value then slots
    else
      var live := Swept(slots, now);
      if 0 < maxEntries.value <= |live| then live[|live| - maxEntries.value + 1..] else live
  }

  predicate Evicts(slots: seq<Slot>, maxEntries: Option<nat>, now: int) {
    maxEntries.Some? && 0 < maxEntries.value == |slots| == |Swept(slots, now)|
  }

  lemma {:induction false} TrimmedFits(
      slots: seq<Slot>, maxEntries: Option<nat>, now: int, born: map<string, nat>, next: nat)
    requires Ordered(slots, born, next)
    requires maxEntries.Some? ==> 0 < maxEntries.value && |slots| <= maxEntries.value
    ensures var t := Trimmed(slots, maxEntries, now);
      && Ordered(t, born, next) && (maxEntries.Some? ==> |t| < maxEntries.value)
      && (forall s | s in t :: s in slots)
  {
    SweptKeeps(slots, now, born, next);
    var live := Swept(slots, now);
    if maxEntries.Some? && 0 < maxEntries.value <= |live| {
      OrderedDrop(live, |live| - maxEntries.value + 1, born, next);
    }
  }

  lemma {:induction false} TrimmedLosesNone(slots: seq<Slot>, maxEntries: Option<nat>, now: int)
    requires maxEntries.Some? ==> 0 < maxEntries.value && |slots| <= maxEntries.value
    requires !Evicts(slots, maxEntries, now)
    ensures forall s | s in slots && !s.entry.Expired(now) :: s in Trimmed(slots, maxEntries, now)
  {
    SweptShorter(slots, now);
    forall s { SweptMember(slots, now, s); }
  }

  /** A full house of live entries loses its head. */
  lemma {:induction false} EvictsHead(slots: seq<Slot>, maxEntries: Option<nat>, now: int)
    requires Evicts(slots, maxEntries, now)
    ensures Swept(slots, now) == slots && Trimmed(slots, maxEntries, now) == slots[1..]
    ensures forall s | s in slots :: !s.entry.Expired(now)
  {
    FullHouse(slots, now);
  }

  lemma HeadOrTail(slots: seq<Slot>)
    requires slots != []
    ensures slots[0] in slots && forall s :: s in slots <==> s == slots[0] || s in slots[1..]
  {
    assert slots == [slots[0]] + slots[1..];
  }

  lemma HeadOldest(slots: seq<Slot>, born: map<string, nat>, next: nat)
    requires slots != [] && Ordered(slots, born, next)
    ensures forall s | s in slots[1..] :: s.key in born && born[slots[0].key] < born[s.key]
  {
    forall s | s in slots[1..] ensures s.key in born && born[slots[0].key] < born[s.key] {
      var j :| 0 <= j < |slots[1..]| && slots[1..][j] == s;
      OrderedPair(slots, born, next, 0, j + 1);
    }
  }

  lemma {:induction false} TrimmedLosesOldest(
      slots: seq<Slot>, maxEntries: Option<nat>, now: int, born: map<string, nat>, next: nat)
    requires Ordered(slots, born, next) && Evicts(slots, maxEntries, now)
    ensures var t, oldest := Trimmed(slots, maxEntries, now), Swept(slots, now)[0];
      && oldest in slots && !oldest.entry.Expired(now)
      && (forall s | s in t :: s.key in born && born[oldest.key] < born[s.key])
      && forall s | s in slots && !s.entry.Expired(now) :: s in t || s == oldest
  {
    EvictsHead(slots, maxEntries, now);
    HeadOldest(slots, born, next);
    HeadOrTail(slots);
  }

  /** Making room loses no live entry unless every one of the `maxEntries` is live; then it loses
      exactly the oldest inserted. */
  lemma {:induction false} TrimmedKeeps(
      slots: seq<Slot>, maxEntries: Option<nat>, now: int, born: map<string, nat>, next: nat)
    requires Ordered(slots, born, next)
    requires maxEntries.Some? ==> 0 < maxEntries.value && |slots| <= maxEntries.value
    ensures var t := Trimmed(slots, maxEntries, now);
      && Ordered(t, born, next) && (maxEntries.Some? ==> |t| < maxEntries.value)
      && (forall s | s in t :: s in slots)
      && (if Evicts(slots, maxEntries, now) then
            var oldest := Swept(slots, now)[0];
            && oldest in slots && !oldest.entry.Expired(now)
            && (forall s | s in t :: born[oldest.key] < born[s.key])
            && forall s | s in slots && !s.entry.Expired(now) :: s in t || s == oldest
          else forall s | s in slots && !s.entry.Expired(now) :: s in t)
  {
    TrimmedFits(slots, maxEntries, now, born, next);
    if Evicts(slots, maxEntries, now) {
      TrimmedLosesOldest(slots, maxEntries, now, born, next);
    } else {
      TrimmedLosesNone(slots, maxEntries, now);
    }
  }

  lemma OverwriteOrdered(slots: seq<Slot>, i: nat, s: Slot, born: map<string, nat>, next: nat)
    requires i < |slots| && slots[i].key == s.key && Ordered(slots, born, next)
    ensures Ordered(slots[i := s], born, next)
  {
    var after := slots[i := s];
    assert forall j | 0 <= j < |slots| :: after[j].key == slots[j].key;
    forall j, k | 0 <= j < k < |slots| ensures Older(after[j], after[k], born) {
      OrderedPair(slots, born, next, j, k);
    }
  }

  lemma AppendOrdered(slots: seq<Slot>, s: Slot, born: map<string, nat>, next: nat)
    requires Ordered(slots, born, next) && forall t | t in slots :: t.key != s.key
    ensures Ordered(slots + [s], born[s.key := next], next + 1)
  {
    var later := born[s.key := next];
    forall i | 0 <= i < |slots| ensures Older(slots[i], s, later) {
      assert slots[i] in slots;
    }
    forall i, j | 0 <= i < j < |slots| ensures Older(slots[i], slots[j], later) {
      OrderedPair(slots, born, next, i, j);
      assert slots[i] in slots && slots[j] in slots;
    }
    OrderedSnoc(slots, s, later, next + 1);
  }

  // ---- Histories ----

  /** A call on the cache, with the clock reading it acts on. */
  datatype Event =
    | Reading(key: string, now: int)
    | Writing(slot: Slot, now: int)
    | Deleting(key: string)

  /** What one call leaves stored. */
  function Applied(slots: seq<Slot>, maxEntries: Option<nat>, e: Event): seq<Slot> {
    match e
    case Reading(key, now) =>
      var i := Position(slots, key);
      if i >= 0 && slots[i].entry.Expired(now) then Removed(slots, i) else slots
    case Writing(s, now) =>
      var i := Position(slots, s.key);
      if i >= 0 then slots[i := s] else Trimmed(slots, maxEntries, now) + [s]
    case Deleting(key) =>
      var i := Position(slots, key);
      if i >= 0 then Removed(slots, i) else slots
  }

  function Stored(maxEntries: Option<nat>, es: seq<Event>): seq<Slot> {
    if es == [] then []
    else Applied(Stored(maxEntries, es[..|es| - 1]), maxEntries, es[|es| - 1])
  }

  predicate Inserts(slots: seq<Slot>, e: Event) {
    e.Writing? && Position(slots, e.slot.key) < 0
  }

  /** The number of the call that last inserted each key; overwriting one is not inserting it. */
  function Born(maxEntries: Option<nat>, es: seq<Event>): map<string, nat> {
    if es == [] then map[]
    else
      var n := |es| - 1;
      var born := Born(maxEntries, es[..n]);
      if Inserts(Stored(maxEntries, es[..n]), es[n]) then born[es[n].slot.key := n] else born
  }

  predicate ValidCap(maxEntries: Option<nat>) {
    maxEntries.Some? ==> maxEntries.value > 0
  }

  lemma {:induction false} HistoryAppend(maxEntries: Option<nat>, es: seq<Event>, e: Event)
    ensures Stored(maxEntries, es + [e]) == Applied(Stored(maxEntries, es), maxEntries, e)
    ensures Born(maxEntries, es + [e])
         == if Inserts(Stored(maxEntries, es), e) then Born(maxEntries, es)[e.slot.key := |es|]
            else Born(maxEntries, es)
  {
    assert (es + [e])[..|es|] == es;
  }

  lemma {:induction false} DropOrdered(slots: seq<Slot>, i: nat, born: map<string, nat>, next: nat)
    requires i < |slots| && Ordered(slots, born, next)
    ensures Ordered(Removed(slots, i), born, next + 1) && |Removed(slots, i)| < |slots|
  {
    RemovedKeeps(slots, i, born, next);
  }

  lemma {:induction false} InsertOrdered(
      slots: seq<Slot>, maxEntries: Option<nat>, s: Slot, now: int, born: map<string, nat>, next: nat)
    requires ValidCap(maxEntries) && Ordered(slots, born, next) && Position(slots, s.key) < 0
    requires maxEntries.Some? ==> |slots| <= maxEntries.value
    ensures var after := Trimmed(slots, maxEntries, now) + [s];
      Ordered(after, born[s.key := next], next + 1) && (maxEntries.Some? ==> |after| <= maxEntries.value)
  {
    TrimmedFits(slots, maxEntries, now, born, next);
    AppendOrdered(Trimmed(slots, maxEntries, now), s, born, next);
  }

  lemma {:induction false} AppliedOrdered(
      slots: seq<Slot>, maxEntries: Option<nat>, e: Event, born: map<string, nat>, next: nat)
    requires ValidCap(maxEntries) && Ordered(slots, born, next)
    requires maxEntries.Some? ==> |slots| <= maxEntries.value
    ensures var after := Applied(slots, maxEntries, e);
      && Ordered(after, if Inserts(slots, e) then born[e.slot.key := next] else born, next + 1)
      && (maxEntries.Some? ==> |after| <= maxEntries.value)
  {
    if Inserts(slots, e) {
      InsertOrdered(slots, maxEntries, e.slot, e.now, born, next);
    } else if e.Writing? {
      var i := Position(slots, e.slot.key);
      OverwriteOrdered(slots, i, e.slot, born, next + 1);
      assert Applied(slots, maxEntries, e) == slots[i := e.slot];
    } else {
      var i := Position(slots, e.key);
      if i >= 0 { DropOrdered(slots, i, born, next); }
      assert Applied(slots, maxEntries, e) == slots || (i >= 0 && Applied(slots, maxEntries, e) == Removed(slots, i));
    }
  }

  /** After any history the slots stand in the order of their insertions, never more than the cap. */
  lemma {:induction false} HistoryOrdered(maxEntries: Option<nat>, es: seq<Event>)
    requires ValidCap(maxEntries)
    ensures Ordered(Stored(maxEntries, es), Born(maxEntries, es), |es|)
    ensures maxEntries.Some? ==> |Stored(maxEntries, es)| <= maxEntries.value
  {
    if es != [] {
      var n := |es| - 1;
      HistoryOrdered(maxEntries, es[..n]);
      AppliedOrdered(Stored(maxEntries, es[..n]), maxEntries, es[n], Born(maxEntries, es[..n]), n);
    }
  }

  lemma {:induction false} OnlyInsertsAdd(
      slots: seq<Slot>, maxEntries: Option<nat>, e: Event, born: map<string, nat>, next: nat, key: string)
    requires ValidCap(maxEntries) && Ordered(slots, born, next)
    requires maxEntries.Some? ==> |slots| <= maxEntries.value
    requires Position(slots, key) < 0 <= Position(Applied(slots, maxEntries, e), key)
    ensures Inserts(slots, e) && e.slot.key == key
  {
    var after := Applied(slots, maxEntries, e);
    var found := after[Position(after, key)];
    assert found in after;
    match e
    case Writing(s, now) =>
      if Position(slots, s.key) < 0 {
        TrimmedFits(slots, maxEntries, now, born, next);
        assert found in Trimmed(slots, maxEntries, now) || found == s;
      }
    case Reading(k, _) =>
      if Position(slots, k) >= 0 { RemovedKeeps(slots, Position(slots, k), born, next); }
    case Deleting(k) =>
      if Position(slots, k) >= 0 { RemovedKeeps(slots, Position(slots, k), born, next); }
  }

  /** The key was absent, call `b` inserted it, and it has been stored ever since. */
  ghost predicate StoredSince(maxEntries: Option<nat>, es: seq<Event>, key: string, b: nat) {
    && b < |es| && Inserts(Stored(maxEntries, es[..b]), es[b]) && es[b].slot.key == key
    && forall m | b < m <= |es| :: Position(Stored(maxEntries, es[..m]), key) >= 0
  }

  lemma {:induction false} StillStored(maxEntries: Option<nat>, es: seq<Event>, key: string, b: nat)
    requires es != [] && StoredSince(maxEntries, es[..|es| - 1], key, b)
    requires Position(Stored(maxEntries, es), key) >= 0
    ensures StoredSince(maxEntries, es, key, b)
  {
    var init := es[..|es| - 1];
    assert init[..b] == es[..b];
    forall m | b < m <= |es| ensures Position(Stored(maxEntries, es[..m]), key) >= 0 {
      if m == |es| {
        assert es[..m] == es;
      } else {
        assert init[..m] == es[..m];
      }
    }
  }

  lemma {:induction false} JustStored(maxEntries: Option<nat>, es: seq<Event>, key: string)
    requires es != [] && Position(Stored(maxEntries, es), key) >= 0
    requires var n := |es| - 1; Inserts(Stored(maxEntries, es[..n]), es[n]) && es[n].slot.key == key
    ensures StoredSince(maxEntries, es, key, |es| - 1)
  {
    assert es[..|es|] == es;
  }

  /** `Born` means what it says. */
  lemma {:induction false} BornAtInsertion(maxEntries: Option<nat>, es: seq<Event>, key: string)
    requires ValidCap(maxEntries) && Position(Stored(maxEntries, es), key) >= 0
    ensures key in Born(maxEntries, es) && StoredSince(maxEntries, es, key, Born(maxEntries, es)[key])
  {
    var n := |es| - 1;
    var before := Stored(maxEntries, es[..n]);
    if Position(before, key) < 0 {
      HistoryOrdered(maxEntries, es[..n]);
      OnlyInsertsAdd(before, maxEntries, es[n], Born(maxEntries, es[..n]), n, key);
      assert Born(maxEntries, es)[key] == n;
      JustStored(maxEntries, es, key);
    } else {
      BornAtInsertion(maxEntries, es[..n], key);
      StillStored(maxEntries, es, key, Born(maxEntries, es[..n])[key]);
    }
  }

  /** First in, first out: after any history, a write takes a live entry of another key away exactly
      when it inserts into a full house of live entries, and then only the one inserted before all
      others. */
  lemma {:induction false} FirstInFirstOut(
      maxEntries: Option<nat>, es: seq<Event>, s: Slot, now: int, gone: Slot)
    requires ValidCap(maxEntries)
    requires gone in Stored(maxEntries, es) && !gone.entry.Expired(now) && gone.key != s.key
    ensures var slots, born := Stored(maxEntries, es), Born(maxEntries, es);
      && (forall t | t in slots :: t.key in born)
      && (gone !in Stored(maxEntries, es + [Writing(s, now)]) <==>
            && Position(slots, s.key) < 0 && Evicts(slots, maxEntries, now)
            && forall t | t in slots && t != gone :: born[gone.key] < born[t.key])
  {
    var slots, born := Stored(maxEntries, es), Born(maxEntries, es);
    HistoryOrdered(maxEntries, es);
    HistoryAppend(maxEntries, es, Writing(s, now));
    var i := Position(slots, s.key);
    if i >= 0 {
      OverwriteKeepsOthers(slots, i, s, gone);
    } else {
      InsertTakesOldest(slots, maxEntries, now, born, |es|, s, gone);
    }
  }

  lemma OverwriteKeepsOthers(slots: seq<Slot>, i: nat, s: Slot, t: Slot)
    requires i < |slots| && slots[i].key == s.key && t in slots && t.key != s.key
    ensures t in slots[i := s]
  {
    var j :| 0 <= j < |slots| && slots[j] == t;
    assert slots[i := s][j] == t;
  }

  lemma {:induction false} InsertTakesOldest(
      slots: seq<Slot>, maxEntries: Option<nat>, now: int, born: map<string, nat>, next: nat, s: Slot,
      gone: Slot)
    requires ValidCap(maxEntries) && Ordered(slots, born, next)
    requires maxEntries.Some? ==> |slots| <= maxEntries.value
    requires gone in slots && !gone.entry.Expired(now) && gone.key != s.key
    ensures forall t | t in slots :: t.key in born
    ensures gone !in Trimmed(slots, maxEntries, now) + [s] <==>
              && Evicts(slots, maxEntries, now)
              && forall t | t in slots && t != gone :: born[gone.key] < born[t.key]
  {
    if Evicts(slots, maxEntries, now) {
      EvictsHead(slots, maxEntries, now);
      OldestFirst(slots, born, next, gone);
    } else {
      TrimmedLosesNone(slots, maxEntries, now);
    }
  }

  lemma OldestFirst(slots: seq<Slot>, born: map<string, nat>, next: nat, t: Slot)
    requires Ordered(slots, born, next) && t in slots
    ensures t !in slots[1..] <==> forall u | u in slots && u != t :: u.key in born && born[t.key] < born[u.key]
  {
    var j :| 0 <= j < |slots| && slots[j] == t;
    HeadOldest(slots, born, next);
    HeadOrTail(slots);
    if j > 0 { assert slots[1..][j - 1] == t; }
  }

  // ---- Fair eviction ----

  /** `gone` was the oldest inserted of a full house of live entries. */
  ghost predicate EvictedFairly(
      all: seq<Slot>, maxEntries: Option<nat>, gone: string, key: string, now: int, born: map<string, nat>)
  {
    && Position(all, key) < 0 && Position(all, gone) >= 0 && gone != key
    && maxEntries.Some? && |all| == maxEntries.value
    && (forall s | s in all :: !s.entry.Expired(now) && s.key in born)
    && gone in born && forall s | s in all && s.key != gone :: born[gone] < born[s.key]
  }

  lemma {:induction false} FairEviction(
      all: seq<Slot>, maxEntries: Option<nat>, key: string, now: int, born: map<string, nat>, next: nat)
    requires Ordered(all, born, next) && Position(all, key) < 0 && Evicts(all, maxEntries, now)
    ensures EvictedFairly(all, maxEntries, Swept(all, now)[0].key, key, now, born)
  {
    EvictsHead(all, maxEntries, now);
    HeadOldest(all, born, next);
    HeadOrTail(all);
  }
}

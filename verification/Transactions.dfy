/** Transactions over the single SQLite connection: `sqlitePool` hands the connection on in arrival
    order through a chain of promises, and `withTransaction` wraps each callback in BEGIN and
    COMMIT or ROLLBACK. Any number of calls run at once; each `await` separates two steps. */
module Transactions {
  import opened Wrappers

  // ---- The pool ----

  /** The promise `tail`: settled, or `ahead.then(() => held)` for the `held` of a slot. */
  datatype Tail = Resolved | After(ahead: Tail, slot: nat)

  /** Slots number the calls of `connect` in order of arrival; `handOffs` are the slots whose `held`
      has been resolved, in the order that happened. */
  datatype Pool = Pool(tail: Tail, arrived: nat, handOffs: seq<nat>)

  predicate Settled(tail: Tail, handOffs: seq<nat>) {
    match tail
    case Resolved => true
    case After(ahead, slot) => Settled(ahead, handOffs) && slot in handOffs
  }

  function Arrived(pool: Pool): Pool {
    pool.(tail := After(pool.tail, pool.arrived), arrived := pool.arrived + 1)
  }

  function HandedOff(pool: Pool, slot: nat): Pool {
    pool.(handOffs := pool.handOffs + [slot])
  }

  class SqlitePool {
    var tail: Tail
    var arrived: nat
    var handOffs: seq<nat>

    function State(): Pool
      reads this
    {
      Pool(tail, arrived, handOffs)
    }

    constructor ()
      ensures State() == Pool(Resolved, 0, [])
    {
      tail, arrived, handOffs := Resolved, 0, [];
    }

    /** The synchronous part of `connect`; the caller then awaits `ahead`. */
    method Connect() returns (connection: PooledConnection, ahead: Tail)
      modifies this
      ensures ahead == old(tail) && State() == Arrived(old(State()))
      ensures fresh(connection) && connection.pool == this
      ensures connection.slot == old(arrived) && !connection.released
    {
      connection := new PooledConnection(this, arrived);
      ahead := tail;
      tail, arrived := After(ahead, arrived), arrived + 1;
    }
  }

  class PooledConnection {
    const pool: SqlitePool
    const slot: nat
    var released: bool

    constructor (pool: SqlitePool, slot: nat)
      ensures this.pool == pool && this.slot == slot && !released
    {
      this.pool, this.slot, released := pool, slot, false;
    }

    /** Only the first call hands the connection on. */
    method Release()
      modifies this, pool
      ensures released
      ensures pool.State() == if old(released) then old(pool.State()) else HandedOff(old(pool.State()), slot)
    {
      if released { return; }
      released := true;
      pool.handOffs := pool.handOffs + [slot];
    }
  }

  // ---- The calls ----

  datatype Statement =
    | Begin(ok: bool)
    | Body(text: string, ok: bool)
    | Commit(ok: bool)
    | Rollback(ok: bool)

  /** What `withTransaction` answers its caller. */
  datatype Outcome = Returned | BeginFailed | CallbackFailed | CommitFailed

  datatype Pc =
    | Waiting(ahead: Tail)
    | Connected
    | InCallback
    | Committing
    | RollingBack
    | Releasing(outcome: Outcome)
    | Done(outcome: Outcome)

  datatype Entry = Entry(slot: nat, statement: Statement)

  /** `log` is everything the connection executed, in order. */
  datatype Sys = Sys(pool: Pool, calls: seq<Pc>, log: seq<Entry>)

  datatype Action =
    | Arrive
    | Grant(slot: nat)
    | RunBegin(slot: nat, ok: bool)
    | Query(slot: nat, text: string, ok: bool)
    | Settle(slot: nat, fulfilled: bool)
    | RunCommit(slot: nat, ok: bool)
    | RunRollback(slot: nat, ok: bool)
    | Release(slot: nat)
    | LateQuery(slot: nat, text: string, ok: bool)

  const INIT := Sys(Pool(Resolved, 0, []), [], [])

  predicate Enabled(s: Sys, a: Action) {
    if a.Arrive? then true
    else
      && a.slot < |s.calls|
      && var pc := s.calls[a.slot];
      match a
      case Arrive => true
      case Grant(_) => pc.Waiting? && Settled(pc.ahead, s.pool.handOffs)
      case RunBegin(_, _) => pc.Connected?
      case Query(_, _, _) => pc.InCallback?
      case Settle(_, _) => pc.InCallback?
      case RunCommit(_, _) => pc.Committing?
      case RunRollback(_, _) => pc.RollingBack?
      case Release(_) => pc.Releasing?
      case LateQuery(_, _, _) => !pc.Waiting? && !pc.Connected? && !pc.InCallback?
  }

  function To(s: Sys, slot: nat, pc: Pc): Sys
    requires slot < |s.calls|
  {
    s.(calls := s.calls[slot := pc])
  }

  function Execute(s: Sys, slot: nat, statement: Statement): Sys {
    s.(log := s.log + [Entry(slot, statement)])
  }

  function Next(s: Sys, a: Action): Sys
    requires Enabled(s, a)
  {
    match a
    case Arrive => s.(pool := Arrived(s.pool), calls := s.calls + [Waiting(s.pool.tail)])
    case Grant(slot) => To(s, slot, Connected)
    case RunBegin(slot, ok) =>
      Execute(To(s, slot, if ok then InCallback else Releasing(BeginFailed)), slot, Begin(ok))
    case Query(slot, text, ok) => Execute(s, slot, Body(text, ok))
    case Settle(slot, fulfilled) => To(s, slot, if fulfilled then Committing else RollingBack)
    case RunCommit(slot, ok) =>
      Execute(To(s, slot, Releasing(if ok then Returned else CommitFailed)), slot, Commit(ok))
    case RunRollback(slot, ok) => Execute(To(s, slot, Releasing(CallbackFailed)), slot, Rollback(ok))
    case Release(slot) =>
      To(s, slot, Done(s.calls[slot].outcome)).(pool := HandedOff(s.pool, slot))
    case LateQuery(slot, text, ok) => Execute(s, slot, Body(text, ok))
  }

  /** The state a run ends in; `None` when some step of it cannot be taken. */
  function Run(s: Sys, actions: seq<Action>): Option<Sys>
    decreases actions
  {
    if actions == [] then Some(s)
    else if Enabled(s, actions[0]) then Run(Next(s, actions[0]), actions[1..])
    else None
  }

  /** No callback uses its connection after it settled. */
  predicate Disciplined(actions: seq<Action>) {
    forall i | 0 <= i < |actions| :: !actions[i].LateQuery?
  }

  // ---- What a transaction looks like ----

  /** What the connection executed for one call. */
  function Of(log: seq<Entry>, slot: nat): seq<Statement> {
    if log == [] then []
    else
      var n := |log| - 1;
      Of(log[..n], slot) + if log[n].slot == slot then [log[n].statement] else []
  }

  predicate AllBody(statements: seq<Statement>) {
    forall i | 0 <= i < |statements| :: statements[i].Body?
  }

  predicate Closes(statement: Statement, outcome: Outcome) {
    match outcome
    case Returned => statement == Commit(true)
    case BeginFailed => false
    case CallbackFailed => statement.Rollback?
    case CommitFailed => statement == Commit(false)
  }

  /** A failed BEGIN alone; or BEGIN, the body, and exactly one COMMIT or ROLLBACK. */
  predicate IsTransaction(statements: seq<Statement>, outcome: Outcome) {
    if outcome.BeginFailed? then statements == [Begin(false)]
    else
      && |statements| >= 2
      && statements[0] == Begin(true) && AllBody(statements[1..|statements| - 1])
      && Closes(statements[|statements| - 1], outcome)
  }

  predicate IsOpen(statements: seq<Statement>) {
    statements != [] && statements[0] == Begin(true) && AllBody(statements[1..])
  }

  predicate Fits(statements: seq<Statement>, pc: Pc) {
    match pc
    case Waiting(_) => statements == []
    case Connected => statements == []
    case InCallback => IsOpen(statements)
    case Committing => IsOpen(statements)
    case RollingBack => IsOpen(statements)
    case Releasing(outcome) => IsTransaction(statements, outcome)
    case Done(outcome) => IsTransaction(statements, outcome)
  }

  /** Entries appear in order of arrival; so each call's entries are contiguous. */
  predicate Serial(log: seq<Entry>) {
    forall i, j | 0 <= i <= j < |log| :: log[i].slot <= log[j].slot
  }

  // ---- The invariant ----

  function Chain(n: nat): Tail {
    if n == 0 then Resolved else After(Chain(n - 1), n - 1)
  }

  /** Slots are handed off one by one in order of arrival, and the first slot not handed off yet is
      the only one that may have got past waiting. */
  predicate Queued(s: Sys) {
    && s.pool.arrived == |s.calls|
    && s.pool.tail == Chain(|s.calls|)
    && |s.pool.handOffs| <= |s.calls|
    && (forall k | 0 <= k < |s.pool.handOffs| :: s.pool.handOffs[k] == k)
    && (forall i | 0 <= i < |s.pool.handOffs| :: s.calls[i].Done?)
    && (forall i | |s.pool.handOffs| < i < |s.calls| :: s.calls[i].Waiting?)
    && (forall i | 0 <= i < |s.calls| && s.calls[i].Waiting? :: s.calls[i].ahead == Chain(i))
    && (|s.pool.handOffs| < |s.calls| ==> !s.calls[|s.pool.handOffs|].Done?)
  }

  predicate Logged(s: Sys) {
    && Serial(s.log)
    && (forall i | 0 <= i < |s.log| :: s.log[i].slot <= |s.pool.handOffs| && s.log[i].slot < |s.calls|)
    && (forall slot: nat | slot < |s.calls| :: Fits(Of(s.log, slot), s.calls[slot]))
  }

  lemma {:induction false} SettledUpTo(n: nat, handOffs: seq<nat>)
    requires forall k | 0 <= k < |handOffs| :: handOffs[k] == k
    ensures Settled(Chain(n), handOffs) <==> n <= |handOffs|
  {
    if n > 0 {
      SettledUpTo(n - 1, handOffs);
      assert n - 1 < |handOffs| ==> handOffs[n - 1] == n - 1;
    }
  }

  /** The callback has settled and its COMMIT or ROLLBACK is still to come. */
  predicate Settling(pc: Pc) {
    pc.Committing? || pc.RollingBack?
  }

  /** A late query does no harm before its transaction is closed. */
  predicate Harmless(s: Sys, a: Action)
    requires Enabled(s, a)
  {
    a.LateQuery? ==> Settling(s.calls[a.slot])
  }

  /** Whoever can act holds the connection. */
  lemma OnlyHeadActs(s: Sys, a: Action)
    requires Queued(s) && Enabled(s, a) && !a.Arrive? && Harmless(s, a)
    ensures a.slot == |s.pool.handOffs|
  {
    if s.calls[a.slot].Waiting? {
      SettledUpTo(a.slot, s.pool.handOffs);
    }
  }

  lemma QueuedPreserved(s: Sys, a: Action)
    requires Queued(s) && Enabled(s, a)
    ensures Queued(Next(s, a))
  {
    if !a.Arrive? && !a.LateQuery? {
      OnlyHeadActs(s, a);
    }
  }

  lemma {:induction false} OfLater(log: seq<Entry>, slot: nat)
    requires forall i | 0 <= i < |log| :: log[i].slot < slot
    ensures Of(log, slot) == []
  {
    if log != [] {
      OfLater(log[..|log| - 1], slot);
    }
  }

  lemma OfExecuted(s: Sys, slot: nat, statement: Statement, other: nat)
    ensures Of(Execute(s, slot, statement).log, other)
         == Of(s.log, other) + if slot == other then [statement] else []
  {
    assert (s.log + [Entry(slot, statement)])[..|s.log|] == s.log;
  }

  /** The statements of the call that acts after its step. */
  lemma ActorFits(statements: seq<Statement>, s: Sys, a: Action)
    requires !a.Arrive? && Enabled(s, a) && Harmless(s, a) && Fits(statements, s.calls[a.slot])
    ensures Fits(statements + Issued(a), Next(s, a).calls[a.slot])
  {
    if IsOpen(statements) && Issued(a) != [] {
      assert (statements + Issued(a))[1..|statements|] == statements[1..];
      assert (statements + Issued(a))[1..] == statements[1..] + Issued(a);
    } else {
      assert statements + [] == statements;
    }
  }

  function Issued(a: Action): seq<Statement> {
    match a
    case RunBegin(_, ok) => [Begin(ok)]
    case Query(_, text, ok) => [Body(text, ok)]
    case RunCommit(_, ok) => [Commit(ok)]
    case RunRollback(_, ok) => [Rollback(ok)]
    case LateQuery(_, text, ok) => [Body(text, ok)]
    case _ => []
  }

  lemma OfNext(s: Sys, a: Action, slot: nat)
    requires Enabled(s, a)
    ensures var before, after := Of(s.log, slot), Of(Next(s, a).log, slot);
      after == if !a.Arrive? && a.slot == slot then before + Issued(a) else before
  {
    if Issued(a) == [] {
      assert Of(s.log, slot) + [] == Of(s.log, slot);
    } else {
      OfExecuted(s, a.slot, Issued(a)[0], slot);
    }
  }

  lemma LoggedPreserved(s: Sys, a: Action)
    requires Queued(s) && Logged(s) && Enabled(s, a) && Harmless(s, a)
    ensures Logged(Next(s, a))
  {
    var s' := Next(s, a);
    if !a.Arrive? {
      OnlyHeadActs(s, a);
    }
    forall slot: nat | slot < |s'.calls| ensures Fits(Of(s'.log, slot), s'.calls[slot]) {
      OfNext(s, a, slot);
      if slot == |s.calls| {
        OfLater(s.log, slot);
      } else if !a.Arrive? && slot == a.slot {
        ActorFits(Of(s.log, slot), s, a);
      }
    }
  }

  /** Every late query of the run comes before the end of its transaction. */
  predicate HarmlessRun(s: Sys, actions: seq<Action>)
    requires Run(s, actions).Some?
    decreases actions
  {
    actions == [] || (Harmless(s, actions[0]) && HarmlessRun(Next(s, actions[0]), actions[1..]))
  }

  lemma {:induction false} DisciplinedIsHarmless(s: Sys, actions: seq<Action>)
    requires Run(s, actions).Some? && Disciplined(actions)
    ensures HarmlessRun(s, actions)
    decreases actions
  {
    if actions != [] {
      DisciplinedIsHarmless(Next(s, actions[0]), actions[1..]);
    }
  }

  lemma {:induction false} RunKeepsInvariant(s: Sys, actions: seq<Action>)
    requires Queued(s) && Logged(s) && Run(s, actions).Some? && HarmlessRun(s, actions)
    ensures Queued(Run(s, actions).value) && Logged(Run(s, actions).value)
    decreases actions
  {
    if actions != [] {
      QueuedPreserved(s, actions[0]);
      LoggedPreserved(s, actions[0]);
      RunKeepsInvariant(Next(s, actions[0]), actions[1..]);
    }
  }

  /** The queue is in order after any run, late queries included. */
  lemma {:induction false} AlwaysQueued(s: Sys, actions: seq<Action>)
    requires Queued(s) && Run(s, actions).Some?
    ensures Queued(Run(s, actions).value)
    decreases actions
  {
    if actions != [] {
      QueuedPreserved(s, actions[0]);
      AlwaysQueued(Next(s, actions[0]), actions[1..]);
    }
  }

  // ---- Guarantees over every run ----

  /** The call's transaction has ended. */
  predicate Closed(pc: Pc) {
    pc.Releasing? || pc.Done?
  }

  predicate Whole(s: Sys, slot: nat)
    requires slot < |s.calls|
  {
    Closed(s.calls[slot]) ==> IsTransaction(Of(s.log, slot), s.calls[slot].outcome)
  }

  /** What one connection executed is whole transactions in order of arrival, each agreeing with
      what its caller is told. */
  predicate RunsSerially(s: Sys) {
    Serial(s.log) && forall slot: nat | slot < |s.calls| :: Whole(s, slot)
  }

  lemma LoggedIsSerial(s: Sys)
    requires Logged(s)
    ensures RunsSerially(s)
  {
    forall slot: nat | slot < |s.calls| ensures Whole(s, slot) {
      assert Fits(Of(s.log, slot), s.calls[slot]);
    }
  }

  /** Transactions never interleave, however the calls do. */
  lemma {:induction false} SerialTransactions(actions: seq<Action>)
    requires Disciplined(actions) && Run(INIT, actions).Some?
    ensures RunsSerially(Run(INIT, actions).value)
  {
    DisciplinedIsHarmless(INIT, actions);
    RunKeepsInvariant(INIT, actions);
    LoggedIsSerial(Run(INIT, actions).value);
  }

  lemma NothingAfterTheEnd(statements: seq<Statement>, text: string, ok: bool, outcome: Outcome)
    ensures !IsTransaction(statements + [Body(text, ok)], outcome)
  {
    var all := statements + [Body(text, ok)];
    assert all[|all| - 1] == Body(text, ok);
  }

  /** A transaction that is not whole never becomes whole. */
  lemma BrokenStays(s: Sys, a: Action, slot: nat)
    requires Enabled(s, a) && slot < |s.calls| && !Whole(s, slot)
    ensures slot < |Next(s, a).calls| && !Whole(Next(s, a), slot)
  {
    OfNext(s, a, slot);
    if a.LateQuery? && a.slot == slot {
      NothingAfterTheEnd(Of(s.log, slot), a.text, a.ok, s.calls[slot].outcome);
    }
  }

  lemma HarmBreaks(s: Sys, a: Action)
    requires Enabled(s, a) && !Harmless(s, a)
    ensures a.slot < |Next(s, a).calls| && !Whole(Next(s, a), a.slot)
  {
    OfNext(s, a, a.slot);
    NothingAfterTheEnd(Of(s.log, a.slot), a.text, a.ok, s.calls[a.slot].outcome);
  }

  lemma {:induction false} BrokenToTheEnd(s: Sys, actions: seq<Action>, slot: nat)
    requires Run(s, actions).Some? && slot < |s.calls| && !Whole(s, slot)
    ensures !RunsSerially(Run(s, actions).value)
    decreases actions
  {
    if actions != [] {
      BrokenStays(s, actions[0], slot);
      BrokenToTheEnd(Next(s, actions[0]), actions[1..], slot);
    }
  }

  lemma {:induction false} HarmShows(s: Sys, actions: seq<Action>)
    requires Run(s, actions).Some? && !HarmlessRun(s, actions)
    ensures !RunsSerially(Run(s, actions).value)
    decreases actions
  {
    if !Harmless(s, actions[0]) {
      HarmBreaks(s, actions[0]);
      BrokenToTheEnd(Next(s, actions[0]), actions[1..], actions[0].slot);
    } else {
      HarmShows(Next(s, actions[0]), actions[1..]);
    }
  }

  /** The exact condition: a run executes whole transactions one after another if and only if every
      query its callbacks issue late still comes before the COMMIT or ROLLBACK of its own
      transaction. */
  lemma {:induction false} SerialTransactionsExact(actions: seq<Action>)
    requires Run(INIT, actions).Some?
    ensures RunsSerially(Run(INIT, actions).value) <==> HarmlessRun(INIT, actions)
  {
    if HarmlessRun(INIT, actions) {
      RunKeepsInvariant(INIT, actions);
      LoggedIsSerial(Run(INIT, actions).value);
    } else {
      HarmShows(INIT, actions);
    }
  }

  /** A late query is in turn as long as no later call has executed anything. */
  predicate InTime(s: Sys, a: Action) {
    a.LateQuery? ==> forall i | 0 <= i < |s.log| :: s.log[i].slot <= a.slot
  }

  predicate InTimeRun(s: Sys, actions: seq<Action>)
    requires Run(s, actions).Some?
    decreases actions
  {
    actions == [] || (InTime(s, actions[0]) && InTimeRun(Next(s, actions[0]), actions[1..]))
  }

  predicate Reached(s: Sys) {
    forall i | 0 <= i < |s.log| :: s.log[i].slot <= |s.pool.handOffs| && s.log[i].slot < |s.calls|
  }

  lemma OrderStep(s: Sys, a: Action)
    requires Queued(s) && Reached(s) && Enabled(s, a)
    ensures Reached(Next(s, a))
    ensures Serial(Next(s, a).log) <==> Serial(s.log) && InTime(s, a)
  {
    var log := Next(s, a).log;
    assert s.log <= log;
    assert forall i | 0 <= i < |s.log| :: log[i] == s.log[i];
    if !a.Arrive? && !a.LateQuery? {
      OnlyHeadActs(s, a);
    }
    if a.LateQuery? {
      assert log[|s.log|].slot == a.slot;
    }
  }

  /** The order alone: for every run, late queries or not, the log is in order of arrival if and only
      if each late query comes while no later call has executed anything. */
  lemma {:induction false} OrderExact(s: Sys, actions: seq<Action>)
    requires Queued(s) && Reached(s) && Run(s, actions).Some?
    ensures Serial(Run(s, actions).value.log) <==> Serial(s.log) && InTimeRun(s, actions)
    decreases actions
  {
    if actions != [] {
      OrderStep(s, actions[0]);
      QueuedPreserved(s, actions[0]);
      OrderExact(Next(s, actions[0]), actions[1..]);
    }
  }

  lemma {:induction false} ArrivalOrderExact(actions: seq<Action>)
    requires Run(INIT, actions).Some?
    ensures Serial(Run(INIT, actions).value.log) <==> InTimeRun(INIT, actions)
  {
    OrderExact(INIT, actions);
  }

  lemma {:induction false} WaitersExecuteNothing(s: Sys, actions: seq<Action>, slot: nat)
    requires Queued(s) && Reached(s) && Run(s, actions).Some?
    requires |Run(s, actions).value.pool.handOffs| < slot
    ensures Of(Run(s, actions).value.log, slot) == []
    decreases actions
  {
    if actions == [] {
      OfLater(s.log, slot);
    } else {
      OrderStep(s, actions[0]);
      QueuedPreserved(s, actions[0]);
      WaitersExecuteNothing(Next(s, actions[0]), actions[1..], slot);
    }
  }

  /** The connection is handed on once per finished call, in order of arrival, and the calls behind the
      first unfinished one have executed nothing, late queries or not. */
  lemma {:induction false} ReleasedOnceInOrder(actions: seq<Action>)
    requires Run(INIT, actions).Some?
    ensures var s := Run(INIT, actions).value; var n := |s.pool.handOffs|;
      && n <= |s.calls| && s.pool.handOffs == seq(n, i => i)
      && (forall slot: nat | slot < |s.calls| :: s.calls[slot].Done? <==> slot < n)
      && (forall slot: nat | slot > n :: Of(s.log, slot) == [])
  {
    AlwaysQueued(INIT, actions);
    var s := Run(INIT, actions).value;
    forall slot: nat | slot > |s.pool.handOffs| ensures Of(s.log, slot) == [] {
      WaitersExecuteNothing(INIT, actions, slot);
    }
  }

  /** How far the call at the head of the queue is from handing the connection on. */
  function Distance(pc: Pc): nat {
    match pc
    case Waiting(_) => 5
    case Connected => 4
    case InCallback => 3
    case Committing => 2
    case RollingBack => 2
    case Releasing(_) => 1
    case Done(_) => 0
  }

  lemma HeadAdvances(s: Sys) returns (a: Action)
    requires Queued(s) && |s.pool.handOffs| < |s.calls|
    ensures Enabled(s, a) && !a.Arrive? && !a.LateQuery? && a.slot == |s.pool.handOffs|
    ensures Distance(Next(s, a).calls[a.slot]) < Distance(s.calls[a.slot])
    ensures |Next(s, a).calls| == |s.calls|
    ensures Next(s, a).pool.handOffs
         == s.pool.handOffs + if Next(s, a).calls[a.slot].Done? then [a.slot] else []
  {
    var head := |s.pool.handOffs|;
    match s.calls[head]
    case Waiting(_) =>
      SettledUpTo(head, s.pool.handOffs);
      a := Grant(head);
    case Connected => a := RunBegin(head, true);
    case InCallback => a := Settle(head, true);
    case Committing => a := RunCommit(head, true);
    case RollingBack => a := RunRollback(head, true);
    case Releasing(_) => a := Release(head);
  }

  /** No hand-off is lost: after any run, late queries included, some continuation brings every call to
      its end. */
  lemma {:induction false} EveryRunDrains(actions: seq<Action>) returns (rest: seq<Action>)
    requires Run(INIT, actions).Some?
    ensures Disciplined(rest) && Run(INIT, actions + rest).Some?
    ensures var end := Run(INIT, actions + rest).value;
      && |end.calls| == |Run(INIT, actions).value.calls|
      && forall i | 0 <= i < |end.calls| :: end.calls[i].Done?
  {
    AlwaysQueued(INIT, actions);
    rest := QueueDrains(Run(INIT, actions).value);
    ThenAll(INIT, actions, rest);
  }

  lemma {:induction false} QueueDrains(s: Sys) returns (rest: seq<Action>)
    requires Queued(s)
    ensures Disciplined(rest) && Run(s, rest).Some?
    ensures var end := Run(s, rest).value;
      |end.calls| == |s.calls| && forall i | 0 <= i < |end.calls| :: end.calls[i].Done?
    decreases |s.calls| - |s.pool.handOffs|,
      if |s.pool.handOffs| < |s.calls| then Distance(s.calls[|s.pool.handOffs|]) else 0
  {
    if |s.pool.handOffs| == |s.calls| { return []; }
    var a := HeadAdvances(s);
    QueuedPreserved(s, a);
    rest := QueueDrains(Next(s, a));
    rest := [a] + rest;
  }

  // ---- One call, start to finish ----

  /** What the connection and the callback do in one call: whether BEGIN works, the callback's
      queries, whether it fulfils, and whether COMMIT and ROLLBACK work. */
  datatype Script =
    Script(begin: bool, queries: seq<(string, bool)>, fulfilled: bool, commit: bool, rollback: bool)

  function OutcomeOf(script: Script): Outcome {
    if !script.begin then BeginFailed
    else if !script.fulfilled then CallbackFailed
    else if script.commit then Returned
    else CommitFailed
  }

  function Bodies(queries: seq<(string, bool)>): seq<Statement> {
    seq(|queries|, i requires 0 <= i < |queries| => Body(queries[i].0, queries[i].1))
  }

  function Executed(script: Script): seq<Statement> {
    if !script.begin then [Begin(false)]
    else
      [Begin(true)] + Bodies(script.queries)
      + [if script.fulfilled then Commit(script.commit) else Rollback(script.rollback)]
  }

  lemma ExecutesTransaction(script: Script)
    ensures IsTransaction(Executed(script), OutcomeOf(script))
  {
    if script.begin {
      var statements := Executed(script);
      assert statements[1..|statements| - 1] == Bodies(script.queries);
    }
  }

  /** A fulfilled callback is committed and never rolled back, a rejected one rolled back and never
      committed, and only a successful COMMIT returns. */
  lemma ScriptDecides(script: Script)
    ensures Decides(script, Executed(script), OutcomeOf(script))
  {
    if script.begin {
      var executed := Executed(script);
      assert executed[1..|executed| - 1] == Bodies(script.queries);
      assert executed[|executed| - 1] in executed;
      assert forall st <- executed :: st.Begin? || st.Body? || st == executed[|executed| - 1];
    }
  }

  /** What the parts of a script mean for the connection and the caller. */
  predicate Decides(script: Script, executed: seq<Statement>, outcome: Outcome) {
    && (outcome.Returned? <==> script.begin && script.fulfilled && script.commit)
    && (outcome.BeginFailed? <==> !script.begin)
    && (outcome.CallbackFailed? <==> script.begin && !script.fulfilled)
    && (Commit(script.commit) in executed <==> script.begin && script.fulfilled)
    && (Rollback(script.rollback) in executed <==> script.begin && !script.fulfilled)
    && (forall st <- executed :: st.Commit? ==> script.fulfilled)
    && (forall st <- executed :: st.Rollback? ==> !script.fulfilled)
    && (script.begin ==> |executed| >= 2 && executed[1..|executed| - 1] == Bodies(script.queries))
  }

  /** `withTransaction` once it holds a connection: a failed COMMIT is not followed by a ROLLBACK, a
      failed ROLLBACK does not replace the callback's error, and the connection goes back on every
      path. */
  method WithTransaction(connection: PooledConnection, script: Script)
    returns (outcome: Outcome, executed: seq<Statement>)
    requires !connection.released
    modifies connection, connection.pool
    ensures outcome == OutcomeOf(script) && executed == Executed(script)
    ensures IsTransaction(executed, outcome) && Decides(script, executed, outcome)
    ensures connection.released
    ensures connection.pool.State() == HandedOff(old(connection.pool.State()), connection.slot)
  {
    executed := [Begin(script.begin)];
    if !script.begin {
      outcome := BeginFailed;
    } else {
      executed := executed + Bodies(script.queries);
      if !script.fulfilled {
        executed := executed + [Rollback(script.rollback)];
        outcome := CallbackFailed;
      } else {
        executed := executed + [Commit(script.commit)];
        outcome := if script.commit then Returned else CommitFailed;
      }
    }
    ExecutesTransaction(script);
    ScriptDecides(script);
    connection.Release();
  }

  function Queries(slot: nat, queries: seq<(string, bool)>): seq<Action> {
    seq(|queries|, i requires 0 <= i < |queries| => Query(slot, queries[i].0, queries[i].1))
  }

  /** From `s` to `end` the call in `slot` alone has moved, to `pc`, and executed `statements`. */
  predicate Moved(s: Sys, end: Sys, slot: nat, pc: Pc, statements: seq<Statement>)
    requires slot < |s.calls|
  {
    && end.calls == s.calls[slot := pc]
    && Of(end.log, slot) == Of(s.log, slot) + statements
  }

  lemma {:induction false} MovedOn(s: Sys, now: Sys, slot: nat, statements: seq<Statement>, a: Action)
    requires slot < |s.calls| && !a.Arrive? && a.slot == slot && Enabled(now, a)
    requires Moved(s, now, slot, now.calls[slot], statements)
    ensures Moved(s, Next(now, a), slot, Next(now, a).calls[slot], statements + Issued(a))
  {
    OfNext(now, a, slot);
    Regroup(Of(s.log, slot), statements, Issued(a));
    OnlyActorMoves(now, a);
  }

  lemma Regroup(a: seq<Statement>, b: seq<Statement>, c: seq<Statement>)
    ensures a + b + c == a + (b + c)
  {
  }

  lemma OnlyActorMoves(s: Sys, a: Action)
    requires Enabled(s, a) && !a.Arrive?
    ensures a.slot < |Next(s, a).calls| && Next(s, a).calls == s.calls[a.slot := Next(s, a).calls[a.slot]]
  {
  }

  lemma {:induction false} MovesOn(
      s: Sys, first: seq<Action>, now: Sys, slot: nat, statements: seq<Statement>, a: Action)
    requires slot < |s.calls| && Disciplined(first) && Run(s, first) == Some(now)
    requires !a.Arrive? && !a.LateQuery? && a.slot == slot && Enabled(now, a)
    requires Moved(s, now, slot, now.calls[slot], statements)
    ensures Disciplined(first + [a]) && Run(s, first + [a]) == Some(Next(now, a))
    ensures Moved(s, Next(now, a), slot, Next(now, a).calls[slot], statements + Issued(a))
  {
    Then(s, first, a);
    MovedOn(s, now, slot, statements, a);
  }

  lemma {:induction false} QueriesRun(s: Sys, slot: nat, queries: seq<(string, bool)>) returns (end: Sys)
    requires slot < |s.calls| && s.calls[slot].InCallback?
    ensures Disciplined(Queries(slot, queries)) && Run(s, Queries(slot, queries)) == Some(end)
    ensures end.pool == s.pool && Moved(s, end, slot, InCallback, Bodies(queries))
  {
    if queries == [] {
      end := s;
      assert s.calls[slot := InCallback] == s.calls;
      assert Of(s.log, slot) + [] == Of(s.log, slot);
    } else {
      var n := |queries| - 1;
      var last := Query(slot, queries[n].0, queries[n].1);
      var before := QueriesRun(s, slot, queries[..n]);
      MovesOn(s, Queries(slot, queries[..n]), before, slot, Bodies(queries[..n]), last);
      assert Queries(slot, queries) == Queries(slot, queries[..n]) + [last];
      assert Bodies(queries) == Bodies(queries[..n]) + Issued(last);
      end := Next(before, last);
    }
  }

  lemma {:induction false} CallbackRuns(s: Sys, slot: nat, queries: seq<(string, bool)>)
    returns (actions: seq<Action>, end: Sys)
    requires slot < |s.calls| && s.calls[slot].Connected?
    ensures Disciplined(actions) && Run(s, actions) == Some(end) && end.pool == s.pool
    ensures RunBegin(slot, true) in actions
    ensures Moved(s, end, slot, InCallback, [Begin(true)] + Bodies(queries))
  {
    var begun := Next(s, RunBegin(slot, true));
    OfNext(s, RunBegin(slot, true), slot);
    end := QueriesRun(begun, slot, queries);
    actions := [RunBegin(slot, true)] + Queries(slot, queries);
    assert actions[1..] == Queries(slot, queries);
    assert Of(s.log, slot) + [Begin(true)] + Bodies(queries) == Of(s.log, slot) + ([Begin(true)] + Bodies(queries));
  }

  lemma {:induction false} Returns(
      s: Sys, first: seq<Action>, now: Sys, slot: nat, statements: seq<Statement>)
    requires slot < |s.calls| && Disciplined(first) && Run(s, first) == Some(now) && now.pool == s.pool
    requires slot < |now.calls| && now.calls[slot].Releasing?
    requires Moved(s, now, slot, now.calls[slot], statements)
    ensures var end := Next(now, Release(slot));
      && Disciplined(first + [Release(slot)])
      && Run(s, first + [Release(slot)]) == Some(end) && end.pool == HandedOff(s.pool, slot)
      && Moved(s, end, slot, Done(now.calls[slot].outcome), statements)
  {
    MovesOn(s, first, now, slot, statements, Release(slot));
    assert statements + [] == statements;
  }

  /** The steps of one call are a run of the system with the same effect. */
  lemma {:induction false} CallIsRun(s: Sys, slot: nat, script: Script)
    returns (actions: seq<Action>, end: Sys)
    requires slot < |s.calls| && s.calls[slot].Connected?
    ensures Disciplined(actions) && Run(s, actions) == Some(end)
    ensures RunBegin(slot, script.begin) in actions
    ensures script.begin ==> Settle(slot, script.fulfilled) in actions
    ensures end.pool == HandedOff(s.pool, slot)
    ensures Moved(s, end, slot, Done(OutcomeOf(script)), Executed(script))
  {
    if script.begin {
      var open := [Begin(true)] + Bodies(script.queries);
      var settle := Settle(slot, script.fulfilled);
      var last := if script.fulfilled then RunCommit(slot, script.commit) else RunRollback(slot, script.rollback);
      actions, end := CallbackRuns(s, slot, script.queries);
      MovesOn(s, actions, end, slot, open, settle);
      assert open + [] == open;
      actions, end := actions + [settle], Next(end, settle);
      MovesOn(s, actions, end, slot, open, last);
      actions, end := actions + [last], Next(end, last);
    } else {
      var failed := RunBegin(slot, false);
      actions, end := [failed], Next(s, failed);
      assert Run(end, []) == Some(end) && actions[1..] == [];
      OfNext(s, failed, slot);
    }
    Returns(s, actions, end, slot, Executed(script));
    actions, end := actions + [Release(slot)], Next(end, Release(slot));
  }

  lemma {:induction false} Then(s: Sys, first: seq<Action>, a: Action)
    requires Run(s, first).Some? && Enabled(Run(s, first).value, a)
    ensures Run(s, first + [a]) == Some(Next(Run(s, first).value, a))
    decreases first
  {
    if first == [] {
      assert Run(Next(s, a), []) == Some(Next(s, a));
      assert [a][1..] == [];
    } else {
      assert (first + [a])[1..] == first[1..] + [a];
      Then(Next(s, first[0]), first[1..], a);
    }
  }

  lemma {:induction false} ThenAll(s: Sys, first: seq<Action>, second: seq<Action>)
    requires Run(s, first).Some?
    ensures Run(s, first + second) == Run(Run(s, first).value, second)
    decreases first
  {
    if first == [] {
      assert first + second == second;
    } else {
      assert (first + second)[1..] == first[1..] + second;
      ThenAll(Next(s, first[0]), first[1..], second);
    }
  }

  /** Two calls have arrived and the first has gone through a whole transaction of any kind. */
  lemma {:induction false} FirstDone(script: Script) returns (s: Sys, actions: seq<Action>)
    ensures Run(INIT, actions) == Some(s) && Disciplined(actions)
    ensures s.calls == [Done(OutcomeOf(script)), Waiting(Chain(1))] && s.pool.handOffs == [0]
  {
    var first := [Arrive, Arrive, Grant(0)];
    var granted := Next(Next(Next(INIT, Arrive), Arrive), Grant(0));
    assert Run(INIT, first) == Some(granted);
    actions, s := CallIsRun(granted, 0, script);
    ThenAll(INIT, first, actions);
    assert granted.calls == [Connected, Waiting(Chain(1))];
    actions := first + actions;
  }

  /** A callback that keeps its connection and uses it late breaks the guarantee: nothing ties a
      query to the connection still being held, so it lands in the next transaction, whatever the
      first one did. */
  lemma {:induction false} LateQueryInterleaves(script: Script, text: string, ok: bool)
    returns (actions: seq<Action>)
    ensures actions != [] && Disciplined(actions[..|actions| - 1])
    ensures Run(INIT, actions).Some? && !Serial(Run(INIT, actions).value.log)
  {
    var s, before := FirstDone(script);
    Then(INIT, before, Grant(1));
    s, before := Next(s, Grant(1)), before + [Grant(1)];
    Then(INIT, before, RunBegin(1, true));
    s, before := Next(s, RunBegin(1, true)), before + [RunBegin(1, true)];
    Then(INIT, before, LateQuery(0, text, ok));
    actions := before + [LateQuery(0, text, ok)];
    var log := Next(s, LateQuery(0, text, ok)).log;
    assert log[|log| - 2].slot == 1 && log[|log| - 1].slot == 0;
  }
}

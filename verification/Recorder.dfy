/** The capture recorder: a bounded buffer drained by one serialised chain of tasks.

    The promise chain is the list of tasks not yet begun together with the suspension point of the
    one in progress; producers, timers and closers may act between any two of its steps. */
module Recorder {
  import opened Wrappers
  import Ring = RingBuffer

  type Event = string

  datatype Task = DrainTask | FlushTask | TickTask | CloseTask

  /** Where the task in progress is suspended. */
  datatype Phase =
    | Idle
    | Draining(task: Task)
    | Consuming(task: Task, event: Event)
    | Flushing(task: Task)
    | ClosingSink

  datatype State = State(
    capacity: nat,
    buffer: seq<Event>,
    chain: seq<Task>,
    phase: Phase,
    drainScheduled: bool,
    closed: bool,
    closePending: bool,
    sinkClosed: bool,
    dropped: nat,
    reported: nat)

  /** What happened so far: every event offered to `record`, those it took and those it refused,
      and those consumed. */
  datatype Log =
    Log(offered: seq<Event>, accepted: seq<Event>, refused: seq<Event>, consumed: seq<Event>)

  datatype Action =
    | Record(event: Event)
    | Flush
    | Tick
    | Close
    | EnqueueClose
    | Begin
    | Drain
    | Consume
    | RunFlush
    | CloseSink

  function Init(capacity: nat): State {
    State(capacity, [], [], Idle, false, false, false, false, 0, 0)
  }

  /** The steps the task chain takes on its own. */
  predicate Internal(a: Action) {
    a.EnqueueClose? || a.Begin? || a.Drain? || a.Consume? || a.RunFlush? || a.CloseSink?
  }

  predicate Enabled(s: State, a: Action) {
    match a
    case Record(_) => true
    case Flush => true
    case Tick => !s.closed
    case Close => true
    case EnqueueClose => s.closePending
    case Begin => s.phase.Idle? && s.chain != []
    case Drain => s.phase.Draining?
    case Consume => s.phase.Consuming?
    case RunFlush => s.phase.Flushing?
    case CloseSink => s.phase.ClosingSink?
  }

  function Next(s: State, a: Action): State
    requires Enabled(s, a)
  {
    match a
    case Record(event) =>
      if s.closed || |s.buffer| >= s.capacity then s.(dropped := s.dropped + 1)
      else
        s.(buffer := s.buffer + [event],
           chain := if s.drainScheduled then s.chain else s.chain + [DrainTask],
           drainScheduled := true)
    case Flush => s.(chain := s.chain + [FlushTask])
    case Tick => s.(chain := s.chain + [TickTask])
    case Close => if s.closed then s else s.(closed := true, closePending := true)
    case EnqueueClose => s.(chain := s.chain + [CloseTask], closePending := false)
    case Begin =>
      var task := s.chain[0];
      s.(chain := s.chain[1..],
         phase := if task.TickTask? then Flushing(task) else Draining(task),
         drainScheduled := s.drainScheduled && !task.DrainTask?)
    case Drain =>
      if s.buffer != [] then
        s.(buffer := s.buffer[1..], phase := Consuming(s.phase.task, s.buffer[0]))
      else
        s.(phase := if s.phase.task.DrainTask? then Idle else Flushing(s.phase.task))
    case Consume => s.(phase := Draining(s.phase.task))
    case RunFlush =>
      s.(reported := if s.dropped > s.reported then s.dropped else s.reported,
         phase := if s.phase.task.CloseTask? then ClosingSink else Idle)
    case CloseSink => s.(phase := Idle, sinkClosed := true)
  }

  function Noted(s: State, log: Log, a: Action): Log
    requires Enabled(s, a)
  {
    match a
    case Record(event) =>
      var noted := log.(offered := log.offered + [event]);
      if s.closed || |s.buffer| >= s.capacity then noted.(refused := log.refused + [event])
      else noted.(accepted := log.accepted + [event])
    case Consume => log.(consumed := log.consumed + [s.phase.event])
    case _ => log
  }

  // ---- The object ----

  class Recorder {
    const buffer: Ring.RingBuffer<Event>
    var chain: seq<Task>
    var phase: Phase
    var drainScheduled: bool
    var closed: bool
    var closePending: bool
    var sinkClosed: bool
    var dropped: nat
    var reportedDropped: nat

    ghost predicate Valid()
      reads this, buffer, buffer.items
    {
      buffer.Valid()
    }

    ghost function View(): State
      requires Valid()
      reads this, buffer, buffer.items
    {
      State(buffer.items.Length, buffer.Contents(), chain, phase, drainScheduled, closed, closePending,
            sinkClosed, dropped, reportedDropped)
    }

    constructor (bufferSize: int)
      ensures Valid() && fresh(buffer) && fresh(buffer.items)
      ensures View() == Init(if bufferSize > 0 then bufferSize else 0)
    {
      buffer := new Ring.RingBuffer<Event>(bufferSize);
      chain, phase, drainScheduled := [], Idle, false;
      closed, closePending, sinkClosed, dropped, reportedDropped := false, false, false, 0, 0;
    }

    method Enqueue(task: Task)
      modifies this`chain
      ensures chain == old(chain) + [task]
    {
      chain := chain + [task];
    }

    /** Takes the event, or, when full or closed, only adds one to the drops. */
    method Record(event: Event)
      requires Valid()
      modifies this, buffer, buffer.items
      ensures Valid() && View() == Next(old(View()), Action.Record(event))
    {
      var pushed := false;
      if !closed {
        pushed := buffer.Push(event);
      }
      if !pushed {
        dropped := dropped + 1;
        return;
      }
      if !drainScheduled {
        drainScheduled := true;
        Enqueue(DrainTask);
      }
    }

    method Flush()
      requires Valid()
      modifies this
      ensures Valid() && View() == Next(old(View()), Action.Flush)
    {
      Enqueue(FlushTask);
    }

    method Tick()
      requires Valid() && !closed
      modifies this
      ensures Valid() && View() == Next(old(View()), Action.Tick)
    {
      Enqueue(TickTask);
    }

    /** Stops accepting at once; the closing task joins the chain a turn later. Later calls change
        nothing. */
    method Close()
      requires Valid()
      modifies this
      ensures Valid() && View() == Next(old(View()), Action.Close)
    {
      if !closed {
        closed, closePending := true, true;
      }
    }

    method EnqueueClose()
      requires Valid() && closePending
      modifies this
      ensures Valid() && View() == Next(old(View()), Action.EnqueueClose)
    {
      Enqueue(CloseTask);
      closePending := false;
    }

    method Begin()
      requires Valid() && phase.Idle? && chain != []
      modifies this
      ensures Valid() && View() == Next(old(View()), Action.Begin)
    {
      var task := chain[0];
      chain := chain[1..];
      if task == DrainTask {
        drainScheduled := false;
      }
      phase := if task == TickTask then Flushing(task) else Draining(task);
    }

    /** One turn of the drain loop. */
    method Drain()
      requires Valid() && phase.Draining?
      modifies this, buffer, buffer.items
      ensures Valid() && View() == Next(old(View()), Action.Drain)
    {
      if buffer.count > 0 {
        var event := buffer.Shift();
        phase := Consuming(phase.task, event.value);
      } else {
        phase := if phase.task == DrainTask then Idle else Flushing(phase.task);
      }
    }

    method Consume()
      requires Valid() && phase.Consuming?
      modifies this
      ensures Valid() && View() == Next(old(View()), Action.Consume)
    {
      phase := Draining(phase.task);
    }

    method RunFlush()
      requires Valid() && phase.Flushing?
      modifies this
      ensures Valid() && View() == Next(old(View()), Action.RunFlush)
    {
      ReportDropped();
      phase := if phase.task == CloseTask then ClosingSink else Idle;
    }

    /** Reports each drop once: the instrument's total is the high-water mark. */
    method ReportDropped()
      modifies this`reportedDropped
      ensures reportedDropped == if dropped > old(reportedDropped) then dropped else old(reportedDropped)
    {
      if dropped <= reportedDropped {
        return;
      }
      reportedDropped := dropped;
    }

    method CloseSink()
      requires Valid() && phase.ClosingSink?
      modifies this
      ensures Valid() && View() == Next(old(View()), Action.CloseSink)
    {
      sinkClosed := true;
      phase := Idle;
    }
  }

  // ---- What every reachable state keeps ----

  function InProgress(s: State): seq<Event> {
    if s.phase.Consuming? then [s.phase.event] else []
  }

  function Count(chain: seq<Task>, task: Task): nat {
    if chain == [] then 0
    else Count(chain[..|chain| - 1], task) + Bit(chain[|chain| - 1] == task)
  }

  predicate Busy(s: State, task: Task) {
    match s.phase
    case Idle => false
    case Draining(t) => t == task
    case Consuming(t, _) => t == task
    case Flushing(t) => t == task
    case ClosingSink => task == CloseTask
  }

  function Bit(b: bool): nat {
    if b then 1 else 0
  }

  ghost predicate Fifo(s: State, log: Log) {
    log.accepted == log.consumed + InProgress(s) + s.buffer
  }

  ghost predicate Tallied(log: Log) {
    multiset(log.offered) == multiset(log.accepted) + multiset(log.refused)
  }

  ghost predicate Counted(s: State, log: Log) {
    s.dropped == |log.refused| && s.reported <= s.dropped && |s.buffer| <= s.capacity
  }

  /** Every event is exactly one of refused, buffered, in progress or consumed, and they leave in
      the order they came. */
  ghost predicate Conserved(s: State, log: Log) {
    Fifo(s, log) && Tallied(log) && Counted(s, log)
  }

  /** A non-empty buffer always has a drain queued or running, and at most one is queued. */
  ghost predicate Scheduled(s: State) {
    && Count(s.chain, DrainTask) == Bit(s.drainScheduled)
    && (s.buffer != [] ==> s.drainScheduled || s.phase.Draining? || s.phase.Consuming?)
  }

  /** A closed recorder has exactly one closing task, pending, queued, running or done, and after
      that task's drain the buffer stays empty. */
  ghost predicate ClosesOnce(s: State) {
    && Bit(s.closePending) + Count(s.chain, CloseTask) + Bit(Busy(s, CloseTask)) + Bit(s.sinkClosed)
       == Bit(s.closed)
    && (s.phase == Flushing(CloseTask) || s.phase.ClosingSink? || s.sinkClosed ==> s.buffer == [])
    && (s.sinkClosed ==> !s.phase.Consuming?)
  }

  ghost predicate Inv(s: State, log: Log) {
    Conserved(s, log) && Scheduled(s) && ClosesOnce(s)
  }

  lemma CountAppend(chain: seq<Task>, task: Task, other: Task)
    ensures Count(chain + [task], other) == Count(chain, other) + Bit(task == other)
  {
    assert (chain + [task])[..|chain|] == chain;
  }

  lemma {:induction false} CountRest(chain: seq<Task>, other: Task)
    requires chain != []
    ensures Count(chain, other) == Bit(chain[0] == other) + Count(chain[1..], other)
  {
    if |chain| > 1 {
      CountRest(chain[..|chain| - 1], other);
      assert chain[..|chain| - 1][1..] == chain[1..][..|chain| - 2];
    }
  }

  /** How an action changes the number of queued tasks of one kind. */
  lemma ChainEffect(s: State, a: Action, kind: Task)
    requires Enabled(s, a)
    ensures var added := match a
                         case Record(_) => Bit(kind == DrainTask && Next(s, a).chain != s.chain)
                         case Flush => Bit(kind == FlushTask)
                         case Tick => Bit(kind == TickTask)
                         case EnqueueClose => Bit(kind == CloseTask)
                         case _ => 0;
      var begun := if a.Begin? then Bit(s.chain[0] == kind) else 0;
      Count(Next(s, a).chain, kind) + begun == Count(s.chain, kind) + added
  {
    match a
    case Record(_) => CountAppend(s.chain, DrainTask, kind);
    case Flush => CountAppend(s.chain, FlushTask, kind);
    case Tick => CountAppend(s.chain, TickTask, kind);
    case EnqueueClose => CountAppend(s.chain, CloseTask, kind);
    case Begin => CountRest(s.chain, kind);
    case _ =>
  }

  lemma FifoPreserved(s: State, log: Log, a: Action)
    requires Fifo(s, log) && Enabled(s, a)
    ensures Fifo(Next(s, a), Noted(s, log, a))
  {
    match a
    case Record(event) =>
      assert log.accepted + [event] == log.consumed + InProgress(s) + (s.buffer + [event]);
    case Drain =>
      if s.buffer != [] { assert s.buffer == [s.buffer[0]] + s.buffer[1..]; }
    case Consume =>
      assert log.accepted == (log.consumed + [s.phase.event]) + [] + s.buffer;
    case _ =>
  }

  lemma TalliedPreserved(s: State, log: Log, a: Action)
    requires Tallied(log) && Enabled(s, a)
    ensures Tallied(Noted(s, log, a))
  {
    if a.Record? {
      assert multiset(log.offered + [a.event]) == multiset(log.offered) + multiset{a.event};
    }
  }

  lemma CountedPreserved(s: State, log: Log, a: Action)
    requires Counted(s, log) && Enabled(s, a)
    ensures Counted(Next(s, a), Noted(s, log, a))
  {
  }

  lemma ConservedPreserved(s: State, log: Log, a: Action)
    requires Conserved(s, log) && Enabled(s, a)
    ensures Conserved(Next(s, a), Noted(s, log, a))
  {
    FifoPreserved(s, log, a);
    TalliedPreserved(s, log, a);
    CountedPreserved(s, log, a);
  }

  lemma ScheduledPreserved(s: State, a: Action)
    requires Scheduled(s) && Enabled(s, a)
    ensures Scheduled(Next(s, a))
  {
    ChainEffect(s, a, DrainTask);
    assert (s.chain + [DrainTask])[|s.chain|] == DrainTask;
  }

  lemma ClosesOncePreserved(s: State, a: Action)
    requires ClosesOnce(s) && Enabled(s, a)
    ensures ClosesOnce(Next(s, a))
  {
    ChainEffect(s, a, CloseTask);
  }

  lemma InvPreserved(s: State, log: Log, a: Action)
    requires Inv(s, log) && Enabled(s, a)
    ensures Inv(Next(s, a), Noted(s, log, a))
  {
    ConservedPreserved(s, log, a);
    ScheduledPreserved(s, a);
    ClosesOncePreserved(s, a);
  }

  // ---- Runs ----

  /** The outcome of a list of actions from a new recorder; `None` if one is not enabled. */
  function Run(capacity: nat, actions: seq<Action>): Option<(State, Log)> {
    if actions == [] then Some((Init(capacity), Log([], [], [], [])))
    else
      var before := Run(capacity, actions[..|actions| - 1]);
      var last := actions[|actions| - 1];
      if before.None? || !Enabled(before.value.0, last) then None
      else Some((Next(before.value.0, last), Noted(before.value.0, before.value.1, last)))
  }

  lemma {:induction false} RunKeepsInv(capacity: nat, actions: seq<Action>)
    requires Run(capacity, actions).Some?
    ensures Inv(Run(capacity, actions).value.0, Run(capacity, actions).value.1)
  {
    if actions != [] {
      RunKeepsInv(capacity, actions[..|actions| - 1]);
      var (s, log) := Run(capacity, actions[..|actions| - 1]).value;
      InvPreserved(s, log, actions[|actions| - 1]);
    }
  }

  /** Conservation and order, in every run: consumed events are a prefix of the accepted ones, what
      lies between is in progress or buffered, and every other event was refused and counted. */
  lemma {:induction false} ConservationAndOrder(capacity: nat, actions: seq<Action>)
    requires Run(capacity, actions).Some?
    ensures var (s, log) := Run(capacity, actions).value;
      && log.consumed <= log.accepted
      && log.accepted[|log.consumed|..] == InProgress(s) + s.buffer
      && multiset(log.offered) == multiset(log.accepted) + multiset(log.refused)
      && s.dropped == |log.refused| && |s.buffer| <= s.capacity
  {
    RunKeepsInv(capacity, actions);
    FifoIsPrefix(Run(capacity, actions).value.0, Run(capacity, actions).value.1);
  }

  lemma FifoIsPrefix(s: State, log: Log)
    requires Fifo(s, log)
    ensures log.consumed <= log.accepted && log.accepted[|log.consumed|..] == InProgress(s) + s.buffer
  {
    assert log.accepted == log.consumed + (InProgress(s) + s.buffer);
  }

  lemma {:induction false} ClosedByClose(capacity: nat, actions: seq<Action>)
    requires Run(capacity, actions).Some?
    ensures var s := Run(capacity, actions).value.0;
      (s.closed <==> Close in actions) && s.capacity == capacity
  {
    if actions != [] {
      var init := actions[..|actions| - 1];
      ClosedByClose(capacity, init);
      assert actions == init + [actions[|actions| - 1]];
    }
  }

  /** An event offered is refused if and only if the recorder has been told to close or holds as many
      unconsumed events as fit; every other is taken. */
  lemma {:induction false} RefusedExact(capacity: nat, actions: seq<Action>, event: Event)
    requires Run(capacity, actions).Some?
    ensures Run(capacity, actions + [Record(event)]).Some?
    ensures var (s, log) := Run(capacity, actions).value;
      var log' := Run(capacity, actions + [Record(event)]).value.1;
      var refused := Close in actions || |log.accepted| - |log.consumed| - |InProgress(s)| >= capacity;
      && log'.offered == log.offered + [event]
      && log'.refused == (if refused then log.refused + [event] else log.refused)
      && log'.accepted == (if refused then log.accepted else log.accepted + [event])
  {
    assert (actions + [Record(event)])[..|actions|] == actions;
    RunKeepsInv(capacity, actions);
    ClosedByClose(capacity, actions);
  }

  /** No event is stranded: when the chain has nothing left to do, everything accepted has been
      consumed, and a closed recorder has closed its sink. */
  lemma {:induction false} NothingStranded(capacity: nat, actions: seq<Action>)
    requires Run(capacity, actions).Some?
    requires forall a | Internal(a) :: !Enabled(Run(capacity, actions).value.0, a)
    ensures var (s, log) := Run(capacity, actions).value;
      log.consumed == log.accepted && (s.closed ==> s.sinkClosed)
  {
    RunKeepsInv(capacity, actions);
    Quiescent(Run(capacity, actions).value.0, Run(capacity, actions).value.1);
  }

  lemma Quiescent(s: State, log: Log)
    requires Inv(s, log) && forall a | Internal(a) :: !Enabled(s, a)
    ensures s.buffer == [] && log.consumed == log.accepted && (s.closed ==> s.sinkClosed)
  {
    assert !Enabled(s, EnqueueClose) && !Enabled(s, Begin) && !Enabled(s, Drain);
    assert !Enabled(s, Consume) && !Enabled(s, RunFlush) && !Enabled(s, CloseSink);
  }

  /** Left alone, the chain runs dry: each of its steps lowers this. */
  function Rank(s: State): nat {
    2 * |s.buffer| + 4 * |s.chain| + (if s.closePending then 5 else 0)
    + match s.phase
      case Idle => 0
      case ClosingSink => 1
      case Flushing(_) => 2
      case Draining(_) => 3
      case Consuming(_, _) => 4
  }

  lemma ChainAdvances(s: State, a: Action)
    requires Enabled(s, a) && Internal(a)
    ensures Rank(Next(s, a)) < Rank(s)
  {
  }

  /** From any point of any run, the chain takes a bounded number of steps of its own before it
      stops; what it has then done is `NothingStranded`. */
  lemma {:induction false} RunsDry(capacity: nat, actions: seq<Action>, i: nat)
    requires i <= |actions| && Run(capacity, actions).Some?
    requires forall k | i <= k < |actions| :: Internal(actions[k])
    ensures Run(capacity, actions[..i]).Some?
    ensures Rank(Run(capacity, actions).value.0) + |actions| - i
         <= Rank(Run(capacity, actions[..i]).value.0)
  {
    if i == |actions| {
      assert actions[..i] == actions;
    } else {
      var init := actions[..|actions| - 1];
      RunsDry(capacity, init, i);
      assert init[..i] == actions[..i];
      ChainAdvances(Run(capacity, init).value.0, actions[|actions| - 1]);
    }
  }

  lemma {:induction false} AcceptedFrozen(capacity: nat, actions: seq<Action>, i: nat)
    requires i <= |actions| && Run(capacity, actions).Some?
    ensures Run(capacity, actions[..i]).Some?
    ensures var (s, log) := Run(capacity, actions[..i]).value;
      var (s', log') := Run(capacity, actions).value;
      s.closed ==> s'.closed && log'.accepted == log.accepted
  {
    if i == |actions| {
      assert actions[..i] == actions;
    } else {
      AcceptedFrozen(capacity, actions[..|actions| - 1], i);
      assert actions[..|actions| - 1][..i] == actions[..i];
    }
  }

  lemma ClosingDrained(s: State, log: Log)
    requires Inv(s, log) && s.phase.ClosingSink?
    ensures s.closed && log.consumed == log.accepted
  {
  }

  /** When the sink is closed, every event the recorder ever accepts has been consumed. */
  lemma {:induction false} CloseConsumesEverything(capacity: nat, actions: seq<Action>, i: nat)
    requires i < |actions| && Run(capacity, actions).Some? && actions[i].CloseSink?
    ensures Run(capacity, actions[..i]).Some?
    ensures Run(capacity, actions[..i]).value.1.consumed == Run(capacity, actions).value.1.accepted
  {
    AcceptedFrozen(capacity, actions, i + 1);
    EnabledAt(capacity, actions[..i + 1]);
    assert actions[..i + 1][..i] == actions[..i];
    AcceptedFrozen(capacity, actions, i);
    RunKeepsInv(capacity, actions[..i]);
    var (s, log) := Run(capacity, actions[..i]).value;
    ClosingDrained(s, log);
  }

  lemma {:induction false} EnabledAt(capacity: nat, actions: seq<Action>)
    requires actions != [] && Run(capacity, actions).Some?
    ensures var init := actions[..|actions| - 1];
      Run(capacity, init).Some? && Enabled(Run(capacity, init).value.0, actions[|actions| - 1])
  {
  }
}

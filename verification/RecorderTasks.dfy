/** What the chain does with its tasks: each one queued is begun and ended exactly once, in the order
    they were queued, and a flush that has ended has written out every event taken before it was asked
    for. */
module RecorderTasks {
  import opened Recorder

  // ---- What a run queues and ends ----

  /** The task an action queues. */
  function Queues(s: State, a: Action): seq<Task> {
    match a
    case Record(_) => if s.closed || |s.buffer| >= s.capacity || s.drainScheduled then [] else [DrainTask]
    case Flush => [FlushTask]
    case Tick => [TickTask]
    case EnqueueClose => [CloseTask]
    case _ => []
  }

  /** The task an action ends: a drain task with its drain, a flush or a tick with the flush of the
      sink, the closing task with the closing of the sink. */
  function Ends(s: State, a: Action): seq<Task> {
    match a
    case Drain => if s.phase == Draining(DrainTask) && s.buffer == [] then [DrainTask] else []
    case RunFlush => if s.phase == Flushing(FlushTask) then [FlushTask]
                     else if s.phase == Flushing(TickTask) then [TickTask]
                     else []
    case CloseSink => [CloseTask]
    case _ => []
  }

  /** All tasks queued by a run, in order. */
  function Queued(capacity: nat, actions: seq<Action>): seq<Task>
    requires Run(capacity, actions).Some?
  {
    if actions == [] then []
    else
      var init := actions[..|actions| - 1];
      Queued(capacity, init) + Queues(Run(capacity, init).value.0, actions[|actions| - 1])
  }

  /** All tasks ended by a run, in order. */
  function Ended(capacity: nat, actions: seq<Action>): seq<Task>
    requires Run(capacity, actions).Some?
  {
    if actions == [] then []
    else
      var init := actions[..|actions| - 1];
      Ended(capacity, init) + Ends(Run(capacity, init).value.0, actions[|actions| - 1])
  }

  /** The task in progress. */
  function Current(s: State): seq<Task> {
    match s.phase
    case Idle => []
    case Draining(task) => [task]
    case Consuming(task, _) => [task]
    case Flushing(task) => [task]
    case ClosingSink => [CloseTask]
  }

  /** A drain task never gets as far as the flush. */
  predicate FlushIsDue(s: State) {
    s.phase.Flushing? ==> s.phase.task != DrainTask
  }

  /** What is still to be done, in order. */
  function Pending(s: State): seq<Task> {
    Current(s) + s.chain
  }

  lemma DueStays(s: State, a: Action)
    requires Enabled(s, a) && FlushIsDue(s)
    ensures FlushIsDue(Next(s, a))
  {
  }

  lemma BeginStep(s: State)
    requires Enabled(s, Begin)
    ensures Pending(s) == Pending(Next(s, Begin))
  {
    assert s.chain == [s.chain[0]] + s.chain[1..];
  }

  /** A task in progress stays in progress or is ended. */
  lemma OngoingStep(s: State, a: Action)
    requires Enabled(s, a) && FlushIsDue(s) && !a.Begin?
    ensures Current(s) == Ends(s, a) + Current(Next(s, a))
    ensures s.chain + Queues(s, a) == Next(s, a).chain
  {
  }

  lemma PendingStep(s: State, a: Action)
    requires Enabled(s, a) && FlushIsDue(s)
    ensures Pending(s) + Queues(s, a) == Ends(s, a) + Pending(Next(s, a))
  {
    if a.Begin? {
      BeginStep(s);
    } else {
      OngoingStep(s, a);
      var current := Current(Next(s, a));
      assert Ends(s, a) + current + s.chain + Queues(s, a) == Ends(s, a) + (current + (s.chain + Queues(s, a)));
    }
  }

  lemma Regroup(queued: seq<Task>, ended: seq<Task>, pending: seq<Task>, more: seq<Task>, ends: seq<Task>,
                rest: seq<Task>)
    requires queued == ended + pending && pending + more == ends + rest
    ensures queued + more == ended + ends + rest
  {
    assert queued + more == ended + (pending + more);
  }

  /** Every task ever queued has been ended, or is the one in progress, or still waits in the chain, all
      in the order they were queued: none is lost, repeated or overtaken. */
  lemma {:induction false} TasksInOrder(capacity: nat, actions: seq<Action>)
    requires Run(capacity, actions).Some?
    ensures var s := Run(capacity, actions).value.0;
      FlushIsDue(s) && Queued(capacity, actions) == Ended(capacity, actions) + Pending(s)
  {
    if actions != [] {
      var init, a := actions[..|actions| - 1], actions[|actions| - 1];
      var s := Run(capacity, init).value.0;
      TasksInOrder(capacity, init);
      PendingStep(s, a);
      DueStays(s, a);
      Regroup(Queued(capacity, init), Ended(capacity, init), Pending(s), Queues(s, a), Ends(s, a),
              Pending(Next(s, a)));
    }
  }

  // ---- Flushes, counted ----

  function Requests(actions: seq<Action>): nat {
    if actions == [] then 0
    else Requests(actions[..|actions| - 1]) + Bit(actions[|actions| - 1].Flush?)
  }

  /** How often the sink was flushed for a flush request. */
  function FlushesRun(capacity: nat, actions: seq<Action>): nat
    requires Run(capacity, actions).Some?
  {
    if actions == [] then 0
    else
      var init, a := actions[..|actions| - 1], actions[|actions| - 1];
      FlushesRun(capacity, init) + Bit(a.RunFlush? && Run(capacity, init).value.0.phase == Flushing(FlushTask))
  }

  /** Each flush asked for is queued, in progress or has run. */
  lemma {:induction false} FlushesCounted(capacity: nat, actions: seq<Action>)
    requires Run(capacity, actions).Some?
    ensures var s := Run(capacity, actions).value.0;
      Requests(actions) == Count(s.chain, FlushTask) + Bit(Busy(s, FlushTask)) + FlushesRun(capacity, actions)
  {
    if actions != [] {
      var init, a := actions[..|actions| - 1], actions[|actions| - 1];
      FlushesCounted(capacity, init);
      ChainEffect(Run(capacity, init).value.0, a, FlushTask);
    }
  }

  // ---- What a flush has written out ----

  lemma {:induction false} Earlier(capacity: nat, actions: seq<Action>, i: nat)
    requires Run(capacity, actions).Some? && i <= |actions|
    ensures Run(capacity, actions[..i]).Some?
    ensures var (log, log') := (Run(capacity, actions[..i]).value.1, Run(capacity, actions).value.1);
      log.accepted <= log'.accepted && log.consumed <= log'.consumed
    ensures Queued(capacity, actions[..i]) <= Queued(capacity, actions)
    ensures Ended(capacity, actions[..i]) <= Ended(capacity, actions)
  {
    if i == |actions| {
      assert actions[..i] == actions;
    } else {
      var init := actions[..|actions| - 1];
      Earlier(capacity, init, i);
      assert init[..i] == actions[..i];
    }
  }

  /** The flush task at place `p` has got past its drain. */
  predicate PastDrain(s: State, ended: nat, p: nat) {
    ended > p || (ended == p && s.phase.Flushing?)
  }

  lemma {:induction false} DrainedStep(s: State, log: Log, a: Action, ended: seq<Task>, p: nat, taken: seq<Event>)
    requires Enabled(s, a) && Conserved(s, log) && taken <= log.accepted
    requires |ended| == p && Current(s) != [] ==> Current(s) == [FlushTask]
    requires |ended| == p && Current(s) == [] && s.chain != [] ==> s.chain[0] == FlushTask
    requires PastDrain(s, |ended|, p) ==> taken <= log.consumed
    ensures PastDrain(Next(s, a), |ended + Ends(s, a)|, p) ==> taken <= Noted(s, log, a).consumed
  {
    if |ended| < p {
      assert |Ends(s, a)| <= 1;
    }
  }

  /** Once the flush queued at place `p` is past its drain, everything accepted before it was asked for
      has been consumed. */
  lemma {:induction false} DrainedBefore(capacity: nat, actions: seq<Action>, i: nat)
    requires i < |actions| && Run(capacity, actions).Some? && actions[i].Flush?
    ensures Run(capacity, actions[..i]).Some?
    ensures var (s, log) := Run(capacity, actions).value;
      PastDrain(s, |Ended(capacity, actions)|, |Queued(capacity, actions[..i])|) ==>
        Run(capacity, actions[..i]).value.1.accepted <= log.consumed
  {
    var init, a := actions[..|actions| - 1], actions[|actions| - 1];
    var p := PlaceOf(capacity, actions, i);
    var (s, log) := Run(capacity, init).value;
    TasksInOrder(capacity, init);
    RunKeepsInv(capacity, init);
    assert init[..i] == actions[..i];
    Earlier(capacity, init, i);
    if i < |init| {
      var q := PlaceOf(capacity, init, i);
      DrainedBefore(capacity, init, i);
      DrainedStep(s, log, a, Ended(capacity, init), p, Run(capacity, init[..i]).value.1.accepted);
    }
  }

  /** The place a flush takes among all tasks queued. */
  lemma {:induction false} PlaceOf(capacity: nat, actions: seq<Action>, i: nat) returns (p: nat)
    requires i < |actions| && Run(capacity, actions).Some? && actions[i].Flush?
    ensures Run(capacity, actions[..i]).Some? && p == |Queued(capacity, actions[..i])|
    ensures p < |Queued(capacity, actions)| && Queued(capacity, actions)[p] == FlushTask
  {
    Earlier(capacity, actions, i);
    Earlier(capacity, actions, i + 1);
    assert actions[..i + 1][..i] == actions[..i];
    p := |Queued(capacity, actions[..i])|;
  }

  /** The action that ended the task at place `p`. */
  lemma {:induction false} EndingOf(capacity: nat, actions: seq<Action>, p: nat) returns (k: nat)
    requires Run(capacity, actions).Some? && p < |Ended(capacity, actions)|
    ensures k < |actions| && Run(capacity, actions[..k]).Some?
    ensures |Ended(capacity, actions[..k])| == p
    ensures Ends(Run(capacity, actions[..k]).value.0, actions[k]) == [Ended(capacity, actions)[p]]
  {
    var init := actions[..|actions| - 1];
    if p < |Ended(capacity, init)| {
      k := EndingOf(capacity, init, p);
      assert init[..k] == actions[..k];
    } else {
      k := |init|;
      assert actions[..k] == init;
    }
  }

  /** A flush that has been served: the sink was flushed for it after every event accepted before the
      request had been consumed, and that flush brought the reported drops up to date. `i` is the
      request; it has been served once more tasks have ended than were queued before it. */
  lemma {:induction false} FlushServed(capacity: nat, actions: seq<Action>, i: nat) returns (k: nat)
    requires i < |actions| && Run(capacity, actions).Some? && actions[i].Flush?
    requires Run(capacity, actions[..i]).Some? ==>
               |Queued(capacity, actions[..i])| < |Ended(capacity, actions)|
    ensures i < k < |actions| && actions[k].RunFlush?
    ensures Run(capacity, actions[..i]).Some? && Run(capacity, actions[..k]).Some?
    ensures var (s, log) := Run(capacity, actions[..k]).value;
      && s.phase == Flushing(FlushTask)
      && Run(capacity, actions[..i]).value.1.accepted <= log.consumed
      && Next(s, actions[k]).reported == s.dropped == |log.refused|
  {
    var p := PlaceOf(capacity, actions, i);
    TasksInOrder(capacity, actions);
    k := EndingOf(capacity, actions, p);
    var s := Run(capacity, actions[..k]).value.0;
    EnabledThere(capacity, actions, k);
    QueuedFirst(capacity, actions[..k], actions[k]);
    QueuedGrows(capacity, actions, k, i);
    RunKeepsInv(capacity, actions[..k]);
    DrainedBefore(capacity, actions[..k], i);
    assert actions[..k][..i] == actions[..i];
  }

  lemma {:induction false} EnabledThere(capacity: nat, actions: seq<Action>, k: nat)
    requires Run(capacity, actions).Some? && k < |actions|
    ensures Run(capacity, actions[..k]).Some? && Enabled(Run(capacity, actions[..k]).value.0, actions[k])
  {
    Earlier(capacity, actions, k + 1);
    assert actions[..k + 1][..k] == actions[..k];
  }

  /** A task is queued before it is ended. */
  lemma {:induction false} QueuedFirst(capacity: nat, actions: seq<Action>, a: Action)
    requires Run(capacity, actions).Some? && Enabled(Run(capacity, actions).value.0, a)
    requires Ends(Run(capacity, actions).value.0, a) != []
    ensures |Queued(capacity, actions)| > |Ended(capacity, actions)|
  {
    TasksInOrder(capacity, actions);
  }

  lemma {:induction false} QueuedGrows(capacity: nat, actions: seq<Action>, k: nat, i: nat)
    requires Run(capacity, actions).Some? && k <= |actions| && i <= |actions|
    ensures Run(capacity, actions[..k]).Some? && Run(capacity, actions[..i]).Some?
    ensures k <= i ==> |Queued(capacity, actions[..k])| <= |Queued(capacity, actions[..i])|
  {
    Earlier(capacity, actions, k);
    Earlier(capacity, actions, i);
    if k <= i {
      Earlier(capacity, actions[..i], k);
      assert actions[..i][..k] == actions[..k];
    }
  }

  /** When the chain has nothing left to do, every flush asked for has run, and so has every tick. */
  lemma {:induction false} AllServed(capacity: nat, actions: seq<Action>)
    requires Run(capacity, actions).Some?
    requires forall a | Internal(a) :: !Enabled(Run(capacity, actions).value.0, a)
    ensures Ended(capacity, actions) == Queued(capacity, actions)
    ensures FlushesRun(capacity, actions) == Requests(actions)
  {
    AtRest(Run(capacity, actions).value.0);
    TasksInOrder(capacity, actions);
    FlushesCounted(capacity, actions);
  }

  lemma AtRest(s: State)
    requires forall a | Internal(a) :: !Enabled(s, a)
    ensures s.phase.Idle? && s.chain == []
  {
    assert !Enabled(s, EnqueueClose) && !Enabled(s, Begin) && !Enabled(s, Drain);
    assert !Enabled(s, Consume) && !Enabled(s, RunFlush) && !Enabled(s, CloseSink);
  }

  // ---- What the other tasks do ----

  predicate TickIsIdle(s: State) {
    !s.phase.Idle? && !s.phase.ClosingSink? && s.phase.task == TickTask ==> s.phase.Flushing?
  }

  /** A tick flushes the sink and consumes nothing. */
  lemma {:induction false} TicksConsumeNothing(capacity: nat, actions: seq<Action>)
    requires Run(capacity, actions).Some?
    ensures var s := Run(capacity, actions).value.0;
      TickIsIdle(s) && (Busy(s, TickTask) ==> !Enabled(s, Drain) && !Enabled(s, Consume))
  {
    if actions != [] {
      TicksConsumeNothing(capacity, actions[..|actions| - 1]);
    }
  }

  /** Each flush of the sink, for whatever task, brings the reported drops up to date. */
  lemma {:induction false} FlushReports(capacity: nat, actions: seq<Action>)
    requires Run(capacity, actions).Some? && Enabled(Run(capacity, actions).value.0, RunFlush)
    ensures var (s, log) := Run(capacity, actions).value;
      Next(s, RunFlush).reported == s.dropped == |log.refused|
  {
    RunKeepsInv(capacity, actions);
  }

  /** The sink is closed only after a flush for the closing task, and that flush found everything ever
      accepted consumed. */
  lemma {:induction false} ClosingFlushes(capacity: nat, actions: seq<Action>) returns (k: nat)
    requires Run(capacity, actions).Some?
    requires var s := Run(capacity, actions).value.0; s.phase.ClosingSink? || s.sinkClosed
    ensures k < |actions| && actions[k].RunFlush? && Run(capacity, actions[..k]).Some?
    ensures var (s, log) := Run(capacity, actions[..k]).value;
      s.phase == Flushing(CloseTask) && log.consumed == Run(capacity, actions).value.1.accepted
  {
    var init, a := actions[..|actions| - 1], actions[|actions| - 1];
    var (s, log) := Run(capacity, init).value;
    RunKeepsInv(capacity, init);
    if a.RunFlush? && s.phase == Flushing(CloseTask) {
      k := |init|;
    } else {
      k := ClosingFlushes(capacity, init);
      assert init[..k] == actions[..k];
      ClosedTakesNothing(s, log, a);
    }
  }

  lemma ClosedTakesNothing(s: State, log: Log, a: Action)
    requires Inv(s, log) && Enabled(s, a) && (s.phase.ClosingSink? || s.sinkClosed)
    ensures Noted(s, log, a).accepted == log.accepted
  {
  }
}

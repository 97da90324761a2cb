/** What decides a transaction: in every run each call takes its own steps in the order the code does,
    so a COMMIT is executed only for a callback that fulfilled, a ROLLBACK only for one that rejected,
    and the caller is told which. */
module TransactionOutcomes {
  import opened Wrappers
  import opened Transactions

  // ---- Runs, step by step ----

  lemma {:induction false} RunPrefix(s: Sys, actions: seq<Action>, n: nat)
    requires Run(s, actions).Some? && n < |actions|
    ensures Run(s, actions[..n]).Some? && Enabled(Run(s, actions[..n]).value, actions[n])
    ensures Run(s, actions[..n + 1]) == Some(Next(Run(s, actions[..n]).value, actions[n]))
    decreases n
  {
    if n == 0 {
      assert actions[..1][1..] == [];
    } else {
      RunPrefix(Next(s, actions[0]), actions[1..], n - 1);
      assert actions[..n][1..] == actions[1..][..n - 1];
      assert actions[..n + 1][1..] == actions[1..][..n];
    }
  }

  /** A call's own steps, its queries left out. */
  function Turns(actions: seq<Action>, slot: nat): seq<Action> {
    if actions == [] then []
    else Turns(actions[..|actions| - 1], slot) + Turn(actions[|actions| - 1], slot)
  }

  function Turn(a: Action, slot: nat): seq<Action> {
    if a.Arrive? || a.Query? || a.LateQuery? || a.slot != slot then [] else [a]
  }

  // ---- The order of a call's steps ----

  /** The way through `withTransaction` up to the hand-back of the connection, for each outcome. */
  predicate Path(turns: seq<Action>, slot: nat, outcome: Outcome) {
    var open := [Grant(slot), RunBegin(slot, true)];
    match outcome
    case BeginFailed => turns == [Grant(slot), RunBegin(slot, false)]
    case Returned => turns == open + [Settle(slot, true), RunCommit(slot, true)]
    case CommitFailed => turns == open + [Settle(slot, true), RunCommit(slot, false)]
    case CallbackFailed =>
      || turns == open + [Settle(slot, false), RunRollback(slot, true)]
      || turns == open + [Settle(slot, false), RunRollback(slot, false)]
  }

  predicate Follows(turns: seq<Action>, slot: nat, pc: Pc) {
    match pc
    case Waiting(_) => turns == []
    case Connected => turns == [Grant(slot)]
    case InCallback => turns == [Grant(slot), RunBegin(slot, true)]
    case Committing => turns == [Grant(slot), RunBegin(slot, true), Settle(slot, true)]
    case RollingBack => turns == [Grant(slot), RunBegin(slot, true), Settle(slot, false)]
    case Releasing(outcome) => Path(turns, slot, outcome)
    case Done(outcome) =>
      turns != [] && turns[|turns| - 1] == Release(slot) && Path(turns[..|turns| - 1], slot, outcome)
  }

  lemma FollowsNext(s: Sys, a: Action, turns: seq<Action>, slot: nat)
    requires Enabled(s, a) && slot < |s.calls| && Follows(turns, slot, s.calls[slot])
    ensures slot < |Next(s, a).calls| && Follows(turns + Turn(a, slot), slot, Next(s, a).calls[slot])
  {
    assert turns + [] == turns;
    assert (turns + [a])[..|turns|] == turns;
  }

  lemma {:induction false} NoTurnsYet(actions: seq<Action>, slot: nat)
    requires Run(INIT, actions).Some? && slot >= |Run(INIT, actions).value.calls|
    ensures Turns(actions, slot) == []
  {
    if actions != [] {
      var n := |actions| - 1;
      RunPrefix(INIT, actions, n);
      assert actions[..n + 1] == actions;
      NoTurnsYet(actions[..n], slot);
    }
  }

  /** In every run, late queries or not, the steps of each call are those of the code, in its order, as
      far as the call has come. */
  lemma {:induction false} CallsFollowCode(actions: seq<Action>, slot: nat)
    requires Run(INIT, actions).Some? && slot < |Run(INIT, actions).value.calls|
    ensures Follows(Turns(actions, slot), slot, Run(INIT, actions).value.calls[slot])
  {
    var n := |actions| - 1;
    RunPrefix(INIT, actions, n);
    assert actions[..n + 1] == actions;
    var s := Run(INIT, actions[..n]).value;
    if slot == |s.calls| {
      NoTurnsYet(actions[..n], slot);
    } else {
      CallsFollowCode(actions[..n], slot);
      FollowsNext(s, actions[n], Turns(actions[..n], slot), slot);
    }
  }

  lemma {:induction false} TurnTaken(actions: seq<Action>, slot: nat, a: Action)
    requires Turn(a, slot) == [a]
    ensures a in Turns(actions, slot) <==> a in actions
  {
    if actions != [] {
      var n := |actions| - 1;
      TurnTaken(actions[..n], slot, a);
      assert actions == actions[..n] + [actions[n]];
    }
  }

  // ---- Outcomes ----

  /** Each outcome has exactly one cause: the caller is given its value if and only if the COMMIT of its
      own transaction succeeded, and the callback's error if and only if the callback rejected. */
  lemma {:induction false} OutcomeExact(actions: seq<Action>, slot: nat)
    requires Run(INIT, actions).Some? && slot < |Run(INIT, actions).value.calls|
    requires Closed(Run(INIT, actions).value.calls[slot])
    ensures var outcome := Run(INIT, actions).value.calls[slot].outcome;
      && (outcome.BeginFailed? <==> RunBegin(slot, false) in actions)
      && (outcome.CallbackFailed? <==> Settle(slot, false) in actions)
      && (outcome.Returned? <==> RunCommit(slot, true) in actions)
      && (outcome.CommitFailed? <==> RunCommit(slot, false) in actions)
      && (outcome.Returned? || outcome.CommitFailed? <==> Settle(slot, true) in actions)
  {
    CallsFollowCode(actions, slot);
    TurnTaken(actions, slot, RunBegin(slot, false));
    TurnTaken(actions, slot, Settle(slot, false));
    TurnTaken(actions, slot, RunCommit(slot, true));
    TurnTaken(actions, slot, RunCommit(slot, false));
    TurnTaken(actions, slot, Settle(slot, true));
    ClosedMembers(Turns(actions, slot), slot, Run(INIT, actions).value.calls[slot]);
  }

  lemma ClosedMembers(turns: seq<Action>, slot: nat, pc: Pc)
    requires Closed(pc) && Follows(turns, slot, pc)
    ensures pc.outcome.BeginFailed? <==> RunBegin(slot, false) in turns
    ensures pc.outcome.CallbackFailed? <==> Settle(slot, false) in turns
    ensures pc.outcome.Returned? <==> RunCommit(slot, true) in turns
    ensures pc.outcome.CommitFailed? <==> RunCommit(slot, false) in turns
    ensures pc.outcome.Returned? || pc.outcome.CommitFailed? <==> Settle(slot, true) in turns
  {
    if pc.Done? {
      PathMembers(turns[..|turns| - 1], slot, pc.outcome);
      assert turns == turns[..|turns| - 1] + [Release(slot)];
    } else {
      PathMembers(turns, slot, pc.outcome);
    }
  }

  lemma PathMembers(turns: seq<Action>, slot: nat, outcome: Outcome)
    requires Path(turns, slot, outcome)
    ensures outcome.BeginFailed? <==> RunBegin(slot, false) in turns
    ensures outcome.CallbackFailed? <==> Settle(slot, false) in turns
    ensures outcome.Returned? <==> RunCommit(slot, true) in turns
    ensures outcome.CommitFailed? <==> RunCommit(slot, false) in turns
    ensures outcome.Returned? || outcome.CommitFailed? <==> Settle(slot, true) in turns
  {
  }

  /** What the connection executed, entry by entry, is what the steps issued. */
  lemma {:induction false} Origin(actions: seq<Action>, k: nat) returns (i: nat)
    requires Run(INIT, actions).Some? && k < |Run(INIT, actions).value.log|
    ensures i < |actions| && Run(INIT, actions[..i]).Some? && |Run(INIT, actions[..i]).value.log| == k
    ensures var entry := Run(INIT, actions).value.log[k];
      Issued(actions[i]) == [entry.statement] && actions[i].slot == entry.slot
  {
    var n := |actions| - 1;
    RunPrefix(INIT, actions, n);
    assert actions[..n + 1] == actions;
    if k < |Run(INIT, actions[..n]).value.log| {
      i := Origin(actions[..n], k);
      assert actions[..n][..i] == actions[..i];
    } else {
      i := n;
    }
  }

  predicate Ends(statement: Statement) {
    statement.Commit? || statement.Rollback?
  }

  /** A COMMIT in the log comes after its own callback fulfilled, a ROLLBACK after it rejected, and no
      callback does both. */
  lemma {:induction false} EndsAsSettled(actions: seq<Action>, k: nat) returns (i: nat)
    requires Run(INIT, actions).Some? && k < |Run(INIT, actions).value.log|
    requires Ends(Run(INIT, actions).value.log[k].statement)
    ensures var Entry(slot, statement) := Run(INIT, actions).value.log[k];
      && i < |actions| && Run(INIT, actions[..i]).Some? && |Run(INIT, actions[..i]).value.log| == k
      && Issued(actions[i]) == [statement]
      && Settle(slot, statement.Commit?) in actions[..i]
      && Settle(slot, !statement.Commit?) !in actions
  {
    i := Origin(actions, k);
    var Entry(slot, statement) := Run(INIT, actions).value.log[k];
    RunPrefix(INIT, actions, i);
    CallsFollowCode(actions[..i], slot);
    TurnTaken(actions[..i], slot, Settle(slot, statement.Commit?));
    SettlesOnce(actions, i, slot, statement.Commit?);
  }

  lemma {:induction false} CallsStay(actions: seq<Action>, i: nat)
    requires Run(INIT, actions).Some? && i <= |actions|
    ensures Run(INIT, actions[..i]).Some?
    ensures |Run(INIT, actions[..i]).value.calls| <= |Run(INIT, actions).value.calls|
  {
    if i == |actions| {
      assert actions[..i] == actions;
    } else {
      var n := |actions| - 1;
      RunPrefix(INIT, actions, n);
      assert actions[..n + 1] == actions;
      CallsStay(actions[..n], i);
      assert actions[..n][..i] == actions[..i];
    }
  }

  lemma {:induction false} SettlesOnce(actions: seq<Action>, i: nat, slot: nat, fulfilled: bool)
    requires Run(INIT, actions).Some? && i <= |actions| && Settle(slot, fulfilled) in actions[..i]
    requires Run(INIT, actions[..i]).Some? && slot < |Run(INIT, actions[..i]).value.calls|
    ensures Settle(slot, !fulfilled) !in actions
  {
    CallsStay(actions, i);
    CallsFollowCode(actions, slot);
    TurnTaken(actions, slot, Settle(slot, fulfilled));
    TurnTaken(actions, slot, Settle(slot, !fulfilled));
    assert Settle(slot, fulfilled) in actions;
    OneSettlement(Turns(actions, slot), slot, Run(INIT, actions).value.calls[slot], fulfilled);
  }

  lemma OneSettlement(turns: seq<Action>, slot: nat, pc: Pc, fulfilled: bool)
    requires Follows(turns, slot, pc) && Settle(slot, fulfilled) in turns
    ensures Settle(slot, !fulfilled) !in turns
  {
  }
}

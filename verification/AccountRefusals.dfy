/**
 * When a disciplined release is refused. Its guard compares the new available balance, computed
 * from the first load, with the balance at the second; it fails exactly when other calls have
 * taken enough from the available balance in between.
 */
module AccountRefusals {
  import opened Wrappers
  import opened AccountSpec
  import opened AccountSafety
  import opened ConcurrentAccount
  import opened Sums

  /** The thread is about to compare a release of its amount with the balance. */
  predicate AtGuard(s: State, t: nat) {
    t < |s.threads| && s.threads[t].Busy? && s.threads[t].at.LoadGuard?
  }

  predicate IsRefused(s: State, t: nat)
    requires AtGuard(s, t)
  {
    Advance(s, t).threads[t].Idle?
  }

  /** The exact condition, in any state that a disciplined run reaches: the release is refused
      if and only if what has been taken from the available balance since the first load exceeds
      the other holds and the calls between their two writes. A refusal changes neither atomic
      and leaves the hold in place, and the caller is told the amounts that were compared. */
  lemma RefusalIsExact(s: State, initial: int, t: nat)
    requires Covered(s, initial) && Claimed(s) && AtGuard(s, t)
    ensures
      var amount, taken := s.threads[t].op.amount, s.threads[t].at.current - s.available;
      && (IsRefused(s, t) <==> taken > s.history.held - amount + SumBy(BetweenWrites, s.threads))
      && 0 <= s.history.held - amount + SumBy(BetweenWrites, s.threads)
    ensures
      var s' := Advance(s, t);
      && s'.balance == s.balance && s'.available == s.available && s'.history.held == s.history.held
      && var current, amount := s.threads[t].at.current, s.threads[t].op.amount;
         IsRefused(s, t) ==>
           && |s'.history.calls| == |s.history.calls| + 1
           && s'.history.calls[|s.history.calls|].result ==
                Failure(if current + amount > I64_MAX then InvalidAmount else ReleaseExceedsHeld(current, s.balance, amount))
  {
    MeasuresNonNegative(s);
    assert WellFormed(s.threads[t]);
    assert Claim(s.threads[t]) <= SumBy(Claim, s.threads);
  }

  // ----- over runs -----

  /** Event i is the first load of the release that thread t is running at the end of the run,
      and the thread has stood still since. */
  ghost predicate LoadedAt(s: State, events: seq<Event>, t: nat, i: nat)
    requires i < |events|
  {
    && AtGuard(Run(s, events), t) && events[i] == Step(t)
    && Run(s, events[..i]).available == Run(s, events).threads[t].at.current
    && (forall j :: i < j <= |events| ==>
          t < |Run(s, events[..j]).threads| && Run(s, events[..j]).threads[t] == Run(s, events).threads[t])
  }

  lemma StepReachesGuard(s: State, e: Event, t: nat)
    requires t < |s.threads| && AtGuard(Execute(s, e), t)
    ensures
      || (e == Step(t) && Execute(s, e).threads[t].at.current == s.available && Execute(s, e).available == s.available)
      || (e != Step(t) && Execute(s, e).threads[t] == s.threads[t])
  {
    if e == Step(t) && s.threads[t].Busy? {
      AdvanceReachesGuard(CountStep(Tick(s)), t);
    } else if e.Step? && e.thread < |s.threads| && s.threads[e.thread].Busy? {
      AdvanceFrame(CountStep(Tick(s)), e.thread);
    }
  }

  lemma AdvanceReachesGuard(s: State, t: nat)
    requires t < |s.threads| && s.threads[t].Busy? && AtGuard(Advance(s, t), t)
    ensures Advance(s, t).threads[t].at.current == s.available && Advance(s, t).available == s.available
  {
  }

  lemma {:induction false} RunKeepsThreads(s: State, events: seq<Event>)
    ensures |Run(s, events).threads| == |s.threads|
  {
    if events != [] {
      RunKeepsThreads(s, events[..|events| - 1]);
    }
  }

  /** A thread at its guard got there by a load, which it has not left since. */
  lemma {:induction false} GuardWasLoaded(s: State, events: seq<Event>, t: nat) returns (i: nat)
    requires AtGuard(Run(s, events), t) && t < |s.threads| && s.threads[t].Idle?
    ensures i < |events| && LoadedAt(s, events, t, i)
    decreases |events|
  {
    var n := |events| - 1;
    if events == [] {
      assert false;
    }
    var before, e := events[..n], events[n];
    RunKeepsThreads(s, before);
    StepReachesGuard(Run(s, before), e, t);
    if e == Step(t) {
      i := n;
      assert events[..|events|] == events;
    } else {
      i := GuardWasLoaded(s, before, t);
      LoadedEarlier(s, events, t, i);
    }
  }

  lemma LoadedEarlier(s: State, events: seq<Event>, t: nat, i: nat)
    requires events != [] && i < |events| - 1 && AtGuard(Run(s, events), t)
    requires LoadedAt(s, events[..|events| - 1], t, i)
    requires Run(s, events).threads[t] == Run(s, events[..|events| - 1]).threads[t]
    ensures LoadedAt(s, events, t, i)
  {
    var before := events[..|events| - 1];
    forall j | i < j <= |events|
      ensures t < |Run(s, events[..j]).threads| && Run(s, events[..j]).threads[t] == Run(s, events).threads[t]
    {
      if j < |events| {
        assert events[..j] == before[..j];
      } else {
        assert events[..j] == events;
      }
    }
    assert events[..i] == before[..i];
  }

  /** A step by which a debit or a hold takes its amount from the available balance. */
  ghost predicate Takes(s: State, e: Event) {
    && e.Step? && e.thread < |s.threads| && s.threads[e.thread].Busy? && s.threads[e.thread].at.CasAvailable?
    && (s.threads[e.thread].op.DebitOp? || s.threads[e.thread].op.HoldOp?)
    && Execute(s, e).available == s.available - s.threads[e.thread].op.amount < s.available
  }

  lemma OnlyTakingLowers(s: State, e: Event)
    requires forall t :: 0 <= t < |s.threads| ==> WellFormed(s.threads[t])
    requires Execute(s, e).available < s.available
    ensures Takes(s, e)
  {
    assert e.Step? && e.thread < |s.threads| && s.threads[e.thread].Busy?;
    assert WellFormed(s.threads[e.thread]);
  }

  /** If the available balance is lower at the end than after `i` events, some later event took
      from it. */
  lemma {:induction false} LoweredBetween(initial: int, threads: nat, events: seq<Event>, i: nat) returns (k: nat)
    requires IsI64(initial) && Disciplined(Initial(initial, threads), events) && i <= |events|
    requires Run(Initial(initial, threads), events).available < Run(Initial(initial, threads), events[..i]).available
    ensures i <= k < |events| && Takes(Run(Initial(initial, threads), events[..k]), events[k])
    decreases |events|
  {
    var s0, n := Initial(initial, threads), |events| - 1;
    assert events[..|events|] == events;
    assert i < |events|;
    var before := events[..n];
    DisciplinedRunIsCovered(initial, threads, before);
    if Run(s0, events).available < Run(s0, before).available {
      k := n;
      OnlyTakingLowers(Run(s0, before), events[n]);
    } else {
      assert before[..i] == events[..i];
      k := LoweredBetween(initial, threads, before, i);
      assert before[..k] == events[..k];
    }
  }

  /** In every disciplined run, a release that is refused was overtaken: after it loaded the
      available balance (event i) and before its guard, another thread's debit or hold took its
      amount (event k). Without such an event the release passes its guard. */
  lemma RefusedReleaseWasOvertaken(initial: int, threads: nat, events: seq<Event>, t: nat) returns (i: nat, k: nat)
    requires IsI64(initial) && Disciplined(Initial(initial, threads), events)
    requires AtGuard(Run(Initial(initial, threads), events), t) && IsRefused(Run(Initial(initial, threads), events), t)
    ensures i < k < |events| && LoadedAt(Initial(initial, threads), events, t, i)
    ensures Takes(Run(Initial(initial, threads), events[..k]), events[k]) && events[k].thread != t
  {
    var s0 := Initial(initial, threads);
    var s := Run(s0, events);
    DisciplinedRunIsCovered(initial, threads, events);
    RefusalIsExact(s, initial, t);
    RunKeepsThreads(s0, events);
    i := GuardWasLoaded(s0, events, t);
    LoadChangesNothing(s0, events, t, i);
    k := LoweredBetween(initial, threads, events, i + 1);
    assert Run(s0, events[..k]).threads[t] == s.threads[t];
  }

  lemma LoadChangesNothing(s: State, events: seq<Event>, t: nat, i: nat)
    requires i < |events| && LoadedAt(s, events, t, i)
    ensures Run(s, events[..i + 1]).available == Run(s, events[..i]).available
  {
    assert events[..i + 1][..i] == events[..i];
    assert AtGuard(Run(s, events[..i + 1]), t);
    RunKeepsThreads(s, events[..i]);
    RunKeepsThreads(s, events[..i + 1]);
    StepReachesGuard(Run(s, events[..i]), Step(t), t);
  }
}

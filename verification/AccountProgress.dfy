/**
 * How long the retry loops of the interleaved account can run. A compare-exchange fails only
 * if another call has written the atomic since the load, and each call writes each atomic at
 * most once. No discipline is assumed: the bounds hold on every run.
 */
module AccountProgress {
  import opened AccountSpec
  import opened Sums
  import opened ConcurrentAccount

  /** While no write has happened since a load, the atomic still holds the loaded value; each
      failure so far is charged to a different earlier write. */
  ghost predicate ThreadCounted(th: Thread, s: State) {
    th.Busy? ==>
      var h := s.history;
      && WellFormed(th)
      && th.failsAvailable < h.started && th.failsBalance < h.started
      && (!th.op.CreditOp? ==> th.failsBalance == 0)
      && match th.at
         case CasAvailable(seen, v) => Charged(th.failsAvailable, v, h.writesAvailable, seen, s.available)
         case LoadGuard(seen, v) => Charged(th.failsAvailable, v, h.writesAvailable, seen, s.available)
         case CreditCas(_, seen, v) => Charged(th.failsAvailable, v, h.writesAvailable, seen, s.available)
         case CasBalance(seen, v) =>
           th.failsAvailable == 0 && Charged(th.failsBalance, v, h.writesBalance, seen, s.balance)
         case LoadBalance => th.failsAvailable == 0 && th.failsBalance <= h.writesBalance
         case CheckCall => th.failsAvailable == 0 && th.failsBalance == 0
         case SubBalance(_) => true
         case _ => th.failsAvailable <= h.writesAvailable
  }

  predicate Charged(fails: nat, version: nat, writes: nat, seen: int, current: int) {
    fails <= version <= writes && (version == writes ==> seen == current)
  }

  /** A credit retries on both atomics, every other operation on one. */
  function MaxFails(op: Operation, calls: int): int {
    if op.CreditOp? then 2 * (calls - 1) else calls - 1
  }

  ghost predicate AllCharged(s: State) {
    forall t :: 0 <= t < |s.threads| ==> ThreadCounted(s.threads[t], s)
  }

  /** Each call has at most one write to each atomic, used or still to come. */
  ghost predicate WritesFit(s: State) {
    && s.history.writesAvailable + SumBy(Unlinearized, s.threads) <= s.history.started
    && s.history.writesBalance + SumBy(UnwrittenBalance, s.threads) <= s.history.started
  }

  ghost predicate CallsFit(h: History) {
    forall i :: 0 <= i < |h.calls| ==> h.calls[i].fails <= MaxFails(h.calls[i].op, h.started)
  }

  /** `owed` is a step that has been counted but not yet taken. */
  ghost predicate Totalled(s: State, owed: nat) {
    var h := s.history;
    && |h.calls| + SumBy(Running, s.threads) == h.started
    && h.fails == SumBy(CallFails, h.calls) + SumBy(Fails, s.threads)
    && h.steps <= 5 * |h.calls| + 3 * h.fails + SumBy(Progress, s.threads) + owed
  }

  ghost predicate Counted(s: State, owed: nat) {
    AllCharged(s) && WritesFit(s) && CallsFit(s.history) && Totalled(s, owed)
  }

  lemma AdvanceThread(s: State, t: nat)
    requires t < |s.threads| && s.threads[t].Busy? && ThreadCounted(s.threads[t], s)
    requires s.history.writesAvailable + Unlinearized(s.threads[t]) <= s.history.started
    requires s.history.writesBalance + UnwrittenBalance(s.threads[t]) <= s.history.started
    ensures ThreadCounted(Advance(s, t).threads[t], Advance(s, t))
  {
  }

  lemma AdvanceWrites(s: State, t: nat)
    requires t < |s.threads| && s.threads[t].Busy? && WellFormed(s.threads[t])
    ensures
      var s' := Advance(s, t);
      && s'.history.started == s.history.started
      && (s'.history.writesAvailable == s.history.writesAvailable ==> s'.available == s.available)
      && (s'.history.writesBalance == s.history.writesBalance ==> s'.balance == s.balance)
      && s.history.writesAvailable <= s'.history.writesAvailable
      && s.history.writesBalance <= s'.history.writesBalance
      && s'.history.writesAvailable + Unlinearized(s'.threads[t]) <= s.history.writesAvailable + Unlinearized(s.threads[t])
      && s'.history.writesBalance + UnwrittenBalance(s'.threads[t]) <= s.history.writesBalance + UnwrittenBalance(s.threads[t])
  {
  }

  /** What a step of thread t adds to the counts: it counts a failure, or makes progress, or
      finishes a call that takes over the thread's failures. */
  ghost predicate CountsStep(s: State, s': State, t: nat)
    requires t < |s.threads| && t < |s'.threads|
  {
    var th, th' := s.threads[t], s'.threads[t];
    && s'.threads == s.threads[t := th'] && th.Busy?
    && s'.history.started == s.history.started && s'.history.steps == s.history.steps
    && if th'.Busy? then
         && s'.history.calls == s.history.calls
         && s'.history.fails - s.history.fails == Fails(th') - Fails(th)
         && Progress(th) + 1 <= 3 * (s'.history.fails - s.history.fails) + Progress(th')
       else
         && |s'.history.calls| == |s.history.calls| + 1
         && s'.history.calls[..|s.history.calls|] == s.history.calls
         && s'.history.calls[|s.history.calls|].fails == Fails(th) <= MaxFails(th.op, s.history.started)
         && s'.history.calls[|s.history.calls|].op == th.op
         && s'.history.fails == s.history.fails
         && Progress(th) + 1 <= 5
  }

  lemma AdvanceCalls(s: State, t: nat)
    requires t < |s.threads| && s.threads[t].Busy? && ThreadCounted(s.threads[t], s)
    ensures |Advance(s, t).threads| == |s.threads| && CountsStep(s, Advance(s, t), t)
  {
    AdvanceFrame(s, t);
  }

  lemma AdvanceKeepsCharged(s: State, t: nat)
    requires t < |s.threads| && s.threads[t].Busy? && AllCharged(s) && WritesFit(s)
    ensures AllCharged(Advance(s, t)) && WritesFit(Advance(s, t))
  {
    var s' := Advance(s, t);
    SumByNonNegative(Unlinearized, s.threads);
    SumByNonNegative(UnwrittenBalance, s.threads);
    AdvanceFrame(s, t);
    AdvanceThread(s, t);
    AdvanceWrites(s, t);
    SumByUpdate(Unlinearized, s.threads, t, s'.threads[t]);
    SumByUpdate(UnwrittenBalance, s.threads, t, s'.threads[t]);
    forall u | 0 <= u < |s.threads| ensures ThreadCounted(s'.threads[u], s') {
      OthersStayCharged(s.threads[u], s, s');
    }
  }

  lemma OthersStayCharged(th: Thread, s: State, s': State)
    requires ThreadCounted(th, s) && s.history.started <= s'.history.started
    requires s.history.writesAvailable <= s'.history.writesAvailable
    requires s.history.writesBalance <= s'.history.writesBalance
    requires s'.history.writesAvailable == s.history.writesAvailable ==> s'.available == s.available
    requires s'.history.writesBalance == s.history.writesBalance ==> s'.balance == s.balance
    ensures ThreadCounted(th, s')
  {
  }

  lemma AdvanceKeepsTotals(s: State, t: nat)
    requires t < |s.threads| && s.threads[t].Busy? && ThreadCounted(s.threads[t], s)
    requires CallsFit(s.history) && Totalled(s, 1)
    ensures CallsFit(Advance(s, t).history) && Totalled(Advance(s, t), 0)
  {
    AdvanceCalls(s, t);
    CountedStepKeepsTotals(s, Advance(s, t), t);
  }

  lemma CountedStepKeepsTotals(s: State, s': State, t: nat)
    requires t < |s.threads| == |s'.threads| && CountsStep(s, s', t) && CallsFit(s.history) && Totalled(s, 1)
    ensures CallsFit(s'.history) && Totalled(s', 0)
  {
    var th' := s'.threads[t];
    SumByUpdate(Running, s.threads, t, th');
    SumByUpdate(Fails, s.threads, t, th');
    SumByUpdate(Progress, s.threads, t, th');
    if th'.Idle? {
      var c := s'.history.calls[|s.history.calls|];
      assert s'.history.calls == s.history.calls + [c];
      SumByAppend(CallFails, s.history.calls, [c]);
    }
  }

  lemma StartKeepsCounted(s: State, t: nat, op: Operation)
    requires t < |s.threads| && s.threads[t].Idle? && Counted(s, 0)
    ensures Counted(Start(s, t, op), 0)
  {
    var s' := Start(s, t, op);
    SumByUpdate(Unlinearized, s.threads, t, s'.threads[t]);
    SumByUpdate(UnwrittenBalance, s.threads, t, s'.threads[t]);
    SumByUpdate(Running, s.threads, t, s'.threads[t]);
    SumByUpdate(Fails, s.threads, t, s'.threads[t]);
    SumByUpdate(Progress, s.threads, t, s'.threads[t]);
    forall u | 0 <= u < |s.threads| ensures ThreadCounted(s'.threads[u], s') {
      if u != t {
        OthersStayCharged(s.threads[u], s, s');
      }
    }
  }

  lemma ExecuteKeepsCounted(s: State, e: Event)
    requires Counted(s, 0)
    ensures Counted(Execute(s, e), 0)
  {
    SameCounts(s, Tick(s), 0);
    match e
    case Step(t) =>
      if t < |s.threads| && s.threads[t].Busy? {
        var s0 := CountStep(Tick(s));
        SameCounts(s, s0, 1);
        assert ThreadCounted(s0.threads[t], s0);
        AdvanceKeepsCharged(s0, t);
        AdvanceKeepsTotals(s0, t);
      }
    case Invoke(t, op) =>
      if t < |s.threads| && s.threads[t].Idle? {
        StartKeepsCounted(Tick(s), t, op);
      }
    case ChangeStatus(_) => SameCounts(s, Execute(s, e), 0);
  }

  lemma SameCounts(s: State, s': State, owed: nat)
    requires Counted(s, 0) && s'.balance == s.balance && s'.available == s.available && s'.threads == s.threads
    requires s'.history == s.history.(time := s'.history.time, steps := s.history.steps + owed)
    ensures Counted(s', owed)
  {
    forall u | 0 <= u < |s.threads| ensures ThreadCounted(s'.threads[u], s') {
      OthersStayCharged(s.threads[u], s, s');
    }
  }

  lemma {:induction false} RunIsCounted(initial: int, threads: nat, events: seq<Event>)
    ensures Counted(Run(Initial(initial, threads), events), 0)
  {
    var s0 := Initial(initial, threads);
    if events == [] {
      SumsOfIdle(s0.threads);
    } else {
      RunIsCounted(initial, threads, events[..|events| - 1]);
      ExecuteKeepsCounted(Run(s0, events[..|events| - 1]), events[|events| - 1]);
    }
  }

  lemma {:induction false} SumsOfIdle(threads: seq<Thread>)
    requires forall t :: 0 <= t < |threads| ==> threads[t].Idle?
    ensures SumBy(Unlinearized, threads) == SumBy(UnwrittenBalance, threads) == SumBy(Running, threads) == 0
    ensures SumBy(Fails, threads) == SumBy(Progress, threads) == 0
  {
    if threads != [] {
      SumsOfIdle(threads[1..]);
    }
  }

  function One(c: Call): int { 1 }

  lemma {:induction false} SumOfOnes(calls: seq<Call>)
    ensures SumBy(One, calls) == |calls|
  {
    if calls != [] {
      SumOfOnes(calls[1..]);
    }
  }

  lemma SumsAreBounded(s: State)
    requires Counted(s, 0)
    ensures
      var n: int := s.history.started;
      && SumBy(Fails, s.threads) <= 2 * (n - 1) * SumBy(Running, s.threads)
      && SumBy(Progress, s.threads) <= 4 * SumBy(Running, s.threads)
      && SumBy(CallFails, s.history.calls) <= 2 * (n - 1) * |s.history.calls|
  {
    var n: int := s.history.started;
    forall t | 0 <= t < |s.threads|
      ensures Fails(s.threads[t]) <= 2 * (n - 1) * Running(s.threads[t]) && Progress(s.threads[t]) <= 4 * Running(s.threads[t])
    {
      assert ThreadCounted(s.threads[t], s);
    }
    SumByScaled(Fails, Running, 2 * (n - 1), s.threads);
    SumByScaled(Progress, Running, 4, s.threads);
    forall i | 0 <= i < |s.history.calls| ensures CallFails(s.history.calls[i]) <= 2 * (n - 1) * One(s.history.calls[i]) {
      SumByNonNegative(Running, s.threads);
    }
    SumByScaled(CallFails, One, 2 * (n - 1), s.history.calls);
    SumOfOnes(s.history.calls);
  }

  lemma Totals(n: int, finished: int, running: int, failsFinished: int, failsRunning: int, fails: int, steps: int)
    requires finished + running == n && 0 <= running && 0 <= finished
    requires failsFinished <= 2 * (n - 1) * finished && failsRunning <= 2 * (n - 1) * running
    requires fails == failsFinished + failsRunning && steps <= 5 * finished + 3 * fails + 4 * running
    ensures fails <= 2 * n * (n - 1) && steps <= 5 * n + 6 * n * (n - 1)
  {
    assert 2 * (n - 1) * finished + 2 * (n - 1) * running == 2 * (n - 1) * (finished + running);
  }

  /** With n invocations: no call has failed more than n-1 compare-exchanges, or 2(n-1) for a
      credit; all calls together have failed at most 2n(n-1); and running calls have taken at
      most 5n + 6n(n-1) steps, so every schedule runs out. */
  ghost predicate Bounded(s: State) {
    var n: int := s.history.started;
    && CallsFit(s.history)
    && (forall t :: 0 <= t < |s.threads| && s.threads[t].Busy? ==> Fails(s.threads[t]) <= MaxFails(s.threads[t].op, n))
    && s.history.fails <= 2 * n * (n - 1)
    && s.history.steps <= 5 * n + 6 * n * (n - 1)
  }

  lemma CountedIsBounded(s: State)
    requires Counted(s, 0)
    ensures Bounded(s)
  {
    SumsAreBounded(s);
    SumByNonNegative(Running, s.threads);
    Totals(s.history.started, |s.history.calls|, SumBy(Running, s.threads), SumBy(CallFails, s.history.calls),
           SumBy(Fails, s.threads), s.history.fails, s.history.steps);
    forall t | 0 <= t < |s.threads| && s.threads[t].Busy?
      ensures Fails(s.threads[t]) <= MaxFails(s.threads[t].op, s.history.started)
    {
      assert ThreadCounted(s.threads[t], s);
    }
  }

  lemma RetriesAreBounded(initial: int, threads: nat, events: seq<Event>)
    ensures Bounded(Run(Initial(initial, threads), events))
  {
    RunIsCounted(initial, threads, events);
    CountedIsBounded(Run(Initial(initial, threads), events));
  }
}

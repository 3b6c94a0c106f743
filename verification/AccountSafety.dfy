/**
 * Safety of the interleaved account: the equation between its two atomics in every reachable
 * state, and the callers' discipline under which neither of them is ever overdrawn.
 */
module AccountSafety {
  import opened AccountSpec
  import opened ConcurrentAccount
  import opened Integers
  import opened Sums

  // ----- the ledger equation -----

  /** balance = available + outstanding holds + calls between their two writes. */
  ghost predicate Equation(s: State, initial: int) {
    && s.balance == s.available + s.history.held + SumBy(BetweenWrites, s.threads)
    && Min(initial, 0) <= s.available
    && s.balance <= I64_MAX
    && forall t :: 0 <= t < |s.threads| ==> WellFormed(s.threads[t])
  }

  ghost predicate Covered(s: State, initial: int) {
    Equation(s, initial) && 0 <= s.history.held
  }

  /** The callers' discipline: a release asks only for an amount that is on hold and that no
      other running release has asked for. */
  ghost predicate Allowed(s: State, e: Event) {
    e.Invoke? && e.thread < |s.threads| && s.threads[e.thread].Idle? && e.op.ReleaseOp? && e.op.amount > 0 ==>
      e.op.amount + SumBy(Claim, s.threads) <= s.history.held
  }

  ghost predicate Disciplined(s: State, events: seq<Event>) {
    events == [] ||
    (Disciplined(s, events[..|events| - 1]) &&
     Allowed(Run(s, events[..|events| - 1]), events[|events| - 1]))
  }

  lemma {:induction false} MeasuresNonNegative(s: State)
    requires forall t :: 0 <= t < |s.threads| ==> WellFormed(s.threads[t])
    ensures 0 <= SumBy(BetweenWrites, s.threads) && 0 <= SumBy(Claim, s.threads)
    ensures forall t :: 0 <= t < |s.threads| ==> BetweenWrites(s.threads[t]) <= SumBy(BetweenWrites, s.threads)
    ensures forall t :: 0 <= t < |s.threads| ==> Claim(s.threads[t]) <= SumBy(Claim, s.threads)
  {
    SumByNonNegative(BetweenWrites, s.threads);
    SumByNonNegative(Claim, s.threads);
  }

  /** The step's own effect: what it adds to one side of the equation it adds to the other. */
  lemma AdvanceIsBalanced(s: State, t: nat, initial: int)
    requires t < |s.threads| && s.threads[t].Busy? && WellFormed(s.threads[t])
    requires I64_MIN <= Min(initial, 0) <= s.available
    requires s.available + BetweenWrites(s.threads[t]) <= s.balance <= I64_MAX
    ensures
      var s' := Advance(s, t);
      && WellFormed(s'.threads[t])
      && s'.balance - s.balance == s'.available - s.available + s'.history.held - s.history.held
                                   + BetweenWrites(s'.threads[t]) - BetweenWrites(s.threads[t])
      && Min(initial, 0) <= s'.available && s'.balance <= I64_MAX
  {
    match s.threads[t].at
    case SubBalance(_) => assert IsI64(s.balance - s.threads[t].op.amount);
    case _ =>
  }

  lemma AdvanceKeepsEquation(s: State, t: nat, initial: int)
    requires IsI64(initial) && Covered(s, initial)
    requires t < |s.threads| && s.threads[t].Busy?
    ensures Equation(Advance(s, t), initial)
  {
    MeasuresNonNegative(s);
    AdvanceIsBalanced(s, t, initial);
    AdvanceFrame(s, t);
    UpdateKeepsEquation(s, Advance(s, t), t, initial);
  }

  lemma UpdateKeepsEquation(s: State, s': State, t: nat, initial: int)
    requires Equation(s, initial) && t < |s.threads|
    requires |s'.threads| == |s.threads| && s'.threads == s.threads[t := s'.threads[t]]
    requires WellFormed(s'.threads[t])
    requires s'.balance - s.balance == s'.available - s.available + s'.history.held - s.history.held
                                       + BetweenWrites(s'.threads[t]) - BetweenWrites(s.threads[t])
    requires Min(initial, 0) <= s'.available && s'.balance <= I64_MAX
    ensures Equation(s', initial)
  {
    SumByUpdate(BetweenWrites, s.threads, t, s'.threads[t]);
  }

  /** No step of any thread breaks the equation: neither atomic wraps, and the second write of
      a credit always fits. Only an over-release can make `held` negative. */
  lemma ExecuteKeepsEquation(s: State, e: Event, initial: int)
    requires IsI64(initial) && Covered(s, initial)
    ensures Equation(Execute(s, e), initial)
  {
    match e
    case ChangeStatus(_) =>
    case Invoke(t, op) =>
      if t < |s.threads| && s.threads[t].Idle? {
        SumByUpdate(BetweenWrites, s.threads, t, Execute(s, e).threads[t]);
      }
    case Step(t) =>
      if t < |s.threads| && s.threads[t].Busy? {
        AdvanceKeepsEquation(CountStep(Tick(s)), t, initial);
      }
  }

  // ----- discipline -----

  ghost predicate Claimed(s: State) {
    SumBy(Claim, s.threads) <= s.history.held
  }

  lemma ExecuteKeepsClaimed(s: State, e: Event)
    requires Claimed(s) && Allowed(s, e)
    requires forall t :: 0 <= t < |s.threads| ==> WellFormed(s.threads[t])
    ensures Claimed(Execute(s, e))
  {
    match e
    case ChangeStatus(_) =>
    case Invoke(t, op) =>
      if t < |s.threads| && s.threads[t].Idle? {
        SumByUpdate(Claim, s.threads, t, Execute(s, e).threads[t]);
      }
    case Step(t) =>
      if t < |s.threads| && s.threads[t].Busy? {
        var s0 := CountStep(Tick(s));
        AdvanceFrame(s0, t);
        AdvanceClaim(s0, t);
        SumByUpdate(Claim, s.threads, t, Advance(s0, t).threads[t]);
      }
  }

  lemma AdvanceClaim(s: State, t: nat)
    requires t < |s.threads| && s.threads[t].Busy? && WellFormed(s.threads[t])
    ensures Claim(Advance(s, t).threads[t]) - Claim(s.threads[t]) <= Advance(s, t).history.held - s.history.held
  {
  }

  lemma {:induction false} DisciplinedRunIsCovered(initial: int, threads: nat, events: seq<Event>)
    requires IsI64(initial) && Disciplined(Initial(initial, threads), events)
    ensures Covered(Run(Initial(initial, threads), events), initial)
    ensures Claimed(Run(Initial(initial, threads), events))
  {
    var s0 := Initial(initial, threads);
    if events == [] {
      IdleSums(s0);
    } else {
      var s := Run(s0, events[..|events| - 1]);
      var e := events[|events| - 1];
      DisciplinedRunIsCovered(initial, threads, events[..|events| - 1]);
      ExecuteKeepsEquation(s, e, initial);
      ExecuteKeepsClaimed(s, e);
      MeasuresNonNegative(Execute(s, e));
    }
  }

  lemma IdleSums(s: State)
    requires forall t :: 0 <= t < |s.threads| ==> s.threads[t].Idle?
    ensures SumBy(BetweenWrites, s.threads) == 0 && SumBy(Claim, s.threads) == 0
  {
    SumByScaled(BetweenWrites, Running, 0, s.threads);
    SumByScaled(Claim, Running, 0, s.threads);
    MeasuresNonNegative(s);
  }

  /** The available balance lies between the initial floor and the balance, the pending second
      write of a debit does not wrap, and that of a credit does not overflow, so a call that
      returns an error has written nothing. */
  ghost predicate Safe(s: State, initial: int) {
    && Min(initial, 0) <= s.available <= s.balance <= I64_MAX
    && forall t :: 0 <= t < |s.threads| && s.threads[t].Busy? ==>
         && (s.threads[t].at.SubBalance? ==> IsI64(s.balance - s.threads[t].op.amount))
         && (s.threads[t].at.CreditLoad? || s.threads[t].at.CreditCas? ==>
               s.available + s.threads[t].op.amount <= I64_MAX)
  }

  lemma CoveredIsSafe(s: State, initial: int)
    requires IsI64(initial) && Covered(s, initial)
    ensures Safe(s, initial)
  {
    MeasuresNonNegative(s);
    forall t | 0 <= t < |s.threads| && s.threads[t].Busy?
      ensures s.available + BetweenWrites(s.threads[t]) <= s.balance && WellFormed(s.threads[t])
    {
    }
  }

  /** Since every prefix of a disciplined run is disciplined, every state on the way is safe. */
  lemma DisciplinedRunIsSafe(initial: int, threads: nat, events: seq<Event>)
    requires IsI64(initial) && Disciplined(Initial(initial, threads), events)
    ensures Safe(Run(Initial(initial, threads), events), initial)
  {
    DisciplinedRunIsCovered(initial, threads, events);
    CoveredIsSafe(Run(Initial(initial, threads), events), initial);
  }
}

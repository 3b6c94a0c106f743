/**
 * What the release guard does not prevent, and what it prevents needlessly. The guard reads
 * the two atomics at different instants. Without the callers' discipline it can be passed by
 * an amount that nobody holds; with it a release can still be refused, exactly when enough has
 * been taken from the available balance between the two loads.
 */
module AccountRaces {
  import opened AccountSpec
  import opened AccountSafety
  import opened AccountSchedules
  import opened ConcurrentAccount
  import opened Sums

  /** No state strictly before the end of the run has released more than was held. */
  ghost predicate CoveredSoFar(s: State, events: seq<Event>) {
    events == [] ||
    (CoveredSoFar(s, events[..|events| - 1]) && 0 <= Run(s, events[..|events| - 1]).history.held)
  }

  lemma {:induction false} EquationHoldsUpToOverRelease(initial: int, threads: nat, events: seq<Event>)
    requires IsI64(initial) && CoveredSoFar(Initial(initial, threads), events)
    ensures Equation(Run(Initial(initial, threads), events), initial)
  {
    var s0 := Initial(initial, threads);
    if events == [] {
      IdleSums(s0);
    } else {
      EquationHoldsUpToOverRelease(initial, threads, events[..|events| - 1]);
      ExecuteKeepsEquation(Run(s0, events[..|events| - 1]), events[|events| - 1], initial);
    }
  }

  /** The exact condition, with no discipline assumed: the first state at which more can be
      spent than the balance covers is the first at which the successful releases add up to
      more than the successful holds. At quiescence that is visible in the two atomics. */
  lemma CoverageIsExact(initial: int, threads: nat, events: seq<Event>)
    requires IsI64(initial) && CoveredSoFar(Initial(initial, threads), events)
    ensures
      var s := Run(Initial(initial, threads), events);
      && (s.available + SumBy(BetweenWrites, s.threads) <= s.balance <==> 0 <= s.history.held)
      && ((forall t :: 0 <= t < |s.threads| ==> s.threads[t].Idle?) ==>
            (s.available <= s.balance <==> 0 <= s.history.held))
  {
    var s := Run(Initial(initial, threads), events);
    EquationHoldsUpToOverRelease(initial, threads, events);
    if forall t :: 0 <= t < |s.threads| ==> s.threads[t].Idle? {
      IdleSums(s);
    }
  }

  // ----- an undisciplined release that passes -----

  /** A release loads available; a credit raises the balance; the release loads that balance
      and writes available; the credit writes it too. */
  function PassingRace(release: int, credit: int): seq<Event> {
    [Invoke(0, ReleaseOp(release)), Step(0), Step(0)]
    + ([Invoke(1, CreditOp(credit)), Step(1)] + ([Step(1), Step(1)] + PassingFinish()))
  }

  function PassingFinish(): seq<Event> {
    [Step(0)] + ([Step(0)] + ([Step(1), Step(1)] + []))
  }

  function Passed(p: Picture, release: int, credit: int): Picture {
    p.(balance := p.balance + credit, available := p.available + release + credit, held := p.held - release,
       outcomes := p.outcomes + [true, true])
  }

  function CreditWrote(p: Picture, release: int, credit: int): Picture {
    p.(balance := p.balance + credit, first := Doing(ReleaseOp(release), LoadGuard(p.available, 0)),
       second := Doing(CreditOp(credit), CreditLoad(p.balance + credit)))
  }

  lemma PassingStarts(s: State, p: Picture, release: int, credit: int)
    requires Shows(s, p) && p.first == Resting && p.second == Resting && 0 < release && 0 < credit
    requires p.balance + credit <= I64_MAX
    ensures
      var s1 := Run(s, [Invoke(0, ReleaseOp(release)), Step(0), Step(0)]);
      Shows(Run(Run(s1, [Invoke(1, CreditOp(credit)), Step(1)]), [Step(1), Step(1)]), CreditWrote(p, release, credit))
  {
    var s1 := Run(s, [Invoke(0, ReleaseOp(release)), Step(0), Step(0)]);
    var q := p.(first := Doing(ReleaseOp(release), LoadGuard(p.available, 0)));
    ReleaseLoads(s, p, release);
    CreditStarts(s1, q, credit);
    CreditWritesBalance(Run(s1, [Invoke(1, CreditOp(credit)), Step(1)]),
                        q.(second := Doing(CreditOp(credit), LoadBalance)), credit);
  }

  lemma PassingFinishes(s: State, p: Picture, release: int, credit: int)
    requires Shows(s, CreditWrote(p, release, credit)) && p.first == Resting && p.second == Resting
    requires p.balance + credit <= I64_MAX
    requires p.available + release <= p.balance + credit && p.available + release + credit <= I64_MAX
    ensures Shows(Run(s, PassingFinish()), Passed(p, release, credit))
  {
    var q := CreditWrote(p, release, credit);
    ReleaseMeetsGuard(s, q, release, p.available);
    var q1 := q.(first := Doing(ReleaseOp(release), CasAvailable(p.available, 0)));
    ReleaseFinishes(Run(s, [Step(0)]), q1, release);
    var q2 := q.(available := p.available + release, held := p.held - release, first := Resting,
                outcomes := p.outcomes + [true]);
    CreditFinishes(Run(Run(s, [Step(0)]), [Step(0)]), q2, credit, p.balance + credit);
    RunFour(s, [Step(0)], [Step(0)], [Step(1), Step(1)], []);
  }

  /** The discipline is necessary: from any covered account at rest, every release of more than
      is held has a schedule with one credit in which both calls succeed and the account ends
      with that much more available than it has. */
  lemma AnyOverReleaseCanPass(s: State, initial: int, release: int, credit: int)
    requires Covered(s, initial) && AtRest(s)
    requires s.history.held < release && release - s.history.held <= credit
    requires s.available + release + credit <= I64_MAX
    ensures
      var s' := Run(s, PassingRace(release, credit));
      && Shows(s', Passed(RestPicture(s), release, credit))
      && AtRest(s') && s'.available - s'.balance == release - s.history.held > 0
  {
    var p := RestPicture(s);
    AtRestBalance(s, initial);
    var p0, p1, p2 := [Invoke(0, ReleaseOp(release)), Step(0), Step(0)], [Invoke(1, CreditOp(credit)), Step(1)], [Step(1), Step(1)];
    PassingStarts(s, p, release, credit);
    PassingFinishes(Run(Run(Run(s, p0), p1), p2), p, release, credit);
    RunFour(s, p0, p1, p2, PassingFinish());
    ShowsRest(Run(s, PassingRace(release, credit)), Passed(p, release, credit));
  }

  lemma AtRestBalance(s: State, initial: int)
    requires Covered(s, initial) && AtRest(s)
    ensures s.balance == s.available + s.history.held && s.balance <= I64_MAX
    ensures Shows(s, RestPicture(s))
  {
    IdleSums(s);
  }

  lemma InitialIsAtRest(initial: int)
    requires IsI64(initial)
    ensures Covered(Initial(initial, 2), initial) && AtRest(Initial(initial, 2))
  {
    IdleSums(Initial(initial, 2));
  }

  /** From a new account: nothing was ever held, both calls succeed, and the account ends with
      `amount` more available than it has. */
  lemma GuardCanBePassedWithoutAHold(initial: int, amount: int)
    requires IsI64(initial) && 0 < amount && initial + 2 * amount <= I64_MAX
    ensures
      var s := Run(Initial(initial, 2), PassingRace(amount, amount));
      && s.available == s.balance + amount && s.balance == initial + amount && AtRest(s)
      && Outcomes(s.history.calls) == [true, true]
  {
    InitialIsAtRest(initial);
    AnyOverReleaseCanPass(Initial(initial, 2), initial, amount, amount);
  }

  // ----- a disciplined release that is refused -----

  /** A release loads available; a debit runs from start to end; the release loads the balance. */
  function RefusalRace(release: int, debit: int): seq<Event> {
    [Invoke(0, ReleaseOp(release)), Step(0), Step(0)]
    + ([Invoke(1, DebitOp(debit)), Step(1), Step(1)] + ([Step(1), Step(1)] + [Step(0)]))
  }

  function Overtaken(p: Picture, release: int, debit: int): Picture {
    p.(balance := p.balance - debit, available := p.available - debit,
       first := if release + debit > p.held then Resting
                else Doing(ReleaseOp(release), CasAvailable(p.available, 0)),
       outcomes := p.outcomes + if release + debit > p.held then [true, false] else [true])
  }

  /** From any covered account at rest, a release within what is held, overtaken by a debit that
      the account can pay, is refused exactly when the two together exceed what is held. The
      hold then stays in place. */
  lemma OvertakenReleaseIsRefused(s: State, initial: int, release: int, debit: int)
    requires IsI64(initial) && Covered(s, initial) && AtRest(s)
    requires 0 < release <= s.history.held && 0 < debit <= s.available
    ensures Disciplined(s, RefusalRace(release, debit))
    ensures
      var s' := Run(s, RefusalRace(release, debit));
      && Shows(s', Overtaken(RestPicture(s), release, debit))
      && (AtRest(s') <==> release + debit > s.history.held)
  {
    var p := RestPicture(s);
    AtRestBalance(s, initial);
    RefusalRaceIsDisciplined(s, release, debit);
    RaceIsOvertaken(s, p, release, debit);
    ShowsRest(Run(s, RefusalRace(release, debit)), Overtaken(p, release, debit));
  }

  lemma RaceIsOvertaken(s: State, p: Picture, release: int, debit: int)
    requires Shows(s, p) && p.first == Resting && p.second == Resting
    requires 0 < release && 0 < debit <= p.available && IsI64(p.balance - debit) && p.balance <= I64_MAX
    requires p.balance == p.available + p.held
    ensures Shows(Run(s, RefusalRace(release, debit)), Overtaken(p, release, debit))
  {
    var p0 := [Invoke(0, ReleaseOp(release)), Step(0), Step(0)];
    var p1, p2 := [Invoke(1, DebitOp(debit)), Step(1), Step(1)], [Step(1), Step(1)];
    var q := p.(first := Doing(ReleaseOp(release), LoadGuard(p.available, 0)));
    ReleaseLoads(s, p, release);
    DebitLoads(Run(s, p0), q, debit);
    DebitFinishes(Run(Run(s, p0), p1), q.(second := Doing(DebitOp(debit), CasAvailable(p.available, 0))), debit);
    var q3 := q.(balance := p.balance - debit, available := p.available - debit, outcomes := p.outcomes + [true]);
    ReleaseMeetsGuard(Run(Run(Run(s, p0), p1), p2), q3, release, p.available);
    RunFour(s, p0, p1, p2, [Step(0)]);
  }

  predicate IsRelease(e: Event) {
    e.Invoke? && e.op.ReleaseOp?
  }

  /** Only invocations of releases are restricted. */
  lemma {:induction false} DisciplinedExtends(s: State, a: seq<Event>, b: seq<Event>)
    requires Disciplined(s, a) && forall e :: e in b ==> !IsRelease(e)
    ensures Disciplined(s, a + b)
  {
    if b == [] {
      assert a + b == a;
    } else {
      assert (a + b)[..|a + b| - 1] == a + b[..|b| - 1] && (a + b)[|a + b| - 1] == b[|b| - 1];
      DisciplinedExtends(s, a, b[..|b| - 1]);
      assert !IsRelease(b[|b| - 1]);
    }
  }

  lemma RefusalRaceIsDisciplined(s: State, release: int, debit: int)
    requires AtRest(s) && release <= s.history.held
    ensures Disciplined(s, RefusalRace(release, debit))
  {
    var race := RefusalRace(release, debit);
    IdleSums(s);
    assert Run(s, []) == s && Disciplined(s, []);
    assert [Invoke(0, ReleaseOp(release))][..0] == [];
    assert Disciplined(s, [race[0]]);
    DisciplinedExtends(s, [race[0]], race[1..]);
    assert race == [race[0]] + race[1..];
  }

  lemma {:induction false} DisciplinedConcat(s: State, a: seq<Event>, b: seq<Event>)
    requires Disciplined(s, a) && Disciplined(Run(s, a), b)
    ensures Disciplined(s, a + b)
  {
    if b == [] {
      assert a + b == a;
    } else {
      assert (a + b)[..|a + b| - 1] == a + b[..|b| - 1] && (a + b)[|a + b| - 1] == b[|b| - 1];
      DisciplinedConcat(s, a, b[..|b| - 1]);
      RunConcat(s, a, b[..|b| - 1]);
    }
  }

  function HoldThenRelease(hold: int, debit: int): seq<Event> {
    ([Invoke(0, HoldOp(hold)), Step(0), Step(0)] + [Step(0)]) + RefusalRace(hold, debit)
  }

  /** From a new account: a hold, then its own release, refused because of a debit between the
      two loads. The run is disciplined, no call is left running, and the hold is still there. */
  lemma DisciplinedReleaseCanBeRefused(initial: int, hold: int, debit: int)
    requires IsI64(initial) && 0 < hold && 0 < debit && hold + debit <= initial
    ensures
      var s := Run(Initial(initial, 2), HoldThenRelease(hold, debit));
      && Disciplined(Initial(initial, 2), HoldThenRelease(hold, debit))
      && AtRest(s) && s.history.held == hold && Outcomes(s.history.calls) == [true, true, false]
      && s.balance == initial - debit && s.available == initial - debit - hold
  {
    var s0 := Initial(initial, 2);
    var first := [Invoke(0, HoldOp(hold)), Step(0), Step(0)];
    var held := first + [Step(0)];
    InitialIsAtRest(initial);
    AtRestBalance(s0, initial);
    HoldLoads(s0, RestPicture(s0), hold);
    var p := RestPicture(s0).(first := Doing(HoldOp(hold), CasAvailable(initial, 0)));
    HoldFinishes(Run(s0, first), p, hold);
    RunConcat(s0, first, [Step(0)]);
    var s := Run(s0, held);
    ShowsRest(s, p.(available := initial - hold, held := hold, first := Resting, outcomes := [true]));
    assert held == [] + held && Disciplined(s0, []);
    DisciplinedExtends(s0, [], held);
    DisciplinedRunIsCovered(initial, 2, held);
    OvertakenReleaseIsRefused(s, initial, hold, debit);
    DisciplinedConcat(s0, held, RefusalRace(hold, debit));
    RunConcat(s0, held, RefusalRace(hold, debit));
  }
}

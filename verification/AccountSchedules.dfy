/**
 * Runs of two threads on an account at rest: the stretches of the schedules in AccountRaces,
 * each by its effect on what the two threads and the two atomics show.
 */
module AccountSchedules {
  import opened AccountSpec
  import opened ConcurrentAccount

  // ----- composing runs -----

  lemma {:induction false} RunConcat(s: State, a: seq<Event>, b: seq<Event>)
    ensures Run(s, a + b) == Run(Run(s, a), b)
  {
    if b == [] {
      assert a + b == a;
    } else {
      assert (a + b)[..|a + b| - 1] == a + b[..|b| - 1];
      RunConcat(s, a, b[..|b| - 1]);
    }
  }

  lemma RunOne(s: State, e: Event)
    ensures Run(s, [e]) == Execute(s, e)
  {
    assert Run(s, []) == s;
  }

  lemma RunTwo(s: State, e: Event, f: Event)
    ensures Run(s, [e, f]) == Execute(Execute(s, e), f)
  {
    assert [e, f] == [e] + [f];
    RunConcat(s, [e], [f]);
    RunOne(s, e);
    RunOne(Execute(s, e), f);
  }

  lemma RunThree(s: State, e: Event, f: Event, g: Event)
    ensures Run(s, [e, f, g]) == Execute(Execute(Execute(s, e), f), g)
  {
    assert [e, f, g] == [e, f] + [g];
    RunConcat(s, [e, f], [g]);
    RunTwo(s, e, f);
    RunOne(Execute(Execute(s, e), f), g);
  }

  lemma RunFour(s: State, a: seq<Event>, b: seq<Event>, c: seq<Event>, d: seq<Event>)
    ensures Run(s, a + (b + (c + d))) == Run(Run(Run(Run(s, a), b), c), d)
  {
    RunConcat(s, a, b + (c + d));
    RunConcat(Run(s, a), b, c + d);
    RunConcat(Run(Run(s, a), b), c, d);
  }

  // ----- what a state shows -----

  /** What a thread is doing, without the bookkeeping that no step reads. */
  datatype Activity = Resting | Doing(op: Operation, at: Point)

  function Plain(at: Point): Point {
    match at
    case LoadGuard(current, _) => LoadGuard(current, 0)
    case CasAvailable(seen, _) => CasAvailable(seen, 0)
    case SubBalance(_) => SubBalance(0)
    case CasBalance(seen, _) => CasBalance(seen, 0)
    case CreditCas(newBalance, seen, _) => CreditCas(newBalance, seen, 0)
    case _ => at
  }

  function ActivityOf(th: Thread): Activity {
    if th.Idle? then Resting else Doing(th.op, Plain(th.at))
  }

  /** Whether each finished call succeeded. */
  function Outcomes(calls: seq<Call>): seq<bool> {
    if calls == [] then [] else Outcomes(calls[..|calls| - 1]) + [calls[|calls| - 1].result.Success?]
  }

  /** The account, its first two threads, and whether each call finished so far succeeded. */
  datatype Picture = Picture(balance: int, available: int, held: int, first: Activity, second: Activity, outcomes: seq<bool>)

  /** An open account of which only the first two threads are active. */
  ghost predicate Shows(s: State, p: Picture) {
    && s.status == Open && s.balance == p.balance && s.available == p.available && s.history.held == p.held
    && 2 <= |s.threads| && ActivityOf(s.threads[0]) == p.first && ActivityOf(s.threads[1]) == p.second
    && (forall t :: 2 <= t < |s.threads| ==> s.threads[t].Idle?)
    && Outcomes(s.history.calls) == p.outcomes
  }

  ghost predicate AtRest(s: State) {
    s.status == Open && 2 <= |s.threads| && forall t :: 0 <= t < |s.threads| ==> s.threads[t].Idle?
  }

  function RestPicture(s: State): Picture {
    Picture(s.balance, s.available, s.history.held, Resting, Resting, Outcomes(s.history.calls))
  }

  lemma ShowsRest(s: State, p: Picture)
    requires Shows(s, p)
    ensures AtRest(s) <==> p.first == Resting && p.second == Resting
  {
  }

  // ----- holds and releases, by the first thread -----

  lemma HoldLoads(s: State, p: Picture, amount: int)
    requires Shows(s, p) && p.first == Resting && 0 < amount <= p.available
    ensures Shows(Run(s, [Invoke(0, HoldOp(amount)), Step(0), Step(0)]),
                  p.(first := Doing(HoldOp(amount), CasAvailable(p.available, 0))))
  {
    RunThree(s, Invoke(0, HoldOp(amount)), Step(0), Step(0));
  }

  lemma HoldFinishes(s: State, p: Picture, amount: int)
    requires Shows(s, p) && p.first == Doing(HoldOp(amount), CasAvailable(p.available, 0))
    ensures Shows(Run(s, [Step(0)]),
                  p.(available := p.available - amount, held := p.held + amount, first := Resting,
                     outcomes := p.outcomes + [true]))
  {
    RunOne(s, Step(0));
  }

  lemma ReleaseLoads(s: State, p: Picture, amount: int)
    requires Shows(s, p) && p.first == Resting && 0 < amount
    ensures Shows(Run(s, [Invoke(0, ReleaseOp(amount)), Step(0), Step(0)]),
                  p.(first := Doing(ReleaseOp(amount), LoadGuard(p.available, 0))))
  {
    RunThree(s, Invoke(0, ReleaseOp(amount)), Step(0), Step(0));
  }

  /** The second load: the guard compares the new balance with the earlier available balance. */
  lemma ReleaseMeetsGuard(s: State, p: Picture, amount: int, current: int)
    requires Shows(s, p) && p.first == Doing(ReleaseOp(amount), LoadGuard(current, 0)) && p.balance <= I64_MAX
    ensures Shows(Run(s, [Step(0)]),
                  if current + amount > p.balance then p.(first := Resting, outcomes := p.outcomes + [false])
                  else p.(first := Doing(ReleaseOp(amount), CasAvailable(current, 0))))
  {
    RunOne(s, Step(0));
  }

  lemma ReleaseFinishes(s: State, p: Picture, amount: int)
    requires Shows(s, p) && p.first == Doing(ReleaseOp(amount), CasAvailable(p.available, 0))
    ensures Shows(Run(s, [Step(0)]),
                  p.(available := p.available + amount, held := p.held - amount, first := Resting,
                     outcomes := p.outcomes + [true]))
  {
    RunOne(s, Step(0));
  }

  // ----- credits and debits, by the second thread -----

  lemma CreditStarts(s: State, p: Picture, amount: int)
    requires Shows(s, p) && p.second == Resting && 0 < amount
    ensures Shows(Run(s, [Invoke(1, CreditOp(amount)), Step(1)]), p.(second := Doing(CreditOp(amount), LoadBalance)))
  {
    RunTwo(s, Invoke(1, CreditOp(amount)), Step(1));
  }

  lemma CreditWritesBalance(s: State, p: Picture, amount: int)
    requires Shows(s, p) && p.second == Doing(CreditOp(amount), LoadBalance) && p.balance + amount <= I64_MAX
    ensures Shows(Run(s, [Step(1), Step(1)]),
                  p.(balance := p.balance + amount, second := Doing(CreditOp(amount), CreditLoad(p.balance + amount))))
  {
    RunTwo(s, Step(1), Step(1));
  }

  lemma CreditFinishes(s: State, p: Picture, amount: int, newBalance: int)
    requires Shows(s, p) && p.second == Doing(CreditOp(amount), CreditLoad(newBalance))
    requires p.available + amount <= I64_MAX
    ensures Shows(Run(s, [Step(1), Step(1)]),
                  p.(available := p.available + amount, second := Resting, outcomes := p.outcomes + [true]))
  {
    RunTwo(s, Step(1), Step(1));
  }

  lemma DebitLoads(s: State, p: Picture, amount: int)
    requires Shows(s, p) && p.second == Resting && 0 < amount <= p.available
    ensures Shows(Run(s, [Invoke(1, DebitOp(amount)), Step(1), Step(1)]),
                  p.(second := Doing(DebitOp(amount), CasAvailable(p.available, 0))))
  {
    RunThree(s, Invoke(1, DebitOp(amount)), Step(1), Step(1));
  }

  lemma DebitFinishes(s: State, p: Picture, amount: int)
    requires Shows(s, p) && p.second == Doing(DebitOp(amount), CasAvailable(p.available, 0))
    requires IsI64(p.balance - amount)
    ensures Shows(Run(s, [Step(1), Step(1)]),
                  p.(balance := p.balance - amount, available := p.available - amount, second := Resting,
                     outcomes := p.outcomes + [true]))
  {
    RunTwo(s, Step(1), Step(1));
  }
}

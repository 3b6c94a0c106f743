/**
 * What the callers of the interleaved account are told: the status check that every call makes
 * first, the answers of a call that nothing overtakes, which are those of the sequential account,
 * the balances that any debit or credit returns, and the reasons for which any call fails.
 */
module AccountAnswers {
  import opened Wrappers
  import opened AccountSpec
  import opened AccountSchedules
  import opened ConcurrentAccount

  // ----- the status check -----

  predicate AtCheck(s: State, t: nat) {
    t < |s.threads| && s.threads[t].Busy? && s.threads[t].at.CheckCall?
  }

  /** The call goes on exactly when its amount is positive and the account is open. Otherwise it
      returns there and then, with the error of the guard that failed, and touches nothing. */
  lemma CheckIsExact(s: State, t: nat)
    requires AtCheck(s, t)
    ensures
      var s', th := Advance(s, t), s.threads[t];
      && s'.balance == s.balance && s'.available == s.available
      && s'.history.held == s.history.held && s'.history.log == s.history.log
      && (s'.threads[t].Busy? <==> th.op.amount > 0 && s.status == Open)
      && (s'.threads[t].Busy? ==> s'.threads[t].id == th.id && s'.threads[t].op == th.op && s'.history.calls == s.history.calls)
      && (s'.threads[t].Idle? ==>
            && |s'.history.calls| == |s.history.calls| + 1
            && s'.history.calls[|s.history.calls|].id == th.id
            && s'.history.calls[|s.history.calls|].result ==
                 Failure(if th.op.amount <= 0 then InvalidAmount else AccountNotOpen(s.status)))
  {
  }

  /** Event k is the status check of the call `id`, and it finds the account open. */
  ghost predicate FoundOpen(s0: State, events: seq<Event>, k: nat, id: nat, op: Operation)
    requires k < |events|
  {
    var s := Run(s0, events[..k]);
    && events[k].Step? && AtCheck(s, events[k].thread) && s.status == Open
    && s.threads[events[k].thread].id == id && s.threads[events[k].thread].op == op
  }

  /** A call past its check was found open by an event so far, and one in the log by an event
      before its linearization point. Event k happens at time k + 1. */
  ghost predicate PassedCheck(s0: State, events: seq<Event>, th: Thread) {
    th.Busy? && !th.at.CheckCall? ==> exists k :: 0 <= k < |events| && FoundOpen(s0, events, k, th.id, th.op)
  }

  ghost predicate LoggedAfterCheck(s0: State, events: seq<Event>, e: LogEntry) {
    exists k :: 0 <= k < |events| && k + 1 < e.time && FoundOpen(s0, events, k, e.id, e.op)
  }

  ghost predicate AllChecked(s0: State, events: seq<Event>) {
    var s := Run(s0, events);
    && s.history.time == |events|
    && (forall t :: 0 <= t < |s.threads| ==> PassedCheck(s0, events, s.threads[t]))
    && forall i :: 0 <= i < |s.history.log| ==> LoggedAfterCheck(s0, events, s.history.log[i])
  }

  lemma FoundOpenStays(s0: State, events: seq<Event>, e: Event, k: nat, id: nat, op: Operation)
    requires k < |events| && FoundOpen(s0, events, k, id, op)
    ensures FoundOpen(s0, events + [e], k, id, op)
  {
    assert (events + [e])[..k] == events[..k];
  }

  lemma PassedStays(s0: State, events: seq<Event>, e: Event, th: Thread)
    requires PassedCheck(s0, events, th)
    ensures PassedCheck(s0, events + [e], th)
  {
    if th.Busy? && !th.at.CheckCall? {
      var k :| 0 <= k < |events| && FoundOpen(s0, events, k, th.id, th.op);
      FoundOpenStays(s0, events, e, k, th.id, th.op);
    }
  }

  lemma LoggedStays(s0: State, events: seq<Event>, e: Event, entry: LogEntry)
    requires LoggedAfterCheck(s0, events, entry)
    ensures LoggedAfterCheck(s0, events + [e], entry)
  {
    var k :| 0 <= k < |events| && k + 1 < entry.time && FoundOpen(s0, events, k, entry.id, entry.op);
    FoundOpenStays(s0, events, e, k, entry.id, entry.op);
  }

  /** A step keeps its call, and logs nothing but that call, past its check. */
  lemma StepKeepsCall(s: State, t: nat)
    requires t < |s.threads| && s.threads[t].Busy?
    ensures
      var s', th := Advance(s, t), s.threads[t];
      && (s'.threads[t].Busy? ==> s'.threads[t].id == th.id && s'.threads[t].op == th.op && !s'.threads[t].at.CheckCall?)
      && (s'.history.log == s.history.log
          || (!th.at.CheckCall? && exists v :: s'.history.log == s.history.log + [LogEntry(th.id, th.op, v, s.history.time)]))
      && s'.history.time == s.history.time
  {
    match s.threads[t].at
    case LoadAvailable =>
      if s.available < s.threads[t].op.amount && !s.threads[t].op.ReleaseOp? {
        var v := Refused(InsufficientFunds(s.available, s.threads[t].op.amount));
        assert Advance(s, t).history.log == s.history.log + [LogEntry(s.threads[t].id, s.threads[t].op, v, s.history.time)];
      }
    case CasAvailable(_, _) =>
      if s.available == s.threads[t].at.seen {
        assert Advance(s, t).history.log
          == s.history.log + [LogEntry(s.threads[t].id, s.threads[t].op, Accepted, s.history.time)];
      }
    case CreditCas(_, _, _) =>
      if s.available == s.threads[t].at.seen {
        assert Advance(s, t).history.log
          == s.history.log + [LogEntry(s.threads[t].id, s.threads[t].op, Accepted, s.history.time)];
      }
    case _ =>
  }

  lemma StepKeepsChecked(s0: State, events: seq<Event>, t: nat)
    requires AllChecked(s0, events)
    requires t < |Run(s0, events).threads| && Run(s0, events).threads[t].Busy?
    ensures
      var s, s' := Run(s0, events), Execute(Run(s0, events), Step(t));
      && |s'.threads| == |s.threads| && (forall u :: 0 <= u < |s.threads| && u != t ==> s'.threads[u] == s.threads[u])
      && PassedCheck(s0, events + [Step(t)], s'.threads[t])
      && forall i :: 0 <= i < |s'.history.log| ==> LoggedAfterCheck(s0, events + [Step(t)], s'.history.log[i])
  {
    var s := Run(s0, events);
    var s1 := CountStep(Tick(s));
    var s', th := Advance(s1, t), s.threads[t];
    AdvanceFrame(s1, t);
    StepKeepsCall(s1, t);
    PassedStays(s0, events, Step(t), th);
    if AtCheck(s, t) && s'.threads[t].Busy? {
      CheckIsExact(s1, t);
      assert (events + [Step(t)])[..|events|] == events;
      assert FoundOpen(s0, events + [Step(t)], |events|, th.id, th.op);
    }
    forall i | 0 <= i < |s'.history.log| ensures LoggedAfterCheck(s0, events + [Step(t)], s'.history.log[i]) {
      if i < |s.history.log| {
        assert s'.history.log[i] == s.history.log[i];
        LoggedStays(s0, events, Step(t), s.history.log[i]);
      } else {
        var k :| 0 <= k < |events| && FoundOpen(s0, events, k, th.id, th.op);
        FoundOpenStays(s0, events, Step(t), k, th.id, th.op);
        assert s'.history.log[i].time == |events| + 1;
      }
    }
  }

  lemma EventKeepsChecked(s0: State, events: seq<Event>, e: Event)
    requires AllChecked(s0, events)
    ensures AllChecked(s0, events + [e])
  {
    var s, s' := Run(s0, events), Execute(Run(s0, events), e);
    RunConcat(s0, events, [e]);
    RunOne(s, e);
    forall t | 0 <= t < |s.threads| ensures PassedCheck(s0, events + [e], s.threads[t]) {
      PassedStays(s0, events, e, s.threads[t]);
    }
    forall i | 0 <= i < |s.history.log| ensures LoggedAfterCheck(s0, events + [e], s.history.log[i]) {
      LoggedStays(s0, events, e, s.history.log[i]);
    }
    if e.Step? && e.thread < |s.threads| && s.threads[e.thread].Busy? {
      StepKeepsChecked(s0, events, e.thread);
      StepKeepsCall(CountStep(Tick(s)), e.thread);
    }
  }

  lemma NothingLogged(initial: int, threads: nat)
    ensures AllChecked(Initial(initial, threads), [])
  {
  }

  /** Over every run, no call takes effect or is refused for lack of funds unless it checked the
      status earlier, after its invocation, and found the account open. */
  lemma {:induction false} LoggedCallsWereFoundOpen(initial: int, threads: nat, events: seq<Event>)
    ensures AllChecked(Initial(initial, threads), events)
  {
    if events == [] {
      NothingLogged(initial, threads);
    } else {
      var before, e := events[..|events| - 1], events[|events| - 1];
      LoggedCallsWereFoundOpen(initial, threads, before);
      EventKeepsChecked(Initial(initial, threads), before, e);
      assert events == before + [e];
    }
  }

  ghost predicate NeverOpen(s0: State, events: seq<Event>) {
    forall k :: 0 <= k <= |events| ==> Run(s0, events[..k]).status != Open
  }

  /** While an account that starts at rest is never open, no call gets past its check, and neither
      atomic, no hold and no log entry changes. */
  lemma {:induction false} UnopenedAccountIsUntouched(s0: State, events: seq<Event>)
    requires forall t :: 0 <= t < |s0.threads| ==> s0.threads[t].Idle?
    requires NeverOpen(s0, events)
    ensures
      var s := Run(s0, events);
      && s.balance == s0.balance && s.available == s0.available
      && s.history.held == s0.history.held && s.history.log == s0.history.log
      && forall t :: 0 <= t < |s.threads| ==> s.threads[t].Idle? || s.threads[t].at.CheckCall?
  {
    if events != [] {
      var before, e := events[..|events| - 1], events[|events| - 1];
      forall k | 0 <= k <= |before| ensures Run(s0, before[..k]).status != Open {
        assert before[..k] == events[..k];
      }
      UnopenedAccountIsUntouched(s0, before);
      var s := Run(s0, before);
      assert before[..|before|] == before;
      if e.Step? && e.thread < |s.threads| && s.threads[e.thread].Busy? {
        CheckIsExact(CountStep(Tick(s)), e.thread);
        AdvanceFrame(CountStep(Tick(s)), e.thread);
      }
    }
  }

  // ----- a call that nothing overtakes -----

  function FundsOf(s: State): Funds {
    Funds(s.balance, s.available, s.status)
  }

  /** The thread runs its call on funds that were f when the call began, and nothing else has
      happened to them. */
  ghost predicate Undisturbed(s: State, t: nat, f: Funds) {
    && t < |s.threads| && s.threads[t].Busy?
    && var op := s.threads[t].op;
       match s.threads[t].at
       case CheckCall => FundsOf(s) == f
       case LoadAvailable => FundsOf(s) == f && f.status == Open && op.amount > 0 && !op.CreditOp?
       case LoadGuard(current, _) =>
         FundsOf(s) == f && f.status == Open && op.amount > 0 && op.ReleaseOp? && current == f.available
       case CasAvailable(seen, _) =>
         && FundsOf(s) == f && f.status == Open && op.amount > 0 && seen == f.available && !op.CreditOp?
         && (if op.ReleaseOp? then f.available + op.amount <= f.balance else op.amount <= f.available)
       case SubBalance(_) =>
         && op.DebitOp? && f.status == Open && 0 < op.amount <= f.available
         && FundsOf(s) == Funds(f.balance, f.available - op.amount, Open)
       case LoadBalance => FundsOf(s) == f && f.status == Open && op.amount > 0 && op.CreditOp?
       case CasBalance(seen, _) =>
         FundsOf(s) == f && f.status == Open && op.amount > 0 && op.CreditOp? && seen == f.balance <= I64_MAX - op.amount
       case CreditLoad(newBalance) =>
         && op.CreditOp? && f.status == Open && op.amount > 0 && newBalance == f.balance + op.amount <= I64_MAX
         && FundsOf(s) == Funds(newBalance, f.available, Open)
       case CreditCas(newBalance, seen, _) =>
         && op.CreditOp? && f.status == Open && op.amount > 0 && newBalance == f.balance + op.amount <= I64_MAX
         && FundsOf(s) == Funds(newBalance, f.available, Open) && seen == f.available
  }

  /** The most steps that such a call still has to take. */
  function StepsLeft(th: Thread): nat
    requires th.Busy?
  {
    match th.at
    case CheckCall => 5
    case LoadAvailable => 4
    case LoadGuard(_, _) => 3
    case CasAvailable(_, _) => 2
    case SubBalance(_) => 1
    case LoadBalance => 4
    case CasBalance(_, _) => 3
    case CreditLoad(_) => 2
    case CreditCas(_, _, _) => 1
  }

  /** The call has returned what the sequential account answers, and left what it leaves. */
  ghost predicate Answered(s: State, t: nat, f: Funds, op: Operation, calls: nat) {
    && t < |s.threads| && s.threads[t].Idle? && FundsOf(s) == Apply(f, op).0
    && |s.history.calls| == calls + 1
    && s.history.calls[calls].op == op && s.history.calls[calls].result == Apply(f, op).1
  }

  lemma UndisturbedStep(s: State, t: nat, f: Funds)
    requires Sound(f) && Undisturbed(s, t, f)
    ensures
      var s', th := Advance(s, t), s.threads[t];
      || (Undisturbed(s', t, f) && s'.threads[t].op == th.op && s'.history.calls == s.history.calls
          && StepsLeft(s'.threads[t]) < StepsLeft(th))
      || Answered(s', t, f, th.op, |s.history.calls|)
  {
    if s.threads[t].at.SubBalance? {
      assert IsI64(f.balance - s.threads[t].op.amount);
    }
  }

  function Steps(t: nat, n: nat): seq<Event> {
    if n == 0 then [] else [Step(t)] + Steps(t, n - 1)
  }

  lemma {:induction false} IdleStays(s: State, t: nat, f: Funds, op: Operation, calls: nat, n: nat)
    requires Answered(s, t, f, op, calls)
    ensures Answered(Run(s, Steps(t, n)), t, f, op, calls)
    decreases n
  {
    if n > 0 {
      IdleStays(Execute(s, Step(t)), t, f, op, calls, n - 1);
      RunConcat(s, [Step(t)], Steps(t, n - 1));
      RunOne(s, Step(t));
    }
  }

  /** The state after one step of the thread, from which the others go on. */
  lemma StepOnce(s: State, t: nat, f: Funds, n: nat) returns (s': State)
    requires Sound(f) && Undisturbed(s, t, f) && 0 < n
    ensures Run(s, Steps(t, n)) == Run(s', Steps(t, n - 1))
    ensures
      || (Undisturbed(s', t, f) && s'.threads[t].op == s.threads[t].op && s'.history.calls == s.history.calls
          && StepsLeft(s'.threads[t]) < StepsLeft(s.threads[t]))
      || Answered(s', t, f, s.threads[t].op, |s.history.calls|)
  {
    s' := Execute(s, Step(t));
    UndisturbedStep(CountStep(Tick(s)), t, f);
    RunConcat(s, [Step(t)], Steps(t, n - 1));
    RunOne(s, Step(t));
  }

  lemma {:induction false} UndisturbedRun(s: State, t: nat, f: Funds, n: nat)
    requires Sound(f) && Undisturbed(s, t, f) && StepsLeft(s.threads[t]) <= n
    ensures Answered(Run(s, Steps(t, n)), t, f, s.threads[t].op, |s.history.calls|)
    decreases n
  {
    var s' := StepOnce(s, t, f, n);
    if Answered(s', t, f, s.threads[t].op, |s.history.calls|) {
      IdleStays(s', t, f, s.threads[t].op, |s.history.calls|, n - 1);
    } else {
      UndisturbedRun(s', t, f, n - 1);
    }
  }

  /** Any call run without interruption, whatever other threads were in the middle of, ends after at
      most five steps with exactly the answer of the sequential account, errors and returned
      balances included, and with its effect on both atomics. */
  lemma SoloCallIsSequential(s: State, t: nat, op: Operation)
    requires t < |s.threads| && s.threads[t].Idle? && Sound(FundsOf(s))
    ensures Answered(Run(s, [Invoke(t, op)] + Steps(t, 5)), t, FundsOf(s), op, |s.history.calls|)
  {
    RunOne(s, Invoke(t, op));
    UndisturbedRun(Execute(s, Invoke(t, op)), t, FundsOf(s), 5);
    RunConcat(s, [Invoke(t, op)], Steps(t, 5));
  }

  // ----- the balance that a debit or a credit returns -----

  /** The balance that a credit has written and still has to return. */
  function Carried(th: Thread): Option<int> {
    match th
    case Busy(_, _, CreditLoad(newBalance), _, _, _) => Some(newBalance)
    case Busy(_, _, CreditCas(newBalance, _, _), _, _, _) => Some(newBalance)
    case _ => None
  }

  /** The thread's next step moves the balance by its amount, to v. */
  predicate Writes(s: State, t: nat, v: int) {
    && t < |s.threads| && s.threads[t].Busy?
    && match s.threads[t].op
       case DebitOp(a) => s.threads[t].at.SubBalance? && v == WrapI64(s.balance - a)
       case CreditOp(a) => s.threads[t].at.CasBalance? && s.threads[t].at.seen == s.balance && v == s.balance + a
       case _ => false
  }

  predicate ReturnsBalance(c: Call) {
    (c.op.DebitOp? || c.op.CreditOp?) && c.result.Success?
  }

  /** From s to s', thread t ends up carrying or returning only what it writes or carried before,
      and at most its own call is finished. */
  ghost predicate CarriesOver(s: State, t: nat, s': State)
    requires t < |s.threads| && s.threads[t].Busy?
  {
    var th, n := s.threads[t], |s.history.calls|;
    && |s'.threads| == |s.threads| && WellFormed(s'.threads[t])
    && n <= |s'.history.calls| <= n + 1 && s'.history.calls[..n] == s.history.calls
    && (forall u :: 0 <= u < |s.threads| && u != t ==> s'.threads[u] == s.threads[u])
    && (Carried(s'.threads[t]).Some? ==>
          && s'.threads[t].id == th.id && s'.threads[t].op == th.op
          && (Carried(th) == Carried(s'.threads[t]) || Writes(s, t, Carried(s'.threads[t]).value)))
    && (n < |s'.history.calls| ==>
          && s'.history.calls[n].id == th.id && s'.history.calls[n].op == th.op
          && (ReturnsBalance(s'.history.calls[n]) ==>
                || Carried(th) == Some(s'.history.calls[n].result.value)
                || Writes(s, t, s'.history.calls[n].result.value)))
  }

  lemma StepCarriesOver(s: State, t: nat)
    requires t < |s.threads| && s.threads[t].Busy? && WellFormed(s.threads[t])
    ensures CarriesOver(s, t, Execute(s, Step(t)))
  {
    AdvanceFrame(CountStep(Tick(s)), t);
  }

  /** Some event so far is the write of the balance by this call, and it left v. */
  ghost predicate WroteAt(s0: State, events: seq<Event>, k: nat, id: nat, op: Operation, v: int)
    requires k < |events|
  {
    var s := Run(s0, events[..k]);
    && events[k].Step? && Writes(s, events[k].thread, v)
    && s.threads[events[k].thread].id == id && s.threads[events[k].thread].op == op
    && Run(s0, events[..k + 1]).balance == v
  }

  ghost predicate Wrote(s0: State, events: seq<Event>, id: nat, op: Operation, v: int) {
    exists k :: 0 <= k < |events| && WroteAt(s0, events, k, id, op, v)
  }

  ghost predicate CarriesWritten(s0: State, events: seq<Event>, th: Thread) {
    WellFormed(th) && (Carried(th).Some? ==> Wrote(s0, events, th.id, th.op, Carried(th).value))
  }

  ghost predicate ReturnsWritten(s0: State, events: seq<Event>, c: Call) {
    ReturnsBalance(c) ==> Wrote(s0, events, c.id, c.op, c.result.value)
  }

  ghost predicate AllWritten(s0: State, events: seq<Event>) {
    var s := Run(s0, events);
    && (forall t :: 0 <= t < |s.threads| ==> CarriesWritten(s0, events, s.threads[t]))
    && forall i :: 0 <= i < |s.history.calls| ==> ReturnsWritten(s0, events, s.history.calls[i])
  }

  lemma WroteStays(s0: State, events: seq<Event>, e: Event, id: nat, op: Operation, v: int)
    requires Wrote(s0, events, id, op, v)
    ensures Wrote(s0, events + [e], id, op, v)
  {
    var k :| 0 <= k < |events| && WroteAt(s0, events, k, id, op, v);
    assert (events + [e])[..k] == events[..k] && (events + [e])[..k + 1] == events[..k + 1];
    assert WroteAt(s0, events + [e], k, id, op, v);
  }

  lemma CarriedStays(s0: State, events: seq<Event>, e: Event, th: Thread)
    requires CarriesWritten(s0, events, th)
    ensures CarriesWritten(s0, events + [e], th)
  {
    if Carried(th).Some? {
      WroteStays(s0, events, e, th.id, th.op, Carried(th).value);
    }
  }

  lemma ReturnedStays(s0: State, events: seq<Event>, e: Event, c: Call)
    requires ReturnsWritten(s0, events, c)
    ensures ReturnsWritten(s0, events + [e], c)
  {
    if ReturnsBalance(c) {
      WroteStays(s0, events, e, c.id, c.op, c.result.value);
    }
  }

  lemma WriteLeaves(s: State, t: nat, v: int)
    requires Writes(s, t, v)
    ensures Execute(s, Step(t)).balance == v
  {
  }

  lemma WritesNow(s0: State, events: seq<Event>, t: nat, v: int)
    requires Writes(Run(s0, events), t, v)
    ensures
      var th := Run(s0, events).threads[t];
      Wrote(s0, events + [Step(t)], th.id, th.op, v)
  {
    var longer, th := events + [Step(t)], Run(s0, events).threads[t];
    WriteLeaves(Run(s0, events), t, v);
    assert longer[..|events|] == events && longer[..|events| + 1] == longer;
    assert WroteAt(s0, longer, |events|, th.id, th.op, v);
  }

  /** What a thread carries or returns after an event, it wrote just now or carried before. */
  lemma StillWritten(s0: State, events: seq<Event>, t: nat, v: int)
    requires t < |Run(s0, events).threads| && Run(s0, events).threads[t].Busy?
    requires CarriesWritten(s0, events, Run(s0, events).threads[t])
    requires Carried(Run(s0, events).threads[t]) == Some(v) || Writes(Run(s0, events), t, v)
    ensures
      var th := Run(s0, events).threads[t];
      Wrote(s0, events + [Step(t)], th.id, th.op, v)
  {
    var th := Run(s0, events).threads[t];
    if Carried(th) == Some(v) {
      WroteStays(s0, events, Step(t), th.id, th.op, v);
    } else {
      WritesNow(s0, events, t, v);
    }
  }

  lemma StepKeepsWritten(s0: State, events: seq<Event>, t: nat, s': State)
    requires t < |Run(s0, events).threads| && Run(s0, events).threads[t].Busy?
    requires CarriesWritten(s0, events, Run(s0, events).threads[t]) && CarriesOver(Run(s0, events), t, s')
    ensures CarriesWritten(s0, events + [Step(t)], s'.threads[t])
    ensures
      var n := |Run(s0, events).history.calls|;
      n < |s'.history.calls| ==> ReturnsWritten(s0, events + [Step(t)], s'.history.calls[n])
  {
    var n := |Run(s0, events).history.calls|;
    if Carried(s'.threads[t]).Some? {
      StillWritten(s0, events, t, Carried(s'.threads[t]).value);
    }
    if n < |s'.history.calls| && ReturnsBalance(s'.history.calls[n]) {
      StillWritten(s0, events, t, s'.history.calls[n].result.value);
    }
  }

  lemma EventKeepsWritten(s0: State, events: seq<Event>, e: Event)
    requires AllWritten(s0, events)
    ensures AllWritten(s0, events + [e])
  {
    var s := Run(s0, events);
    RunConcat(s0, events, [e]);
    RunOne(s, e);
    forall t | 0 <= t < |s.threads| ensures CarriesWritten(s0, events + [e], s.threads[t]) {
      CarriedStays(s0, events, e, s.threads[t]);
    }
    forall i | 0 <= i < |s.history.calls| ensures ReturnsWritten(s0, events + [e], s.history.calls[i]) {
      ReturnedStays(s0, events, e, s.history.calls[i]);
    }
    if e.Step? && e.thread < |s.threads| && s.threads[e.thread].Busy? {
      StepCarriesOver(s, e.thread);
      StepKeepsWritten(s0, events, e.thread, Run(s0, events + [e]));
      StepExtendsWritten(s0, events + [e], s, e.thread, Run(s0, events + [e]));
    }
  }

  lemma StepExtendsWritten(s0: State, longer: seq<Event>, s: State, t: nat, s': State)
    requires t < |s.threads| && s.threads[t].Busy? && CarriesOver(s, t, s')
    requires forall u :: 0 <= u < |s.threads| ==> CarriesWritten(s0, longer, s.threads[u])
    requires forall i :: 0 <= i < |s.history.calls| ==> ReturnsWritten(s0, longer, s.history.calls[i])
    requires CarriesWritten(s0, longer, s'.threads[t])
    requires |s.history.calls| < |s'.history.calls| ==> ReturnsWritten(s0, longer, s'.history.calls[|s.history.calls|])
    ensures forall u :: 0 <= u < |s'.threads| ==> CarriesWritten(s0, longer, s'.threads[u])
    ensures forall i :: 0 <= i < |s'.history.calls| ==> ReturnsWritten(s0, longer, s'.history.calls[i])
  {
    forall i | 0 <= i < |s'.history.calls| ensures ReturnsWritten(s0, longer, s'.history.calls[i]) {
      if i < |s.history.calls| {
        assert s'.history.calls[..|s.history.calls|][i] == s.history.calls[i];
      }
    }
  }

  /** Over every run, the balance that a debit or a credit returns is the one that its own write
      left: what the balance was at that moment, less or plus the amount. */
  lemma {:induction false} ReturnedBalancesWereWritten(initial: int, threads: nat, events: seq<Event>)
    ensures AllWritten(Initial(initial, threads), events)
  {
    if events != [] {
      var before, e := events[..|events| - 1], events[|events| - 1];
      ReturnedBalancesWereWritten(initial, threads, before);
      EventKeepsWritten(Initial(initial, threads), before, e);
      assert events == before + [e];
    }
  }

  // ----- why a call fails -----

  /** The error holds of the state in which thread t takes its next step. A release compares its
      first load with the balance of this state. */
  predicate Justifies(s: State, t: nat, error: AccountError) {
    && t < |s.threads| && s.threads[t].Busy?
    && var th := s.threads[t];
       match error
       case InvalidAmount =>
         th.op.amount <= 0 || (th.op.ReleaseOp? && th.at.LoadGuard? && th.at.current + th.op.amount > I64_MAX)
       case AccountNotOpen(status) => th.at.CheckCall? && th.op.amount > 0 && status == s.status != Open
       case InsufficientFunds(available, required) =>
         && (th.op.DebitOp? || th.op.HoldOp?) && th.at.LoadAvailable?
         && available == s.available < required == th.op.amount
       case Overflow =>
         && th.op.CreditOp?
         && (|| (th.at.LoadBalance? && s.balance + th.op.amount > I64_MAX)
             || (th.at.CreditLoad? && s.available + th.op.amount > I64_MAX))
       case ReleaseExceedsHeld(current, balance, amount) =>
         && th.op.ReleaseOp? && th.at.LoadGuard? && current == th.at.current && balance == s.balance
         && amount == th.op.amount && current + amount > balance
  }

  /** From s to s', the call of thread t ends with an error exactly if some error holds in s, and
      with that one, and then neither atomic is written. */
  ghost predicate FailsForReason(s: State, t: nat, s': State)
    requires t < |s.threads| && s.threads[t].Busy?
  {
    var n := |s.history.calls|;
    var failed := n < |s'.history.calls| && s'.history.calls[n].result.Failure?;
    && (failed <==> exists error :: Justifies(s, t, error))
    && (failed ==> Justifies(s, t, s'.history.calls[n].result.error) && s'.balance == s.balance && s'.available == s.available)
  }

  lemma StepFailsForReason(s: State, t: nat)
    requires t < |s.threads| && s.threads[t].Busy? && WellFormed(s.threads[t])
    ensures FailsForReason(s, t, Execute(s, Step(t)))
  {
    var n, calls := |s.history.calls|, Execute(s, Step(t)).history.calls;
    if |calls| > n && calls[n].result.Failure? {
      assert Justifies(s, t, calls[n].result.error);
    }
  }

  /** Event k is a step of this call at which the error holds. */
  ghost predicate JustifiedAt(s0: State, events: seq<Event>, k: nat, c: Call)
    requires k < |events| && c.result.Failure?
  {
    var s := Run(s0, events[..k]);
    && events[k].Step? && Justifies(s, events[k].thread, c.result.error)
    && s.threads[events[k].thread].id == c.id && s.threads[events[k].thread].op == c.op
  }

  ghost predicate Justified(s0: State, events: seq<Event>, c: Call) {
    c.result.Failure? ==> exists k :: 0 <= k < |events| && JustifiedAt(s0, events, k, c)
  }

  ghost predicate AllJustified(s0: State, events: seq<Event>) {
    var s := Run(s0, events);
    && (forall t :: 0 <= t < |s.threads| ==> WellFormed(s.threads[t]))
    && forall i :: 0 <= i < |s.history.calls| ==> Justified(s0, events, s.history.calls[i])
  }

  lemma StepKeepsJustified(s0: State, events: seq<Event>, t: nat, s': State)
    requires AllJustified(s0, events)
    requires t < |Run(s0, events).threads| && Run(s0, events).threads[t].Busy?
    requires CarriesOver(Run(s0, events), t, s') && FailsForReason(Run(s0, events), t, s')
    ensures
      var n := |Run(s0, events).history.calls|;
      n < |s'.history.calls| ==> Justified(s0, events + [Step(t)], s'.history.calls[n])
  {
    var n := |Run(s0, events).history.calls|;
    if n < |s'.history.calls| && s'.history.calls[n].result.Failure? {
      assert (events + [Step(t)])[..|events|] == events;
      assert JustifiedAt(s0, events + [Step(t)], |events|, s'.history.calls[n]);
    }
  }

  lemma EventKeepsJustified(s0: State, events: seq<Event>, e: Event)
    requires AllJustified(s0, events)
    ensures AllJustified(s0, events + [e])
  {
    var s, s' := Run(s0, events), Run(s0, events + [e]);
    RunConcat(s0, events, [e]);
    RunOne(s, e);
    forall i | 0 <= i < |s.history.calls| ensures Justified(s0, events + [e], s.history.calls[i]) {
      JustifiedStays(s0, events, e, s.history.calls[i]);
    }
    if e.Step? && e.thread < |s.threads| && s.threads[e.thread].Busy? {
      StepCarriesOver(s, e.thread);
      StepFailsForReason(s, e.thread);
      StepKeepsJustified(s0, events, e.thread, s');
      forall i | 0 <= i < |s.history.calls| ensures s'.history.calls[i] == s.history.calls[i] {
        assert s'.history.calls[i] == s'.history.calls[..|s.history.calls|][i];
      }
    }
  }

  lemma JustifiedStays(s0: State, events: seq<Event>, e: Event, c: Call)
    requires Justified(s0, events, c)
    ensures Justified(s0, events + [e], c)
  {
    if c.result.Failure? {
      var k :| 0 <= k < |events| && JustifiedAt(s0, events, k, c);
      assert (events + [e])[..k] == events[..k];
      assert JustifiedAt(s0, events + [e], k, c);
    }
  }

  /** Over every run, disciplined or not, a call fails only for a reason that held at one of its
      own steps, and its caller is told the amounts of that moment. */
  lemma {:induction false} FailuresAreJustified(initial: int, threads: nat, events: seq<Event>)
    ensures AllJustified(Initial(initial, threads), events)
  {
    if events != [] {
      var before, e := events[..|events| - 1], events[|events| - 1];
      FailuresAreJustified(initial, threads, before);
      EventKeepsJustified(Initial(initial, threads), before, e);
      assert events == before + [e];
    }
  }
}

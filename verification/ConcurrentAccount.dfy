/**
 * The lock-free account under arbitrary interleaving. Every load, compare-exchange and
 * fetch_sub of src/domain/account.rs is one step of one thread; any number of threads runs
 * any number of calls, and the status may change between any two steps.
 */
module ConcurrentAccount {
  import opened Wrappers
  import opened AccountSpec

  /** Where a running call stands. `version` is the number of writes the atomic had seen
      when it was loaded. */
  datatype Point =
    | CheckCall
    | LoadAvailable
    | LoadGuard(current: int, version: nat)                       // release: second load
    | CasAvailable(seen: int, version: nat)
    | SubBalance(lin: nat)                                        // debit: second write
    | LoadBalance
    | CasBalance(seen: int, version: nat)
    | CreditLoad(newBalance: int)                                 // credit: second write
    | CreditCas(newBalance: int, seen: int, version: nat)

  /** `id` numbers the call, `invoked` is the time of its invocation, and the last two fields
      count its failed compare-exchanges on each atomic. */
  datatype Thread =
    | Idle
    | Busy(id: nat, op: Operation, at: Point, invoked: nat, failsAvailable: nat, failsBalance: nat)

  /** A linearization point: call `id` takes effect, or is refused, at `time`. */
  datatype LogEntry = LogEntry(id: nat, op: Operation, verdict: Verdict, time: nat)
  datatype Verdict = Accepted | Refused(error: AccountError)

  /** A finished call, with its place in the log if it has one. */
  datatype Call = Call(id: nat, op: Operation, result: Result<int, AccountError>,
                       invoked: nat, returned: nat, lin: Option<nat>, fails: nat)

  /** Bookkeeping that no step reads: `held` is the amount placed on hold and not yet
      released. */
  datatype History = History(time: nat, held: int, log: seq<LogEntry>, calls: seq<Call>, started: nat,
                             writesAvailable: nat, writesBalance: nat, fails: nat, steps: nat)

  datatype State = State(balance: int, available: int, status: AccountStatus, threads: seq<Thread>, history: History)

  datatype Event = Invoke(thread: nat, op: Operation) | Step(thread: nat) | ChangeStatus(status: AccountStatus)

  function Initial(initial: int, threads: nat): State {
    State(initial, initial, Open, seq(threads, i => Idle), History(0, 0, [], [], 0, 0, 0, 0, 0))
  }

  // ----- steps -----

  function Goto(s: State, t: nat, at: Point): State
    requires t < |s.threads| && s.threads[t].Busy?
  {
    s.(threads := s.threads[t := s.threads[t].(at := at)])
  }

  /** A compare-exchange on the available balance failed. */
  function RetryAvailable(s: State, t: nat, at: Point): State
    requires t < |s.threads| && s.threads[t].Busy?
  {
    var th := s.threads[t];
    s.(threads := s.threads[t := th.(at := at, failsAvailable := th.failsAvailable + 1)],
       history := s.history.(fails := s.history.fails + 1))
  }

  /** A compare-exchange on the balance failed. */
  function RetryBalance(s: State, t: nat): State
    requires t < |s.threads| && s.threads[t].Busy?
  {
    var th := s.threads[t];
    s.(threads := s.threads[t := th.(at := LoadBalance, failsBalance := th.failsBalance + 1)],
       history := s.history.(fails := s.history.fails + 1))
  }

  function Return(s: State, t: nat, result: Result<int, AccountError>, lin: Option<nat>): State
    requires t < |s.threads| && s.threads[t].Busy?
  {
    var th := s.threads[t];
    var call := Call(th.id, th.op, result, th.invoked, s.history.time, lin, th.failsAvailable + th.failsBalance);
    s.(threads := s.threads[t := Idle], history := s.history.(calls := s.history.calls + [call]))
  }

  function Linearize(s: State, t: nat, verdict: Verdict): State
    requires t < |s.threads| && s.threads[t].Busy?
  {
    var th := s.threads[t];
    s.(history := s.history.(log := s.history.log + [LogEntry(th.id, th.op, verdict, s.history.time)]))
  }

  function SetAvailable(s: State, available: int): State {
    s.(available := available, history := s.history.(writesAvailable := s.history.writesAvailable + 1))
  }

  function SetBalance(s: State, balance: int): State {
    s.(balance := balance, history := s.history.(writesBalance := s.history.writesBalance + 1))
  }

  function CheckStep(s: State, t: nat): State
    requires t < |s.threads| && s.threads[t].Busy?
  {
    var op := s.threads[t].op;
    if op.amount <= 0 then Return(s, t, Failure(InvalidAmount), None)
    else if s.status != Open then Return(s, t, Failure(AccountNotOpen(s.status)), None)
    else Goto(s, t, if op.CreditOp? then LoadBalance else LoadAvailable)
  }

  function LoadAvailableStep(s: State, t: nat): State
    requires t < |s.threads| && s.threads[t].Busy?
  {
    var op := s.threads[t].op;
    if op.ReleaseOp? then Goto(s, t, LoadGuard(s.available, s.history.writesAvailable))
    else if s.available < op.amount then
      var error := InsufficientFunds(s.available, op.amount);
      Return(Linearize(s, t, Refused(error)), t, Failure(error), Some(|s.history.log|))
    else Goto(s, t, CasAvailable(s.available, s.history.writesAvailable))
  }

  function LoadGuardStep(s: State, t: nat): State
    requires t < |s.threads| && s.threads[t].Busy? && s.threads[t].at.LoadGuard?
  {
    var amount, current := s.threads[t].op.amount, s.threads[t].at.current;
    if current + amount > I64_MAX then Return(s, t, Failure(InvalidAmount), None)
    else if current + amount > s.balance then
      Return(s, t, Failure(ReleaseExceedsHeld(current, s.balance, amount)), None)
    else Goto(s, t, CasAvailable(current, s.threads[t].at.version))
  }

  function CasAvailableStep(s: State, t: nat): State
    requires t < |s.threads| && s.threads[t].Busy? && s.threads[t].at.CasAvailable?
  {
    var op := s.threads[t].op;
    var lin := |s.history.log|;
    if s.available != s.threads[t].at.seen then RetryAvailable(s, t, LoadAvailable)
    else
      var written := SetAvailable(s, if op.ReleaseOp? then s.available + op.amount else s.available - op.amount);
      var s' := Linearize(written, t, Accepted);
      match op
      case HoldOp(a) => Return(s'.(history := s'.history.(held := s'.history.held + a)), t, Success(0), Some(lin))
      case ReleaseOp(a) => Return(s'.(history := s'.history.(held := s'.history.held - a)), t, Success(0), Some(lin))
      case _ => Goto(s', t, SubBalance(lin))
  }

  function SubBalanceStep(s: State, t: nat): State
    requires t < |s.threads| && s.threads[t].Busy? && s.threads[t].at.SubBalance?
  {
    var newBalance := WrapI64(s.balance - s.threads[t].op.amount);
    Return(SetBalance(s, newBalance), t, Success(newBalance), Some(s.threads[t].at.lin))
  }

  function LoadBalanceStep(s: State, t: nat): State
    requires t < |s.threads| && s.threads[t].Busy?
  {
    if s.balance + s.threads[t].op.amount > I64_MAX then Return(s, t, Failure(Overflow), None)
    else Goto(s, t, CasBalance(s.balance, s.history.writesBalance))
  }

  function CasBalanceStep(s: State, t: nat): State
    requires t < |s.threads| && s.threads[t].Busy? && s.threads[t].at.CasBalance?
  {
    var newBalance := s.threads[t].at.seen + s.threads[t].op.amount;
    if s.balance != s.threads[t].at.seen then RetryBalance(s, t)
    else Goto(SetBalance(s, newBalance), t, CreditLoad(newBalance))
  }

  function CreditLoadStep(s: State, t: nat): State
    requires t < |s.threads| && s.threads[t].Busy? && s.threads[t].at.CreditLoad?
  {
    if s.available + s.threads[t].op.amount > I64_MAX then Return(s, t, Failure(Overflow), None)
    else Goto(s, t, CreditCas(s.threads[t].at.newBalance, s.available, s.history.writesAvailable))
  }

  function CreditCasStep(s: State, t: nat): State
    requires t < |s.threads| && s.threads[t].Busy? && s.threads[t].at.CreditCas?
  {
    var at := s.threads[t].at;
    if s.available != at.seen then RetryAvailable(s, t, CreditLoad(at.newBalance))
    else
      var s' := Linearize(SetAvailable(s, at.seen + s.threads[t].op.amount), t, Accepted);
      Return(s', t, Success(at.newBalance), Some(|s.history.log|))
  }

  function Advance(s: State, t: nat): State
    requires t < |s.threads| && s.threads[t].Busy?
  {
    match s.threads[t].at
    case CheckCall => CheckStep(s, t)
    case LoadAvailable => LoadAvailableStep(s, t)
    case LoadGuard(_, _) => LoadGuardStep(s, t)
    case CasAvailable(_, _) => CasAvailableStep(s, t)
    case SubBalance(_) => SubBalanceStep(s, t)
    case LoadBalance => LoadBalanceStep(s, t)
    case CasBalance(_, _) => CasBalanceStep(s, t)
    case CreditLoad(_) => CreditLoadStep(s, t)
    case CreditCas(_, _, _) => CreditCasStep(s, t)
  }

  /** A step of one thread leaves every other thread where it was. */
  lemma AdvanceFrame(s: State, t: nat)
    requires t < |s.threads| && s.threads[t].Busy?
    ensures |Advance(s, t).threads| == |s.threads|
    ensures Advance(s, t).threads == s.threads[t := Advance(s, t).threads[t]]
  {
  }

  function Tick(s: State): State {
    s.(history := s.history.(time := s.history.time + 1))
  }

  function CountStep(s: State): State {
    s.(history := s.history.(steps := s.history.steps + 1))
  }

  function Start(s: State, t: nat, op: Operation): State
    requires t < |s.threads|
  {
    s.(threads := s.threads[t := Busy(s.history.started, op, CheckCall, s.history.time, 0, 0)],
       history := s.history.(started := s.history.started + 1))
  }

  /** One event; an event that is not enabled only lets time pass. */
  function Execute(s: State, e: Event): State {
    match e
    case Invoke(t, op) => if t < |s.threads| && s.threads[t].Idle? then Start(Tick(s), t, op) else Tick(s)
    case Step(t) => if t < |s.threads| && s.threads[t].Busy? then Advance(CountStep(Tick(s)), t) else Tick(s)
    case ChangeStatus(status) => Tick(s).(status := status)
  }

  function Run(s: State, events: seq<Event>): State {
    if events == [] then s else Execute(Run(s, events[..|events| - 1]), events[|events| - 1])
  }

  // ----- measures over threads -----

  /** The amount by which a call between its two writes has split balance from available. */
  function BetweenWrites(th: Thread): int {
    if th.Busy? && (th.at.SubBalance? || th.at.CreditLoad? || th.at.CreditCas?) then th.op.amount else 0
  }

  /** The held amount a running release has been asked to give back. */
  function Claim(th: Thread): int {
    if th.Busy? && th.op.ReleaseOp? && th.op.amount > 0 then th.op.amount else 0
  }

  function Unlinearized(th: Thread): int {
    if th.Busy? && !th.at.SubBalance? then 1 else 0
  }

  function UnwrittenBalance(th: Thread): int {
    if th.Busy? && !th.at.CreditLoad? && !th.at.CreditCas? then 1 else 0
  }

  function Running(th: Thread): int {
    if th.Busy? then 1 else 0
  }

  function Fails(th: Thread): int {
    if th.Busy? then th.failsAvailable + th.failsBalance else 0
  }

  function CallFails(c: Call): int { c.fails }

  /** Steps taken by a call since its invocation or its last failed compare-exchange. */
  function Progress(th: Thread): int {
    if th.Idle? then 0 else
      match th.at
      case CheckCall => 0
      case LoadAvailable => 1
      case LoadGuard(_, _) => 2
      case CasAvailable(_, _) => if th.op.ReleaseOp? then 3 else 2
      case SubBalance(_) => 3
      case LoadBalance => 1
      case CasBalance(_, _) => 2
      case CreditLoad(_) => 3
      case CreditCas(_, _, _) => 4
  }

  /** Each point belongs to the operations that reach it, past the amount check. */
  predicate WellFormed(th: Thread) {
    th.Busy? ==>
      && (!th.at.CheckCall? ==> th.op.amount > 0)
      && match th.at
         case CheckCall => true
         case LoadAvailable => !th.op.CreditOp?
         case LoadGuard(_, _) => th.op.ReleaseOp?
         case CasAvailable(seen, _) => !th.op.CreditOp? && (th.op.ReleaseOp? || th.op.amount <= seen)
         case SubBalance(_) => th.op.DebitOp?
         case LoadBalance => th.op.CreditOp?
         case CasBalance(seen, _) => th.op.CreditOp? && seen + th.op.amount <= I64_MAX
         case CreditLoad(_) => th.op.CreditOp?
         case CreditCas(_, seen, _) => th.op.CreditOp? && seen + th.op.amount <= I64_MAX
  }
}

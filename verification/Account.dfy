/**
 * The ledger account as one caller at a time sees it: each operation's exact effect,
 * including the 64-bit wrap of `fetch_sub` and the order of the two writes of a credit.
 * Module Account performs the operations in place, and ConcurrentAccount refines its
 * interleavings to these functions.
 */
module AccountSpec {
  import opened Wrappers

  const I64_MAX: int := 0x7FFF_FFFF_FFFF_FFFF
  const I64_MIN: int := -0x8000_0000_0000_0000

  predicate IsI64(x: int) {
    I64_MIN <= x <= I64_MAX
  }

  /** Two's-complement wrap, as performed by `fetch_sub`. */
  function WrapI64(x: int): (r: int)
    ensures IsI64(r)
    ensures IsI64(x) ==> r == x
    ensures (r - x) % 0x1_0000_0000_0000_0000 == 0
  {
    (x - I64_MIN) % 0x1_0000_0000_0000_0000 + I64_MIN
  }

  datatype AccountStatus = Open | Frozen | Closed

  /** The union of the source's DebitError, CreditError and HoldError. */
  datatype AccountError =
    | InvalidAmount
    | AccountNotOpen(status: AccountStatus)
    | InsufficientFunds(available: int, requested: int)
    | Overflow
    | ReleaseExceedsHeld(available: int, balance: int, attempted: int)

  datatype StatusError = ClosedAccount | InvalidTransition(from: AccountStatus, to: AccountStatus)

  /** The mutable part of an account. */
  datatype Funds = Funds(balance: int, available: int, status: AccountStatus)

  type AccountId = nat
  type Accounts = map<AccountId, Funds>

  /** What every reachable account satisfies: both fields fit, and holds are non-negative. */
  predicate Sound(f: Funds) {
    I64_MIN <= f.available <= f.balance <= I64_MAX
  }

  function Debit(f: Funds, amount: int): (Funds, Result<int, AccountError>) {
    if amount <= 0 then (f, Failure(InvalidAmount))
    else if f.status != Open then (f, Failure(AccountNotOpen(f.status)))
    else if f.available < amount then (f, Failure(InsufficientFunds(f.available, amount)))
    else
      var newBalance := WrapI64(f.balance - amount);
      (Funds(newBalance, f.available - amount, f.status), Success(newBalance))
  }

  function Credit(f: Funds, amount: int): (Funds, Result<int, AccountError>) {
    if amount <= 0 then (f, Failure(InvalidAmount))
    else if f.status != Open then (f, Failure(AccountNotOpen(f.status)))
    else if f.balance + amount > I64_MAX then (f, Failure(Overflow))
    else
      var f' := f.(balance := f.balance + amount);
      if f.available + amount > I64_MAX then (f', Failure(Overflow))
      else (f'.(available := f.available + amount), Success(f'.balance))
  }

  function PlaceHold(f: Funds, amount: int): (Funds, Result<int, AccountError>) {
    if amount <= 0 then (f, Failure(InvalidAmount))
    else if f.status != Open then (f, Failure(AccountNotOpen(f.status)))
    else if f.available < amount then (f, Failure(InsufficientFunds(f.available, amount)))
    else (f.(available := f.available - amount), Success(0))
  }

  function ReleaseHold(f: Funds, amount: int): (Funds, Result<int, AccountError>) {
    if amount <= 0 then (f, Failure(InvalidAmount))
    else if f.status != Open then (f, Failure(AccountNotOpen(f.status)))
    else if f.available + amount > I64_MAX then (f, Failure(InvalidAmount))
    else if f.available + amount > f.balance then
      (f, Failure(ReleaseExceedsHeld(f.available, f.balance, amount)))
    else (f.(available := f.available + amount), Success(0))
  }

  function SetStatus(f: Funds, next: AccountStatus): (Funds, Result<(), StatusError>) {
    match (f.status, next)
    case (Closed, _) => (f, Failure(ClosedAccount))
    case (_, Closed) => (f.(status := next), Success(()))
    case (Open, Frozen) => (f.(status := next), Success(()))
    case (Frozen, Open) => (f.(status := next), Success(()))
    case (_, _) => (f, Failure(InvalidTransition(f.status, next)))
  }

  datatype Operation = DebitOp(amount: int) | CreditOp(amount: int) | HoldOp(amount: int) | ReleaseOp(amount: int)

  function Apply(f: Funds, op: Operation): (Funds, Result<int, AccountError>) {
    match op
    case DebitOp(amount) => Debit(f, amount)
    case CreditOp(amount) => Credit(f, amount)
    case HoldOp(amount) => PlaceHold(f, amount)
    case ReleaseOp(amount) => ReleaseHold(f, amount)
  }

  function Inverse(op: Operation): Operation {
    match op
    case DebitOp(amount) => CreditOp(amount)
    case CreditOp(amount) => DebitOp(amount)
    case HoldOp(amount) => ReleaseOp(amount)
    case ReleaseOp(amount) => HoldOp(amount)
  }

  /** The four guards in one clause: on a sound account an operation succeeds exactly when the
      account is open, the amount is positive, and the moved amount fits below the limit that
      the operation may not cross. A refused operation changes nothing, and an accepted one
      keeps the account sound without any wrap. */
  lemma ApplyOutcome(f: Funds, op: Operation)
    requires Sound(f)
    ensures Sound(Apply(f, op).0)
    ensures Apply(f, op).1.Failure? ==> Apply(f, op).0 == f
    ensures Apply(f, op).1.Success? <==>
      f.status == Open && op.amount > 0 &&
      match op
      case DebitOp(a) => a <= f.available
      case HoldOp(a) => a <= f.available
      case CreditOp(a) => a <= I64_MAX - f.balance
      case ReleaseOp(a) => a <= f.balance - f.available
    ensures Apply(f, op).1.Success? ==>
      Apply(f, op).0 == match op
        case DebitOp(a) => Funds(f.balance - a, f.available - a, f.status)
        case CreditOp(a) => Funds(f.balance + a, f.available + a, f.status)
        case HoldOp(a) => Funds(f.balance, f.available - a, f.status)
        case ReleaseOp(a) => Funds(f.balance, f.available + a, f.status)
  {
    if op.DebitOp? && 0 < op.amount <= f.available {
      assert IsI64(f.balance - op.amount);
    }
  }

  /** What the caller is told: a debit or a credit returns the new balance, and a refusal names the
      first guard that failed, with the amounts that it compared. */
  lemma ApplyAnswers(f: Funds, op: Operation)
    requires Sound(f)
    ensures
      match Apply(f, op).1
      case Success(value) =>
        value == (match op case DebitOp(a) => f.balance - a case CreditOp(a) => f.balance + a case _ => 0)
      case Failure(error) =>
        if op.amount <= 0 then error == InvalidAmount
        else if f.status != Open then error == AccountNotOpen(f.status)
        else match op
          case CreditOp(_) => error == Overflow
          case ReleaseOp(a) =>
            error == if f.available + a <= I64_MAX then ReleaseExceedsHeld(f.available, f.balance, a) else InvalidAmount
          case _ => error == InsufficientFunds(f.available, op.amount)
  {
    ApplyOutcome(f, op);
    if op.DebitOp? && 0 < op.amount <= f.available {
      assert IsI64(f.balance - op.amount);
    }
  }

  /** An account that is not closed can be closed, and an open one frozen and a frozen one opened;
      nothing else changes its status, and no change of status touches its amounts. */
  lemma StatusTransitions(f: Funds, next: AccountStatus)
    ensures SetStatus(f, next).1.Success? <==> f.status != Closed && next != f.status
    ensures SetStatus(f, next).0 == if SetStatus(f, next).1.Success? then Funds(f.balance, f.available, next) else f
    ensures SetStatus(f, next).1.Failure? ==>
      SetStatus(f, next).1.error == if f.status == Closed then ClosedAccount else InvalidTransition(f.status, next)
  {
  }

  function SetStatuses(f: Funds, statuses: seq<AccountStatus>): Funds {
    if statuses == [] then f else SetStatus(SetStatuses(f, statuses[..|statuses| - 1]), statuses[|statuses| - 1]).0
  }

  /** Over any requests, the account is closed in the end exactly if it was at the start or one of
      them asked for it: closing always succeeds and is final. */
  lemma {:induction false} ClosedIsFinal(f: Funds, statuses: seq<AccountStatus>)
    ensures SetStatuses(f, statuses).status == Closed <==> f.status == Closed || Closed in statuses
    ensures SetStatuses(f, statuses).balance == f.balance && SetStatuses(f, statuses).available == f.available
  {
    if statuses != [] {
      var before, last := statuses[..|statuses| - 1], statuses[|statuses| - 1];
      ClosedIsFinal(f, before);
      StatusTransitions(SetStatuses(f, before), last);
      assert statuses == before + [last];
    }
  }

  /** A successful operation is undone by its inverse exactly when the original available
      amount was non-negative, or the operation took funds out of the available amount. */
  lemma InverseUndoes(f: Funds, op: Operation)
    requires Sound(f) && Apply(f, op).1.Success?
    ensures Apply(Apply(f, op).0, Inverse(op)).1.Success? <==> op.DebitOp? || op.HoldOp? || 0 <= f.available
    ensures Apply(Apply(f, op).0, Inverse(op)).1.Success? ==> Apply(Apply(f, op).0, Inverse(op)).0 == f
  {
    ApplyOutcome(f, op);
    ApplyOutcome(Apply(f, op).0, Inverse(op));
  }
}

module Account {
  import opened Wrappers
  import opened Spec = AccountSpec

  /** An account updated in place. Run alone, every compare-exchange of the source's retry
      loops succeeds at its first attempt, so each loop body runs once. */
  class Account {
    var balance: int
    var available: int
    var status: AccountStatus

    function View(): Funds
      reads this
    {
      Funds(balance, available, status)
    }

    constructor (initial: int)
      ensures View() == Funds(initial, initial, Open)
    {
      balance, available, status := initial, initial, Open;
    }

    method SetStatus(next: AccountStatus) returns (r: Result<(), StatusError>)
      modifies this`status
      ensures (View(), r) == Spec.SetStatus(old(View()), next)
    {
      match (status, next) {
        case (Closed, _) => return Failure(ClosedAccount);
        case (_, Closed) =>
        case (Open, Frozen) =>
        case (Frozen, Open) =>
        case (_, _) => return Failure(InvalidTransition(status, next));
      }
      status := next;
      return Success(());
    }

    method Debit(amount: int) returns (r: Result<int, AccountError>)
      modifies this`balance, this`available
      ensures (View(), r) == Spec.Debit(old(View()), amount)
    {
      if amount <= 0 {
        return Failure(InvalidAmount);
      }
      if status != Open {
        return Failure(AccountNotOpen(status));
      }
      var seen := available;
      if seen < amount {
        return Failure(InsufficientFunds(seen, amount));
      }
      available := seen - amount;
      balance := WrapI64(balance - amount);
      return Success(balance);
    }

    method Credit(amount: int) returns (r: Result<int, AccountError>)
      modifies this`balance, this`available
      ensures (View(), r) == Spec.Credit(old(View()), amount)
    {
      if amount <= 0 {
        return Failure(InvalidAmount);
      }
      if status != Open {
        return Failure(AccountNotOpen(status));
      }
      var newBalance := balance + amount;
      if newBalance > I64_MAX {
        return Failure(Overflow);
      }
      balance := newBalance;
      var newAvailable := available + amount;
      if newAvailable > I64_MAX {
        return Failure(Overflow);
      }
      available := newAvailable;
      return Success(newBalance);
    }

    method PlaceHold(amount: int) returns (r: Result<int, AccountError>)
      modifies this`available
      ensures (View(), r) == Spec.PlaceHold(old(View()), amount)
    {
      if amount <= 0 {
        return Failure(InvalidAmount);
      }
      if status != Open {
        return Failure(AccountNotOpen(status));
      }
      if available < amount {
        return Failure(InsufficientFunds(available, amount));
      }
      available := available - amount;
      return Success(0);
    }

    method ReleaseHold(amount: int) returns (r: Result<int, AccountError>)
      modifies this`available
      ensures (View(), r) == Spec.ReleaseHold(old(View()), amount)
    {
      if amount <= 0 {
        return Failure(InvalidAmount);
      }
      if status != Open {
        return Failure(AccountNotOpen(status));
      }
      var newAvailable := available + amount;
      if newAvailable > I64_MAX {
        return Failure(InvalidAmount);
      }
      if newAvailable > balance {
        return Failure(ReleaseExceedsHeld(available, balance, amount));
      }
      available := newAvailable;
      return Success(0);
    }
  }
}

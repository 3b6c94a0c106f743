/**
 * When the ledger service records an entry and what it answers, in terms of the accounts as they
 * were before the call, and which transactions end up committed.
 */
module LedgerAnswers {
  import opened Wrappers
  import opened AccountSpec
  import opened Journal
  import opened LedgerSpec

  // ----- which legs can be posted -----

  /** Leg k can be posted once the legs before it are: its account exists and is open, its amount
      is positive, and a debit is covered and a credit has room. */
  ghost predicate PostingFits(accounts: Accounts, legs: seq<EntryLeg>, k: nat)
    requires k < |legs|
  {
    var leg, earlier := legs[k], Net(legs[..k], legs[k].account);
    && leg.account in accounts && accounts[leg.account].status == Open && leg.amount > 0
    && if leg.side == DebitSide then leg.amount <= accounts[leg.account].available + earlier
       else accounts[leg.account].balance + earlier + leg.amount <= I64_MAX
  }

  /** The error of a leg that cannot: the first of its conditions that fails. */
  function Misfit(accounts: Accounts, legs: seq<EntryLeg>, k: nat): LedgerError
    requires k < |legs|
  {
    var leg := legs[k];
    if leg.account !in accounts then AccountNotFound(leg.account) else
      var funds := accounts[leg.account];
      LegError(leg, if leg.amount <= 0 then InvalidAmount
                    else if funds.status != Open then AccountNotOpen(funds.status)
                    else if leg.side == CreditSide then Overflow
                    else InsufficientFunds(funds.available + Net(legs[..k], leg.account), leg.amount))
  }

  lemma FirstLegFits(accounts: Accounts, legs: seq<EntryLeg>)
    requires AllSound(accounts) && legs != []
    ensures
      var (accounts', error) := ApplyLeg(accounts, legs[0]);
      && AllSound(accounts')
      && (if PostingFits(accounts, legs, 0) then error.None? && Posted(accounts, [legs[0]], accounts')
          else error == Some(Misfit(accounts, legs, 0)) && accounts' == accounts)
  {
    assert legs[..0] == [] && Net([], legs[0].account) == 0;
    ApplyLegPosts(accounts, legs[0]);
    if legs[0].account in accounts {
      ApplyOutcome(accounts[legs[0].account], LegOperation(legs[0]));
      ApplyAnswers(accounts[legs[0].account], LegOperation(legs[0]));
    }
  }

  lemma LaterLegFits(a: Accounts, legs: seq<EntryLeg>, b: Accounts, k: nat)
    requires k + 1 < |legs| && Posted(a, [legs[0]], b)
    ensures PostingFits(b, legs[1..], k) <==> PostingFits(a, legs, k + 1)
    ensures Misfit(b, legs[1..], k) == Misfit(a, legs, k + 1)
  {
    assert legs[..k + 1] == [legs[0]] + legs[1..][..k];
    NetOfConcat([legs[0]], legs[1..][..k], legs[k + 1].account);
  }

  /** A posting stops at the first leg that does not fit, with that leg's error. */
  lemma {:induction false} FittingLegsArePosted(accounts: Accounts, legs: seq<EntryLeg>)
    requires AllSound(accounts)
    ensures
      var (_, error, n) := ApplyLegs(accounts, legs);
      && n <= |legs| && (forall k :: 0 <= k < n ==> PostingFits(accounts, legs, k))
      && if n == |legs| then error.None? else !PostingFits(accounts, legs, n) && error == Some(Misfit(accounts, legs, n))
  {
    if legs != [] {
      FirstLegFits(accounts, legs);
      if PostingFits(accounts, legs, 0) {
        var first, rest := ApplyLeg(accounts, legs[0]).0, legs[1..];
        FittingLegsArePosted(first, rest);
        forall k | 0 <= k < |rest|
          ensures PostingFits(first, rest, k) <==> PostingFits(accounts, legs, k + 1)
          ensures Misfit(first, rest, k) == Misfit(accounts, legs, k + 1)
        {
          LaterLegFits(accounts, legs, first, k);
        }
        var n := ApplyLegs(first, rest).2;
        forall k | 0 <= k < n + 1 ensures PostingFits(accounts, legs, k) {
          if k > 0 {
            assert PostingFits(first, rest, k - 1);
          }
        }
      }
    }
  }

  // ----- recording -----

  ghost predicate Balanced(legs: seq<EntryLeg>) {
    2 <= |legs| && Total(legs, DebitSide) == Total(legs, CreditSide) && Total(legs, DebitSide) != 0
  }

  ghost predicate AllFit(accounts: Accounts, legs: seq<EntryLeg>) {
    forall k :: 0 <= k < |legs| ==> PostingFits(accounts, legs, k)
  }

  /** Leg n is the first that does not fit: the earlier ones have been posted and no other. */
  ghost predicate StopsAt(accounts: Accounts, legs: seq<EntryLeg>, n: nat, error: LedgerError, after: Accounts)
    requires n < |legs|
  {
    && (forall k :: 0 <= k < n ==> PostingFits(accounts, legs, k)) && !PostingFits(accounts, legs, n)
    && error == Misfit(accounts, legs, n) && Posted(accounts, legs[..n], after)
  }

  /** Posting goes through exactly if every leg fits, and stops at the first that does not. */
  lemma PostingIsExact(accounts: Accounts, legs: seq<EntryLeg>)
    requires AllSound(accounts)
    ensures
      var (after, error, n) := ApplyLegs(accounts, legs);
      match error
      case None => AllFit(accounts, legs) && Posted(accounts, legs, after)
      case Some(e) => n < |legs| && StopsAt(accounts, legs, n, e, after) && !e.JournalFault?
  {
    ApplyLegsPostsPrefix(accounts, legs);
    FittingLegsArePosted(accounts, legs);
    assert legs[..|legs|] == legs;
  }

  /** What becomes of an entry: recorded if and only if its legs balance and every leg fits. An
      unbalanced one leaves journal and accounts alone; a balanced one is in the journal even if a
      leg does not fit, with the legs before that one posted. */
  ghost predicate Outcome(s: Ledger, entry: JournalEntry, s': Ledger, r: Result<JournalEntry, LedgerError>) {
    var legs := entry.legs;
    && (r.Success? <==> Balanced(legs) && AllFit(s.accounts, legs)) && s'.sequence == s.sequence + 1
    && match r
       case Success(e) => e == entry && s'.entries == s.entries + [e] && Posted(s.accounts, legs, s'.accounts)
       case Failure(JournalFault(_)) => !Balanced(legs) && s'.entries == s.entries && s'.accounts == s.accounts
       case Failure(error) =>
         && Balanced(legs) && s'.entries == s.entries + [entry]
         && exists n :: 0 <= n < |legs| && StopsAt(s.accounts, legs, n, error, s'.accounts)
  }

  lemma OutcomeOfPosting(s: Ledger, s1: Ledger, entry: JournalEntry)
    requires AllSound(s.accounts) && Balanced(entry.legs)
    requires s1.accounts == s.accounts && s1.entries == s.entries && s1.sequence == s.sequence + 1
    ensures
      var (s2, error) := AppendAndPost(s1, entry);
      Outcome(s, entry, s2, if error.None? then Success(entry) else Failure(error.value))
  {
    PostingIsExact(s.accounts, entry.legs);
  }

  /** Recording an entry has this outcome, and commits its transaction then and only then, if it
      was pending. */
  lemma RecordIsExact(s: Ledger, t: TransactionId, legs: seq<EntryLeg>, text: string)
    requires AllSound(s.accounts)
    ensures
      var (s', r) := RecordEntry(s, t, legs, text);
      && Outcome(s, JournalEntry(s.nextId, t, s.sequence + 1, legs, text, None), s', r)
      && s'.transactions.Keys == s.transactions.Keys
      && forall x :: x in s.transactions ==>
           s'.transactions[x] == if x == t && r.Success? && s.transactions[x] == Pending then Committed else s.transactions[x]
  {
    var s1 := s.(sequence := s.sequence + 1, nextId := s.nextId + 1);
    NewEntryIsExact(s.nextId, t, s.sequence + 1, legs, text);
    if Balanced(legs) {
      OutcomeOfPosting(s, s1, JournalEntry(s.nextId, t, s.sequence + 1, legs, text, None));
    }
  }

  /** A reversal is refused if its entry is not found, and otherwise has this outcome with every leg
      the other way round. It names the entry it reverses, and its transaction stays pending. */
  lemma ReversalIsExact(s: Ledger, id: EntryId)
    requires AllSound(s.accounts)
    ensures
      var (s', r) := ReverseEntry(s, id);
      match Find(s.entries, id)
      case None => r == Failure(EntryNotFound(id)) && s' == s
      case Some(original) =>
        var legs := ReversedLegs(original.legs);
        && Outcome(s, JournalEntry(s.nextId + 1, s.nextId, s.sequence + 1, legs, "REVERSAL", Some(id)), s', r)
        && s'.transactions == s.transactions[s.nextId := Pending]
  {
    if Find(s.entries, id).Some? {
      FindIsMember(s.entries, id);
      var legs := ReversedLegs(Find(s.entries, id).value.legs);
      var s1 := Begin(s).0.(sequence := s.sequence + 1, nextId := s.nextId + 2);
      if Balanced(legs) {
        OutcomeOfPosting(s, s1, JournalEntry(s.nextId + 1, s.nextId, s.sequence + 1, legs, "REVERSAL", Some(id)));
      }
    }
  }

  predicate CanPay(accounts: Accounts, from: AccountId, amount: int) {
    amount > 0 && from in accounts && accounts[from].status == Open && amount <= accounts[from].available
  }

  function Moved(f: Funds, amount: int): Funds {
    f.(balance := f.balance + amount, available := f.available + amount)
  }

  /** A transfer succeeds exactly when the sender can pay and the receiver is there, open, and has
      room. It moves exactly the amount. If only the receiver's side is wrong, the sender has paid
      all the same. */
  lemma TransferIsExact(s: Ledger, t: TransactionId, from: AccountId, to: AccountId, amount: int, text: string)
    requires AllSound(s.accounts)
    ensures
      var (s', r) := RecordTransfer(s, t, from, to, amount, text);
      && (r.Success? <==>
            && CanPay(s.accounts, from, amount) && to in s.accounts && s.accounts[to].status == Open
            && (from != to ==> s.accounts[to].balance + amount <= I64_MAX))
      && s'.accounts ==
           if !CanPay(s.accounts, from, amount) then s.accounts else
             var paid := s.accounts[from := Moved(s.accounts[from], -amount)];
             if r.Success? then paid[to := Moved(paid[to], amount)] else paid
    ensures
      var (s', r) := RecordTransfer(s, t, from, to, amount, text);
      var legs := [EntryLeg(from, DebitSide, amount), EntryLeg(to, CreditSide, amount)];
      if amount <= 0 then r == Failure(JournalFault(MissingSide)) && s'.entries == s.entries
      else s'.entries == s.entries + [JournalEntry(s.nextId, t, s.sequence + 1, legs, text, None)]
  {
    var x, y := MakeLeg(from, DebitSide, amount), MakeLeg(to, CreditSide, amount);
    forall side ensures Total([x, y], side) == x.amount {
      TotalOfCons(y, [], side);
      TotalOfCons(x, [y], side);
      assert [y] + [] == [y] && [x] + [y] == [x, y];
    }
    if amount > 0 {
      TransferPosts(s.accounts, from, to, amount);
    }
  }

  lemma LegThenError(accounts: Accounts, x: EntryLeg, y: EntryLeg)
    ensures
      var (first, error) := ApplyLeg(accounts, x);
      var (last, error') := ApplyLeg(first, y);
      var posted := ApplyLegs(accounts, [x, y]);
      (posted.0, posted.1) == if error.Some? then (first, error) else (last, error')
  {
    assert [x, y][1..] == [y] && [y][1..] == [];
    assert ApplyLegs(ApplyLeg(accounts, x).0, [y]).1 == ApplyLeg(ApplyLeg(accounts, x).0, y).1;
  }

  lemma TransferPosts(accounts: Accounts, from: AccountId, to: AccountId, amount: int)
    requires AllSound(accounts) && amount > 0
    ensures
      var (after, error, _) := ApplyLegs(accounts, [EntryLeg(from, DebitSide, amount), EntryLeg(to, CreditSide, amount)]);
      && (error.None? <==>
            && CanPay(accounts, from, amount) && to in accounts && accounts[to].status == Open
            && (from != to ==> accounts[to].balance + amount <= I64_MAX))
      && after ==
           if !CanPay(accounts, from, amount) then accounts else
             var paid := accounts[from := Moved(accounts[from], -amount)];
             if error.None? then paid[to := Moved(paid[to], amount)] else paid
  {
    var x, y := EntryLeg(from, DebitSide, amount), EntryLeg(to, CreditSide, amount);
    LegThenError(accounts, x, y);
    if from in accounts {
      ApplyOutcome(accounts[from], LegOperation(x));
      var first := ApplyLeg(accounts, x).0;
      if to in first {
        ApplyOutcome(first[to], LegOperation(y));
      }
    }
  }

  // ----- transactions -----

  /** Request k records an entry for a transaction that was begun before. */
  ghost predicate CommitsAt(s: Ledger, requests: seq<Request>, k: nat, t: TransactionId)
    requires k < |requests|
  {
    var before := Run(s, requests[..k]);
    t in before.transactions && CommittedBy(before, requests[k]) == Some(t)
  }

  ghost predicate IsCommitted(s: Ledger, requests: seq<Request>, t: TransactionId) {
    exists k :: 0 <= k < |requests| && CommitsAt(s, requests, k, t)
  }

  /** Where the transactions stand after a call: new ones are pending, and the given one is
      committed. */
  ghost predicate Transacted(s: Ledger, s': Ledger, committed: Option<TransactionId>) {
    && s.transactions.Keys <= s'.transactions.Keys
    && forall x :: x in s'.transactions ==>
         if x !in s.transactions then x >= s.nextId && s'.transactions[x] == Pending
         else s'.transactions[x] == if committed == Some(x) && s.transactions[x] == Pending then Committed else s.transactions[x]
  }

  lemma RecordTransacts(s: Ledger, t: TransactionId, legs: seq<EntryLeg>, text: string)
    ensures
      var (s', r) := RecordEntry(s, t, legs, text);
      Transacted(s, s', if r.Success? then Some(t) else None)
  {
  }

  function CommittedBy(s: Ledger, r: Request): Option<TransactionId> {
    if Serve(s, r).1 && (r.RecordRequest? || r.TransferRequest?) then Some(r.transaction) else None
  }

  lemma ServeTransactions(s: Ledger, r: Request)
    requires IdsBelow(s)
    ensures IdsBelow(Serve(s, r).0) && Transacted(s, Serve(s, r).0, CommittedBy(s, r))
  {
    ServeKeepsIdsBelow(s, r);
    match r
    case RecordRequest(t, legs, text) => RecordTransacts(s, t, legs, text);
    case TransferRequest(t, from, to, amount, text) =>
      RecordTransacts(s, t, [MakeLeg(from, DebitSide, amount), MakeLeg(to, CreditSide, amount)], text);
    case _ =>
  }

  /** Over any run, a transaction that was begun in it is committed exactly if some later request
      recorded an entry for it, and otherwise still pending. None is ever rejected. */
  lemma {:induction false} CommittedTransactionsAreRecorded(s: Ledger, requests: seq<Request>)
    requires IdsBelow(s) && s.transactions == map[]
    ensures
      var s' := Run(s, requests);
      && IdsBelow(s') && (forall t | IsCommitted(s, requests, t) :: t in s'.transactions)
      && forall t :: t in s'.transactions ==>
           s'.transactions[t] == if IsCommitted(s, requests, t) then Committed else Pending
  {
    if requests != [] {
      var n := |requests| - 1;
      var before := Run(s, requests[..n]);
      CommittedTransactionsAreRecorded(s, requests[..n]);
      ServeTransactions(before, requests[n]);
      forall t
        ensures IsCommitted(s, requests, t) <==> IsCommitted(s, requests[..n], t) || CommitsAt(s, requests, n, t)
      {
        CommitsSplit(s, requests, t);
      }
    }
  }

  lemma CommitsSplit(s: Ledger, requests: seq<Request>, t: TransactionId)
    requires requests != []
    ensures
      var n := |requests| - 1;
      IsCommitted(s, requests, t) <==> IsCommitted(s, requests[..n], t) || CommitsAt(s, requests, n, t)
  {
    var n := |requests| - 1;
    forall k | 0 <= k < n ensures CommitsAt(s, requests[..n], k, t) <==> CommitsAt(s, requests, k, t) {
      assert requests[..n][..k] == requests[..k];
    }
  }
}

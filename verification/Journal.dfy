/**
 * Journal entries (src/domain/journal.rs): construction with its balance check, reversal, and
 * net positions. Sums are exact, as the source's i128 sums are.
 */
module Journal {
  import opened Wrappers
  import opened AccountSpec
  import opened Sums

  type EntryId = nat
  type TransactionId = nat

  datatype EntrySide = DebitSide | CreditSide

  function Counterpart(side: EntrySide): EntrySide {
    match side case DebitSide => CreditSide case CreditSide => DebitSide
  }

  datatype EntryLeg = EntryLeg(account: AccountId, side: EntrySide, amount: int)

  /** A release build turns a non-positive amount into 0 for the entry check to reject. */
  function MakeLeg(account: AccountId, side: EntrySide, amount: int): EntryLeg {
    EntryLeg(account, side, if amount > 0 then amount else 0)
  }

  datatype JournalEntry = JournalEntry(id: EntryId, transaction: TransactionId, sequence: nat, legs: seq<EntryLeg>,
                                       description: string, reverses: Option<EntryId>)

  datatype JournalError = NotEnoughLegs | MissingSide | Unbalanced(totalDebits: int, totalCredits: int)

  function Total(legs: seq<EntryLeg>, side: EntrySide): int {
    if legs == [] then 0 else (if legs[0].side == side then legs[0].amount else 0) + Total(legs[1..], side)
  }

  lemma TotalOfCons(leg: EntryLeg, legs: seq<EntryLeg>, side: EntrySide)
    ensures Total([leg] + legs, side) == Total(legs, side) + if leg.side == side then leg.amount else 0
  {
    assert ([leg] + legs)[1..] == legs;
  }

  function ClampI64(x: int): int {
    if IsI64(x) then x else I64_MAX
  }

  function NewEntry(id: EntryId, transaction: TransactionId, sequence: nat, legs: seq<EntryLeg>, description: string):
    Result<JournalEntry, JournalError>
  {
    if |legs| < 2 then Failure(NotEnoughLegs) else
      var debits, credits := Total(legs, DebitSide), Total(legs, CreditSide);
      if debits == 0 || credits == 0 then Failure(MissingSide)
      else if debits != credits then Failure(Unbalanced(ClampI64(debits), ClampI64(credits)))
      else Success(JournalEntry(id, transaction, sequence, legs, description, None))
  }

  function ReversedLegs(legs: seq<EntryLeg>): (r: seq<EntryLeg>)
    ensures |r| == |legs|
    ensures forall i :: 0 <= i < |r| ==> r[i] == legs[i].(side := Counterpart(legs[i].side))
  {
    if legs == [] then [] else [legs[0].(side := Counterpart(legs[0].side))] + ReversedLegs(legs[1..])
  }

  function Reverse(e: JournalEntry, id: EntryId, transaction: TransactionId, sequence: nat):
    Result<JournalEntry, JournalError>
  {
    match NewEntry(id, transaction, sequence, ReversedLegs(e.legs), "REVERSAL")
    case Success(r) => Success(r.(reverses := Some(e.id)))
    case Failure(error) => Failure(error)
  }

  predicate VerifyBalance(e: JournalEntry) {
    Total(e.legs, DebitSide) == Total(e.legs, CreditSide) && Total(e.legs, DebitSide) > 0
  }

  /** A credit raises its account's position by its amount, a debit lowers it. */
  function Signed(leg: EntryLeg): int {
    if leg.side == CreditSide then leg.amount else -leg.amount
  }

  /** The legs of one account and side. */
  function SideTotal(legs: seq<EntryLeg>, account: AccountId, side: EntrySide): int {
    if legs == [] then 0 else
      (if legs[0].account == account && legs[0].side == side then legs[0].amount else 0)
      + SideTotal(legs[1..], account, side)
  }

  /** (credits, debits, net) of one account over a list of legs. */
  function NetPosition(legs: seq<EntryLeg>, account: AccountId): (int, int, int) {
    var credits, debits := SideTotal(legs, account, CreditSide), SideTotal(legs, account, DebitSide);
    (credits, debits, credits - debits)
  }

  function Net(legs: seq<EntryLeg>, account: AccountId): int {
    NetPosition(legs, account).2
  }

  lemma {:induction false} SideTotalOfConcat(a: seq<EntryLeg>, b: seq<EntryLeg>, account: AccountId, side: EntrySide)
    ensures SideTotal(a + b, account, side) == SideTotal(a, account, side) + SideTotal(b, account, side)
  {
    if a == [] {
      assert a + b == b;
    } else {
      assert (a + b)[1..] == a[1..] + b;
      SideTotalOfConcat(a[1..], b, account, side);
    }
  }

  lemma NetOfConcat(a: seq<EntryLeg>, b: seq<EntryLeg>, account: AccountId)
    ensures Net(a + b, account) == Net(a, account) + Net(b, account)
  {
    SideTotalOfConcat(a, b, account, CreditSide);
    SideTotalOfConcat(a, b, account, DebitSide);
  }

  lemma NetOfCons(leg: EntryLeg, legs: seq<EntryLeg>, account: AccountId)
    ensures Net([leg] + legs, account) == Net(legs, account) + if leg.account == account then Signed(leg) else 0
  {
    assert ([leg] + legs)[1..] == legs;
  }

  ghost function Positions(legs: seq<EntryLeg>, accounts: set<AccountId>): map<AccountId, int> {
    map a | a in accounts :: Net(legs, a)
  }

  /** The trial balance: over any accounts that include those of the legs, the net positions add
      up to total credits less total debits, so those of a balanced entry cancel. */
  lemma {:induction false} TrialBalance(legs: seq<EntryLeg>, accounts: set<AccountId>)
    requires forall leg :: leg in legs ==> leg.account in accounts
    ensures MapSum(Positions(legs, accounts)) == Total(legs, CreditSide) - Total(legs, DebitSide)
  {
    if legs == [] {
      ZeroPositions(accounts);
    } else {
      var leg, rest := legs[0], legs[1..];
      assert legs == [leg] + rest;
      TrialBalance(rest, accounts);
      var before: map<AccountId, int> := Positions(rest, accounts);
      assert leg in legs && leg.account in before;
      forall a ensures Net(legs, a) == Net(rest, a) + if leg.account == a then Signed(leg) else 0 {
        NetOfCons(leg, rest, a);
      }
      assert Positions(legs, accounts) == before[leg.account := before[leg.account] + Signed(leg)];
      MapSumInsert(before, leg.account, before[leg.account] + Signed(leg));
      assert Total(legs, CreditSide) - Total(legs, DebitSide)
          == Total(rest, CreditSide) - Total(rest, DebitSide) + Signed(leg);
    }
  }

  lemma {:induction false} ZeroPositions(accounts: set<AccountId>)
    ensures MapSum(Positions([], accounts)) == 0
  {
    if accounts != {} {
      var a :| a in accounts;
      ZeroPositions(accounts - {a});
      assert Positions([], accounts) == Positions([], accounts - {a})[a := 0];
      MapSumInsert(Positions([], accounts - {a}), a, 0);
    } else {
      assert Positions([], accounts) == map[];
    }
  }

  lemma {:induction false} ReversalSwapsSides(legs: seq<EntryLeg>, account: AccountId, side: EntrySide)
    ensures SideTotal(ReversedLegs(legs), account, side) == SideTotal(legs, account, Counterpart(side))
    ensures Total(ReversedLegs(legs), side) == Total(legs, Counterpart(side))
  {
    if legs != [] {
      assert ReversedLegs(legs)[1..] == ReversedLegs(legs[1..]);
      ReversalSwapsSides(legs[1..], account, side);
    }
  }

  /** A reversal negates every account's position and swaps the two totals. */
  lemma ReversalNegates(legs: seq<EntryLeg>, account: AccountId)
    ensures Net(ReversedLegs(legs), account) == -Net(legs, account)
    ensures Total(ReversedLegs(legs), DebitSide) == Total(legs, CreditSide)
    ensures Total(ReversedLegs(legs), CreditSide) == Total(legs, DebitSide)
  {
    ReversalSwapsSides(legs, account, DebitSide);
    ReversalSwapsSides(legs, account, CreditSide);
  }

  /** An entry that was accepted can always be reversed, and reversing twice gives its legs
      back. The source's tamper check agrees with acceptance exactly when the debits are
      positive: amounts below zero can balance and be accepted. */
  lemma AcceptedEntries(id: EntryId, transaction: TransactionId, sequence: nat, legs: seq<EntryLeg>, text: string, e: JournalEntry)
    requires NewEntry(id, transaction, sequence, legs, text) == Success(e)
    ensures VerifyBalance(e) <==> Total(legs, DebitSide) > 0
    ensures forall i, t, s :: Reverse(e, i, t, s).Success? && Reverse(e, i, t, s).value.legs == ReversedLegs(legs)
    ensures ReversedLegs(ReversedLegs(legs)) == legs
  {
    ReversalNegates(legs, 0);
    var back := ReversedLegs(ReversedLegs(legs));
    forall i | 0 <= i < |legs| ensures back[i] == legs[i] {
    }
  }

  // ----- acceptance -----

  /** Which lists of legs are accepted, of any length, which error each other list gets, and what
      the accepted entry holds. The totals in the error are those of the legs where they fit. */
  lemma NewEntryIsExact(id: EntryId, transaction: TransactionId, sequence: nat, legs: seq<EntryLeg>, text: string)
    ensures
      var debits, credits := Total(legs, DebitSide), Total(legs, CreditSide);
      match NewEntry(id, transaction, sequence, legs, text)
      case Success(e) =>
        && 2 <= |legs| && debits == credits && debits != 0
        && e.id == id && e.transaction == transaction && e.sequence == sequence
        && e.legs == legs && e.description == text && e.reverses == None
      case Failure(NotEnoughLegs) => |legs| < 2
      case Failure(MissingSide) => 2 <= |legs| && (debits == 0 || credits == 0)
      case Failure(Unbalanced(d, c)) =>
        && 2 <= |legs| && debits != 0 && credits != 0 && debits != credits
        && d == (if I64_MIN <= debits <= I64_MAX then debits else I64_MAX)
        && c == (if I64_MIN <= credits <= I64_MAX then credits else I64_MAX)
  {
  }

  lemma {:induction false} PositiveLegMakesTotal(legs: seq<EntryLeg>, side: EntrySide)
    requires forall leg :: leg in legs ==> 0 <= leg.amount
    ensures 0 <= Total(legs, side)
    ensures 0 < Total(legs, side) <==> exists leg :: leg in legs && leg.side == side && 0 < leg.amount
  {
    if legs != [] {
      assert legs == [legs[0]] + legs[1..];
      PositiveLegMakesTotal(legs[1..], side);
      if legs[0].side == side && 0 < legs[0].amount {
        assert legs[0] in legs;
      }
    }
  }

  /** For amounts that are not negative, as the two constructors of legs make them, a list is
      accepted exactly when its sides balance and some debit is positive: the length follows. */
  lemma EntryWithoutNegativesIsExact(id: EntryId, t: TransactionId, sequence: nat, legs: seq<EntryLeg>, text: string)
    requires forall leg :: leg in legs ==> 0 <= leg.amount
    ensures NewEntry(id, t, sequence, legs, text).Success? <==>
      && Total(legs, DebitSide) == Total(legs, CreditSide)
      && exists leg :: leg in legs && leg.side == DebitSide && 0 < leg.amount
  {
    PositiveLegMakesTotal(legs, DebitSide);
    PositiveLegMakesTotal(legs, CreditSide);
    if |legs| == 1 {
      TotalOfCons(legs[0], [], DebitSide);
      TotalOfCons(legs[0], [], CreditSide);
      assert [legs[0]] + [] == legs;
    }
  }

  /** A reversal is refused exactly when a new entry of its legs is, and otherwise names the entry
      that it reverses, under its own identifiers. */
  lemma ReverseIsExact(e: JournalEntry, id: EntryId, transaction: TransactionId, sequence: nat)
    ensures Reverse(e, id, transaction, sequence).Success? <==>
      2 <= |e.legs| && Total(e.legs, DebitSide) == Total(e.legs, CreditSide) && Total(e.legs, DebitSide) != 0
    ensures Reverse(e, id, transaction, sequence).Success? ==>
      var r := Reverse(e, id, transaction, sequence).value;
      && r.id == id && r.transaction == transaction && r.sequence == sequence && r.reverses == Some(e.id)
      && |r.legs| == |e.legs|
      && forall i :: 0 <= i < |r.legs| ==>
           && r.legs[i].account == e.legs[i].account && r.legs[i].amount == e.legs[i].amount
           && r.legs[i].side != e.legs[i].side
  {
    ReversalNegates(e.legs, 0);
  }
}

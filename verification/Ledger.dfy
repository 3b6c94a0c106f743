/**
 * The ledger service (src/service/ledger_service.rs). The journal entry is appended before
 * any balance is touched, and the legs are applied one by one; both orders are kept here.
 * Module LedgerSpec gives each call's exact effect, module LedgerService performs it in place.
 */
module LedgerSpec {
  import opened Wrappers
  import opened Sums
  import opened AccountSpec
  import opened Journal

  datatype LedgerError =
    | JournalFault(error: JournalError)
    | AccountNotFound(account: AccountId)
    | DebitFault(account: AccountId, cause: AccountError)
    | CreditFault(account: AccountId, cause: AccountError)
    | EntryNotFound(entry: EntryId)

  datatype TransactionStatus = Pending | Committed | Rejected

  /** `nextId` stands for the generator of fresh identifiers. */
  datatype Ledger = Ledger(entries: seq<JournalEntry>, sequence: nat, accounts: Accounts,
                           transactions: map<TransactionId, TransactionStatus>, nextId: nat)

  // ----- applying legs -----

  function LegOperation(leg: EntryLeg): Operation {
    if leg.side == DebitSide then DebitOp(leg.amount) else CreditOp(leg.amount)
  }

  function LegError(leg: EntryLeg, e: AccountError): LedgerError {
    if leg.side == DebitSide then DebitFault(leg.account, e) else CreditFault(leg.account, e)
  }

  function ApplyLeg(accounts: Accounts, leg: EntryLeg): (Accounts, Option<LedgerError>) {
    if leg.account !in accounts then (accounts, Some(AccountNotFound(leg.account))) else
      var (funds, result) := Apply(accounts[leg.account], LegOperation(leg));
      (accounts[leg.account := funds], if result.Success? then None else Some(LegError(leg, result.error)))
  }

  /** Applies legs up to the first failure; the last component counts those applied. */
  function ApplyLegs(accounts: Accounts, legs: seq<EntryLeg>): (Accounts, Option<LedgerError>, nat) {
    if legs == [] then (accounts, None, 0) else
      var (accounts', error) := ApplyLeg(accounts, legs[0]);
      if error.Some? then (accounts', error, 0) else
        var (last, rest, n) := ApplyLegs(accounts', legs[1..]);
        (last, rest, n + 1)
  }

  ghost predicate AllSound(accounts: Accounts) {
    forall a :: a in accounts ==> Sound(accounts[a])
  }

  /** `after` is `before` with exactly these legs posted. */
  ghost predicate Posted(before: Accounts, legs: seq<EntryLeg>, after: Accounts) {
    && after.Keys == before.Keys
    && forall a :: a in before ==>
         && after[a].balance == before[a].balance + Net(legs, a)
         && after[a].available == before[a].available + Net(legs, a)
         && after[a].status == before[a].status
  }

  lemma NetOfOne(leg: EntryLeg, a: AccountId)
    ensures Net([leg], a) == if a == leg.account then Signed(leg) else 0
  {
    NetOfCons(leg, [], a);
    assert [leg] + [] == [leg];
  }

  lemma ApplyLegPosts(accounts: Accounts, leg: EntryLeg)
    requires AllSound(accounts)
    ensures AllSound(ApplyLeg(accounts, leg).0)
    ensures Posted(accounts, if ApplyLeg(accounts, leg).1.None? then [leg] else [], ApplyLeg(accounts, leg).0)
  {
    forall a ensures Net([leg], a) == (if a == leg.account then Signed(leg) else 0) && Net([], a) == 0 {
      NetOfOne(leg, a);
    }
    if leg.account in accounts {
      ApplyOutcome(accounts[leg.account], LegOperation(leg));
    }
  }

  lemma PostedTwice(a: Accounts, x: seq<EntryLeg>, b: Accounts, y: seq<EntryLeg>, c: Accounts)
    requires Posted(a, x, b) && Posted(b, y, c)
    ensures Posted(a, x + y, c)
  {
    forall k | k in a ensures Net(x + y, k) == Net(x, k) + Net(y, k) {
      NetOfConcat(x, y, k);
    }
  }

  lemma PostedAfterFirst(accounts: Accounts, legs: seq<EntryLeg>, first: Accounts, n: nat, after: Accounts)
    requires n < |legs| && Posted(accounts, [legs[0]], first) && Posted(first, legs[1..][..n], after)
    ensures Posted(accounts, legs[..n + 1], after)
  {
    PostedTwice(accounts, [legs[0]], first, legs[1..][..n], after);
    assert legs[..n + 1] == [legs[0]] + legs[1..][..n];
  }

  lemma NothingPosted(accounts: Accounts, legs: seq<EntryLeg>)
    requires legs == []
    ensures Posted(accounts, legs, accounts)
  {
    assert forall a :: Net(legs, a) == 0;
  }

  /** Whether it fails or not, a posting leaves exactly a prefix of its legs applied, and the
      whole list if and only if it reports no error. */
  lemma {:induction false} ApplyLegsPostsPrefix(accounts: Accounts, legs: seq<EntryLeg>)
    requires AllSound(accounts)
    ensures
      var (after, error, n) := ApplyLegs(accounts, legs);
      && n <= |legs| && (error.None? <==> n == |legs|)
      && AllSound(after) && Posted(accounts, legs[..n], after)
  {
    if legs != [] {
      var (accounts', error) := ApplyLeg(accounts, legs[0]);
      ApplyLegPosts(accounts, legs[0]);
      if error.None? {
        var (after, _, n) := ApplyLegs(accounts', legs[1..]);
        ApplyLegsPostsPrefix(accounts', legs[1..]);
        PostedAfterFirst(accounts, legs, accounts', n, after);
      } else {
        assert legs[..0] == [];
      }
    } else {
      NothingPosted(accounts, legs[..0]);
    }
  }

  // ----- the total over all accounts -----

  ghost function Balances(accounts: Accounts): map<AccountId, int> {
    map a | a in accounts :: accounts[a].balance
  }

  ghost function TotalBalance(accounts: Accounts): int {
    MapSum(Balances(accounts))
  }

  function SignedTotal(legs: seq<EntryLeg>): int {
    Total(legs, CreditSide) - Total(legs, DebitSide)
  }

  lemma ApplyLegMovesTotal(accounts: Accounts, leg: EntryLeg)
    requires AllSound(accounts) && ApplyLeg(accounts, leg).1.None?
    ensures TotalBalance(ApplyLeg(accounts, leg).0) == TotalBalance(accounts) + Signed(leg)
  {
    ApplyOutcome(accounts[leg.account], LegOperation(leg));
    var balance := accounts[leg.account].balance + Signed(leg);
    assert Balances(ApplyLeg(accounts, leg).0) == Balances(accounts)[leg.account := balance];
    MapSumInsert(Balances(accounts), leg.account, balance);
  }

  lemma {:induction false} ApplyLegsMovesTotal(accounts: Accounts, legs: seq<EntryLeg>)
    requires AllSound(accounts) && ApplyLegs(accounts, legs).1.None?
    ensures TotalBalance(ApplyLegs(accounts, legs).0) == TotalBalance(accounts) + SignedTotal(legs)
  {
    if legs != [] {
      ApplyLegPosts(accounts, legs[0]);
      ApplyLegMovesTotal(accounts, legs[0]);
      ApplyLegsMovesTotal(ApplyLeg(accounts, legs[0]).0, legs[1..]);
    }
  }

  // ----- calls -----

  function Commit(transactions: map<TransactionId, TransactionStatus>, t: TransactionId):
    map<TransactionId, TransactionStatus>
  {
    if t in transactions && transactions[t] == Pending then transactions[t := Committed] else transactions
  }

  function Begin(s: Ledger): (Ledger, TransactionId) {
    (s.(transactions := s.transactions[s.nextId := Pending], nextId := s.nextId + 1), s.nextId)
  }

  /** Appends an accepted entry, then posts its legs. */
  function AppendAndPost(s: Ledger, entry: JournalEntry): (Ledger, Option<LedgerError>) {
    var (accounts, error, _) := ApplyLegs(s.accounts, entry.legs);
    (s.(entries := s.entries + [entry], accounts := accounts), error)
  }

  /** The sequence number is used up even when the entry is rejected. */
  function RecordEntry(s: Ledger, t: TransactionId, legs: seq<EntryLeg>, text: string):
    (Ledger, Result<JournalEntry, LedgerError>)
  {
    var s1 := s.(sequence := s.sequence + 1, nextId := s.nextId + 1);
    match NewEntry(s.nextId, t, s1.sequence, legs, text)
    case Failure(e) => (s1, Failure(JournalFault(e)))
    case Success(entry) =>
      var (s2, error) := AppendAndPost(s1, entry);
      if error.Some? then (s2, Failure(error.value))
      else (s2.(transactions := Commit(s2.transactions, t)), Success(entry))
  }

  function RecordTransfer(s: Ledger, t: TransactionId, from: AccountId, to: AccountId, amount: int, text: string):
    (Ledger, Result<JournalEntry, LedgerError>)
  {
    RecordEntry(s, t, [MakeLeg(from, DebitSide, amount), MakeLeg(to, CreditSide, amount)], text)
  }

  function Find(entries: seq<JournalEntry>, id: EntryId): Option<JournalEntry> {
    if entries == [] then None
    else if entries[0].id == id then Some(entries[0])
    else Find(entries[1..], id)
  }

  /** The reversal's own transaction is begun and never committed. */
  function ReverseEntry(s: Ledger, id: EntryId): (Ledger, Result<JournalEntry, LedgerError>) {
    match Find(s.entries, id)
    case None => (s, Failure(EntryNotFound(id)))
    case Some(original) =>
      var (s1, t) := Begin(s);
      var s2 := s1.(sequence := s1.sequence + 1, nextId := s1.nextId + 1);
      match Reverse(original, s1.nextId, t, s2.sequence)
      case Failure(e) => (s2, Failure(JournalFault(e)))
      case Success(reversal) =>
        var (s3, error) := AppendAndPost(s2, reversal);
        (s3, if error.Some? then Failure(error.value) else Success(reversal))
  }

  // ----- runs -----

  datatype Request =
    | BeginRequest
    | RecordRequest(transaction: TransactionId, legs: seq<EntryLeg>, text: string)
    | TransferRequest(transaction: TransactionId, from: AccountId, to: AccountId, amount: int, text: string)
    | ReverseRequest(entry: EntryId)

  function Serve(s: Ledger, r: Request): (Ledger, bool) {
    match r
    case BeginRequest => (Begin(s).0, true)
    case RecordRequest(t, legs, text) =>
      var (s', result) := RecordEntry(s, t, legs, text);
      (s', result.Success?)
    case TransferRequest(t, from, to, amount, text) =>
      var (s', result) := RecordTransfer(s, t, from, to, amount, text);
      (s', result.Success?)
    case ReverseRequest(id) =>
      var (s', result) := ReverseEntry(s, id);
      (s', result.Success?)
  }

  function Run(s: Ledger, requests: seq<Request>): Ledger {
    if requests == [] then s else Serve(Run(s, requests[..|requests| - 1]), requests[|requests| - 1]).0
  }

  predicate AllOk(s: Ledger, requests: seq<Request>) {
    requests == [] ||
    (AllOk(s, requests[..|requests| - 1]) && Serve(Run(s, requests[..|requests| - 1]), requests[|requests| - 1]).1)
  }

  function AllLegs(entries: seq<JournalEntry>): seq<EntryLeg> {
    if entries == [] then [] else AllLegs(entries[..|entries| - 1]) + entries[|entries| - 1].legs
  }

  /** The legs a request posts: those of the entry it appends, up to the first failure. */
  function PostedBy(s: Ledger, r: Request): seq<EntryLeg> {
    var s' := Serve(s, r).0;
    if |s'.entries| <= |s.entries| then [] else
      var legs := s'.entries[|s.entries|].legs;
      var n := ApplyLegs(s.accounts, legs).2;
      if n <= |legs| then legs[..n] else legs
  }

  function PostedByAll(s: Ledger, requests: seq<Request>): seq<EntryLeg> {
    if requests == [] then [] else
      PostedByAll(s, requests[..|requests| - 1]) +
      PostedBy(Run(s, requests[..|requests| - 1]), requests[|requests| - 1])
  }

  ghost predicate WellFormed(s: Ledger) {
    && AllSound(s.accounts)
    && (forall i :: 0 <= i < |s.entries| ==>
          && s.entries[i].id < s.nextId && s.entries[i].sequence <= s.sequence
          && Total(s.entries[i].legs, DebitSide) == Total(s.entries[i].legs, CreditSide))
    && forall i, j :: 0 <= i < j < |s.entries| ==>
         s.entries[i].id != s.entries[j].id && s.entries[i].sequence < s.entries[j].sequence
  }

  /** One request: at most one entry is appended, balanced and with the next sequence number,
      exactly a prefix of its legs is posted, and all of it if the request succeeds. */
  lemma ServeKeeps(s: Ledger, r: Request)
    requires WellFormed(s)
    ensures WellFormed(Serve(s, r).0)
    ensures Posted(s.accounts, PostedBy(s, r), Serve(s, r).0.accounts)
    ensures
      var entries' := Serve(s, r).0.entries;
      entries' == s.entries || (|entries'| == |s.entries| + 1 && entries'[..|s.entries|] == s.entries
                                && (Serve(s, r).1 ==> PostedBy(s, r) == entries'[|s.entries|].legs))
    ensures Serve(s, r).1 ==> TotalBalance(Serve(s, r).0.accounts) == TotalBalance(s.accounts)
  {
    match r
    case BeginRequest =>
    case RecordRequest(t, legs, text) => RecordKeeps(s, t, legs, text);
    case TransferRequest(t, from, to, amount, text) =>
      RecordKeeps(s, t, [MakeLeg(from, DebitSide, amount), MakeLeg(to, CreditSide, amount)], text);
    case ReverseRequest(id) => ReverseKeeps(s, id);
  }

  ghost predicate Extended(s: Ledger, s': Ledger, ok: bool) {
    && WellFormed(s')
    && if s'.entries == s.entries then s'.accounts == s.accounts && !ok else
         && |s'.entries| == |s.entries| + 1 && s'.entries[..|s.entries|] == s.entries
         && var legs := s'.entries[|s.entries|].legs;
            var n := ApplyLegs(s.accounts, legs).2;
            && n <= |legs| && Posted(s.accounts, legs[..n], s'.accounts)
            && (ok ==> n == |legs| && TotalBalance(s'.accounts) == TotalBalance(s.accounts))
  }

  lemma AppendKeeps(s: Ledger, entry: JournalEntry)
    requires WellFormed(s)
    requires entry.id < s.nextId && entry.sequence == s.sequence
    requires forall i :: 0 <= i < |s.entries| ==> s.entries[i].id != entry.id && s.entries[i].sequence < s.sequence
    requires Total(entry.legs, DebitSide) == Total(entry.legs, CreditSide)
    ensures Extended(s, AppendAndPost(s, entry).0, AppendAndPost(s, entry).1.None?)
  {
    ApplyLegsPostsPrefix(s.accounts, entry.legs);
    if AppendAndPost(s, entry).1.None? {
      ApplyLegsMovesTotal(s.accounts, entry.legs);
    }
  }

  lemma RecordKeeps(s: Ledger, t: TransactionId, legs: seq<EntryLeg>, text: string)
    requires WellFormed(s)
    ensures Extended(s, RecordEntry(s, t, legs, text).0, RecordEntry(s, t, legs, text).1.Success?)
  {
    var s1 := s.(sequence := s.sequence + 1, nextId := s.nextId + 1);
    Renumbered(s, s1);
    match NewEntry(s.nextId, t, s1.sequence, legs, text)
    case Failure(_) => RejectionKeeps(s, s1);
    case Success(entry) =>
      PostingKeeps(s, s1, entry, t);
      var (s2, error) := AppendAndPost(s1, entry);
      assert RecordEntry(s, t, legs, text).0 == if error.Some? then s2 else s2.(transactions := Commit(s2.transactions, t));
  }

  /** The entry is posted, and on success the transaction committed. */
  lemma PostingKeeps(s: Ledger, s1: Ledger, entry: JournalEntry, t: TransactionId)
    requires WellFormed(s) && s1.entries == s.entries && s1.accounts == s.accounts
    requires s.sequence < s1.sequence && s.nextId <= entry.id < s1.nextId && entry.sequence == s1.sequence
    requires Total(entry.legs, DebitSide) == Total(entry.legs, CreditSide)
    ensures
      var (s2, error) := AppendAndPost(s1, entry);
      Extended(s, if error.Some? then s2 else s2.(transactions := Commit(s2.transactions, t)), error.None?)
  {
    var (s2, error) := AppendAndPost(s1, entry);
    AppendAfterRenumbering(s, s1, entry);
    if error.None? {
      CommitKeeps(s, s2, true, t);
    }
  }

  lemma RejectionKeeps(s: Ledger, s1: Ledger)
    requires WellFormed(s) && s1.entries == s.entries && s1.accounts == s.accounts
    requires s.sequence < s1.sequence && s.nextId < s1.nextId
    ensures Extended(s, s1, false)
  {
    Renumbered(s, s1);
  }

  /** Taking a sequence number and fresh ids. */
  lemma Renumbered(s: Ledger, s1: Ledger)
    requires WellFormed(s) && s1.entries == s.entries && s1.accounts == s.accounts
    requires s.sequence < s1.sequence && s.nextId < s1.nextId
    ensures WellFormed(s1)
    ensures forall i :: 0 <= i < |s.entries| ==> s.entries[i].id < s.nextId && s.entries[i].sequence < s1.sequence
  {
  }

  lemma AppendAfterRenumbering(s: Ledger, s1: Ledger, entry: JournalEntry)
    requires WellFormed(s) && s1.entries == s.entries && s1.accounts == s.accounts
    requires s.sequence < s1.sequence && s.nextId <= entry.id < s1.nextId && entry.sequence == s1.sequence
    requires Total(entry.legs, DebitSide) == Total(entry.legs, CreditSide)
    ensures Extended(s, AppendAndPost(s1, entry).0, AppendAndPost(s1, entry).1.None?)
  {
    Renumbered(s, s1);
    AppendKeeps(s1, entry);
  }

  lemma CommitKeeps(s: Ledger, s': Ledger, ok: bool, t: TransactionId)
    requires Extended(s, s', ok)
    ensures Extended(s, s'.(transactions := Commit(s'.transactions, t)), ok)
  {
  }

  lemma {:induction false} FindIsMember(entries: seq<JournalEntry>, id: EntryId)
    ensures match Find(entries, id)
            case None => forall i :: 0 <= i < |entries| ==> entries[i].id != id
            case Some(e) => e in entries && e.id == id
  {
    if entries != [] {
      FindIsMember(entries[1..], id);
    }
  }

  lemma FoundIsBalanced(s: Ledger, id: EntryId)
    requires WellFormed(s) && Find(s.entries, id).Some?
    ensures
      var legs := Find(s.entries, id).value.legs;
      Total(ReversedLegs(legs), DebitSide) == Total(ReversedLegs(legs), CreditSide)
  {
    FindIsMember(s.entries, id);
    ReversalNegates(Find(s.entries, id).value.legs, 0);
  }

  /** What a reversal does to the ledger and whether it succeeds, once the entry is found. */
  function Reversed(s: Ledger, original: JournalEntry): (Ledger, bool) {
    var s2 := Begin(s).0.(sequence := s.sequence + 1, nextId := s.nextId + 2);
    match Reverse(original, s.nextId + 1, s.nextId, s.sequence + 1)
    case Failure(_) => (s2, false)
    case Success(r) => (AppendAndPost(s2, r).0, AppendAndPost(s2, r).1.None?)
  }

  lemma FoundIsReversed(s: Ledger, id: EntryId)
    requires Find(s.entries, id).Some?
    ensures (ReverseEntry(s, id).0, ReverseEntry(s, id).1.Success?) == Reversed(s, Find(s.entries, id).value)
  {
  }

  lemma ReverseKeeps(s: Ledger, id: EntryId)
    requires WellFormed(s)
    ensures Extended(s, ReverseEntry(s, id).0, ReverseEntry(s, id).1.Success?)
  {
    if Find(s.entries, id).Some? {
      FoundIsBalanced(s, id);
      FoundIsReversed(s, id);
      ReversalKeeps(s, Find(s.entries, id).value);
    }
  }

  lemma ReversalKeeps(s: Ledger, original: JournalEntry)
    requires WellFormed(s)
    requires Total(ReversedLegs(original.legs), DebitSide) == Total(ReversedLegs(original.legs), CreditSide)
    ensures Extended(s, Reversed(s, original).0, Reversed(s, original).1)
  {
    var s2 := Begin(s).0.(sequence := s.sequence + 1, nextId := s.nextId + 2);
    match Reverse(original, s.nextId + 1, s.nextId, s.sequence + 1)
    case Failure(_) => RejectionKeeps(s, s2);
    case Success(r) => AppendAfterRenumbering(s, s2, r);
  }

  /** Every run, whatever fails in it: each account stands at its initial balance plus its net
      position over the posted legs, and entry sequence numbers strictly increase. */
  lemma {:induction false} BalancesReplayThePostings(s: Ledger, requests: seq<Request>)
    requires WellFormed(s)
    ensures WellFormed(Run(s, requests))
    ensures Posted(s.accounts, PostedByAll(s, requests), Run(s, requests).accounts)
  {
    if requests == [] {
      assert forall a :: Net([], a) == 0;
    } else {
      var prefix, r := requests[..|requests| - 1], requests[|requests| - 1];
      BalancesReplayThePostings(s, prefix);
      ServeKeeps(Run(s, prefix), r);
      PostedTwice(s.accounts, PostedByAll(s, prefix), Run(s, prefix).accounts,
                  PostedBy(Run(s, prefix), r), Run(s, requests).accounts);
    }
  }

  /** If every request of a run that starts with an empty journal succeeds, the posted legs are
      the journal's, so replaying the journal gives every balance; and the total is unchanged. */
  lemma {:induction false} JournalReplayGivesBalances(s: Ledger, requests: seq<Request>)
    requires WellFormed(s) && s.entries == [] && AllOk(s, requests)
    ensures PostedByAll(s, requests) == AllLegs(Run(s, requests).entries)
    ensures Posted(s.accounts, AllLegs(Run(s, requests).entries), Run(s, requests).accounts)
    ensures TotalBalance(Run(s, requests).accounts) == TotalBalance(s.accounts)
  {
    BalancesReplayThePostings(s, requests);
    if requests != [] {
      var prefix, r := requests[..|requests| - 1], requests[|requests| - 1];
      JournalReplayGivesBalances(s, prefix);
      BalancesReplayThePostings(s, prefix);
      ServeKeeps(Run(s, prefix), r);
    }
  }

  // ----- reversal -----

  lemma {:induction false} FindAppended(entries: seq<JournalEntry>, e: JournalEntry)
    requires forall i :: 0 <= i < |entries| ==> entries[i].id != e.id
    ensures Find(entries + [e], e.id) == Some(e)
  {
    if entries != [] {
      assert (entries + [e])[1..] == entries[1..] + [e];
      FindAppended(entries[1..], e);
    }
  }

  lemma PostedBack(a: Accounts, legs: seq<EntryLeg>, b: Accounts, c: Accounts)
    requires Posted(a, legs, b) && Posted(b, ReversedLegs(legs), c)
    ensures c == a
  {
    forall k | k in a ensures c[k] == a[k] {
      ReversalNegates(legs, k);
    }
  }

  lemma RecordedIsFound(s: Ledger, t: TransactionId, legs: seq<EntryLeg>, text: string)
    requires WellFormed(s) && RecordEntry(s, t, legs, text).1.Success?
    ensures
      var (s1, entry) := RecordEntry(s, t, legs, text);
      && NewEntry(s.nextId, t, s.sequence + 1, legs, text) == Success(entry.value)
      && Find(s1.entries, entry.value.id) == Some(entry.value)
      && s1.accounts == ApplyLegs(s.accounts, legs).0 && ApplyLegs(s.accounts, legs).1.None?
  {
    FindAppended(s.entries, RecordEntry(s, t, legs, text).1.value);
  }

  lemma ReversalPosts(s: Ledger, e: JournalEntry, legs: seq<EntryLeg>)
    requires Find(s.entries, e.id) == Some(e)
    requires forall i, t, n :: Reverse(e, i, t, n).Success? && Reverse(e, i, t, n).value.legs == ReversedLegs(legs)
    ensures
      var (accounts, error, _) := ApplyLegs(s.accounts, ReversedLegs(legs));
      ReverseEntry(s, e.id).0.accounts == accounts && (ReverseEntry(s, e.id).1.Success? <==> error.None?)
  {
    FoundIsReversed(s, e.id);
  }

  /** What reversing a just-recorded entry posts. */
  lemma ReverseOfRecorded(s: Ledger, t: TransactionId, legs: seq<EntryLeg>, text: string)
    requires WellFormed(s) && RecordEntry(s, t, legs, text).1.Success?
    ensures
      var (s1, entry) := RecordEntry(s, t, legs, text);
      var (accounts, error, n) := ApplyLegs(s1.accounts, ReversedLegs(legs));
      && Posted(s.accounts, legs, s1.accounts) && AllSound(s1.accounts)
      && s1.accounts == ApplyLegs(s.accounts, legs).0
      && ReverseEntry(s1, entry.value.id).0.accounts == accounts
      && (ReverseEntry(s1, entry.value.id).1.Success? <==> error.None?)
  {
    var (s1, entry) := RecordEntry(s, t, legs, text);
    ApplyLegsPostsPrefix(s.accounts, legs);
    assert legs[..|legs|] == legs;
    RecordedIsFound(s, t, legs, text);
    AcceptedEntries(s.nextId, t, s.sequence + 1, legs, text, entry.value);
    ReversalPosts(s1, entry.value, legs);
  }

  /** Recording an entry and then reversing it restores every account exactly, whenever both
      succeed. */
  lemma RecordThenReverseRestores(s: Ledger, t: TransactionId, legs: seq<EntryLeg>, text: string)
    requires WellFormed(s) && RecordEntry(s, t, legs, text).1.Success?
    ensures
      var (s1, entry) := RecordEntry(s, t, legs, text);
      ReverseEntry(s1, entry.value.id).1.Success? ==> ReverseEntry(s1, entry.value.id).0.accounts == s.accounts
  {
    var s1 := RecordEntry(s, t, legs, text).0;
    ReverseOfRecorded(s, t, legs, text);
    ApplyLegsPostsPrefix(s1.accounts, ReversedLegs(legs));
    var (accounts, error, n) := ApplyLegs(s1.accounts, ReversedLegs(legs));
    if error.None? {
      assert ReversedLegs(legs)[..n] == ReversedLegs(legs);
      PostedBack(s.accounts, legs, s1.accounts, accounts);
    }
  }

  /** Leg k of an entry can be reversed, in terms of the accounts before the entry was posted:
      once the legs before it are reversed, only the later ones are still posted. */
  ghost predicate ReversalFits(accounts: Accounts, legs: seq<EntryLeg>, k: nat)
    requires k < |legs|
  {
    var leg := legs[k];
    && leg.account in accounts
    && var funds, later := accounts[leg.account], Net(legs[k + 1..], leg.account);
       if leg.side == CreditSide then 0 <= funds.available + later else funds.balance + later <= I64_MAX
  }

  ghost predicate Postable(accounts: Accounts, legs: seq<EntryLeg>) {
    forall k :: 0 <= k < |legs| ==>
      legs[k].account in accounts && accounts[legs[k].account].status == Open && legs[k].amount > 0
  }

  lemma {:induction false} PostedLegsArePostable(accounts: Accounts, legs: seq<EntryLeg>)
    requires AllSound(accounts) && ApplyLegs(accounts, legs).1.None?
    ensures Postable(accounts, legs)
  {
    if legs != [] {
      var first := ApplyLeg(accounts, legs[0]).0;
      ApplyLegPosts(accounts, legs[0]);
      ApplyOutcome(accounts[legs[0].account], LegOperation(legs[0]));
      PostedLegsArePostable(first, legs[1..]);
      forall k | 0 <= k < |legs|
        ensures legs[k].account in accounts && accounts[legs[k].account].status == Open && legs[k].amount > 0
      {
        if k > 0 {
          assert legs[k] == legs[1..][k - 1];
        }
      }
    }
  }

  lemma FirstLegReverses(a: Accounts, legs: seq<EntryLeg>, b: Accounts)
    requires legs != [] && AllSound(b) && Posted(a, legs, b) && Postable(a, legs)
    ensures
      var (b', error) := ApplyLeg(b, legs[0].(side := Counterpart(legs[0].side)));
      && (error.None? <==> ReversalFits(a, legs, 0))
      && (error.None? ==> AllSound(b') && Posted(a, legs[1..], b'))
  {
    var leg, rest := legs[0], legs[1..];
    var back := leg.(side := Counterpart(leg.side));
    assert legs == [leg] + rest;
    NetOfCons(leg, rest, leg.account);
    ApplyOutcome(b[leg.account], LegOperation(back));
    ApplyLegPosts(b, back);
    if ApplyLeg(b, back).1.None? {
      forall x | x in a ensures Net([back], x) + Net(legs, x) == Net(rest, x) {
        NetOfOne(back, x);
        NetOfCons(leg, rest, x);
      }
    }
  }

  lemma {:induction false} ReversedLegsFit(a: Accounts, legs: seq<EntryLeg>, b: Accounts)
    requires AllSound(b) && Posted(a, legs, b) && Postable(a, legs)
    ensures ApplyLegs(b, ReversedLegs(legs)).1.None? <==> forall k :: 0 <= k < |legs| ==> ReversalFits(a, legs, k)
  {
    if legs != [] {
      var rest := legs[1..];
      FirstLegReverses(a, legs, b);
      assert ReversedLegs(legs)[1..] == ReversedLegs(rest);
      forall k | 0 <= k < |rest| ensures ReversalFits(a, legs, k + 1) <==> ReversalFits(a, rest, k) {
        assert legs[k + 1..][1..] == legs[k + 2..] && rest[k + 1..] == legs[k + 2..];
      }
      if ReversalFits(a, legs, 0) {
        ReversedLegsFit(a, rest, ApplyLeg(b, legs[0].(side := Counterpart(legs[0].side))).0);
        forall k | 0 < k < |legs| ensures ReversalFits(a, legs, k) <==> ReversalFits(a, rest, k - 1) {
        }
      }
    }
  }

  /** A recorded entry can be reversed if and only if every leg can: a credited account must not
      have been overdrawn, and a debited account must have room, counting the later legs. */
  lemma EntryReversibility(s: Ledger, t: TransactionId, legs: seq<EntryLeg>, text: string)
    requires WellFormed(s) && RecordEntry(s, t, legs, text).1.Success?
    ensures
      var (s1, entry) := RecordEntry(s, t, legs, text);
      ReverseEntry(s1, entry.value.id).1.Success? <==> forall k :: 0 <= k < |legs| ==> ReversalFits(s.accounts, legs, k)
  {
    ReverseOfRecorded(s, t, legs, text);
    PostedLegsArePostable(s.accounts, legs);
    ReversedLegsFit(s.accounts, legs, RecordEntry(s, t, legs, text).0.accounts);
  }

  /** In particular a transfer: exactly when the destination's available amount was not below
      zero; for a transfer to itself, exactly when the account has room for it. */
  lemma TransferReversibility(s: Ledger, t: TransactionId, from: AccountId, to: AccountId, amount: int, text: string)
    requires WellFormed(s) && RecordTransfer(s, t, from, to, amount, text).1.Success?
    ensures from in s.accounts && to in s.accounts
    ensures
      var (s1, entry) := RecordTransfer(s, t, from, to, amount, text);
      ReverseEntry(s1, entry.value.id).1.Success? <==>
        if from != to then 0 <= s.accounts[to].available else s.accounts[to].balance + amount <= I64_MAX
  {
    var legs := [MakeLeg(from, DebitSide, amount), MakeLeg(to, CreditSide, amount)];
    EntryReversibility(s, t, legs, text);
    PostedLegsArePostable(s.accounts, legs);
    assert legs[0].account == from && legs[1].account == to;
    ApplyOutcome(s.accounts[from], LegOperation(legs[0]));
    TransferFits(s.accounts, legs[0], legs[1]);
  }

  lemma TransferFits(accounts: Accounts, x: EntryLeg, y: EntryLeg)
    requires AllSound(accounts) && x.account in accounts && y.account in accounts
    requires x.side == DebitSide && y.side == CreditSide && x.amount == y.amount
    requires 0 < x.amount <= accounts[x.account].available
    ensures (forall k :: 0 <= k < 2 ==> ReversalFits(accounts, [x, y], k)) <==>
      if x.account != y.account then 0 <= accounts[y.account].available
      else accounts[y.account].balance + x.amount <= I64_MAX
  {
    var legs := [x, y];
    assert legs[1..] == [y] && legs[2..] == [];
    NetOfOne(y, x.account);
    assert (forall k :: 0 <= k < 2 ==> ReversalFits(accounts, legs, k)) <==>
      ReversalFits(accounts, legs, 0) && ReversalFits(accounts, legs, 1);
  }

  // Both conditions can fail.

  function NewLedger(accounts: Accounts): Ledger {
    Ledger([], 0, accounts, map[], 0)
  }

  lemma OverdrawnDestinationBlocksReversal(balance: int, overdraft: int, amount: int)
    requires 0 < amount <= balance <= I64_MAX && I64_MIN <= -overdraft < 0
    ensures
      var s := NewLedger(map[0 := Funds(balance, balance, Open), 1 := Funds(-overdraft, -overdraft, Open)]);
      var (s1, entry) := RecordTransfer(s, 0, 0, 1, amount, "");
      entry.Success? && ReverseEntry(s1, entry.value.id).1.Failure?
  {
    var s := NewLedger(map[0 := Funds(balance, balance, Open), 1 := Funds(-overdraft, -overdraft, Open)]);
    TransferIsRecorded(s, 0, 1, amount);
    TransferReversibility(s, 0, 0, 1, amount, "");
  }

  lemma SelfTransferWithoutRoomBlocksReversal(balance: int, amount: int)
    requires 0 < amount <= balance <= I64_MAX < balance + amount
    ensures
      var (s1, entry) := RecordTransfer(NewLedger(map[0 := Funds(balance, balance, Open)]), 0, 0, 0, amount, "");
      entry.Success? && ReverseEntry(s1, entry.value.id).1.Failure?
  {
    var s := NewLedger(map[0 := Funds(balance, balance, Open)]);
    TransferIsRecorded(s, 0, 0, amount);
    TransferReversibility(s, 0, 0, 0, amount, "");
  }

  lemma LegThenLegs(accounts: Accounts, leg: EntryLeg, legs: seq<EntryLeg>)
    ensures ApplyLegs(accounts, [leg] + legs).1.None? <==>
      ApplyLeg(accounts, leg).1.None? && ApplyLegs(ApplyLeg(accounts, leg).0, legs).1.None?
  {
    assert ([leg] + legs)[0] == leg && ([leg] + legs)[1..] == legs;
  }

  lemma TransferIsRecorded(s: Ledger, from: AccountId, to: AccountId, amount: int)
    requires AllSound(s.accounts) && from in s.accounts && to in s.accounts
    requires s.accounts[from].status == Open && s.accounts[to].status == Open
    requires 0 < amount <= s.accounts[from].available
    requires from != to ==> s.accounts[to].balance + amount <= I64_MAX
    ensures RecordTransfer(s, 0, from, to, amount, "").1.Success?
  {
    var x, y := MakeLeg(from, DebitSide, amount), MakeLeg(to, CreditSide, amount);
    var legs := [x, y];
    ApplyOutcome(s.accounts[from], LegOperation(x));
    var first := ApplyLeg(s.accounts, x).0;
    ApplyOutcome(first[to], LegOperation(y));
    LegThenLegs(first, y, []);
    LegThenLegs(s.accounts, x, [y]);
    assert [y] + [] == [y] && [x] + [y] == legs;
    forall side ensures Total(legs, side) == amount {
      TotalOfCons(y, [], side);
      TotalOfCons(x, [y], side);
    }
  }

  // ----- numbering -----

  /** The request takes a sequence number for an entry that the journal then refuses. */
  predicate IsRejected(s: Ledger, r: Request) {
    match r
    case BeginRequest => false
    case RecordRequest(t, legs, text) => NewEntry(s.nextId, t, s.sequence + 1, legs, text).Failure?
    case TransferRequest(t, from, to, amount, text) =>
      NewEntry(s.nextId, t, s.sequence + 1, [MakeLeg(from, DebitSide, amount), MakeLeg(to, CreditSide, amount)], text).Failure?
    case ReverseRequest(id) =>
      Find(s.entries, id).Some? && Reverse(Find(s.entries, id).value, s.nextId + 1, s.nextId, s.sequence + 1).Failure?
  }

  function Rejections(s: Ledger, requests: seq<Request>): nat {
    if requests == [] then 0 else
      var prefix, r := requests[..|requests| - 1], requests[|requests| - 1];
      Rejections(s, prefix) + if IsRejected(Run(s, prefix), r) then 1 else 0
  }

  lemma ServeNumbers(s: Ledger, r: Request)
    ensures
      var s' := Serve(s, r).0;
      || (s'.entries == s.entries && s'.sequence == s.sequence + if IsRejected(s, r) then 1 else 0)
      || (!IsRejected(s, r) && s'.sequence == s.sequence + 1 && |s'.entries| == |s.entries| + 1
          && s'.entries[..|s.entries|] == s.entries && s'.entries[|s.entries|].sequence == s'.sequence)
  {
  }

  /** Over any run on an empty journal, every sequence number belongs to an entry or to a
      rejection, so the entries are numbered without gaps, and up to the last number given out,
      exactly when nothing was rejected. */
  lemma {:induction false} NumbersAreEntriesOrRejections(s: Ledger, requests: seq<Request>)
    requires s.entries == [] && s.sequence == 0
    ensures
      var s' := Run(s, requests);
      && s'.sequence == |s'.entries| + Rejections(s, requests)
      && (Rejections(s, requests) == 0 <==>
            s'.sequence == |s'.entries| && forall i :: 0 <= i < |s'.entries| ==> s'.entries[i].sequence == i + 1)
  {
    if requests != [] {
      var prefix, r := requests[..|requests| - 1], requests[|requests| - 1];
      var before, after := Run(s, prefix), Run(s, requests);
      NumbersAreEntriesOrRejections(s, prefix);
      ServeNumbers(before, r);
      if Rejections(s, requests) == 0 {
        forall i | 0 <= i < |after.entries| ensures after.entries[i].sequence == i + 1 {
          if i < |before.entries| {
            assert after.entries[i] == before.entries[i];
          }
        }
      }
    }
  }

  /** A reversal's transaction stays pending, whether or not the reversal succeeds. */
  lemma ReversalStaysPending(s: Ledger, id: EntryId)
    requires Find(s.entries, id).Some?
    ensures ReverseEntry(s, id).0.transactions == s.transactions[s.nextId := Pending]
  {
  }

  /** All identifiers given out so far are below the next one. */
  ghost predicate IdsBelow(s: Ledger) {
    && (forall t :: t in s.transactions ==> t < s.nextId)
    && forall i :: 0 <= i < |s.entries| ==> s.entries[i].id < s.nextId
  }

  lemma ServeKeepsIdsBelow(s: Ledger, r: Request)
    requires IdsBelow(s)
    ensures IdsBelow(Serve(s, r).0)
  {
  }
}

module LedgerService {
  import opened Wrappers
  import opened AccountSpec
  import opened Journal
  import opened Spec = LedgerSpec
  import opened LedgerAnswers

  class LedgerService {
    var entries: seq<JournalEntry>
    var sequence: nat
    var accounts: Accounts
    var transactions: map<TransactionId, TransactionStatus>
    var nextId: nat

    function View(): Ledger
      reads this
    {
      Ledger(entries, sequence, accounts, transactions, nextId)
    }

    constructor (accounts: Accounts)
      ensures View() == NewLedger(accounts) && IdsBelow(View())
    {
      this.entries, this.sequence, this.accounts, this.transactions, this.nextId := [], 0, accounts, map[], 0;
    }

    method BeginTransaction() returns (t: TransactionId)
      modifies this`transactions, this`nextId
      ensures (View(), t) == Begin(old(View()))
      ensures old(IdsBelow(View())) ==> t !in old(transactions) && IdsBelow(View())
    {
      t := nextId;
      nextId := nextId + 1;
      transactions := transactions[t := Pending];
    }

    /** The loop over legs that recording and reversing share. */
    method ApplyLegs(legs: seq<EntryLeg>) returns (error: Option<LedgerError>)
      modifies this`accounts
      ensures accounts == Spec.ApplyLegs(old(accounts), legs).0
      ensures error == Spec.ApplyLegs(old(accounts), legs).1
    {
      var i := 0;
      while i < |legs|
        invariant 0 <= i <= |legs|
        invariant Spec.ApplyLegs(accounts, legs[i..]).0 == Spec.ApplyLegs(old(accounts), legs).0
        invariant Spec.ApplyLegs(accounts, legs[i..]).1 == Spec.ApplyLegs(old(accounts), legs).1
      {
        assert legs[i..][1..] == legs[i + 1..];
        var leg := legs[i];
        if leg.account !in accounts {
          return Some(AccountNotFound(leg.account));
        }
        var (funds, result) := Apply(accounts[leg.account], LegOperation(leg));
        accounts := accounts[leg.account := funds];
        if result.Failure? {
          return Some(LegError(leg, result.error));
        }
        i := i + 1;
      }
      return None;
    }

    method RecordEntry(t: TransactionId, legs: seq<EntryLeg>, text: string) returns (r: Result<JournalEntry, LedgerError>)
      modifies this
      ensures (View(), r) == Spec.RecordEntry(old(View()), t, legs, text)
      ensures old(AllSound(accounts)) ==> (r.Success? <==> Balanced(legs) && AllFit(old(accounts), legs))
      ensures r.Success? ==> entries == old(entries) + [r.value] && r.value.legs == legs && r.value.transaction == t
      ensures r.Success? && t in transactions && old(transactions)[t] == Pending ==> transactions[t] == Committed
    {
      if AllSound(accounts) {
        RecordIsExact(View(), t, legs, text);
      }
      sequence := sequence + 1;
      var entry := NewEntry(nextId, t, sequence, legs, text);
      nextId := nextId + 1;
      if entry.Failure? {
        return Failure(JournalFault(entry.error));
      }
      entries := entries + [entry.value];
      var error := ApplyLegs(legs);
      if error.Some? {
        return Failure(error.value);
      }
      if t in transactions && transactions[t] == Pending {
        transactions := transactions[t := Committed];
      }
      return Success(entry.value);
    }

    method RecordTransfer(t: TransactionId, from: AccountId, to: AccountId, amount: int, text: string)
      returns (r: Result<JournalEntry, LedgerError>)
      modifies this
      ensures (View(), r) == Spec.RecordTransfer(old(View()), t, from, to, amount, text)
      ensures old(AllSound(accounts)) ==>
        (r.Success? <==>
           && CanPay(old(accounts), from, amount) && to in old(accounts) && old(accounts)[to].status == Open
           && (from != to ==> old(accounts)[to].balance + amount <= I64_MAX))
    {
      if AllSound(accounts) {
        TransferIsExact(View(), t, from, to, amount, text);
      }
      r := RecordEntry(t, [MakeLeg(from, DebitSide, amount), MakeLeg(to, CreditSide, amount)], text);
    }

    method FindEntry(id: EntryId) returns (e: Option<JournalEntry>)
      ensures e == Find(entries, id)
    {
      var i := 0;
      while i < |entries|
        invariant 0 <= i <= |entries| && Find(entries[i..], id) == Find(entries, id)
      {
        if entries[i].id == id {
          return Some(entries[i]);
        }
        assert entries[i..][1..] == entries[i + 1..];
        i := i + 1;
      }
      return None;
    }

    method ReverseEntry(id: EntryId) returns (r: Result<JournalEntry, LedgerError>)
      modifies this
      ensures (View(), r) == Spec.ReverseEntry(old(View()), id)
    {
      var original := FindEntry(id);
      if original.None? {
        return Failure(EntryNotFound(id));
      }
      var t := BeginTransaction();
      sequence := sequence + 1;
      var reversal := Reverse(original.value, nextId, t, sequence);
      nextId := nextId + 1;
      if reversal.Failure? {
        return Failure(JournalFault(reversal.error));
      }
      entries := entries + [reversal.value];
      var error := ApplyLegs(reversal.value.legs);
      if error.Some? {
        return Failure(error.value);
      }
      return Success(reversal.value);
    }
  }
}

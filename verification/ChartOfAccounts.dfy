/**
 * The chart of accounts (src/domain/coa.rs): the parent walk that guards against cycles, and
 * the forest it keeps. Parents may be missing, and may be added after their children.
 */
module ChartOfAccounts {
  import opened Wrappers

  type CoaAccountId = nat

  datatype CoaCategory = Asset | Liability | Equity | Revenue | Expense
  datatype CoaAccount = CoaAccount(id: CoaAccountId, code: string, category: CoaCategory, parent: Option<CoaAccountId>)

  type Accounts = seq<CoaAccount>

  /** The first account with the id, as `find_by_id` returns it. */
  function FindById(accounts: Accounts, id: CoaAccountId): Option<CoaAccount> {
    if accounts == [] then None
    else if accounts[0].id == id then Some(accounts[0])
    else FindById(accounts[1..], id)
  }

  function Parent(accounts: Accounts, id: CoaAccountId): Option<CoaAccountId> {
    match FindById(accounts, id) case None => None case Some(a) => a.parent
  }

  /** The n-th ancestor on the walk that starts at `start`; missing accounts end the walk. */
  function Walk(accounts: Accounts, start: Option<CoaAccountId>, n: nat): Option<CoaAccountId>
    decreases n
  {
    if n == 0 || start.None? then start else Walk(accounts, Parent(accounts, start.value), n - 1)
  }

  /** No account is its own proper ancestor. */
  ghost predicate Acyclic(accounts: Accounts) {
    forall id: CoaAccountId, n: nat :: n > 0 ==> Walk(accounts, Some(id), n) != Some(id)
  }

  function Ids(accounts: Accounts): set<CoaAccountId> {
    set a | a in accounts :: a.id
  }

  // ----- walks -----

  lemma {:induction false} WalkCompose(accounts: Accounts, start: Option<CoaAccountId>, m: nat, n: nat)
    ensures Walk(accounts, Walk(accounts, start, m), n) == Walk(accounts, start, m + n)
    decreases m
  {
    if m > 0 && start.Some? {
      WalkCompose(accounts, Parent(accounts, start.value), m - 1, n);
    } else if start.None? {
      assert Walk(accounts, start, m + n) == None;
    }
  }

  lemma {:induction false} FindAppended(accounts: Accounts, a: CoaAccount, id: CoaAccountId)
    requires a.id !in Ids(accounts)
    ensures FindById(accounts + [a], id) == if id == a.id then Some(a) else FindById(accounts, id)
  {
    if accounts == [] {
      assert accounts + [a] == [a];
    } else {
      assert (accounts + [a])[1..] == accounts[1..] + [a];
      assert Ids(accounts) == {accounts[0].id} + Ids(accounts[1..]) by {
        assert accounts == [accounts[0]] + accounts[1..];
      }
      FindAppended(accounts[1..], a, id);
    }
  }

  lemma {:induction false} FoundIsMember(accounts: Accounts, id: CoaAccountId)
    ensures FindById(accounts, id).Some? <==> id in Ids(accounts)
  {
    if accounts != [] {
      FoundIsMember(accounts[1..], id);
      assert accounts == [accounts[0]] + accounts[1..];
    }
  }

  /** Until the new account is met, walks do not see it. */
  lemma {:induction false} WalkBefore(accounts: Accounts, a: CoaAccount, start: Option<CoaAccountId>, n: nat)
    requires a.id !in Ids(accounts)
    requires forall k :: 0 <= k < n ==> Walk(accounts, start, k) != Some(a.id)
    ensures forall k :: 0 <= k <= n ==> Walk(accounts + [a], start, k) == Walk(accounts, start, k)
    decreases n
  {
    if n > 0 && start.Some? {
      assert Walk(accounts, start, 0) == start;
      FindAppended(accounts, a, start.value);
      var next := Parent(accounts, start.value);
      forall k | 0 <= k < n - 1 ensures Walk(accounts, next, k) != Some(a.id) {
        assert Walk(accounts, start, k + 1) == Walk(accounts, next, k);
      }
      WalkBefore(accounts, a, next, n - 1);
      forall k | 0 <= k <= n ensures Walk(accounts + [a], start, k) == Walk(accounts, start, k) {
        if k > 0 {
          assert Walk(accounts, start, k) == Walk(accounts, next, k - 1);
          assert Walk(accounts + [a], start, k) == Walk(accounts + [a], next, k - 1);
        }
      }
    }
  }

  /** A walk that comes back to where it was never ends. */
  lemma {:induction false} LoopedWalkNeverEnds(accounts: Accounts, id: CoaAccountId, d: nat, m: nat)
    requires d > 0 && Walk(accounts, Some(id), d) == Some(id)
    ensures Walk(accounts, Some(id), m).Some?
    decreases m
  {
    if m < d {
      WalkCompose(accounts, Some(id), m, d - m);
    } else {
      LoopedWalkNeverEnds(accounts, id, d, m - d);
      WalkCompose(accounts, Some(id), d, m - d);
    }
  }

  /** Once a walk has ended it stays ended. */
  lemma EndedWalkStaysEnded(accounts: Accounts, start: Option<CoaAccountId>, n: nat, m: nat)
    requires Walk(accounts, start, n).None? && n <= m
    ensures Walk(accounts, start, m).None?
  {
    WalkCompose(accounts, start, n, m - n);
  }

  ghost predicate Ends(accounts: Accounts, start: Option<CoaAccountId>) {
    exists n: nat :: Walk(accounts, start, n).None?
  }

  /** The walk from the new account's parent comes back to it. */
  ghost predicate Closes(accounts: Accounts, a: CoaAccount) {
    exists n: nat :: Walk(accounts, a.parent, n) == Some(a.id)
  }

  /** What the validation decides: the parent walk ends without meeting the new account. */
  ghost predicate Validates(accounts: Accounts, a: CoaAccount) {
    Ends(accounts, a.parent) && !Closes(accounts, a)
  }

  /** A repeated visit is a cycle, so the walk neither ends nor leaves the chart acyclic. */
  lemma RepeatIsACycle(accounts: Accounts, start: Option<CoaAccountId>, k: nat, n: nat)
    requires k < n && Walk(accounts, start, k).Some? && Walk(accounts, start, n) == Walk(accounts, start, k)
    ensures !Ends(accounts, start) && !Acyclic(accounts)
  {
    var id := Walk(accounts, start, k).value;
    WalkCompose(accounts, start, k, n - k);
    forall m: nat ensures Walk(accounts, start, m).Some? {
      if Walk(accounts, start, m).None? {
        EndedWalkStaysEnded(accounts, start, m, k + m);
        WalkCompose(accounts, start, k, m);
        LoopedWalkNeverEnds(accounts, id, n - k, m);
      }
    }
  }

  /** The walk meets the id within its first n places. */
  ghost predicate OnWalk(accounts: Accounts, start: Option<CoaAccountId>, n: nat, id: CoaAccountId) {
    exists k: nat :: k < n && Walk(accounts, start, k) == Some(id)
  }

  lemma OnWalkStays(accounts: Accounts, start: Option<CoaAccountId>, n: nat, id: CoaAccountId)
    requires OnWalk(accounts, start, n, id) || Walk(accounts, start, n) == Some(id)
    ensures OnWalk(accounts, start, n + 1, id)
  {
  }

  lemma MetAgain(accounts: Accounts, start: Option<CoaAccountId>, n: nat, id: CoaAccountId)
    requires OnWalk(accounts, start, n, id) && Walk(accounts, start, n) == Some(id)
    ensures !Ends(accounts, start) && !Acyclic(accounts)
  {
    var k: nat :| k < n && Walk(accounts, start, k) == Some(id);
    RepeatIsACycle(accounts, start, k, n);
  }

  /** In an acyclic chart every walk ends: it cannot repeat an account, and there are finitely many. */
  lemma AcyclicWalksEnd(accounts: Accounts, start: Option<CoaAccountId>)
    requires Acyclic(accounts)
    ensures Ends(accounts, start)
  {
    var n, current, visited := 0, start, {};
    while current.Some?
      invariant current == Walk(accounts, start, n)
      invariant forall id <- visited :: OnWalk(accounts, start, n, id)
      decreases if current.Some? then 1 + |Ids(accounts) - visited| else 0
    {
      var id := current.value;
      if id in visited {
        MetAgain(accounts, start, n, id);
      }
      Advance(accounts, start, n, id);
      Shrinks(Ids(accounts), visited, id);
      forall x | x in visited + {id} ensures OnWalk(accounts, start, n + 1, x) {
        OnWalkStays(accounts, start, n, x);
      }
      n, current, visited := n + 1, Parent(accounts, id), visited + {id};
    }
  }

  lemma Advance(accounts: Accounts, start: Option<CoaAccountId>, n: nat, id: CoaAccountId)
    requires Walk(accounts, start, n) == Some(id)
    ensures Walk(accounts, start, n + 1) == Parent(accounts, id)
    ensures Parent(accounts, id).Some? ==> id in Ids(accounts)
  {
    WalkCompose(accounts, start, n, 1);
    assert Walk(accounts, Some(id), 1) == Walk(accounts, Parent(accounts, id), 0);
    FoundIsMember(accounts, id);
  }

  lemma Shrinks(all: set<CoaAccountId>, visited: set<CoaAccountId>, id: CoaAccountId)
    requires id !in visited
    ensures id in all ==> |all - (visited + {id})| < |all - visited|
  {
    if id in all {
      assert all - visited == (all - (visited + {id})) + {id};
    }
  }

  lemma FirstVisit(accounts: Accounts, start: Option<CoaAccountId>, id: CoaAccountId, bound: nat) returns (n: nat)
    requires Walk(accounts, start, bound) == Some(id)
    ensures n <= bound && Walk(accounts, start, n) == Some(id)
    ensures forall k :: 0 <= k < n ==> Walk(accounts, start, k) != Some(id)
  {
    n := 0;
    while Walk(accounts, start, n) != Some(id)
      invariant n <= bound && forall k :: 0 <= k < n ==> Walk(accounts, start, k) != Some(id)
      decreases bound - n
    {
      n := n + 1;
    }
  }

  lemma NoCycleThrough(accounts: Accounts, a: CoaAccount, id: CoaAccountId, n: nat)
    requires Acyclic(accounts) && a.id !in Ids(accounts) && !Closes(accounts, a) && n > 0
    ensures Walk(accounts + [a], Some(id), n) != Some(id)
  {
    var after := accounts + [a];
    if k: nat :| k < n && Walk(accounts, Some(id), k) == Some(a.id) {
      // The new account lies on the walk, so a cycle would lead from its parent back to it.
      var m := FirstVisit(accounts, Some(id), a.id, k);
      WalkBefore(accounts, a, Some(id), m);
      if Walk(after, Some(id), n) == Some(id) {
        WalkCompose(after, Some(id), n, m);
        WalkCompose(after, Some(id), m, n);
        FindAppended(accounts, a, a.id);
        assert Walk(after, Some(a.id), n) == Walk(after, a.parent, n - 1);
        WalkBefore(accounts, a, a.parent, n - 1);
        assert false;
      }
    } else {
      WalkBefore(accounts, a, Some(id), n);
    }
  }

  /** Validation is exact: it accepts a fresh account exactly when adding it leaves the chart
      acyclic, whether or not the account's parent is known yet. */
  lemma ValidationIsExact(accounts: Accounts, a: CoaAccount)
    requires Acyclic(accounts) && a.id !in Ids(accounts)
    ensures Validates(accounts, a) <==> Acyclic(accounts + [a])
  {
    AcyclicWalksEnd(accounts, a.parent);
    FindAppended(accounts, a, a.id);
    if Closes(accounts, a) {
      var bound: nat :| Walk(accounts, a.parent, bound) == Some(a.id);
      var n := FirstVisit(accounts, a.parent, a.id, bound);
      WalkBefore(accounts, a, a.parent, n);
      assert Walk(accounts + [a], Some(a.id), n + 1) == Walk(accounts + [a], a.parent, n) == Some(a.id);
    } else {
      forall id: CoaAccountId, n: nat | n > 0 ensures Walk(accounts + [a], Some(id), n) != Some(id) {
        NoCycleThrough(accounts, a, id, n);
      }
    }
  }

  /** Every account was fresh and validated when it was added. */
  ghost predicate Built(accounts: Accounts) {
    forall i :: 0 <= i < |accounts| ==> accounts[i].id !in Ids(accounts[..i]) && Validates(accounts[..i], accounts[i])
  }

  /** Any chart built through validation is a forest: no account is its own ancestor, and the
      walk from any account ends, in whatever order parents and children were added. */
  lemma {:induction false} BuiltChartIsAForest(accounts: Accounts)
    requires Built(accounts)
    ensures Acyclic(accounts)
    ensures forall start :: Ends(accounts, start)
    decreases |accounts|
  {
    if accounts == [] {
      forall id: CoaAccountId, n: nat | n > 0 ensures Walk(accounts, Some(id), n) != Some(id) {
        assert Walk(accounts, Some(id), n) == Walk(accounts, None, n - 1);
      }
    } else {
      var n := |accounts| - 1;
      assert forall i :: 0 <= i < n ==> accounts[..n][..i] == accounts[..i];
      BuiltChartIsAForest(accounts[..n]);
      ValidationIsExact(accounts[..n], accounts[n]);
      assert accounts[..n] + [accounts[n]] == accounts;
    }
    forall start ensures Ends(accounts, start) {
      AcyclicWalksEnd(accounts, start);
    }
  }

  class ChartOfAccounts {
    var accounts: Accounts

    constructor ()
      ensures accounts == [] && Built(accounts)
    {
      accounts := [];
    }

    /** A debug build refuses (by panicking, None here) what does not validate; a release build
        adds any account. */
    method AddAccount(account: CoaAccount, debug: bool) returns (id: Option<CoaAccountId>)
      modifies this
      ensures id == if debug && !Validates(old(accounts), account) then None else Some(account.id)
      ensures accounts == if id.None? then old(accounts) else old(accounts) + [account]
      ensures debug && old(Built(accounts)) && account.id !in Ids(old(accounts)) ==> Built(accounts)
    {
      if debug {
        var valid := ValidateNoCircularRef(account);
        if !valid {
          return None;
        }
      }
      accounts := accounts + [account];
      assert forall i :: 0 <= i < |old(accounts)| ==> accounts[..i] == old(accounts)[..i];
      assert accounts[..|old(accounts)|] == old(accounts);
      return Some(account.id);
    }

    /** Rejects exactly the accounts whose parent walk meets them or runs into a cycle. */
    method ValidateNoCircularRef(account: CoaAccount) returns (ok: bool)
      ensures ok <==> Validates(accounts, account)
    {
      var current := account.parent;
      var visited := {account.id};
      ghost var n := 0;
      while current.Some?
        invariant current == Walk(accounts, account.parent, n)
        invariant forall k :: 0 <= k < n ==> Walk(accounts, account.parent, k) != Some(account.id)
        invariant account.id in visited
        invariant forall id <- visited - {account.id} :: OnWalk(accounts, account.parent, n, id)
        decreases if current.Some? then 1 + |Ids(accounts) - visited| else 0
      {
        var pid := current.value;
        if pid in visited {
          if pid != account.id {
            assert pid in visited - {account.id};
            MetAgain(accounts, account.parent, n, pid);
          }
          return false;
        }
        Advance(accounts, account.parent, n, pid);
        Shrinks(Ids(accounts), visited, pid);
        forall x | x in visited + {pid} - {account.id} ensures OnWalk(accounts, account.parent, n + 1, x) {
          OnWalkStays(accounts, account.parent, n, x);
        }
        visited := visited + {pid};
        current := Parent(accounts, pid);
        n := n + 1;
      }
      forall m: nat ensures Walk(accounts, account.parent, m) != Some(account.id) {
        if m >= n {
          EndedWalkStaysEnded(accounts, account.parent, n, m);
        }
      }
      return true;
    }
  }
}

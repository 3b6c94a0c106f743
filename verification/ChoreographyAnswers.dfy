/**
 * Which transfers of a choreographed run are debited, credited, refunded or still in flight, in
 * terms of the deliveries that the network made.
 */
module ChoreographyAnswers {
  import opened Sums
  import opened ChoreographySpec

  /** Delivery k asks for the transfer's debit, and the sender has the money at that moment. */
  ghost predicate DebitedAt(ts: Transfers, seeds: map<AccountId, int>, ds: seq<Delivery>, k: nat, c: CorrelationId)
    requires k < |ds|
  {
    && ds[k] == Initiated(c) && c in ts && ts[c].from in seeds
    && var balances := Run(ts, Fresh(seeds), ds[..k]).service.balances;
       ts[c].from in balances && balances[ts[c].from] >= ts[c].amount
  }

  lemma DeliverDebits(ts: Transfers, seeds: map<AccountId, int>, w: World, d: Delivery, c: CorrelationId)
    requires Consistent(ts, seeds, w)
    ensures c in Deliver(ts, w, d).service.debits <==>
      || c in w.service.debits
      || (d == Initiated(c) && c in ts && ts[c].from in seeds && w.service.balances[ts[c].from] >= ts[c].amount)
  {
  }

  /** A transfer has been debited exactly if it was asked for at a moment when the sender existed
      and had the money. */
  lemma {:induction false} DebitsAreDeliveries(ts: Transfers, seeds: map<AccountId, int>, ds: seq<Delivery>, c: CorrelationId)
    ensures c in Run(ts, Fresh(seeds), ds).service.debits <==>
      exists k :: 0 <= k < |ds| && DebitedAt(ts, seeds, ds, k, c)
  {
    if ds != [] {
      var n := |ds| - 1;
      var before := ds[..n];
      DebitsAreDeliveries(ts, seeds, before, c);
      RunIsConsistent(ts, seeds, before);
      DeliverDebits(ts, seeds, Run(ts, Fresh(seeds), before), ds[n], c);
      forall k | 0 <= k < n ensures DebitedAt(ts, seeds, before, k, c) <==> DebitedAt(ts, seeds, ds, k, c) {
        assert before[..k] == ds[..k];
      }
      assert DebitedAt(ts, seeds, ds, n, c) || !DebitedAt(ts, seeds, ds, n, c);
    }
  }

  lemma DeliverCredits(ts: Transfers, seeds: map<AccountId, int>, w: World, d: Delivery, c: CorrelationId)
    requires Consistent(ts, seeds, w) && w.emitted == w.service.debits
    ensures c in Deliver(ts, w, d).service.credits <==>
      c in w.service.credits || (d == Debited(c) && c in w.service.debits && ts[c].to in seeds)
  {
  }

  /** A transfer has been credited exactly if its destination exists and its debited event has been
      delivered at least once since its debit. */
  lemma {:induction false} CreditsAreDeliveries(ts: Transfers, seeds: map<AccountId, int>, ds: seq<Delivery>, c: CorrelationId)
    ensures c in Run(ts, Fresh(seeds), ds).service.credits <==>
      c in ts && ts[c].to in seeds && 1 <= DebitedDeliveries(ts, seeds, ds, c)
  {
    if ds != [] {
      var before := ds[..|ds| - 1];
      CreditsAreDeliveries(ts, seeds, before, c);
      RunIsConsistent(ts, seeds, before);
      RefundsAreDeliveries(ts, seeds, before, c);
      DeliverCredits(ts, seeds, Run(ts, Fresh(seeds), before), ds[|ds| - 1], c);
    }
  }

  /** Only debited transfers have deliveries that count. */
  lemma {:induction false} DeliveriesFollowDebits(ts: Transfers, seeds: map<AccountId, int>, ds: seq<Delivery>, c: CorrelationId)
    requires 1 <= DebitedDeliveries(ts, seeds, ds, c)
    ensures c in Run(ts, Fresh(seeds), ds).service.debits && c in ts
  {
    var before := ds[..|ds| - 1];
    RunIsConsistent(ts, seeds, before);
    RunIsConsistent(ts, seeds, ds);
    if 1 <= DebitedDeliveries(ts, seeds, before, c) {
      DeliveriesFollowDebits(ts, seeds, before, c);
    }
    DeliverDebits(ts, seeds, Run(ts, Fresh(seeds), before), ds[|ds| - 1], c);
  }

  // ----- balances in terms of deliveries -----

  /** The transfers to the account that have been delivered, with their amounts. */
  function Delivered(ts: Transfers, seeds: map<AccountId, int>, ds: seq<Delivery>, a: AccountId): map<CorrelationId, int> {
    map c | c in ts && ts[c].to == a && 1 <= DebitedDeliveries(ts, seeds, ds, c) :: ts[c].amount
  }

  /** The transfers of the account to a missing destination, each returned at every delivery. */
  function Returned(ts: Transfers, seeds: map<AccountId, int>, ds: seq<Delivery>, a: AccountId): map<CorrelationId, int> {
    map c | c in ts && ts[c].from == a && ts[c].to !in seeds && 1 <= DebitedDeliveries(ts, seeds, ds, c)
      :: Repeat(DebitedDeliveries(ts, seeds, ds, c), ts[c].amount)
  }

  /** Debited, and not delivered since. */
  function Undelivered(ts: Transfers, seeds: map<AccountId, int>, ds: seq<Delivery>): map<CorrelationId, int> {
    var debits := Run(ts, Fresh(seeds), ds).service.debits;
    map c | c in debits && c in ts && DebitedDeliveries(ts, seeds, ds, c) == 0 :: ts[c].amount
  }

  lemma MovementsAreDeliveries(ts: Transfers, seeds: map<AccountId, int>, ds: seq<Delivery>, a: AccountId)
    ensures
      var w := Run(ts, Fresh(seeds), ds);
      && (a in seeds ==> CreditsOf(ts, w, a) == Delivered(ts, seeds, ds, a))
      && RefundsOf(ts, w, a) == Returned(ts, seeds, ds, a)
      && InFlight(ts, w) == Undelivered(ts, seeds, ds)
  {
    var w := Run(ts, Fresh(seeds), ds);
    RunIsConsistent(ts, seeds, ds);
    forall c
      ensures c in w.service.credits <==> c in ts && ts[c].to in seeds && 1 <= DebitedDeliveries(ts, seeds, ds, c)
      ensures Count(w.refunds, c) == if c in ts && ts[c].to !in seeds then DebitedDeliveries(ts, seeds, ds, c) else 0
    {
      CreditsAreDeliveries(ts, seeds, ds, c);
      RefundsAreDeliveries(ts, seeds, ds, c);
    }
  }

  /** Under any loss, repetition and reordering: an account gains each transfer to it exactly once,
      if its debited event arrived at all, and gets back each of its transfers to a missing account
      at every arrival. What is in flight is what has been debited and has not arrived. */
  lemma BalancesAreDeliveries(ts: Transfers, seeds: map<AccountId, int>, ds: seq<Delivery>, a: AccountId)
    requires a in seeds
    ensures
      var w := Run(ts, Fresh(seeds), ds);
      && a in w.service.balances
      && w.service.balances[a] == seeds[a] - MapSum(DebitsOf(ts, w, a))
           + MapSum(Delivered(ts, seeds, ds, a)) + MapSum(Returned(ts, seeds, ds, a))
      && InFlight(ts, w) == Undelivered(ts, seeds, ds)
  {
    EveryRunIsAccounted(ts, seeds, ds);
    MovementsAreDeliveries(ts, seeds, ds, a);
    assert Balanced(ts, seeds, Run(ts, Fresh(seeds), ds), a);
  }

  /** When every debited event has arrived, however often, nothing is in flight, and every debited
      transfer to an account is part of that account's balance. If all destinations exist, the
      accounts then hold the seeded total again. */
  lemma SettledRunsArePaid(ts: Transfers, seeds: map<AccountId, int>, ds: seq<Delivery>)
    requires forall c :: c in Run(ts, Fresh(seeds), ds).service.debits ==> 1 <= DebitedDeliveries(ts, seeds, ds, c)
    ensures
      var w := Run(ts, Fresh(seeds), ds);
      && InFlight(ts, w) == map[]
      && (forall c :: c in w.service.debits && c in ts && ts[c].to in seeds ==> c in w.service.credits)
      && ((forall c :: c in ts ==> ts[c].to in seeds) ==> MapSum(w.service.balances) == MapSum(seeds))
  {
    var w := Run(ts, Fresh(seeds), ds);
    EveryRunIsAccounted(ts, seeds, ds);
    MovementsAreDeliveries(ts, seeds, ds, "");
    assert Undelivered(ts, seeds, ds) == map[];
    forall c | c in w.service.debits && c in ts && ts[c].to in seeds ensures c in w.service.credits {
      CreditsAreDeliveries(ts, seeds, ds, c);
    }
    if forall c :: c in ts ==> ts[c].to in seeds {
      assert Minted(ts, w) == map[];
    }
  }
}

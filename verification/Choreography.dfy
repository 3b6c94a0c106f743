/**
 * The choreographed transfer (src/service/choreography.rs): handlers that react to events and
 * deduplicate by correlation id. ChoreographySpec gives each handler's effect and delivers
 * events over a network that may lose, repeat and reorder them; amounts are whole multiples
 * of the decimal type's smallest unit.
 */
module ChoreographySpec {
  import opened Wrappers
  import opened Sums

  type AccountId = string
  type CorrelationId = nat

  datatype Transfer = Transfer(from: AccountId, to: AccountId, amount: int)
  datatype DebitFailure = InsufficientFunds | AccountMissing
  datatype CreditFailure = DestinationNotFound

  datatype Service = Service(balances: map<AccountId, int>, debits: set<CorrelationId>, credits: set<CorrelationId>)

  function Seed(s: Service, account: AccountId, balance: int): Service {
    s.(balances := s.balances[account := balance])
  }

  function HandleTransferInitiated(s: Service, id: CorrelationId, from: AccountId, amount: int):
    (Service, Result<(), DebitFailure>)
  {
    if id in s.debits then (s, Success(()))
    else if from !in s.balances then (s, Failure(AccountMissing))
    else if s.balances[from] < amount then (s, Failure(InsufficientFunds))
    else (s.(balances := s.balances[from := s.balances[from] - amount], debits := s.debits + {id}), Success(()))
  }

  /** A missing destination refunds the source, at every delivery. */
  function HandleAccountDebited(s: Service, id: CorrelationId, from: AccountId, amount: int, to: AccountId):
    (Service, Result<(), CreditFailure>)
  {
    if id in s.credits then (s, Success(()))
    else if to in s.balances then
      (s.(balances := s.balances[to := s.balances[to] + amount], credits := s.credits + {id}), Success(()))
    else if from in s.balances then
      (s.(balances := s.balances[from := s.balances[from] + amount]), Failure(DestinationNotFound))
    else (s, Failure(DestinationNotFound))
  }

  // ----- the network -----

  /** `emitted` holds the ids for which a debited event has been published, `refunds` how often
      each id has been refunded. */
  datatype World = World(service: Service, emitted: set<CorrelationId>, refunds: map<CorrelationId, nat>)

  datatype Delivery = Initiated(id: CorrelationId) | Debited(id: CorrelationId)

  type Transfers = map<CorrelationId, Transfer>

  function Count(refunds: map<CorrelationId, nat>, id: CorrelationId): nat {
    if id in refunds then refunds[id] else 0
  }

  /** Delivers an event once more. A debited event exists only once it has been emitted. */
  function Deliver(ts: Transfers, w: World, d: Delivery): World {
    if d.id !in ts then w else
      var t := ts[d.id];
      match d
      case Initiated(id) =>
        var (s, r) := HandleTransferInitiated(w.service, id, t.from, t.amount);
        World(s, if r.Success? then w.emitted + {id} else w.emitted, w.refunds)
      case Debited(id) =>
        if id !in w.emitted then w else
          var (s, r) := HandleAccountDebited(w.service, id, t.from, t.amount, t.to);
          World(s, w.emitted, if r.Success? then w.refunds else w.refunds[id := Count(w.refunds, id) + 1])
  }

  function Run(ts: Transfers, w: World, ds: seq<Delivery>): World {
    if ds == [] then w else Deliver(ts, Run(ts, w, ds[..|ds| - 1]), ds[|ds| - 1])
  }

  function Fresh(balances: map<AccountId, int>): World {
    World(Service(balances, {}, {}), {}, map[])
  }

  // ----- where the money is -----

  function DebitsOf(ts: Transfers, w: World, a: AccountId): map<CorrelationId, int> {
    map c | c in w.service.debits && c in ts && ts[c].from == a :: ts[c].amount
  }

  function CreditsOf(ts: Transfers, w: World, a: AccountId): map<CorrelationId, int> {
    map c | c in w.service.credits && c in ts && ts[c].to == a :: ts[c].amount
  }

  /** n times amount, by repeated addition. */
  function Repeat(n: nat, amount: int): int {
    if n == 0 then 0 else Repeat(n - 1, amount) + amount
  }

  lemma {:induction false} RepeatIsPositive(n: nat, amount: int)
    requires amount > 0
    ensures 0 <= Repeat(n, amount) && (Repeat(n, amount) == 0 <==> n == 0)
  {
    if n > 0 {
      RepeatIsPositive(n - 1, amount);
    }
  }

  function RefundsOf(ts: Transfers, w: World, a: AccountId): map<CorrelationId, int> {
    map c | c in w.refunds && c in ts && ts[c].from == a :: Repeat(w.refunds[c], ts[c].amount)
  }

  /** Debited, and neither credited nor refunded yet. */
  function InFlight(ts: Transfers, w: World): map<CorrelationId, int> {
    map c | c in w.service.debits && c in ts && c !in w.service.credits && c !in w.refunds :: ts[c].amount
  }

  /** What repeated refunds of one transfer have created. */
  function Minted(ts: Transfers, w: World): map<CorrelationId, int> {
    map c | c in w.refunds && c in ts && w.refunds[c] > 0 :: Repeat(w.refunds[c] - 1, ts[c].amount)
  }

  ghost predicate Consistent(ts: Transfers, seeds: map<AccountId, int>, w: World) {
    && w.service.balances.Keys == seeds.Keys
    && w.service.credits <= w.emitted <= w.service.debits <= ts.Keys
    && w.refunds.Keys <= w.emitted
    && (forall c :: c in w.service.debits ==> ts[c].from in seeds)
    && (forall c :: c in w.service.credits ==> ts[c].to in seeds)
    && (forall c :: c in w.refunds ==> 1 <= w.refunds[c] && ts[c].to !in seeds)
  }

  /** Each account: every id is debited at most once and credited at most once. */
  ghost predicate Accounted(ts: Transfers, seeds: map<AccountId, int>, w: World) {
    forall a :: a in seeds && a in w.service.balances ==> Balanced(ts, seeds, w, a)
  }

  ghost predicate Balanced(ts: Transfers, seeds: map<AccountId, int>, w: World, a: AccountId)
    requires a in seeds && a in w.service.balances
  {
    w.service.balances[a] ==
      seeds[a] - MapSum(DebitsOf(ts, w, a)) + MapSum(CreditsOf(ts, w, a)) + MapSum(RefundsOf(ts, w, a))
  }

  ghost predicate Conserved(ts: Transfers, seeds: map<AccountId, int>, w: World) {
    MapSum(w.service.balances) + MapSum(InFlight(ts, w)) == MapSum(seeds) + MapSum(Minted(ts, w))
  }

  lemma DeliverKeepsConsistent(ts: Transfers, seeds: map<AccountId, int>, w: World, d: Delivery)
    requires Consistent(ts, seeds, w)
    ensures Consistent(ts, seeds, Deliver(ts, w, d))
  {
  }

  // The three effects a delivery can have; every other delivery moves no money.

  ghost predicate IsDebit(ts: Transfers, w: World, id: CorrelationId, w': World) {
    && id in ts && id !in w.service.debits && ts[id].from in w.service.balances
    && var t := ts[id];
       w' == World(Service(w.service.balances[t.from := w.service.balances[t.from] - t.amount],
                           w.service.debits + {id}, w.service.credits),
                   w.emitted + {id}, w.refunds)
  }

  ghost predicate IsCredit(ts: Transfers, w: World, id: CorrelationId, w': World) {
    && id in ts && id in w.service.debits && id !in w.service.credits && ts[id].to in w.service.balances
    && var t := ts[id];
       w' == World(Service(w.service.balances[t.to := w.service.balances[t.to] + t.amount],
                           w.service.debits, w.service.credits + {id}),
                   w.emitted, w.refunds)
  }

  ghost predicate IsRefund(ts: Transfers, w: World, id: CorrelationId, w': World) {
    && id in ts && id in w.service.debits && id !in w.service.credits
    && ts[id].from in w.service.balances && ts[id].to !in w.service.balances
    && var t := ts[id];
       w' == World(w.service.(balances := w.service.balances[t.from := w.service.balances[t.from] + t.amount]),
                   w.emitted, w.refunds[id := Count(w.refunds, id) + 1])
  }

  ghost predicate IsQuiet(w: World, w': World) {
    w'.service == w.service && w'.refunds == w.refunds
  }

  lemma DeliverShapes(ts: Transfers, seeds: map<AccountId, int>, w: World, d: Delivery)
    requires Consistent(ts, seeds, w)
    ensures
      var w' := Deliver(ts, w, d);
      IsQuiet(w, w') || IsDebit(ts, w, d.id, w') || IsCredit(ts, w, d.id, w') || IsRefund(ts, w, d.id, w')
  {
  }

  lemma DebitConserves(ts: Transfers, seeds: map<AccountId, int>, w: World, id: CorrelationId, w': World)
    requires Consistent(ts, seeds, w) && Conserved(ts, seeds, w) && IsDebit(ts, w, id, w')
    ensures Conserved(ts, seeds, w')
  {
    var t := ts[id];
    MapSumInsert(w.service.balances, t.from, w.service.balances[t.from] - t.amount);
    assert InFlight(ts, w') == InFlight(ts, w)[id := t.amount];
    MapSumInsert(InFlight(ts, w), id, t.amount);
    assert Minted(ts, w') == Minted(ts, w);
  }

  lemma CreditConserves(ts: Transfers, seeds: map<AccountId, int>, w: World, id: CorrelationId, w': World)
    requires Consistent(ts, seeds, w) && Conserved(ts, seeds, w) && IsCredit(ts, w, id, w')
    ensures Conserved(ts, seeds, w')
  {
    var t := ts[id];
    MapSumInsert(w.service.balances, t.to, w.service.balances[t.to] + t.amount);
    MapSumRemove(InFlight(ts, w), id);
    assert InFlight(ts, w') == InFlight(ts, w) - {id};
    assert Minted(ts, w') == Minted(ts, w);
  }

  /** The first refund takes a transfer out of flight ... */
  lemma RefundLands(ts: Transfers, w: World, id: CorrelationId, w': World)
    requires IsRefund(ts, w, id, w')
    ensures MapSum(InFlight(ts, w')) == MapSum(InFlight(ts, w)) - (if id in w.refunds then 0 else ts[id].amount)
  {
    if id in w.refunds {
      assert InFlight(ts, w') == InFlight(ts, w);
    } else {
      MapSumRemove(InFlight(ts, w), id);
      assert InFlight(ts, w') == InFlight(ts, w) - {id};
    }
  }

  /** ... and every later one creates its amount. */
  lemma RefundMints(ts: Transfers, w: World, id: CorrelationId, w': World)
    requires IsRefund(ts, w, id, w') && (id in w.refunds ==> w.refunds[id] > 0)
    ensures MapSum(Minted(ts, w')) == MapSum(Minted(ts, w)) + (if id in w.refunds then ts[id].amount else 0)
  {
    var n := Count(w.refunds, id);
    var minted := Minted(ts, w);
    assert Minted(ts, w') == minted[id := Repeat(n, ts[id].amount)];
    MapSumInsert(minted, id, Repeat(n, ts[id].amount));
  }

  lemma RefundConserves(ts: Transfers, seeds: map<AccountId, int>, w: World, id: CorrelationId, w': World)
    requires Consistent(ts, seeds, w) && Conserved(ts, seeds, w) && IsRefund(ts, w, id, w')
    ensures Conserved(ts, seeds, w')
  {
    var t := ts[id];
    MapSumInsert(w.service.balances, t.from, w.service.balances[t.from] + t.amount);
    RefundLands(ts, w, id, w');
    RefundMints(ts, w, id, w');
  }

  lemma DeliverKeepsConserved(ts: Transfers, seeds: map<AccountId, int>, w: World, d: Delivery)
    requires Consistent(ts, seeds, w) && Conserved(ts, seeds, w)
    ensures Conserved(ts, seeds, Deliver(ts, w, d))
  {
    var w' := Deliver(ts, w, d);
    DeliverShapes(ts, seeds, w, d);
    if IsQuiet(w, w') {
      assert InFlight(ts, w') == InFlight(ts, w) && Minted(ts, w') == Minted(ts, w);
    } else if IsDebit(ts, w, d.id, w') {
      DebitConserves(ts, seeds, w, d.id, w');
    } else if IsCredit(ts, w, d.id, w') {
      CreditConserves(ts, seeds, w, d.id, w');
    } else {
      RefundConserves(ts, seeds, w, d.id, w');
    }
  }

  lemma QuietMoves(ts: Transfers, w: World, w': World, a: AccountId)
    requires IsQuiet(w, w')
    ensures DebitsOf(ts, w', a) == DebitsOf(ts, w, a) && CreditsOf(ts, w', a) == CreditsOf(ts, w, a)
    ensures RefundsOf(ts, w', a) == RefundsOf(ts, w, a)
  {
  }

  lemma DebitMoves(ts: Transfers, w: World, id: CorrelationId, w': World, a: AccountId)
    requires IsDebit(ts, w, id, w')
    ensures MapSum(DebitsOf(ts, w', a)) == MapSum(DebitsOf(ts, w, a)) + (if ts[id].from == a then ts[id].amount else 0)
    ensures CreditsOf(ts, w', a) == CreditsOf(ts, w, a) && RefundsOf(ts, w', a) == RefundsOf(ts, w, a)
  {
    if ts[id].from == a {
      assert DebitsOf(ts, w', a) == DebitsOf(ts, w, a)[id := ts[id].amount];
      MapSumInsert(DebitsOf(ts, w, a), id, ts[id].amount);
    } else {
      assert DebitsOf(ts, w', a) == DebitsOf(ts, w, a);
    }
  }

  lemma CreditMoves(ts: Transfers, w: World, id: CorrelationId, w': World, a: AccountId)
    requires IsCredit(ts, w, id, w')
    ensures MapSum(CreditsOf(ts, w', a)) == MapSum(CreditsOf(ts, w, a)) + (if ts[id].to == a then ts[id].amount else 0)
    ensures DebitsOf(ts, w', a) == DebitsOf(ts, w, a) && RefundsOf(ts, w', a) == RefundsOf(ts, w, a)
  {
    if ts[id].to == a {
      assert CreditsOf(ts, w', a) == CreditsOf(ts, w, a)[id := ts[id].amount];
      MapSumInsert(CreditsOf(ts, w, a), id, ts[id].amount);
    } else {
      assert CreditsOf(ts, w', a) == CreditsOf(ts, w, a);
    }
  }

  lemma RefundMoves(ts: Transfers, w: World, id: CorrelationId, w': World, a: AccountId)
    requires IsRefund(ts, w, id, w')
    ensures MapSum(RefundsOf(ts, w', a)) == MapSum(RefundsOf(ts, w, a)) + (if ts[id].from == a then ts[id].amount else 0)
    ensures DebitsOf(ts, w', a) == DebitsOf(ts, w, a) && CreditsOf(ts, w', a) == CreditsOf(ts, w, a)
  {
    if ts[id].from == a {
      var n := Count(w.refunds, id);
      assert RefundsOf(ts, w', a) == RefundsOf(ts, w, a)[id := Repeat(n + 1, ts[id].amount)];
      MapSumInsert(RefundsOf(ts, w, a), id, Repeat(n + 1, ts[id].amount));
    } else {
      assert RefundsOf(ts, w', a) == RefundsOf(ts, w, a);
    }
  }

  lemma DeliverKeepsAccounted(ts: Transfers, seeds: map<AccountId, int>, w: World, d: Delivery)
    requires Consistent(ts, seeds, w) && Accounted(ts, seeds, w)
    ensures Accounted(ts, seeds, Deliver(ts, w, d))
  {
    forall a | a in seeds && a in Deliver(ts, w, d).service.balances
      ensures Balanced(ts, seeds, Deliver(ts, w, d), a)
    {
      DeliverKeepsBalanced(ts, seeds, w, d, a);
    }
  }

  lemma DeliverKeepsBalanced(ts: Transfers, seeds: map<AccountId, int>, w: World, d: Delivery, a: AccountId)
    requires Consistent(ts, seeds, w) && a in seeds && Balanced(ts, seeds, w, a)
    ensures a in Deliver(ts, w, d).service.balances && Balanced(ts, seeds, Deliver(ts, w, d), a)
  {
    var w' := Deliver(ts, w, d);
    DeliverShapes(ts, seeds, w, d);
    if IsQuiet(w, w') {
      QuietMoves(ts, w, w', a);
    } else if IsDebit(ts, w, d.id, w') {
      DebitMoves(ts, w, d.id, w', a);
    } else if IsCredit(ts, w, d.id, w') {
      CreditMoves(ts, w, d.id, w', a);
    } else {
      RefundMoves(ts, w, d.id, w', a);
    }
  }

  // ----- main results -----

  /** Under any loss, repetition and reordering of events: every account is exactly its seed
      less one debit per debited id, plus one credit per credited id, plus its refunds; a credit
      only ever follows a debit; and the total over all accounts and transfers in flight is the
      seeded total, plus what repeated refunds have created. */
  lemma {:induction false} EveryRunIsAccounted(ts: Transfers, seeds: map<AccountId, int>, ds: seq<Delivery>)
    ensures
      var w := Run(ts, Fresh(seeds), ds);
      Consistent(ts, seeds, w) && Accounted(ts, seeds, w) && Conserved(ts, seeds, w)
  {
    if ds == [] {
      var w := Fresh(seeds);
      assert InFlight(ts, w) == map[] && Minted(ts, w) == map[];
      forall a ensures DebitsOf(ts, w, a) == CreditsOf(ts, w, a) == RefundsOf(ts, w, a) == map[] {
      }
    } else {
      var w := Run(ts, Fresh(seeds), ds[..|ds| - 1]);
      EveryRunIsAccounted(ts, seeds, ds[..|ds| - 1]);
      DeliverKeepsConsistent(ts, seeds, w, ds[|ds| - 1]);
      DeliverKeepsAccounted(ts, seeds, w, ds[|ds| - 1]);
      DeliverKeepsConserved(ts, seeds, w, ds[|ds| - 1]);
    }
  }

  ghost predicate PositiveAmounts(ts: Transfers) {
    forall c :: c in ts ==> ts[c].amount > 0
  }

  /** How often a debited event of the transfer is delivered after its debit. */
  function DebitedDeliveries(ts: Transfers, seeds: map<AccountId, int>, ds: seq<Delivery>, c: CorrelationId): nat {
    if ds == [] then 0 else
      var before, last := ds[..|ds| - 1], ds[|ds| - 1];
      DebitedDeliveries(ts, seeds, before, c)
      + if last == Debited(c) && c in Run(ts, Fresh(seeds), before).service.debits then 1 else 0
  }

  /** Each of these refunds a transfer whose destination is missing, and none of another. */
  lemma {:induction false} RefundsAreDeliveries(ts: Transfers, seeds: map<AccountId, int>, ds: seq<Delivery>, c: CorrelationId)
    ensures Count(Run(ts, Fresh(seeds), ds).refunds, c)
      == if c in ts && ts[c].to !in seeds then DebitedDeliveries(ts, seeds, ds, c) else 0
    ensures Run(ts, Fresh(seeds), ds).emitted == Run(ts, Fresh(seeds), ds).service.debits
  {
    if ds != [] {
      RefundsAreDeliveries(ts, seeds, ds[..|ds| - 1], c);
      RunIsConsistent(ts, seeds, ds[..|ds| - 1]);
      DeliverCountsRefund(ts, seeds, Run(ts, Fresh(seeds), ds[..|ds| - 1]), ds[|ds| - 1], c);
    }
  }

  lemma RunIsConsistent(ts: Transfers, seeds: map<AccountId, int>, ds: seq<Delivery>)
    ensures Consistent(ts, seeds, Run(ts, Fresh(seeds), ds))
  {
    EveryRunIsAccounted(ts, seeds, ds);
  }

  lemma DeliverCountsRefund(ts: Transfers, seeds: map<AccountId, int>, w: World, d: Delivery, c: CorrelationId)
    requires Consistent(ts, seeds, w) && w.emitted == w.service.debits
    ensures Deliver(ts, w, d).emitted == Deliver(ts, w, d).service.debits
    ensures Count(Deliver(ts, w, d).refunds, c) == Count(w.refunds, c)
      + if d == Debited(c) && c in w.service.debits && ts[c].to !in seeds then 1 else 0
  {
  }

  /** With positive amounts, money is conserved exactly when no transfer to a missing account has
      its debited event delivered twice; in particular always, if every destination exists. */
  lemma ConservationIsExact(ts: Transfers, seeds: map<AccountId, int>, ds: seq<Delivery>)
    requires PositiveAmounts(ts)
    ensures
      var w := Run(ts, Fresh(seeds), ds);
      && (MapSum(w.service.balances) + MapSum(InFlight(ts, w)) == MapSum(seeds) <==>
            forall c :: c in ts && ts[c].to !in seeds ==> DebitedDeliveries(ts, seeds, ds, c) <= 1)
      && (forall c :: Count(w.refunds, c)
            == if c in ts && ts[c].to !in seeds then DebitedDeliveries(ts, seeds, ds, c) else 0)
      && ((forall c :: c in ts ==> ts[c].to in seeds) ==> w.refunds == map[])
  {
    var w := Run(ts, Fresh(seeds), ds);
    EveryRunIsAccounted(ts, seeds, ds);
    WorldConservation(ts, seeds, w);
    forall c ensures Count(w.refunds, c)
      == if c in ts && ts[c].to !in seeds then DebitedDeliveries(ts, seeds, ds, c) else 0
    {
      RefundsAreDeliveries(ts, seeds, ds, c);
    }
    OneRefundEach(ts, seeds, w);
  }

  lemma OneRefundEach(ts: Transfers, seeds: map<AccountId, int>, w: World)
    requires Consistent(ts, seeds, w)
    ensures (forall c :: c in w.refunds ==> w.refunds[c] == 1) <==>
      forall c :: c in ts && ts[c].to !in seeds ==> Count(w.refunds, c) <= 1
  {
  }

  lemma WorldConservation(ts: Transfers, seeds: map<AccountId, int>, w: World)
    requires PositiveAmounts(ts) && Consistent(ts, seeds, w) && Conserved(ts, seeds, w)
    ensures MapSum(w.service.balances) + MapSum(InFlight(ts, w)) == MapSum(seeds) <==>
      forall c :: c in w.refunds ==> w.refunds[c] == 1
    ensures (forall c :: c in ts ==> ts[c].to in seeds) ==> w.refunds == map[]
  {
    MintedIsZero(ts, seeds, w);
  }

  lemma MintedIsZero(ts: Transfers, seeds: map<AccountId, int>, w: World)
    requires PositiveAmounts(ts) && Consistent(ts, seeds, w)
    ensures MapSum(Minted(ts, w)) == 0 <==> forall c :: c in w.refunds ==> w.refunds[c] == 1
  {
    var minted := Minted(ts, w);
    assert minted.Keys == w.refunds.Keys;
    forall c | c in minted ensures 0 <= minted[c] && (minted[c] == 0 <==> w.refunds[c] == 1) {
      RepeatIsPositive(w.refunds[c] - 1, ts[c].amount);
    }
    ZeroSum(minted);
    assert forall c :: c in w.refunds <==> c in minted;
  }

  lemma ZeroSum(m: map<CorrelationId, int>)
    requires forall c :: c in m ==> 0 <= m[c]
    ensures MapSum(m) == 0 <==> forall c :: c in m ==> m[c] == 0
  {
    MapSumNonNegative(m);
    forall c | c in m ensures m[c] <= MapSum(m) {
      MapSumRemove(m, c);
      MapSumNonNegative(m - {c});
    }
    if forall c :: c in m ==> m[c] == 0 {
      AllZero(m);
    }
  }

  lemma {:induction false} AllZero(m: map<CorrelationId, int>)
    requires forall c :: c in m ==> m[c] == 0
    ensures MapSum(m) == 0
    decreases |m|
  {
    if m != map[] {
      var c :| c in m;
      MapSumRemove(m, c);
      assert (m - {c}).Keys == m.Keys - {c};
      AllZero(m - {c});
    }
  }

  ghost predicate NonNegative(balances: map<AccountId, int>) {
    forall a :: a in balances ==> balances[a] >= 0
  }

  lemma {:induction false} BalancesStayNonNegative(ts: Transfers, seeds: map<AccountId, int>, ds: seq<Delivery>)
    requires (forall c :: c in ts ==> ts[c].amount >= 0) && NonNegative(seeds)
    ensures NonNegative(Run(ts, Fresh(seeds), ds).service.balances)
  {
    if ds != [] {
      BalancesStayNonNegative(ts, seeds, ds[..|ds| - 1]);
      DeliverKeepsNonNegative(ts, Run(ts, Fresh(seeds), ds[..|ds| - 1]), ds[|ds| - 1]);
    }
  }

  lemma DeliverKeepsNonNegative(ts: Transfers, w: World, d: Delivery)
    requires d.id in ts ==> ts[d.id].amount >= 0
    requires NonNegative(w.service.balances)
    ensures NonNegative(Deliver(ts, w, d).service.balances)
  {
  }

  /** The smallest run that creates money: one debit, then the debited event twice. */
  lemma SecondRefundCreatesMoney(from: AccountId, missing: AccountId, amount: int)
    requires from != missing && amount > 0
    ensures
      var ts: Transfers := map[0 := Transfer(from, missing, amount)];
      var balances := Run(ts, Fresh(map[from := amount]), [Initiated(0), Debited(0), Debited(0)]).service.balances;
      from in balances && balances[from] == 2 * amount
  {
    var ts: Transfers := map[0 := Transfer(from, missing, amount)];
    var w0 := Fresh(map[from := amount]);
    var d := [Initiated(0), Debited(0), Debited(0)];
    assert d[..2][..1] == [Initiated(0)] && d[..2] == [Initiated(0), Debited(0)] && d[..1][..0] == [];
    assert Run(ts, w0, []) == w0;
    var w1 := Run(ts, w0, [Initiated(0)]);
    assert w1 == Deliver(ts, w0, Initiated(0));
    var w2 := Run(ts, w0, [Initiated(0), Debited(0)]);
    assert w2 == Deliver(ts, w1, Debited(0));
  }
}

module Choreography {
  import opened Wrappers
  import opened Spec = ChoreographySpec

  class ChoreographyAccountService {
    var balances: map<AccountId, int>
    var processedDebits: set<CorrelationId>
    var processedCredits: set<CorrelationId>

    function View(): Service
      reads this
    {
      Service(balances, processedDebits, processedCredits)
    }

    constructor ()
      ensures View() == Service(map[], {}, {})
    {
      balances, processedDebits, processedCredits := map[], {}, {};
    }

    method Seed(account: AccountId, balance: int)
      modifies this`balances
      ensures View() == Spec.Seed(old(View()), account, balance)
      ensures account in balances && balances[account] == balance && balances - {account} == old(balances) - {account}
    {
      balances := balances[account := balance];
    }

    method HandleTransferInitiated(id: CorrelationId, from: AccountId, amount: int) returns (r: Result<(), DebitFailure>)
      modifies this`balances, this`processedDebits
      ensures (View(), r) == Spec.HandleTransferInitiated(old(View()), id, from, amount)
      ensures r.Success? <==> id in old(processedDebits) || (from in old(balances) && amount <= old(balances)[from])
      ensures r.Success? && id !in old(processedDebits) ==>
        balances[from] == old(balances)[from] - amount && balances - {from} == old(balances) - {from}
      ensures processedDebits == if r.Success? then old(processedDebits) + {id} else old(processedDebits)
      ensures r.Failure? || id in old(processedDebits) ==> balances == old(balances)
      ensures r.Failure? ==> r.error == if from in balances then InsufficientFunds else AccountMissing
    {
      if id in processedDebits {
        return Success(());
      }
      if from !in balances {
        return Failure(AccountMissing);
      }
      if balances[from] < amount {
        return Failure(InsufficientFunds);
      }
      balances := balances[from := balances[from] - amount];
      processedDebits := processedDebits + {id};
      return Success(());
    }

    method HandleAccountDebited(id: CorrelationId, from: AccountId, amount: int, to: AccountId)
      returns (r: Result<(), CreditFailure>)
      modifies this`balances, this`processedCredits
      ensures (View(), r) == Spec.HandleAccountDebited(old(View()), id, from, amount, to)
      ensures r.Success? <==> id in old(processedCredits) || to in old(balances)
      ensures processedCredits == if r.Success? then old(processedCredits) + {id} else old(processedCredits)
      ensures id in old(processedCredits) ==> balances == old(balances)
      ensures r.Success? && id !in old(processedCredits) ==>
        balances[to] == old(balances)[to] + amount && balances - {to} == old(balances) - {to}
      ensures r.Failure? ==> balances.Keys == old(balances).Keys && balances - {from} == old(balances) - {from}
      ensures r.Failure? && from in balances ==> balances[from] == old(balances)[from] + amount
    {
      if id in processedCredits {
        return Success(());
      }
      if to in balances {
        balances := balances[to := balances[to] + amount];
        processedCredits := processedCredits + {id};
        return Success(());
      }
      if from in balances {
        balances := balances[from := balances[from] + amount];
      }
      return Failure(DestinationNotFound);
    }
  }
}

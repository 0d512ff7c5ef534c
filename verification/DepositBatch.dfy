/** Batch completion of deposits (apps/b2b-api/src/router/deposit.router.ts). */
module DepositBatch {
  import opened Numbers
  import opened Sums
  import opened VaultRows
  import opened Orders
  import opened Batches

  /** Hundredths of a currency unit paid for one dollar; an unknown currency counts as dollars. */
  function ExchangeRate(currency: string): nat {
    match currency
    case "THB" => 3_500
    case "SGD" => 135
    case "USD" => 100
    case "EUR" => 92
    case "TWD" => 3_100
    case "KRW" => 140_000
    case _ => 100
  }

  /** Dollar amount of a deposit in cents, as toFixed(2) prints it. */
  function CryptoCents(order: Order, currency: string): nat
  {
    assert ExchangeRate(currency) > 0;
    HalfUp(order.amount, 100 * ExchangeRate(currency))
  }

  function Settle(order: Order, currency: string): Order {
    order.(status := Completed, settled := CENT * CryptoCents(order, currency))
  }

  ghost function SettleIn(currency: string): Order -> Order {
    (order: Order) => Settle(order, currency)
  }

  /** What a dollar costs, in hundredths of the currency. */
  ghost predicate CostsPerDollar(currency: string, rate: nat) {
    || (currency == "THB" && rate == 3_500)
    || (currency == "SGD" && rate == 135)
    || (currency == "EUR" && rate == 92)
    || (currency == "TWD" && rate == 3_100)
    || (currency == "KRW" && rate == 140_000)
    || (currency !in {"THB", "SGD", "EUR", "TWD", "KRW"} && rate == 100)
  }

  /** The nearest cent to an amount of 10^-6 of a currency of which a dollar costs rate/100. */
  ghost predicate NearestCent(amount: nat, rate: nat, cents: nat) {
    2 * amount - 100 * rate < 2 * (cents * (100 * rate)) <= 2 * amount + 100 * rate
  }

  /** An order is priced at the nearest cent of its amount over the rate, and settled at that price. */
  lemma PriceNearest(order: Order, currency: string, rate: nat)
    requires CostsPerDollar(currency, rate)
    ensures NearestCent(order.amount, rate, CryptoCents(order, currency))
    ensures var settled := Settle(order, currency);
            && settled.settled % 10_000 == 0 && NearestCent(order.amount, rate, settled.settled / 10_000)
            && settled == Order(order.client, Completed, order.environment, order.amount, settled.settled)
  {
    assert ExchangeRate(currency) == rate;
    assert CENT * CryptoCents(order, currency) / 10_000 == CryptoCents(order, currency);
  }

  /** An order can be completed exactly when it is worth at least half a cent and the call succeeds. */
  lemma CompletesExactly(order: Order, currency: string, rate: nat, completion: Completion)
    requires CostsPerDollar(currency, rate)
    ensures Completes(order, currency, completion) <==> order.amount >= 50 * rate && completion == Succeeds
    ensures Marks(order, currency, completion) <==> order.amount >= 50 * rate && completion != ThrowsBefore
  {
    PriceNearest(order, currency, rate);
    var cents, unit := CryptoCents(order, currency), 100 * rate;
    hide CryptoCents, CostsPerDollar;
    if cents > 0 { MulMono(1, cents, unit); }
  }

  /** The fiat amount of an item's order. */
  ghost function FiatOf(orders: map<string, Order>): Item -> nat {
    (item: Item) => if item.orderId in orders then orders[item.orderId].amount else 0
  }

  /** Every item is at the nearest cent, and their total within half a cent an item of all fiat amounts at
      the rate. */
  ghost predicate PricedAt(orders: map<string, Order>, items: seq<Item>, total: nat, rate: nat) {
    && (forall item <- items ::
          item.orderId in orders && NearestCent(orders[item.orderId].amount, rate, item.cents))
    && var fiat, unit := Sum(items, FiatOf(orders)), 100 * rate;
       2 * fiat - |items| * unit <= 2 * (total * unit) <= 2 * fiat + |items| * unit
  }

  lemma {:induction false} ItemsPriced(orders: map<string, Order>, ids: seq<string>, currency: string, rate: nat)
    requires CostsPerDollar(currency, rate) && forall id <- ids :: id in orders
    ensures var items := Items(orders, ids, PriceIn(currency)); PricedAt(orders, items, Sum(items, Cents()), rate)
  {
    if ids != [] {
      var prefix, last := ids[..|ids| - 1], ids[|ids| - 1];
      assert last in ids;
      assert forall id <- prefix :: id in ids;
      ItemsPriced(orders, prefix, currency, rate);
      PriceNearest(orders[last], currency, rate);
      PricedOneMore(orders, Items(orders, prefix, PriceIn(currency)), Item(last, CryptoCents(orders[last], currency)),
        rate);
    }
  }

  lemma PricedOneMore(orders: map<string, Order>, items: seq<Item>, item: Item, rate: nat)
    requires PricedAt(orders, items, Sum(items, Cents()), rate)
    requires item.orderId in orders && NearestCent(orders[item.orderId].amount, rate, item.cents)
    ensures PricedAt(orders, items + [item], Sum(items + [item], Cents()), rate)
  {
    SumAppend(items, item, Cents());
    SumAppend(items, item, FiatOf(orders));
    var unit, total := 100 * rate, Sum(items, Cents());
    hide Sum;
    assert (total + item.cents) * unit == total * unit + item.cents * unit;
    assert (|items| + 1) * unit == |items| * unit + unit;
  }

  /** A completion is written only for a positive amount (CHECK on crypto_amount). */
  predicate Marks(order: Order, currency: string, completion: Completion) {
    CryptoCents(order, currency) > 0 && completion != ThrowsBefore
  }

  predicate Completes(order: Order, currency: string, completion: Completion) {
    CryptoCents(order, currency) > 0 && completion == Succeeds
  }

  datatype Outcome =
    | Unauthenticated
    | Crashed
    | NothingCompleted
    | NoCustodialWallet(environment: Environment)
    | CreditThrew(environment: Environment)
    | IdleCredited(environment: Environment)

  ghost function PriceIn(currency: string): Order -> nat {
    (order: Order) => CryptoCents(order, currency)
  }

  class DepositRouter {
    var orders: map<string, Order>
    var idle: map<string, nat>

    /** An order's client is a row of the clients table (foreign key). */
    ghost predicate Valid()
      reads this
    {
      forall id <- orders :: orders[id].client in idle
    }

    constructor (orders: map<string, Order>, idle: map<string, nat>)
      requires forall id <- orders :: orders[id].client in idle
      ensures Valid() && this.orders == orders && this.idle == idle
    {
      this.orders, this.idle := orders, idle;
    }

    /** completeDeposit: the order is marked unless the call throws before, and may throw after. */
    method CompleteDeposit(orderId: string, currency: string, completion: Completion) returns (threw: bool)
      requires orderId in orders
      modifies this`orders
      ensures threw <==> !Completes(old(orders)[orderId], currency, completion)
      ensures orders == if Marks(old(orders)[orderId], currency, completion)
                        then old(orders)[orderId := Settle(old(orders)[orderId], currency)] else old(orders)
      ensures forall rate: nat | CostsPerDollar(currency, rate) ::
                && (threw <==> !(old(orders)[orderId].amount >= 50 * rate && completion == Succeeds))
                && (!threw ==> NearestCent(old(orders)[orderId].amount, rate, orders[orderId].settled / 10_000))
    {
      var order := orders[orderId];
      forall rate: nat | CostsPerDollar(currency, rate)
        ensures NearestCent(order.amount, rate, Settle(order, currency).settled / 10_000)
        ensures Completes(order, currency, completion) <==> order.amount >= 50 * rate && completion == Succeeds
      {
        PriceNearest(order, currency, rate);
        CompletesExactly(order, currency, rate, completion);
      }
      if !Marks(order, currency, completion) { return true; }
      orders := orders[orderId := Settle(order, currency)];
      return completion == ThrowsAfter;
    }

    /** addToIdleBalance: an UPDATE of one row, if there is one, and then an audit entry. */
    method AddToIdleBalance(client: string, amount: nat, update: Completion) returns (threw: bool)
      modifies this`idle
      ensures threw <==> update != Succeeds
      ensures idle == if client in old(idle) && update != ThrowsBefore
                      then old(idle)[client := old(idle)[client] + amount] else old(idle)
    {
      if update == ThrowsBefore { return true; }
      if client in idle { idle := idle[client := idle[client] + amount]; }
      return update == ThrowsAfter;
    }

    /** The selection loop. It stops at the first order whose completion throws, after `processed` ids. */
    method CompleteOrders(session: Session, ids: seq<string>, currency: string, completions: string -> Completion)
      returns (crashed: bool, completed: seq<Item>, totalCents: nat, environment: Environment, processed: nat)
      modifies this`orders
      ensures processed <= |ids| && (crashed <==> processed < |ids|)
      ensures !crashed ==>
                Reached(old(orders), session, ids, currency, completions, orders, completed, totalCents, environment)
      ensures crashed ==>
                CrashedAt(old(orders), session, ids, processed, currency, completions, orders, completed, totalCents)
    {
      ghost var before := orders;
      completed, totalCents, environment := [], 0, Sandbox;
      for i := 0 to |ids|
        invariant Reached(before, session, ids[..i], currency, completions, orders, completed, totalCents, environment)
      {
        var id := ids[i];
        ghost var done := ids[..i];
        assert ids[..i + 1] == done + [id];
        if !Takes(orders, session, id, |completed| == 0, environment) {
          Skip(before, session, done, id, currency, completions, orders, completed, totalCents, environment);
          continue;
        }
        Take(before, session, done, id, currency, completions, orders, completed, totalCents, environment);
        var deposit := orders[id];
        if |completed| == 0 { environment := deposit.environment; }
        var cents := CryptoCents(deposit, currency);
        var threw := CompleteDeposit(id, currency, completions(id));
        if threw { return true, completed, totalCents, environment, i; }
        totalCents := totalCents + cents;
        completed := completed + [Item(id, cents)];
      }
      assert ids[..|ids|] == ids;
      return false, completed, totalCents, environment, |ids|;
    }

    /** The credit loop: the per-product totals go to the idle balances one product at a time, up to
        the first update that throws. */
    method CreditEach(completed: seq<Item>, products: seq<string>, totals: map<string, nat>,
                      updates: string -> Completion)
      returns (threw: bool)
      requires Aggregated(orders, completed, idle, products, totals)
      modifies this`idle
      ensures threw <==> !AllSucceed(products, updates)
      ensures idle == CreditedTo(old(idle), orders, completed, products[..Written(products, updates)])
    {
      ghost var before := idle;
      NothingCredited(before, orders, completed);
      hide Aggregated, ProductCents, CreditedTo;
      for j := 0 to |products|
        invariant AllSucceed(products[..j], updates)
        invariant idle == CreditedTo(before, orders, completed, products[..j])
      {
        ProductAt(orders, completed, before, products, totals, j);
        CreditOneMore(before, orders, completed, products[..j], products[j]);
        var stopped := AddToIdleBalance(products[j], CENT * totals[products[j]], updates(products[j]));
        if stopped {
          WrittenAt(products, updates, j);
          return true;
        }
      }
      assert products[..|products|] == products;
      return false;
    }

    method CreditProducts(completed: seq<Item>, updates: string -> Completion) returns (threw: bool)
      requires Valid()
      requires forall item <- completed :: item.orderId in orders
      modifies this`idle
      ensures var products := Products(orders, completed);
              && (threw <==> !AllSucceed(products, updates))
              && idle == CreditedTo(old(idle), orders, completed, products[..Written(products, updates)])
    {
      var products, totals := AggregateByProduct(orders, completed, idle);
      threw := CreditEach(completed, products, totals, updates);
    }

    /** The credits against the rows as they were submitted: settling moved no order to another client. */
    method CreditAll(completed: seq<Item>, updates: string -> Completion, ghost before: map<string, Order>)
      returns (threw: bool)
      requires Valid() && completed != []
      requires before.Keys == orders.Keys && forall id <- before :: orders[id].client == before[id].client
      requires forall item <- completed :: item.orderId in before && item.cents > 0
      modifies this`idle
      ensures Valid()
      ensures var products := Products(before, completed);
              && (threw <==> !AllSucceed(products, updates))
              && idle == CreditedTo(old(idle), before, completed, products[..Written(products, updates)])
              && (Total(idle, Itself()) == Total(old(idle), Itself()) + CENT * Sum(completed, Cents())
                  <==> Written(products, updates) == |products|)
    {
      ghost var balances := idle;
      SameProducts(before, orders, completed);
      threw := CreditProducts(completed, updates);
      hide CreditedTo, Written, AllSucceed, Products, Sum;
      SameCreditedTo(balances, before, orders, completed,
        Products(before, completed)[..Written(Products(before, completed), updates)]);
      CreditsTotal(balances, before, completed, Written(Products(before, completed), updates));
    }

    /** The whole request. It reaches the credits exactly when the caller is known, an order is eligible,
        every order taken up completes and the first product has a wallet; idle balances move on no
        other way out, also when orders were completed by then. They rise by the reported total exactly
        when every product's update was written. */
    method BatchCompleteDeposits(session: Session, ids: seq<string>, currency: string,
                                 completions: string -> Completion, wallets: (string, Environment) -> bool,
                                 updates: string -> Completion)
      returns (outcome: Outcome, completed: seq<Item>, totalCents: nat, processed: nat)
      requires Valid()
      modifies this
      ensures Valid()
      ensures outcome == Unauthenticated <==> DefaultClient(session) == None
      ensures outcome == Unauthenticated ==> orders == old(orders) && completed == []
      ensures outcome == Crashed <==>
                DefaultClient(session).Some? && !Completable(old(orders), session, ids, currency, completions)
      ensures outcome == Crashed ==>
                processed < |ids| &&
                CrashedAt(old(orders), session, ids, processed, currency, completions, orders, completed, totalCents)
      ensures !outcome.Unauthenticated? && !outcome.Crashed? ==>
                Reached(old(orders), session, ids, currency, completions, orders, completed, totalCents,
                        BatchEnvironment(old(orders), session, ids))
      ensures outcome == NothingCompleted ==> completed == []
      ensures outcome.NoCustodialWallet? ==>
                completed != [] && outcome.environment == BatchEnvironment(old(orders), session, ids)
      ensures outcome.CreditThrew? || outcome.IdleCredited?
         <==> ReachesCredits(old(orders), session, ids, currency, completions, wallets)
      ensures outcome.CreditThrew? || outcome.IdleCredited? ==>
                outcome.environment == BatchEnvironment(old(orders), session, ids)
      ensures totalCents == Sum(completed, Cents())
      ensures forall item <- completed :: item.orderId in old(orders)
      ensures forall rate: nat | CostsPerDollar(currency, rate) :: PricedAt(old(orders), completed, totalCents, rate)
      ensures var products := Products(old(orders), completed);
              var credited := Written(products, updates);
              var reached := ReachesCredits(old(orders), session, ids, currency, completions, wallets);
              && (outcome.IdleCredited? <==> reached && AllSucceed(products, updates))
              && idle == (if reached then CreditedTo(old(idle), old(orders), completed, products[..credited])
                          else old(idle))
              && (forall client <- old(idle) ::
                    client in idle
                    && idle[client] == old(idle)[client]
                       + if reached && client in products[..credited]
                         then 10_000 * ProductCents(old(orders), completed, client) else 0)
              && (Total(idle, Itself()) == Total(old(idle), Itself()) + 10_000 * totalCents
                  <==> completed == [] || (reached && credited == |products|))
    {
      ghost var before := orders;
      var clientId := DefaultClient(session);
      if clientId == None {
        forall rate: nat | CostsPerDollar(currency, rate) ensures PricedAt(before, [], 0, rate) {}
        return Unauthenticated, [], 0, 0;
      }
      var crashed, environment;
      crashed, completed, totalCents, environment, processed := CompleteOrders(session, ids, currency, completions);
      LoopOutcome(before, session, ids, processed, currency, completions, orders, completed, totalCents, environment);
      if crashed { return Crashed, completed, totalCents, processed; }
      if |completed| == 0 { return NothingCompleted, completed, totalCents, processed; }
      if !wallets(clientId.value, environment) {
        return NoCustodialWallet(environment), completed, totalCents, processed;
      }
      var threw := CreditAll(completed, updates, before);
      return if threw then CreditThrew(environment) else IdleCredited(environment), completed, totalCents, processed;
    }
  }

  /** Every order the run takes up can be completed. */
  ghost predicate Completable(before: map<string, Order>, session: Session, ids: seq<string>, currency: string,
                              completions: string -> Completion)
  {
    forall id <- Selected(before, session, ids) :: id in before && Completes(before[id], currency, completions(id))
  }

  ghost predicate ReachesCredits(before: map<string, Order>, session: Session, ids: seq<string>, currency: string,
                                 completions: string -> Completion, wallets: (string, Environment) -> bool)
  {
    && DefaultClient(session).Some?
    && HasEligible(before, session, ids)
    && Completable(before, session, ids, currency, completions)
    && wallets(DefaultClient(session).value, BatchEnvironment(before, session, ids))
  }

  /** Idle balances after only the given products were credited. */
  ghost function CreditedTo(idle: map<string, nat>, orders: map<string, Order>, items: seq<Item>, products: seq<string>)
    : map<string, nat>
  {
    map client | client in idle ::
      idle[client] + if client in products then CENT * ProductCents(orders, items, client) else 0
  }

  lemma NothingCredited(idle: map<string, nat>, orders: map<string, Order>, items: seq<Item>)
    ensures CreditedTo(idle, orders, items, []) == idle
  {
  }

  lemma CreditOneMore(idle: map<string, nat>, orders: map<string, Order>, items: seq<Item>, products: seq<string>,
                      client: string)
    requires client in idle && client !in products
    ensures var credited := CreditedTo(idle, orders, items, products);
            client in credited && credited[client] == idle[client]
            && CreditedTo(idle, orders, items, products + [client])
               == credited[client := credited[client] + CENT * ProductCents(orders, items, client)]
  {
  }

  lemma AllProductsCredited(idle: map<string, nat>, orders: map<string, Order>, items: seq<Item>)
    requires forall item <- items :: item.orderId in orders
    ensures CreditedTo(idle, orders, items, Products(orders, items)) == Credited(idle, orders, items)
  {
    ProductsExactly(orders, items);
  }

  lemma SameCreditedTo(idle: map<string, nat>, before: map<string, Order>, after: map<string, Order>, items: seq<Item>,
                       products: seq<string>)
    requires before.Keys == after.Keys && forall id <- before :: after[id].client == before[id].client
    ensures CreditedTo(idle, after, items, products) == CreditedTo(idle, before, items, products)
  {
    SameCredits(idle, before, after, items);
  }

  /** Crediting the first n products raises all balances together by the sum of the items exactly when
      these are all the products. */
  lemma CreditsTotal(idle: map<string, nat>, orders: map<string, Order>, items: seq<Item>, n: nat)
    requires forall item <- items :: item.orderId in orders && orders[item.orderId].client in idle && item.cents > 0
    requires n <= |Products(orders, items)|
    ensures Total(CreditedTo(idle, orders, items, Products(orders, items)[..n]), Itself())
         == Total(idle, Itself()) + CENT * Sum(items, Cents())
       <==> n == |Products(orders, items)|
  {
    var products := Products(orders, items);
    CreditsAddUp(idle, orders, items);
    AllProductsCredited(idle, orders, items);
    if n == |products| {
      assert products[..n] == products;
    } else {
      ProductsHaveBalances(orders, items, idle);
      assert products[n] in products && products[n] !in products[..n];
      ProductPositive(orders, items, products[n]);
      var some, all := CreditedTo(idle, orders, items, products[..n]), CreditedTo(idle, orders, items, products);
      assert some[products[n]] < all[products[n]];
      TotalMono(some, all);
    }
  }

  /** The state of the selection loop after the ids in `done`. */
  ghost predicate Reached(before: map<string, Order>, session: Session, done: seq<string>, currency: string,
                          completions: string -> Completion, orders: map<string, Order>,
                          completed: seq<Item>, totalCents: nat, environment: Environment)
  {
    && CompletedAre(before, Selected(before, session, done), currency, completions, completed)
    && totalCents == Sum(completed, Cents())
    && environment == BatchEnvironment(before, session, done)
    && orders == SettledOrders(before, Selected(before, session, done), SettleIn(currency))
  }

  /** The items are those of the selected orders, all of which could be completed. */
  ghost predicate CompletedAre(before: map<string, Order>, selected: seq<string>, currency: string,
                               completions: string -> Completion, completed: seq<Item>)
  {
    && (forall id <- selected :: id in before && Completes(before[id], currency, completions(id)))
    && completed == Items(before, selected, PriceIn(currency))
  }

  /** The loop ended at ids[k], an order it took up but could not complete. */
  ghost predicate CrashedAt(before: map<string, Order>, session: Session, ids: seq<string>, k: nat, currency: string,
                            completions: string -> Completion, orders: map<string, Order>,
                            completed: seq<Item>, totalCents: nat)
    requires k < |ids|
  {
    var selected := Selected(before, session, ids[..k]);
    && CompletedAre(before, selected, currency, completions, completed)
    && totalCents == Sum(completed, Cents())
    && TakesLast(before, session, ids[..k] + [ids[k]])
    && ids[k] in before
    && !Completes(before[ids[k]], currency, completions(ids[k]))
    && orders == if Marks(before[ids[k]], currency, completions(ids[k]))
                 then SettledOrders(before, selected + [ids[k]], SettleIn(currency))
                 else SettledOrders(before, selected, SettleIn(currency))
  }

  lemma Skip(before: map<string, Order>, session: Session, done: seq<string>, id: string, currency: string,
             completions: string -> Completion, orders: map<string, Order>,
             completed: seq<Item>, totalCents: nat, environment: Environment)
    requires Reached(before, session, done, currency, completions, orders, completed, totalCents, environment)
    requires !Takes(orders, session, id, completed == [], environment)
    ensures Reached(before, session, done + [id], currency, completions, orders, completed, totalCents, environment)
  {
    ItemsMatch(before, Selected(before, session, done), PriceIn(currency));
    LoopTestIsSelection(before, session, done, id, SettleIn(currency), orders, environment);
    SelectedStep(before, session, done, id);
  }

  lemma Take(before: map<string, Order>, session: Session, done: seq<string>, id: string, currency: string,
             completions: string -> Completion, orders: map<string, Order>,
             completed: seq<Item>, totalCents: nat, environment: Environment)
    requires Reached(before, session, done, currency, completions, orders, completed, totalCents, environment)
    requires Takes(orders, session, id, completed == [], environment)
    ensures id in before && orders[id] == before[id]
    ensures TakesLast(before, session, done + [id])
    ensures orders[id := Settle(orders[id], currency)]
         == SettledOrders(before, Selected(before, session, done) + [id], SettleIn(currency))
    ensures Completes(orders[id], currency, completions(id)) ==>
              var cents := CryptoCents(orders[id], currency);
              Reached(before, session, done + [id], currency, completions,
                      orders[id := Settle(orders[id], currency)], completed + [Item(id, cents)], totalCents + cents,
                      if completed == [] then orders[id].environment else environment)
  {
    var selected := Selected(before, session, done);
    ItemsMatch(before, selected, PriceIn(currency));
    LoopTestIsSelection(before, session, done, id, SettleIn(currency), orders, environment);
    SelectedStep(before, session, done, id);
    SettleOneMore(before, selected, id, SettleIn(currency));
    ItemsStep(before, selected, id, PriceIn(currency));
    SumAppend(completed, Item(id, CryptoCents(before[id], currency)), Cents());
  }

  /** Every completed item has a positive amount. */
  lemma CompletedPositive(before: map<string, Order>, selected: seq<string>, currency: string,
                          completions: string -> Completion, completed: seq<Item>)
    requires CompletedAre(before, selected, currency, completions, completed)
    ensures |completed| == |selected|
    ensures forall item <- completed :: item.orderId in before && item.cents > 0
    ensures completed != [] ==> Sum(completed, Cents()) > 0
    ensures forall rate: nat | CostsPerDollar(currency, rate) ::
              PricedAt(before, completed, Sum(completed, Cents()), rate)
  {
    ItemsMatch(before, selected, PriceIn(currency));
    forall rate: nat | CostsPerDollar(currency, rate) { ItemsPriced(before, selected, currency, rate); }
    if completed != [] { assert completed[|completed| - 1] in completed; }
  }

  /** The loop crashes only on an order of the batch that cannot be completed. */
  lemma CrashedIncomplete(before: map<string, Order>, session: Session, ids: seq<string>, k: nat, currency: string,
                          completions: string -> Completion)
    requires k < |ids| && TakesLast(before, session, ids[..k] + [ids[k]])
    requires ids[k] in before && !Completes(before[ids[k]], currency, completions(ids[k]))
    ensures !Completable(before, session, ids, currency, completions)
  {
    assert ids[..k + 1] == ids[..k] + [ids[k]];
    SelectedPrefix(before, session, ids, k + 1);
    SelectedStep(before, session, ids[..k], ids[k]);
    assert ids[k] in Selected(before, session, ids[..k + 1]);
  }

  /** The loop neither removes an order nor moves one to another client. */
  lemma OwnersKept(before: map<string, Order>, ids: seq<string>, currency: string, orders: map<string, Order>)
    requires orders == SettledOrders(before, ids, SettleIn(currency))
    ensures before.Keys == orders.Keys && forall id <- before :: orders[id].client == before[id].client
  {
  }

  /** What the loop's two endings say of the submission: it crashed exactly when some order taken up
      could not be completed, and otherwise completed nothing exactly when none was eligible. */
  lemma LoopOutcome(before: map<string, Order>, session: Session, ids: seq<string>, processed: nat, currency: string,
                    completions: string -> Completion, orders: map<string, Order>, completed: seq<Item>,
                    totalCents: nat, environment: Environment)
    requires processed <= |ids|
    requires processed == |ids| ==>
               Reached(before, session, ids, currency, completions, orders, completed, totalCents, environment)
    requires processed < |ids| ==>
               CrashedAt(before, session, ids, processed, currency, completions, orders, completed, totalCents)
    ensures processed == |ids| <==> Completable(before, session, ids, currency, completions)
    ensures processed == |ids| ==> (completed != [] <==> HasEligible(before, session, ids))
    ensures forall item <- completed :: item.orderId in before && item.cents > 0
    ensures completed != [] ==> Sum(completed, Cents()) > 0
    ensures totalCents == Sum(completed, Cents())
    ensures forall rate: nat | CostsPerDollar(currency, rate) :: PricedAt(before, completed, totalCents, rate)
    ensures before.Keys == orders.Keys && forall id <- before :: orders[id].client == before[id].client
  {
    var selected := Selected(before, session, ids[..processed]);
    hide Completes, Marks, TakesLast, Selected, HasEligible, SettledOrders, Items, PricedAt, CostsPerDollar;
    if processed < |ids| {
      var id := ids[processed];
      CompletedPositive(before, selected, currency, completions, completed);
      CrashedIncomplete(before, session, ids, processed, currency, completions);
      OwnersKept(before, if Marks(before[id], currency, completions(id)) then selected + [id] else selected, currency,
        orders);
    } else {
      assert ids[..processed] == ids;
      CompletedPositive(before, selected, currency, completions, completed);
      SelectedExactly(before, session, ids);
      OwnersKept(before, selected, currency, orders);
    }
  }
}

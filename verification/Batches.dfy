/** What the two batch jobs of the operations dashboard share: who may complete an order, which of the
    submitted ids a run takes up, and how completed items add up per product
    (apps/b2b-api/src/router/deposit.router.ts and withdrawal.router.ts). Amounts count 10^-6. */
module Batches {
  import opened Sums
  import opened VaultRows
  import opened RowBatches
  import opened Orders

  /** A deposit or withdrawal order; settled is the amount written when it completes. */
  datatype Order = Order(client: string, status: Status, environment: Environment, amount: nat, settled: nat)

  /** How a service call that writes a row goes. Completing an order and updating an idle balance both
      look things up, write, and then write more (other rows, an audit entry): the call can throw before
      its first write and after it. */
  datatype Completion = Succeeds | ThrowsBefore | ThrowsAfter

  /** Either kind of caller: an API key of one client, or a dashboard user with several products. */
  datatype Session = Session(apiKeyClient: Option<string>, products: Option<seq<string>>)

  function DefaultClient(session: Session): Option<string> {
    if session.apiKeyClient.Some? then session.apiKeyClient
    else if session.products.Some? && session.products.value != [] then Some(session.products.value[0])
    else None
  }

  predicate Authorized(session: Session, client: string) {
    if session.apiKeyClient.Some? then client == session.apiKeyClient.value
    else session.products.Some? && client in session.products.value
  }

  predicate Eligible(orders: map<string, Order>, session: Session, id: string) {
    id in orders && Authorized(session, orders[id].client) && orders[id].status == Pending
  }

  ghost predicate HasEligible(orders: map<string, Order>, session: Session, ids: seq<string>) {
    exists id :: id in ids && Eligible(orders, session, id)
  }

  /** The environment of the first eligible order. */
  ghost function BatchEnvironment(orders: map<string, Order>, session: Session, ids: seq<string>): Environment {
    if ids == [] then Sandbox else
    var before, last := ids[..|ids| - 1], ids[|ids| - 1];
    if HasEligible(orders, session, before) then BatchEnvironment(orders, session, before)
    else if Eligible(orders, session, last) then orders[last].environment
    else Sandbox
  }

  /** The last id of a submission is taken up when it is its first occurrence, eligible, and of the
      environment of the batch. */
  ghost predicate TakesLast(orders: map<string, Order>, session: Session, ids: seq<string>)
    requires ids != []
  {
    var before, last := ids[..|ids| - 1], ids[|ids| - 1];
    && last !in before
    && Eligible(orders, session, last)
    && orders[last].environment == BatchEnvironment(orders, session, ids)
  }

  /** The ids a batch takes up, in the order submitted. */
  ghost function Selected(orders: map<string, Order>, session: Session, ids: seq<string>): seq<string> {
    if ids == [] then [] else
    Selected(orders, session, ids[..|ids| - 1])
    + if TakesLast(orders, session, ids) then [ids[|ids| - 1]] else []
  }

  /** The occurrences it does not take up, in the order submitted. */
  ghost function Rejected(orders: map<string, Order>, session: Session, ids: seq<string>): seq<string> {
    if ids == [] then [] else
    Rejected(orders, session, ids[..|ids| - 1])
    + if TakesLast(orders, session, ids) then [] else [ids[|ids| - 1]]
  }

  /** An order is taken up exactly when it is submitted, eligible and of the batch's environment, and
      then once, however often it was submitted. */
  lemma {:induction false} SelectedExactly(orders: map<string, Order>, session: Session, ids: seq<string>)
    ensures forall id :: id in Selected(orders, session, ids)
              <==> id in ids && Eligible(orders, session, id)
                   && orders[id].environment == BatchEnvironment(orders, session, ids)
    ensures Distinct(Selected(orders, session, ids))
    ensures Selected(orders, session, ids) != [] <==> HasEligible(orders, session, ids)
  {
    if ids != [] {
      var before, last := ids[..|ids| - 1], ids[|ids| - 1];
      assert ids == before + [last];
      SelectedExactly(orders, session, before);
      if !HasEligible(orders, session, before) {
        assert forall id <- before :: !Eligible(orders, session, id);
      }
    }
  }

  /** Who may complete what, in the figures of the session: an API key completes its own client's pending
      orders, whatever products the session lists, a dashboard user those of the listed products, and any
      other caller none. */
  lemma SelectedForCaller(orders: map<string, Order>, session: Session, ids: seq<string>, id: string)
    ensures id in Selected(orders, session, ids) <==>
              && id in ids && id in orders && orders[id].status == Pending
              && orders[id].environment == BatchEnvironment(orders, session, ids)
              && (match session
                  case Session(Some(client), _) => orders[id].client == client
                  case Session(None, Some(products)) => orders[id].client in products
                  case Session(None, None) => false)
  {
    SelectedExactly(orders, session, ids);
  }

  /** A caller has a client of its own exactly when it may complete the orders of one, and may complete
      that one's; an API key's is its client, a user's the first product. */
  lemma DefaultClientExactly(session: Session)
    ensures DefaultClient(session) == None <==> forall client :: !Authorized(session, client)
    ensures DefaultClient(session).Some? ==> Authorized(session, DefaultClient(session).value)
    ensures session.apiKeyClient.Some? ==> DefaultClient(session) == session.apiKeyClient
    ensures session.apiKeyClient.None? && DefaultClient(session).Some? ==>
              session.products.Some? && [DefaultClient(session).value] <= session.products.value
  {
    if session.apiKeyClient.Some? {
      assert Authorized(session, session.apiKeyClient.value);
    } else if session.products.Some? && session.products.value != [] {
      assert Authorized(session, session.products.value[0]);
    }
  }

  /** A batch has the environment of the first eligible order submitted. */
  lemma {:induction false} BatchEnvironmentIsFirst(orders: map<string, Order>, session: Session, ids: seq<string>,
                                                   k: nat)
    requires k < |ids| && Eligible(orders, session, ids[k])
    requires forall j :: 0 <= j < k ==> !Eligible(orders, session, ids[j])
    ensures BatchEnvironment(orders, session, ids) == orders[ids[k]].environment
  {
    var before := ids[..|ids| - 1];
    if k < |before| {
      assert before[k] == ids[k] && HasEligible(orders, session, before);
      BatchEnvironmentIsFirst(orders, session, before, k);
    } else {
      assert !HasEligible(orders, session, before);
    }
  }

  /** What is taken up early in a submission stays taken up, in the same place. */
  lemma {:induction false} SelectedPrefix(orders: map<string, Order>, session: Session, ids: seq<string>, k: nat)
    requires k <= |ids|
    ensures Selected(orders, session, ids[..k]) <= Selected(orders, session, ids)
  {
    if k < |ids| {
      var before := ids[..|ids| - 1];
      assert ids[..k] == before[..k];
      SelectedPrefix(orders, session, before, k);
    } else {
      assert ids[..k] == ids;
    }
  }

  /** Every occurrence of an id lands on exactly one side. */
  lemma {:induction false} EachOccurrenceOnce(orders: map<string, Order>, session: Session, ids: seq<string>)
    ensures multiset(Selected(orders, session, ids)) + multiset(Rejected(orders, session, ids)) == multiset(ids)
  {
    if ids != [] {
      var before, last := ids[..|ids| - 1], ids[|ids| - 1];
      assert ids == before + [last];
      EachOccurrenceOnce(orders, session, before);
    }
  }

  /** The orders after the given ones were settled, each with its own amount. */
  ghost function SettledOrders(orders: map<string, Order>, ids: seq<string>, settle: Order -> Order)
    : map<string, Order>
  {
    map id | id in orders :: if id in ids then settle(orders[id]) else orders[id]
  }

  lemma SelectedStep(orders: map<string, Order>, session: Session, done: seq<string>, id: string)
    ensures var selected, rejected := Selected(orders, session, done), Rejected(orders, session, done);
            if TakesLast(orders, session, done + [id]) then
              Selected(orders, session, done + [id]) == selected + [id]
              && Rejected(orders, session, done + [id]) == rejected
            else
              Selected(orders, session, done + [id]) == selected
              && Rejected(orders, session, done + [id]) == rejected + [id]
  {
    assert (done + [id])[..|done|] == done;
  }

  lemma SettleOneMore(orders: map<string, Order>, ids: seq<string>, id: string, settle: Order -> Order)
    requires id in orders
    ensures SettledOrders(orders, ids + [id], settle) == SettledOrders(orders, ids, settle)[id := settle(orders[id])]
  {
  }

  /** What a settlement leaves alone, and the status it sets. */
  ghost predicate Settles(settle: Order -> Order) {
    forall o: Order :: settle(o).status == Completed && settle(o).client == o.client
                       && settle(o).environment == o.environment
  }

  /** The test a loop makes on the current rows. */
  predicate Takes(orders: map<string, Order>, session: Session, id: string, first: bool, environment: Environment) {
    && id in orders
    && Authorized(session, orders[id].client)
    && orders[id].status == Pending
    && (first || orders[id].environment == environment)
  }

  /** Although the rows change under the loop, its test takes up exactly the selected occurrences:
      a repeated id fails it because its order is completed by then, or of another environment. */
  lemma LoopTestIsSelection(before: map<string, Order>, session: Session, done: seq<string>, id: string,
                            settle: Order -> Order, orders: map<string, Order>, environment: Environment)
    requires Settles(settle)
    requires orders == SettledOrders(before, Selected(before, session, done), settle)
    requires environment == BatchEnvironment(before, session, done)
    ensures var first := Selected(before, session, done) == [];
            var takes := Takes(orders, session, id, first, environment);
            && (takes <==> TakesLast(before, session, done + [id]))
            && (takes ==> id in before && orders[id] == before[id] && id !in Selected(before, session, done))
            && BatchEnvironment(before, session, done + [id])
               == if takes && first then before[id].environment else environment
  {
    SelectedExactly(before, session, done);
    assert (done + [id])[..|done|] == done;
    if Selected(before, session, done) == [] { NoneEligible(before, session, done); }
  }

  lemma {:induction false} NoneEligible(orders: map<string, Order>, session: Session, ids: seq<string>)
    requires !HasEligible(orders, session, ids)
    ensures BatchEnvironment(orders, session, ids) == Sandbox
  {
    if ids != [] {
      var before, last := ids[..|ids| - 1], ids[|ids| - 1];
      assert last in ids;
      assert !HasEligible(orders, session, before) by {
        assert forall id <- before :: id in ids;
      }
      NoneEligible(orders, session, before);
    }
  }

  // ---- per-product totals ----

  /** A completed order and its amount as printed with two decimals, in cents. */
  datatype Item = Item(orderId: string, cents: nat)

  const CENT: nat := 10_000

  /** The items of the given orders, each at its price in cents. */
  ghost function Items(orders: map<string, Order>, ids: seq<string>, price: Order -> nat): seq<Item>
    requires forall id <- ids :: id in orders
  {
    if ids == [] then [] else
    var last := ids[|ids| - 1];
    assert last in ids;
    Items(orders, ids[..|ids| - 1], price) + [Item(last, price(orders[last]))]
  }

  lemma ItemsStep(orders: map<string, Order>, ids: seq<string>, id: string, price: Order -> nat)
    requires forall i <- ids :: i in orders
    requires id in orders
    ensures forall i <- ids + [id] :: i in orders
    ensures Items(orders, ids + [id], price) == Items(orders, ids, price) + [Item(id, price(orders[id]))]
  {
    assert (ids + [id])[..|ids|] == ids;
  }

  lemma {:induction false} ItemsMatch(orders: map<string, Order>, ids: seq<string>, price: Order -> nat)
    requires forall id <- ids :: id in orders
    ensures |Items(orders, ids, price)| == |ids|
    ensures forall item <- Items(orders, ids, price) ::
              item.orderId in ids && item.cents == price(orders[item.orderId])
  {
    if ids != [] {
      assert ids[|ids| - 1] in ids;
      ItemsMatch(orders, ids[..|ids| - 1], price);
    }
  }

  ghost function Cents(): Item -> nat { (item: Item) => item.cents }

  /** What an item adds to one product. */
  ghost function CentsFor(orders: map<string, Order>, client: string): Item -> nat {
    (item: Item) => if item.orderId in orders && orders[item.orderId].client == client then item.cents else 0
  }

  ghost function ProductCents(orders: map<string, Order>, items: seq<Item>, client: string): nat {
    Sum(items, CentsFor(orders, client))
  }

  /** An item counts in full for the product that owns its order, and for no other. */
  lemma OwnItemsOnly(orders: map<string, Order>, items: seq<Item>, last: Item, client: string)
    requires last.orderId in orders
    ensures ProductCents(orders, items + [last], client)
         == ProductCents(orders, items, client) + (if client == orders[last.orderId].client then last.cents else 0)
    ensures ProductCents(orders, [], client) == 0
  {
    SumAppend(items, last, CentsFor(orders, client));
  }

  /** The products of the items, each once, in the order the per-product map meets them. */
  ghost function Products(orders: map<string, Order>, items: seq<Item>): seq<string>
    requires forall item <- items :: item.orderId in orders
  {
    if items == [] then [] else
    var last := items[|items| - 1];
    assert last in items;
    var before := Products(orders, items[..|items| - 1]);
    var client := orders[last.orderId].client;
    if client in before then before else before + [client]
  }

  lemma {:induction false} ProductsExactly(orders: map<string, Order>, items: seq<Item>)
    requires forall item <- items :: item.orderId in orders
    ensures Distinct(Products(orders, items))
    ensures forall client :: client in Products(orders, items)
              <==> exists item <- items :: orders[item.orderId].client == client
    ensures forall client :: client !in Products(orders, items) ==> ProductCents(orders, items, client) == 0
  {
    if items != [] {
      var before, last := items[..|items| - 1], items[|items| - 1];
      assert items == before + [last];
      ProductsExactly(orders, before);
    }
  }

  lemma ProductsHaveBalances(orders: map<string, Order>, items: seq<Item>, idle: map<string, nat>)
    requires forall item <- items :: item.orderId in orders && orders[item.orderId].client in idle
    ensures Distinct(Products(orders, items))
    ensures forall client <- Products(orders, items) :: client in idle
  {
    ProductsExactly(orders, items);
    forall client | client in Products(orders, items) ensures client in idle {
      var item :| item in items && orders[item.orderId].client == client;
    }
  }

  /** What the per-product map holds once it is filled. */
  ghost predicate Aggregated(orders: map<string, Order>, items: seq<Item>, idle: map<string, nat>,
                             products: seq<string>, totals: map<string, nat>)
  {
    && (forall item <- items :: item.orderId in orders)
    && products == Products(orders, items)
    && Distinct(products)
    && forall client <- products ::
         client in idle && client in totals && totals[client] == ProductCents(orders, items, client)
  }

  lemma ProductAt(orders: map<string, Order>, items: seq<Item>, idle: map<string, nat>,
                  products: seq<string>, totals: map<string, nat>, j: nat)
    requires Aggregated(orders, items, idle, products, totals) && j < |products|
    ensures var client := products[j];
            && client in idle && client in totals && totals[client] == ProductCents(orders, items, client)
            && client !in products[..j] && products[..j + 1] == products[..j] + [client]
  {
  }

  /** The loop that fills the per-product map. */
  method AggregateByProduct(orders: map<string, Order>, items: seq<Item>, ghost idle: map<string, nat>)
    returns (products: seq<string>, totals: map<string, nat>)
    requires forall item <- items :: item.orderId in orders && orders[item.orderId].client in idle
    ensures Aggregated(orders, items, idle, products, totals)
  {
    products, totals := [], map[];
    for i := 0 to |items|
      invariant products == Products(orders, items[..i])
      invariant forall client :: client in products <==> client in totals
      invariant forall client <- totals :: totals[client] == ProductCents(orders, items[..i], client)
      invariant forall client :: client !in totals ==> ProductCents(orders, items[..i], client) == 0
    {
      assert items[..i + 1][..i] == items[..i];
      var item := items[i];
      assert item in items;
      var client := orders[item.orderId].client;
      var current := if client in totals then totals[client] else 0;
      if client !in totals { products := products + [client]; }
      totals := totals[client := current + item.cents];
    }
    assert items[..|items|] == items;
    ProductsHaveBalances(orders, items, idle);
  }

  /** Idle balances after the items of every product were added. */
  ghost function Credited(idle: map<string, nat>, orders: map<string, Order>, items: seq<Item>): map<string, nat> {
    map client | client in idle :: idle[client] + CENT * ProductCents(orders, items, client)
  }

  /** The credits of all products together are the sum of the items: nothing is lost or counted twice
      in the per-product map. */
  lemma {:induction false} CreditsAddUp(idle: map<string, nat>, orders: map<string, Order>, items: seq<Item>)
    requires forall item <- items :: item.orderId in orders && orders[item.orderId].client in idle
    ensures Total(Credited(idle, orders, items), Itself()) == Total(idle, Itself()) + CENT * Sum(items, Cents())
  {
    if items == [] {
      assert Credited(idle, orders, items) == idle;
    } else {
      var before, last := items[..|items| - 1], items[|items| - 1];
      assert items == before + [last];
      assert last in items;
      CreditsAddUp(idle, orders, before);
      CreditsStep(idle, orders, before, last);
    }
  }

  lemma CreditsStep(idle: map<string, nat>, orders: map<string, Order>, before: seq<Item>, last: Item)
    requires last.orderId in orders && orders[last.orderId].client in idle
    requires Total(Credited(idle, orders, before), Itself()) == Total(idle, Itself()) + CENT * Sum(before, Cents())
    ensures Total(Credited(idle, orders, before + [last]), Itself())
         == Total(idle, Itself()) + CENT * Sum(before + [last], Cents())
  {
    CreditOneTotal(idle, orders, before, last);
    SumOneMore(before, last);
  }

  lemma CreditOneTotal(idle: map<string, nat>, orders: map<string, Order>, before: seq<Item>, last: Item)
    requires last.orderId in orders && orders[last.orderId].client in idle
    ensures Total(Credited(idle, orders, before + [last]), Itself())
         == Total(Credited(idle, orders, before), Itself()) + CENT * last.cents
  {
    CreditOne(idle, orders, before, last);
    TotalAdd(Credited(idle, orders, before), orders[last.orderId].client, CENT * last.cents,
      Credited(idle, orders, before + [last]));
  }

  lemma SumOneMore(before: seq<Item>, last: Item)
    ensures CENT * Sum(before + [last], Cents()) == CENT * Sum(before, Cents()) + CENT * last.cents
  {
    SumAppend(before, last, Cents());
  }

  lemma TotalAdd(balances: map<string, nat>, client: string, amount: nat, after: map<string, nat>)
    requires client in balances && after == balances[client := balances[client] + amount]
    ensures Total(after, Itself()) == Total(balances, Itself()) + amount
  {
    var more: nat := balances[client] + amount;
    TotalUpdate(balances, client, more, Itself());
  }

  lemma CreditOne(idle: map<string, nat>, orders: map<string, Order>, before: seq<Item>, last: Item)
    requires last.orderId in orders && orders[last.orderId].client in idle
    ensures var credited, client := Credited(idle, orders, before), orders[last.orderId].client;
            Credited(idle, orders, before + [last]) == credited[client := credited[client] + CENT * last.cents]
  {
    forall client ensures ProductCents(orders, before + [last], client)
                       == ProductCents(orders, before, client) + CentsFor(orders, client)(last)
    {
      SumAppend(before, last, CentsFor(orders, client));
    }
  }

  /** Settling orders does not change whose they are. */
  lemma SameCredits(idle: map<string, nat>, before: map<string, Order>, after: map<string, Order>, items: seq<Item>)
    requires before.Keys == after.Keys && forall id <- before :: after[id].client == before[id].client
    ensures Credited(idle, after, items) == Credited(idle, before, items)
    ensures forall client :: ProductCents(after, items, client) == ProductCents(before, items, client)
  {
    forall client ensures ProductCents(after, items, client) == ProductCents(before, items, client) {
      SameProductCents(before, after, items, client);
    }
  }

  lemma {:induction false} SameProductCents(before: map<string, Order>, after: map<string, Order>, items: seq<Item>,
                                            client: string)
    requires before.Keys == after.Keys && forall id <- before :: after[id].client == before[id].client
    ensures ProductCents(after, items, client) == ProductCents(before, items, client)
  {
    if items != [] { SameProductCents(before, after, items[..|items| - 1], client); }
  }

  lemma {:induction false} SameProducts(before: map<string, Order>, after: map<string, Order>, items: seq<Item>)
    requires before.Keys == after.Keys && forall id <- before :: after[id].client == before[id].client
    requires forall item <- items :: item.orderId in before
    ensures Products(after, items) == Products(before, items)
  {
    if items != [] {
      assert items[|items| - 1] in items;
      SameProducts(before, after, items[..|items| - 1]);
    }
  }

  // ---- a loop over the products whose updates can throw ----

  ghost predicate AllSucceed(products: seq<string>, updates: string -> Completion) {
    forall client <- products :: updates(client) == Succeeds
  }

  /** How many products are updated before the loop stops at the first throw. */
  ghost function Written(products: seq<string>, updates: string -> Completion): (n: nat)
    ensures n <= |products|
    ensures AllSucceed(products, updates) ==> n == |products|
  {
    if products == [] then 0 else
    var before, last := products[..|products| - 1], products[|products| - 1];
    assert products == before + [last];
    Written(before, updates) + if AllSucceed(before, updates) && updates(last) != ThrowsBefore then 1 else 0
  }

  /** The loop that throws at products[j] has updated those before it, and that one if it threw after
      its write. */
  lemma {:induction false} WrittenAt(products: seq<string>, updates: string -> Completion, j: nat)
    requires j < |products| && AllSucceed(products[..j], updates) && updates(products[j]) != Succeeds
    ensures !AllSucceed(products, updates)
    ensures Written(products, updates) == if updates(products[j]) == ThrowsAfter then j + 1 else j
  {
    var n := |products|;
    assert products[j] in products;
    if j < n - 1 {
      var before := products[..n - 1];
      assert before[..j] == products[..j];
      WrittenAt(before, updates, j);
    }
  }

  /** A product that owns a positive item owes or is due a positive sum. */
  lemma ProductPositive(orders: map<string, Order>, items: seq<Item>, client: string)
    requires forall item <- items :: item.orderId in orders && item.cents > 0
    requires client in Products(orders, items)
    ensures ProductCents(orders, items, client) > 0
  {
    ProductsExactly(orders, items);
    var item :| item in items && orders[item.orderId].client == client;
    var k :| 0 <= k < |items| && items[k] == item;
    SumRemove(items, k, CentsFor(orders, client));
  }
}

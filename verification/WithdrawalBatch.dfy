/** Batch completion of withdrawals (apps/b2b-api/src/router/withdrawal.router.ts). */
module WithdrawalBatch {
  import opened Numbers
  import opened Sums
  import opened VaultRows
  import opened RowBatches
  import opened Orders
  import opened Batches

  /** A requested amount as toFixed(2) prints it, in cents. */
  function FiatCents(order: Order): nat { HalfUp(order.amount, CENT) }

  function Settle(order: Order): Order { order.(status := Completed, settled := order.amount) }

  ghost function Settling(): Order -> Order { (order: Order) => Settle(order) }

  ghost function Price(): Order -> nat { (order: Order) => FiatCents(order) }

  /** What getWithdrawalById returns: mapping a row to a response drops its environment, and the router
      reads a missing one as sandbox. */
  function Response(order: Order): Order { order.(environment := Sandbox) }

  function Responses(orders: map<string, Order>): map<string, Order> {
    map id | id in orders :: Response(orders[id])
  }

  function GetWithdrawalById(orders: map<string, Order>, id: string): Option<Order> {
    if id in orders then Some(Response(orders[id])) else None
  }

  /** The four tests of the loop, and what it reports for the first that fails. */
  predicate Accepts(found: Option<Order>, session: Session, first: bool, environment: Environment) {
    && found.Some?
    && Authorized(session, found.value.client)
    && found.value.status == Pending
    && (first || found.value.environment == environment)
  }

  function Refusal(found: Option<Order>, session: Session): Reason {
    if found.None? then NotFound
    else if !Authorized(session, found.value.client) then NotAuthorized
    else if found.value.status != Pending then Already(found.value.status)
    else EnvironmentMismatch
  }

  /** The withdrawals a batch takes up, and those it does not. */
  ghost function Taken(before: map<string, Order>, session: Session, ids: seq<string>): seq<string> {
    Selected(Responses(before), session, ids)
  }

  ghost function Left(before: map<string, Order>, session: Session, ids: seq<string>): seq<string> {
    Rejected(Responses(before), session, ids)
  }

  datatype Reason = NotFound | NotAuthorized | Already(status: Status) | EnvironmentMismatch

  datatype FailedItem = FailedItem(withdrawalId: string, reason: Reason)

  datatype Outcome =
    | Unauthenticated
    | Crashed
    | NothingCompleted
    | NoCustodialWallet(environment: Environment)
    | DeductionThrew
    | IdleDeducted(environment: Environment)

  /** Why an occurrence that is not taken up fails, from the rows as they were submitted. */
  ghost function ReasonFor(before: map<string, Order>, session: Session, done: seq<string>, id: string): Reason {
    if id !in before then NotFound
    else if !Authorized(session, before[id].client) then NotAuthorized
    else if before[id].status != Pending then Already(before[id].status)
    else if id in Taken(before, session, done) then Already(Completed)
    else EnvironmentMismatch
  }

  ghost function Failures(before: map<string, Order>, session: Session, ids: seq<string>): seq<FailedItem> {
    if ids == [] then [] else
    var done, last := ids[..|ids| - 1], ids[|ids| - 1];
    var failed := Failures(before, session, done);
    if TakesLast(Responses(before), session, ids) then failed
    else failed + [FailedItem(last, ReasonFor(before, session, done, last))]
  }

  ghost function IdsOf(failed: seq<FailedItem>): seq<string> {
    if failed == [] then [] else IdsOf(failed[..|failed| - 1]) + [failed[|failed| - 1].withdrawalId]
  }

  /** The failed list holds exactly the occurrences that were not completed, in order. */
  lemma {:induction false} FailuresAreRejected(before: map<string, Order>, session: Session, ids: seq<string>)
    ensures IdsOf(Failures(before, session, ids)) == Left(before, session, ids)
  {
    if ids != [] {
      var done, last := ids[..|ids| - 1], ids[|ids| - 1];
      FailuresAreRejected(before, session, done);
      var failures := Failures(before, session, done);
      var f := FailedItem(last, ReasonFor(before, session, done, last));
      assert (failures + [f])[..|failures|] == failures;
    }
  }

  // ---- the environment the router never sees ----

  lemma {:induction false} BatchIsSandbox(before: map<string, Order>, session: Session, ids: seq<string>)
    ensures BatchEnvironment(Responses(before), session, ids) == Sandbox
  {
    if ids != [] { BatchIsSandbox(before, session, ids[..|ids| - 1]); }
  }

  /** Every submitted withdrawal that is authorized and pending is completed, whatever environment its row
      holds, and then once; every other occurrence is left. */
  lemma TakenExactly(before: map<string, Order>, session: Session, ids: seq<string>)
    ensures forall id :: id in Taken(before, session, ids) <==> id in ids && Eligible(before, session, id)
    ensures Distinct(Taken(before, session, ids))
    ensures multiset(Taken(before, session, ids)) + multiset(Left(before, session, ids)) == multiset(ids)
    ensures Taken(before, session, ids) != [] <==> HasEligible(before, session, ids)
  {
    SelectedExactly(Responses(before), session, ids);
    EachOccurrenceOnce(Responses(before), session, ids);
    BatchIsSandbox(before, session, ids);
    assert forall id :: Eligible(Responses(before), session, id) <==> Eligible(before, session, id);
  }

  /** The router's test for orders of another environment never fires. */
  lemma {:induction false} NoMismatchReported(before: map<string, Order>, session: Session, ids: seq<string>)
    ensures forall f <- Failures(before, session, ids) :: f.reason != EnvironmentMismatch
  {
    if ids != [] {
      var done, last := ids[..|ids| - 1], ids[|ids| - 1];
      NoMismatchReported(before, session, done);
      TakenExactly(before, session, done);
      BatchIsSandbox(before, session, ids);
    }
  }

  /** Why each occurrence that was left is reported as failed, from the rows as they were submitted: an
      unknown id, another client's, one no longer pending, or one already completed by the same batch. */
  lemma {:induction false} ReasonsExactly(before: map<string, Order>, session: Session, ids: seq<string>)
    ensures forall f <- Failures(before, session, ids) ::
              var known := f.withdrawalId in before;
              && (f.reason == NotFound <==> !known)
              && (f.reason == NotAuthorized <==> known && !Authorized(session, before[f.withdrawalId].client))
              && (f.reason.Already? ==>
                    known && f.reason.status == if before[f.withdrawalId].status == Pending then Completed
                                                else before[f.withdrawalId].status)
              && f.reason != EnvironmentMismatch
  {
    NoMismatchReported(before, session, ids);
    if ids != [] {
      var done, last := ids[..|ids| - 1], ids[|ids| - 1];
      ReasonsExactly(before, session, done);
      TakenExactly(before, session, done);
    }
  }

  /** Every withdrawal a batch completes is of the environment whose wallet is looked up for it, exactly
      when no production withdrawal was submitted that the batch could complete. */
  lemma WalletMatchesExactly(before: map<string, Order>, session: Session, ids: seq<string>)
    ensures (forall id <- Taken(before, session, ids) ::
               id in before && before[id].environment == BatchEnvironment(Responses(before), session, ids))
       <==> (forall id <- ids :: Eligible(before, session, id) ==> before[id].environment != Production)
  {
    TakenExactly(before, session, ids);
    BatchIsSandbox(before, session, ids);
  }

  /** A sandbox and a production withdrawal submitted together are both completed, and both against the
      sandbox wallet. */
  lemma ProductionPaidFromSandbox()
    ensures var session := Session(Some("c"), None);
            var before := map["s" := Order("c", Pending, Sandbox, CENT, 0),
                              "p" := Order("c", Pending, Production, CENT, 0)];
            && Taken(before, session, ["s", "p"]) == ["s", "p"]
            && Failures(before, session, ["s", "p"]) == []
            && BatchEnvironment(Responses(before), session, ["s", "p"]) == Sandbox
            && before["p"].environment == Production
  {
    var session := Session(Some("c"), None);
    var before := map["s" := Order("c", Pending, Sandbox, CENT, 0), "p" := Order("c", Pending, Production, CENT, 0)];
    TwoTaken(before, session, "s", "p");
    BatchIsSandbox(before, session, ["s", "p"]);
  }

  /** Two different eligible withdrawals are both taken up, in order. */
  lemma TwoTaken(before: map<string, Order>, session: Session, a: string, b: string)
    requires a != b && Eligible(before, session, a) && Eligible(before, session, b)
    ensures Taken(before, session, [a, b]) == [a, b]
    ensures Failures(before, session, [a, b]) == []
  {
    BatchIsSandbox(before, session, [a]);
    BatchIsSandbox(before, session, [a, b]);
    assert [a, b][..1] == [a] && [a][..0] == [];
    assert Taken(before, session, []) == [];
    assert TakesLast(Responses(before), session, [a]);
    assert TakesLast(Responses(before), session, [a, b]);
    assert Taken(before, session, [a]) == [a];
    assert Failures(before, session, [a]) == [];
  }

  /** The requested amounts of the given orders, unrounded. */
  ghost function Requested(orders: map<string, Order>, ids: seq<string>): nat
    requires forall id <- ids :: id in orders
  {
    if ids == [] then 0 else
    var last := ids[|ids| - 1];
    assert last in ids;
    Requested(orders, ids[..|ids| - 1]) + orders[last].amount
  }

  /** The state of the loop after the ids in `done`. */
  ghost predicate Reached(before: map<string, Order>, session: Session, done: seq<string>,
                          completions: string -> Completion, orders: map<string, Order>, completed: seq<Item>,
                          failed: seq<FailedItem>, totalFiat: nat, environment: Environment)
  {
    && CompletedAre(before, Taken(before, session, done), completions, completed, totalFiat)
    && failed == Failures(before, session, done)
    && environment == BatchEnvironment(Responses(before), session, done)
    && orders == SettledOrders(before, Taken(before, session, done), Settling())
  }

  ghost predicate CompletedAre(before: map<string, Order>, taken: seq<string>, completions: string -> Completion,
                               completed: seq<Item>, totalFiat: nat)
  {
    && (forall id <- taken :: id in before && completions(id) == Succeeds)
    && completed == Items(before, taken, Price())
    && totalFiat == Requested(before, taken)
  }

  /** The loop ended at ids[k], an order it took up but whose completion threw; those before it were
      completed, and its own amount was already in the total. */
  ghost predicate CrashedAt(before: map<string, Order>, session: Session, ids: seq<string>, k: nat,
                            completions: string -> Completion, orders: map<string, Order>, completed: seq<Item>,
                            failed: seq<FailedItem>, totalFiat: nat)
    requires k < |ids|
  {
    var taken := Taken(before, session, ids[..k]);
    && ids[k] in before
    && TakesLast(Responses(before), session, ids[..k] + [ids[k]])
    && completions(ids[k]) != Succeeds
    && before[ids[k]].amount <= totalFiat
    && CompletedAre(before, taken, completions, completed, totalFiat - before[ids[k]].amount)
    && failed == Failures(before, session, ids[..k])
    && orders == if completions(ids[k]) == ThrowsAfter
                 then SettledOrders(before, taken + [ids[k]], Settling())
                 else SettledOrders(before, taken, Settling())
  }

  /** Every withdrawal the run takes up can be completed. */
  ghost predicate Completable(before: map<string, Order>, session: Session, ids: seq<string>,
                              completions: string -> Completion)
  {
    forall id <- Taken(before, session, ids) :: completions(id) == Succeeds
  }

  /** The requests that reach the deductions; the wallet is always that of the sandbox. */
  ghost predicate ReachesCharges(before: map<string, Order>, session: Session, ids: seq<string>,
                                 completions: string -> Completion, wallets: (string, Environment) -> bool)
  {
    && DefaultClient(session).Some?
    && HasEligible(before, session, ids)
    && Completable(before, session, ids, completions)
    && wallets(DefaultClient(session).value, Sandbox)
  }

  class WithdrawalRouter {
    var orders: map<string, Order>
    var idle: map<string, nat>

    ghost predicate Valid()
      reads this
    {
      forall id <- orders :: orders[id].client in idle
    }

    constructor (orders: map<string, Order>, idle: map<string, nat>)
      requires forall id <- orders :: orders[id].client in idle
      ensures Valid() && this.orders == orders && this.idle == idle
    {
      this.orders, this.idle := orders, idle;
    }

    /** completeWithdrawal: the order is marked unless the call throws before, and may throw after. */
    method CompleteWithdrawal(orderId: string, completion: Completion) returns (threw: bool)
      requires orderId in orders
      modifies this`orders
      ensures threw <==> completion != Succeeds
      ensures orders == if completion == ThrowsBefore then old(orders)
                        else old(orders)[orderId := Settle(old(orders)[orderId])]
    {
      if completion == ThrowsBefore { return true; }
      orders := orders[orderId := Settle(orders[orderId])];
      return completion == ThrowsAfter;
    }

    /** The partition loop. A throwing completion ends the request after `processed` ids. */
    method CompleteOrders(session: Session, ids: seq<string>, completions: string -> Completion)
      returns (crashed: bool, completed: seq<Item>, failed: seq<FailedItem>, totalFiat: nat,
               environment: Environment, processed: nat)
      modifies this`orders
      ensures processed <= |ids| && (crashed <==> processed < |ids|)
      ensures !crashed ==>
                Reached(old(orders), session, ids, completions, orders, completed, failed, totalFiat, environment)
      ensures crashed ==>
                CrashedAt(old(orders), session, ids, processed, completions, orders, completed, failed, totalFiat)
    {
      ghost var before := orders;
      completed, failed, totalFiat, environment := [], [], 0, Sandbox;
      assert Reached(before, session, ids[..0], completions, orders, completed, failed, totalFiat, environment);
      hide Reached, CrashedAt, CompletedAre, GetWithdrawalById, Accepts, Refusal, Settle, FiatCents;
      hide TakesLast, Taken, Failures, SettledOrders, Responses;
      for i := 0 to |ids|
        invariant Reached(before, session, ids[..i], completions, orders, completed, failed, totalFiat, environment)
      {
        var id := ids[i];
        ghost var done := ids[..i];
        assert ids[..i + 1] == done + [id];
        var found := GetWithdrawalById(orders, id);
        if !Accepts(found, session, |completed| == 0, environment) {
          Skip(before, session, done, id, completions, orders, completed, failed, totalFiat, environment);
          failed := failed + [FailedItem(id, Refusal(found, session))];
          continue;
        }
        Take(before, session, done, id, completions, orders, completed, failed, totalFiat, environment);
        var withdrawal := found.value;
        if |completed| == 0 { environment := withdrawal.environment; }
        totalFiat := totalFiat + withdrawal.amount;
        var threw := CompleteWithdrawal(id, completions(id));
        if threw {
          Crash(before, session, ids, i, completions, completed, failed, totalFiat, orders);
          return true, completed, failed, totalFiat, environment, i;
        }
        completed := completed + [Item(id, FiatCents(withdrawal))];
      }
      assert ids[..|ids|] == ids;
      return false, completed, failed, totalFiat, environment, |ids|;
    }

    /** deductFromIdleBalance: adds a negative amount, which the CHECK on the balance can reject, and then
        writes an audit entry. */
    method DeductFromIdleBalance(client: string, amount: nat, update: Completion) returns (threw: bool)
      modifies this`idle
      ensures threw <==> (client in old(idle) && old(idle)[client] < amount) || update != Succeeds
      ensures idle == if client in old(idle) && amount <= old(idle)[client] && update != ThrowsBefore
                      then old(idle)[client := old(idle)[client] - amount] else old(idle)
    {
      if update == ThrowsBefore { return true; }
      if client in idle {
        if idle[client] < amount { return true; }
        idle := idle[client := idle[client] - amount];
      }
      return update == ThrowsAfter;
    }

    /** The deduction loop. It stops at the first product whose update throws, because its balance would
        go negative or otherwise, after the products before it were already charged. */
    method DeductEach(completed: seq<Item>, products: seq<string>, totals: map<string, nat>,
                      updates: string -> Completion)
      returns (threw: bool)
      requires Aggregated(orders, completed, idle, products, totals)
      modifies this`idle
      ensures var paying := Paying(old(idle), orders, completed, updates);
              && (threw <==> !AllSucceed(products, paying))
              && idle == Charged(old(idle), orders, completed, products[..Written(products, paying)])
    {
      ghost var before, paying := idle, Paying(idle, orders, completed, updates);
      NothingCharged(before, orders, completed);
      hide Aggregated, ProductCents, Charged;
      for j := 0 to |products|
        invariant AllSucceed(products[..j], paying)
        invariant idle == Charged(before, orders, completed, products[..j])
      {
        ProductAt(orders, completed, before, products, totals, j);
        ChargeOneMore(before, orders, completed, products[..j], products[j]);
        var stopped := DeductFromIdleBalance(products[j], CENT * totals[products[j]], updates(products[j]));
        if stopped {
          WrittenAt(products, paying, j);
          return true;
        }
      }
      assert products[..|products|] == products;
      return false;
    }

    method DeductProducts(completed: seq<Item>, updates: string -> Completion) returns (threw: bool)
      requires Valid()
      requires forall item <- completed :: item.orderId in orders
      modifies this`idle
      ensures var products, paying := Products(orders, completed), Paying(old(idle), orders, completed, updates);
              && (threw <==> !AllSucceed(products, paying))
              && idle == Charged(old(idle), orders, completed, products[..Written(products, paying)])
    {
      var products, totals := AggregateByProduct(orders, completed, idle);
      threw := DeductEach(completed, products, totals, updates);
    }

    /** The deductions against the rows as they were submitted: settling moved no order to another client. */
    method ChargeAll(completed: seq<Item>, updates: string -> Completion, ghost before: map<string, Order>)
      returns (threw: bool)
      requires Valid()
      requires before.Keys == orders.Keys && forall id <- before :: orders[id].client == before[id].client
      requires forall item <- completed :: item.orderId in before
      modifies this`idle
      ensures Valid()
      ensures var products, paying := Products(before, completed), Paying(old(idle), before, completed, updates);
              && (threw <==> !AllSucceed(products, paying))
              && idle == Charged(old(idle), before, completed, products[..Written(products, paying)])
              && (!threw ==> Total(idle, Itself()) + CENT * Sum(completed, Cents()) == Total(old(idle), Itself()))
    {
      ghost var balances, products := idle, Products(before, completed);
      SameProducts(before, orders, completed);
      threw := DeductProducts(completed, updates);
      hide Charged, Written, AllSucceed, Products, Sum;
      SamePaying(balances, before, orders, completed, updates, products);
      SameCharges(balances, before, orders, completed,
        products[..Written(products, Paying(balances, before, completed, updates))]);
      if !threw { AllPaid(balances, before, completed, updates); }
    }

    /** The whole request: each submitted occurrence is completed or reported as failed. It reaches the
        deductions exactly when the caller is known, a withdrawal is eligible, every one taken up
        completes and the first product has a sandbox wallet; every product is then charged its share,
        up to the first that cannot pay or whose update throws. */
    method BatchCompleteWithdrawals(session: Session, ids: seq<string>, completions: string -> Completion,
                                    wallets: (string, Environment) -> bool, updates: string -> Completion)
      returns (outcome: Outcome, completed: seq<Item>, failed: seq<FailedItem>, totalFiat: nat, processed: nat)
      requires Valid()
      modifies this
      ensures Valid()
      ensures outcome == Unauthenticated <==> DefaultClient(session) == None
      ensures outcome == Unauthenticated ==> orders == old(orders) && completed == []
      ensures outcome == Crashed <==>
                DefaultClient(session).Some? && !Completable(old(orders), session, ids, completions)
      ensures outcome == Crashed ==>
                processed < |ids| &&
                CrashedAt(old(orders), session, ids, processed, completions, orders, completed, failed, totalFiat)
      ensures !outcome.Unauthenticated? && !outcome.Crashed? ==>
                Reached(old(orders), session, ids, completions, orders, completed, failed, totalFiat, Sandbox)
      ensures outcome.NothingCompleted? ==> completed == []
      ensures outcome.NoCustodialWallet? ==> completed != [] && outcome.environment == Sandbox
      ensures outcome.IdleDeducted? ==> outcome.environment == Sandbox
      ensures outcome.DeductionThrew? || outcome.IdleDeducted?
         <==> ReachesCharges(old(orders), session, ids, completions, wallets)
      ensures forall item <- completed :: item.orderId in old(orders)
      ensures var products := Products(old(orders), completed);
              var paying := Paying(old(idle), old(orders), completed, updates);
              var reached := ReachesCharges(old(orders), session, ids, completions, wallets);
              && (outcome.IdleDeducted? <==> reached && AllSucceed(products, paying))
              && idle == (if reached
                          then Charged(old(idle), old(orders), completed, products[..Written(products, paying)])
                          else old(idle))
      ensures forall client <- old(idle) ::
                && client in idle
                && var due := 10_000 * ProductCents(old(orders), completed, client);
                   idle[client] == old(idle)[client]
                   || (idle[client] == old(idle)[client] - due && client in Products(old(orders), completed))
      ensures outcome.IdleDeducted? ==>
                Total(idle, Itself()) + 10_000 * Sum(completed, Cents()) == Total(old(idle), Itself())
    {
      ghost var before := orders;
      completed, failed, totalFiat, processed := [], [], 0, 0;
      var clientId := DefaultClient(session);
      if clientId == None { outcome := Unauthenticated; return; }
      var crashed, environment;
      crashed, completed, failed, totalFiat, environment, processed := CompleteOrders(session, ids, completions);
      LoopOutcome(before, session, ids, processed, completions, orders, completed, failed, totalFiat, environment);
      if crashed { outcome := Crashed; return; }
      if |completed| == 0 { outcome := NothingCompleted; return; }
      if !wallets(clientId.value, environment) { outcome := NoCustodialWallet(environment); return; }
      var threw := ChargeAll(completed, updates, before);
      outcome := if threw then DeductionThrew else IdleDeducted(environment);
    }
  }

  /** The loop neither removes an order nor moves one to another client. */
  lemma OwnersKept(before: map<string, Order>, ids: seq<string>, orders: map<string, Order>)
    requires orders == SettledOrders(before, ids, Settling())
    ensures before.Keys == orders.Keys && forall id <- before :: orders[id].client == before[id].client
  {
  }

  /** The loop crashes only on a withdrawal of the batch that cannot be completed. */
  lemma CrashedIncomplete(before: map<string, Order>, session: Session, ids: seq<string>, k: nat,
                          completions: string -> Completion)
    requires k < |ids| && TakesLast(Responses(before), session, ids[..k] + [ids[k]])
    requires completions(ids[k]) != Succeeds
    ensures !Completable(before, session, ids, completions)
  {
    assert ids[..k + 1] == ids[..k] + [ids[k]];
    SelectedPrefix(Responses(before), session, ids, k + 1);
    SelectedStep(Responses(before), session, ids[..k], ids[k]);
    assert ids[k] in Taken(before, session, ids[..k + 1]);
  }

  /** What the loop's two endings say of the submission: it crashed exactly when some withdrawal taken up
      could not be completed, and otherwise completed nothing exactly when none was eligible. */
  lemma LoopOutcome(before: map<string, Order>, session: Session, ids: seq<string>, processed: nat,
                    completions: string -> Completion, orders: map<string, Order>, completed: seq<Item>,
                    failed: seq<FailedItem>, totalFiat: nat, environment: Environment)
    requires processed <= |ids|
    requires processed == |ids| ==>
               Reached(before, session, ids, completions, orders, completed, failed, totalFiat, environment)
    requires processed < |ids| ==>
               CrashedAt(before, session, ids, processed, completions, orders, completed, failed, totalFiat)
    ensures processed == |ids| <==> Completable(before, session, ids, completions)
    ensures processed == |ids| ==> (completed != [] <==> HasEligible(before, session, ids)) && environment == Sandbox
    ensures forall item <- completed :: item.orderId in before
    ensures before.Keys == orders.Keys && forall id <- before :: orders[id].client == before[id].client
  {
    var taken := Taken(before, session, ids[..processed]);
    hide TakesLast, Taken, HasEligible, SettledOrders, Items, Failures, BatchEnvironment, Requested;
    if processed < |ids| {
      ItemsMatch(before, taken, Price());
      CrashedIncomplete(before, session, ids, processed, completions);
      var settled := if completions(ids[processed]) == ThrowsAfter then taken + [ids[processed]] else taken;
      OwnersKept(before, settled, orders);
    } else {
      assert ids[..processed] == ids;
      ItemsMatch(before, taken, Price());
      TakenExactly(before, session, ids);
      BatchIsSandbox(before, session, ids);
      OwnersKept(before, taken, orders);
    }
  }

  lemma Crash(before: map<string, Order>, session: Session, ids: seq<string>, k: nat, completions: string -> Completion,
              completed: seq<Item>, failed: seq<FailedItem>, totalFiat: nat, orders: map<string, Order>)
    requires k < |ids| && ids[k] in before && before[ids[k]].amount <= totalFiat
    requires TakesLast(Responses(before), session, ids[..k] + [ids[k]]) && completions(ids[k]) != Succeeds
    requires CompletedAre(before, Taken(before, session, ids[..k]), completions, completed,
                          totalFiat - before[ids[k]].amount)
    requires failed == Failures(before, session, ids[..k])
    requires orders == if completions(ids[k]) == ThrowsAfter
                       then SettledOrders(before, Taken(before, session, ids[..k]) + [ids[k]], Settling())
                       else SettledOrders(before, Taken(before, session, ids[..k]), Settling())
    ensures CrashedAt(before, session, ids, k, completions, orders, completed, failed, totalFiat)
  {
    hide TakesLast, Taken, SettledOrders, CompletedAre, Failures;
  }

  /** What a product owes for its items. */
  ghost function Due(orders: map<string, Order>, items: seq<Item>, client: string): nat {
    CENT * ProductCents(orders, items, client)
  }

  ghost predicate CanPay(idle: map<string, nat>, orders: map<string, Order>, items: seq<Item>, products: seq<string>) {
    forall client <- products :: client in idle && Due(orders, items, client) <= idle[client]
  }

  ghost function Remaining(balance: nat, orders: map<string, Order>, items: seq<Item>, products: seq<string>,
                           client: string): nat
  {
    if client in products && Due(orders, items, client) <= balance then balance - Due(orders, items, client)
      else balance
  }

  /** How a product's deduction goes: one it cannot pay throws before the write. */
  ghost function Paying(idle: map<string, nat>, orders: map<string, Order>, items: seq<Item>,
                        updates: string -> Completion)
    : string -> Completion
  {
    (client: string) =>
      if client in idle && Due(orders, items, client) <= idle[client] then updates(client) else ThrowsBefore
  }

  /** Idle balances after the given products were charged. */
  ghost function Charged(idle: map<string, nat>, orders: map<string, Order>, items: seq<Item>, products: seq<string>)
    : map<string, nat>
  {
    map client | client in idle :: Remaining(idle[client], orders, items, products, client)
  }

  lemma NothingCharged(idle: map<string, nat>, orders: map<string, Order>, items: seq<Item>)
    ensures Charged(idle, orders, items, []) == idle
  {
  }

  lemma ChargeOneMore(idle: map<string, nat>, orders: map<string, Order>, items: seq<Item>, products: seq<string>,
                      client: string)
    requires client in idle && client !in products
    ensures client in Charged(idle, orders, items, products)
    ensures Charged(idle, orders, items, products)[client] == idle[client]
    ensures Due(orders, items, client) <= idle[client] ==>
              Charged(idle, orders, items, products + [client])
              == Charged(idle, orders, items, products)[client := idle[client] - Due(orders, items, client)]
  {
  }

  /** The charges of all products together are the sum of the items. */
  lemma ChargesAddUp(idle: map<string, nat>, orders: map<string, Order>, items: seq<Item>)
    requires forall item <- items :: item.orderId in orders && orders[item.orderId].client in idle
    requires CanPay(idle, orders, items, Products(orders, items))
    ensures Total(Charged(idle, orders, items, Products(orders, items)), Itself()) + CENT * Sum(items, Cents())
         == Total(idle, Itself())
  {
    ProductsExactly(orders, items);
    var charged := Charged(idle, orders, items, Products(orders, items));
    assert Credited(charged, orders, items) == idle;
    CreditsAddUp(charged, orders, items);
  }

  /** A deduction loop that ran to its end charged every product. */
  lemma AllPaid(idle: map<string, nat>, orders: map<string, Order>, items: seq<Item>, updates: string -> Completion)
    requires forall item <- items :: item.orderId in orders && orders[item.orderId].client in idle
    requires AllSucceed(Products(orders, items), Paying(idle, orders, items, updates))
    ensures var products := Products(orders, items);
            var charged := products[..Written(products, Paying(idle, orders, items, updates))];
            Total(Charged(idle, orders, items, charged), Itself()) + CENT * Sum(items, Cents()) == Total(idle, Itself())
  {
    var products := Products(orders, items);
    assert products[..|products|] == products;
    ChargesAddUp(idle, orders, items);
  }

  /** Settling orders changes neither the products nor what they owe. */
  lemma SameCharges(idle: map<string, nat>, before: map<string, Order>, after: map<string, Order>, items: seq<Item>,
                    products: seq<string>)
    requires before.Keys == after.Keys && forall id <- before :: after[id].client == before[id].client
    ensures Charged(idle, after, items, products) == Charged(idle, before, items, products)
  {
    SameCredits(idle, before, after, items);
    assert forall client :: Due(after, items, client) == Due(before, items, client);
  }

  lemma {:induction false} SamePaying(idle: map<string, nat>, before: map<string, Order>, after: map<string, Order>,
                                      items: seq<Item>, updates: string -> Completion, products: seq<string>)
    requires before.Keys == after.Keys && forall id <- before :: after[id].client == before[id].client
    ensures Written(products, Paying(idle, after, items, updates))
         == Written(products, Paying(idle, before, items, updates))
    ensures AllSucceed(products, Paying(idle, after, items, updates))
       <==> AllSucceed(products, Paying(idle, before, items, updates))
  {
    SameCredits(idle, before, after, items);
    assert forall client :: Paying(idle, after, items, updates)(client) == Paying(idle, before, items, updates)(client);
    if products != [] { SamePaying(idle, before, after, items, updates, products[..|products| - 1]); }
  }

  /** Settling a row and dropping its environment do not interfere. */
  lemma ResponsesSettled(before: map<string, Order>, ids: seq<string>)
    ensures Responses(SettledOrders(before, ids, Settling())) == SettledOrders(Responses(before), ids, Settling())
  {
  }

  lemma Skip(before: map<string, Order>, session: Session, done: seq<string>, id: string,
             completions: string -> Completion, orders: map<string, Order>, completed: seq<Item>,
             failed: seq<FailedItem>, totalFiat: nat, environment: Environment)
    requires Reached(before, session, done, completions, orders, completed, failed, totalFiat, environment)
    requires !Accepts(GetWithdrawalById(orders, id), session, completed == [], environment)
    ensures var reason := Refusal(GetWithdrawalById(orders, id), session);
            Reached(before, session, done + [id], completions, orders, completed, failed + [FailedItem(id, reason)],
                    totalFiat, environment)
  {
    hide Accepts, Refusal, GetWithdrawalById, TakesLast, Taken, SettledOrders, Responses, BatchEnvironment;
    hide Items, Requested, ReasonFor;
    ItemsMatch(before, Taken(before, session, done), Price());
    SkipRow(before, session, done, id, orders, environment);
    assert (done + [id])[..|done|] == done;
  }

  lemma SkipRow(before: map<string, Order>, session: Session, done: seq<string>, id: string,
                orders: map<string, Order>, environment: Environment)
    requires orders == SettledOrders(before, Taken(before, session, done), Settling())
    requires environment == BatchEnvironment(Responses(before), session, done)
    requires !Accepts(GetWithdrawalById(orders, id), session, Taken(before, session, done) == [], environment)
    ensures !TakesLast(Responses(before), session, done + [id])
    ensures Taken(before, session, done + [id]) == Taken(before, session, done)
    ensures BatchEnvironment(Responses(before), session, done + [id]) == environment
    ensures ReasonFor(before, session, done, id) == Refusal(GetWithdrawalById(orders, id), session)
  {
    TakenExactly(before, session, done);
    ResponsesSettled(before, Taken(before, session, done));
    LoopTestIsSelection(Responses(before), session, done, id, Settling(), Responses(orders), environment);
    SelectedStep(Responses(before), session, done, id);
  }

  lemma TakeRow(before: map<string, Order>, session: Session, done: seq<string>, id: string,
                orders: map<string, Order>, environment: Environment)
    requires orders == SettledOrders(before, Taken(before, session, done), Settling())
    requires environment == BatchEnvironment(Responses(before), session, done)
    requires Accepts(GetWithdrawalById(orders, id), session, Taken(before, session, done) == [], environment)
    ensures id in before && id in orders && orders[id] == before[id]
    ensures GetWithdrawalById(orders, id) == Some(Response(before[id]))
    ensures TakesLast(Responses(before), session, done + [id])
    ensures Taken(before, session, done + [id]) == Taken(before, session, done) + [id]
    ensures BatchEnvironment(Responses(before), session, done + [id])
         == if Taken(before, session, done) == [] then Sandbox else environment
    ensures orders[id := Settle(orders[id])] == SettledOrders(before, Taken(before, session, done) + [id], Settling())
  {
    ResponsesSettled(before, Taken(before, session, done));
    LoopTestIsSelection(Responses(before), session, done, id, Settling(), Responses(orders), environment);
    SelectedStep(Responses(before), session, done, id);
    SettleOneMore(before, Taken(before, session, done), id, Settling());
  }

  lemma CompletedOneMore(before: map<string, Order>, taken: seq<string>, id: string, completions: string -> Completion,
                         completed: seq<Item>, totalFiat: nat)
    requires CompletedAre(before, taken, completions, completed, totalFiat)
    requires id in before && completions(id) == Succeeds
    ensures CompletedAre(before, taken + [id], completions, completed + [Item(id, FiatCents(before[id]))],
                         totalFiat + before[id].amount)
  {
    hide FiatCents;
    ItemsStep(before, taken, id, Price());
    assert (taken + [id])[..|taken|] == taken;
  }

  lemma Take(before: map<string, Order>, session: Session, done: seq<string>, id: string,
             completions: string -> Completion, orders: map<string, Order>, completed: seq<Item>,
             failed: seq<FailedItem>, totalFiat: nat, environment: Environment)
    requires Reached(before, session, done, completions, orders, completed, failed, totalFiat, environment)
    requires Accepts(GetWithdrawalById(orders, id), session, completed == [], environment)
    ensures id in before && id in orders && orders[id] == before[id]
    ensures GetWithdrawalById(orders, id) == Some(Response(before[id]))
    ensures TakesLast(Responses(before), session, done + [id])
    ensures orders == SettledOrders(before, Taken(before, session, done), Settling())
    ensures orders[id := Settle(orders[id])]
         == SettledOrders(before, Taken(before, session, done) + [id], Settling())
    ensures CompletedAre(before, Taken(before, session, done), completions, completed, totalFiat)
    ensures failed == Failures(before, session, done)
    ensures completions(id) == Succeeds ==>
              Reached(before, session, done + [id], completions, orders[id := Settle(orders[id])],
                      completed + [Item(id, FiatCents(orders[id]))], failed, totalFiat + orders[id].amount,
                      if completed == [] then Sandbox else environment)
  {
    var taken := Taken(before, session, done);
    hide Accepts, GetWithdrawalById, TakesLast, Taken, SettledOrders, Responses, BatchEnvironment, FiatCents;
    hide Items, Requested;
    ItemsMatch(before, taken, Price());
    TakeRow(before, session, done, id, orders, environment);
    hide CompletedAre;
    if completions(id) == Succeeds { CompletedOneMore(before, taken, id, completions, completed, totalFiat); }
    assert (done + [id])[..|done|] == done;
  }

  // ---- rounding between the two totals ----

  /** A withdrawal is charged its amount to the nearest cent, and settled at the amount requested. */
  lemma ChargedNearest(order: Order)
    ensures 2 * order.amount - 10_000 < 20_000 * FiatCents(order) <= 2 * order.amount + 10_000
    ensures order.amount % 10_000 == 0 ==> 10_000 * FiatCents(order) == order.amount
    ensures Settle(order) == Order(order.client, Completed, order.environment, order.amount, order.amount)
  {
    if order.amount % CENT == 0 { HalfUpExact(order.amount / CENT, CENT); }
  }

  /** The rounded charges stay within half a cent per item of the unrounded total, and equal it when
      every request is in whole cents. */
  lemma {:induction false} ChargesNearTotal(orders: map<string, Order>, ids: seq<string>)
    requires forall id <- ids :: id in orders
    ensures var gap := CENT * Sum(Items(orders, ids, Price()), Cents()) - Requested(orders, ids);
            && -(CENT * |ids|) <= 2 * gap <= CENT * |ids|
            && ((forall id <- ids :: orders[id].amount % CENT == 0) ==> gap == 0)
  {
    if ids != [] {
      var prefix, last := ids[..|ids| - 1], ids[|ids| - 1];
      assert last in ids;
      assert forall id <- prefix :: id in ids;
      ChargesNearTotal(orders, prefix);
      SumAppend(Items(orders, prefix, Price()), Item(last, FiatCents(orders[last])), Cents());
      ChargedNearest(orders[last]);
    }
  }

  /** The amount handed to the token transfer: the unrounded total, rounded once. */
  function TransferCents(totalFiat: nat): nat { HalfUp(totalFiat, CENT) }

  /** What leaves the wallet and what is charged differ by at most half a cent per item and half a cent
      more. */
  lemma TransferNearCharges(orders: map<string, Order>, ids: seq<string>)
    requires forall id <- ids :: id in orders
    ensures var gap := Sum(Items(orders, ids, Price()), Cents()) - TransferCents(Requested(orders, ids));
            && -(|ids| + 1) <= 2 * gap <= |ids| + 1
            && ((forall id <- ids :: orders[id].amount % CENT == 0) ==> gap == 0)
  {
    ChargesNearTotal(orders, ids);
    if forall id <- ids :: orders[id].amount % CENT == 0 {
      HalfUpExact(Sum(Items(orders, ids, Price()), Cents()), CENT);
    }
  }

  /** What rounding each request on its own has kept from the charges, known before the call. */
  ghost function Kept(orders: map<string, Order>, ids: seq<string>): int
    requires forall id <- ids :: id in orders
  {
    if ids == [] then 0 else
    var last := ids[|ids| - 1];
    assert last in ids;
    Kept(orders, ids[..|ids| - 1]) + orders[last].amount - CENT * FiatCents(orders[last])
  }

  lemma {:induction false} KeptIsTheGap(orders: map<string, Order>, ids: seq<string>)
    requires forall id <- ids :: id in orders
    ensures Requested(orders, ids) == CENT * Sum(Items(orders, ids, Price()), Cents()) + Kept(orders, ids)
  {
    if ids != [] {
      var prefix, last := ids[..|ids| - 1], ids[|ids| - 1];
      assert last in ids;
      assert forall id <- prefix :: id in ids;
      KeptIsTheGap(orders, prefix);
      SumAppend(Items(orders, prefix, Price()), Item(last, FiatCents(orders[last])), Cents());
    }
  }

  /** The charges equal the amount transferred exactly when what rounding kept is itself rounded away, and
      equal the unrounded total exactly when it kept nothing. */
  lemma TransferEqualsChargesExactly(orders: map<string, Order>, ids: seq<string>)
    requires forall id <- ids :: id in orders
    ensures var charged := Sum(Items(orders, ids, Price()), Cents());
            && (charged == TransferCents(Requested(orders, ids)) <==> 0 <= 2 * Kept(orders, ids) + CENT < 2 * CENT)
            && (CENT * charged == Requested(orders, ids) <==> Kept(orders, ids) == 0)
  {
    KeptIsTheGap(orders, ids);
    var charged, requested := Sum(Items(orders, ids, Price()), Cents()), Requested(orders, ids);
    if 0 <= 2 * Kept(orders, ids) + CENT < 2 * CENT { HalfUpUnique(requested, CENT, charged); }
  }

  /** A batch of two withdrawals of half a cent each takes up both, charges their product two cents and
      transfers one. */
  lemma HalfCentsAreChargedTwice()
    ensures var session := Session(Some("c"), None);
            var before := map["a" := Order("c", Pending, Sandbox, 5_000, 0),
                              "b" := Order("c", Pending, Sandbox, 5_000, 0)];
            var taken := Taken(before, session, ["a", "b"]);
            && taken == ["a", "b"]
            && (forall id <- taken :: id in before)
            && Sum(Items(before, taken, Price()), Cents()) == 2
            && ProductCents(before, Items(before, taken, Price()), "c") == 2
            && TransferCents(Requested(before, taken)) == 1
  {
    var session := Session(Some("c"), None);
    var before := map["a" := Order("c", Pending, Sandbox, 5_000, 0), "b" := Order("c", Pending, Sandbox, 5_000, 0)];
    TwoTaken(before, session, "a", "b");
    TwoItems(before, "a", "b");
  }

  /** What two withdrawals of half a cent amount to. */
  lemma TwoItems(before: map<string, Order>, a: string, b: string)
    requires a in before && b in before && before[a].client == before[b].client == "c"
    requires before[a].amount == before[b].amount == 5_000
    ensures forall id <- [a, b] :: id in before
    ensures Items(before, [a, b], Price()) == [Item(a, 1), Item(b, 1)]
    ensures Sum([Item(a, 1), Item(b, 1)], Cents()) == 2
    ensures ProductCents(before, [Item(a, 1), Item(b, 1)], "c") == 2
    ensures Requested(before, [a, b]) == 10_000
  {
    TwoRequested(before, a, b);
    hide Requested;
    assert [] + [a] == [a] && [a] + [b] == [a, b];
    ItemsStep(before, [], a, Price());
    ItemsStep(before, [a], b, Price());
    assert [a, b][..1] == [a] && [a][..0] == [];
    assert [] + [Item(a, 1)] == [Item(a, 1)] && [Item(a, 1)] + [Item(b, 1)] == [Item(a, 1), Item(b, 1)];
    SumAppend([], Item(a, 1), Cents());
    SumAppend([Item(a, 1)], Item(b, 1), Cents());
    SumAppend([], Item(a, 1), CentsFor(before, "c"));
    SumAppend([Item(a, 1)], Item(b, 1), CentsFor(before, "c"));
  }

  lemma TwoRequested(before: map<string, Order>, a: string, b: string)
    requires a in before && b in before
    ensures forall id <- [a, b] :: id in before
    ensures Requested(before, [a, b]) == before[a].amount + before[b].amount
  {
    assert [a, b][..1] == [a] && [a][..0] == [];
    assert Requested(before, []) == 0;
    assert Requested(before, [a]) == before[a].amount;
  }
}

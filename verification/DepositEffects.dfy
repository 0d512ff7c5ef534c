/** What one call of the deposit flow, or one withdrawal, does to the books: when it goes through, which
    figures it moves and by how much, and which it leaves. */
module DepositEffects {
  import opened Numbers
  import opened VaultRows
  import opened VaultAccounting
  import opened VaultSolvency
  import opened Orders
  import opened DepositLifecycle

  /** Every vault but one is as it was. */
  ghost predicate OthersKept(before: map<VaultKey, Account>, after: map<VaultKey, Account>, key: VaultKey) {
    && after.Keys == before.Keys + {key}
    && forall k <- before :: k != key ==> after[k] == before[k]
  }

  /** Of one vault's holders only one user's shares moved, by `moved`. */
  ghost predicate OnlyUserMoved(before: Account, after: Account, user: string, moved: int) {
    && HolderShares(after, user) == HolderShares(before, user) + moved
    && forall other :: other != user ==> HolderShares(after, other) == HolderShares(before, other)
  }

  /** The whole shares that an amount buys at an index: s*I <= a*P < s*I + I. */
  ghost predicate Buys(amount: nat, index: nat, shares: nat) {
    shares * index <= amount * 1_000_000_000_000_000_000 < shares * index + index
  }

  lemma BoughtShares(amount: nat, index: nat)
    requires index > 0
    ensures CalculateShares(amount, index).Minted? && Buys(amount, index, CalculateShares(amount, index).shares)
    ensures CalculateSharesToBurn(amount, index) == CalculateShares(amount, index)
  {
    FloorBounds(amount * PRECISION, index);
  }

  /** No two share counts are bought by one amount. */
  lemma BuysOneCount(amount: nat, index: nat, s: nat, t: nat)
    requires Buys(amount, index, s) && Buys(amount, index, t)
    ensures s == t
  {
    if s < t { MulMono(s + 1, t, index); }
    if t < s { MulMono(t + 1, s, index); }
  }

  /** A completion goes through exactly for a pending deposit of a known vault whose pending balance covers
      it. It then credits the depositor the whole shares of the amount at the vault's index, moves the
      amount from pending to staked, and touches no other user, vault or deposit. */
  lemma CompletedExactly(book: Book, orderId: string)
    ensures var (after, reply) := Complete(book, orderId);
            && (reply == Done <==>
                  && orderId in book.deposits
                  && book.deposits[orderId].status == Pending
                  && KeyOf(book.deposits[orderId]) in book.vaults
                  && book.deposits[orderId].amount <= book.vaults[KeyOf(book.deposits[orderId])].row.pendingDeposits)
            && (reply == Done ==> CompletedBy(book, after, orderId))
            && (reply == Thrown(DepositNotFound) <==> orderId !in book.deposits)
            && (orderId in book.deposits ==>
                  var d := book.deposits[orderId];
                  && (d.status != Pending <==> reply == Thrown(NotPending(d.status)))
                  && (d.status == Pending ==>
                        && (reply == Thrown(VaultNotFound) <==> KeyOf(d) !in book.vaults)
                        && (reply == Thrown(CheckViolated) <==> reply != Done && KeyOf(d) in book.vaults)))
  {
    var (after, reply) := Complete(book, orderId);
    if orderId in book.deposits && KeyOf(book.deposits[orderId]) in book.vaults {
      var d := book.deposits[orderId];
      BoughtShares(d.amount, book.vaults[KeyOf(d)].row.currentIndex);
      if reply == Done { ShowCompleted(book, orderId); }
    }
  }

  ghost predicate CompletedBy(book: Book, after: Book, orderId: string) {
    && orderId in book.deposits
    && var d := book.deposits[orderId];
       var key := VaultKey(d.client, d.currency);
       && key in book.vaults && key in after.vaults
       && var before, vault := book.vaults[key], after.vaults[key];
          var minted := HolderShares(vault, d.user) - HolderShares(before, d.user);
          && minted >= 0 && Buys(d.amount, before.row.currentIndex, minted)
          && OnlyUserMoved(before, vault, d.user, minted)
          && vault.row.totalShares == before.row.totalShares + minted
          && vault.row.pendingDeposits == before.row.pendingDeposits - d.amount
          && vault.row.totalStaked == before.row.totalStaked + d.amount
          && vault.row.currentIndex == before.row.currentIndex
          && vault.row.cumulativeYield == before.row.cumulativeYield
          && OthersKept(book.vaults, after.vaults, key)
          && after.deposits == book.deposits[orderId := Deposit(d.client, d.user, d.currency, d.amount, Completed)]
          && after.activeClients == book.activeClients
          && after.audit == book.audit + [DepositCompleted(orderId, key, minted)]
  }

  lemma ShowCompleted(book: Book, orderId: string)
    requires Complete(book, orderId).1 == Done
    ensures CompletedBy(book, Complete(book, orderId).0, orderId)
  {
    var d := book.deposits[orderId];
    BoughtShares(d.amount, book.vaults[KeyOf(d)].row.currentIndex);
    hide Buys;
  }

  /** A creation goes through exactly for an active client, a new order and a positive amount. It then books
      the deposit as pending, adds its amount to the vault's pending balance and nothing else; a vault that
      was not there is opened empty at an index of 1.0, also when the insert is refused. */
  lemma CreatedExactly(book: Book, orderId: string, client: string, user: string, currency: string, amount: int)
    ensures var (after, reply) := Create(book, orderId, client, user, currency, amount);
            var key := VaultKey(client, currency);
            && (reply == Done <==> client in book.activeClients && orderId !in book.deposits && amount > 0)
            && (reply == Thrown(InvalidClient) <==> client !in book.activeClients)
            && (client !in book.activeClients ==> after == book)
            && (client in book.activeClients && reply != Done ==>
                  reply == Thrown(DepositRejected) &&
                  after == book.(vaults := after.vaults) && key in after.vaults
                  && after.vaults[key] == Opened(book, key) && OthersKept(book.vaults, after.vaults, key))
            && (reply == Done ==>
                  && key in after.vaults
                  && after.vaults[key].holders == Opened(book, key).holders
                  && after.vaults[key].row.pendingDeposits == Opened(book, key).row.pendingDeposits + amount
                  && after.vaults[key].row.(pendingDeposits := 0) == Opened(book, key).row.(pendingDeposits := 0)
                  && OthersKept(book.vaults, after.vaults, key)
                  && after.deposits == book.deposits[orderId := Deposit(client, user, currency, amount, Pending)]
                  && after.activeClients == book.activeClients
                  && after.audit == book.audit + [DepositCreated(orderId)])
  {
  }

  ghost function Opened(book: Book, key: VaultKey): Account {
    if key in book.vaults then book.vaults[key]
    else Account(VaultRecord(1_000_000_000_000_000_000, 0, 0, 0, 0), map[])
  }

  /** A failure of a known deposit always marks it. It takes the amount out of the vault's pending balance,
      and is logged, exactly when that covers it or there is no vault. */
  lemma FailedExactly(book: Book, orderId: string)
    requires orderId in book.deposits
    ensures var d := book.deposits[orderId];
            var key := VaultKey(d.client, d.currency);
            var (after, reply) := Fail(book, orderId);
            && after.deposits == book.deposits[orderId := Deposit(d.client, d.user, d.currency, d.amount, Failed)]
            && after.activeClients == book.activeClients
            && (reply == Done <==> key in book.vaults ==> d.amount <= book.vaults[key].row.pendingDeposits)
            && (reply != Done ==> reply == Thrown(CheckViolated))
            && (reply != Done || key !in book.vaults ==> after.vaults == book.vaults)
            && (reply == Done && key in book.vaults ==>
                  && key in after.vaults
                  && after.vaults[key].holders == book.vaults[key].holders
                  && after.vaults[key].row.pendingDeposits == book.vaults[key].row.pendingDeposits - d.amount
                  && after.vaults[key].row.(pendingDeposits := 0) == book.vaults[key].row.(pendingDeposits := 0)
                  && OthersKept(book.vaults, after.vaults, key))
            && after.audit == book.audit + if reply == Done then [DepositFailed(orderId)] else []
  {
  }

  /** A withdrawal goes through exactly when the stake covers its amount and the user's and the vault's
      shares cover the whole shares of it. It then burns these and takes the amount out of the stake;
      otherwise nothing moves. */
  lemma WithdrawnExactly(book: Book, key: VaultKey, user: string, amount: nat, shares: nat)
    requires key in book.vaults && Buys(amount, book.vaults[key].row.currentIndex, shares)
    ensures var before := book.vaults[key];
            var (after, reply) := Withdraw(book, key, user, amount);
            && (reply == Done <==>
                  && amount <= before.row.totalStaked
                  && shares <= HolderShares(before, user)
                  && shares <= before.row.totalShares)
            && (reply == Thrown(ExceedsStaked) <==> before.row.totalStaked < amount)
            && (reply != Done && amount <= before.row.totalStaked ==> reply == Thrown(CheckViolated))
            && (reply != Done ==> after == book)
            && (reply == Done ==>
                  && key in after.vaults
                  && OnlyUserMoved(before, after.vaults[key], user, 0 - shares)
                  && after.vaults[key].row.totalShares == before.row.totalShares - shares
                  && after.vaults[key].row.totalStaked == before.row.totalStaked - amount
                  && after.vaults[key].row.(totalShares := 0, totalStaked := 0)
                     == before.row.(totalShares := 0, totalStaked := 0)
                  && OthersKept(book.vaults, after.vaults, key)
                  && after.deposits == book.deposits && after.activeClients == book.activeClients
                  && after.audit == book.audit + [SharesBurned(key, shares)])
  {
    var index := book.vaults[key].row.currentIndex;
    BoughtShares(amount, index);
    BuysOneCount(amount, index, shares, CalculateShares(amount, index).shares);
    hide Buys;
  }

  /** A write that goes through replaces the row of its one vault and nothing else; one that is refused, or of
      an unknown vault, does nothing. */
  lemma WrittenExactly(book: Book, key: VaultKey, writer: VaultWriter)
    ensures var after := WriteVault(book, key, writer);
            && after == book.(vaults := after.vaults)
            && (key !in book.vaults || WrittenRow(book.vaults[key].row, writer).None? ==> after == book)
            && (key in book.vaults && WrittenRow(book.vaults[key].row, writer).Some? ==>
                  && key in after.vaults
                  && Some(after.vaults[key].row) == WrittenRow(book.vaults[key].row, writer)
                  && after.vaults[key].holders == book.vaults[key].holders
                  && OthersKept(book.vaults, after.vaults, key))
  {
    hide WrittenRow;
  }

  // ---- calls cut short ----

  /** What is there of one row of the books: the old value until its write, the finished one from then on. */
  ghost function Until<T>(reached: nat, write: nat, before: T, finished: T): T {
    if reached < write then before else finished
  }

  ghost predicate CutAccount(was: Account, done: Account, now: Account, reached: nat) {
    && now.row.pendingDeposits == Until(reached, 2, was.row.pendingDeposits, done.row.pendingDeposits)
    && now.row.totalStaked == Until(reached, 2, was.row.totalStaked, done.row.totalStaked)
    && now.row.totalShares == Until(reached, 3, was.row.totalShares, done.row.totalShares)
    && now.holders == Until(reached, 3, was.holders, done.holders)
    && now.row.currentIndex == was.row.currentIndex
    && now.row.cumulativeYield == was.row.cumulativeYield
  }

  /** A completion cut after `reached` of its writes: the deposit's status is the first,
      the two balances the second, user's and vault's shares the third, and the audit entry is never
      written. */
  lemma CompletingCutExactly(book: Book, orderId: string, reached: nat)
    ensures var finished, cut := Complete(book, orderId).0, CompletingUpTo(book, orderId, reached).0;
            && cut.deposits == Until(reached, 1, book.deposits, finished.deposits)
            && cut.vaults.Keys == book.vaults.Keys
            && cut.activeClients == book.activeClients && cut.audit == book.audit
            && finished.vaults.Keys == book.vaults.Keys
            && forall key <- book.vaults ::
                 CutAccount(book.vaults[key], finished.vaults[key], cut.vaults[key], reached)
  {
    var finished, cut := Complete(book, orderId).0, CompletingUpTo(book, orderId, reached).0;
    if Complete(book, orderId).1 == Done {
      CompletingCutOne(book, orderId, reached);
      var key := KeyOf(book.deposits[orderId]);
      assert forall k <- book.vaults :: k != key ==> finished.vaults[k] == book.vaults[k] == cut.vaults[k];
    } else {
      assert finished.vaults == book.vaults && cut.vaults == book.vaults;
    }
  }

  lemma CompletingCutOne(book: Book, orderId: string, reached: nat)
    requires Complete(book, orderId).1 == Done
    ensures var key := KeyOf(book.deposits[orderId]);
            var finished, cut := Complete(book, orderId).0, CompletingUpTo(book, orderId, reached).0;
            && key in book.vaults && key in finished.vaults && key in cut.vaults
            && CutAccount(book.vaults[key], finished.vaults[key], cut.vaults[key], reached)
  {
  }

  /** A creation cut short: opening the vault is the first write, the deposit the second, its pending
      balance the third. An inactive client's writes nothing. */
  lemma CreatingCutExactly(book: Book, orderId: string, client: string, user: string, currency: string, amount: int,
                           reached: nat)
    ensures var finished := Create(book, orderId, client, user, currency, amount).0;
            var cut := CreatingUpTo(book, orderId, client, user, currency, amount, reached).0;
            var key := VaultKey(client, currency);
            && cut.deposits == Until(reached, 2, book.deposits, finished.deposits)
            && (client !in book.activeClients ==> cut == book)
            && (client in book.activeClients ==>
                  cut.vaults == Until(reached, 1, book.vaults,
                                  Until(reached, 3, book.vaults[key := Opened(book, key)], finished.vaults)))
            && cut.activeClients == book.activeClients && cut.audit == book.audit
  {
    if client in book.activeClients {
      var key := VaultKey(client, currency);
      assert OpenVault(book, key).vaults == book.vaults[key := Opened(book, key)];
    }
  }

  /** A failure cut short: the status is the first write, the pending balance the second. */
  lemma FailingCutExactly(book: Book, orderId: string, reached: nat)
    requires orderId in book.deposits
    ensures var finished, cut := Fail(book, orderId).0, FailingUpTo(book, orderId, reached).0;
            && cut.deposits == Until(reached, 1, book.deposits, finished.deposits)
            && cut.vaults == Until(reached, 2, book.vaults, finished.vaults)
            && cut.activeClients == book.activeClients && cut.audit == book.audit
  {
  }

  /** The reply to a call cut short: that of the whole call where this ends before its next write, at a guard
      or at a CHECK; the database's failure otherwise. */
  lemma CutReplies(book: Book, call: Call, reached: nat)
    ensures match call
            case Creating(orderId, client, user, currency, amount) =>
              var whole := Create(book, orderId, client, user, currency, amount).1;
              CreatingUpTo(book, orderId, client, user, currency, amount, reached).1
              == if whole == Thrown(InvalidClient) || (whole != Done && reached >= 2) then whole
                 else Thrown(DatabaseFailed)
            case Completing(orderId) =>
              var whole := Complete(book, orderId).1;
              CompletingUpTo(book, orderId, reached).1
              == if whole != Done && (whole != Thrown(CheckViolated) || reached >= 2) then whole
                 else Thrown(DatabaseFailed)
            case Failing(orderId) =>
              var whole := Fail(book, orderId).1;
              FailingUpTo(book, orderId, reached).1
              == if whole == Thrown(DepositNotFound) || (whole != Done && reached >= 2) then whole
                 else Thrown(DatabaseFailed)
  {
  }
}

/** Deposits, vault totals and user shares as one transition system: the deposit flow
    (packages/core/usecase/deposit.usecase.ts), every service that writes a vault's index or stake, the
    withdrawals that burn shares, and calls that the database cuts short. Every operation is a function on
    the books; a throw after a write leaves that write in place, because the flow opens no transaction. */
module DepositLifecycle {
  import opened Sums
  import opened VaultRows
  import opened VaultAccounting
  import opened VaultSolvency
  import opened Orders

  datatype Deposit = Deposit(client: string, user: string, currency: string, amount: nat, status: Status)

  datatype VaultKey = VaultKey(client: string, currency: string)

  /** A client vault and the shares its users hold in it. */
  datatype Account = Account(row: VaultRow, holders: map<string, nat>)

  /** Audit entries, with the figures the flow puts in their metadata. */
  datatype Event =
    | DepositCreated(orderId: string)
    | DepositCompleted(orderId: string, key: VaultKey, shares: nat)
    | DepositFailed(orderId: string)
    | SharesBurned(key: VaultKey, shares: nat)

  datatype Book = Book(
    activeClients: set<string>,
    deposits: map<string, Deposit>,
    vaults: map<VaultKey, Account>,
    audit: seq<Event>)

  datatype Error =
    | InvalidClient
    | DepositRejected
    | DepositNotFound
    | NotPending(status: Status)
    | VaultNotFound
    | CurrentIndexZero
    | CheckViolated
    | ExceedsStaked
    | DatabaseFailed

  datatype Reply = Done | Thrown(error: Error)

  function KeyOf(d: Deposit): VaultKey { VaultKey(d.client, d.currency) }

  function HolderShares(account: Account, user: string): nat {
    if user in account.holders then account.holders[user] else 0
  }

  function SetVault(book: Book, key: VaultKey, account: Account): Book {
    book.(vaults := book.vaults[key := account])
  }

  function Mark(book: Book, orderId: string, status: Status): Book
    requires orderId in book.deposits
  {
    book.(deposits := book.deposits[orderId := book.deposits[orderId].(status := status)])
  }

  function Log(book: Book, event: Event): Book { book.(audit := book.audit + [event]) }

  function OpenVault(book: Book, key: VaultKey): Book {
    if key in book.vaults then book else SetVault(book, key, Account(EMPTY_VAULT, map[]))
  }

  /** The order id is chosen by the database; its UNIQUE and amount CHECK constraints can reject the
      insert, after the vault was opened. */
  function Create(book: Book, orderId: string, client: string, user: string, currency: string, amount: int)
    : (Book, Reply)
  {
    if client !in book.activeClients then (book, Thrown(InvalidClient)) else
    var key := VaultKey(client, currency);
    var ready := OpenVault(book, key);
    if orderId in book.deposits || amount <= 0 then (ready, Thrown(DepositRejected)) else
    var account := ready.vaults[key];
    var booked := ready.(deposits := book.deposits[orderId := Deposit(client, user, currency, amount, Pending)]);
    (Log(SetVault(booked, key, account.(row := AddPending(account.row, amount))), DepositCreated(orderId)), Done)
  }

  function Complete(book: Book, orderId: string): (Book, Reply) {
    if orderId !in book.deposits then (book, Thrown(DepositNotFound)) else
    var d := book.deposits[orderId];
    if d.status != Pending then (book, Thrown(NotPending(d.status))) else
    if KeyOf(d) !in book.vaults then (book, Thrown(VaultNotFound)) else
    var account := book.vaults[KeyOf(d)];
    match CalculateShares(d.amount, account.row.currentIndex)
    case ZeroIndex => (book, Thrown(CurrentIndexZero))
    case Minted(shares) =>
      var marked := Mark(book, orderId, Completed);
      match MovePendingToStaked(account.row, d.amount)
      case None => (marked, Thrown(CheckViolated))
      case Some(moved) =>
        var credited := Credit(Account(moved, account.holders), d.user, shares);
        (Log(SetVault(marked, KeyOf(d), credited), DepositCompleted(orderId, KeyOf(d), shares)), Done)
  }

  /** The user's shares and the vault's total rise together. */
  function Credit(account: Account, user: string, shares: nat): Account {
    Account(account.row.(totalShares := account.row.totalShares + shares),
            account.holders[user := HolderShares(account, user) + shares])
  }

  /** There is no status check: whatever the deposit's state, it becomes failed and its amount leaves
      the pending balance. */
  function Fail(book: Book, orderId: string): (Book, Reply) {
    if orderId !in book.deposits then (book, Thrown(DepositNotFound)) else
    var d := book.deposits[orderId];
    var marked := Mark(book, orderId, Failed);
    if KeyOf(d) !in book.vaults then (Log(marked, DepositFailed(orderId)), Done) else
    var account := book.vaults[KeyOf(d)];
    match ReducePending(account.row, d.amount)
    case None => (marked, Thrown(CheckViolated))
    case Some(row) => (Log(SetVault(marked, KeyOf(d), account.(row := row)), DepositFailed(orderId)), Done)
  }

  // ---- calls that the database cuts short after `reached` of their writes ----

  /** Opening the vault, inserting the deposit, the pending balance, and all but the audit entry. */
  function CreatingUpTo(book: Book, orderId: string, client: string, user: string, currency: string, amount: int,
                        reached: nat): (Book, Reply)
  {
    if client !in book.activeClients then (book, Thrown(InvalidClient)) else
    if reached == 0 then (book, Thrown(DatabaseFailed)) else
    var key := VaultKey(client, currency);
    var ready := OpenVault(book, key);
    if reached == 1 then (ready, Thrown(DatabaseFailed)) else
    if orderId in book.deposits || amount <= 0 then (ready, Thrown(DepositRejected)) else
    var account := ready.vaults[key];
    var booked := ready.(deposits := book.deposits[orderId := Deposit(client, user, currency, amount, Pending)]);
    if reached == 2 then (booked, Thrown(DatabaseFailed))
    else (SetVault(booked, key, account.(row := AddPending(account.row, amount))), Thrown(DatabaseFailed))
  }

  /** The deposit's status, the two balances, the shares, and all but the audit entry. */
  function CompletingUpTo(book: Book, orderId: string, reached: nat): (Book, Reply) {
    if orderId !in book.deposits then (book, Thrown(DepositNotFound)) else
    var d := book.deposits[orderId];
    if d.status != Pending then (book, Thrown(NotPending(d.status))) else
    if KeyOf(d) !in book.vaults then (book, Thrown(VaultNotFound)) else
    var account := book.vaults[KeyOf(d)];
    match CalculateShares(d.amount, account.row.currentIndex)
    case ZeroIndex => (book, Thrown(CurrentIndexZero))
    case Minted(shares) =>
      if reached == 0 then (book, Thrown(DatabaseFailed)) else
      var marked := Mark(book, orderId, Completed);
      if reached == 1 then (marked, Thrown(DatabaseFailed)) else
      match MovePendingToStaked(account.row, d.amount)
      case None => (marked, Thrown(CheckViolated))
      case Some(moved) =>
        var after := if reached == 2 then Account(moved, account.holders)
                     else Credit(Account(moved, account.holders), d.user, shares);
        (SetVault(marked, KeyOf(d), after), Thrown(DatabaseFailed))
  }

  /** The deposit's status, and all but the audit entry. */
  function FailingUpTo(book: Book, orderId: string, reached: nat): (Book, Reply) {
    if orderId !in book.deposits then (book, Thrown(DepositNotFound)) else
    if reached == 0 then (book, Thrown(DatabaseFailed)) else
    var d := book.deposits[orderId];
    var marked := Mark(book, orderId, Failed);
    if reached == 1 || KeyOf(d) !in book.vaults then (marked, Thrown(DatabaseFailed)) else
    var account := book.vaults[KeyOf(d)];
    match ReducePending(account.row, d.amount)
    case None => (marked, Thrown(CheckViolated))
    case Some(row) => (SetVault(marked, KeyOf(d), account.(row := row)), Thrown(DatabaseFailed))
  }

  /** A call of the deposit flow. */
  datatype Call =
    | Creating(orderId: string, client: string, user: string, currency: string, amount: int)
    | Completing(orderId: string)
    | Failing(orderId: string)

  function Interrupted(book: Book, call: Call, reached: nat): Book {
    match call
    case Creating(orderId, client, user, currency, amount) =>
      CreatingUpTo(book, orderId, client, user, currency, amount, reached).0
    case Completing(orderId) => CompletingUpTo(book, orderId, reached).0
    case Failing(orderId) => FailingUpTo(book, orderId, reached).0
  }

  // ---- the other steps ----

  /** A write that its service refuses, or that throws, leaves the row. */
  function WriteVault(book: Book, key: VaultKey, writer: VaultWriter): Book {
    if key !in book.vaults then book else
    match WrittenRow(book.vaults[key].row, writer)
    case None => book
    case Some(row) => SetVault(book, key, book.vaults[key].(row := row))
  }

  /** A withdrawal burns the shares of its amount and takes the amount out of the stake. */
  function Withdraw(book: Book, key: VaultKey, user: string, amount: nat): (Book, Reply) {
    if key !in book.vaults then (book, Thrown(VaultNotFound)) else
    var account := book.vaults[key];
    if account.row.totalStaked < amount then (book, Thrown(ExceedsStaked)) else
    match CalculateSharesToBurn(amount, account.row.currentIndex)
    case ZeroIndex => (book, Thrown(CurrentIndexZero))
    case Minted(shares) =>
      if HolderShares(account, user) < shares then (book, Thrown(CheckViolated)) else
      match ReduceStaked(account.row, amount, shares)
      case None => (book, Thrown(CheckViolated))
      case Some(row) =>
        var left := Account(row, account.holders[user := HolderShares(account, user) - shares]);
        (Log(SetVault(book, key, left), SharesBurned(key, shares)), Done)
  }

  datatype Op =
    | CreateOp(orderId: string, client: string, user: string, currency: string, amount: int)
    | CompleteOp(orderId: string)
    | FailOp(orderId: string)
    | WriteOp(key: VaultKey, writer: VaultWriter)
    | WithdrawOp(key: VaultKey, user: string, withdrawn: nat)
    | InterruptedOp(call: Call, reached: nat)

  function Step(book: Book, op: Op): Book {
    match op
    case CreateOp(orderId, client, user, currency, amount) => Create(book, orderId, client, user, currency, amount).0
    case CompleteOp(orderId) => Complete(book, orderId).0
    case FailOp(orderId) => Fail(book, orderId).0
    case WriteOp(key, writer) => WriteVault(book, key, writer)
    case WithdrawOp(key, user, amount) => Withdraw(book, key, user, amount).0
    case InterruptedOp(call, reached) => Interrupted(book, call, reached)
  }

  ghost function Run(book: Book, ops: seq<Op>): Book {
    if ops == [] then book else Step(Run(book, ops[..|ops| - 1]), ops[|ops| - 1])
  }

  /** The use case over its tables. */
  class DepositUsecase {
    var activeClients: set<string>
    var deposits: map<string, Deposit>
    var vaults: map<VaultKey, Account>
    var audit: seq<Event>

    function Books(): Book
      reads this
    {
      Book(activeClients, deposits, vaults, audit)
    }

    constructor (activeClients: set<string>)
      ensures Books() == Book(activeClients, map[], map[], [])
    {
      this.activeClients, deposits, vaults, audit := activeClients, map[], map[], [];
    }

    /** The database carries out the first `reached` of the four writes; all of them if there are as many. */
    method CreateDeposit(orderId: string, client: string, user: string, currency: string, amount: int, reached: nat)
      returns (reply: Reply)
      modifies this
      ensures (Books(), reply)
           == if reached < 4 then CreatingUpTo(old(Books()), orderId, client, user, currency, amount, reached)
              else Create(old(Books()), orderId, client, user, currency, amount)
    {
      if client !in activeClients { return Thrown(InvalidClient); }
      if reached == 0 { return Thrown(DatabaseFailed); }
      var key := VaultKey(client, currency);
      if key !in vaults { vaults := vaults[key := Account(EMPTY_VAULT, map[])]; }
      if reached == 1 { return Thrown(DatabaseFailed); }
      if orderId in deposits || amount <= 0 { return Thrown(DepositRejected); }
      deposits := deposits[orderId := Deposit(client, user, currency, amount, Pending)];
      if reached == 2 { return Thrown(DatabaseFailed); }
      vaults := vaults[key := vaults[key].(row := AddPending(vaults[key].row, amount))];
      if reached == 3 { return Thrown(DatabaseFailed); }
      audit := audit + [DepositCreated(orderId)];
      return Done;
    }

    /** The database carries out the first `reached` of the four writes; all of them if there are as many. */
    method CompleteDeposit(orderId: string, reached: nat) returns (reply: Reply)
      modifies this
      ensures (Books(), reply)
           == if reached < 4 then CompletingUpTo(old(Books()), orderId, reached) else Complete(old(Books()), orderId)
    {
      if orderId !in deposits { return Thrown(DepositNotFound); }
      var deposit := deposits[orderId];
      if deposit.status != Pending { return Thrown(NotPending(deposit.status)); }
      var key := KeyOf(deposit);
      if key !in vaults { return Thrown(VaultNotFound); }
      var account := vaults[key];
      var bought := CalculateShares(deposit.amount, account.row.currentIndex);
      if bought.ZeroIndex? { return Thrown(CurrentIndexZero); }
      if reached == 0 { return Thrown(DatabaseFailed); }
      deposits := deposits[orderId := deposit.(status := Completed)];
      if reached == 1 { return Thrown(DatabaseFailed); }
      var moved := MovePendingToStaked(account.row, deposit.amount);
      if moved.None? { return Thrown(CheckViolated); }
      vaults := vaults[key := Account(moved.value, account.holders)];
      if reached == 2 { return Thrown(DatabaseFailed); }
      var credited := Credit(vaults[key], deposit.user, bought.shares);
      assert vaults[key := credited] == old(vaults)[key := credited];
      vaults := vaults[key := credited];
      if reached == 3 { return Thrown(DatabaseFailed); }
      audit := audit + [DepositCompleted(orderId, key, bought.shares)];
      return Done;
    }

    /** The database carries out the first `reached` of the three writes; all of them if there are as many. */
    method FailDeposit(orderId: string, reached: nat) returns (reply: Reply)
      modifies this
      ensures (Books(), reply)
           == if reached < 3 then FailingUpTo(old(Books()), orderId, reached) else Fail(old(Books()), orderId)
    {
      if orderId !in deposits { return Thrown(DepositNotFound); }
      if reached == 0 { return Thrown(DatabaseFailed); }
      var deposit := deposits[orderId];
      var key := KeyOf(deposit);
      deposits := deposits[orderId := deposit.(status := Failed)];
      if reached == 1 { return Thrown(DatabaseFailed); }
      if key in vaults {
        var reduced := ReducePending(vaults[key].row, deposit.amount);
        if reduced.None? { return Thrown(CheckViolated); }
        vaults := vaults[key := vaults[key].(row := reduced.value)];
      }
      if reached == 2 { return Thrown(DatabaseFailed); }
      audit := audit + [DepositFailed(orderId)];
      return Done;
    }
  }

  // ---- what the books must agree on ----

  ghost function PendingIn(key: VaultKey): Deposit -> nat {
    (d: Deposit) => if d.status == Pending && KeyOf(d) == key then d.amount else 0
  }

  ghost function MintedIn(key: VaultKey): Event -> nat {
    (e: Event) => if e.DepositCompleted? && e.key == key then e.shares else 0
  }

  ghost function BurnedIn(key: VaultKey): Event -> nat {
    (e: Event) => if e.SharesBurned? && e.key == key then e.shares else 0
  }

  ghost function BurnCount(key: VaultKey): Event -> nat {
    (e: Event) => if e.SharesBurned? && e.key == key then 1 else 0
  }

  ghost function MintCount(orderId: string): Event -> nat {
    (e: Event) => if e.DepositCompleted? && e.orderId == orderId then 1 else 0
  }

  /** Withdrawals made so far from a vault. */
  ghost function Withdrawals(book: Book, key: VaultKey): nat { Sum(book.audit, BurnCount(key)) }

  /** How often a deposit has minted shares. */
  ghost function Mints(book: Book, orderId: string): nat { Sum(book.audit, MintCount(orderId)) }

  /** Every pending balance is the sum of the vault's pending deposits. */
  ghost predicate PendingMatches(book: Book) {
    && (forall id <- book.deposits :: KeyOf(book.deposits[id]) in book.vaults)
    && forall key <- book.vaults ::
         book.vaults[key].row.pendingDeposits == Total(book.deposits, PendingIn(key))
  }

  /** A vault's total shares are what its users hold, and what was minted less what was burned. */
  ghost predicate SharesMatchAt(book: Book, key: VaultKey) {
    if key in book.vaults then
      var account := book.vaults[key];
      account.row.totalShares == Total(account.holders, Itself())
      && account.row.totalShares + Sum(book.audit, BurnedIn(key)) == Sum(book.audit, MintedIn(key))
    else
      Sum(book.audit, BurnedIn(key)) == Sum(book.audit, MintedIn(key)) == Withdrawals(book, key) == 0
  }

  ghost predicate SharesMatch(book: Book) {
    forall key :: SharesMatchAt(book, key)
  }

  /** A vault's total shares are what its users hold. */
  ghost predicate HoldersMatch(book: Book) {
    forall key <- book.vaults :: book.vaults[key].row.totalShares == Total(book.vaults[key].holders, Itself())
  }

  ghost predicate AmountsPositive(book: Book) {
    forall id <- book.deposits :: book.deposits[id].amount > 0
  }

  /** No deposit mints twice, and one that is unknown or pending has not minted. */
  ghost predicate MintsAtMostOnce(book: Book) {
    forall id ::
      Mints(book, id) <= 1 && (id !in book.deposits || book.deposits[id].status == Pending ==> Mints(book, id) == 0)
  }

  /** Exactly the completed deposits have minted. */
  ghost predicate MintsWhenCompleted(book: Book) {
    forall id <- book.deposits :: Mints(book, id) == if book.deposits[id].status == Completed then 1 else 0
  }

  ghost predicate AllSolvent(book: Book) {
    forall key <- book.vaults :: Solvent(book.vaults[key].row, Withdrawals(book, key))
  }

  ghost predicate WithinAt(book: Book, key: VaultKey, debt: nat) {
    key in book.vaults ==> SolventWithin(book.vaults[key].row, Withdrawals(book, key), debt)
  }

  /** A write that goes through is covered. */
  ghost predicate CoveredOp(book: Book, op: Op) {
    op.WriteOp? && op.key in book.vaults && WrittenRow(book.vaults[op.key].row, op.writer).Some? ==>
      Covered(book.vaults[op.key].row, Withdrawals(book, op.key), op.writer)
  }

  /** A deposit may be failed while it is pending, and one that has failed or expired may be failed again if
      the database will refuse to take its amount. */
  ghost predicate MayFail(book: Book, orderId: string) {
    orderId in book.deposits ==>
      var d := book.deposits[orderId];
      d.status == Pending
      || (d.status != Completed && KeyOf(d) in book.vaults && book.vaults[KeyOf(d)].row.pendingDeposits < d.amount)
  }

  /** Where the database may cut a call short: not between a deposit and its pending balance, not after a
      completion began, and not between the status of a pending or completed deposit and its balance. */
  ghost predicate MayCut(book: Book, call: Call, reached: nat) {
    match call
    case Creating(orderId, client, _, _, amount) =>
      reached != 2 || client !in book.activeClients || orderId in book.deposits || amount <= 0
    case Completing(orderId) => reached == 0 || orderId !in book.deposits || book.deposits[orderId].status != Pending
    case Failing(orderId) =>
      if reached >= 2 then MayFail(book, orderId)
      else reached == 0 || orderId !in book.deposits || book.deposits[orderId].status in {Failed, Expired}
  }

  /** What the books need of their surroundings: deposits are failed only when they may be, writes are
      covered, and the database cuts calls short only where it may. */
  ghost predicate Careful(book: Book, op: Op) {
    && (op.FailOp? ==> MayFail(book, op.orderId))
    && CoveredOp(book, op)
    && (op.InterruptedOp? ==> MayCut(book, op.call, op.reached))
  }

  ghost predicate CarefulRun(book: Book, ops: seq<Op>) {
    ops == [] || (CarefulRun(book, ops[..|ops| - 1]) && Careful(Run(book, ops[..|ops| - 1]), ops[|ops| - 1]))
  }

  /** Deposits are failed, wholly or in part, only while pending. */
  ghost predicate FailsOnlyPending(book: Book, op: Op) {
    && (op.FailOp? && op.orderId in book.deposits ==> book.deposits[op.orderId].status == Pending)
    && (op.InterruptedOp? && op.call.Failing? && op.call.orderId in book.deposits ==>
          book.deposits[op.call.orderId].status == Pending)
  }

  ghost predicate PendingFailsRun(book: Book, ops: seq<Op>) {
    ops == []
    || (PendingFailsRun(book, ops[..|ops| - 1]) && FailsOnlyPending(Run(book, ops[..|ops| - 1]), ops[|ops| - 1]))
  }

  /** A completion is the one call whose audit entry the share count is checked against. */
  ghost predicate KeepsLog(book: Book, op: Op) {
    op.InterruptedOp? && op.call.Completing? ==> MayCut(book, op.call, op.reached)
  }

  // ---- pending balances ----

  lemma {:induction false} NoWeight<K, V>(m: map<K, V>, weight: V -> nat)
    requires forall k <- m :: weight(m[k]) == 0
    ensures Total(m, weight) == 0
    decreases |m|
  {
    if k :| k in m {
      TotalRemove(m, k, weight);
      assert (m - {k}).Keys == m.Keys - {k};
      NoWeight(m - {k}, weight);
    }
  }

  lemma OpenKeepsPending(book: Book, key: VaultKey)
    requires PendingMatches(book)
    ensures PendingMatches(OpenVault(book, key))
  {
    if key !in book.vaults {
      NoWeight(book.deposits, PendingIn(key));
    }
  }

  /** Writing one deposit changes the sums of pending deposits by what it adds and takes. */
  lemma PendingAfter(book: Book, orderId: string, d: Deposit, key: VaultKey)
    ensures Total(book.deposits[orderId := d], PendingIn(key))
            + (if orderId in book.deposits then PendingIn(key)(book.deposits[orderId]) else 0)
         == Total(book.deposits, PendingIn(key)) + PendingIn(key)(d)
  {
    TotalUpdate(book.deposits, orderId, d, PendingIn(key));
  }

  /** The books still match when one deposit and its own vault's pending balance change alike. */
  lemma MovesTogether(book: Book, after: Book, orderId: string, d: Deposit)
    requires PendingMatches(book) && KeyOf(d) in book.vaults
    requires orderId in book.deposits ==> KeyOf(book.deposits[orderId]) == KeyOf(d)
    requires after.deposits == book.deposits[orderId := d] && after.vaults.Keys == book.vaults.Keys
    requires forall key <- book.vaults :: key != KeyOf(d) ==>
               after.vaults[key].row.pendingDeposits == book.vaults[key].row.pendingDeposits
    requires after.vaults[KeyOf(d)].row.pendingDeposits
             + (if orderId in book.deposits then PendingIn(KeyOf(d))(book.deposits[orderId]) else 0)
          == book.vaults[KeyOf(d)].row.pendingDeposits + PendingIn(KeyOf(d))(d)
    ensures PendingMatches(after)
  {
    forall key | key in after.vaults
      ensures after.vaults[key].row.pendingDeposits == Total(after.deposits, PendingIn(key))
    {
      PendingAfter(book, orderId, d, key);
    }
  }

  lemma CreateKeepsPending(book: Book, orderId: string, client: string, user: string, currency: string, amount: int)
    requires PendingMatches(book)
    ensures PendingMatches(Create(book, orderId, client, user, currency, amount).0)
  {
    if client in book.activeClients {
      var ready := OpenVault(book, VaultKey(client, currency));
      OpenKeepsPending(book, VaultKey(client, currency));
      var (after, reply) := Create(book, orderId, client, user, currency, amount);
      if reply == Done {
        MovesTogether(ready, after, orderId, Deposit(client, user, currency, amount, Pending));
      }
    }
  }

  /** With matching books a pending deposit is always covered, so completing it cannot stop halfway. */
  lemma PendingIsCovered(book: Book, orderId: string)
    requires PendingMatches(book) && orderId in book.deposits && book.deposits[orderId].status == Pending
    ensures KeyOf(book.deposits[orderId]) in book.vaults
    ensures book.deposits[orderId].amount <= book.vaults[KeyOf(book.deposits[orderId])].row.pendingDeposits
  {
    TotalAtLeast(book.deposits, orderId, PendingIn(KeyOf(book.deposits[orderId])));
  }

  lemma CompleteKeepsPending(book: Book, orderId: string)
    requires PendingMatches(book)
    ensures PendingMatches(Complete(book, orderId).0)
    ensures Complete(book, orderId).1 != Thrown(CheckViolated)
  {
    if orderId in book.deposits && book.deposits[orderId].status == Pending {
      PendingIsCovered(book, orderId);
      MovesTogether(book, Complete(book, orderId).0, orderId, book.deposits[orderId].(status := Completed));
    }
  }

  lemma FailKeepsPending(book: Book, orderId: string)
    requires PendingMatches(book)
    requires orderId in book.deposits ==> book.deposits[orderId].status == Pending
    ensures PendingMatches(Fail(book, orderId).0)
    ensures Fail(book, orderId).1 != Thrown(CheckViolated)
  {
    if orderId in book.deposits {
      PendingIsCovered(book, orderId);
      MovesTogether(book, Fail(book, orderId).0, orderId, book.deposits[orderId].(status := Failed));
    }
  }

  /** Failing a deposit keeps the pending balance right exactly when it was pending, or when the
      database has nothing left to take its amount from. */
  lemma FailKeepsPendingExactly(book: Book, orderId: string)
    requires PendingMatches(book) && orderId in book.deposits && book.deposits[orderId].amount > 0
    ensures var d := book.deposits[orderId];
            PendingMatches(Fail(book, orderId).0)
            <==> d.status == Pending || book.vaults[KeyOf(d)].row.pendingDeposits < d.amount
  {
    var d := book.deposits[orderId];
    if d.status == Pending {
      FailKeepsPending(book, orderId);
    } else {
      var after := Fail(book, orderId).0;
      assert after.deposits == book.deposits[orderId := d.(status := Failed)];
      forall key ensures Total(after.deposits, PendingIn(key)) == Total(book.deposits, PendingIn(key)) {
        PendingAfter(book, orderId, d.(status := Failed), key);
      }
      if d.amount <= book.vaults[KeyOf(d)].row.pendingDeposits {
        assert after.vaults[KeyOf(d)].row.pendingDeposits < book.vaults[KeyOf(d)].row.pendingDeposits;
      }
    }
  }

  lemma MayFailKeepsPending(book: Book, orderId: string)
    requires PendingMatches(book) && MayFail(book, orderId)
    ensures PendingMatches(Fail(book, orderId).0)
  {
    if orderId in book.deposits && book.deposits[orderId].status != Pending {
      FailKeepsPendingExactly(book, orderId);
    } else {
      FailKeepsPending(book, orderId);
    }
  }

  /** Pending balances do not depend on the audit trail. */
  lemma SamePending(book: Book, other: Book)
    requires book.deposits == other.deposits && book.vaults == other.vaults
    ensures PendingMatches(book) <==> PendingMatches(other)
  {
  }

  lemma MarkedFailedPending(book: Book, orderId: string)
    requires PendingMatches(book) && orderId in book.deposits && book.deposits[orderId].status != Pending
    ensures PendingMatches(Mark(book, orderId, Failed))
  {
    var failed := book.deposits[orderId].(status := Failed);
    forall key ensures Total(book.deposits[orderId := failed], PendingIn(key)) == Total(book.deposits, PendingIn(key)) {
      PendingAfter(book, orderId, failed, key);
    }
  }

  lemma CreatingKeepsPending(book: Book, orderId: string, client: string, user: string, currency: string, amount: int,
                             reached: nat)
    requires PendingMatches(book) && MayCut(book, Creating(orderId, client, user, currency, amount), reached)
    ensures PendingMatches(CreatingUpTo(book, orderId, client, user, currency, amount, reached).0)
  {
    OpenKeepsPending(book, VaultKey(client, currency));
    if reached >= 2 && client in book.activeClients {
      CreateKeepsPending(book, orderId, client, user, currency, amount);
      hide PendingMatches;
      SamePending(CreatingUpTo(book, orderId, client, user, currency, amount, reached).0,
        Create(book, orderId, client, user, currency, amount).0);
    }
  }

  lemma InterruptedKeepsPending(book: Book, call: Call, reached: nat)
    requires PendingMatches(book) && MayCut(book, call, reached)
    ensures PendingMatches(Interrupted(book, call, reached))
  {
    match call
    case Creating(orderId, client, user, currency, amount) =>
      CreatingKeepsPending(book, orderId, client, user, currency, amount, reached);
    case Completing(orderId) =>
    case Failing(orderId) =>
      if orderId in book.deposits && reached == 1 {
        MarkedFailedPending(book, orderId);
      } else if orderId in book.deposits && reached >= 2 {
        MayFailKeepsPending(book, orderId);
        SamePending(Interrupted(book, call, reached), Fail(book, orderId).0);
      }
  }

  /** A write touches neither shares nor pending balances. */
  lemma WriterKeepsRest(book: Book, key: VaultKey, writer: VaultWriter)
    ensures var after := WriteVault(book, key, writer);
            && after == book.(vaults := after.vaults) && after.vaults.Keys == book.vaults.Keys
            && forall k <- book.vaults ::
                 && after.vaults[k].holders == book.vaults[k].holders
                 && after.vaults[k].row.totalShares == book.vaults[k].row.totalShares
                 && after.vaults[k].row.pendingDeposits == book.vaults[k].row.pendingDeposits
                 && (k != key ==> after.vaults[k] == book.vaults[k])
  {
    if key in book.vaults {
      hide WrittenRow;
      WriterKeepsShares(book.vaults[key].row, writer);
    }
  }

  lemma StepKeepsPending(book: Book, op: Op)
    requires PendingMatches(book) && Careful(book, op)
    ensures PendingMatches(Step(book, op))
  {
    match op
    case CreateOp(orderId, client, user, currency, amount) =>
      CreateKeepsPending(book, orderId, client, user, currency, amount);
    case CompleteOp(orderId) => CompleteKeepsPending(book, orderId);
    case FailOp(orderId) => MayFailKeepsPending(book, orderId);
    case WriteOp(key, writer) => WriterKeepsRest(book, key, writer);
    case WithdrawOp(key, user, amount) =>
    case InterruptedOp(call, reached) => InterruptedKeepsPending(book, call, reached);
  }

  // ---- shares ----

  /** The audit sums after one more event. */
  lemma Logged(audit: seq<Event>, event: Event)
    ensures forall key :: Sum(audit + [event], MintedIn(key)) == Sum(audit, MintedIn(key)) + MintedIn(key)(event)
    ensures forall key :: Sum(audit + [event], BurnedIn(key)) == Sum(audit, BurnedIn(key)) + BurnedIn(key)(event)
    ensures forall key :: Sum(audit + [event], BurnCount(key)) == Sum(audit, BurnCount(key)) + BurnCount(key)(event)
    ensures forall id :: Sum(audit + [event], MintCount(id)) == Sum(audit, MintCount(id)) + MintCount(id)(event)
  {
    assert (audit + [event])[..|audit|] == audit;
  }

  /** Nothing but pending balances differs, and at most an event about pending deposits was logged. */
  ghost predicate OnlyPendingMoves(book: Book, after: Book) {
    && after.vaults.Keys == book.vaults.Keys
    && (forall key <- book.vaults ::
          && after.vaults[key].holders == book.vaults[key].holders
          && after.vaults[key].row.totalShares == book.vaults[key].row.totalShares
          && after.vaults[key].row.totalStaked == book.vaults[key].row.totalStaked
          && after.vaults[key].row.currentIndex == book.vaults[key].row.currentIndex)
    && (after.audit == book.audit
        || exists e: Event :: (e.DepositCreated? || e.DepositFailed?) && after.audit == book.audit + [e])
  }

  lemma PendingMovesKeepLog(book: Book, after: Book)
    requires OnlyPendingMoves(book, after)
    ensures forall key :: Sum(after.audit, MintedIn(key)) == Sum(book.audit, MintedIn(key))
    ensures forall key :: Sum(after.audit, BurnedIn(key)) == Sum(book.audit, BurnedIn(key))
    ensures forall key :: Withdrawals(after, key) == Withdrawals(book, key)
  {
    if after.audit != book.audit {
      var e: Event :| (e.DepositCreated? || e.DepositFailed?) && after.audit == book.audit + [e];
      Logged(book.audit, e);
    }
  }

  lemma PendingMovesKeepShares(book: Book, after: Book)
    requires OnlyPendingMoves(book, after) && SharesMatch(book)
    ensures SharesMatch(after)
  {
    PendingMovesKeepLog(book, after);
    forall key ensures SharesMatchAt(after, key) {
      assert SharesMatchAt(book, key);
    }
  }

  lemma OpenKeepsShares(book: Book, key: VaultKey)
    requires SharesMatch(book)
    ensures SharesMatch(OpenVault(book, key))
  {
    var after := OpenVault(book, key);
    forall k ensures SharesMatchAt(after, k) {
      assert SharesMatchAt(book, k);
    }
  }

  lemma CreateKeepsShares(book: Book, orderId: string, client: string, user: string, currency: string, amount: int)
    requires SharesMatch(book)
    ensures SharesMatch(Create(book, orderId, client, user, currency, amount).0)
  {
    if client in book.activeClients {
      var (after, reply) := Create(book, orderId, client, user, currency, amount);
      var ready := OpenVault(book, VaultKey(client, currency));
      OpenKeepsShares(book, VaultKey(client, currency));
      if reply == Done {
        assert after.audit == ready.audit + [DepositCreated(orderId)];
        PendingMovesKeepShares(ready, after);
      }
    }
  }

  lemma CreditKeepsTotal(account: Account, user: string, shares: nat)
    ensures Total(Credit(account, user, shares).holders, Itself()) == Total(account.holders, Itself()) + shares
  {
    var held: nat := HolderShares(account, user) + shares;
    TotalUpdate(account.holders, user, held, Itself());
  }

  lemma CompleteKeepsShares(book: Book, orderId: string)
    requires SharesMatch(book)
    ensures SharesMatch(Complete(book, orderId).0)
  {
    var (after, reply) := Complete(book, orderId);
    if reply == Done {
      var d := book.deposits[orderId];
      var account := book.vaults[KeyOf(d)];
      var shares := CalculateShares(d.amount, account.row.currentIndex).shares;
      Logged(book.audit, DepositCompleted(orderId, KeyOf(d), shares));
      CreditKeepsTotal(account, d.user, shares);
      CreditKeepsTotal(Account(MovePendingToStaked(account.row, d.amount).value, account.holders), d.user, shares);
    }
    forall key ensures SharesMatchAt(after, key) {
      assert SharesMatchAt(book, key);
    }
  }

  lemma FailKeepsShares(book: Book, orderId: string)
    requires SharesMatch(book)
    ensures SharesMatch(Fail(book, orderId).0)
  {
    var after := Fail(book, orderId).0;
    if after != book {
      assert after.audit == book.audit || after.audit == book.audit + [DepositFailed(orderId)];
      PendingMovesKeepShares(book, after);
    }
  }

  lemma WriteKeepsShares(book: Book, key: VaultKey, writer: VaultWriter)
    requires SharesMatch(book)
    ensures SharesMatch(WriteVault(book, key, writer))
  {
    var after := WriteVault(book, key, writer);
    WriterKeepsRest(book, key, writer);
    hide WriteVault;
    forall k ensures SharesMatchAt(after, k) {
      assert SharesMatchAt(book, k);
    }
  }

  lemma WithdrawKeepsShares(book: Book, key: VaultKey, user: string, amount: nat)
    requires SharesMatch(book)
    ensures SharesMatch(Withdraw(book, key, user, amount).0)
  {
    var (after, reply) := Withdraw(book, key, user, amount);
    if reply == Done {
      var account := book.vaults[key];
      var shares := CalculateSharesToBurn(amount, account.row.currentIndex).shares;
      Logged(book.audit, SharesBurned(key, shares));
      var held: nat := HolderShares(account, user) - shares;
      TotalUpdate(account.holders, user, held, Itself());
    }
    forall k ensures SharesMatchAt(after, k) {
      assert SharesMatchAt(book, k);
    }
  }

  lemma CreatingKeepsShares(book: Book, orderId: string, client: string, user: string, currency: string, amount: int,
                            reached: nat)
    requires SharesMatch(book)
    ensures SharesMatch(CreatingUpTo(book, orderId, client, user, currency, amount, reached).0)
  {
    var ready := OpenVault(book, VaultKey(client, currency));
    OpenKeepsShares(book, VaultKey(client, currency));
    if client in book.activeClients && reached > 0 {
      PendingMovesKeepShares(ready, CreatingUpTo(book, orderId, client, user, currency, amount, reached).0);
    }
  }

  /** A vault may be opened, and pending balances may move; nothing is logged. */
  lemma InterruptedKeepsShares(book: Book, call: Call, reached: nat)
    requires SharesMatch(book) && !call.Completing?
    ensures SharesMatch(Interrupted(book, call, reached))
  {
    match call
    case Creating(orderId, client, user, currency, amount) =>
      CreatingKeepsShares(book, orderId, client, user, currency, amount, reached);
    case Failing(orderId) => PendingMovesKeepShares(book, Interrupted(book, call, reached));
  }

  lemma StepKeepsShares(book: Book, op: Op)
    requires SharesMatch(book) && KeepsLog(book, op)
    ensures SharesMatch(Step(book, op))
  {
    match op
    case CreateOp(orderId, client, user, currency, amount) =>
      CreateKeepsShares(book, orderId, client, user, currency, amount);
    case CompleteOp(orderId) => CompleteKeepsShares(book, orderId);
    case FailOp(orderId) => FailKeepsShares(book, orderId);
    case WriteOp(key, writer) => WriteKeepsShares(book, key, writer);
    case WithdrawOp(key, user, amount) => WithdrawKeepsShares(book, key, user, amount);
    case InterruptedOp(call, reached) => if !call.Completing? { InterruptedKeepsShares(book, call, reached); }
  }

  /** Whatever happens, and wherever it is cut short, total shares and holdings move together. */
  lemma StepKeepsHolders(book: Book, op: Op)
    requires HoldersMatch(book)
    ensures HoldersMatch(Step(book, op))
  {
    hide Create, WriteVault, Fail, CreatingUpTo, FailingUpTo;
    match op
    case CreateOp(orderId, client, user, currency, amount) =>
      CreateMovesPending(book, orderId, client, user, currency, amount);
      SameHoldingsMatch(book, Create(book, orderId, client, user, currency, amount).0);
    case CompleteOp(orderId) => CompleteKeepsHolders(book, orderId);
    case FailOp(orderId) => FailMovesPending(book, orderId);
    case WriteOp(key, writer) => WriterKeepsRest(book, key, writer);
    case WithdrawOp(key, user, amount) => WithdrawKeepsHolders(book, key, user, amount);
    case InterruptedOp(call, reached) => InterruptedKeepsHolders(book, call, reached);
  }

  /** Every vault is as before, or new and empty, but for its pending balance. */
  ghost predicate SameHoldings(book: Book, after: Book) {
    forall key <- after.vaults ::
      var account := if key in book.vaults then book.vaults[key] else Account(EMPTY_VAULT, map[]);
      after.vaults[key].row.totalShares == account.row.totalShares && after.vaults[key].holders == account.holders
  }

  lemma CreateMovesPending(book: Book, orderId: string, client: string, user: string, currency: string, amount: int)
    ensures SameHoldings(book, Create(book, orderId, client, user, currency, amount).0)
  {
  }

  lemma CreatingMovesPending(book: Book, orderId: string, client: string, user: string, currency: string, amount: int,
                             reached: nat)
    ensures SameHoldings(book, CreatingUpTo(book, orderId, client, user, currency, amount, reached).0)
  {
  }

  lemma SameHoldingsMatch(book: Book, after: Book)
    requires HoldersMatch(book) && SameHoldings(book, after)
    ensures HoldersMatch(after)
  {
    var none: map<string, nat> := map[];
    assert Total(none, Itself()) == 0;
  }

  lemma FailMovesPending(book: Book, orderId: string)
    ensures forall key <- Fail(book, orderId).0.vaults ::
              key in book.vaults
              && Fail(book, orderId).0.vaults[key].row.totalShares == book.vaults[key].row.totalShares
              && Fail(book, orderId).0.vaults[key].holders == book.vaults[key].holders
  {
  }

  lemma CompleteKeepsHolders(book: Book, orderId: string)
    requires HoldersMatch(book)
    ensures HoldersMatch(Complete(book, orderId).0)
  {
    var (after, reply) := Complete(book, orderId);
    if reply == Done {
      var d := book.deposits[orderId];
      var account := book.vaults[KeyOf(d)];
      var shares := CalculateShares(d.amount, account.row.currentIndex).shares;
      CreditKeepsTotal(Account(MovePendingToStaked(account.row, d.amount).value, account.holders), d.user, shares);
    }
  }

  lemma WithdrawKeepsHolders(book: Book, key: VaultKey, user: string, amount: nat)
    requires HoldersMatch(book)
    ensures HoldersMatch(Withdraw(book, key, user, amount).0)
  {
    var (after, reply) := Withdraw(book, key, user, amount);
    if reply == Done {
      var account := book.vaults[key];
      var shares := CalculateSharesToBurn(amount, account.row.currentIndex).shares;
      var held: nat := HolderShares(account, user) - shares;
      TotalUpdate(account.holders, user, held, Itself());
    }
  }

  lemma InterruptedKeepsHolders(book: Book, call: Call, reached: nat)
    requires HoldersMatch(book)
    ensures HoldersMatch(Interrupted(book, call, reached))
  {
    match call
    case Creating(orderId, client, user, currency, amount) =>
      CreatingMovesPending(book, orderId, client, user, currency, amount, reached);
      SameHoldingsMatch(book, Interrupted(book, call, reached));
    case Completing(orderId) =>
      if orderId in book.deposits && KeyOf(book.deposits[orderId]) in book.vaults {
        var d := book.deposits[orderId];
        var account := book.vaults[KeyOf(d)];
        var bought := CalculateShares(d.amount, account.row.currentIndex);
        var moved := MovePendingToStaked(account.row, d.amount);
        if bought.Minted? && moved.Some? {
          CreditKeepsTotal(Account(moved.value, account.holders), d.user, bought.shares);
        }
      }
    case Failing(orderId) =>
  }

  // ---- minting once ----

  /** At most one event is logged, and a completion event only for a deposit that was pending. */
  ghost predicate LogsOne(book: Book, after: Book, events: seq<Event>) {
    && |events| <= 1
    && after.audit == book.audit + events
    && forall e <- events :: e.DepositCompleted? ==>
         && e.orderId in book.deposits && book.deposits[e.orderId].status == Pending
         && e.orderId in after.deposits && after.deposits[e.orderId].status == Completed
  }

  /** No deposit disappears, and none becomes pending again. */
  ghost predicate KeepsDeposits(book: Book, after: Book) {
    && (forall id <- book.deposits :: id in after.deposits)
    && forall id <- after.deposits :: id in book.deposits && after.deposits[id].status == Pending
         ==> book.deposits[id].status == Pending
  }

  lemma CreateShape(book: Book, orderId: string, client: string, user: string, currency: string, amount: int)
    returns (events: seq<Event>)
    ensures var after := Create(book, orderId, client, user, currency, amount).0;
            LogsOne(book, after, events) && KeepsDeposits(book, after)
    ensures forall e <- events :: e.DepositCreated?
  {
    events := Create(book, orderId, client, user, currency, amount).0.audit[|book.audit|..];
  }

  lemma CompleteShape(book: Book, orderId: string) returns (events: seq<Event>)
    ensures LogsOne(book, Complete(book, orderId).0, events) && KeepsDeposits(book, Complete(book, orderId).0)
    ensures forall e <- events :: e.DepositCompleted?
  {
    events := Complete(book, orderId).0.audit[|book.audit|..];
  }

  lemma FailShape(book: Book, orderId: string) returns (events: seq<Event>)
    ensures LogsOne(book, Fail(book, orderId).0, events) && KeepsDeposits(book, Fail(book, orderId).0)
    ensures forall e <- events :: e.DepositFailed?
  {
    events := Fail(book, orderId).0.audit[|book.audit|..];
  }

  lemma WithdrawShape(book: Book, key: VaultKey, user: string, amount: nat) returns (events: seq<Event>)
    ensures var after := Withdraw(book, key, user, amount).0;
            LogsOne(book, after, events) && KeepsDeposits(book, after)
    ensures forall e <- events :: e.SharesBurned?
  {
    events := Withdraw(book, key, user, amount).0.audit[|book.audit|..];
  }

  lemma StepShape(book: Book, op: Op) returns (events: seq<Event>)
    ensures LogsOne(book, Step(book, op), events) && KeepsDeposits(book, Step(book, op))
    ensures forall e <- events :: e.DepositCompleted? ==> op.CompleteOp?
  {
    hide Create, Complete, Fail, Withdraw, WriteVault, Interrupted;
    match op
    case CreateOp(orderId, client, user, currency, amount) =>
      events := CreateShape(book, orderId, client, user, currency, amount);
    case CompleteOp(orderId) => events := CompleteShape(book, orderId);
    case FailOp(orderId) => events := FailShape(book, orderId);
    case WriteOp(key, writer) =>
      WriterKeepsRest(book, key, writer);
      events := [];
    case WithdrawOp(key, user, amount) => events := WithdrawShape(book, key, user, amount);
    case InterruptedOp(call, reached) =>
      InterruptedShape(book, call, reached);
      events := [];
  }

  lemma InterruptedShape(book: Book, call: Call, reached: nat)
    ensures Interrupted(book, call, reached).audit == book.audit
    ensures KeepsDeposits(book, Interrupted(book, call, reached))
  {
  }

  /** How one step changes the mint counts. */
  lemma MintsAfter(book: Book, after: Book, events: seq<Event>, id: string)
    requires LogsOne(book, after, events)
    ensures Mints(after, id) == Mints(book, id)
              + if |events| == 1 && events[0].DepositCompleted? && events[0].orderId == id then 1 else 0
  {
    if events == [] {
      assert after.audit == book.audit;
    } else {
      assert events == [events[0]];
      Logged(book.audit, events[0]);
    }
  }

  lemma StepMintsAtMostOnce(book: Book, op: Op)
    requires MintsAtMostOnce(book)
    ensures MintsAtMostOnce(Step(book, op))
  {
    var after := Step(book, op);
    var events := StepShape(book, op);
    forall id
      ensures Mints(after, id) <= 1
              && (id !in after.deposits || after.deposits[id].status == Pending ==> Mints(after, id) == 0)
    {
      MintsAfter(book, after, events, id);
      assert Mints(book, id) <= 1;
      if |events| == 1 && events[0].DepositCompleted? { assert events[0] in events; }
    }
  }

  lemma StepKeepsFinalStatus(book: Book, op: Op)
    requires FailsOnlyPending(book, op)
    ensures forall id <- book.deposits :: id in Step(book, op).deposits
              && (book.deposits[id].status != Pending ==> Step(book, op).deposits[id] == book.deposits[id])
  {
  }

  /** With matching books a completion that starts also mints. */
  lemma CompleteMints(book: Book, orderId: string)
    requires PendingMatches(book) && orderId in book.deposits && book.deposits[orderId].status == Pending
    ensures var after := Complete(book, orderId).0;
            after.deposits == Mark(book, orderId, Completed).deposits
            && exists e: Event :: e.DepositCompleted? && e.orderId == orderId && after.audit == book.audit + [e]
  {
    PendingIsCovered(book, orderId);
    var after := Complete(book, orderId).0;
    var key := KeyOf(book.deposits[orderId]);
    var shares := CalculateShares(book.deposits[orderId].amount, book.vaults[key].row.currentIndex).shares;
    assert after.audit == book.audit + [DepositCompleted(orderId, key, shares)];
  }

  lemma CompleteKeepsMints(book: Book, orderId: string)
    requires PendingMatches(book) && MintsAtMostOnce(book) && MintsWhenCompleted(book)
    ensures MintsWhenCompleted(Complete(book, orderId).0)
  {
    if orderId in book.deposits && book.deposits[orderId].status == Pending {
      CompleteMints(book, orderId);
      var after := Complete(book, orderId).0;
      var e: Event :| e.DepositCompleted? && e.orderId == orderId && after.audit == book.audit + [e];
      Logged(book.audit, e);
      assert Mints(book, orderId) == 0;
    }
  }

  /** Steps other than completions mint nothing. */
  lemma OtherStepsKeepMints(book: Book, op: Op)
    requires MintsAtMostOnce(book) && MintsWhenCompleted(book) && Careful(book, op) && !op.CompleteOp?
    ensures MintsWhenCompleted(Step(book, op))
  {
    var after := Step(book, op);
    var events := StepShape(book, op);
    SameCompleted(book, op);
    hide Step, Careful;
    forall id | id in after.deposits
      ensures Mints(after, id) == if after.deposits[id].status == Completed then 1 else 0
    {
      MintsAfter(book, after, events, id);
      if |events| == 1 { assert events[0] in events; }
      assert id !in book.deposits ==> Mints(book, id) == 0;
    }
  }

  lemma SameCompleted(book: Book, op: Op)
    requires Careful(book, op) && !op.CompleteOp?
    ensures forall id <- Step(book, op).deposits :: Step(book, op).deposits[id].status == Completed
              <==> id in book.deposits && book.deposits[id].status == Completed
  {
  }

  /** Under careful use exactly the completed deposits have minted. */
  lemma StepKeepsMints(book: Book, op: Op)
    requires PendingMatches(book) && MintsAtMostOnce(book) && MintsWhenCompleted(book) && Careful(book, op)
    ensures MintsWhenCompleted(Step(book, op))
  {
    if op.CompleteOp? { CompleteKeepsMints(book, op.orderId); } else { OtherStepsKeepMints(book, op); }
  }
}

/** Runs of the deposit flow, of all that writes vaults, and of withdrawals: what they keep of the books and
    of solvency, and exactly when. */
module DepositRuns {
  import opened Numbers
  import opened Sums
  import opened VaultRows
  import opened VaultAccounting
  import opened VaultSolvency
  import opened Orders
  import opened DepositLifecycle

  // ---- solvency ----

  /** What one step adds to the debt of one vault. */
  ghost function StepDebt(book: Book, op: Op, key: VaultKey, debt: nat): nat {
    if op.WriteOp? && op.key == key && key in book.vaults
    then WriterDebt(book.vaults[key].row, Withdrawals(book, key), op.writer, debt)
    else debt
  }

  lemma PendingMovesKeepWithin(book: Book, after: Book, key: VaultKey, debt: nat)
    requires OnlyPendingMoves(book, after) && WithinAt(book, key, debt)
    ensures WithinAt(after, key, debt)
  {
    PendingMovesKeepLog(book, after);
  }

  lemma CreateKeepsWithin(book: Book, orderId: string, client: string, user: string, currency: string, amount: int,
                          key: VaultKey, debt: nat)
    requires WithinAt(book, key, debt)
    ensures WithinAt(Create(book, orderId, client, user, currency, amount).0, key, debt)
  {
    if client in book.activeClients {
      var ready := OpenVault(book, VaultKey(client, currency));
      OpenKeepsWithin(book, VaultKey(client, currency), key, debt);
      var (after, reply) := Create(book, orderId, client, user, currency, amount);
      if reply == Done {
        assert after.audit == ready.audit + [DepositCreated(orderId)];
        PendingMovesKeepWithin(ready, after, key, debt);
      }
    }
  }

  lemma OpenKeepsWithin(book: Book, created: VaultKey, key: VaultKey, debt: nat)
    requires WithinAt(book, key, debt)
    ensures WithinAt(OpenVault(book, created), key, debt)
  {
    var ready := OpenVault(book, created);
    assert Withdrawals(ready, key) == Withdrawals(book, key);
    if key !in book.vaults && key in ready.vaults {
      MulMono(0 - Withdrawals(ready, key), 0, PRECISION);
    }
  }

  lemma FailKeepsWithin(book: Book, orderId: string, key: VaultKey, debt: nat)
    requires WithinAt(book, key, debt)
    ensures WithinAt(Fail(book, orderId).0, key, debt)
  {
    var after := Fail(book, orderId).0;
    if after != book {
      assert after.audit == book.audit || after.audit == book.audit + [DepositFailed(orderId)];
      PendingMovesKeepWithin(book, after, key, debt);
    }
  }

  lemma CompleteKeepsWithin(book: Book, orderId: string, key: VaultKey, debt: nat)
    requires WithinAt(book, key, debt)
    ensures WithinAt(Complete(book, orderId).0, key, debt)
  {
    var (after, reply) := Complete(book, orderId);
    if reply == Done {
      var d := book.deposits[orderId];
      var row := book.vaults[KeyOf(d)].row;
      Logged(book.audit, after.audit[|book.audit|]);
      if key == KeyOf(d) {
        DepositKeepsSolvent(row.totalShares, Withdrawals(book, key), row.currentIndex, row.totalStaked, d.amount, debt);
      }
    }
  }

  lemma WithdrawKeepsWithin(book: Book, from: VaultKey, user: string, amount: nat, key: VaultKey, debt: nat)
    requires WithinAt(book, key, debt)
    ensures WithinAt(Withdraw(book, from, user, amount).0, key, debt)
  {
    var (after, reply) := Withdraw(book, from, user, amount);
    if reply == Done {
      var row, k := book.vaults[from].row, Withdrawals(book, key);
      Logged(book.audit, after.audit[|book.audit|]);
      if key == from {
        WithdrawalKeepsSolvent(row.totalShares, k, row.currentIndex, row.totalStaked, amount, debt);
        assert Withdrawals(after, key) == k + 1;
      }
    }
  }

  lemma WriteKeepsWithin(book: Book, written: VaultKey, writer: VaultWriter, key: VaultKey, debt: nat)
    requires WithinAt(book, key, debt)
    ensures WithinAt(WriteVault(book, written, writer), key, StepDebt(book, WriteOp(written, writer), key, debt))
  {
    if key == written && key in book.vaults && WrittenRow(book.vaults[key].row, writer).Some? {
      WriterKeepsWithin(book.vaults[key].row, Withdrawals(book, key), writer, debt);
    }
  }

  lemma CreatingKeepsWithin(book: Book, orderId: string, client: string, user: string, currency: string, amount: int,
                            reached: nat, key: VaultKey, debt: nat)
    requires WithinAt(book, key, debt)
    ensures WithinAt(CreatingUpTo(book, orderId, client, user, currency, amount, reached).0, key, debt)
  {
    if client in book.activeClients && reached > 0 {
      var ready := OpenVault(book, VaultKey(client, currency));
      OpenKeepsWithin(book, VaultKey(client, currency), key, debt);
      PendingMovesKeepWithin(ready, CreatingUpTo(book, orderId, client, user, currency, amount, reached).0, key, debt);
    }
  }

  lemma InterruptedKeepsWithin(book: Book, call: Call, reached: nat, key: VaultKey, debt: nat)
    requires WithinAt(book, key, debt)
    ensures WithinAt(Interrupted(book, call, reached), key, debt)
  {
    match call
    case Creating(orderId, client, user, currency, amount) =>
      CreatingKeepsWithin(book, orderId, client, user, currency, amount, reached, key, debt);
    case Completing(orderId) => CompletingKeepsWithin(book, orderId, reached, key, debt);
    case Failing(orderId) => PendingMovesKeepWithin(book, Interrupted(book, call, reached), key, debt);
  }

  lemma CompletingKeepsWithin(book: Book, orderId: string, reached: nat, key: VaultKey, debt: nat)
    requires WithinAt(book, key, debt)
    ensures WithinAt(CompletingUpTo(book, orderId, reached).0, key, debt)
  {
    if orderId in book.deposits && key == KeyOf(book.deposits[orderId]) && key in book.vaults {
      var row := book.vaults[key].row;
      var amount := book.deposits[orderId].amount;
      DepositKeepsSolvent(row.totalShares, Withdrawals(book, key), row.currentIndex, row.totalStaked, amount, debt);
      assert (row.totalStaked + amount) * PRECISION == row.totalStaked * PRECISION + amount * PRECISION;
    }
  }

  /** Every step keeps a vault solvent up to its debt: deposits, withdrawals, failures and pending moves
      leave the debt, cut short or not; writes change it as said. */
  lemma StepKeepsWithin(book: Book, op: Op, key: VaultKey, debt: nat)
    requires WithinAt(book, key, debt)
    ensures WithinAt(Step(book, op), key, StepDebt(book, op, key, debt))
  {
    hide WithinAt, WriterDebt, Create, Complete, Fail, Withdraw, WriteVault, Interrupted;
    match op
    case CreateOp(orderId, client, user, currency, amount) =>
      CreateKeepsWithin(book, orderId, client, user, currency, amount, key, debt);
    case CompleteOp(orderId) => CompleteKeepsWithin(book, orderId, key, debt);
    case FailOp(orderId) => FailKeepsWithin(book, orderId, key, debt);
    case WriteOp(written, writer) => WriteKeepsWithin(book, written, writer, key, debt);
    case WithdrawOp(from, user, amount) => WithdrawKeepsWithin(book, from, user, amount, key, debt);
    case InterruptedOp(call, reached) => InterruptedKeepsWithin(book, call, reached, key, debt);
  }

  /** From solvent books a write leaves solvent ones exactly when it is covered. */
  lemma WriteKeepsSolventExactly(book: Book, key: VaultKey, writer: VaultWriter)
    requires AllSolvent(book)
    ensures AllSolvent(WriteVault(book, key, writer)) <==> CoveredOp(book, WriteOp(key, writer))
  {
    if key in book.vaults && WrittenRow(book.vaults[key].row, writer).Some? {
      var after := WriteVault(book, key, writer);
      CoveredExactly(book.vaults[key].row, Withdrawals(book, key), writer);
      hide Covered, WrittenRow, Solvent;
      assert key in after.vaults && Withdrawals(after, key) == Withdrawals(book, key);
      assert AllSolvent(after) <==> Solvent(after.vaults[key].row, Withdrawals(book, key));
    }
  }

  /** From solvent books every step, cut short or not, leads to solvent ones exactly when what it writes is
      covered; a step other than a write always is. */
  lemma StepKeepsSolventExactly(book: Book, op: Op)
    requires AllSolvent(book)
    ensures AllSolvent(Step(book, op)) <==> CoveredOp(book, op)
  {
    if op.WriteOp? {
      WriteKeepsSolventExactly(book, op.key, op.writer);
    } else {
      hide Step;
      forall key | key in Step(book, op).vaults
        ensures Solvent(Step(book, op).vaults[key].row, Withdrawals(Step(book, op), key))
      {
        StepKeepsWithin(book, op, key, 0);
      }
    }
  }

  // ---- sound books ----

  ghost predicate Sound(book: Book) {
    && PendingMatches(book)
    && SharesMatch(book)
    && MintsAtMostOnce(book)
    && MintsWhenCompleted(book)
    && AmountsPositive(book)
    && AllSolvent(book)
  }

  /** The empty books are sound. */
  lemma StartIsSound(activeClients: set<string>)
    ensures Sound(Book(activeClients, map[], map[], []))
  {
    var book := Book(activeClients, map[], map[], []);
    forall key ensures SharesMatchAt(book, key) {}
  }

  lemma StepKeepsAmounts(book: Book, op: Op)
    requires AmountsPositive(book)
    ensures AmountsPositive(Step(book, op))
  {
  }

  lemma CarefulStepKeepsSound(book: Book, op: Op)
    requires Sound(book) && Careful(book, op)
    ensures Sound(Step(book, op))
  {
    StepKeepsPending(book, op);
    StepKeepsShares(book, op);
    StepMintsAtMostOnce(book, op);
    StepKeepsMints(book, op);
    StepKeepsAmounts(book, op);
    StepKeepsSolventExactly(book, op);
  }

  /** Failing a deposit leaves sound books exactly when it was pending, or when it had already failed or
      expired and the database refuses to take its amount again. */
  lemma FailKeepsSoundExactly(book: Book, orderId: string)
    requires Sound(book)
    ensures orderId in book.deposits ==>
              var d := book.deposits[orderId];
              (Sound(Fail(book, orderId).0)
               <==> d.status == Pending
                    || (d.status != Completed && book.vaults[KeyOf(d)].row.pendingDeposits < d.amount))
  {
    if MayFail(book, orderId) {
      CarefulStepKeepsSound(book, FailOp(orderId));
    } else {
      FailKeepsPendingExactly(book, orderId);
      FailedMintsExactly(book, orderId, Fail(book, orderId).0);
    }
  }

  /** A completed deposit that is marked failed still has its mint. */
  lemma FailedMintsExactly(book: Book, orderId: string, after: Book)
    requires MintsWhenCompleted(book) && orderId in book.deposits && orderId in after.deposits
    requires after.deposits[orderId].status == Failed
    requires after.audit == book.audit || after.audit == book.audit + [DepositFailed(orderId)]
    ensures MintsWhenCompleted(after) ==> book.deposits[orderId].status != Completed
  {
    if after.audit != book.audit { Logged(book.audit, DepositFailed(orderId)); }
    assert Mints(after, orderId) == Mints(book, orderId);
  }

  /** A creation cut short between the deposit and its pending balance spoils that balance. */
  lemma HalfCreatedBreaks(book: Book, orderId: string, client: string, user: string, currency: string, amount: int)
    requires PendingMatches(book) && client in book.activeClients && orderId !in book.deposits && amount > 0
    ensures !PendingMatches(CreatingUpTo(book, orderId, client, user, currency, amount, 2).0)
  {
    var key := VaultKey(client, currency);
    var ready, after := OpenVault(book, key), CreatingUpTo(book, orderId, client, user, currency, amount, 2).0;
    OpenKeepsPending(book, key);
    PendingAfter(ready, orderId, Deposit(client, user, currency, amount, Pending), key);
    assert after.vaults[key] == ready.vaults[key];
  }

  /** A completion cut short after its first write leaves a completed deposit without a mint. */
  lemma HalfCompletedBreaks(book: Book, orderId: string, reached: nat)
    requires Sound(book) && orderId in book.deposits && book.deposits[orderId].status == Pending && reached > 0
    ensures !MintsWhenCompleted(CompletingUpTo(book, orderId, reached).0)
  {
    var after := CompletingUpTo(book, orderId, reached).0;
    PendingIsCovered(book, orderId);
    assert after.audit == book.audit;
    assert after.deposits[orderId].status == Completed;
    assert Mints(after, orderId) == Mints(book, orderId) == 0;
  }

  /** A failure cut short after its first write leaves the amount of a pending deposit in the balance. */
  lemma HalfFailedBreaks(book: Book, orderId: string)
    requires PendingMatches(book) && AmountsPositive(book)
    requires orderId in book.deposits && book.deposits[orderId].status == Pending
    ensures !PendingMatches(Mark(book, orderId, Failed))
  {
    var d := book.deposits[orderId];
    PendingAfter(book, orderId, d.(status := Failed), KeyOf(d));
    assert KeyOf(d) in book.vaults;
  }

  lemma FailingCutExactly(book: Book, orderId: string, reached: nat)
    requires Sound(book) && !MayCut(book, Failing(orderId), reached)
    ensures !Sound(FailingUpTo(book, orderId, reached).0)
  {
    var after := FailingUpTo(book, orderId, reached).0;
    FailedMintsExactly(book, orderId, after);
    if book.deposits[orderId].status != Completed {
      if reached == 1 {
        HalfFailedBreaks(book, orderId);
      } else {
        FailKeepsPendingExactly(book, orderId);
        SamePending(after, Fail(book, orderId).0);
      }
    }
  }

  /** A call that the database cuts short leaves sound books exactly when it is cut where it may be. */
  lemma InterruptedExactly(book: Book, call: Call, reached: nat)
    requires Sound(book)
    ensures Sound(Interrupted(book, call, reached)) <==> MayCut(book, call, reached)
  {
    if MayCut(book, call, reached) {
      CarefulStepKeepsSound(book, InterruptedOp(call, reached));
    } else {
      match call
      case Creating(orderId, client, user, currency, amount) =>
        HalfCreatedBreaks(book, orderId, client, user, currency, amount);
      case Completing(orderId) => HalfCompletedBreaks(book, orderId, reached);
      case Failing(orderId) => FailingCutExactly(book, orderId, reached);
    }
  }

  /** From sound books every step leads to sound ones exactly when it is careful. */
  lemma StepKeepsSoundExactly(book: Book, op: Op)
    requires Sound(book)
    ensures Sound(Step(book, op)) <==> Careful(book, op)
  {
    if Careful(book, op) {
      CarefulStepKeepsSound(book, op);
    } else if op.FailOp? {
      FailKeepsSoundExactly(book, op.orderId);
    } else if op.InterruptedOp? {
      InterruptedExactly(book, op.call, op.reached);
    } else {
      StepKeepsSolventExactly(book, op);
    }
  }

  // ---- whole runs ----

  /** In every state a careful run reaches, pending balances, shares and mints agree, and every vault
      is solvent up to one share per withdrawal. */
  lemma {:induction false} RunKeepsBooksSound(book: Book, ops: seq<Op>)
    requires Sound(book) && CarefulRun(book, ops)
    ensures Sound(Run(book, ops))
  {
    if ops != [] {
      RunKeepsBooksSound(book, ops[..|ops| - 1]);
      hide Sound, Careful, Step;
      CarefulStepKeepsSound(Run(book, ops[..|ops| - 1]), ops[|ops| - 1]);
    }
  }

  ghost predicate SoundThroughout(book: Book, ops: seq<Op>) {
    Sound(Run(book, ops)) && (ops == [] || SoundThroughout(book, ops[..|ops| - 1]))
  }

  /** The books are sound after every step of a run exactly when every step of it is careful. */
  lemma {:induction false} SoundThroughoutExactly(book: Book, ops: seq<Op>)
    requires Sound(book)
    ensures SoundThroughout(book, ops) <==> CarefulRun(book, ops)
  {
    if ops != [] {
      var prefix := ops[..|ops| - 1];
      SoundThroughoutExactly(book, prefix);
      hide Sound, Careful, Step;
      if SoundThroughout(book, prefix) { StepKeepsSoundExactly(Run(book, prefix), ops[|ops| - 1]); }
    }
  }

  /** However carelessly deposits are failed and vaults written, and wherever calls are cut short, what
      users hold adds up to the total shares, and no deposit mints twice. */
  lemma {:induction false} AnyRunKeepsHolders(book: Book, ops: seq<Op>)
    requires HoldersMatch(book) && MintsAtMostOnce(book)
    ensures HoldersMatch(Run(book, ops)) && MintsAtMostOnce(Run(book, ops))
  {
    if ops != [] {
      AnyRunKeepsHolders(book, ops[..|ops| - 1]);
      StepKeepsHolders(Run(book, ops[..|ops| - 1]), ops[|ops| - 1]);
      StepMintsAtMostOnce(Run(book, ops[..|ops| - 1]), ops[|ops| - 1]);
    }
  }

  /** As long as no completion is cut short, shares also match what was minted and burned. */
  lemma {:induction false} AnyRunKeepsShares(book: Book, ops: seq<Op>)
    requires SharesMatch(book)
    requires forall op <- ops :: !(op.InterruptedOp? && op.call.Completing?)
    ensures SharesMatch(Run(book, ops))
  {
    if ops != [] {
      assert ops[|ops| - 1] in ops;
      assert forall op <- ops[..|ops| - 1] :: op in ops;
      AnyRunKeepsShares(book, ops[..|ops| - 1]);
      StepKeepsShares(Run(book, ops[..|ops| - 1]), ops[|ops| - 1]);
    }
  }

  /** The debt a run's writes have left on one vault. */
  ghost function RunDebt(book: Book, ops: seq<Op>, key: VaultKey): nat {
    if ops == [] then 0
    else StepDebt(Run(book, ops[..|ops| - 1]), ops[|ops| - 1], key, RunDebt(book, ops[..|ops| - 1], key))
  }

  /** Over every run, with everything that writes an index or a stake, deposits failed carelessly, vaults
      read as empty and calls cut short, a vault that started solvent is solvent up to one share a
      withdrawal and the debt of its writes. */
  lemma {:induction false} RunWithinDebt(book: Book, ops: seq<Op>, key: VaultKey)
    requires WithinAt(book, key, 0)
    ensures WithinAt(Run(book, ops), key, RunDebt(book, ops, key))
  {
    if ops != [] {
      hide WithinAt, StepDebt;
      RunWithinDebt(book, ops[..|ops| - 1], key);
      StepKeepsWithin(Run(book, ops[..|ops| - 1]), ops[|ops| - 1], key, RunDebt(book, ops[..|ops| - 1], key));
    }
  }

  /** Vaults are written only from balances that are not read as empty, and by yield added to the stake. */
  ghost predicate FundedWrites(ops: seq<Op>) {
    forall k :: 0 <= k < |ops| && ops[k].WriteOp? ==>
      (ops[k].writer.FromBalance? && ops[k].writer.reading > 0) || ops[k].writer.FromAddedYield?
  }

  /** The production path of the updater and entered yield leave no debt. */
  lemma {:induction false} FundedWritesOweNothing(book: Book, ops: seq<Op>, key: VaultKey)
    requires FundedWrites(ops)
    ensures RunDebt(book, ops, key) == 0
  {
    if ops != [] {
      FundedWritesOweNothing(book, ops[..|ops| - 1], key);
      var before := Run(book, ops[..|ops| - 1]);
      hide Run, WriterDebt, Withdrawals;
      if ops[|ops| - 1].WriteOp? && key in before.vaults {
        FundedWriteOwesNothing(before.vaults[key].row, Withdrawals(before, key), ops[|ops| - 1].writer);
      }
    }
  }

  lemma FundedWriteOwesNothing(row: VaultRow, withdrawals: nat, writer: VaultWriter)
    requires (writer.FromBalance? && writer.reading > 0) || writer.FromAddedYield?
    ensures WriterDebt(row, withdrawals, writer, 0) == 0
  {
    hide WrittenRow;
  }

  /** A deposit that left the pending state keeps its final status for the rest of a run that fails only
      pending deposits. */
  lemma {:induction false} StatusIsFinal(book: Book, ops: seq<Op>, orderId: string)
    requires PendingFailsRun(book, ops)
    requires orderId in book.deposits && book.deposits[orderId].status != Pending
    ensures orderId in Run(book, ops).deposits && Run(book, ops).deposits[orderId] == book.deposits[orderId]
  {
    if ops != [] {
      StatusIsFinal(book, ops[..|ops| - 1], orderId);
      StepKeepsFinalStatus(Run(book, ops[..|ops| - 1]), ops[|ops| - 1]);
    }
  }

  // ---- what users may be shown ----

  ghost function ValueAt(index: nat): nat -> nat { (shares: nat) => CalculateValueFromShares(shares, index) }

  /** All holders together are shown at most the stake, plus one share's worth per withdrawal and the
      debt of the vault's writes. */
  lemma ClaimsBounded(book: Book, key: VaultKey, debt: nat)
    requires HoldersMatch(book) && WithinAt(book, key, debt) && key in book.vaults
    ensures var account := book.vaults[key];
            Total(account.holders, ValueAt(account.row.currentIndex)) * PRECISION
            <= account.row.totalStaked * PRECISION + Withdrawals(book, key) * account.row.currentIndex + debt
  {
    var account := book.vaults[key];
    hide ValueAt;
    ValuesOfShares(account.holders, account.row.currentIndex);
    CoveredValues(Total(account.holders, ValueAt(account.row.currentIndex)), account.row.totalShares,
      Withdrawals(book, key), account.row.currentIndex, account.row.totalStaked, debt);
  }

  /** So it is after every run from the empty books. */
  lemma RunClaimsBounded(activeClients: set<string>, ops: seq<Op>, key: VaultKey)
    requires key in Run(Book(activeClients, map[], map[], []), ops).vaults
    ensures var start := Book(activeClients, map[], map[], []);
            var book := Run(start, ops);
            var account := book.vaults[key];
            Total(account.holders, ValueAt(account.row.currentIndex)) * PRECISION
            <= account.row.totalStaked * PRECISION + Withdrawals(book, key) * account.row.currentIndex
               + RunDebt(start, ops, key)
  {
    var start := Book(activeClients, map[], map[], []);
    StartIsSound(activeClients);
    AnyRunKeepsHolders(start, ops);
    RunWithinDebt(start, ops, key);
    ClaimsBounded(Run(start, ops), key, RunDebt(start, ops, key));
  }

  lemma CoveredValues(values: nat, s: nat, k: nat, i: nat, t: nat, debt: nat)
    requires values * PRECISION <= s * i && (s - k) * i <= t * PRECISION + debt
    ensures values * PRECISION <= t * PRECISION + k * i + debt
  {
    assert s * i == (s - k) * i + k * i;
  }

  lemma {:induction false} ValuesOfShares(holders: map<string, nat>, index: nat)
    ensures Total(holders, ValueAt(index)) * PRECISION <= Total(holders, Itself()) * index
    decreases |holders|
  {
    if k :| k in holders {
      var others := holders - {k};
      TotalRemove(holders, k, ValueAt(index));
      TotalRemove(holders, k, Itself());
      assert others.Keys == holders.Keys - {k};
      ValuesOfShares(others, index);
      AddValue(holders[k], index, Total(others, ValueAt(index)), Total(others, Itself()),
        Total(holders, ValueAt(index)), Total(holders, Itself()));
    }
  }

  lemma AddValue(shares: nat, index: nat, values: nat, others: nat, allValues: nat, all: nat)
    requires values * PRECISION <= others * index
    requires allValues == CalculateValueFromShares(shares, index) + values && all == shares + others
    ensures allValues * PRECISION <= all * index
  {
    FloorBounds(shares * index, PRECISION);
    assert (shares + others) * index == shares * index + others * index;
  }
}

/** Runs of the books on which something one would expect fails: each from the empty books, by calls the
    use case accepts. */
module BrokenRuns {
  import opened Numbers
  import opened VaultRows
  import opened VaultAccounting
  import opened Orders
  import opened VaultSolvency
  import opened DepositLifecycle
  import opened DepositRuns

  lemma RunOneMore(book: Book, ops: seq<Op>, op: Op)
    ensures Run(book, ops + [op]) == Step(Run(book, ops), op)
  {
    assert (ops + [op])[..|ops|] == ops;
  }

  /** One active client, and a user of it. */
  ghost function Start(): Book { Book({"c"}, map[], map[], []) }

  ghost function TheVault(): VaultKey { VaultKey("c", "USD") }

  ghost function NewDeposit(orderId: string, amount: int): Op { CreateOp(orderId, "c", "u", "USD", amount) }

  lemma {:induction false} CarefulWithoutWrites(book: Book, ops: seq<Op>)
    requires forall op <- ops :: op.CreateOp? || op.CompleteOp?
    ensures CarefulRun(book, ops)
  {
    if ops != [] {
      assert ops[|ops| - 1] in ops;
      assert forall op <- ops[..|ops| - 1] :: op in ops;
      CarefulWithoutWrites(book, ops[..|ops| - 1]);
    }
  }

  /** Two deposits of which the first is completed: the books are sound. */
  ghost function TwoDeposits(): seq<Op> { [NewDeposit("d1", 2), NewDeposit("d2", 3), CompleteOp("d1")] }

  lemma TwoDepositsSound()
    ensures Sound(Run(Start(), TwoDeposits()))
    ensures var book := Run(Start(), TwoDeposits());
            "d1" in book.deposits && book.deposits["d1"] == Deposit("c", "u", "USD", 2, Completed)
            && TheVault() in book.vaults && book.vaults[TheVault()].row.pendingDeposits == 3
  {
    var ops := TwoDeposits();
    var first, second, complete := NewDeposit("d1", 2), NewDeposit("d2", 3), CompleteOp("d1");
    assert [] + [first] == [first] && [first] + [second] == [first, second] && [first, second] + [complete] == ops;
    RunOneMore(Start(), [], first);
    RunOneMore(Start(), [first], second);
    RunOneMore(Start(), [first, second], complete);
    StartIsSound({"c"});
    CarefulWithoutWrites(Start(), ops);
    RunKeepsBooksSound(Start(), ops);
    var one := Step(Start(), first);
    var two := Step(one, second);
    assert one.vaults[TheVault()].row == VaultRecord(PRECISION, 0, 2, 0, 0);
    assert two.vaults[TheVault()].row == VaultRecord(PRECISION, 0, 5, 0, 0);
  }

  /** Failing a completed deposit: its amount leaves the pending balance of another deposit. */
  lemma FailingCompletedBreaksBooks()
    ensures var ops := TwoDeposits() + [FailOp("d1")];
            !PendingMatches(Run(Start(), ops)) && !Sound(Run(Start(), ops))
  {
    var before := Run(Start(), TwoDeposits());
    TwoDepositsSound();
    RunOneMore(Start(), TwoDeposits(), FailOp("d1"));
    hide Run, Start, TwoDeposits, PendingMatches, SharesMatch, MintsAtMostOnce, MintsWhenCompleted, AllSolvent, Fail;
    FailKeepsPendingExactly(before, "d1");
  }

  /** A first deposit of n units is completed at an index of 1.0, one share a unit. */
  ghost function OneDeposit(n: nat): seq<Op> { [NewDeposit("d1", n), CompleteOp("d1")] }

  ghost function Deposited(n: nat, status: Status): map<string, Deposit> {
    map["d1" := Deposit("c", "u", "USD", n, status)]
  }

  ghost function AfterDeposit(n: nat): Book {
    Book({"c"}, Deposited(n, Completed), map[TheVault() := Account(VaultRecord(PRECISION, n, 0, n, 0), map["u" := n])],
         [DepositCreated("d1"), DepositCompleted("d1", TheVault(), n)])
  }

  lemma OneDepositCompletes(n: nat)
    requires n > 0
    ensures Run(Start(), OneDeposit(n)) == AfterDeposit(n)
    ensures Withdrawals(AfterDeposit(n), TheVault()) == 0
  {
    var create, complete := NewDeposit("d1", n), CompleteOp("d1");
    assert [] + [create] == [create] && [create] + [complete] == OneDeposit(n);
    RunOneMore(Start(), [], create);
    RunOneMore(Start(), [create], complete);
    var pending: VaultRow := VaultRecord(PRECISION, 0, n, 0, 0);
    var booked := Book({"c"}, Deposited(n, Pending), map[TheVault() := Account(pending, map[])],
      [DepositCreated("d1")]);
    assert Step(Start(), create) == booked;
    SharesAtPar(n);
    assert Step(booked, complete) == AfterDeposit(n);
    Logged([], DepositCreated("d1"));
    Logged([DepositCreated("d1")], DepositCompleted("d1", TheVault(), n));
    assert [] + [DepositCreated("d1")] == [DepositCreated("d1")];
    assert [DepositCreated("d1")] + [DepositCompleted("d1", TheVault(), n)] == AfterDeposit(n).audit;
  }

  lemma WriteOne(book: Book, key: VaultKey, writer: VaultWriter)
    requires key in book.vaults
    ensures var written := WrittenRow(book.vaults[key].row, writer);
            written.Some? ==>
              Step(book, WriteOp(key, writer)) == SetVault(book, key, book.vaults[key].(row := written.value))
  {
    hide WrittenRow;
  }

  /** The vault after the deposit of 2 units grew to 3. */
  ghost function Grown(): VaultRow { VaultRecord(1_500_000_000_000_000_000, 2, 0, 3, YIELD_UNIT) }

  lemma GrownRow()
    ensures WrittenRow(VaultRecord(PRECISION, 2, 0, 2, 0), FromValue(3)) == Some(Grown())
  {
    HalfUpUnique(PRECISION * 3, 2, 1_500_000_000_000_000_000);
  }

  /** Plain solvency S*I <= T*P is not kept: after a deposit of 2 units grew to 3, at an index of 1.5, the
      user takes 1 unit back for no share at all. */
  lemma PlainSolvencyFails()
    ensures var grown := OneDeposit(2) + [WriteOp(TheVault(), FromValue(3))];
            var book, after := Run(Start(), grown), Run(Start(), grown + [WithdrawOp(TheVault(), "u", 1)]);
            && TheVault() in book.vaults && Solvent(book.vaults[TheVault()].row, 0)
            && TheVault() in after.vaults && !Solvent(after.vaults[TheVault()].row, 0)
  {
    var write, withdraw := WriteOp(TheVault(), FromValue(3)), WithdrawOp(TheVault(), "u", 1);
    OneDepositCompletes(2);
    RunOneMore(Start(), OneDeposit(2), write);
    RunOneMore(Start(), OneDeposit(2) + [write], withdraw);
    GrownRow();
    WriteOne(AfterDeposit(2), TheVault(), FromValue(3));
    hide Run, WrittenRow;
    var book := Run(Start(), OneDeposit(2) + [write]);
    assert book.vaults[TheVault()] == Account(Grown(), map["u" := 2]);
    WithdrawsForNothing(book);
  }

  lemma WithdrawsForNothing(book: Book)
    requires TheVault() in book.vaults && book.vaults[TheVault()] == Account(Grown(), map["u" := 2])
    ensures var after := Step(book, WithdrawOp(TheVault(), "u", 1));
            TheVault() in after.vaults && after.vaults[TheVault()].row == Grown().(totalStaked := 2)
  {
    assert CalculateSharesToBurn(1, Grown().currentIndex) == Minted(0);
  }

  lemma AccruedRow()
    ensures var written := WrittenRow(VaultRecord(PRECISION, 1, 0, 1, 0), FromYield(1));
            written.Some? && !Solvent(written.value, 0)
  {
    IndexCron.AccrualIsUnfunded(VaultRecord(PRECISION, 1, 0, 1, 0), 0, 1);
  }

  /** One day's accrual of a millionth of a percent on one unit leaves a vault that owes more than it has. */
  lemma AccrualBreaksSolvency()
    ensures var after := Run(Start(), OneDeposit(1) + [WriteOp(TheVault(), FromYield(1))]);
            TheVault() in after.vaults && !Solvent(after.vaults[TheVault()].row, 0)
  {
    OneDepositCompletes(1);
    RunOneMore(Start(), OneDeposit(1), WriteOp(TheVault(), FromYield(1)));
    AccruedRow();
    WriteOne(AfterDeposit(1), TheVault(), FromYield(1));
    hide Run, WrittenRow;
  }

  lemma EmptiedRow()
    ensures var row: VaultRow := VaultRecord(PRECISION, 1, 0, 1, 0);
            WrittenRow(row, FromBalance(0)) == Some(row.(totalStaked := 0))
  {
    var row: VaultRow := VaultRecord(PRECISION, 1, 0, 1, 0);
    IndexUpdater.NoGrowthNoYield(1, PRECISION);
    IndexUpdater.YieldCountedOnce(row, 0);
  }

  /** A zero reading of a vault with shares does the same, once production vaults carry allocations. */
  lemma EmptyReadingBreaksSolvency()
    ensures var after := Run(Start(), OneDeposit(1) + [WriteOp(TheVault(), FromBalance(0))]);
            TheVault() in after.vaults && !Solvent(after.vaults[TheVault()].row, 0)
  {
    OneDepositCompletes(1);
    RunOneMore(Start(), OneDeposit(1), WriteOp(TheVault(), FromBalance(0)));
    EmptiedRow();
    WriteOne(AfterDeposit(1), TheVault(), FromBalance(0));
    hide Run, WrittenRow;
  }

  lemma RoundedUpRow()
    ensures WrittenRow(VaultRecord(PRECISION, 3, 0, 3, 0), FromValue(5))
         == Some(VaultRecord(1_666_666_666_666_666_667, 3, 0, 5, 2 * YIELD_UNIT))
  {
    HalfUpUnique(PRECISION * 5, 3, 1_666_666_666_666_666_667);
  }

  /** Three units that grew to five: the guarded update rounds the index up, and three shares claim more
      than five units. */
  lemma RoundingUpBreaksSolvency()
    ensures var after := Run(Start(), OneDeposit(3) + [WriteOp(TheVault(), FromValue(5))]);
            TheVault() in after.vaults && !Solvent(after.vaults[TheVault()].row, 0)
  {
    OneDepositCompletes(3);
    RunOneMore(Start(), OneDeposit(3), WriteOp(TheVault(), FromValue(5)));
    RoundedUpRow();
    WriteOne(AfterDeposit(3), TheVault(), FromValue(5));
    hide Run, WrittenRow;
  }

  /** The index of a sandbox vault after one day at a hundredth of a percent a day. */
  const ONE_DAY_LATER: nat := 1_000_100_000_000_000_000

  ghost function OneDay(): IndexUpdater.Run {
    IndexUpdater.Run(IndexUpdater.Sandbox(IndexUpdater.WholeDays(1), IndexUpdater.Rate(10_001, 10_000)), false, false)
  }

  lemma OneDayOfGrowth(rate: IndexUpdater.Rate)
    requires rate == IndexUpdater.Rate(10_001, 10_000)
    ensures IndexUpdater.GrownIndex(PRECISION, rate, 1) == ONE_DAY_LATER
  {
    assert Pow(10_001, 1) == 10_001 * Pow(10_001, 0) && Pow(10_000, 1) == 10_000 * Pow(10_000, 0);
  }

  lemma GrownOneUnit()
    ensures var row: VaultRow := VaultRecord(PRECISION, 1, 0, 1, 0);
            IndexUpdater.WriteUpdate(row, ONE_DAY_LATER, 1) == Some(row.(currentIndex := ONE_DAY_LATER))
  {
    IndexUpdater.DailyYieldInOneCut(1, ONE_DAY_LATER - PRECISION, PRECISION);
    assert IndexUpdater.DailyYield(1, ONE_DAY_LATER - PRECISION, PRECISION) == 0;
    hide IndexUpdater.DailyYield;
    IndexUpdater.YieldCountedOnce(VaultRecord(PRECISION, 1, 0, 1, 0), 0);
  }

  lemma GrownSandboxRow()
    ensures var row: VaultRow := VaultRecord(PRECISION, 1, 0, 1, 0);
            && IndexUpdater.LoneUpdate(row, OneDay()) == WrittenRow(row, FromGrowth(ONE_DAY_LATER))
            && WrittenRow(row, FromGrowth(ONE_DAY_LATER)) == Some(row.(currentIndex := ONE_DAY_LATER))
  {
    OneDayOfGrowth(IndexUpdater.Rate(10_001, 10_000));
    GrownOneUnit();
    hide IndexUpdater.GrownIndex, IndexUpdater.WriteUpdate;
  }

  /** One day of sandbox growth on an unchanged stake leaves a vault that owes more than it has. */
  lemma SandboxGrowthBreaksSolvency()
    ensures var after := Run(Start(), OneDeposit(1) + [WriteOp(TheVault(), FromGrowth(ONE_DAY_LATER))]);
            TheVault() in after.vaults && !Solvent(after.vaults[TheVault()].row, 0)
  {
    OneDepositCompletes(1);
    RunOneMore(Start(), OneDeposit(1), WriteOp(TheVault(), FromGrowth(ONE_DAY_LATER)));
    GrownSandboxRow();
    WriteOne(AfterDeposit(1), TheVault(), FromGrowth(ONE_DAY_LATER));
    hide Run, WrittenRow;
  }

  /** A deposit whose creation the database cuts short after inserting it is in no pending balance. */
  lemma HalfCreatedDepositBreaksBooks()
    ensures var ops := [InterruptedOp(Creating("d1", "c", "u", "USD", 2), 2)];
            !PendingMatches(Run(Start(), ops))
  {
    var op := InterruptedOp(Creating("d1", "c", "u", "USD", 2), 2);
    assert [] + [op] == [op];
    RunOneMore(Start(), [], op);
    StartIsSound({"c"});
    assert Run(Start(), []) == Start() && Step(Start(), op) == CreatingUpTo(Start(), "d1", "c", "u", "USD", 2, 2).0;
    hide PendingMatches, CreatingUpTo, Run, Step;
    HalfCreatedBreaks(Start(), "d1", "c", "u", "USD", 2);
  }

  lemma BookingOnOneShare(book: Book)
    requires book == AfterDeposit(1)
    ensures TheVault() in book.vaults
            && BookPending(book.vaults[TheVault()].row, 1).totalShares == 2
            && book.vaults[TheVault()].holders == map["u" := 1]
  {
  }

  /** One deposit booked by the dashboard on a vault with one share: it then counts two, and its users
      still hold one. */
  lemma BookingDoublesShares()
    ensures var book := Run(Start(), OneDeposit(1));
            TheVault() in book.vaults
            && BookPending(book.vaults[TheVault()].row, 1).totalShares == 2
            && book.vaults[TheVault()].holders == map["u" := 1]
  {
    OneDepositCompletes(1);
    hide Run, OneDeposit, Start, AfterDeposit, BookPending;
    BookingOnOneShare(Run(Start(), OneDeposit(1)));
  }
}

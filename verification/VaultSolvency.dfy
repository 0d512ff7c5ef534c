/** Whether a vault's stake covers its shares, and what every service that writes its index or its stake
    does to that. */
module VaultSolvency {
  import opened Numbers
  import opened VaultRows
  import opened VaultAccounting
  import opened IndexUpdater
  import GuardedIndex
  import IndexCron
  import VaultUsecase

  /** All that write a vault's index or, other than deposits and withdrawals, its stake: the updater with a
      balance read on chain or with a grown sandbox index, the guarded update with the value of its wrapped
      tokens, the daily accrual with a yield, an operator entering earned yield, and the sync with a
      balance read from the protocols. */
  datatype VaultWriter =
    | FromBalance(reading: nat)
    | FromGrowth(newIndex: nat)
    | FromValue(value: nat)
    | FromYield(microPercent: int)
    | FromAddedYield(earned: int)
    | FromSync(balance: nat)

  function WrittenRow(row: VaultRow, writer: VaultWriter): Option<VaultRow> {
    match writer
    case FromBalance(reading) => ProductionUpdate(row, reading)
    case FromGrowth(newIndex) => WriteUpdate(row, newIndex, row.totalStaked)
    case FromValue(value) =>
      (match GuardedIndex.GuardedUpdate(row, value)
       case Updated(updated) => Some(updated)
       case Refused(_) => None)
    case FromYield(microPercent) => IndexCron.Accrue(row, microPercent)
    case FromAddedYield(earned) => VaultUsecase.AddYield(row, earned)
    case FromSync(balance) => Some(VaultUsecase.SyncBalance(row, balance))
  }

  /** Every update of the updater is one of its two writes, of the figure its view gives it; it throws before
      that when its write fails, or when it should grow an index over a part of a day. */
  lemma UpdaterWrites(row: VaultRow, run: Run)
    ensures run.writeFails ==> LoneUpdate(row, run) == None
    ensures !run.writeFails ==>
              match run.view
              case OnChain(reading) => LoneUpdate(row, run) == WrittenRow(row, FromBalance(reading))
              case DatabaseBalance => LoneUpdate(row, run) == WrittenRow(row, FromBalance(row.totalStaked))
              case Sandbox(JustUpdated, _) => LoneUpdate(row, run) == WrittenRow(row, FromGrowth(row.currentIndex))
              case Sandbox(WholeDays(days), rate) =>
                LoneUpdate(row, run) == WrittenRow(row, FromGrowth(GrownIndex(row.currentIndex, rate, days)))
              case Sandbox(PartOfADay, _) => LoneUpdate(row, run) == None
  {
  }

  lemma WriterKeepsShares(row: VaultRow, writer: VaultWriter)
    ensures var written := WrittenRow(row, writer);
            written.Some? ==>
              written.value.totalShares == row.totalShares && written.value.pendingDeposits == row.pendingDeposits
  {
    hide CalculateIndexFromBalance, CumulativeYield, DailyYield, HalfUp;
  }

  /** Which figures a write sets, and to what: a reading, a value or a synced balance becomes the stake,
      entered yield is added to it, a grown index and an accrual leave it; a sync leaves the index. */
  lemma WriterSets(row: VaultRow, writer: VaultWriter)
    requires WrittenRow(row, writer).Some?
    ensures var after := WrittenRow(row, writer).value;
            && after.totalShares == row.totalShares && after.pendingDeposits == row.pendingDeposits
            && (match writer
                case FromBalance(reading) => after.totalStaked == reading
                case FromGrowth(newIndex) => after.totalStaked == row.totalStaked && after.currentIndex == newIndex
                case FromValue(value) => after.totalStaked == value
                case FromYield(_) => after.totalStaked == row.totalStaked
                case FromAddedYield(earned) => after.totalStaked == row.totalStaked + earned
                case FromSync(balance) => after.totalStaked == balance && after.currentIndex == row.currentIndex)
  {
    hide CalculateIndexFromBalance, CumulativeYield, DailyYield, HalfUp;
  }

  /** Solvency up to a debt. */
  ghost predicate SolventWithin(row: VaultRow, withdrawals: nat, debt: nat) {
    (row.totalShares - withdrawals) * row.currentIndex <= row.totalStaked * PRECISION + debt
  }

  /** The exact condition, seen before the write, under which it leaves a solvent vault solvent: the vault
      is not read as empty; a grown index, a day's gain or a rounding up fits in the slack; a synced balance
      covers the shares. Yield that is added to the stake always does. */
  ghost predicate Covered(row: VaultRow, withdrawals: nat, writer: VaultWriter) {
    var s, i := row.totalShares - withdrawals, row.currentIndex;
    var slack := row.totalStaked * PRECISION - s * i;
    match writer
    case FromBalance(reading) => reading > 0 || s <= 0
    case FromGrowth(newIndex) => s * (newIndex - i) <= slack
    case FromValue(value) => row.totalStaked > 0 ==> GuardedIndex.RoundingFits(row, value, withdrawals)
    case FromYield(microPercent) => s * (i * microPercent / HUNDRED_PERCENT) <= slack
    case FromAddedYield(_) => true
    case FromSync(balance) => s * i <= balance * PRECISION
  }

  // ---- deposits and withdrawals ----

  lemma DepositKeepsSolvent(s: nat, k: nat, i: nat, t: nat, a: nat, debt: nat)
    requires i > 0 && (s - k) * i <= t * PRECISION + debt
    ensures (s + a * PRECISION / i - k) * i <= (t + a) * PRECISION + debt
  {
    FloorBounds(a * PRECISION, i);
    var minted := a * PRECISION / i;
    assert (s + minted - k) * i == (s - k) * i + minted * i;
  }

  /** Each burn is rounded down, which costs the vault less than one share. */
  lemma WithdrawalKeepsSolvent(s: nat, k: nat, i: nat, t: nat, w: nat, debt: nat)
    requires i > 0 && (s - k) * i <= t * PRECISION + debt
    ensures (s - w * PRECISION / i - (k + 1)) * i <= (t - w) * PRECISION + debt
  {
    FloorBounds(w * PRECISION, i);
    var burned := w * PRECISION / i;
    assert (s - burned - (k + 1)) * i == (s - k) * i - burned * i - i;
  }

  // ---- index writes ----

  /** From a solvent vault an update leaves a solvent one exactly when the vault was not read as
      empty, or when withdrawals had already used up its shares. */
  lemma ReadingKeepsSolvent(row: VaultRow, k: nat, reading: nat)
    requires Solvent(row, k)
    ensures var update := ProductionUpdate(row, reading);
            update.Some? ==> (Solvent(update.value, k) <==> reading > 0 || row.totalShares <= k)
  {
    if ProductionUpdate(row, reading).None? { return; }
    var after := ProductionUpdate(row, reading).value;
    var s, j := row.totalShares - k, after.currentIndex;
    assert after.totalStaked == reading && after.totalShares == row.totalShares;
    if s <= 0 {
      MulMono(s, 0, j);
    } else if reading == 0 {
      assert s * j > 0;
    } else {
      PositiveReadingIsCovered(row, s, reading);
      hide ProductionUpdate, CalculateIndexFromBalance;
    }
  }

  lemma PositiveReadingIsCovered(row: VaultRow, s: nat, reading: nat)
    requires s * row.currentIndex <= row.totalStaked * PRECISION && s > 0 && reading > 0
    ensures s * CalculateIndexFromBalance(reading, row.totalStaked, row.currentIndex) <= reading * PRECISION
  {
    var i, t := row.currentIndex, row.totalStaked;
    if t > 0 {
      TwoStageRounding(reading, t, i);
      var j := CalculateIndexFromBalance(reading, t, i);
      hide CalculateIndexFromBalance;
      NoGrowthOfDebt(s, i, t, j, reading);
    }
  }

  /** Shares not yet used up by withdrawals. */
  function Outstanding(row: VaultRow, withdrawals: nat): nat {
    if row.totalShares > withdrawals then row.totalShares - withdrawals else 0
  }

  /** The debt a write leaves, given the debt before it. An older debt grows with the value of the vault;
      rounding up adds half an index unit a share; a grown index and a daily accrual add what the shares
      gain; reading a vault as empty adds its whole stake; a sync adds what it takes from the stake, and
      pays with what it adds. */
  function WriterDebt(row: VaultRow, withdrawals: nat, writer: VaultWriter, debt: nat): nat {
    if WrittenRow(row, writer).None? then debt else
    var t, s := row.totalStaked, Outstanding(row, withdrawals);
    match writer
    case FromBalance(reading) => if reading == 0 then debt + t * PRECISION else Grown(debt, t, reading)
    case FromGrowth(newIndex) => debt + Gained(s, newIndex - row.currentIndex)
    case FromValue(value) => Grown(debt, t, value) + RoundedUp(row, s, value)
    case FromYield(microPercent) => debt + Gained(s, row.currentIndex * microPercent / HUNDRED_PERCENT)
    case FromAddedYield(earned) => if t + earned < 0 then debt else Grown(debt, t, t + earned)
    case FromSync(balance) => Synced(debt, t, balance)
  }

  function Grown(debt: nat, staked: nat, value: nat): nat {
    if staked == 0 then debt else CeilDiv(debt * value, staked)
  }

  function Gained(shares: nat, rise: int): nat { if rise <= 0 then 0 else shares * rise }

  function RoundedUp(row: VaultRow, shares: nat, value: nat): nat {
    if row.totalStaked > 0 && GuardedIndex.RoundsUp(row, value) then CeilDiv(shares, 2) else 0
  }

  function Synced(debt: nat, staked: nat, balance: nat): nat {
    var left := debt + (staked - balance) * PRECISION;
    if left < 0 then 0 else left
  }

  lemma NothingOutstanding(row: VaultRow, after: VaultRow, k: nat, debt: nat)
    requires row.totalShares <= k && after.totalShares == row.totalShares
    ensures SolventWithin(after, k, debt)
  {
    MulMono(after.totalShares - k, 0, after.currentIndex);
  }

  lemma ProductionDebt(row: VaultRow, k: nat, reading: nat, debt: nat)
    requires SolventWithin(row, k, debt) && row.totalShares > k
    ensures WrittenRow(row, FromBalance(reading)).Some? ==>
              SolventWithin(WrittenRow(row, FromBalance(reading)).value, k,
                            WriterDebt(row, k, FromBalance(reading), debt))
  {
    if reading > 0 && row.totalStaked > 0 {
      TwoStageRounding(reading, row.totalStaked, row.currentIndex);
      GrowthKeepsSolvent(row.totalShares - k, row.currentIndex, row.totalStaked,
        CalculateIndexFromBalance(reading, row.totalStaked, row.currentIndex), reading, debt, 0);
    }
  }

  lemma GuardedDebt(row: VaultRow, k: nat, value: nat, debt: nat)
    requires SolventWithin(row, k, debt) && row.totalShares > k && WrittenRow(row, FromValue(value)).Some?
    ensures SolventWithin(WrittenRow(row, FromValue(value)).value, k, WriterDebt(row, k, FromValue(value), debt))
  {
    var s := row.totalShares - k;
    var j := HalfUp(row.currentIndex * value, row.totalStaked);
    HalfUpSteps(row.currentIndex * value, row.totalStaked);
    FloorBounds(row.currentIndex * value, row.totalStaked);
    if !GuardedIndex.RoundsUp(row, value) {
      GrowthKeepsSolvent(s, row.currentIndex, row.totalStaked, j, value, debt, 0);
    } else {
      GrowthKeepsSolvent(s, row.currentIndex, row.totalStaked, j, value, debt, 1);
    }
    hide WrittenRow, WriterDebt, SolventWithin;
    HalfOfShares(s * j, value * PRECISION + CeilDiv(debt * value, row.totalStaked), s,
      GuardedIndex.RoundsUp(row, value));
  }

  lemma HalfOfShares(x: nat, y: nat, s: nat, up: bool)
    requires 2 * x <= 2 * y + if up then s else 0
    ensures x <= y + if up then CeilDiv(s, 2) else 0
  {
  }

  lemma DailyDebt(row: VaultRow, k: nat, microPercent: int, debt: nat)
    requires SolventWithin(row, k, debt) && row.totalShares > k && WrittenRow(row, FromYield(microPercent)).Some?
    ensures SolventWithin(WrittenRow(row, FromYield(microPercent)).value, k,
                          WriterDebt(row, k, FromYield(microPercent), debt))
  {
    var s, i, gain := row.totalShares - k, row.currentIndex, row.currentIndex * microPercent / HUNDRED_PERCENT;
    IndexCron.AccruedIndex(row, microPercent);
    IndexCron.AnyYieldMovesIndex(row, microPercent);
    assert s * (i + gain) == s * i + s * gain;
    if microPercent <= 0 { MulMono(gain, 0, s); }
  }

  lemma GrowthDebt(row: VaultRow, k: nat, newIndex: nat, debt: nat)
    requires SolventWithin(row, k, debt) && row.totalShares > k
    ensures WrittenRow(row, FromGrowth(newIndex)).Some? ==>
              SolventWithin(WrittenRow(row, FromGrowth(newIndex)).value, k,
                            WriterDebt(row, k, FromGrowth(newIndex), debt))
  {
    var s, gain := row.totalShares - k, newIndex - row.currentIndex;
    assert s * newIndex == s * row.currentIndex + s * gain;
    if gain <= 0 { MulMono(gain, 0, s); }
  }

  lemma AddedYieldDebt(row: VaultRow, k: nat, earned: int, debt: nat)
    requires SolventWithin(row, k, debt) && row.totalShares > k && WrittenRow(row, FromAddedYield(earned)).Some?
    ensures SolventWithin(WrittenRow(row, FromAddedYield(earned)).value, k,
                          WriterDebt(row, k, FromAddedYield(earned), debt))
  {
    VaultUsecase.AddedYieldIsFunded(row, earned);
    var after := VaultUsecase.AddYield(row, earned).value;
    GrowthKeepsSolvent(row.totalShares - k, row.currentIndex, row.totalStaked, after.currentIndex,
      row.totalStaked + earned, debt, 0);
  }

  /** Every write leaves at most the debt said. */
  lemma WriterKeepsWithin(row: VaultRow, k: nat, writer: VaultWriter, debt: nat)
    requires SolventWithin(row, k, debt) && WrittenRow(row, writer).Some?
    ensures SolventWithin(WrittenRow(row, writer).value, k, WriterDebt(row, k, writer, debt))
  {
    if row.totalShares <= k {
      WriterKeepsShares(row, writer);
      NothingOutstanding(row, WrittenRow(row, writer).value, k, WriterDebt(row, k, writer, debt));
    } else {
      match writer
      case FromBalance(reading) => ProductionDebt(row, k, reading, debt);
      case FromValue(value) => GuardedDebt(row, k, value, debt);
      case FromYield(microPercent) => DailyDebt(row, k, microPercent, debt);
      case FromGrowth(newIndex) => GrowthDebt(row, k, newIndex, debt);
      case FromAddedYield(earned) => AddedYieldDebt(row, k, earned, debt);
      case FromSync(balance) =>
        assert (row.totalStaked - balance) * PRECISION == row.totalStaked * PRECISION - balance * PRECISION;
    }
  }

  /** From a solvent vault a write leaves a solvent one exactly when it is covered. */
  lemma CoveredExactly(row: VaultRow, k: nat, writer: VaultWriter)
    requires Solvent(row, k)
    ensures var written := WrittenRow(row, writer);
            written.Some? ==> (Solvent(written.value, k) <==> Covered(row, k, writer))
  {
    if WrittenRow(row, writer).None? { return; }
    var s := row.totalShares - k;
    match writer
    case FromBalance(reading) => ReadingKeepsSolvent(row, k, reading);
    case FromGrowth(newIndex) =>
      assert s * (newIndex - row.currentIndex) == s * newIndex - s * row.currentIndex;
    case FromValue(value) => GuardedIndex.GuardedKeepsSolventExactly(row, value, k);
    case FromYield(microPercent) => IndexCron.AccrualKeepsSolventExactly(row, k, microPercent);
    case FromAddedYield(earned) =>
      AddedYieldKeepsSolvent(row, k, earned);
    case FromSync(balance) =>
  }

  lemma AddedYieldKeepsSolvent(row: VaultRow, k: nat, earned: int)
    requires Solvent(row, k) && VaultUsecase.AddYield(row, earned).Some?
    ensures Solvent(VaultUsecase.AddYield(row, earned).value, k)
  {
    VaultUsecase.AddedYieldIsFunded(row, earned);
    var after := VaultUsecase.AddYield(row, earned).value;
    var s := row.totalShares - k;
    if s <= 0 {
      NothingOutstanding(row, after, k, 0);
    } else {
      NoGrowthOfDebt(s, row.currentIndex, row.totalStaked, after.currentIndex, row.totalStaked + earned);
    }
  }

  /** Without the one-share allowance: a withdrawal from a vault with S*I <= T*P keeps it so exactly
      when the remainder its burn drops fits in the slack. */
  lemma WithdrawalSlack(s: nat, i: nat, t: nat, w: nat)
    requires i > 0 && s * i <= t * PRECISION
    ensures (s - w * PRECISION / i) * i <= (t - w) * PRECISION
        <==> (w * PRECISION) % i <= t * PRECISION - s * i
  {
    var burned := w * PRECISION / i;
    assert w * PRECISION == burned * i + (w * PRECISION) % i;
    assert (s - burned) * i == s * i - burned * i;
    assert (t - w) * PRECISION == t * PRECISION - w * PRECISION;
  }

  // ---- the share count of the live flow ----

  /** Completing a deposit of the dashboard adds its amount to the pending balance, and hands the query the
      vault's own share count "to keep it unchanged"; but the query adds what it is handed. */
  function BookPending(row: VaultRow, amount: nat): VaultRow {
    row.(pendingDeposits := row.pendingDeposits + amount, totalShares := row.totalShares + row.totalShares)
  }

  /** What the running API does to a vault: it books deposits, marks pending funds as staked and calls the
      writers. It opens vaults without shares, and nothing of it mints any. */
  datatype LiveWrite = Booked(amount: nat) | MarkedStaked(amount: nat) | Written(writer: VaultWriter)

  function OrKept(row: VaultRow, written: Option<VaultRow>): VaultRow {
    if written.Some? then written.value else row
  }

  function AfterLiveWrite(row: VaultRow, write: LiveWrite): VaultRow {
    match write
    case Booked(amount) => BookPending(row, amount)
    case MarkedStaked(amount) => OrKept(row, MovePendingToStaked(row, amount))
    case Written(writer) => OrKept(row, WrittenRow(row, writer))
  }

  ghost function AfterLive(row: VaultRow, writes: seq<LiveWrite>): VaultRow {
    if writes == [] then row else AfterLiveWrite(AfterLive(row, writes[..|writes| - 1]), writes[|writes| - 1])
  }

  ghost function Bookings(writes: seq<LiveWrite>): nat {
    if writes == [] then 0
    else Bookings(writes[..|writes| - 1]) + if writes[|writes| - 1].Booked? then 1 else 0
  }

  lemma {:induction false} LiveSharesCount(row: VaultRow, writes: seq<LiveWrite>)
    ensures AfterLive(row, writes).totalShares == Pow2(Bookings(writes)) * row.totalShares
  {
    if writes != [] {
      var before, write := writes[..|writes| - 1], writes[|writes| - 1];
      LiveSharesCount(row, before);
      LiveStep(AfterLive(row, before), write);
      OneMoreDoubling(Bookings(before), row.totalShares);
      hide AfterLiveWrite;
    }
  }

  lemma OneMoreDoubling(n: nat, shares: nat)
    ensures Pow2(n + 1) * shares == 2 * (Pow2(n) * shares)
    ensures n > 0 && shares > 0 ==> Pow2(n) * shares > shares
  {
    if n > 0 {
      assert Pow2(n) * shares == 2 * (Pow2(n - 1) * shares);
      MulMono(1, Pow2(n - 1), shares);
    }
  }

  /** Over any run of the live flow, n booked deposits multiply the share count by 2^n and nothing else
      changes it. A vault opened by the API keeps its count of zero, and is solvent; the count is kept
      exactly when there are no shares or no deposit was booked. */
  lemma LiveSharesExactly(row: VaultRow, writes: seq<LiveWrite>)
    ensures var after := AfterLive(row, writes);
            && after.totalShares == Pow2(Bookings(writes)) * row.totalShares
            && (after.totalShares == row.totalShares <==> row.totalShares == 0 || Bookings(writes) == 0)
            && (row.totalShares == 0 ==> Solvent(after, 0))
  {
    LiveSharesCount(row, writes);
    OneMoreDoubling(Bookings(writes), row.totalShares);
    assert Pow2(0) == 1;
    hide AfterLive;
  }

  /** The amounts booked in a run. */
  ghost function BookedTotal(writes: seq<LiveWrite>): nat {
    if writes == [] then 0 else
    var write := writes[|writes| - 1];
    BookedTotal(writes[..|writes| - 1]) + if write.Booked? then write.amount else 0
  }

  /** Between two writes of an index or a stake, what is pending and what is staked together rise by exactly
      the amounts booked, and the index and the recorded yield stay. */
  lemma {:induction false} BookedAmountsStay(row: VaultRow, writes: seq<LiveWrite>)
    requires forall k :: 0 <= k < |writes| ==> !writes[k].Written?
    ensures var after := AfterLive(row, writes);
            && after.pendingDeposits + after.totalStaked
               == row.pendingDeposits + row.totalStaked + BookedTotal(writes)
            && after.currentIndex == row.currentIndex && after.cumulativeYield == row.cumulativeYield
  {
    if writes != [] { BookedAmountsStay(row, writes[..|writes| - 1]); }
  }

  lemma LiveStep(row: VaultRow, write: LiveWrite)
    ensures AfterLiveWrite(row, write).totalShares == row.totalShares + if write.Booked? then row.totalShares else 0
  {
    if write.Written? {
      hide WrittenRow;
      WriterKeepsShares(row, write.writer);
    }
  }
}

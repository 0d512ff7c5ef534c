/** The periodic job that raises vault indexes (packages/core/service/vault-index-updater.service.ts). */
module IndexUpdater {
  import opened Numbers
  import opened VaultRows
  import opened RowBatches
  import BalanceVerifier

  /** Two roundings: the growth factor to 36 places, then the index to a whole unit. */
  function CalculateIndexFromBalance(current: nat, previous: nat, index: nat): nat {
    if previous == 0 || current == 0 then index
    else index * (current * DECIMAL_36 / previous) / DECIMAL_36
  }

  /** Daily yield in units of its sixth decimal: staked * growth / index / 1e18, cut after every step. */
  function DailyYield(staked: nat, growth: int, index: nat): int
    requires index > 0
  {
    var ratio := TruncDiv(staked * growth * DECIMAL_36, index);
    var scaled := TruncDiv(ratio, PRECISION);
    TruncDiv(scaled, DECIMAL_36 / 1_000_000)
  }

  /** The yield figure handed to the query: the old total plus the new yield, cut to six decimals. */
  function CumulativeYield(row: VaultRow, daily: int): int {
    TruncDiv(row.cumulativeYield + daily * YIELD_MICRO, YIELD_MICRO) * YIELD_MICRO
  }

  function WriteUpdate(row: VaultRow, newIndex: nat, newBalance: nat): Option<VaultRow> {
    var daily := DailyYield(row.totalStaked, newIndex - row.currentIndex, row.currentIndex);
    UpdateClientVaultIndex(row, newIndex, CumulativeYield(row, daily), newBalance)
  }

  /** Production path: the index follows the balance read on chain. */
  function ProductionUpdate(row: VaultRow, reading: nat): Option<VaultRow> {
    WriteUpdate(row, CalculateIndexFromBalance(reading, row.totalStaked, row.currentIndex), reading)
  }

  /** Daily APY of the snapshot, in units of 10^-4 percent: growth over a year, cut at the fourth decimal. */
  function DailyApy(oldIndex: nat, newIndex: nat): int
    requires oldIndex > 0
  {
    TruncDiv((TruncDiv(newIndex * DECIMAL_36, oldIndex) - DECIMAL_36) * (365 * 100 * 10_000), DECIMAL_36)
  }

  /** The daily growth factor of the sandbox, a double and so a fraction. */
  datatype RateRecord = Rate(numerator: nat, denominator: nat)

  type Rate = r: RateRecord | r.denominator > 0 witness Rate(1, 1)

  /** Time since a vault's last update: under a hundredth of a day, a whole number of days, or neither.
      The growth factor is raised to that number by bignumber.js, which refuses a fractional exponent. */
  datatype Elapsed = JustUpdated | WholeDays(days: nat) | PartOfADay

  /** Sandbox path: the index grows by the daily factor, once for each day. */
  function GrownIndex(index: nat, rate: Rate, days: nat): nat {
    index * Pow(rate.numerator, days) / Pow(rate.denominator, days)
  }

  function CalculateIndexFromTimeBasedGrowth(index: nat, elapsed: Elapsed, rate: Rate): Option<nat> {
    match elapsed
    case JustUpdated => Some(index)
    case WholeDays(days) => Some(GrownIndex(index, rate, days))
    case PartOfADay => None
  }

  /** Where the new figures of one vault come from in one run. A production vault without a usable
      chain, wallet or allocation reads its own database balance. The allocations the service looks for
      (lines 208-217) are no columns of a vault row, so as written every production vault does; OnChain
      is what the service does once a row carries them. */
  datatype View =
    | OnChain(reading: nat)
    | DatabaseBalance
    | Sandbox(elapsed: Elapsed, rate: Rate)

  /** One vault's circumstances in one run: its view, and which of its two inserts fail. */
  datatype Run = Run(view: View, writeFails: bool, snapshotFails: bool)

  function LoneUpdate(row: VaultRow, run: Run): Option<VaultRow> {
    if run.writeFails then None
    else match run.view
      case OnChain(reading) => ProductionUpdate(row, reading)
      case DatabaseBalance => ProductionUpdate(row, row.totalStaked)
      case Sandbox(elapsed, rate) =>
        (match CalculateIndexFromTimeBasedGrowth(row.currentIndex, elapsed, rate)
         case Some(newIndex) => WriteUpdate(row, newIndex, row.totalStaked)
         case None => None)
  }

  /** The lone update of every vault in a run with the given circumstances. */
  function Lone(runs: string -> Run): (string, VaultRow) -> Option<VaultRow> {
    (id: string, row: VaultRow) => LoneUpdate(row, runs(id))
  }

  datatype Snapshot = Snapshot(vaultId: string, index: nat, dailyYield: int, dailyApy: int)

  class VaultIndexUpdaterService {
    var vaults: map<string, VaultRow>
    var history: seq<Snapshot>

    constructor (vaults: map<string, VaultRow>)
      ensures this.vaults == vaults && history == []
    {
      this.vaults, this.history := vaults, [];
    }

    /** A missing vault is skipped; a throw before the write changes nothing; a failing snapshot
        throws after the write. */
    method UpdateVaultIndex(vaultId: string, runs: string -> Run) returns (threw: bool)
      modifies this
      ensures vaults == UpdateOne(old(vaults), vaultId, Lone(runs))
      ensures history == old(history) + SnapshotOf(old(vaults), vaultId, runs(vaultId))
      ensures threw <==> vaultId in old(vaults) && history == old(history)
    {
      if vaultId !in vaults { return false; }
      var run := runs(vaultId);
      var vault := vaults[vaultId];
      var newIndex, newBalance := vault.currentIndex, vault.totalStaked;
      match run.view {
        case OnChain(reading) =>
          newBalance := reading;
          newIndex := CalculateIndexFromBalance(newBalance, vault.totalStaked, vault.currentIndex);
        case DatabaseBalance =>
          newIndex := CalculateIndexFromBalance(newBalance, vault.totalStaked, vault.currentIndex);
        case Sandbox(elapsed, rate) =>
          var grown := CalculateIndexFromTimeBasedGrowth(vault.currentIndex, elapsed, rate);
          if grown == None { return true; }
          newIndex := grown.value;
      }
      var daily := DailyYield(vault.totalStaked, newIndex - vault.currentIndex, vault.currentIndex);
      var written := UpdateClientVaultIndex(vault, newIndex, CumulativeYield(vault, daily), newBalance);
      if run.writeFails || written.None? { return true; }
      vaults := vaults[vaultId := written.value];
      if run.snapshotFails { return true; }
      history := history + [Snapshot(vaultId, newIndex, daily, DailyApy(vault.currentIndex, newIndex))];
      return false;
    }

    /** The batch goes on after a vault that throws; if the list itself cannot be had, it throws and
        changes nothing. */
    method UpdateAllVaultIndexes(listing: Option<seq<string>>, runs: string -> Run) returns (threw: bool)
      modifies this
      ensures threw <==> listing == None
      ensures listing == None ==> vaults == old(vaults) && history == old(history)
      ensures listing.Some? ==> vaults == UpdateEach(old(vaults), listing.value, Lone(runs))
      ensures listing.Some? ==> history == old(history) + Snapshots(old(vaults), listing.value, runs)
    {
      if listing == None { return true; }
      var listed := listing.value;
      var i := 0;
      while i < |listed|
        invariant i <= |listed|
        invariant vaults == UpdateEach(old(vaults), listed[..i], Lone(runs))
        invariant history == old(history) + Snapshots(old(vaults), listed[..i], runs)
      {
        assert listed[..i + 1][..i] == listed[..i];
        var vaultThrew := UpdateVaultIndex(listed[i], runs);
        i := i + 1;
      }
      assert listed[..i] == listed;
      return false;
    }
  }

  /** The snapshot one update adds: none if it threw before or while inserting it. */
  function SnapshotOf(vaults: map<string, VaultRow>, id: string, run: Run): seq<Snapshot> {
    if id !in vaults || LoneUpdate(vaults[id], run).None? || run.snapshotFails then []
    else
      var row, index := vaults[id], LoneUpdate(vaults[id], run).value.currentIndex;
      [Snapshot(id, index, DailyYield(row.totalStaked, index - row.currentIndex, row.currentIndex),
                DailyApy(row.currentIndex, index))]
  }

  function Snapshots(vaults: map<string, VaultRow>, listed: seq<string>, runs: string -> Run): seq<Snapshot> {
    if listed == [] then [] else
    var before, id := listed[..|listed| - 1], listed[|listed| - 1];
    Snapshots(vaults, before, runs) + SnapshotOf(UpdateEach(vaults, before, Lone(runs)), id, runs(id))
  }

  /** A listed vault ends as its lone update leaves it, whatever the others do. */
  lemma {:induction false} BatchIsolation(vaults: map<string, VaultRow>, listed: seq<string>, runs: string -> Run)
    requires Distinct(listed)
    ensures var after := UpdateEach(vaults, listed, Lone(runs));
            after.Keys == vaults.Keys
            && forall id <- vaults ::
                 after[id] == if id in listed && LoneUpdate(vaults[id], runs(id)).Some?
                              then LoneUpdate(vaults[id], runs(id)).value else vaults[id]
  {
    Isolation(vaults, listed, Lone(runs));
  }

  // ---- how far the two roundings drift ----

  /** The index after an update never exceeds the exact growth, and for any index below 10^36 it is
      the one-shot floor or one less. */
  lemma TwoStageRounding(current: nat, previous: nat, index: nat)
    requires previous > 0 && current > 0
    ensures var exact, got := index * current / previous, CalculateIndexFromBalance(current, previous, index);
            got <= exact && (index < DECIMAL_36 ==> exact - 1 <= got)
            && got * previous <= index * current
  {
    TwoStageBounds(current, previous, index, DECIMAL_36);
  }

  /** To the unit: the growth factor is floored at the 36th place and the index at whole units. An empty
      reading or record leaves the index. */
  lemma BalanceIndexExactly(current: nat, previous: nat, index: nat, factor: nat)
    requires factor * previous <= current * DECIMAL_36 < factor * previous + previous
    ensures var got := CalculateIndexFromBalance(current, previous, index);
            if current == 0 then got == index
            else got * DECIMAL_36 <= index * factor < got * DECIMAL_36 + DECIMAL_36
    ensures CalculateIndexFromBalance(current, 0, index) == index
  {
    FloorUnique(current * DECIMAL_36, previous, factor);
    FloorBounds(index * factor, DECIMAL_36);
  }

  /** And that is the index a reading writes: it follows the balance up as well as down. */
  lemma ReadingWritesIndex(row: VaultRow, reading: nat, factor: nat)
    requires factor * row.totalStaked <= reading * DECIMAL_36 < factor * row.totalStaked + row.totalStaked
    ensures ProductionUpdate(row, reading).Some? ==>
              var j := ProductionUpdate(row, reading).value.currentIndex;
              if reading == 0 then j == row.currentIndex
              else j * DECIMAL_36 <= row.currentIndex * factor < j * DECIMAL_36 + DECIMAL_36
  {
    BalanceIndexExactly(reading, row.totalStaked, row.currentIndex, factor);
    hide CalculateIndexFromBalance;
  }

  lemma TwoStageBounds(c: nat, p: nat, i: nat, e: nat)
    requires p > 0 && e > 0
    ensures var exact, got := i * c / p, i * (c * e / p) / e;
            got <= exact && got * p <= i * c && (i < e ==> exact - 1 <= got)
  {
    var q := c * e / p;
    var got, exact := i * q / e, i * c / p;
    FloorBounds(c * e, p);
    FloorBounds(i * q, e);
    FloorBounds(i * c, p);
    UpperSide(c, p, i, e, q, got);
    FloorGreatest(i * c, p, got);
    if i < e { LowerSide(c, p, i, e, q, got, exact); }
  }

  lemma UpperSide(c: nat, p: nat, i: nat, e: nat, q: nat, got: nat)
    requires p > 0 && e > 0 && q * p <= c * e && got * e <= i * q
    ensures got * p <= i * c
  {
    MulMono(q * p, c * e, i);
    MulMono(got * e, i * q, p);
    assert (i * q) * p == (q * p) * i;
    assert (got * e) * p == (got * p) * e;
    assert (c * e) * i == (i * c) * e;
    MulCancel(got * p, i * c, e);
  }

  lemma LowerSide(c: nat, p: nat, i: nat, e: nat, q: nat, got: nat, exact: nat)
    requires p > 0 && i < e
    requires c * e < q * p + p && i * q < got * e + e && exact * p <= i * c
    ensures exact <= got + 1
  {
    ScaleDown(c, p, i, e, q, exact);
    assert (got + 2) * e == got * e + e + e;
    MulCancelStrict(exact, got + 2, e);
  }

  lemma ScaleDown(c: nat, p: nat, i: nat, e: nat, q: nat, exact: nat)
    requires p > 0 && c * e < q * p + p && exact * p <= i * c
    ensures exact * e <= i * q + i
  {
    assert (exact * p) * e == (exact * e) * p;
    MulMono(exact * p, i * c, e);
    assert (i * c) * e == (c * e) * i;
    MulMono(c * e, q * p + p, i);
    assert (q * p + p) * i == (i * q + i) * p;
    MulCancel(exact * e, i * q + i, p);
  }

  /** The table after production updates with the given readings, rejected ones changing nothing. */
  ghost function AfterReadings(row: VaultRow, readings: seq<nat>): VaultRow {
    if readings == [] then row else
    var before := AfterReadings(row, readings[..|readings| - 1]);
    var update := ProductionUpdate(before, readings[|readings| - 1]);
    if update.Some? then update.value else before
  }

  /** Over any run of positive readings the index never outgrows the balance: I_n * V_0 <= I_0 * V_n. */
  lemma {:induction false} IndexNeverOutgrowsBalance(row: VaultRow, readings: seq<nat>)
    requires forall k :: 0 <= k < |readings| ==> readings[k] > 0
    ensures var after := AfterReadings(row, readings);
            after.currentIndex * row.totalStaked <= row.currentIndex * after.totalStaked
            && (row.totalStaked > 0 ==> after.totalStaked > 0)
  {
    if readings != [] {
      var prefix, reading := readings[..|readings| - 1], readings[|readings| - 1];
      IndexNeverOutgrowsBalance(row, prefix);
      var before := AfterReadings(row, prefix);
      if ProductionUpdate(before, reading).Some? {
        UpdateKeepsRatio(row.currentIndex, row.totalStaked, before, reading);
      }
      hide ProductionUpdate;
    }
  }

  lemma UpdateKeepsRatio(i0: nat, v0: nat, row: VaultRow, reading: nat)
    requires reading > 0 && row.currentIndex * v0 <= i0 * row.totalStaked && (v0 > 0 ==> row.totalStaked > 0)
    ensures var update := ProductionUpdate(row, reading);
            update.Some? ==>
              update.value.currentIndex * v0 <= i0 * update.value.totalStaked && update.value.totalStaked > 0
  {
    if v0 > 0 {
      TwoStageRounding(reading, row.totalStaked, row.currentIndex);
      ChainRatios(i0, v0, row.currentIndex, row.totalStaked,
        CalculateIndexFromBalance(reading, row.totalStaked, row.currentIndex), reading);
    }
  }

  lemma ChainRatios(i0: nat, v0: nat, i1: nat, v1: nat, i2: nat, v2: nat)
    requires v1 > 0 && i1 * v0 <= i0 * v1 && i2 * v1 <= i1 * v2
    ensures i2 * v0 <= i0 * v2
  {
    MulMono(i2 * v1, i1 * v2, v0);
    MulMono(i1 * v0, i0 * v1, v2);
    assert (i2 * v1) * v0 == (i2 * v0) * v1;
    assert (i1 * v2) * v0 == (i1 * v0) * v2;
    assert (i0 * v1) * v2 == (i0 * v2) * v1;
    MulCancel(i2 * v0, i0 * v2, v1);
  }

  /** The verifier's own formula differs exactly when a nonzero vault is read as empty. */
  lemma AgreesWithVerifier(current: nat, previous: nat, index: nat)
    requires index > 0
    ensures CalculateIndexFromBalance(current, previous, index)
         == BalanceVerifier.CalculateIndexGrowth(current, previous, index)
        <==> current != 0 || previous == 0
  {
    if current == 0 && previous > 0 {
      FloorUnique(0, previous, 0);
      FloorUnique(0, DECIMAL_36, 0);
    }
  }

  /** A reading no larger than the recorded balance keeps the index exactly when nothing is missing
      or nothing was read at all: one failed read among several drops it. */
  lemma MissingReadDropsIndex(reading: nat, staked: nat, index: nat)
    requires reading <= staked && index > 0
    ensures CalculateIndexFromBalance(reading, staked, index) <= index
    ensures CalculateIndexFromBalance(reading, staked, index) == index <==> reading == staked || reading == 0
  {
    if staked > 0 && reading > 0 {
      var got := CalculateIndexFromBalance(reading, staked, index);
      TwoStageRounding(reading, staked, index);
      if reading == staked {
        FloorUnique(reading * DECIMAL_36, staked, DECIMAL_36);
        FloorUnique(index * DECIMAL_36, DECIMAL_36, index);
      } else {
        if got >= index {
          MulMono(index, got, staked);
          MulMono(reading + 1, staked, index);
        }
      }
    }
  }

  /** A reading that is not below the record is always written. */
  lemma ReadingIsWritten(row: VaultRow, reading: nat)
    requires reading >= row.totalStaked
    ensures ProductionUpdate(row, reading).Some?
    ensures ProductionUpdate(row, reading).value.currentIndex >= row.currentIndex
    ensures ProductionUpdate(row, reading).value.totalStaked == reading
  {
    var newIndex := CalculateIndexFromBalance(reading, row.totalStaked, row.currentIndex);
    IndexNotBelow(row, reading);
    hide CalculateIndexFromBalance;
    WriteAtLeast(row, newIndex, reading);
  }

  lemma IndexNotBelow(row: VaultRow, reading: nat)
    requires reading >= row.totalStaked
    ensures CalculateIndexFromBalance(reading, row.totalStaked, row.currentIndex) >= row.currentIndex
  {
    var t, i := row.totalStaked, row.currentIndex;
    if t > 0 {
      MulMono(t, reading, DECIMAL_36);
      FloorGreatest(reading * DECIMAL_36, t, DECIMAL_36);
      MulMono(DECIMAL_36, reading * DECIMAL_36 / t, i);
      FloorGreatest(i * (reading * DECIMAL_36 / t), DECIMAL_36, i);
    }
  }

  /** The APY of a snapshot is the growth over the old index, times 365 days and 100 percent, to four decimals:
      it differs from that by less than one unit of the fourth decimal and what the 36th place hides. */
  lemma DailyApyNear(oldIndex: nat, newIndex: nat)
    requires oldIndex > 0
    ensures var miss := (newIndex - oldIndex) * 365_000_000 - DailyApy(oldIndex, newIndex) * oldIndex;
            && -((DECIMAL_36 + 365_000_000) * oldIndex) < miss * DECIMAL_36
            && miss * DECIMAL_36 < (DECIMAL_36 + 365_000_000) * oldIndex
  {
    var q := newIndex * DECIMAL_36 / oldIndex;
    FloorBounds(newIndex * DECIMAL_36, oldIndex);
    var scaled := (q - DECIMAL_36) * 365_000_000;
    var apy := TruncDiv(scaled, DECIMAL_36);
    assert TruncDiv(newIndex * DECIMAL_36, oldIndex) == q;
    assert DailyApy(oldIndex, newIndex) == apy;
    assert apy * DECIMAL_36 - DECIMAL_36 < scaled < apy * DECIMAL_36 + DECIMAL_36;
    hide DailyApy, TruncDiv;
    ApyMiss(oldIndex, newIndex, q, apy, DECIMAL_36, 365_000_000);
  }

  lemma ApyMiss(before: nat, after: nat, q: nat, apy: int, e: nat, k: nat)
    requires before > 0 && e > 0 && k > 0 && q * before <= after * e < q * before + before
    requires apy * e - e < (q - e) * k < apy * e + e
    ensures var miss := (after - before) * k - apy * before;
            -((e + k) * before) < miss * e < (e + k) * before
  {
    var growth, scaled := (after - before) * e, (q - e) * k;
    assert (q - e) * before <= growth < (q - e) * before + before by {
      assert (q - e) * before == q * before - e * before;
    }
    MulMono((q - e) * before, growth, k);
    MulMono(growth + 1, (q - e) * before + before, k);
    MulMono(apy * e - e + 1, scaled, before);
    MulMono(scaled + 1, apy * e + e, before);
    ApyTerms(before, after, q, apy, e, k);
  }

  lemma ApyTerms(before: nat, after: nat, q: nat, apy: int, e: nat, k: nat)
    ensures ((after - before) * k - apy * before) * e == ((after - before) * e) * k - (apy * e) * before
    ensures ((q - e) * before) * k == ((q - e) * k) * before
    ensures ((q - e) * before + before) * k == ((q - e) * k) * before + k * before
    ensures ((after - before) * e + 1) * k == ((after - before) * e) * k + k
    ensures (apy * e - e + 1) * before == (apy * e) * before - e * before + before
    ensures (apy * e + e) * before == (apy * e) * before + e * before
    ensures ((q - e) * k + 1) * before == ((q - e) * k) * before + before
    ensures (e + k) * before == e * before + k * before
  {
  }

  /** What a run records of a vault: nothing if it threw before or while inserting; otherwise the index it
      wrote, the yield of the old stake at the growth of the index, and the APY of that growth. */
  lemma SnapshotExactly(vaults: map<string, VaultRow>, id: string, run: Run)
    ensures var taken := SnapshotOf(vaults, id, run);
            && (taken != [] <==> id in vaults && LoneUpdate(vaults[id], run).Some? && !run.snapshotFails)
            && (taken != [] ==>
                  && |taken| == 1 && taken[0].vaultId == id
                  && var was, done := vaults[id], LoneUpdate(vaults[id], run).value;
                     && taken[0].index == done.currentIndex
                     && NearYield(taken[0].dailyYield, was, done)
                     && NearApy(taken[0].dailyApy, was, done))
  {
    if id in vaults && LoneUpdate(vaults[id], run).Some? && !run.snapshotFails {
      var was, done := vaults[id], LoneUpdate(vaults[id], run).value;
      hide LoneUpdate, DailyYield, DailyApy;
      NearYieldHolds(was, done);
      DailyApyNear(was.currentIndex, done.currentIndex);
    }
  }

  /** Units of the sixth decimal of stake times growth of the index over the index, over 1e18. */
  ghost predicate NearYield(daily: int, was: VaultRow, done: VaultRow) {
    var gain, unit := was.totalStaked * (done.currentIndex - was.currentIndex), was.currentIndex * 1_000_000_000_000;
    && daily * unit - unit < gain < daily * unit + unit
    && (daily > 0 ==> daily * unit <= gain) && (daily < 0 ==> gain <= daily * unit)
  }

  ghost predicate NearApy(apy: int, was: VaultRow, done: VaultRow) {
    var miss := (done.currentIndex - was.currentIndex) * 365_000_000 - apy * was.currentIndex;
    && -((DECIMAL_36 + 365_000_000) * was.currentIndex) < miss * DECIMAL_36
    && miss * DECIMAL_36 < (DECIMAL_36 + 365_000_000) * was.currentIndex
  }

  lemma NearYieldHolds(was: VaultRow, done: VaultRow)
    ensures NearYield(DailyYield(was.totalStaked, done.currentIndex - was.currentIndex, was.currentIndex), was, done)
  {
    DailyYieldInOneCut(was.totalStaked, done.currentIndex - was.currentIndex, was.currentIndex);
    hide DailyYield;
  }

  // ---- sandbox growth ----

  /** Two updates after n and m days never give more than one after n + m, and less than one unit and one
      growth of m days less. */
  lemma SandboxSplits(index: nat, rate: Rate, n: nat, m: nat)
    ensures var once, twice := GrownIndex(index, rate, n + m), GrownIndex(GrownIndex(index, rate, n), rate, m);
            twice <= once
            && (once - twice - 1) * Pow(rate.denominator, m) < Pow(rate.numerator, m)
  {
    PowAdd(rate.numerator, n, m);
    PowAdd(rate.denominator, n, m);
    TwoGrowths(index, Pow(rate.numerator, n), Pow(rate.denominator, n),
      Pow(rate.numerator, m), Pow(rate.denominator, m));
  }

  lemma TwoGrowths(i: nat, a: nat, p: nat, b: nat, q: nat)
    requires p > 0 && q > 0
    ensures p * q > 0
    ensures var once, twice := i * (a * b) / (p * q), (i * a / p) * b / q;
            twice <= once && (once - twice - 1) * q < b
  {
    assert p * q > 0;
    var x := i * a / p;
    var once, twice := i * (a * b) / (p * q), x * b / q;
    FloorBounds(i * a, p);
    FloorBounds(x * b, q);
    FloorBounds(i * (a * b), p * q);
    FirstBelow(i, a, p, b, q, x, twice);
    FloorGreatest(i * (a * b), p * q, twice);
    SecondNear(i, a, p, b, q, x, twice, once);
  }

  lemma FirstBelow(i: nat, a: nat, p: nat, b: nat, q: nat, x: nat, twice: nat)
    requires x * p <= i * a && twice * q <= x * b
    ensures twice * (p * q) <= i * (a * b)
  {
    MulMono(twice * q, x * b, p);
    MulMono(x * p, i * a, b);
    assert (twice * q) * p == twice * (p * q);
    assert (x * b) * p == (x * p) * b;
    assert (i * a) * b == i * (a * b);
  }

  lemma SecondNear(i: nat, a: nat, p: nat, b: nat, q: nat, x: nat, twice: nat, once: nat)
    requires p > 0 && i * a < x * p + p && x * b < twice * q + q && once * (p * q) <= i * (a * b)
    ensures (once - twice - 1) * q < b
  {
    // once*p*q <= i*a*b <= (x+1)*p*b, hence once*q <= x*b + b < twice*q + q + b
    MulMono(i * a, x * p + p, b);
    assert (i * a) * b == i * (a * b);
    assert (x * p + p) * b == (x * b + b) * p;
    assert once * (p * q) == (once * q) * p;
    MulCancel(once * q, x * b + b, p);
    assert (once - twice - 1) * q == once * q - twice * q - q;
  }

  /** One day multiplies the index by the daily factor, floored, and no day leaves it. With SandboxSplits this
      says what any number of days does. */
  lemma SandboxOneDay(index: nat, rate: Rate)
    ensures var grown := GrownIndex(index, rate, 1);
            grown * rate.denominator <= index * rate.numerator < (grown + 1) * rate.denominator
    ensures GrownIndex(index, rate, 0) == index
  {
    assert Pow(rate.numerator, 0) == 1 && Pow(rate.denominator, 0) == 1;
    assert Pow(rate.numerator, 1) == rate.numerator * 1 && Pow(rate.denominator, 1) == rate.denominator * 1;
    FloorBounds(index * rate.numerator, rate.denominator);
  }

  /** A growth factor of at least one never lowers the index. */
  lemma SandboxNeverFalls(index: nat, rate: Rate, days: nat)
    requires rate.numerator >= rate.denominator
    ensures GrownIndex(index, rate, days) >= index
  {
    PowMono(rate.denominator, rate.numerator, days);
    MulMono(Pow(rate.denominator, days), Pow(rate.numerator, days), index);
    FloorGreatest(index * Pow(rate.numerator, days), Pow(rate.denominator, days), index);
  }

  /** A sandbox vault is updated at all exactly when its last update was just now or a whole number of
      days ago. */
  lemma SandboxUpdatesExactly(row: VaultRow, elapsed: Elapsed, rate: Rate, snapshotFails: bool)
    requires rate.numerator >= rate.denominator
    ensures LoneUpdate(row, Run(Sandbox(elapsed, rate), false, snapshotFails)).Some? <==> !elapsed.PartOfADay?
  {
    match elapsed
    case JustUpdated => WriteAtLeast(row, row.currentIndex, row.totalStaked);
    case WholeDays(days) =>
      SandboxNeverFalls(row.currentIndex, rate, days);
      WriteAtLeast(row, GrownIndex(row.currentIndex, rate, days), row.totalStaked);
    case PartOfADay =>
  }

  lemma WriteAtLeast(row: VaultRow, index: nat, staked: nat)
    requires index >= row.currentIndex
    ensures WriteUpdate(row, index, staked).Some?
  {
    DailyYieldInOneCut(row.totalStaked, index - row.currentIndex, row.currentIndex);
    var daily := DailyYield(row.totalStaked, index - row.currentIndex, row.currentIndex);
    assert row.totalStaked * (index - row.currentIndex) >= 0;
    assert daily >= 0;
    assert row.cumulativeYield + daily * YIELD_MICRO >= 0;
  }

  // ---- the yield column ----

  /** Adding the old total again: the column is raised by the new yield alone exactly when it held less
      than one unit of the sixth decimal before a gain, or nothing before a loss. */
  lemma YieldCountedOnce(row: VaultRow, daily: int)
    ensures CumulativeYield(row, daily) == daily * YIELD_MICRO
       <==> (if daily >= 0 then row.cumulativeYield < YIELD_MICRO else row.cumulativeYield == 0)
    ensures row.cumulativeYield + daily * YIELD_MICRO >= 0 ==>
              CumulativeYield(row, daily) == daily * YIELD_MICRO + row.cumulativeYield / YIELD_MICRO * YIELD_MICRO
  {
    var c, q := row.cumulativeYield, row.cumulativeYield / YIELD_MICRO;
    FloorBounds(c, YIELD_MICRO);
    if c + daily * YIELD_MICRO >= 0 {
      FloorUnique(c + daily * YIELD_MICRO, YIELD_MICRO, q + daily);
    }
  }

  /** What a written update adds to the yield column: whole units of the sixth decimal, as many as the column
      held and as the old stake earned by the growth of the index, but for less than one unit. */
  lemma ColumnRise(row: VaultRow, newIndex: nat, staked: nat)
    requires WriteUpdate(row, newIndex, staked).Some?
    ensures var after := WriteUpdate(row, newIndex, staked).value;
            var rise := after.cumulativeYield - row.cumulativeYield;
            && after
               == row.(currentIndex := newIndex, totalStaked := staked, cumulativeYield := after.cumulativeYield)
            && rise % 1_000_000_000_000 == 0
            && exists daily :: NearYield(daily, row, after) && RisesBy(rise, row.cumulativeYield, daily)
  {
    var daily := DailyYield(row.totalStaked, newIndex - row.currentIndex, row.currentIndex);
    var after := WriteUpdate(row, newIndex, staked).value;
    NearYieldHolds(row, after);
    CumulativeYieldNear(row, daily);
    hide DailyYield, CumulativeYield, NearYield, RisesBy;
  }

  lemma CumulativeYieldNear(row: VaultRow, daily: int)
    ensures CumulativeYield(row, daily) % 1_000_000_000_000 == 0
    ensures RisesBy(CumulativeYield(row, daily), row.cumulativeYield, daily)
  {
  }

  ghost predicate RisesBy(rise: int, held: nat, daily: int) {
    -1_000_000_000_000 < rise - held - daily * 1_000_000_000_000 < 1_000_000_000_000
  }

  /** A yield column after it was added to itself n times, but for what it holds below the sixth decimal. */
  ghost function Doubled(column: nat, n: nat): nat {
    Pow2(n) * (column / YIELD_MICRO * YIELD_MICRO) + column % YIELD_MICRO
  }

  lemma DoubledOnce(column: nat, n: nat)
    ensures Doubled(column, n) + Doubled(column, n) / YIELD_MICRO * YIELD_MICRO == Doubled(column, n + 1)
  {
    var p, q, kept := Pow2(n), column / YIELD_MICRO, column % YIELD_MICRO;
    assert p * (q * YIELD_MICRO) == (p * q) * YIELD_MICRO;
    FloorUnique((p * q) * YIELD_MICRO + kept, YIELD_MICRO, p * q);
    assert (2 * p) * (q * YIELD_MICRO) == 2 * (p * (q * YIELD_MICRO));
  }

  lemma IdleUpdateAddsAgain(row: VaultRow)
    ensures ProductionUpdate(row, row.totalStaked)
         == Some(row.(cumulativeYield := row.cumulativeYield + row.cumulativeYield / YIELD_MICRO * YIELD_MICRO))
  {
    MissingReadDropsIndex(row.totalStaked, row.totalStaked, row.currentIndex);
    NoGrowthNoYield(row.totalStaked, row.currentIndex);
    YieldCountedOnce(row, 0);
  }

  /** Updates that find no growth, and as written all those of production vaults are such, double the
      recorded yield each time, but for what it holds below the sixth decimal. */
  lemma {:induction false} IdleUpdatesDoubleYield(row: VaultRow, readings: seq<nat>)
    requires forall k :: 0 <= k < |readings| ==> readings[k] == row.totalStaked
    ensures AfterReadings(row, readings) == row.(cumulativeYield := Doubled(row.cumulativeYield, |readings|))
  {
    if readings == [] {
      FloorBounds(row.cumulativeYield, YIELD_MICRO);
    } else {
      var before := readings[..|readings| - 1];
      IdleUpdatesDoubleYield(row, before);
      hide Doubled;
      IdleUpdateAddsAgain(AfterReadings(row, before));
      DoubledOnce(row.cumulativeYield, |before|);
    }
  }

  lemma NoGrowthNoYield(staked: nat, index: nat)
    requires index > 0
    ensures DailyYield(staked, 0, index) == 0
  {
    assert staked * 0 * DECIMAL_36 == 0;
    FloorUnique(0, index, 0);
  }

  /** The three cuts make one: the yield recorded in a run is the index growth of the stake divided by
      10^12, so a run that gains or loses fewer than 10^12 base units records nothing. */
  lemma DailyYieldInOneCut(staked: nat, growth: int, index: nat)
    requires index > 0
    ensures index * 1_000_000_000_000 > 0
    ensures DailyYield(staked, growth, index) == TruncDiv(staked * growth, index * 1_000_000_000_000)
    ensures DailyYield(staked, growth, index) == 0
       <==> -(index * 1_000_000_000_000) < staked * growth < index * 1_000_000_000_000
  {
    var x, d := staked * growth, index * 1_000_000_000_000;
    TruncTrunc(x * DECIMAL_36, index, PRECISION);
    TruncTrunc(x * DECIMAL_36, index * PRECISION, DECIMAL_36 / 1_000_000);
    assert index * PRECISION * (DECIMAL_36 / 1_000_000) == d * DECIMAL_36;
    TruncScale(x, d, DECIMAL_36);
    TruncZero(x, d);
  }

  lemma TruncZero(x: int, d: nat)
    requires d > 0
    ensures TruncDiv(x, d) == 0 <==> x < d && -x < d
  {
    if x >= 0 { FloorGreatest(x, d, 1); } else { TruncNegates(-x, d); FloorGreatest(-x, d, 1); }
  }
}

/** The daily job that accrues protocol yields to every vault (apps/b2b-api/src/cron/index-update.cron.ts). */
module IndexCron {
  import opened Numbers
  import opened VaultRows
  import opened RowBatches
  import opened VaultAccounting

  /** Current protocol yields, in units of 10^-6 percent a year; None is a string that does not parse. */
  datatype Apys = Apys(aave: Option<int>, compound: Option<int>, morpho: Option<int>)

  function OrZero(apy: Option<int>): int { if apy.Some? then apy.value else 0 }

  /** One entry of a vault's strategy list: its category and target in hundredths of a percent. */
  datatype Strategy = Strategy(category: string, target: nat)

  /** Target of the first strategy of a category, or nothing. */
  function TargetOf(strategies: seq<Strategy>, category: string): nat {
    if strategies == [] then 0
    else if strategies[0].category == category then strategies[0].target
    else TargetOf(strategies[1..], category)
  }

  datatype Weights = Weights(aave: nat, compound: nat, morpho: nat)

  function WeightsOf(strategies: seq<Strategy>): Weights {
    if strategies == [] then Weights(3333, 3333, 3334)
    else Weights(TargetOf(strategies, "aave"), TargetOf(strategies, "compound"), TargetOf(strategies, "morpho"))
  }

  /** Daily yield in units of 10^-6 percent: the weighted yield over 365, rounded to six decimals. */
  function CalculateWeightedDailyYield(apys: Apys, strategies: seq<Strategy>): int {
    var w := WeightsOf(strategies);
    HalfUp(OrZero(apys.aave) * w.aave + OrZero(apys.compound) * w.compound + OrZero(apys.morpho) * w.morpho, YEAR)
  }

  /** Hundredths of a percent in the whole, times the days of a year. */
  const YEAR: nat := 10_000 * 365

  function CalculateYieldAmount(staked: nat, microPercent: int): int {
    staked * microPercent / HUNDRED_PERCENT
  }

  /** What a run does to one vault with the given daily yield; the stake is written back unchanged. */
  function Accrue(row: VaultRow, microPercent: int): Option<VaultRow> {
    UpdateClientVaultIndex(row, NewIndexFromDailyYield(row.currentIndex, microPercent),
                           CalculateYieldAmount(row.totalStaked, microPercent) * YIELD_UNIT, row.totalStaked)
  }

  /** A vault's inputs in one run; the yields are missing when the service call throws. */
  datatype Inputs = Inputs(apys: Option<Apys>, strategies: seq<Strategy>)

  function AccrueFrom(row: VaultRow, inputs: Inputs): Option<VaultRow> {
    match inputs.apys
    case None => None
    case Some(apys) => Accrue(row, CalculateWeightedDailyYield(apys, inputs.strategies))
  }

  function Lone(inputs: string -> Inputs): (string, VaultRow) -> Option<VaultRow> {
    (id: string, row: VaultRow) => AccrueFrom(row, inputs(id))
  }

  class IndexUpdateCron {
    var vaults: map<string, VaultRow>

    constructor (vaults: map<string, VaultRow>)
      ensures this.vaults == vaults
    {
      this.vaults := vaults;
    }

    /** Works from the listed rows, one write a vault; a vault that throws is passed over. If the list
        itself cannot be had, the job throws and changes nothing. */
    method UpdateAllVaultIndexes(listing: Option<seq<string>>, inputs: string -> Inputs)
      returns (threw: bool, updated: seq<string>)
      requires listing.Some? ==> Distinct(listing.value) && forall id <- listing.value :: id in vaults
      modifies this
      ensures threw <==> listing == None
      ensures listing == None ==> vaults == old(vaults) && updated == []
      ensures listing.Some? ==> vaults == UpdateEach(old(vaults), listing.value, Lone(inputs))
      ensures listing.Some? ==> updated == Succeeding(old(vaults), listing.value, inputs)
    {
      threw, updated := listing == None, [];
      if threw { return; }
      var listed := listing.value;
      var rows := vaults;
      for i := 0 to |listed|
        invariant vaults == UpdateEach(rows, listed[..i], Lone(inputs))
        invariant updated == Succeeding(rows, listed[..i], inputs)
      {
        assert listed[..i + 1][..i] == listed[..i];
        Isolation(rows, listed[..i], Lone(inputs));
        assert listed[i] !in listed[..i];
        var vault := rows[listed[i]];
        var given := inputs(listed[i]);
        if given.apys.None? { continue; }
        var dailyYield := CalculateWeightedDailyYield(given.apys.value, given.strategies);
        var newIndex := NewIndexFromDailyYield(vault.currentIndex, dailyYield);
        var yieldAmount := CalculateYieldAmount(vault.totalStaked, dailyYield);
        var written := UpdateClientVaultIndex(vault, newIndex, yieldAmount * YIELD_UNIT, vault.totalStaked);
        if written.None? { continue; }
        vaults := vaults[listed[i] := written.value];
        updated := updated + [listed[i]];
      }
      assert listed[..|listed|] == listed;
    }
  }

  /** The vaults a run reports: those of the list whose own update succeeds. */
  function Succeeding(rows: map<string, VaultRow>, listed: seq<string>, inputs: string -> Inputs): seq<string> {
    if listed == [] then [] else
    var id := listed[|listed| - 1];
    Succeeding(rows, listed[..|listed| - 1], inputs)
    + if id in rows && AccrueFrom(rows[id], inputs(id)).Some? then [id] else []
  }

  /** A listed vault ends with its own accrual or, if that throws, as it was; the others do not matter. */
  lemma {:induction false} BatchIsolation(rows: map<string, VaultRow>, listed: seq<string>, inputs: string -> Inputs)
    requires Distinct(listed)
    ensures var after := UpdateEach(rows, listed, Lone(inputs));
            after.Keys == rows.Keys
            && forall id <- rows ::
                 if id in Succeeding(rows, listed, inputs)
                 then AccrueFrom(rows[id], inputs(id)) == Some(after[id]) else after[id] == rows[id]
  {
    Isolation(rows, listed, Lone(inputs));
    forall id | id in rows
      ensures id in Succeeding(rows, listed, inputs) <==> id in listed && AccrueFrom(rows[id], inputs(id)).Some?
    {
      SucceedingMembers(rows, listed, inputs, id);
    }
  }

  lemma {:induction false} SucceedingMembers(rows: map<string, VaultRow>, listed: seq<string>,
                                             inputs: string -> Inputs, id: string)
    requires id in rows
    ensures id in Succeeding(rows, listed, inputs) <==> id in listed && AccrueFrom(rows[id], inputs(id)).Some?
  {
    if listed != [] {
      assert listed == listed[..|listed| - 1] + [listed[|listed| - 1]];
      SucceedingMembers(rows, listed[..|listed| - 1], inputs, id);
    }
  }

  // ---- many daily runs of one vault ----

  ghost function AfterRuns(row: VaultRow, rates: seq<int>): VaultRow {
    if rates == [] then row else
    var before := AfterRuns(row, rates[..|rates| - 1]);
    var accrued := Accrue(before, rates[|rates| - 1]);
    if accrued.Some? then accrued.value else before
  }

  /** The yields recorded for a stake, day by day. */
  ghost function RecordedYield(staked: nat, rates: seq<int>): int {
    if rates == [] then 0
    else RecordedYield(staked, rates[..|rates| - 1]) + CalculateYieldAmount(staked, rates[|rates| - 1])
  }

  /** Over n daily runs the index never falls, every run is written, and the recorded simple yield
      never overstates the compounded growth by more than one index unit a run:
      I_0 * sum(yieldAmount) <= T * (I_n - I_0 + n). */
  lemma {:induction false} SimpleYieldBelowCompound(row: VaultRow, rates: seq<int>)
    requires forall k :: 0 <= k < |rates| ==> rates[k] >= 0
    ensures var after := AfterRuns(row, rates);
            && after.currentIndex >= row.currentIndex
            && after.totalStaked == row.totalStaked
            && RecordedYield(row.totalStaked, rates) >= 0
            && after.cumulativeYield == row.cumulativeYield + RecordedYield(row.totalStaked, rates) * YIELD_UNIT
            && row.currentIndex * RecordedYield(row.totalStaked, rates)
               <= row.totalStaked * (after.currentIndex - row.currentIndex + |rates|)
  {
    if rates != [] {
      var prefix, y := rates[..|rates| - 1], rates[|rates| - 1];
      SimpleYieldBelowCompound(row, prefix);
      var before := AfterRuns(row, prefix);
      var next := NewIndexFromDailyYield(before.currentIndex, y);
      DailyYieldBounds(before.currentIndex, y);
      YieldAmountExactly(row.totalStaked, y);
      OneDay(row.currentIndex, before.currentIndex, next, row.totalStaked, y,
        CalculateYieldAmount(row.totalStaked, y));
      AddDay(row.currentIndex, row.totalStaked, RecordedYield(row.totalStaked, prefix),
        CalculateYieldAmount(row.totalStaked, y), before.currentIndex, next, |prefix|);
    }
  }

  /** A day's yield of either sign is the stake times its percentage, floored: a*10^8 <= T*y < (a + 1)*10^8. */
  lemma YieldAmountExactly(staked: nat, y: int)
    ensures var amount := CalculateYieldAmount(staked, y);
            amount * 100_000_000 <= staked * y < (amount + 1) * 100_000_000
    ensures y >= 0 ==> CalculateYieldAmount(staked, y) >= 0
  {
    FloorBounds(staked * y, HUNDRED_PERCENT);
  }

  ghost function SumOfRates(rates: seq<int>): int {
    if rates == [] then 0 else SumOfRates(rates[..|rates| - 1]) + rates[|rates| - 1]
  }

  /** Over n daily runs the yield column rises by whole units, between the stake times the summed percentages
      and n units less. */
  lemma {:induction false} YieldColumnExactly(row: VaultRow, rates: seq<int>)
    requires forall k :: 0 <= k < |rates| ==> rates[k] >= 0
    ensures var rise, exact := AfterRuns(row, rates).cumulativeYield - row.cumulativeYield,
                               row.totalStaked * SumOfRates(rates) * 1_000_000_000_000_000_000;
            rise * 100_000_000 <= exact <= rise * 100_000_000 + |rates| * 100_000_000_000_000_000_000_000_000
  {
    SimpleYieldBelowCompound(row, rates);
    RecordedExactly(row.totalStaked, rates);
    var k, t := RecordedYield(row.totalStaked, rates), row.totalStaked * SumOfRates(rates);
    assert k * YIELD_UNIT * 100_000_000 == (k * 100_000_000) * YIELD_UNIT;
    MulMono(k * 100_000_000, t, YIELD_UNIT);
    MulMono(t, (k + |rates|) * 100_000_000, YIELD_UNIT);
    assert (k + |rates|) * 100_000_000 * YIELD_UNIT
        == (k * 100_000_000) * YIELD_UNIT + |rates| * 100_000_000_000_000_000_000_000_000;
  }

  lemma {:induction false} RecordedExactly(staked: nat, rates: seq<int>)
    ensures var recorded := RecordedYield(staked, rates);
            recorded * 100_000_000 <= staked * SumOfRates(rates) <= (recorded + |rates|) * 100_000_000
  {
    if rates != [] {
      var prefix, y := rates[..|rates| - 1], rates[|rates| - 1];
      RecordedExactly(staked, prefix);
      YieldAmountExactly(staked, y);
      assert staked * (SumOfRates(prefix) + y) == staked * SumOfRates(prefix) + staked * y;
    }
  }

  /** One day's yield against one day's growth of the index. */
  lemma OneDay(start: nat, index: nat, next: nat, staked: nat, y: nat, amount: nat)
    requires start <= index <= next && amount * HUNDRED_PERCENT <= staked * y
    requires index * y < (next - index + 1) * HUNDRED_PERCENT
    ensures start * amount <= staked * (next - index + 1)
  {
    var grown := next - index + 1;
    MulMono(amount * HUNDRED_PERCENT, staked * y, start);
    MulMono(start, index, staked * y);
    MulMono(index * y, grown * HUNDRED_PERCENT, staked);
    assert (amount * HUNDRED_PERCENT) * start == (start * amount) * HUNDRED_PERCENT;
    assert index * (staked * y) == (index * y) * staked;
    assert (grown * HUNDRED_PERCENT) * staked == (staked * grown) * HUNDRED_PERCENT;
    MulCancel(start * amount, staked * grown, HUNDRED_PERCENT);
  }

  lemma AddDay(start: nat, staked: nat, recorded: nat, amount: nat, index: nat, next: nat, days: nat)
    requires start * recorded <= staked * (index - start + days)
    requires start * amount <= staked * (next - index + 1)
    ensures start * (recorded + amount) <= staked * (next - start + (days + 1))
  {
    assert start * (recorded + amount) == start * recorded + start * amount;
    assert staked * (index - start + days) + staked * (next - index + 1)
        == staked * (next - start + (days + 1));
  }

  /** The job moves the index and leaves the stake, so the vault stays solvent exactly when what its shares
      gain fits in the slack it had. */
  lemma AccrualKeepsSolventExactly(row: VaultRow, k: nat, microPercent: int)
    ensures var accrued := Accrue(row, microPercent);
            accrued.Some? ==>
              (Solvent(accrued.value, k)
               <==> (row.totalShares - k) * (row.currentIndex * microPercent / HUNDRED_PERCENT)
                    <= row.totalStaked * PRECISION - (row.totalShares - k) * row.currentIndex)
  {
    if Accrue(row, microPercent).Some? {
      AccruedIndex(row, microPercent);
      var s, i, gain := row.totalShares - k, row.currentIndex, row.currentIndex * microPercent / HUNDRED_PERCENT;
      assert s * (i + gain) == s * i + s * gain;
    }
  }

  lemma AccruedIndex(row: VaultRow, microPercent: int)
    requires Accrue(row, microPercent).Some?
    ensures Accrue(row, microPercent).value.currentIndex
         == row.currentIndex + row.currentIndex * microPercent / HUNDRED_PERCENT
  {
    if HUNDRED_PERCENT + microPercent >= 0 {
      DailyYieldStep(row.currentIndex, microPercent);
    } else {
      MulMono(HUNDRED_PERCENT + microPercent, 0, row.currentIndex);
    }
  }

  /** An index is so finely scaled that the least printable yield moves it. */
  lemma AnyYieldMovesIndex(row: VaultRow, microPercent: int)
    ensures microPercent > 0 ==> row.currentIndex * microPercent / HUNDRED_PERCENT > 0
    ensures microPercent < 0 ==> row.currentIndex * microPercent / HUNDRED_PERCENT < 0
    ensures microPercent == 0 ==> row.currentIndex * microPercent / HUNDRED_PERCENT == 0
  {
    if microPercent > 0 {
      MulMono(1, microPercent, row.currentIndex);
      FloorGreatest(row.currentIndex * microPercent, HUNDRED_PERCENT, 1);
    } else if microPercent < 0 {
      MulMono(microPercent, -1, row.currentIndex);
      FloorGreatest(row.currentIndex * microPercent, HUNDRED_PERCENT, 0);
    }
  }

  /** A vault whose shares use up its stake stays solvent exactly when the day yielded nothing. */
  lemma AccrualIsUnfunded(row: VaultRow, k: nat, microPercent: nat)
    requires row.totalShares > k && (row.totalShares - k) * row.currentIndex == row.totalStaked * PRECISION
    ensures Accrue(row, microPercent).Some?
    ensures Solvent(Accrue(row, microPercent).value, k) <==> microPercent == 0
  {
    DailyYieldBounds(row.currentIndex, microPercent);
    YieldAmountExactly(row.totalStaked, microPercent);
    AccrualKeepsSolventExactly(row, k, microPercent);
    AnyYieldMovesIndex(row, microPercent);
    var s, gain := row.totalShares - k, row.currentIndex * microPercent / HUNDRED_PERCENT;
    if microPercent > 0 { MulMono(1, gain, s); }
  }

  // ---- weights ----

  /** The target of the first strategy of a category; nothing if there is none. */
  ghost predicate IsTarget(strategies: seq<Strategy>, category: string, target: nat) {
    || (target == 0 && forall k :: 0 <= k < |strategies| ==> strategies[k].category != category)
    || exists k: nat :: IsFirst(strategies, category, k) && strategies[k].target == target
  }

  ghost predicate IsFirst(strategies: seq<Strategy>, category: string, k: nat) {
    && k < |strategies| && strategies[k].category == category
    && forall j :: 0 <= j < k ==> strategies[j].category != category
  }

  lemma {:induction false} TargetExactly(strategies: seq<Strategy>, category: string, target: nat)
    requires IsTarget(strategies, category, target)
    ensures TargetOf(strategies, category) == target
  {
    if strategies != [] && strategies[0].category != category {
      var rest := strategies[1..];
      if k: nat :| IsFirst(strategies, category, k) && strategies[k].target == target {
        assert forall j :: 0 <= j < k - 1 ==> rest[j] == strategies[j + 1];
        assert IsFirst(rest, category, k - 1) && rest[k - 1].target == target;
      } else {
        assert forall j :: 0 <= j < |rest| ==> rest[j] == strategies[j + 1];
      }
      TargetExactly(rest, category, target);
    } else if strategies != [] {
      assert forall k: nat :: IsFirst(strategies, category, k) ==> k == 0;
    }
  }

  /** The daily yield is the three yields, each times the target of its own protocol, over the whole and over
      365 days, to the nearest 10^-6 percent. */
  lemma DailyYieldNearest(a: int, c: int, m: int, strategies: seq<Strategy>, aave: nat, compound: nat, morpho: nat)
    requires strategies == [] ==> aave == 3_333 && compound == 3_333 && morpho == 3_334
    requires strategies != [] ==>
               && IsTarget(strategies, "aave", aave)
               && IsTarget(strategies, "compound", compound)
               && IsTarget(strategies, "morpho", morpho)
    ensures var exact := a * aave + c * compound + m * morpho;
            var daily := CalculateWeightedDailyYield(Apys(Some(a), Some(c), Some(m)), strategies);
            2 * exact - 3_650_000 < 2 * (daily * 3_650_000) <= 2 * exact + 3_650_000
  {
    if strategies != [] {
      TargetExactly(strategies, "aave", aave);
      TargetExactly(strategies, "compound", compound);
      TargetExactly(strategies, "morpho", morpho);
    }
    assert WeightsOf(strategies) == Weights(aave, compound, morpho);
  }

  /** A yield that does not parse counts as none. */
  lemma UnparsedIsZero(apys: Apys, strategies: seq<Strategy>)
    ensures CalculateWeightedDailyYield(apys, strategies)
         == CalculateWeightedDailyYield(
              Apys(if apys.aave.None? then Some(0) else apys.aave,
                   if apys.compound.None? then Some(0) else apys.compound,
                   if apys.morpho.None? then Some(0) else apys.morpho), strategies)
  {
  }

  /** A vault whose yields are at hand and not negative is always written; one whose yields are missing never
      is. */
  lemma AccruesWhen(row: VaultRow, inputs: Inputs)
    ensures inputs.apys == None ==> AccrueFrom(row, inputs) == None
    ensures inputs.apys.Some? && CalculateWeightedDailyYield(inputs.apys.value, inputs.strategies) >= 0 ==>
              AccrueFrom(row, inputs).Some?
  {
    if inputs.apys.Some? {
      var daily := CalculateWeightedDailyYield(inputs.apys.value, inputs.strategies);
      hide CalculateWeightedDailyYield;
      if daily >= 0 {
        DailyYieldBounds(row.currentIndex, daily);
        YieldAmountExactly(row.totalStaked, daily);
      }
    }
  }

  /** With yields between `low` and `top`, of either sign, the daily yield lies between the weighted day's
      shares of the two, rounded. */
  lemma DailyYieldBetween(apys: Apys, strategies: seq<Strategy>, low: int, top: int)
    requires low <= OrZero(apys.aave) <= top && low <= OrZero(apys.compound) <= top && low <= OrZero(apys.morpho) <= top
    ensures var whole := WeightsOf(strategies).aave + WeightsOf(strategies).compound + WeightsOf(strategies).morpho;
            HalfUp(low * whole, YEAR) <= CalculateWeightedDailyYield(apys, strategies) <= HalfUp(top * whole, YEAR)
  {
    var w := WeightsOf(strategies);
    var a, c, m := OrZero(apys.aave), OrZero(apys.compound), OrZero(apys.morpho);
    WeightedBetween(a, c, m, w, low, top);
    var whole := w.aave + w.compound + w.morpho;
    HalfUpMono(low * whole, a * w.aave + c * w.compound + m * w.morpho, YEAR);
    HalfUpMono(a * w.aave + c * w.compound + m * w.morpho, top * whole, YEAR);
  }

  lemma WeightedBetween(a: int, c: int, m: int, w: Weights, low: int, top: int)
    requires low <= a <= top && low <= c <= top && low <= m <= top
    ensures var whole := w.aave + w.compound + w.morpho;
            low * whole <= a * w.aave + c * w.compound + m * w.morpho <= top * whole
  {
    MulMono(low, a, w.aave);
    MulMono(low, c, w.compound);
    MulMono(low, m, w.morpho);
    MulMono(a, top, w.aave);
    MulMono(c, top, w.compound);
    MulMono(m, top, w.morpho);
    Distribute(low, w);
    Distribute(top, w);
  }

  lemma Distribute(x: int, w: Weights)
    ensures x * (w.aave + w.compound + w.morpho) == x * w.aave + x * w.compound + x * w.morpho
  {
  }

  /** A day without yield writes the row as it was, and any other day does not. */
  lemma IdleDayExactly(row: VaultRow, microPercent: int)
    ensures Accrue(row, microPercent) == Some(row) <==> microPercent == 0
  {
    if microPercent == 0 {
      FloorUnique(row.currentIndex * HUNDRED_PERCENT, HUNDRED_PERCENT, row.currentIndex);
    } else if Accrue(row, microPercent).Some? {
      AccruedIndex(row, microPercent);
      AnyYieldMovesIndex(row, microPercent);
    }
  }

  /** A vault earns nothing, whatever the yields, exactly when its strategies give the three protocols no
      weight. */
  lemma EarnsNothingExactly(row: VaultRow, strategies: seq<Strategy>)
    ensures (forall apys :: AccrueFrom(row, Inputs(Some(apys), strategies)) == Some(row))
       <==> WeightsOf(strategies) == Weights(0, 0, 0)
  {
    var w := WeightsOf(strategies);
    forall apys ensures AccrueFrom(row, Inputs(Some(apys), strategies)) == Some(row)
                   <==> CalculateWeightedDailyYield(apys, strategies) == 0
    {
      IdleDayExactly(row, CalculateWeightedDailyYield(apys, strategies));
    }
    HalfUpExact(w.aave, YEAR);
    HalfUpExact(w.compound, YEAR);
    HalfUpExact(w.morpho, YEAR);
    assert CalculateWeightedDailyYield(Apys(Some(YEAR), None, None), strategies) == w.aave;
    assert CalculateWeightedDailyYield(Apys(None, Some(YEAR), None), strategies) == w.compound;
    assert CalculateWeightedDailyYield(Apys(None, None, Some(YEAR)), strategies) == w.morpho;
    if w == Weights(0, 0, 0) {
      HalfUpUnique(0, YEAR, 0);
      assert forall apys :: CalculateWeightedDailyYield(apys, strategies) == 0;
    } else {
      ShowYield(row, strategies, Apys(Some(YEAR), None, None));
      ShowYield(row, strategies, Apys(None, Some(YEAR), None));
      ShowYield(row, strategies, Apys(None, None, Some(YEAR)));
    }
  }

  lemma ShowYield(row: VaultRow, strategies: seq<Strategy>, apys: Apys)
    ensures CalculateWeightedDailyYield(apys, strategies) != 0 ==>
              !(forall apys :: AccrueFrom(row, Inputs(Some(apys), strategies)) == Some(row))
  {
    IdleDayExactly(row, CalculateWeightedDailyYield(apys, strategies));
    var daily := CalculateWeightedDailyYield(apys, strategies);
    assert AccrueFrom(row, Inputs(Some(apys), strategies)) == Accrue(row, daily);
  }

  lemma {:induction false} NoTarget(strategies: seq<Strategy>, category: string)
    requires forall k :: 0 <= k < |strategies| ==> strategies[k].category != category
    ensures TargetOf(strategies, category) == 0
  {
    if strategies != [] { NoTarget(strategies[1..], category); }
  }

  /** The job looks for protocol names among the categories. A strategy list made of the categories the
      API accepts (lending, lp, staking) names none, and its vault earns nothing whatever the yields. */
  lemma ApiCategoriesEarnNothing(row: VaultRow, strategies: seq<Strategy>)
    requires strategies != []
    requires forall k :: 0 <= k < |strategies| ==> strategies[k].category in {"lending", "lp", "staking"}
    ensures forall apys :: AccrueFrom(row, Inputs(Some(apys), strategies)) == Some(row)
  {
    assert "aave" !in {"lending", "lp", "staking"};
    assert "compound" !in {"lending", "lp", "staking"};
    assert "morpho" !in {"lending", "lp", "staking"};
    NoTarget(strategies, "aave");
    NoTarget(strategies, "compound");
    NoTarget(strategies, "morpho");
    EarnsNothingExactly(row, strategies);
  }
}

/** A client's growth index: the AUM-weighted mean of its vaults' indexes
    (packages/core/service/client-growth-index.service.ts). */
module GrowthIndex {
  import opened Numbers
  import opened Sums
  import opened VaultRows

  function Aum(row: VaultRow): nat { row.totalStaked + row.pendingDeposits }

  ghost function AumOf(): VaultRow -> nat { (row: VaultRow) => Aum(row) }

  ghost function WeightOf(): VaultRow -> nat { (row: VaultRow) => Aum(row) * row.currentIndex }

  ghost function TotalAum(vaults: seq<VaultRow>): nat { Sum(vaults, AumOf()) }

  ghost function WeightedSum(vaults: seq<VaultRow>): nat { Sum(vaults, WeightOf()) }

  /** The floored mean, and 1.0 for a client without assets. */
  ghost function GrowthIndex(vaults: seq<VaultRow>): nat {
    if TotalAum(vaults) == 0 then PRECISION else WeightedSum(vaults) / TotalAum(vaults)
  }

  /** The loop skips empty vaults and cuts the mean twice, at 36 places and at whole units; it still
      computes the mean over all vaults, floored once. */
  method CalculateClientGrowthIndex(vaults: seq<VaultRow>) returns (index: nat)
    ensures index == GrowthIndex(vaults)
  {
    if |vaults| == 0 { return PRECISION; }
    var totalAum, weightedIndexSum: nat := 0, 0;
    for i := 0 to |vaults|
      invariant totalAum == TotalAum(vaults[..i])
      invariant weightedIndexSum == WeightedSum(vaults[..i])
    {
      assert vaults[..i + 1][..i] == vaults[..i];
      var vaultAum := Aum(vaults[i]);
      if vaultAum == 0 { continue; }
      totalAum := totalAum + vaultAum;
      weightedIndexSum := weightedIndexSum + vaultAum * vaults[i].currentIndex;
    }
    assert vaults[..|vaults|] == vaults;
    if totalAum == 0 { return PRECISION; }
    hide TotalAum, WeightedSum;
    NestedFloor(weightedIndexSum, totalAum, DECIMAL_36);
    index := (weightedIndexSum * DECIMAL_36 / totalAum) / DECIMAL_36;
  }

  /** The index lies between the smallest and the largest index of the vaults that hold assets. */
  lemma IndexInRange(vaults: seq<VaultRow>, lo: nat, hi: nat)
    requires TotalAum(vaults) > 0
    requires forall k :: 0 <= k < |vaults| && Aum(vaults[k]) > 0 ==> lo <= vaults[k].currentIndex <= hi
    ensures lo <= GrowthIndex(vaults) <= hi
  {
    SumInRange(vaults, lo, hi);
    FloorGreatest(WeightedSum(vaults), TotalAum(vaults), lo);
    FloorMono(WeightedSum(vaults), hi * TotalAum(vaults), TotalAum(vaults));
    FloorUnique(hi * TotalAum(vaults), TotalAum(vaults), hi);
  }

  lemma {:induction false} SumInRange(vaults: seq<VaultRow>, lo: nat, hi: nat)
    requires forall k :: 0 <= k < |vaults| && Aum(vaults[k]) > 0 ==> lo <= vaults[k].currentIndex <= hi
    ensures lo * TotalAum(vaults) <= WeightedSum(vaults) <= hi * TotalAum(vaults)
  {
    if vaults != [] {
      var n := |vaults|;
      var last := vaults[n - 1];
      SumInRange(vaults[..n - 1], lo, hi);
      AddInRange(lo, hi, TotalAum(vaults[..n - 1]), WeightedSum(vaults[..n - 1]), Aum(last), last.currentIndex);
    }
  }

  lemma AddInRange(lo: nat, hi: nat, total: nat, sum: nat, aum: nat, index: nat)
    requires lo * total <= sum <= hi * total && (aum > 0 ==> lo <= index <= hi)
    ensures lo * (total + aum) <= sum + aum * index <= hi * (total + aum)
  {
    if aum > 0 {
      MulMono(lo, index, aum);
      MulMono(index, hi, aum);
    }
  }

  ghost function Staked(): VaultRow -> nat { (row: VaultRow) => row.totalStaked }

  ghost function Pending(): VaultRow -> nat { (row: VaultRow) => row.pendingDeposits }

  ghost function StakedWeight(): VaultRow -> nat { (row: VaultRow) => row.totalStaked * row.currentIndex }

  ghost function PendingWeight(): VaultRow -> nat { (row: VaultRow) => row.pendingDeposits * row.currentIndex }

  lemma {:induction false} AssetsAddUp(vaults: seq<VaultRow>)
    ensures TotalAum(vaults) == Sum(vaults, Staked()) + Sum(vaults, Pending())
    ensures WeightedSum(vaults) == Sum(vaults, StakedWeight()) + Sum(vaults, PendingWeight())
  {
    if vaults != [] {
      var row := vaults[|vaults| - 1];
      AssetsAddUp(vaults[..|vaults| - 1]);
      assert (row.totalStaked + row.pendingDeposits) * row.currentIndex
          == row.totalStaked * row.currentIndex + row.pendingDeposits * row.currentIndex;
    }
  }

  /** The index is the floored mean of the vaults' indexes over all money staked and pending: g*T <= W and
      W < (g + 1)*T. Without any it is 1.0. */
  lemma IndexExactly(vaults: seq<VaultRow>)
    ensures var total := Sum(vaults, Staked()) + Sum(vaults, Pending());
            var weighted := Sum(vaults, StakedWeight()) + Sum(vaults, PendingWeight());
            var index := GrowthIndex(vaults);
            && (total > 0 ==> index * total <= weighted < (index + 1) * total)
            && (total == 0 ==> index == 1_000_000_000_000_000_000)
  {
    AssetsAddUp(vaults);
    if TotalAum(vaults) > 0 { FloorBounds(WeightedSum(vaults), TotalAum(vaults)); }
  }

  /** The order in which the vaults are listed does not matter. */
  lemma OrderDoesNotMatter(vaults: seq<VaultRow>, others: seq<VaultRow>)
    requires multiset(vaults) == multiset(others)
    ensures GrowthIndex(vaults) == GrowthIndex(others)
  {
    SumPermutation(vaults, others, AumOf());
    SumPermutation(vaults, others, WeightOf());
  }

  /** A vault without assets changes nothing, wherever it is listed. */
  lemma EmptyVaultDoesNotMatter(before: seq<VaultRow>, empty: VaultRow, after: seq<VaultRow>)
    requires Aum(empty) == 0
    ensures GrowthIndex(before + [empty] + after) == GrowthIndex(before + after)
  {
    var vaults := before + [empty] + after;
    assert vaults[..|before|] + vaults[|before| + 1..] == before + after;
    SumRemove(vaults, |before|, AumOf());
    SumRemove(vaults, |before|, WeightOf());
  }

  /** The same vaults with all balances multiplied, as in a change of unit. */
  ghost function Scaled(vaults: seq<VaultRow>, factor: nat): seq<VaultRow> {
    if vaults == [] then [] else
    var row := vaults[|vaults| - 1];
    Scaled(vaults[..|vaults| - 1], factor)
    + [row.(totalStaked := factor * row.totalStaked, pendingDeposits := factor * row.pendingDeposits)]
  }

  /** The index does not depend on the unit in which balances are kept. */
  lemma UnitDoesNotMatter(vaults: seq<VaultRow>, factor: nat)
    requires factor > 0
    ensures GrowthIndex(Scaled(vaults, factor)) == GrowthIndex(vaults)
  {
    ScaledSums(vaults, factor);
    if TotalAum(vaults) > 0 {
      CancelScale(WeightedSum(vaults), TotalAum(vaults), factor);
    } else {
      assert TotalAum(Scaled(vaults, factor)) == 0;
    }
  }

  lemma {:induction false} ScaledSums(vaults: seq<VaultRow>, factor: nat)
    ensures TotalAum(Scaled(vaults, factor)) == TotalAum(vaults) * factor
    ensures WeightedSum(Scaled(vaults, factor)) == WeightedSum(vaults) * factor
  {
    if vaults != [] {
      var prefix, row := vaults[..|vaults| - 1], vaults[|vaults| - 1];
      var scaled: VaultRow :=
        row.(totalStaked := factor * row.totalStaked, pendingDeposits := factor * row.pendingDeposits);
      ScaledSums(prefix, factor);
      SumAppend(Scaled(prefix, factor), scaled, AumOf());
      SumAppend(Scaled(prefix, factor), scaled, WeightOf());
      ScaledTerm(row, scaled, factor);
      assert (TotalAum(prefix) + Aum(row)) * factor == TotalAum(prefix) * factor + Aum(row) * factor;
      assert (WeightedSum(prefix) + Aum(row) * row.currentIndex) * factor
          == WeightedSum(prefix) * factor + Aum(row) * row.currentIndex * factor;
    }
  }

  lemma ScaledTerm(row: VaultRow, scaled: VaultRow, factor: nat)
    requires scaled == row.(totalStaked := factor * row.totalStaked, pendingDeposits := factor * row.pendingDeposits)
    ensures Aum(scaled) == Aum(row) * factor
    ensures Aum(scaled) * scaled.currentIndex == Aum(row) * row.currentIndex * factor
  {
  }

  /** Raising one vault's index never lowers the client's. */
  lemma MonotoneInEachIndex(vaults: seq<VaultRow>, k: nat, raised: VaultRow)
    requires k < |vaults| && raised == vaults[k].(currentIndex := raised.currentIndex)
    requires raised.currentIndex >= vaults[k].currentIndex
    ensures GrowthIndex(vaults) <= GrowthIndex(vaults[k := raised])
  {
    var changed := vaults[k := raised];
    assert changed[..k] + changed[k + 1..] == vaults[..k] + vaults[k + 1..];
    SumRemove(vaults, k, AumOf());
    SumRemove(vaults, k, WeightOf());
    SumRemove(changed, k, AumOf());
    SumRemove(changed, k, WeightOf());
    WeightGrows(vaults[k], raised);
    MeanGrows(WeightedSum(vaults), WeightedSum(changed), TotalAum(vaults));
  }

  lemma WeightGrows(row: VaultRow, raised: VaultRow)
    requires raised == row.(currentIndex := raised.currentIndex) && raised.currentIndex >= row.currentIndex
    ensures AumOf()(row) == AumOf()(raised) && WeightOf()(row) <= WeightOf()(raised)
  {
    MulMono(row.currentIndex, raised.currentIndex, Aum(row));
  }

  lemma MeanGrows(sum: nat, more: nat, total: nat)
    requires sum <= more
    ensures total > 0 ==> sum / total <= more / total
  {
    if total > 0 { FloorMono(sum, more, total); }
  }

  // ---- historical APY ----

  /** A vault and its rolling APY in units of the fourth decimal, of either sign, if it has a history. */
  datatype ApySample = ApySample(row: VaultRow, apy: Option<int>)

  ghost function ApyAum(): ApySample -> nat {
    (s: ApySample) => if s.apy.Some? then Aum(s.row) else 0
  }

  /** The APYs of the vaults with a history, weighted by their assets. */
  ghost function WeightedApy(samples: seq<ApySample>): int {
    if samples == [] then 0 else
    var s := samples[|samples| - 1];
    WeightedApy(samples[..|samples| - 1]) + if s.apy.Some? then Aum(s.row) * s.apy.value else 0
  }

  function ApyPercent(sum: int, total: nat): int {
    if total == 0 then 0 else TruncDiv(sum, total * 100)
  }

  ghost function HistoricalApy(samples: seq<ApySample>): int {
    ApyPercent(WeightedApy(samples), Sum(samples, ApyAum()))
  }

  /** The mean over the vaults that have both assets and a history, cut to two decimals; zero when
      there is none. */
  method CalculateHistoricalApy(samples: seq<ApySample>) returns (percent: int)
    ensures percent == HistoricalApy(samples)
  {
    if |samples| == 0 { return 0; }
    var totalAum: nat, weightedApySum := 0, 0;
    for i := 0 to |samples|
      invariant totalAum == Sum(samples[..i], ApyAum())
      invariant weightedApySum == WeightedApy(samples[..i])
    {
      assert samples[..i + 1][..i] == samples[..i];
      var vaultAum := Aum(samples[i].row);
      if vaultAum == 0 { continue; }
      if samples[i].apy.Some? {
        totalAum := totalAum + vaultAum;
        weightedApySum := weightedApySum + vaultAum * samples[i].apy.value;
      }
    }
    assert samples[..|samples|] == samples;
    if totalAum == 0 { return 0; }
    hide Sum, WeightedApy, ApyPercent, TruncDiv;
    ApyInOneCut(weightedApySum, totalAum);
    percent := TruncDiv(TruncDiv(weightedApySum * APY_TO_36, totalAum), DECIMAL_36_TO_2);
  }

  /** From the fourth decimal to the 36th, and from the 36th to the second. */
  const APY_TO_36: nat := 100_000_000_000_000_000_000_000_000_000_000
  const DECIMAL_36_TO_2: nat := 10_000_000_000_000_000_000_000_000_000_000_000

  lemma ApyInOneCut(sum: int, total: nat)
    requires total > 0
    ensures TruncDiv(TruncDiv(sum * APY_TO_36, total), DECIMAL_36_TO_2) == ApyPercent(sum, total)
  {
    TruncTrunc(sum * APY_TO_36, total, DECIMAL_36_TO_2);
    TruncScale(sum, total * 100, APY_TO_36);
    assert total * DECIMAL_36_TO_2 == total * 100 * APY_TO_36;
  }

  ghost function CountedStake(): ApySample -> nat {
    (s: ApySample) => if s.apy.Some? then s.row.totalStaked else 0
  }

  ghost function CountedPending(): ApySample -> nat {
    (s: ApySample) => if s.apy.Some? then s.row.pendingDeposits else 0
  }

  lemma {:induction false} CountedAssets(samples: seq<ApySample>)
    ensures Sum(samples, ApyAum()) == Sum(samples, CountedStake()) + Sum(samples, CountedPending())
  {
    if samples != [] { CountedAssets(samples[..|samples| - 1]); }
  }

  /** A vault adds to the weighted sum its staked and pending money times its APY, if it has a history. */
  lemma WeightedApyStep(samples: seq<ApySample>, s: ApySample)
    ensures WeightedApy(samples + [s]) - WeightedApy(samples)
         == if s.apy.Some? then s.row.totalStaked * s.apy.value + s.row.pendingDeposits * s.apy.value else 0
    ensures WeightedApy([]) == 0
  {
    assert (samples + [s])[..|samples|] == samples;
  }

  /** The APY shown is that weighted sum over the money of the vaults with a history, toward zero at two
      decimals, and zero if there is none. */
  lemma ApyExactly(samples: seq<ApySample>)
    ensures var total, sum := Sum(samples, CountedStake()) + Sum(samples, CountedPending()), WeightedApy(samples);
            var shown := HistoricalApy(samples);
            && (total == 0 ==> shown == 0)
            && (total > 0 && sum >= 0 ==> shown * (total * 100) <= sum < (shown + 1) * (total * 100))
            && (total > 0 && sum < 0 ==> (shown - 1) * (total * 100) < sum <= shown * (total * 100))
  {
    CountedAssets(samples);
    hide Sum, WeightedApy;
    if Sum(samples, ApyAum()) > 0 { CutBounds(WeightedApy(samples), Sum(samples, ApyAum()) * 100); }
  }

  lemma CutBounds(sum: int, d: nat)
    requires d > 0
    ensures var shown := TruncDiv(sum, d);
            && (sum >= 0 ==> shown * d <= sum < (shown + 1) * d)
            && (sum < 0 ==> (shown - 1) * d < sum <= shown * d)
  {
    var shown := TruncDiv(sum, d);
    hide TruncDiv;
    assert (shown + 1) * d == shown * d + d && (shown - 1) * d == shown * d - d;
  }

  /** The APY shown lies between the lowest and the highest of the vaults counted, to two decimals. */
  lemma ApyInRange(samples: seq<ApySample>, lo: int, hi: int)
    requires Sum(samples, ApyAum()) > 0
    requires forall s <- samples :: s.apy.Some? && Aum(s.row) > 0 ==> lo <= s.apy.value <= hi
    ensures TruncDiv(lo, 100) <= HistoricalApy(samples) <= TruncDiv(hi, 100)
  {
    ApySumInRange(samples, lo, hi);
    var total := Sum(samples, ApyAum());
    TruncScale(lo, 100, total);
    TruncScale(hi, 100, total);
    TruncMono(lo * total, WeightedApy(samples), total * 100);
    TruncMono(WeightedApy(samples), hi * total, total * 100);
  }

  lemma {:induction false} ApySumInRange(samples: seq<ApySample>, lo: int, hi: int)
    requires forall s <- samples :: s.apy.Some? && Aum(s.row) > 0 ==> lo <= s.apy.value <= hi
    ensures lo * Sum(samples, ApyAum()) <= WeightedApy(samples) <= hi * Sum(samples, ApyAum())
  {
    if samples != [] {
      var before, s := samples[..|samples| - 1], samples[|samples| - 1];
      assert s in samples;
      assert forall t <- before :: t in samples;
      ApySumInRange(before, lo, hi);
      AddApy(lo, hi, Sum(before, ApyAum()), WeightedApy(before), s);
    }
  }

  lemma AddApy(lo: int, hi: int, total: nat, sum: int, s: ApySample)
    requires lo * total <= sum <= hi * total
    requires s.apy.Some? && Aum(s.row) > 0 ==> lo <= s.apy.value <= hi
    ensures var next := sum + if s.apy.Some? then Aum(s.row) * s.apy.value else 0;
            lo * (total + ApyAum()(s)) <= next <= hi * (total + ApyAum()(s))
  {
    if s.apy.Some? && Aum(s.row) > 0 {
      MulMono(lo, s.apy.value, Aum(s.row));
      MulMono(s.apy.value, hi, Aum(s.row));
    }
    assert lo * (total + ApyAum()(s)) == lo * total + lo * ApyAum()(s);
    assert hi * (total + ApyAum()(s)) == hi * total + hi * ApyAum()(s);
  }
}

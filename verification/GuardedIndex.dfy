/** Index updates from the value of a vault's wrapped tokens, with their guards
    (packages/core/service/vault-index.service.ts). Decimals are exact; only toFixed rounds, half up. */
module GuardedIndex {
  import opened Numbers
  import opened VaultRows
  import VaultAccounting

  datatype Error = VaultNotFound | NoPreviousBalance | IndexDecreased | GrowthTooLarge | CheckViolated

  datatype Outcome = Updated(row: VaultRow) | Refused(error: Error)

  /** The guards compare the exact index I * current / previous with I and 2 * I. */
  function GuardedUpdate(row: VaultRow, currentValue: nat): Outcome {
    var previous, index := row.totalStaked, row.currentIndex;
    if previous == 0 then Refused(NoPreviousBalance)
    else if index * currentValue < index * previous then Refused(IndexDecreased)
    else if index * currentValue > 2 * index * previous then Refused(GrowthTooLarge)
    else
      match UpdateClientVaultIndex(row, HalfUp(index * currentValue, previous),
                                   (currentValue - previous) * YIELD_UNIT, currentValue)
      case None => Refused(CheckViolated)
      case Some(updated) => Updated(updated)
  }

  class VaultIndexService {
    var vaults: map<string, VaultRow>

    constructor (vaults: map<string, VaultRow>)
      ensures this.vaults == vaults
    {
      this.vaults := vaults;
    }

    /** Either the vault's row is replaced by its update, or the call throws and no row changes. */
    method UpdateVaultIndex(vaultId: string, currentTotalValue: nat) returns (outcome: Outcome)
      modifies this
      ensures vaultId !in old(vaults) ==> outcome == Refused(VaultNotFound)
      ensures vaultId in old(vaults) ==> outcome == GuardedUpdate(old(vaults)[vaultId], currentTotalValue)
      ensures vaults == if outcome.Updated? then old(vaults)[vaultId := outcome.row] else old(vaults)
    {
      if vaultId !in vaults { return Refused(VaultNotFound); }
      var vault := vaults[vaultId];
      var previousValue := vault.totalStaked;
      if previousValue == 0 { return Refused(NoPreviousBalance); }
      var yieldGenerated := currentTotalValue - previousValue;
      var newIndexTimesPrevious := vault.currentIndex * currentTotalValue;
      if newIndexTimesPrevious < vault.currentIndex * previousValue { return Refused(IndexDecreased); }
      if newIndexTimesPrevious > 2 * vault.currentIndex * previousValue { return Refused(GrowthTooLarge); }
      var newIndex := HalfUp(newIndexTimesPrevious, previousValue);
      var written := UpdateClientVaultIndex(vault, newIndex, yieldGenerated * YIELD_UNIT, currentTotalValue);
      if written.None? { return Refused(CheckViolated); }
      vaults := vaults[vaultId := written.value];
      return Updated(written.value);
    }
  }

  /** Value shown for a deposit, in units of its sixth decimal. */
  function CalculateUserValue(deposited: nat, entryIndex: nat, currentIndex: nat): nat {
    if entryIndex == 0 then 0 else HalfUp(deposited * currentIndex * 1_000_000, entryIndex)
  }

  function CalculateWeightedEntryIndex(previousDeposited: nat, previousIndex: nat, newDeposit: nat, currentIndex: nat)
    : nat
  {
    if previousDeposited + newDeposit == 0 then currentIndex
    else HalfUp(previousDeposited * previousIndex + newDeposit * currentIndex, previousDeposited + newDeposit)
  }

  /** The value shown is deposit times growth, to the nearest millionth. */
  lemma UserValueNearest(deposited: nat, entryIndex: nat, currentIndex: nat)
    requires entryIndex > 0
    ensures var v := CalculateUserValue(deposited, entryIndex, currentIndex);
            2_000_000 * (deposited * currentIndex) - entryIndex < 2 * (v * entryIndex)
            <= 2_000_000 * (deposited * currentIndex) + entryIndex
  {
  }

  /** The service's weighted index is the mean to the nearest unit. */
  lemma WeightedEntryIndexNearest(deposited: nat, oldIndex: nat, newDeposit: nat, currentIndex: nat)
    requires deposited + newDeposit > 0
    ensures var total := deposited + newDeposit;
            var mean, sum := CalculateWeightedEntryIndex(deposited, oldIndex, newDeposit, currentIndex),
                             deposited * oldIndex + newDeposit * currentIndex;
            2 * sum - total < 2 * (mean * total) <= 2 * sum + total
  {
  }

  /** The service's weighted index is the one of the shared utilities, or one unit above it. */
  lemma WeightedIndexesAgree(deposited: nat, oldIndex: nat, newDeposit: nat, currentIndex: nat)
    ensures var floored := VaultAccounting.CalculateWeightedIndex(deposited, oldIndex, newDeposit, currentIndex);
            floored <= CalculateWeightedEntryIndex(deposited, oldIndex, newDeposit, currentIndex) <= floored + 1
  {
    if deposited + newDeposit > 0 {
      HalfUpNearFloor(deposited * oldIndex + newDeposit * currentIndex, deposited + newDeposit);
    }
  }

  lemma GuardsInValues(index: nat, previous: nat, current: nat)
    requires index > 0
    ensures index * current < index * previous <==> current < previous
    ensures index * current > 2 * index * previous <==> current > 2 * previous
  {
    if current < previous { MulMono(current + 1, previous, index); } else { MulMono(previous, current, index); }
    if current > 2 * previous {
      MulMono(2 * previous + 1, current, index);
    } else {
      MulMono(current, 2 * previous, index);
    }
  }

  /** An update goes through exactly when the value is between the recorded one and its double; the
      rounded index then lies between the old one and its double, and the yield is the gain in value. */
  lemma GuardedUpdateBounds(row: VaultRow, current: nat)
    ensures var outcome := GuardedUpdate(row, current);
            && (outcome.Updated? <==> 0 < row.totalStaked <= current <= 2 * row.totalStaked)
            && (outcome.Updated? ==>
                  && row.currentIndex <= outcome.row.currentIndex <= 2 * row.currentIndex
                  && outcome.row.totalStaked == current
                  && outcome.row.cumulativeYield == row.cumulativeYield + (current - row.totalStaked) * YIELD_UNIT
                  && outcome.row.totalShares == row.totalShares)
  {
    var previous, index := row.totalStaked, row.currentIndex;
    GuardsInValues(index, previous, current);
    if 0 < previous <= current <= 2 * previous {
      HalfUpMono(index * previous, index * current, previous);
      HalfUpExact(index, previous);
      HalfUpMono(index * current, 2 * index * previous, previous);
      HalfUpExact(2 * index, previous);
    }
  }

  /** The index written is the old one times the growth in value, rounded to the nearest unit. */
  lemma GuardedIndexNearest(row: VaultRow, value: nat)
    requires GuardedUpdate(row, value).Updated?
    ensures var j, t := GuardedUpdate(row, value).row.currentIndex, row.totalStaked;
            2 * (row.currentIndex * value) - t < 2 * (j * t) <= 2 * (row.currentIndex * value) + t
  {
  }

  /** Which guard refuses which value. */
  lemma RefusedExactly(row: VaultRow, value: nat)
    ensures var outcome := GuardedUpdate(row, value);
            && (outcome == Refused(NoPreviousBalance) <==> row.totalStaked == 0)
            && (outcome == Refused(IndexDecreased) <==> value < row.totalStaked)
            && (outcome == Refused(GrowthTooLarge) <==> 0 < row.totalStaked && 2 * row.totalStaked < value)
            && outcome != Refused(CheckViolated) && outcome != Refused(VaultNotFound)
  {
    GuardsInValues(row.currentIndex, row.totalStaked, value);
    GuardedUpdateBounds(row, value);
  }

  /** Rounding the index up costs a solvent vault at most half an index unit per share. */
  lemma GuardedUpdateNearSolvent(row: VaultRow, current: nat, withdrawals: nat)
    requires Solvent(row, withdrawals) && withdrawals <= row.totalShares && GuardedUpdate(row, current).Updated?
    ensures var after := GuardedUpdate(row, current).row;
            2 * ((row.totalShares - withdrawals) * after.currentIndex)
            <= 2 * (after.totalStaked * PRECISION) + (row.totalShares - withdrawals)
  {
    GuardedUpdateBounds(row, current);
    GrowthKeepsSolvent(row.totalShares - withdrawals, row.currentIndex, row.totalStaked,
      HalfUp(row.currentIndex * current, row.totalStaked), current, 0, 1);
  }

  /** The guarded update rounds its index up. */
  predicate RoundsUp(row: VaultRow, value: nat)
    requires row.totalStaked > 0
  {
    2 * (row.currentIndex * value % row.totalStaked) >= row.totalStaked
  }

  /** From a solvent vault an update leaves a solvent one exactly when it does not round up, or when what
      its shares gain by the rounding fits in the slack, grown with the value. */
  lemma GuardedKeepsSolventExactly(row: VaultRow, value: nat, withdrawals: nat)
    requires Solvent(row, withdrawals)
    ensures var outcome := GuardedUpdate(row, value);
            outcome.Updated? ==>
              row.totalStaked > 0 && (Solvent(outcome.row, withdrawals) <==> RoundingFits(row, value, withdrawals))
  {
    var outcome := GuardedUpdate(row, value);
    if outcome.Updated? {
      var s, i, t := row.totalShares - withdrawals, row.currentIndex, row.totalStaked;
      HalfUpSteps(i * value, t);
      assert outcome.row.totalShares == row.totalShares && outcome.row.totalStaked == value;
      if s <= 0 {
        MulMono(s, 0, outcome.row.currentIndex);
      } else if !RoundsUp(row, value) {
        FloorBounds(i * value, t);
        NoGrowthOfDebt(s, i, t, i * value / t, value);
      } else {
        RoundedUpSolvent(s, i, t, value);
      }
    }
  }

  /** What rounding up adds to the claims of the shares left, times the old stake, fits in the slack. */
  ghost predicate RoundingFits(row: VaultRow, value: nat, withdrawals: nat)
    requires row.totalStaked > 0
  {
    var s, i, t := row.totalShares - withdrawals, row.currentIndex, row.totalStaked;
    s <= 0 || !RoundsUp(row, value) || s * (t - i * value % t) <= value * (t * PRECISION - s * i)
  }

  lemma RoundedUpSolvent(s: nat, i: nat, t: nat, value: nat)
    requires t > 0
    ensures s * (i * value / t + 1) <= value * PRECISION
       <==> s * (t - i * value % t) <= value * (t * PRECISION - s * i)
  {
    var n := i * value;
    assert (n / t + 1) * t == n - n % t + t by { assert n == (n / t) * t + n % t; }
    RaisedSolvent(s, i, t, value, n / t + 1, t - n % t);
  }

  lemma RaisedSolvent(s: nat, i: nat, t: nat, value: nat, raised: nat, added: nat)
    requires t > 0 && raised * t == i * value + added
    ensures s * raised <= value * PRECISION <==> s * added <= value * (t * PRECISION - s * i)
  {
    assert (s * raised) * t == s * (i * value) + s * added;
    assert value * (t * PRECISION - s * i) == (value * PRECISION) * t - s * (i * value);
    if s * raised <= value * PRECISION { MulMono(s * raised, value * PRECISION, t); }
    if (s * raised) * t <= (value * PRECISION) * t { MulCancel(s * raised, value * PRECISION, t); }
  }

  // ---- runs ----

  /** The row after updates with the given values, refused ones changing nothing. */
  ghost function After(row: VaultRow, values: seq<nat>): VaultRow {
    if values == [] then row else
    var before := After(row, values[..|values| - 1]);
    var outcome := GuardedUpdate(before, values[|values| - 1]);
    if outcome.Updated? then outcome.row else before
  }

  ghost function Successes(row: VaultRow, values: seq<nat>): nat {
    if values == [] then 0 else
    Successes(row, values[..|values| - 1])
    + if GuardedUpdate(After(row, values[..|values| - 1]), values[|values| - 1]).Updated? then 1 else 0
  }

  /** Over n successful updates the index stays in [I_0, 2^n * I_0] and the recorded yields add up to
      the gain in value. */
  lemma {:induction false} RunBounds(row: VaultRow, values: seq<nat>)
    ensures var after, n := After(row, values), Successes(row, values);
            && row.currentIndex <= after.currentIndex <= Pow2(n) * row.currentIndex
            && row.totalStaked <= after.totalStaked
            && after.totalShares == row.totalShares
            && after.cumulativeYield - row.cumulativeYield == (after.totalStaked - row.totalStaked) * YIELD_UNIT
  {
    if values != [] {
      var before, value := After(row, values[..|values| - 1]), values[|values| - 1];
      RunBounds(row, values[..|values| - 1]);
      GuardedUpdateBounds(before, value);
      if GuardedUpdate(before, value).Updated? {
        var n := Successes(row, values[..|values| - 1]);
        DoubledBound(row.currentIndex, before.currentIndex, After(row, values).currentIndex, n);
        Telescope(row.totalStaked, before.totalStaked, value);
      }
    } else {
      assert Pow2(0) == 1;
    }
  }

  lemma DoubledBound(i0: nat, i: nat, j: nat, n: nat)
    requires i <= Pow2(n) * i0 && j <= 2 * i
    ensures j <= Pow2(n + 1) * i0
  {
    assert Pow2(n + 1) * i0 == 2 * (Pow2(n) * i0);
  }

  lemma Telescope(v0: nat, v1: nat, v2: nat)
    ensures (v1 - v0) * YIELD_UNIT + (v2 - v1) * YIELD_UNIT == (v2 - v0) * YIELD_UNIT
  {
  }

  /** The index follows the value: after n successes the rounding has moved I_n / I_0 away from
      V_n / V_0 by at most n half units, that is 2 * |I_n * V_0 - I_0 * V_n| <= n * V_n. */
  lemma {:induction false} IndexFollowsValue(row: VaultRow, values: seq<nat>)
    ensures var after, n := After(row, values), Successes(row, values);
            var drift := after.currentIndex * row.totalStaked - row.currentIndex * after.totalStaked;
            -(n * after.totalStaked) <= 2 * drift <= n * after.totalStaked
  {
    if values != [] {
      var prefix := values[..|values| - 1];
      IndexFollowsValue(row, prefix);
      RunBounds(row, prefix);
      var before, value := After(row, prefix), values[|values| - 1];
      GuardedUpdateBounds(before, value);
      if GuardedUpdate(before, value).Updated? && row.totalStaked > 0 {
        DriftStep(row.currentIndex, row.totalStaked, before.currentIndex, before.totalStaked,
          HalfUp(before.currentIndex * value, before.totalStaked), value, Successes(row, prefix));
      } else if GuardedUpdate(before, value).Updated? {
        EmptyStaysEmpty(row, prefix);
      }
    }
  }

  /** A vault without a recorded value never gets one from these updates. */
  lemma {:induction false} EmptyStaysEmpty(row: VaultRow, values: seq<nat>)
    requires row.totalStaked == 0
    ensures After(row, values) == row
  {
    if values != [] { EmptyStaysEmpty(row, values[..|values| - 1]); }
  }

  lemma DriftStep(i0: nat, v0: nat, i: nat, p: nat, j: nat, c: nat, k: nat)
    requires 0 < v0 <= p <= c
    requires -(k * p) <= 2 * (i * v0 - i0 * p) <= k * p
    requires 2 * (i * c) - p < 2 * (j * p) <= 2 * (i * c) + p
    ensures -((k + 1) * c) <= 2 * (j * v0 - i0 * c) <= (k + 1) * c
  {
    var round, drift, next := j * p - i * c, i * v0 - i0 * p, j * v0 - i0 * c;
    DriftIdentity(i0, v0, i, p, j, c);
    OneSide(round, drift, next, v0, p, c, k);
    Negate(next, p, round, v0, drift, c);
    OneSide(-round, -drift, -next, v0, p, c, k);
  }

  lemma DriftIdentity(i0: nat, v0: nat, i: nat, p: nat, j: nat, c: nat)
    ensures (j * v0 - i0 * c) * p == (j * p - i * c) * v0 + (i * v0 - i0 * p) * c
  {
    assert (j * v0) * p == (j * p) * v0;
    assert (i0 * c) * p == (i0 * p) * c;
    assert (i * c) * v0 == (i * v0) * c;
    assert (j * v0 - i0 * c) * p == (j * v0) * p - (i0 * c) * p;
    assert (j * p - i * c) * v0 == (j * p) * v0 - (i * c) * v0;
    assert (i * v0 - i0 * p) * c == (i * v0) * c - (i0 * p) * c;
  }

  lemma Negate(a: int, p: int, b: int, v: int, d: int, c: int)
    requires a * p == b * v + d * c
    ensures (-a) * p == (-b) * v + (-d) * c
  {
  }

  lemma OneSide(round: int, drift: int, next: int, v0: nat, p: nat, c: nat, k: nat)
    requires 0 < v0 <= p <= c
    requires next * p == round * v0 + drift * c
    requires 2 * round <= p && 2 * drift <= k * p
    ensures 2 * next <= (k + 1) * c
  {
    MulMono(2 * round, p, v0);
    MulMono(v0, c, p);
    MulMono(2 * drift, k * p, c);
    assert (k * p) * c == (k * c) * p;
    assert (k + 1) * c == k * c + c;
    assert (2 * next) * p == (2 * round) * v0 + (2 * drift) * c;
    assert ((k + 1) * c) * p == (k * c) * p + c * p;
    MulCancel(2 * next, (k + 1) * c, p);
  }

  /** Solvency over a run: with s shares not yet used up by withdrawals, n successes leave
      s * I_n * V_0 <= V_n * (V_0 * P + n * s / 2), half an index unit per share and update. */
  lemma GuardedRunNearSolvent(row: VaultRow, values: seq<nat>, withdrawals: nat)
    requires Solvent(row, withdrawals) && withdrawals <= row.totalShares
    ensures var after, n, s := After(row, values), Successes(row, values), row.totalShares - withdrawals;
            && after.totalShares == row.totalShares
            && 2 * (s * after.currentIndex) * row.totalStaked
               <= after.totalStaked * (2 * (row.totalStaked * PRECISION) + n * s)
  {
    RunBounds(row, values);
    IndexFollowsValue(row, values);
    var after := After(row, values);
    SharesTimesDrift(row.totalShares - withdrawals, row.currentIndex, row.totalStaked,
      after.currentIndex, after.totalStaked, Successes(row, values));
  }

  lemma SharesTimesDrift(s: nat, i0: nat, v0: nat, i: nat, v: nat, n: nat)
    requires s * i0 <= v0 * PRECISION && 2 * (i * v0 - i0 * v) <= n * v
    ensures 2 * (s * i) * v0 <= v * (2 * (v0 * PRECISION) + n * s)
  {
    MulMono(2 * (i * v0), 2 * (i0 * v) + n * v, s);
    MulMono(s * i0, v0 * PRECISION, 2 * v);
    assert (2 * (i * v0)) * s == 2 * (s * i) * v0;
    assert (2 * (i0 * v) + n * v) * s == (s * i0) * (2 * v) + v * (n * s);
    assert (v0 * PRECISION) * (2 * v) == v * (2 * (v0 * PRECISION));
    assert v * (2 * (v0 * PRECISION) + n * s) == v * (2 * (v0 * PRECISION)) + v * (n * s);
  }

  /** No run of updates ever lowers the value a user is shown. */
  lemma UserValueNeverFalls(row: VaultRow, values: seq<nat>, more: seq<nat>, deposited: nat, entryIndex: nat)
    ensures CalculateUserValue(deposited, entryIndex, After(row, values).currentIndex)
         <= CalculateUserValue(deposited, entryIndex, After(row, values + more).currentIndex)
  {
    RunConcat(row, values, more);
    RunBounds(After(row, values), more);
    var i, j := After(row, values).currentIndex, After(row, values + more).currentIndex;
    if entryIndex > 0 {
      MulMono(i, j, deposited);
      HalfUpMono(deposited * i * 1_000_000, deposited * j * 1_000_000, entryIndex);
    }
  }

  lemma {:induction false} RunConcat(row: VaultRow, values: seq<nat>, more: seq<nat>)
    ensures After(row, values + more) == After(After(row, values), more)
  {
    if more == [] {
      assert values + more == values;
    } else {
      var n := |more|;
      assert (values + more)[..|values + more| - 1] == values + more[..n - 1];
      RunConcat(row, values, more[..n - 1]);
    }
  }
}

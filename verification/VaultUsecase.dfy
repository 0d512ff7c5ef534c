/** The two calls of the API that write a vault's index or stake (packages/core/usecase/b2b/vault.usecase.ts):
    yield entered by an operator, and a balance read from the protocols after a deposit or withdrawal. */
module VaultUsecase {
  import opened Numbers
  import opened VaultRows

  datatype Error = VaultNotFound | NoStakedBalance | CheckViolated

  datatype Reply = Done | Thrown(error: Error)

  /** The growth factor is floored at the 18th decimal, and the index toward zero. The yield goes to the
      stake, and to the query together with the old total, which the query adds once more. */
  function AddYield(row: VaultRow, earned: int): Option<VaultRow> {
    if row.totalStaked == 0 then None else
    var factor := (row.totalStaked + earned) * PRECISION / row.totalStaked;
    UpdateClientVaultIndex(row, TruncDiv(row.currentIndex * factor, PRECISION),
                           row.cumulativeYield + earned * YIELD_UNIT, row.totalStaked + earned)
  }

  /** Only a gain over the recorded balance counts as yield. */
  function SyncBalance(row: VaultRow, balance: nat): VaultRow {
    var gain := if balance > row.totalStaked then balance - row.totalStaked else 0;
    UpdateOnChainBalances(row, balance, gain * YIELD_UNIT)
  }

  class VaultUseCase {
    var vaults: map<string, VaultRow>

    constructor (vaults: map<string, VaultRow>)
      ensures this.vaults == vaults
    {
      this.vaults := vaults;
    }

    method UpdateIndexWithYield(vaultId: string, earned: int) returns (reply: Reply)
      modifies this
      ensures reply == Thrown(VaultNotFound) <==> vaultId !in old(vaults)
      ensures reply == Thrown(NoStakedBalance) <==> vaultId in old(vaults) && old(vaults)[vaultId].totalStaked == 0
      ensures vaults == if vaultId in old(vaults) && AddYield(old(vaults)[vaultId], earned).Some?
                        then old(vaults)[vaultId := AddYield(old(vaults)[vaultId], earned).value] else old(vaults)
      ensures reply == Done <==> vaultId in old(vaults) && AddYield(old(vaults)[vaultId], earned).Some?
    {
      if vaultId !in vaults { return Thrown(VaultNotFound); }
      var vault := vaults[vaultId];
      if vault.totalStaked == 0 { return Thrown(NoStakedBalance); }
      var factor := (vault.totalStaked + earned) * PRECISION / vault.totalStaked;
      var newIndex := TruncDiv(vault.currentIndex * factor, PRECISION);
      var newCumulativeYield := vault.cumulativeYield + earned * YIELD_UNIT;
      var written := UpdateClientVaultIndex(vault, newIndex, newCumulativeYield, vault.totalStaked + earned);
      if written.None? { return Thrown(CheckViolated); }
      vaults := vaults[vaultId := written.value];
      return Done;
    }

    /** An UPDATE of one row, if there is one. */
    method UpdateOnChainBalances(vaultId: string, balance: nat)
      modifies this
      ensures vaults == if vaultId in old(vaults)
                        then old(vaults)[vaultId := SyncBalance(old(vaults)[vaultId], balance)] else old(vaults)
    {
      if vaultId in vaults { vaults := vaults[vaultId := SyncBalance(vaults[vaultId], balance)]; }
    }
  }

  /** The index follows the stake the yield is added to: J * T <= I * (T + earned). */
  lemma AddedYieldIsFunded(row: VaultRow, earned: int)
    requires AddYield(row, earned).Some?
    ensures var after := AddYield(row, earned).value;
            && row.totalStaked > 0 && after.totalStaked == row.totalStaked + earned
            && after.currentIndex * row.totalStaked <= row.currentIndex * after.totalStaked
  {
    var t, i := row.totalStaked, row.currentIndex;
    var c := t + earned;
    var factor := c * PRECISION / t;
    FloorBounds(c * PRECISION, t);
    assert c * PRECISION >= 0;
    var j := i * factor / PRECISION;
    FloorBounds(i * factor, PRECISION);
    MulMono(j * PRECISION, i * factor, t);
    MulMono(factor * t, c * PRECISION, i);
    assert (j * PRECISION) * t == (j * t) * PRECISION;
    assert (i * factor) * t == (factor * t) * i;
    assert (c * PRECISION) * i == (i * c) * PRECISION;
    MulCancel(j * t, i * c, PRECISION);
  }

  /** Nor does it fall behind that growth by more than one unit and the part of the growth factor beyond its
      18th decimal: I*(T + earned) - (J + 1)*T < I*T / 10^18. A loss lowers the index accordingly. */
  lemma AddedYieldRaisesIndex(row: VaultRow, earned: int)
    requires AddYield(row, earned).Some?
    ensures var j, t := AddYield(row, earned).value.currentIndex, row.totalStaked;
            row.currentIndex * (t + earned) * 1_000_000_000_000_000_000
            < (j + 1) * t * 1_000_000_000_000_000_000 + row.currentIndex * t
  {
    var t, i := row.totalStaked, row.currentIndex;
    var factor := (t + earned) * PRECISION / t;
    var j := AddYield(row, earned).value.currentIndex;
    FloorBounds((t + earned) * PRECISION, t);
    assert (t + earned) * PRECISION >= 0;
    FloorBounds(i * factor, PRECISION);
    ScaledBelow(i, t, t + earned, factor, j, PRECISION);
  }

  lemma ScaledBelow(i: nat, t: nat, c: nat, factor: nat, j: nat, p: nat)
    requires i > 0 && t > 0 && c * p < factor * t + t && i * factor < j * p + p
    ensures i * c * p < (j + 1) * t * p + i * t
  {
    MulMono(c * p + 1, factor * t + t, i);
    MulMono(i * factor, j * p + p, t);
    Regrouped(i, t, c, factor, j, p);
  }

  lemma Regrouped(i: nat, t: nat, c: nat, factor: nat, j: nat, p: nat)
    ensures (c * p + 1) * i == i * c * p + i
    ensures (factor * t + t) * i == (i * factor) * t + i * t
    ensures (j * p + p) * t == (j + 1) * t * p
  {
  }

  /** An entered yield is recorded as entered exactly when no yield was recorded before. */
  lemma AddedYieldCountedOnce(row: VaultRow, earned: int)
    ensures var written := AddYield(row, earned);
            written.Some? ==>
              && written.value.cumulativeYield == 2 * row.cumulativeYield + earned * YIELD_UNIT
              && (written.value.cumulativeYield == row.cumulativeYield + earned * YIELD_UNIT
                  <==> row.cumulativeYield == 0)
  {
  }

  /** A positive yield entered for a staked vault is always written. */
  lemma AddedYieldIsWritten(row: VaultRow, earned: nat)
    requires row.totalStaked > 0
    ensures AddYield(row, earned).Some?
    ensures AddYield(row, earned).value.currentIndex >= row.currentIndex
  {
    var t := row.totalStaked;
    FloorGreatest((t + earned) * PRECISION, t, PRECISION);
    var factor := (t + earned) * PRECISION / t;
    MulMono(PRECISION, factor, row.currentIndex);
    FloorGreatest(row.currentIndex * factor, PRECISION, row.currentIndex);
  }

  /** Over any run of syncs the stake is that of the last, the index and the shares stay, and the recorded
      yield is what the stake rose by and all it fell by between: it takes no loss back. */
  lemma {:induction false} SyncsRecordRises(row: VaultRow, balances: seq<nat>)
    ensures var after := AfterSyncs(row, balances);
            && after.totalStaked == (if balances == [] then row.totalStaked else balances[|balances| - 1])
            && after.currentIndex == row.currentIndex && after.totalShares == row.totalShares
            && after.cumulativeYield - row.cumulativeYield
               == (after.totalStaked - row.totalStaked + Falls(row.totalStaked, balances)) * 1_000_000_000_000_000_000
  {
    if balances != [] { SyncsRecordRises(row, balances[..|balances| - 1]); }
  }

  ghost function AfterSyncs(row: VaultRow, balances: seq<nat>): VaultRow {
    if balances == [] then row
    else SyncBalance(AfterSyncs(row, balances[..|balances| - 1]), balances[|balances| - 1])
  }

  /** What the stake fell by, fall by fall. */
  ghost function Falls(start: nat, balances: seq<nat>): nat {
    if balances == [] then 0 else
    var n := |balances|;
    var before := if n == 1 then start else balances[n - 2];
    Falls(start, balances[..n - 1]) + if balances[n - 1] < before then before - balances[n - 1] else 0
  }
}

/** The split of harvested yield between client, platform and end users
    (packages/core/service/revenue.service.ts). Yields count units of their 18th decimal place. */
module RevenueSplit {
  import opened Numbers
  import opened VaultRows

  /** Client share and platform fee in hundredths of a percent, within the CHECKs of the schema. */
  datatype FeeRecord = FeeRecord(clientShare: nat, platformFee: nat)

  type Fees = f: FeeRecord | 1_000 <= f.clientShare <= 2_000 && 500 <= f.platformFee <= 1_000
    witness FeeRecord(1_500, 1_000)

  const WHOLE: nat := 10_000

  function EnduserShare(fees: Fees): nat { WHOLE - fees.clientShare - fees.platformFee }

  /** The three parts as toFixed(18) prints them. */
  datatype Split = Split(client: nat, platform: nat, enduser: nat)

  function Part(rawYield: nat, share: nat): nat { HalfUp(rawYield * share, WHOLE) }

  function SplitYield(rawYield: nat, fees: Fees): Split {
    Split(Part(rawYield, fees.clientShare), Part(rawYield, fees.platformFee), Part(rawYield, EnduserShare(fees)))
  }

  function TotalOf(split: Split): nat { split.client + split.platform + split.enduser }

  /** RecordYieldDistribution: the yield column rises by the three parts; the staked balance by the
      literal "0" the repository passes, so the end users' part does not stay staked. */
  function Record(row: VaultRow, split: Split): VaultRow {
    row.(cumulativeYield := row.cumulativeYield + TotalOf(split), totalStaked := row.totalStaked + 0)
  }

  datatype Error = NotPositive | VaultNotFound | ClientNotFound

  datatype Reply = Distributed(split: Split) | Thrown(error: Error)

  class RevenueService {
    var vaults: map<string, VaultRow>
    const owners: map<string, string>
    const fees: map<string, Fees>

    constructor (vaults: map<string, VaultRow>, owners: map<string, string>, fees: map<string, Fees>)
      ensures this.vaults == vaults && this.owners == owners && this.fees == fees
    {
      this.vaults, this.owners, this.fees := vaults, owners, fees;
    }

    method DistributeYield(vaultId: string, rawYield: int) returns (reply: Reply)
      modifies this
      ensures reply.Distributed? <==>
                rawYield > 0 && vaultId in vaults && vaultId in owners && owners[vaultId] in fees
      ensures reply.Distributed? ==>
                && reply.split == SplitYield(rawYield, fees[owners[vaultId]])
                && vaultId in old(vaults)
                && vaults == old(vaults)[vaultId := Record(old(vaults)[vaultId], reply.split)]
      ensures reply.Thrown? ==> vaults == old(vaults)
      ensures reply == Thrown(NotPositive) <==> rawYield <= 0
      ensures reply == Thrown(VaultNotFound) <==> rawYield > 0 && (vaultId !in old(vaults) || vaultId !in owners)
    {
      if rawYield <= 0 { return Thrown(NotPositive); }
      if vaultId !in vaults || vaultId !in owners { return Thrown(VaultNotFound); }
      if owners[vaultId] !in fees { return Thrown(ClientNotFound); }
      var config := fees[owners[vaultId]];
      // The exact parts add up to the yield, so the tolerance check never fires: see ExactPartsAddUp.
      var split := SplitYield(rawYield, config);
      vaults := vaults[vaultId := Record(vaults[vaultId], split)];
      return Distributed(split);
    }
  }

  /** Before rounding the parts are the whole yield. */
  lemma ExactPartsAddUp(rawYield: nat, fees: Fees)
    ensures rawYield * fees.clientShare + rawYield * fees.platformFee + rawYield * EnduserShare(fees)
         == rawYield * WHOLE
  {
    assert fees.clientShare + fees.platformFee + EnduserShare(fees) == WHOLE;
    assert rawYield * (fees.clientShare + fees.platformFee + EnduserShare(fees))
        == rawYield * fees.clientShare + rawYield * fees.platformFee + rawYield * EnduserShare(fees);
  }

  /** The rounded parts miss the yield by at most one unit. */
  lemma RoundedPartsDrift(rawYield: nat, fees: Fees)
    ensures -1 <= TotalOf(SplitYield(rawYield, fees)) - rawYield <= 1
  {
    ExactPartsAddUp(rawYield, fees);
    hide HalfUp;
    ThreePartsOfWhole(rawYield * fees.clientShare, rawYield * fees.platformFee, rawYield * EnduserShare(fees),
      rawYield, WHOLE);
  }

  /** An amount's hundredths of a percent, to the nearest unit. */
  ghost predicate NearestPart(rawYield: nat, share: nat, part: nat) {
    2 * (rawYield * share) - 10_000 < 20_000 * part <= 2 * (rawYield * share) + 10_000
  }

  /** Each party gets its own percentage, to the nearest unit, and the end users what the two fees leave. The
      yield column rises by the three parts and no other figure moves. */
  lemma PartsNearest(rawYield: nat, fees: Fees, row: VaultRow)
    ensures var split := SplitYield(rawYield, fees);
            && NearestPart(rawYield, fees.clientShare, split.client)
            && NearestPart(rawYield, fees.platformFee, split.platform)
            && NearestPart(rawYield, 10_000 - fees.clientShare - fees.platformFee, split.enduser)
            && Record(row, split)
               == row.(cumulativeYield := row.cumulativeYield + split.client + split.platform + split.enduser)
  {
  }

  /** The end users get at least 70 percent, also after rounding, and exactly when the fees are at their
      upper bounds no more than that. */
  lemma EndusersGetSeventyPercent(rawYield: nat, fees: Fees)
    ensures EnduserShare(fees) >= 7_000
    ensures SplitYield(rawYield, fees).enduser >= HalfUp(rawYield * 7_000, WHOLE)
    ensures EnduserShare(fees) == 7_000 <==> fees.clientShare == 2_000 && fees.platformFee == 1_000
  {
    MulMono(7_000, EnduserShare(fees), rawYield);
    HalfUpMono(rawYield * 7_000, rawYield * EnduserShare(fees), WHOLE);
  }

  /** One distribution of a run: its yield and the fees in force. */
  datatype Distribution = Distribution(rawYield: nat, fees: Fees)

  ghost function AfterDistributions(row: VaultRow, ds: seq<Distribution>): VaultRow {
    if ds == [] then row else
    var d := ds[|ds| - 1];
    Record(AfterDistributions(row, ds[..|ds| - 1]), SplitYield(d.rawYield, d.fees))
  }

  ghost function RawTotal(ds: seq<Distribution>): nat {
    if ds == [] then 0 else RawTotal(ds[..|ds| - 1]) + ds[|ds| - 1].rawYield
  }

  /** Over n distributions the yield column is within n units of the yield harvested, and the staked
      balance has not moved. */
  lemma {:induction false} DistributionsDrift(row: VaultRow, ds: seq<Distribution>)
    ensures var after := AfterDistributions(row, ds);
            && -|ds| <= after.cumulativeYield - row.cumulativeYield - RawTotal(ds) <= |ds|
            && after.totalStaked == row.totalStaked
            && after.currentIndex == row.currentIndex
  {
    if ds != [] {
      DistributionsDrift(row, ds[..|ds| - 1]);
      RoundedPartsDrift(ds[|ds| - 1].rawYield, ds[|ds| - 1].fees);
    }
  }
}

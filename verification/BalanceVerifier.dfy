/** On-chain balance reads of a vault (packages/core/service/vault-balance-verifier.service.ts). */
module BalanceVerifier {
  import opened Numbers
  import opened Sums

  datatype Protocol = Aave | Compound | Morpho

  /** A protocol is not configured for the vault, or its read throws, or it answers. */
  datatype Read = NotAllocated | Throws | Answers(balance: nat)

  datatype Position = Position(protocol: Protocol, balance: nat)

  function Answered(protocol: Protocol, read: Read): seq<Position> {
    match read
    case Answers(balance) => [Position(protocol, balance)]
    case _ => []
  }

  ghost function BalanceOf(): Position -> nat { (p: Position) => p.balance }

  /** Whichever reads fail, the total is the sum of the breakdown and the breakdown holds exactly
      the answers, in protocol order. The Morpho read is not implemented and always throws. */
  method GetTotalStakedBalance(aave: Read, compound: Read, morphoAllocated: bool)
    returns (total: nat, breakdown: seq<Position>)
    ensures total == Sum(breakdown, BalanceOf())
    ensures breakdown == Answered(Aave, aave) + Answered(Compound, compound)
    ensures total == (if aave.Answers? then aave.balance else 0) + (if compound.Answers? then compound.balance else 0)
  {
    total, breakdown := 0, [];
    if aave.Answers? {
      SumAppend(breakdown, Position(Aave, aave.balance), BalanceOf());
      breakdown := breakdown + [Position(Aave, aave.balance)];
      total := total + aave.balance;
    }
    if compound.Answers? {
      SumAppend(breakdown, Position(Compound, compound.balance), BalanceOf());
      breakdown := breakdown + [Position(Compound, compound.balance)];
      total := total + compound.balance;
    }
    if morphoAllocated {
      // getMorphoBalance throws here and the exception is swallowed: nothing is added.
    }
  }

  function CalculateIndexGrowth(current: nat, previous: nat, index: nat): nat {
    if previous == 0 then index
    else index * (current * DECIMAL_36 / previous) / DECIMAL_36
  }
}

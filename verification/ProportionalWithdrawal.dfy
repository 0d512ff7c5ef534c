/** The split of a withdrawal over the lending protocols in proportion to their balances
    (apps/b2b-api/src/router/defi-protocol.router.ts). All amounts are whole base units. */
module ProportionalWithdrawal {
  import opened Numbers
  import opened Sums
  import opened BalanceVerifier

  datatype Balances = Balances(aave: nat, compound: nat, morpho: nat)

  datatype Plan = NoFunds | Withdrawals(parts: seq<Position>)

  function TotalOf(b: Balances): nat { b.aave + b.compound + b.morpho }

  function HeldIn(b: Balances, protocol: Protocol): nat {
    match protocol
    case Aave => b.aave
    case Compound => b.compound
    case Morpho => b.morpho
  }

  /** A request of units/scale base units: any decimal amount is such a fraction. */
  datatype RequestRecord = Request(units: nat, scale: nat)

  type Request = r: RequestRecord | r.scale > 0 witness Request(0, 1)

  /** A protocol's share of the request, rounded to the nearest base unit. */
  function Share(request: Request, b: Balances, protocol: Protocol): nat
    requires TotalOf(b) > 0
  {
    assert TotalOf(b) * request.scale > 0;
    HalfUp(request.units * HeldIn(b, protocol), TotalOf(b) * request.scale)
  }

  function NonZero(parts: seq<Position>): seq<Position> {
    if parts == [] then []
    else NonZero(parts[..|parts| - 1]) + if parts[|parts| - 1].balance > 0 then [parts[|parts| - 1]] else []
  }

  function AllShares(request: Request, b: Balances): seq<Position>
    requires TotalOf(b) > 0
  {
    [Position(Aave, Share(request, b, Aave)),
     Position(Compound, Share(request, b, Compound)),
     Position(Morpho, Share(request, b, Morpho))]
  }

  function PlanWithdrawal(request: Request, b: Balances): Plan {
    if TotalOf(b) == 0 then NoFunds else Withdrawals(NonZero(AllShares(request, b)))
  }

  lemma {:induction false} NonZeroKeepsSum(parts: seq<Position>)
    ensures Sum(NonZero(parts), BalanceOf()) == Sum(parts, BalanceOf())
    ensures forall p :: p in NonZero(parts) <==> p in parts && p.balance > 0
  {
    if parts != [] {
      var prefix, last := parts[..|parts| - 1], parts[|parts| - 1];
      assert parts == prefix + [last];
      NonZeroKeepsSum(prefix);
      if last.balance > 0 {
        SumAppend(NonZero(prefix), last, BalanceOf());
      } else {
        assert NonZero(prefix) + [] == NonZero(prefix);
      }
    }
  }

  lemma SumOfThree(p: Position, q: Position, r: Position)
    ensures Sum([p, q, r], BalanceOf()) == p.balance + q.balance + r.balance
  {
    SumAppend([p, q], r, BalanceOf());
    SumAppend([p], q, BalanceOf());
    SumAppend([], p, BalanceOf());
    assert [] + [p] == [p] && [p] + [q] == [p, q] && [p, q] + [r] == [p, q, r];
  }

  lemma SharesNearRequest(request: Request, b: Balances)
    requires TotalOf(b) > 0
    ensures var total := Share(request, b, Aave) + Share(request, b, Compound) + Share(request, b, Morpho);
            2 * request.units - 3 * request.scale < 2 * (total * request.scale) <= 2 * request.units + 3 * request.scale
  {
    var t := TotalOf(b);
    assert t * request.scale > 0;
    Distribute(request.units, b.aave, b.compound, b.morpho);
    ThreeRoundings(request.units * b.aave, request.units * b.compound, request.units * b.morpho, t * request.scale);
    var total := Share(request, b, Aave) + Share(request, b, Compound) + Share(request, b, Morpho);
    CancelTotal(total, t, request.units, request.scale);
  }

  lemma CancelTotal(total: nat, t: nat, units: nat, scale: nat)
    requires t > 0
    requires 2 * (units * t) - 3 * (t * scale) < 2 * (total * (t * scale)) <= 2 * (units * t) + 3 * (t * scale)
    ensures 2 * units - 3 * scale < 2 * (total * scale) <= 2 * units + 3 * scale
  {
    assert total * (t * scale) == (total * scale) * t;
    assert (2 * units - 3 * scale) * t == 2 * (units * t) - 3 * (t * scale);
    assert (2 * units + 3 * scale) * t == 2 * (units * t) + 3 * (t * scale);
    assert (2 * (total * scale)) * t == 2 * ((total * scale) * t);
    MulCancelStrict(2 * units - 3 * scale, 2 * (total * scale), t);
    MulCancel(2 * (total * scale), 2 * units + 3 * scale, t);
  }

  lemma PlanTotal(request: Request, b: Balances)
    requires TotalOf(b) > 0
    ensures Sum(PlanWithdrawal(request, b).parts, BalanceOf())
         == Share(request, b, Aave) + Share(request, b, Compound) + Share(request, b, Morpho)
  {
    var parts := AllShares(request, b);
    NonZeroKeepsSum(parts);
    hide NonZero, Share, HeldIn, TotalOf;
    SumOfThree(parts[0], parts[1], parts[2]);
    assert parts == [parts[0], parts[1], parts[2]];
  }

  /** The planned parts add up to the request, give or take one and a half base units, and one for a
      request in whole units; dropping the zero parts changes nothing. */
  lemma PlanNearRequest(request: Request, b: Balances)
    requires TotalOf(b) > 0
    ensures var total := Sum(PlanWithdrawal(request, b).parts, BalanceOf());
            && 2 * request.units - 3 * request.scale < 2 * (total * request.scale)
              <= 2 * request.units + 3 * request.scale
            && (request.scale == 1 ==> request.units - 1 <= total <= request.units + 1)
  {
    PlanTotal(request, b);
    SharesNearRequest(request, b);
    hide PlanWithdrawal, Sum;
    WholeUnits(Sum(PlanWithdrawal(request, b).parts, BalanceOf()), request.units, request.scale);
  }

  lemma WholeUnits(total: nat, units: nat, scale: nat)
    requires 2 * units - 3 * scale < 2 * (total * scale) <= 2 * units + 3 * scale
    ensures scale == 1 ==> units - 1 <= total <= units + 1
  {
  }

  lemma Distribute(w: nat, a: nat, b: nat, c: nat)
    ensures w * a + w * b + w * c == w * (a + b + c)
  {
  }

  /** The nearest base unit to a protocol's proportion of the request. */
  ghost predicate NearestPart(request: Request, held: nat, total: nat, part: nat) {
    var whole := total * request.scale;
    2 * (request.units * held) - whole < 2 * (part * whole) <= 2 * (request.units * held) + whole
  }

  function PartIfAny(protocol: Protocol, part: nat): seq<Position> {
    if part > 0 then [Position(protocol, part)] else []
  }

  /** The whole plan, in the figures of the balances: each protocol in turn with the nearest unit to its own
      balance's proportion, left out if that is zero. There is no plan exactly when nothing is held. */
  lemma PlanExactly(request: Request, b: Balances, a: nat, c: nat, m: nat)
    requires NearestPart(request, b.aave, b.aave + b.compound + b.morpho, a)
    requires NearestPart(request, b.compound, b.aave + b.compound + b.morpho, c)
    requires NearestPart(request, b.morpho, b.aave + b.compound + b.morpho, m)
    ensures PlanWithdrawal(request, b) == NoFunds <==> b.aave + b.compound + b.morpho == 0
    ensures b.aave + b.compound + b.morpho > 0 ==>
              PlanWithdrawal(request, b).Withdrawals?
              && PlanWithdrawal(request, b).parts
                 == PartIfAny(Aave, a) + PartIfAny(Compound, c) + PartIfAny(Morpho, m)
  {
    var t := TotalOf(b);
    if t > 0 {
      assert t * request.scale > 0;
      HalfUpUnique(request.units * b.aave, t * request.scale, a);
      HalfUpUnique(request.units * b.compound, t * request.scale, c);
      HalfUpUnique(request.units * b.morpho, t * request.scale, m);
      assert AllShares(request, b) == [Position(Aave, a), Position(Compound, c), Position(Morpho, m)];
      hide AllShares, Share, TotalOf;
      NonZeroOfThree(a, c, m);
    }
  }

  lemma NonZeroOfThree(a: nat, c: nat, m: nat)
    ensures NonZero([Position(Aave, a), Position(Compound, c), Position(Morpho, m)])
         == PartIfAny(Aave, a) + PartIfAny(Compound, c) + PartIfAny(Morpho, m)
  {
    var parts := [Position(Aave, a), Position(Compound, c), Position(Morpho, m)];
    assert parts[..2] == [Position(Aave, a), Position(Compound, c)];
    assert parts[..2][..1] == [Position(Aave, a)] && [Position(Aave, a)][..0] == [];
    assert NonZero([Position(Aave, a)]) == PartIfAny(Aave, a);
    assert NonZero(parts[..2]) == PartIfAny(Aave, a) + PartIfAny(Compound, c);
  }

  /** A request that is covered in total asks no protocol for more than it holds. */
  lemma PlanIsCovered(request: Request, b: Balances)
    requires 0 < TotalOf(b) && request.units <= TotalOf(b) * request.scale
    ensures forall p <- PlanWithdrawal(request, b).parts ::
              && 0 < p.balance
              && (p.protocol == Aave ==> p.balance <= b.aave)
              && (p.protocol == Compound ==> p.balance <= b.compound)
              && (p.protocol == Morpho ==> p.balance <= b.morpho)
  {
    NonZeroKeepsSum(AllShares(request, b));
    forall p | p in PlanWithdrawal(request, b).parts ensures 0 < p.balance <= HeldIn(b, p.protocol) {
      assert p in AllShares(request, b);
      assert TotalOf(b) * request.scale > 0;
      ShareIsCovered(request.units, HeldIn(b, p.protocol), TotalOf(b) * request.scale);
    }
  }

  lemma ShareIsCovered(units: nat, balance: nat, total: nat)
    requires 0 < total && units <= total
    ensures HalfUp(units * balance, total) <= balance
  {
    MulMono(units, total, balance);
    HalfUpMono(units * balance, balance * total, total);
    HalfUpExact(balance, total);
  }

  /** Asking for everything plans every balance to the unit. */
  lemma FullWithdrawal(b: Balances)
    requires b.aave + b.compound + b.morpho > 0
    ensures PlanWithdrawal(Request(b.aave + b.compound + b.morpho, 1), b)
         == Withdrawals(PartIfAny(Aave, b.aave) + PartIfAny(Compound, b.compound) + PartIfAny(Morpho, b.morpho))
  {
    var total := b.aave + b.compound + b.morpho;
    WholeIsNearest(total, b.aave);
    WholeIsNearest(total, b.compound);
    WholeIsNearest(total, b.morpho);
    hide NearestPart;
    PlanExactly(Request(total, 1), b, b.aave, b.compound, b.morpho);
  }

  lemma WholeIsNearest(total: nat, held: nat)
    requires total > 0
    ensures NearestPart(Request(total, 1), held, total, held)
  {
    assert total * held == held * total;
  }

  /** The part of a unit that a protocol's share of a whole request has beyond whole units, in parts of the
      total. */
  function Remainder(units: nat, b: Balances, protocol: Protocol): nat
    requires TotalOf(b) > 0
  {
    units * HeldIn(b, protocol) % TotalOf(b)
  }

  function RoundedUp(units: nat, b: Balances, protocol: Protocol): nat
    requires TotalOf(b) > 0
  {
    if 2 * Remainder(units, b, protocol) >= TotalOf(b) then 1 else 0
  }

  lemma RoundedProduct(n: nat, t: nat)
    requires t > 0
    ensures HalfUp(n, t) * t == n - n % t + (if 2 * (n % t) >= t then 1 else 0) * t
  {
    HalfUpSteps(n, t);
    assert n == (n / t) * t + n % t;
  }

  lemma ShareSteps(units: nat, b: Balances, protocol: Protocol)
    requires TotalOf(b) > 0
    ensures Share(Request(units, 1), b, protocol) * TotalOf(b)
         == units * HeldIn(b, protocol) - Remainder(units, b, protocol) + RoundedUp(units, b, protocol) * TotalOf(b)
  {
    RoundedProduct(units * HeldIn(b, protocol), TotalOf(b));
    assert TotalOf(b) * 1 == TotalOf(b);
    hide HalfUp, TotalOf, HeldIn;
  }

  /** The parts of a whole request add up to it exactly when the parts rounded up make good what all three
      remainders lost. */
  lemma PlanMeetsRequestExactly(units: nat, b: Balances)
    requires TotalOf(b) > 0
    ensures Sum(PlanWithdrawal(Request(units, 1), b).parts, BalanceOf()) == units <==>
              TotalOf(b) * (RoundedUp(units, b, Aave) + RoundedUp(units, b, Compound) + RoundedUp(units, b, Morpho))
              == Remainder(units, b, Aave) + Remainder(units, b, Compound) + Remainder(units, b, Morpho)
  {
    PlanTotal(Request(units, 1), b);
    ShareSteps(units, b, Aave);
    ShareSteps(units, b, Compound);
    ShareSteps(units, b, Morpho);
    Distribute(units, b.aave, b.compound, b.morpho);
    assert HeldIn(b, Aave) == b.aave && HeldIn(b, Compound) == b.compound && HeldIn(b, Morpho) == b.morpho;
    assert TotalOf(b) == b.aave + b.compound + b.morpho;
    hide Share, HeldIn, TotalOf, RoundedUp, Remainder, PlanWithdrawal, Sum;
    AddUp(TotalOf(b), units,
      Share(Request(units, 1), b, Aave), Share(Request(units, 1), b, Compound), Share(Request(units, 1), b, Morpho),
      RoundedUp(units, b, Aave), RoundedUp(units, b, Compound), RoundedUp(units, b, Morpho),
      Remainder(units, b, Aave) + Remainder(units, b, Compound) + Remainder(units, b, Morpho));
  }

  lemma AddUp(t: nat, units: nat, x: nat, y: nat, z: nat, u: nat, v: nat, w: nat, lost: nat)
    requires t > 0 && x * t + y * t + z * t == units * t - lost + u * t + v * t + w * t
    ensures x + y + z == units <==> t * (u + v + w) == lost
  {
    assert x * t + y * t + z * t == t * (x + y + z) && u * t + v * t + w * t == t * (u + v + w);
    SameProduct(t, x + y + z, units);
  }

  lemma SameProduct(t: nat, m: nat, n: nat)
    requires t > 0
    ensures t * m == t * n <==> m == n
  {
    if t * m == t * n { assert t * (m - n) == 0; }
  }

  /** The extra unit is real: one unit asked of two protocols with one unit each plans both. */
  lemma PlanCanOvershoot()
    ensures PlanWithdrawal(Request(1, 1), Balances(1, 1, 0)) == Withdrawals([Position(Aave, 1), Position(Compound, 1)])
  {
    var b, one := Balances(1, 1, 0), Request(1, 1);
    HalfUpUnique(1, 2, 1);
    HalfUpUnique(0, 2, 0);
    var parts := AllShares(one, b);
    assert TotalOf(b) == 2 && HeldIn(b, Morpho) == 0;
    assert Share(one, b, Aave) == 1 && Share(one, b, Compound) == 1 && Share(one, b, Morpho) == 0;
    assert parts == [Position(Aave, 1), Position(Compound, 1), Position(Morpho, 0)];
    assert NonZero(parts[..2][..1]) == [Position(Aave, 1)];
    assert NonZero(parts[..2]) == [Position(Aave, 1), Position(Compound, 1)];
    assert parts[..2] == [Position(Aave, 1), Position(Compound, 1)];
    assert parts[..2][..1] == [Position(Aave, 1)];
    assert parts[..2][..1][..0] == [];
  }
}

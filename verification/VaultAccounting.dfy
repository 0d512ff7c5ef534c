/** Share and index arithmetic of a vault (packages/core/utils/vault-accounting.utils.ts).
    Amounts and shares are whole base units; an index is scaled by 1e18. */
module VaultAccounting {
  import opened Numbers
  import opened Sums

  datatype Shares = Minted(shares: nat) | ZeroIndex

  function CalculateShares(amount: nat, currentIndex: nat): Shares {
    if currentIndex == 0 then ZeroIndex
    else Minted(amount * PRECISION / currentIndex)
  }

  function CalculateSharesToBurn(amount: nat, currentIndex: nat): Shares {
    CalculateShares(amount, currentIndex)
  }

  function CalculateValueFromShares(shares: nat, currentIndex: nat): nat {
    shares * currentIndex / PRECISION
  }

  function CalculateWeightedIndex(oldTotal: nat, oldIndex: nat, newDeposit: nat, currentIndex: nat): nat {
    if oldTotal + newDeposit == 0 then currentIndex
    else (oldTotal * oldIndex + newDeposit * currentIndex) / (oldTotal + newDeposit)
  }

  function CalculateYield(totalDeposited: nat, currentIndex: nat, entryIndex: nat): nat {
    if entryIndex == 0 then 0 else
    FloorBounds(totalDeposited * currentIndex, entryIndex);
    var currentValue := totalDeposited * currentIndex / entryIndex;
    if currentValue < totalDeposited then 0 else currentValue - totalDeposited
  }

  /** Index after a daily yield of n/d percent, a fraction because any decimal string is one: the yield
      over 100 is cut at 36 places, toward zero, and then the index at whole units. */
  function CalculateNewIndex(currentIndex: nat, n: int, d: nat): int
    requires d > 0
  {
    TruncDiv(currentIndex * (DECIMAL_36 + TruncDiv(n * HUNDREDTH_36, d)), DECIMAL_36)
  }

  /** One hundredth at 36 places. */
  const HUNDREDTH_36: nat := 10_000_000_000_000_000_000_000_000_000_000_000

  /** Number of 10^-6 percent in 100 percent. */
  const HUNDRED_PERCENT: nat := 100_000_000

  /** The same with the six decimals the daily job prints: its yield over 100 is exact at 36 places, so
      only the last step rounds. */
  function NewIndexFromDailyYield(currentIndex: nat, microPercent: int): (next: int)
    ensures next == TruncDiv(currentIndex * (HUNDRED_PERCENT + microPercent), HUNDRED_PERCENT)
  {
    SixDecimalsInOneCut(currentIndex, microPercent);
    CalculateNewIndex(currentIndex, microPercent, 1_000_000)
  }

  /** Shares bought and valued at one index are worth the amount, short by less than one unit
      plus one share: a - I/P - 1 < value <= a, written without division. */
  lemma ShareRoundTrip(amount: nat, index: nat)
    requires index > 0
    ensures CalculateShares(amount, index).Minted?
    ensures var value := CalculateValueFromShares(CalculateShares(amount, index).shares, index);
            value <= amount && (amount - value - 1) * PRECISION < index
  {
    RoundTripBounds(amount, index, PRECISION);
  }

  lemma RoundTripBounds(a: nat, i: nat, p: nat)
    requires i > 0 && p > 0
    ensures var v := (a * p / i) * i / p; v <= a && (a - v - 1) * p < i
  {
    var s := a * p / i;
    var v := s * i / p;
    FloorBounds(a * p, i);
    FloorBounds(s * i, p);
    MulCancel(v, a, p);
    assert (a - v - 1) * p == a * p - v * p - p;
  }

  /** The two ways of showing one deposit's position agree: deposit plus yield is the larger of the deposit
      and its grown value, and that grown value is never less than the value of the shares bought and
      exceeds it by less than one unit plus one share. After the index fell, deposit plus yield hides the
      loss that the shares show. */
  lemma YieldBesideShares(amount: nat, entryIndex: nat, currentIndex: nat)
    requires entryIndex > 0
    ensures CalculateShares(amount, entryIndex).Minted?
    ensures var grown := amount * currentIndex / entryIndex;
            var gap := grown - CalculateValueFromShares(CalculateShares(amount, entryIndex).shares, currentIndex);
            && amount + CalculateYield(amount, currentIndex, entryIndex) == (if grown < amount then amount else grown)
            && (currentIndex >= entryIndex ==> grown >= amount)
            && 0 <= gap && (gap - 1) * PRECISION < currentIndex
  {
    if currentIndex >= entryIndex {
      MulMono(entryIndex, currentIndex, amount);
      FloorGreatest(amount * currentIndex, entryIndex, amount);
    }
    ShareValueBounds(amount, entryIndex, currentIndex, PRECISION);
  }

  lemma ShareValueBounds(a: nat, i: nat, j: nat, p: nat)
    requires i > 0 && p > 0
    ensures var gap := a * j / i - (a * p / i) * j / p; 0 <= gap && (gap - 1) * p < j
  {
    var s := a * p / i;
    var v, w := s * j / p, a * j / i;
    FloorBounds(a * p, i);
    FloorBounds(s * j, p);
    FloorBounds(a * j, i);
    ValueBelow(a, i, j, p, s, v);
    FloorGreatest(a * j, i, v);
    ValueAbove(a, i, j, p, s, v, w);
  }

  lemma ValueBelow(a: nat, i: nat, j: nat, p: nat, s: nat, v: nat)
    requires p > 0 && s * i <= a * p && v * p <= s * j
    ensures v * i <= a * j
  {
    MulMono(v * p, s * j, i);
    MulMono(s * i, a * p, j);
    assert (v * p) * i == (v * i) * p;
    assert (s * j) * i == (s * i) * j;
    assert (a * p) * j == (a * j) * p;
    MulCancel(v * i, a * j, p);
  }

  lemma ValueAbove(a: nat, i: nat, j: nat, p: nat, s: nat, v: nat, w: nat)
    requires i > 0 && a * p < s * i + i && s * j < v * p + p && w * i <= a * j
    ensures (w - v - 1) * p < j
  {
    // w*p*i <= a*p*j <= (s+1)*i*j, hence w*p <= s*j + j < v*p + p + j
    MulMono(w * i, a * j, p);
    MulMono(a * p, s * i + i, j);
    assert (w * i) * p == (w * p) * i;
    assert (a * j) * p == (a * p) * j;
    assert (s * i + i) * j == (s * j + j) * i;
    MulCancel(w * p, s * j + j, i);
    assert (w - v - 1) * p == w * p - v * p - p;
  }

  /** Burning for the value a holder is shown never takes more shares than were shown. */
  lemma BurnForDisplayedValue(shares: nat, index: nat)
    requires index > 0
    ensures CalculateSharesToBurn(CalculateValueFromShares(shares, index), index).shares <= shares
  {
    RoundTripBack(shares, index, PRECISION);
  }

  lemma RoundTripBack(s: nat, i: nat, p: nat)
    requires i > 0 && p > 0
    ensures (s * i / p) * p / i <= s
  {
    var v := s * i / p;
    FloorBounds(s * i, p);
    FloorBounds(v * p, i);
    MulCancel(v * p / i, s, i);
  }

  /** Shares minted for each piece of a split deposit, all at one index. */
  ghost function SharesAt(index: nat): nat -> nat
    requires index > 0
  {
    (amount: nat) => amount * PRECISION / index
  }

  /** Splitting a deposit into n pieces never mints more shares and loses at most n - 1. */
  lemma {:induction false} SplitDeposit(pieces: seq<nat>, index: nat)
    requires index > 0 && pieces != []
    ensures CalculateShares(Sum(pieces, Itself()), index).Minted?
    ensures var whole := CalculateShares(Sum(pieces, Itself()), index).shares;
            whole - (|pieces| - 1) <= Sum(pieces, SharesAt(index)) <= whole
  {
    var n := |pieces|;
    if n == 1 {
      assert pieces[..0] == [];
      assert Sum(pieces, Itself()) == pieces[0];
      assert Sum(pieces, SharesAt(index)) == pieces[0] * PRECISION / index;
    } else {
      SplitDeposit(pieces[..n - 1], index);
      SplitInTwo(Sum(pieces[..n - 1], Itself()), pieces[n - 1], index, PRECISION);
    }
  }

  lemma SplitInTwo(a: nat, b: nat, i: nat, p: nat)
    requires i > 0
    ensures (a + b) * p / i - 1 <= a * p / i + b * p / i <= (a + b) * p / i
  {
    var x, y, z := a * p / i, b * p / i, (a + b) * p / i;
    FloorBounds(a * p, i);
    FloorBounds(b * p, i);
    FloorBounds((a + b) * p, i);
    assert (a + b) * p == a * p + b * p;
    assert (x + y) * i == x * i + y * i;
    FloorGreatest((a + b) * p, i, x + y);
    assert (x + y + 2) * i == x * i + i + y * i + i;
    MulCancelStrict(z, x + y + 2, i);
  }

  /** At an index of 1.0 one share is one base unit. The repository's unit tests
      (vault-accounting.utils.test.ts:18-40) expect 1e18 times as many; the code does not mint them. */
  lemma SharesAtPar(amount: nat)
    ensures CalculateShares(amount, PRECISION) == Minted(amount)
  {
    FloorUnique(amount * PRECISION, PRECISION, amount);
  }

  /** Whatever its sign and its decimals, a yield moves the index in its own direction, and the new index
      differs from the exact one, I*(1 + n/d/100), by less than one unit and I parts in 10^36:
      |J - exact| < 1 + I/10^36, written without division. */
  lemma NewIndexBounds(index: nat, n: int, d: nat)
    requires d > 0
    ensures var next := CalculateNewIndex(index, n, d);
            var error := (next * (100 * d) - index * (100 * d + n)) * HUNDREDTH_36;
            && (n >= 0 ==> next >= index && error <= 0)
            && (n <= 0 ==> next <= index)
            && -((DECIMAL_36 + index) * d) < error < (DECIMAL_36 + index) * d
  {
    var q := TruncDiv(n * HUNDREDTH_36, d);
    var m := DECIMAL_36 + q;
    var next := CalculateNewIndex(index, n, d);
    if n >= 0 {
      FloorGreatest(index * m, DECIMAL_36, index);
    } else if m >= 0 {
      FloorMono(index * m, index * DECIMAL_36, DECIMAL_36);
      FloorUnique(index * DECIMAL_36, DECIMAL_36, index);
    } else {
      MulMono(m, 0, index);
    }
    TwoCuts(index, n, d, q, next, HUNDREDTH_36);
  }

  /** The errors of the two cuts, scaled to a common denominator; h is a hundredth of the scale. */
  lemma TwoCuts(index: nat, n: int, d: nat, q: int, next: int, h: nat)
    requires d > 0
    requires 0 < n * h - q * d + d < 2 * d && (n >= 0 ==> n * h >= q * d)
    requires var m := 100 * h + q;
             -100 * h < index * m - next * (100 * h) < 100 * h && (index * m >= 0 ==> index * m >= next * (100 * h))
    requires n >= 0 ==> q >= 0
    ensures var error := (next * (100 * d) - index * (100 * d + n)) * h;
            -((100 * h + index) * d) < error < (100 * h + index) * d && (n >= 0 ==> error <= 0)
  {
    var m := 100 * h + q;
    var first, second := n * h - q * d, index * m - next * (100 * h);
    TwoCutsIdentity(index, n, d, q, next, h);
    ScaledBetween(second, 100 * h, d);
    ScaledBetween(first, d, index);
    if n >= 0 { ErrorsAddUp(index, m, first, second, d); }
    SumOfErrors(index, d, h, second * d, first * index);
  }

  lemma ErrorsAddUp(index: nat, m: int, first: int, second: int, d: nat)
    requires m >= 0 && first >= 0 && (index * m >= 0 ==> second >= 0)
    ensures second * d >= 0 && first * index >= 0
  {
    MulMono(0, m, index);
    MulMono(0, second, d);
    MulMono(0, first, index);
  }

  lemma SumOfErrors(index: nat, d: nat, h: nat, second: int, first: int)
    requires -((100 * h) * d) < second < (100 * h) * d && -(d * index) <= first <= d * index
    ensures -((100 * h + index) * d) < -second - first < (100 * h + index) * d
  {
    assert (100 * h + index) * d == (100 * h) * d + d * index;
  }

  lemma TwoCutsIdentity(index: nat, n: int, d: nat, q: int, next: int, h: nat)
    ensures var first, second := n * h - q * d, index * (100 * h + q) - next * (100 * h);
            (next * (100 * d) - index * (100 * d + n)) * h == -(second * d) - first * index
  {
    assert (next * (100 * d)) * h == (next * (100 * h)) * d;
    assert (index * (100 * d + n)) * h == (index * (100 * h)) * d + index * (n * h);
    assert (index * (100 * h + q)) * d == (index * (100 * h)) * d + index * (q * d);
  }

  lemma SixDecimalsInOneCut(index: nat, microPercent: int)
    ensures CalculateNewIndex(index, microPercent, 1_000_000)
         == TruncDiv(index * (HUNDRED_PERCENT + microPercent), HUNDRED_PERCENT)
  {
    var k: nat := 10_000_000_000_000_000_000_000_000_000;
    TruncExact(microPercent * k, 1_000_000);
    assert microPercent * HUNDREDTH_36 == (microPercent * k) * 1_000_000;
    var x := index * (HUNDRED_PERCENT + microPercent);
    assert index * (DECIMAL_36 + microPercent * k) == x * k;
    TruncScale(x, HUNDRED_PERCENT, k);
  }

  /** With six decimals, the fraction the index drops is below one unit. */
  lemma DailyYieldBounds(index: nat, microPercent: nat)
    ensures var next := NewIndexFromDailyYield(index, microPercent);
            next >= index
            && next * HUNDRED_PERCENT <= index * HUNDRED_PERCENT + index * microPercent
            && index * microPercent < (next - index + 1) * HUNDRED_PERCENT
  {
    var next := NewIndexFromDailyYield(index, microPercent);
    assert index * (HUNDRED_PERCENT + microPercent) == index * HUNDRED_PERCENT + index * microPercent;
    FloorGreatest(index * (HUNDRED_PERCENT + microPercent), HUNDRED_PERCENT, index);
  }

  /** A daily yield of any sign that does not wipe the index out adds the floor of its share. */
  lemma DailyYieldStep(index: nat, microPercent: int)
    requires HUNDRED_PERCENT + microPercent >= 0
    ensures NewIndexFromDailyYield(index, microPercent) == index + index * microPercent / HUNDRED_PERCENT
  {
    var gain := index * microPercent / HUNDRED_PERCENT;
    FloorBounds(index * microPercent, HUNDRED_PERCENT);
    var x := index * (HUNDRED_PERCENT + microPercent);
    assert x == index * HUNDRED_PERCENT + index * microPercent;
    assert x >= 0;
    FloorUnique(x, HUNDRED_PERCENT, index + gain);
  }
}

/** A user's weighted entry index over a whole history of deposits, and what it is worth
    beside the shares the same deposits would have bought. */
module DollarCostAveraging {
  import opened Numbers
  import opened Sums
  import opened VaultAccounting

  datatype EntryRecord = Entry(amount: nat, index: nat)

  /** One deposit and the vault index at which it entered; both are positive in the schema. */
  type Entry = e: EntryRecord | e.amount > 0 && e.index > 0 witness Entry(1, 1)

  ghost function AmountOf(): Entry -> nat { (e: Entry) => e.amount }

  ghost function WeightOf(): Entry -> nat { (e: Entry) => e.amount * e.index }

  ghost function Deposited(entries: seq<Entry>): nat { Sum(entries, AmountOf()) }

  /** The entry index on the user's row after the deposits, each folded in as it completes. */
  ghost function EntryIndex(entries: seq<Entry>): nat {
    if entries == [] then 0 else
    var before, last := entries[..|entries| - 1], entries[|entries| - 1];
    CalculateWeightedIndex(Deposited(before), EntryIndex(before), last.amount, last.index)
  }

  /** D_1 + ... + D_n, the running totals after each deposit. */
  ghost function RunningTotals(entries: seq<Entry>): nat {
    if entries == [] then 0 else RunningTotals(entries[..|entries| - 1]) + Deposited(entries)
  }

  /** One fold: the weighted sum it keeps, and the fraction it drops. */
  lemma FoldStep(d: nat, w: nat, a: nat, i: nat, exact: nat, drift: nat)
    requires a > 0 && w * d <= exact <= w * d + drift
    ensures var folded := (d * w + a * i) / (d + a);
            folded * (d + a) <= exact + a * i < folded * (d + a) + drift + (d + a)
  {
    FloorBounds(d * w + a * i, d + a);
  }

  lemma Unfold(entries: seq<Entry>)
    requires entries != []
    ensures var before, last := entries[..|entries| - 1], entries[|entries| - 1];
            Deposited(entries) == Deposited(before) + last.amount
            && Sum(entries, WeightOf()) == Sum(before, WeightOf()) + last.amount * last.index
  {
  }

  /** Each fold drops less than one running total, so the drift is below their sum. */
  lemma {:induction false} FoldErrorBound(entries: seq<Entry>)
    ensures var exact, kept := Sum(entries, WeightOf()), EntryIndex(entries) * Deposited(entries);
            kept <= exact <= kept + RunningTotals(entries)
            && (entries != [] ==> exact < kept + RunningTotals(entries))
  {
    if entries != [] {
      Unfold(entries);
      var before, last := entries[..|entries| - 1], entries[|entries| - 1];
      FoldErrorBound(before);
      FoldStep(Deposited(before), EntryIndex(before), last.amount, last.index,
        Sum(before, WeightOf()), RunningTotals(before));
    }
  }

  lemma {:induction false} RunningTotalsBound(entries: seq<Entry>)
    ensures RunningTotals(entries) <= |entries| * Deposited(entries)
  {
    if entries != [] {
      var before := entries[..|entries| - 1];
      RunningTotalsBound(before);
      Grow(Deposited(before), Deposited(entries), |before|);
    }
  }

  lemma Grow(less: nat, more: nat, n: nat)
    requires less <= more
    ensures n * less + more <= (n + 1) * more
  {
    MulMono(less, more, n);
  }

  /** After n deposits the stored index is at most the exact mean and less than n below it. */
  lemma EntryIndexNearMean(entries: seq<Entry>)
    requires entries != []
    ensures var exact, total, kept := Sum(entries, WeightOf()), Deposited(entries), EntryIndex(entries);
            kept * total <= exact < (kept + |entries|) * total
  {
    hide EntryIndex, RunningTotals;
    FoldErrorBound(entries);
    RunningTotalsBound(entries);
    Distribute(EntryIndex(entries), |entries|, Deposited(entries));
  }

  lemma Distribute(a: int, b: int, c: int)
    ensures (a + b) * c == a * c + b * c
  {
  }

  lemma FoldInRange(d: nat, w: nat, a: nat, i: nat, lo: nat, hi: nat)
    requires a > 0 && lo <= i <= hi && (d > 0 ==> lo <= w <= hi)
    ensures lo <= (d * w + a * i) / (d + a) <= hi
  {
    var sum := d * w + a * i;
    assert lo * d <= w * d <= hi * d by {
      if d > 0 { MulMono(lo, w, d); MulMono(w, hi, d); }
    }
    MulMono(lo, i, a);
    MulMono(i, hi, a);
    Distribute(d, a, lo);
    Distribute(d, a, hi);
    FloorGreatest(sum, d + a, lo);
    FloorMono(sum, hi * (d + a), d + a);
    FloorUnique(hi * (d + a), d + a, hi);
  }

  /** The stored index never leaves the range of the indexes at which the user entered. */
  lemma {:induction false} EntryIndexInRange(entries: seq<Entry>, lo: nat, hi: nat)
    requires entries != []
    requires forall e <- entries :: lo <= e.index <= hi
    ensures lo <= EntryIndex(entries) <= hi
  {
    Unfold(entries);
    var before, last := entries[..|entries| - 1], entries[|entries| - 1];
    assert last in entries;
    assert forall e <- before :: e in entries;
    if before != [] { EntryIndexInRange(before, lo, hi); }
    FoldInRange(Deposited(before), EntryIndex(before), last.amount, last.index, lo, hi);
  }

  // ---- the averaged position against the shares it stands for, in exact arithmetic ----

  /** Sums over a history: of the amounts, of the amounts times their indexes, and of the shares bought
      deposit by deposit, none of them rounded. */
  datatype Totals = Totals(amount: real, weight: real, shares: real)

  ghost function Add(t: Totals, e: Entry): Totals {
    var a, i := e.amount as real, e.index as real;
    Totals(t.amount + a, t.weight + a * i, t.shares + a / i)
  }

  ghost function ExactTotals(entries: seq<Entry>): Totals {
    if entries == [] then Totals(0.0, 0.0, 0.0)
    else Add(ExactTotals(entries[..|entries| - 1]), entries[|entries| - 1])
  }

  /** Value of the shares at a later index. */
  ghost function ShareValue(t: Totals, index: nat): real { t.shares * index as real }

  /** Value of the whole deposit valued at its mean entry index. */
  ghost function AveragedValue(t: Totals, index: nat): real
    requires t.amount > 0.0 && t.weight > 0.0
  {
    t.amount * index as real / (t.weight / t.amount)
  }

  ghost predicate SameIndex(entries: seq<Entry>, index: nat) {
    forall e <- entries :: e.index == index
  }

  lemma SameIndexUnfold(entries: seq<Entry>, index: nat)
    requires entries != []
    ensures SameIndex(entries, index)
        <==> SameIndex(entries[..|entries| - 1], index) && entries[|entries| - 1].index == index
  {
    assert entries == entries[..|entries| - 1] + [entries[|entries| - 1]];
  }

  ghost function Cross(t: Totals, i: real): real
    requires i > 0.0
  {
    t.weight / i + i * t.shares
  }

  /** The cross term is at least twice the amount, and equal to it exactly when `same` holds. */
  ghost predicate CrossIs(t: Totals, index: nat, same: bool)
    requires index > 0
  {
    var cross := Cross(t, index as real);
    cross >= 2.0 * t.amount && (cross == 2.0 * t.amount <==> same)
  }

  /** The square of the amount is at most the product, and equal to it exactly when `same` holds. */
  ghost predicate SquareIs(t: Totals, same: bool) {
    t.amount * t.amount <= t.weight * t.shares && (t.amount * t.amount == t.weight * t.shares <==> same)
  }

  // a(I/i) + a(i/I) is at least 2a, and equal only when I is i

  lemma RatioPair(a: real, x: real, i: real)
    requires a > 0.0 && x > 0.0 && i > 0.0
    ensures a * x / i + i * (a / x) >= 2.0 * a
    ensures a * x / i + i * (a / x) == 2.0 * a <==> x == i
  {
    var r := x / i;
    var q := i / x;
    assert r * i == x;
    assert q * x == i;
    assert r * q == 1.0 by {
      assert (r * q) * (i * x) == (r * i) * (q * x) == i * x;
    }
    assert a * x / i == a * r;
    assert i * (a / x) == a * q;
    SumOfReciprocals(r, q);
    assert a * r + a * q == a * (r + q);
    assert r == 1.0 <==> x == i;
  }

  lemma SumOfReciprocals(r: real, q: real)
    requires r > 0.0 && q > 0.0 && r * q == 1.0
    ensures r + q >= 2.0
    ensures r + q == 2.0 <==> r == 1.0
  {
    if r > 1.0 {
      BelowOne(r, q);
      GapPositive(r, q, r - 1.0, 1.0 - q);
    } else if r < 1.0 {
      if q <= 1.0 { PositiveProduct(1.0 - r, q); }
      GapPositive(q, r, q - 1.0, 1.0 - r);
    }
  }

  lemma BelowOne(r: real, q: real)
    requires r > 1.0 && q > 0.0 && r * q == 1.0
    ensures q < 1.0
  {
  }

  lemma GapPositive(r: real, q: real, u: real, v: real)
    requires u == r - 1.0 && v == 1.0 - q && u > 0.0 && v > 0.0 && r * q == 1.0
    ensures r + q > 2.0
  {
    PositiveProduct(u, v);
    assert u * v == r + q - 2.0;
  }

  lemma PositiveProduct(x: real, y: real)
    requires x > 0.0 && y > 0.0
    ensures x * y > 0.0
  {
  }

  lemma CrossGrows(s: real, r: real, a: real, x: real, i: real)
    requires a > 0.0 && x > 0.0 && i > 0.0
    ensures (s + a * x) / i + i * (r + a / x) == (s / i + i * r) + (a * x / i + i * (a / x))
  {
    assert i * (r + a / x) == i * r + i * (a / x);
    assert (s + a * x) / i == s / i + a * x / i;
  }

  /** One more deposit keeps the cross term at twice the amount only at the same index. */
  lemma CrossStep(t: Totals, e: Entry, index: nat, same: bool)
    requires index > 0 && CrossIs(t, index, same)
    ensures CrossIs(Add(t, e), index, same && e.index == index)
  {
    var a, x, i := e.amount as real, e.index as real, index as real;
    RatioPair(a, x, i);
    CrossGrows(t.weight, t.shares, a, x, i);
  }

  lemma {:induction false} CrossTerm(entries: seq<Entry>, index: nat)
    requires index > 0
    ensures CrossIs(ExactTotals(entries), index, SameIndex(entries, index))
  {
    if entries == [] {
      assert Cross(Totals(0.0, 0.0, 0.0), index as real) == 0.0;
    } else {
      hide CrossIs, Add;
      var before, last := entries[..|entries| - 1], entries[|entries| - 1];
      CrossTerm(before, index);
      SameIndexUnfold(entries, index);
      CrossStep(ExactTotals(before), last, index, SameIndex(before, index));
    }
  }

  /** One more deposit keeps the square equal to the product only if the cross term stays flat. */
  lemma SquareStep(t: Totals, e: Entry, same: bool, flat: bool)
    requires SquareIs(t, same) && CrossIs(t, e.index, flat)
    ensures SquareIs(Add(t, e), same && flat)
  {
    var a, i := e.amount as real, e.index as real;
    ExpandSquare(t.amount, t.weight, t.shares, a, i);
    var gap := Cross(t, i) - 2.0 * t.amount;
    assert a * gap >= 0.0;
    SignOfProduct(gap, a, a * gap, 1.0);
  }

  lemma ExpandSquare(d: real, s: real, r: real, a: real, i: real)
    requires a > 0.0 && i > 0.0
    ensures (s + a * i) * (r + a / i) - (d + a) * (d + a)
         == s * r - d * d + a * (s / i + i * r - 2.0 * d)
  {
    var q := a / i;
    assert a * (s / i) == s * q;
    assert i * q == a;
    assert (a * i) * q == a * a;
    assert a * (s / i + i * r - 2.0 * d) == a * (s / i) + a * (i * r) - a * (2.0 * d);
    assert (s + a * i) * (r + q) == s * r + s * q + (a * i) * r + (a * i) * q;
    assert (a * i) * r == a * (i * r);
    assert (d + a) * (d + a) == d * d + 2.0 * (a * d) + a * a;
  }

  lemma SignOfProduct(x: real, s: real, y: real, j: real)
    requires s > 0.0 && j > 0.0 && x * s == y * j && y >= 0.0
    ensures x >= 0.0 && (x == 0.0 <==> y == 0.0)
  {
  }

  /** All deposits entered at one index. */
  ghost predicate OneIndex(entries: seq<Entry>) {
    entries == [] || SameIndex(entries, entries[|entries| - 1].index)
  }

  lemma OneIndexUnfold(entries: seq<Entry>)
    requires entries != []
    ensures OneIndex(entries)
        <==> OneIndex(entries[..|entries| - 1]) && SameIndex(entries[..|entries| - 1], entries[|entries| - 1].index)
  {
    var before, e := entries[..|entries| - 1], entries[|entries| - 1];
    SameIndexUnfold(entries, e.index);
    if before != [] { assert before[|before| - 1] in before; }
  }

  /** Weighted Cauchy-Schwarz over the deposit history. */
  lemma {:induction false} AmountSquared(entries: seq<Entry>)
    ensures SquareIs(ExactTotals(entries), OneIndex(entries))
  {
    if entries != [] {
      hide SquareIs, CrossIs, Add;
      var before, last := entries[..|entries| - 1], entries[|entries| - 1];
      AmountSquared(before);
      CrossTerm(before, last.index);
      OneIndexUnfold(entries);
      SquareStep(ExactTotals(before), last, OneIndex(before), SameIndex(before, last.index));
    }
  }

  lemma {:induction false} ExactPositive(entries: seq<Entry>)
    ensures ExactTotals(entries).amount >= 0.0 && ExactTotals(entries).weight >= 0.0
    ensures entries != [] ==> ExactTotals(entries).amount > 0.0 && ExactTotals(entries).weight > 0.0
  {
    if entries != [] {
      ExactPositive(entries[..|entries| - 1]);
      var e := entries[|entries| - 1];
      PositiveProduct(e.amount as real, e.index as real);
    }
  }

  /** Averaging the entry index never credits more than the shares would, and credits the same
      exactly when every deposit entered at one index. */
  lemma AveragingNeverOverpays(entries: seq<Entry>, index: nat)
    requires entries != [] && index > 0
    ensures var t := ExactTotals(entries);
            && t.amount > 0.0 && t.weight > 0.0
            && AveragedValue(t, index) <= ShareValue(t, index)
            && (AveragedValue(t, index) == ShareValue(t, index) <==> OneIndex(entries))
  {
    ExactPositive(entries);
    AmountSquared(entries);
    CompareValues(ExactTotals(entries), index, OneIndex(entries));
  }

  lemma CompareValues(t: Totals, index: nat, same: bool)
    requires t.amount > 0.0 && t.weight > 0.0 && index > 0 && SquareIs(t, same)
    ensures AveragedValue(t, index) <= ShareValue(t, index)
    ensures AveragedValue(t, index) == ShareValue(t, index) <==> same
  {
    var a, s, r, j := t.amount, t.weight, t.shares, index as real;
    var m := s / a;
    var v := a * j / m;
    assert m * a == s;
    assert v * m == a * j;
    assert v * s == (v * m) * a;
    assert (a * j) * a == (a * a) * j;
    assert (r * j) * s == (s * r) * j;
    assert (r * j - v) * s == (r * j) * s - v * s;
    assert (s * r - a * a) * j == (s * r) * j - (a * a) * j;
    SignOfProduct(r * j - v, s, s * r - a * a, j);
  }

  // ---- the same, with every rounding of the code ----

  ghost function SharesOf(): Entry -> nat { (e: Entry) => e.amount * PRECISION / e.index }

  /** Shares minted over the history, each deposit rounded down. */
  ghost function Minted(entries: seq<Entry>): nat { Sum(entries, SharesOf()) }

  /** The exact totals are those of the code but for less than one share a deposit. */
  lemma {:induction false} ExactBesideRounded(entries: seq<Entry>)
    ensures var t := ExactTotals(entries);
            && t.amount == Deposited(entries) as real
            && t.weight == Sum(entries, WeightOf()) as real
            && t.shares * PRECISION as real <= (Minted(entries) + |entries|) as real
  {
    if entries != [] {
      var before, e := entries[..|entries| - 1], entries[|entries| - 1];
      ExactBesideRounded(before);
      OneMoreShare(e.amount, e.index, ExactTotals(before).shares, Minted(before) + |before|);
    }
  }

  lemma OneMoreShare(a: nat, i: nat, exact: real, rounded: nat)
    requires i > 0 && exact * PRECISION as real <= rounded as real
    ensures (exact + a as real / i as real) * PRECISION as real <= (rounded + a * PRECISION / i + 1) as real
  {
    FloorBounds(a * PRECISION, i);
    var bought, p := a as real / i as real, PRECISION as real;
    assert bought * i as real == a as real;
    var up := a * PRECISION / i + 1;
    assert a * PRECISION <= up * i;
    assert (bought * p) * i as real == a as real * p == (a * PRECISION) as real <= (up * i) as real;
    CancelReal(bought * p, up as real, i as real);
    assert (exact + bought) * p == exact * p + bought * p;
  }

  lemma CancelReal(x: real, y: real, i: real)
    requires i > 0.0 && x * i <= y * i
    ensures x <= y
  {
  }

  /** As the code rounds it, a position averaged over n deposits exceeds the value of the shares the same
      deposits bought by no more than n shares and n parts in its entry index W:
      (D + yield) * W * P <= (W + n) * J * (S + n). */
  lemma RoundedAveragingBounded(entries: seq<Entry>, index: nat)
    requires entries != [] && index >= EntryIndex(entries)
    ensures var d, w, n := Deposited(entries), EntryIndex(entries), |entries|;
            && w > 0
            && (d + CalculateYield(d, index, w)) * w * PRECISION <= (w + n) * index * (Minted(entries) + n)
  {
    var d, w, n, s := Deposited(entries), EntryIndex(entries), |entries|, Minted(entries);
    EntryIndexAtLeastOne(entries);
    DepositBelowShares(entries);
    YieldBesideShares(d, w, index);
    hide EntryIndex, Minted, Deposited, CalculateYield, CalculateShares, CalculateValueFromShares;
    GrownBelowShares(d, w, index, w + n, s + n);
  }

  lemma GrownBelowShares(d: nat, w: nat, index: nat, up: nat, shares: nat)
    requires w > 0 && d * PRECISION <= up * shares
    ensures (d * index / w) * w * PRECISION <= up * index * shares
  {
    var grown := d * index / w;
    FloorBounds(d * index, w);
    MulMono(grown * w, d * index, PRECISION);
    MulMono(d * PRECISION, up * shares, index);
    assert (d * index) * PRECISION == (d * PRECISION) * index;
    assert (up * shares) * index == up * index * shares;
  }

  lemma EntryIndexAtLeastOne(entries: seq<Entry>)
    requires entries != []
    ensures EntryIndex(entries) > 0
  {
    EntryIndexInRange(entries, 1, HighestIndex(entries));
  }

  ghost function HighestIndex(entries: seq<Entry>): (top: nat)
    ensures forall e <- entries :: e.index <= top
  {
    if entries == [] then 0 else
    var top, e := HighestIndex(entries[..|entries| - 1]), entries[|entries| - 1];
    assert entries == entries[..|entries| - 1] + [e];
    if e.index > top then e.index else top
  }

  /** Cauchy-Schwarz in the figures of the code: D * P <= (W + n) * (S + n). */
  lemma DepositBelowShares(entries: seq<Entry>)
    requires entries != []
    ensures Deposited(entries) * PRECISION <= (EntryIndex(entries) + |entries|) * (Minted(entries) + |entries|)
  {
    hide EntryIndex, ExactTotals, SquareIs, OneIndex, Deposited, Minted, Sum;
    AmountSquared(entries);
    ExactBesideRounded(entries);
    EntryIndexNearMean(entries);
    DepositedPositive(entries);
    SquareInFigures(ExactTotals(entries), OneIndex(entries), Deposited(entries), Sum(entries, WeightOf()),
      Minted(entries) + |entries|);
    CancelDeposit(Deposited(entries), Sum(entries, WeightOf()), EntryIndex(entries) + |entries|,
      Minted(entries) + |entries|);
  }

  lemma DepositedPositive(entries: seq<Entry>)
    requires entries != []
    ensures Deposited(entries) > 0
  {
    Unfold(entries);
  }

  lemma SquareInFigures(t: Totals, same: bool, d: nat, weight: nat, s: nat)
    requires SquareIs(t, same)
    requires t.amount == d as real && t.weight == weight as real && t.shares * PRECISION as real <= s as real
    ensures d * d * PRECISION <= weight * s
  {
    var p := PRECISION as real;
    assert (t.weight * t.shares) * p == t.weight * (t.shares * p);
    assert t.weight * (t.shares * p) <= t.weight * s as real;
    assert (d * d * PRECISION) as real == t.amount * t.amount * p;
    assert (weight * s) as real == t.weight * s as real;
  }

  lemma CancelDeposit(d: nat, weight: nat, w: nat, s: nat)
    requires d > 0 && d * d * PRECISION <= weight * s && weight <= w * d
    ensures d * PRECISION <= w * s
  {
    MulMono(weight, w * d, s);
    assert (w * d) * s == (w * s) * d;
    assert d * d * PRECISION == (d * PRECISION) * d;
    MulCancel(d * PRECISION, w * s, d);
  }
}

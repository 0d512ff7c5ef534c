/** Integer arithmetic as the platform's number libraries round it.
    A decimal string with k places is a count of 10^-k units throughout the project. */
module Numbers {

  /** Scale of a growth index: an index of 1.0 is stored as 1e18. */
  const PRECISION: nat := 1_000_000_000_000_000_000

  /** One unit at the 36 decimal places the big-number library is configured to keep. */
  const DECIMAL_36: nat := 1_000_000_000_000_000_000_000_000_000_000_000_000

  /** Division that drops the fraction, toward zero also for a negative dividend. */
  function TruncDiv(n: int, d: nat): (q: int)
    requires d > 0
    ensures n >= 0 ==> 0 <= q && q * d <= n < q * d + d
    ensures n < 0 ==> q <= 0 && q * d - d < n <= q * d
  {
    if n >= 0 then (FloorBounds(n, d); n / d) else (FloorBounds(-n, d); -((-n) / d))
  }

  /** Rounding of n/d to the nearest integer, a tie going up. */
  function HalfUp(n: int, d: nat): (h: int)
    requires d > 0
    ensures 2 * n - d < 2 * (h * d) <= 2 * n + d
    ensures n >= 0 ==> h >= 0
  {
    FloorBounds(2 * n + d, 2 * d);
    var h := (2 * n + d) / (2 * d);
    assert h * (2 * d) == 2 * (h * d);
    h
  }

  /** Division that rounds up. */
  function CeilDiv(n: nat, d: nat): (q: nat)
    requires d > 0
    ensures n <= q * d < n + d
  {
    FloorBounds(n + d - 1, d);
    (n + d - 1) / d
  }

  function Pow2(n: nat): (p: nat)
    ensures p >= 1
  {
    if n == 0 then 1 else 2 * Pow2(n - 1)
  }

  function Pow(base: nat, n: nat): (p: nat)
    ensures base > 0 ==> p > 0
  {
    if n == 0 then 1 else base * Pow(base, n - 1)
  }

  lemma MulAssoc(a: int, b: int, c: int)
    ensures a * (b * c) == (a * b) * c
  {
  }

  lemma {:induction false} PowAdd(base: nat, n: nat, m: nat)
    ensures Pow(base, n + m) == Pow(base, n) * Pow(base, m)
  {
    if n > 0 {
      PowAdd(base, n - 1, m);
      MulAssoc(base, Pow(base, n - 1), Pow(base, m));
    }
  }

  lemma {:induction false} PowMono(low: nat, high: nat, n: nat)
    requires low <= high
    ensures Pow(low, n) <= Pow(high, n)
  {
    if n > 0 {
      PowMono(low, high, n - 1);
      MulMono(low, high, Pow(low, n - 1));
      MulMono(Pow(low, n - 1), Pow(high, n - 1), high);
    }
  }

  lemma FloorBounds(n: int, d: nat)
    requires d > 0
    ensures (n / d) * d <= n < (n / d) * d + d
    ensures n >= 0 ==> n / d >= 0
  {
    assert n == (n / d) * d + n % d;
  }

  lemma MulMono(a: int, b: int, c: int)
    requires a <= b && c >= 0
    ensures a * c <= b * c
  {
  }

  lemma MulCancel(a: int, b: int, c: int)
    requires c > 0 && a * c <= b * c
    ensures a <= b
  {
    if a > b { MulMono(b + 1, a, c); }
  }

  lemma MulCancelStrict(a: int, b: int, c: int)
    requires c > 0 && a * c < b * c
    ensures a < b
  {
    if a >= b { MulMono(b, a, c); }
  }

  /** The floor is the only integer in its unit interval. */
  lemma FloorUnique(n: int, d: nat, q: int)
    requires d > 0 && q * d <= n < q * d + d
    ensures n / d == q
  {
    FloorBounds(n, d);
    assert (q + 1) * d == q * d + d;
    assert (n / d + 1) * d == (n / d) * d + d;
    MulCancelStrict(q, n / d + 1, d);
    MulCancelStrict(n / d, q + 1, d);
  }

  /** The floor is the greatest integer whose multiple fits. */
  lemma FloorGreatest(n: int, d: nat, q: int)
    requires d > 0
    ensures q * d <= n <==> q <= n / d
  {
    FloorBounds(n, d);
    if q * d <= n {
      assert (n / d + 1) * d == (n / d) * d + d;
      MulCancelStrict(q, n / d + 1, d);
    }
    if q <= n / d { MulMono(q, n / d, d); }
  }

  lemma FloorMono(n: int, m: int, d: nat)
    requires d > 0 && n <= m
    ensures n / d <= m / d
  {
    FloorBounds(n, d);
    FloorGreatest(m, d, n / d);
  }

  /** Dividing twice is dividing once by the product. */
  lemma DivDiv(n: nat, d: nat, e: nat)
    requires d > 0 && e > 0
    ensures d * e > 0 && n / d / e == n / (d * e)
  {
    var q := n / d / e;
    FloorBounds(n, d);
    FloorBounds(n / d, e);
    assert d * e > 0;
    assert q * (d * e) == (q * e) * d;
    MulMono(q * e, n / d, d);
    MulMono(n / d + 1, q * e + e, d);
    assert (q * e + e) * d == q * (d * e) + d * e;
    FloorUnique(n, d * e, q);
  }

  /** A common factor cancels under the floor. */
  lemma CancelScale(x: nat, d: nat, k: nat)
    requires d > 0 && k > 0
    ensures d * k > 0 && x * k / (d * k) == x / d
  {
    var q := x / d;
    FloorBounds(x, d);
    assert d * k > 0;
    MulMono(q * d, x, k);
    assert (q * d) * k == q * (d * k);
    assert (q * d + d) * k == q * (d * k) + d * k;
    MulMono(x + 1, q * d + d, k);
    FloorUnique(x * k, d * k, q);
  }

  /** Cutting first to units of 1/k and then to whole units loses nothing over cutting once. */
  lemma NestedFloor(n: nat, d: nat, k: nat)
    requires d > 0 && k > 0
    ensures (n * k / d) / k == n / d
  {
    DivDiv(n * k, d, k);
    CancelScale(n, d, k);
  }

  /** A factor between -b and b keeps its product between those of the bounds. */
  lemma ScaledBetween(x: int, b: nat, c: nat)
    requires x < b && -x < b
    ensures -(b * c) <= x * c <= b * c
    ensures c > 0 ==> -(b * c) < x * c < b * c
  {
    MulMono(x, b - 1, c);
    MulMono(-x, b - 1, c);
    assert (b - 1) * c == b * c - c;
    assert (-x) * c == -(x * c);
  }

  /** An exact quotient is not changed by cutting. */
  lemma TruncExact(q: int, d: nat)
    requires d > 0
    ensures TruncDiv(q * d, d) == q
  {
    if q * d >= 0 { FloorUnique(q * d, d, q); } else { TruncNegates(-q * d, d); FloorUnique(-q * d, d, -q); }
  }

  lemma TruncNegates(n: int, d: nat)
    requires d > 0
    ensures TruncDiv(-n, d) == -TruncDiv(n, d)
  {
    FloorUnique(0, d, 0);
  }

  lemma TruncScale(x: int, d: nat, k: nat)
    requires d > 0 && k > 0
    ensures d * k > 0 && TruncDiv(x * k, d * k) == TruncDiv(x, d)
  {
    assert d * k > 0;
    if x >= 0 { CancelScale(x, d, k); } else { CancelScale(-x, d, k); assert (-x) * k == -(x * k); }
  }

  lemma TruncMono(n: int, m: int, d: nat)
    requires d > 0 && n <= m
    ensures TruncDiv(n, d) <= TruncDiv(m, d)
  {
    if n >= 0 { FloorMono(n, m, d); } else if m < 0 { FloorMono(-m, -n, d); }
  }

  /** Cutting twice toward zero is cutting once by the product. */
  lemma TruncTrunc(n: int, d: nat, e: nat)
    requires d > 0 && e > 0
    ensures d * e > 0 && TruncDiv(TruncDiv(n, d), e) == TruncDiv(n, d * e)
  {
    assert d * e > 0;
    if n >= 0 {
      DivDiv(n, d, e);
    } else {
      DivDiv(-n, d, e);
      TruncNegates(-n, d);
      TruncNegates(TruncDiv(-n, d), e);
    }
  }

  lemma HalfUpUnique(n: int, d: nat, h: int)
    requires d > 0 && 2 * n - d < 2 * (h * d) <= 2 * n + d
    ensures HalfUp(n, d) == h
  {
    assert h * (2 * d) == 2 * (h * d);
    FloorUnique(2 * n + d, 2 * d, h);
  }

  /** Half-up rounding is the floor, and one more when the remainder is half a unit or above. */
  lemma HalfUpSteps(n: nat, d: nat)
    requires d > 0
    ensures HalfUp(n, d) == n / d + if 2 * (n % d) >= d then 1 else 0
  {
    assert n == (n / d) * d + n % d;
    assert (n / d + 1) * d == (n / d) * d + d;
    HalfUpUnique(n, d, n / d + if 2 * (n % d) >= d then 1 else 0);
  }

  lemma HalfUpMono(n: int, m: int, d: nat)
    requires d > 0 && n <= m
    ensures HalfUp(n, d) <= HalfUp(m, d)
  {
    FloorMono(2 * n + d, 2 * m + d, 2 * d);
  }

  /** A whole number of units is never moved by rounding. */
  lemma HalfUpExact(q: int, d: nat)
    requires d > 0
    ensures HalfUp(q * d, d) == q
  {
    HalfUpUnique(q * d, d, q);
  }

  /** Half-up rounding gives the floor or the integer above it. */
  lemma HalfUpNearFloor(n: int, d: nat)
    requires d > 0
    ensures n / d <= HalfUp(n, d) <= n / d + 1
  {
    FloorBounds(n, d);
    var q, h := n / d, HalfUp(n, d);
    assert (h + 1) * d == h * d + d;
    assert (q + 2) * d == q * d + 2 * d;
    MulCancelStrict(q, h + 1, d);
    MulCancelStrict(h, q + 2, d);
  }

  /** Three fractions, each rounded to the nearest unit, miss their sum by at most one and a half units. */
  lemma ThreeRoundings(a: nat, b: nat, c: nat, t: nat)
    requires t > 0
    ensures var total := HalfUp(a, t) + HalfUp(b, t) + HalfUp(c, t);
            2 * (a + b + c) - 3 * t < 2 * (total * t) <= 2 * (a + b + c) + 3 * t
  {
    hide HalfUp;
    SumTimes(HalfUp(a, t), HalfUp(b, t), HalfUp(c, t), t);
  }

  lemma SumTimes(x: nat, y: nat, z: nat, t: nat)
    ensures (x + y + z) * t == x * t + y * t + z * t
  {
  }

  /** Three parts of a whole number of units, each rounded to the nearest, miss it by at most one. */
  lemma ThreePartsOfWhole(a: nat, b: nat, c: nat, w: nat, t: nat)
    requires t > 0 && a + b + c == w * t
    ensures w - 1 <= HalfUp(a, t) + HalfUp(b, t) + HalfUp(c, t) <= w + 1
  {
    ThreeRoundings(a, b, c, t);
    var total := HalfUp(a, t) + HalfUp(b, t) + HalfUp(c, t);
    assert (w + 2) * t == w * t + 2 * t;
    assert (w - 2) * t == w * t - 2 * t;
    MulCancelStrict(total, w + 2, t);
    MulCancelStrict(w - 2, total, t);
  }
}

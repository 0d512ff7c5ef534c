/** Totals over sequences and over the values of a map. */
module Sums {

  /** The weight of a number is the number. */
  ghost function Itself(): nat -> nat { (n: nat) => n }

  /** Sum of the weights of a sequence's elements. */
  ghost function Sum<T>(s: seq<T>, weight: T -> nat): nat
  {
    if s == [] then 0 else Sum(s[..|s| - 1], weight) + weight(s[|s| - 1])
  }

  lemma SumAppend<T>(s: seq<T>, x: T, weight: T -> nat)
    ensures Sum(s + [x], weight) == Sum(s, weight) + weight(x)
  {
    assert (s + [x])[..|s|] == s;
  }

  lemma {:induction false} SumConcat<T>(s: seq<T>, t: seq<T>, weight: T -> nat)
    ensures Sum(s + t, weight) == Sum(s, weight) + Sum(t, weight)
  {
    if t == [] {
      assert s + t == s;
    } else {
      var t' := t[..|t| - 1];
      SumConcat(s, t', weight);
      assert (s + t)[..|s + t| - 1] == s + t';
    }
  }

  /** Pulling out one element leaves the sum of the rest. */
  lemma SumRemove<T>(s: seq<T>, k: nat, weight: T -> nat)
    requires k < |s|
    ensures Sum(s, weight) == weight(s[k]) + Sum(s[..k] + s[k + 1..], weight)
  {
    hide Sum;
    assert s == s[..k] + [s[k]] + s[k + 1..];
    SumConcat(s[..k] + [s[k]], s[k + 1..], weight);
    SumAppend(s[..k], s[k], weight);
    SumConcat(s[..k], s[k + 1..], weight);
  }

  /** The order of a sequence does not matter to its sum. */
  lemma {:induction false} SumPermutation<T>(s: seq<T>, t: seq<T>, weight: T -> nat)
    requires multiset(s) == multiset(t)
    ensures Sum(s, weight) == Sum(t, weight)
    decreases |s|
  {
    assert |multiset(s)| == |s| && |multiset(t)| == |t|;
    if s != [] {
      var x := s[|s| - 1];
      assert x in multiset(s);
      assert x in multiset(t);
      var k :| 0 <= k < |t| && t[k] == x;
      var s', t' := s[..|s| - 1], t[..k] + t[k + 1..];
      assert s == s' + [x];
      assert t == t[..k] + [x] + t[k + 1..];
      assert multiset(s') == multiset(s) - multiset{x};
      assert multiset(t') == multiset(t) - multiset{x};
      SumPermutation(s', t', weight);
      SumRemove(t, k, weight);
    }
  }

  /** Sum of the weights of a map's values. */
  ghost function Total<K, V>(m: map<K, V>, weight: V -> nat): nat
    decreases |m|
  {
    if m.Keys == {} then 0 else
    var k :| k in m.Keys;
    assert (m - {k}).Keys == m.Keys - {k};
    weight(m[k]) + Total(m - {k}, weight)
  }

  lemma TotalUnfold<K, V>(m: map<K, V>, weight: V -> nat) returns (k: K)
    requires m.Keys != {}
    ensures k in m && Total(m, weight) == weight(m[k]) + Total(m - {k}, weight)
  {
    k :| k in m.Keys && Total(m, weight) == weight(m[k]) + Total(m - {k}, weight);
  }

  /** Pulling out one entry leaves the total of the rest. */
  lemma {:induction false} TotalRemove<K, V>(m: map<K, V>, k: K, weight: V -> nat)
    requires k in m
    ensures Total(m, weight) == weight(m[k]) + Total(m - {k}, weight)
    decreases |m|
  {
    hide Total;
    var j := TotalUnfold(m, weight);
    if j != k {
      assert (m - {j}).Keys == m.Keys - {j};
      TotalRemove(m - {j}, k, weight);
      assert (m - {k}).Keys == m.Keys - {k};
      assert |m - {k}| < |m|;
      TotalRemove(m - {k}, j, weight);
      assert m - {j} - {k} == m - {k} - {j};
    }
  }

  /** Writing one entry changes the total by the change of that entry. */
  lemma TotalUpdate<K, V>(m: map<K, V>, k: K, v: V, weight: V -> nat)
    ensures Total(m[k := v], weight) + (if k in m then weight(m[k]) else 0) == Total(m, weight) + weight(v)
  {
    var m' := m[k := v];
    TotalRemove(m', k, weight);
    assert m' - {k} == m - {k};
    if k in m {
      TotalRemove(m, k, weight);
    } else {
      assert m - {k} == m;
    }
  }

  /** One entry never weighs more than all of them. */
  lemma TotalAtLeast<K, V>(m: map<K, V>, k: K, weight: V -> nat)
    requires k in m
    ensures weight(m[k]) <= Total(m, weight)
  {
    TotalRemove(m, k, weight);
  }

  /** A map below another has the smaller total, and a strictly smaller one if it is below it somewhere. */
  lemma {:induction false} TotalMono<K>(m: map<K, nat>, n: map<K, nat>)
    requires m.Keys == n.Keys && forall k <- m :: m[k] <= n[k]
    ensures Total(m, Itself()) <= Total(n, Itself())
    ensures (exists k <- m :: m[k] < n[k]) ==> Total(m, Itself()) < Total(n, Itself())
    decreases |m|
  {
    if j :| j in m && ((exists k <- m :: m[k] < n[k]) ==> m[j] < n[j]) {
      TotalRemove(m, j, Itself());
      TotalRemove(n, j, Itself());
      assert (m - {j}).Keys == m.Keys - {j} && (n - {j}).Keys == n.Keys - {j};
      TotalMono(m - {j}, n - {j});
    } else {
      assert m == map[] && n == map[];
    }
  }
}

/**
 Sums over the values of a finite map. Python sums list comprehensions over a
 dictionary's values or over a set of keys; on exact reals the order in which
 the terms are added does not matter, so the sum is defined by removing an
 arbitrary key and proved independent of that choice.
 */
module Sums {

  /** Some key of a non-empty map. */
  ghost function Pick<K>(m: map<K, real>): (k: K)
    requires |m| > 0
    ensures k in m
  {
    var k :| k in m; k
  }

  /** The sum of all values of `m`. */
  ghost function Sum<K>(m: map<K, real>): real
    decreases |m|
  {
    if |m| == 0 then 0.0
    else
      var k := Pick(m);
      assert |m - {k}| == |m| - 1 by { assert (m - {k}).Keys == m.Keys - {k}; }
      m[k] + Sum(m - {k})
  }

  /** The same map with `c` subtracted from every value. */
  function Shift<K>(m: map<K, real>, c: real): (r: map<K, real>)
    ensures r.Keys == m.Keys
    ensures forall k :: k in m ==> r[k] == m[k] - c
  {
    map k | k in m :: m[k] - c
  }

  lemma SizeOfRemove<K>(m: map<K, real>, k: K)
    requires k in m
    ensures |m - {k}| == |m| - 1
  {
    assert (m - {k}).Keys == m.Keys - {k};
  }

  /** Taking out two distinct keys in either order leaves the same map. */
  lemma RemoveTwice<K>(m: map<K, real>, j: K, k: K)
    ensures (m - {j}) - {k} == (m - {k}) - {j}
  {
  }

  /** Any key may be taken out first: the sum does not depend on the choice. */
  lemma {:induction false} SumRemove<K>(m: map<K, real>, k: K)
    requires k in m
    ensures Sum(m) == m[k] + Sum(m - {k})
    decreases |m|
  {
    var j := Pick(m);
    if j != k {
      var mj, mk := m - {j}, m - {k};
      SizeOfRemove(m, j);
      SizeOfRemove(m, k);
      assert k in mj && mj[k] == m[k];
      assert j in mk && mk[j] == m[j];
      SumRemove(mj, k);
      SumRemove(mk, j);
      RemoveTwice(m, j, k);
      var rest := Sum(mj - {k});
      assert Sum(mk - {j}) == rest;
      calc {
        Sum(m);
        m[j] + Sum(mj);
        m[j] + (m[k] + rest);
        m[k] + (m[j] + rest);
        m[k] + Sum(mk);
      }
    }
  }

  /** A map of non-negative values has a non-negative sum. */
  lemma {:induction false} SumNonNegative<K>(m: map<K, real>)
    requires forall k :: k in m ==> m[k] >= 0.0
    ensures Sum(m) >= 0.0
    decreases |m|
  {
    if |m| > 0 {
      var k :| k in m;
      SumRemove(m, k);
      SizeOfRemove(m, k);
      SumNonNegative(m - {k});
    }
  }

  /** A map whose values are all zero sums to zero. */
  lemma {:induction false} SumOfZeros<K>(m: map<K, real>)
    requires forall k :: k in m ==> m[k] == 0.0
    ensures Sum(m) == 0.0
    decreases |m|
  {
    if |m| > 0 {
      var k :| k in m;
      SumRemove(m, k);
      SizeOfRemove(m, k);
      SumOfZeros(m - {k});
    }
  }

  /** A map of non-negative values with one positive value has a positive sum. */
  lemma {:induction false} SumPositive<K>(m: map<K, real>, k: K)
    requires forall j :: j in m ==> m[j] >= 0.0
    requires k in m && m[k] > 0.0
    ensures Sum(m) > 0.0
  {
    SumRemove(m, k);
    SumNonNegative(m - {k});
  }

  /** n copies of c added up. */
  function Scaled(n: nat, c: real): real
  {
    if n == 0 then 0.0 else Scaled(n - 1, c) + c
  }

  /** Adding up n copies of c is multiplying c by n. */
  lemma {:induction false} ScaledIsProduct(n: nat, c: real)
    ensures Scaled(n, c) == (n as real) * c
  {
    if n > 0 {
      ScaledIsProduct(n - 1, c);
      assert (n as real) * c == ((n - 1) as real) * c + c;
    }
  }

  /** Values lowered by c everywhere lower the sum by c once per key. */
  lemma {:induction false} SumShifted<K>(m: map<K, real>, r: map<K, real>, c: real)
    requires r.Keys == m.Keys
    requires forall k :: k in m ==> r[k] == m[k] - c
    ensures Sum(r) == Sum(m) - Scaled(|m|, c)
    decreases |m|
  {
    if |m| > 0 {
      var k := Pick(m);
      SumRemove(m, k);
      SumRemove(r, k);
      SizeOfRemove(m, k);
      SumShifted(m - {k}, r - {k}, c);
    } else {
      assert |r| == 0 by { assert r.Keys == {}; }
    }
  }

  /** Subtracting a constant from every value lowers the sum by c once per key. */
  lemma SumShift<K>(m: map<K, real>, c: real)
    ensures Sum(Shift(m, c)) == Sum(m) - Scaled(|m|, c)
  {
    SumShifted(m, Shift(m, c), c);
  }
}

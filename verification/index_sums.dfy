/**
  Lists of positions and sums over them.

  A subset of items is represented as a list of positions without repetition;
  `Sum(a, ps)` adds the amount `a[p]` of every listed position `p`.
*/
module IndexSums {

  /** Every listed position is below `n`. */
  predicate InRange(ps: seq<nat>, n: nat)
  {
    forall t :: 0 <= t < |ps| ==> ps[t] < n
  }

  /** No position is listed twice. */
  predicate Distinct(ps: seq<nat>)
  {
    forall s, t :: 0 <= s < t < |ps| ==> ps[s] != ps[t]
  }

  predicate Increasing(ps: seq<nat>)
  {
    forall s, t :: 0 <= s < t < |ps| ==> ps[s] < ps[t]
  }

  predicate Decreasing(ps: seq<nat>)
  {
    forall s, t :: 0 <= s < t < |ps| ==> ps[s] > ps[t]
  }

  /** The positions `0, 1, ..., k - 1`. */
  function Range(k: nat): (r: seq<nat>)
    ensures |r| == k
    ensures forall t :: 0 <= t < k ==> r[t] == t
  {
    seq(k, t => t)
  }

  /** The sum of `a[p]` over the listed positions `p`. */
  function Sum(a: seq<int>, ps: seq<nat>): (r: int)
    requires InRange(ps, |a|)
    ensures (forall p :: 0 <= p < |a| ==> a[p] >= 0) ==> r >= 0
  {
    if |ps| == 0 then 0 else Sum(a, ps[..|ps| - 1]) + a[ps[|ps| - 1]]
  }

  /** The list without its entry at index `t`. */
  function RemoveAt(ps: seq<nat>, t: nat): (r: seq<nat>)
    requires t < |ps|
    ensures |r| == |ps| - 1
    ensures forall u :: 0 <= u < t ==> r[u] == ps[u]
    ensures forall u :: t <= u < |r| ==> r[u] == ps[u + 1]
  {
    ps[..t] + ps[t + 1..]
  }

  lemma {:induction false} SumAppend(a: seq<int>, xs: seq<nat>, ys: seq<nat>)
    requires InRange(xs, |a|) && InRange(ys, |a|)
    ensures InRange(xs + ys, |a|)
    ensures Sum(a, xs + ys) == Sum(a, xs) + Sum(a, ys)
    decreases |ys|
  {
    if |ys| == 0 {
      assert xs + ys == xs;
    } else {
      var ys' := ys[..|ys| - 1];
      assert (xs + ys)[..|xs + ys| - 1] == xs + ys';
      SumAppend(a, xs, ys');
    }
  }

  lemma SumSingle(a: seq<int>, x: nat)
    requires x < |a|
    ensures Sum(a, [x]) == a[x]
  {
    assert [x][..0] == [];
  }

  /** Prepending a position adds its amount. */
  lemma SumCons(a: seq<int>, x: nat, ys: seq<nat>)
    requires x < |a| && InRange(ys, |a|)
    ensures InRange([x] + ys, |a|)
    ensures Sum(a, [x] + ys) == a[x] + Sum(a, ys)
  {
    SumAppend(a, [x], ys);
    SumSingle(a, x);
  }

  /** Taking one entry out of a list subtracts exactly its amount. */
  lemma {:induction false} SumRemove(a: seq<int>, ps: seq<nat>, t: nat)
    requires InRange(ps, |a|) && t < |ps|
    ensures InRange(RemoveAt(ps, t), |a|)
    ensures Sum(a, ps) == Sum(a, RemoveAt(ps, t)) + a[ps[t]]
    decreases |ps|
  {
    var n := |ps|;
    var init, r := ps[..n - 1], RemoveAt(ps, t);
    if t < n - 1 {
      var r' := RemoveAt(init, t);
      assert r[..n - 2] == r' && r[n - 2] == ps[n - 1];
      SumRemove(a, init, t);
    } else {
      assert r == init;
    }
  }

  /** Removing the largest admissible position `m` from a distinct list within `m + 1`
      leaves a distinct list within `m`. */
  lemma RemoveTop(ps: seq<nat>, t: nat, m: nat)
    requires Distinct(ps) && InRange(ps, m + 1) && t < |ps| && ps[t] == m
    ensures Distinct(RemoveAt(ps, t)) && InRange(RemoveAt(ps, t), m)
  {
    var r := RemoveAt(ps, t);
    forall u | 0 <= u < |r|
      ensures r[u] < m
    {
      if u < t {
        assert r[u] == ps[u] != ps[t];
      } else {
        assert r[u] == ps[u + 1] != ps[t];
      }
    }
    forall s, u | 0 <= s < u < |r|
      ensures r[s] != r[u]
    {
      var s' := if s < t then s else s + 1;
      var u' := if u < t then u else u + 1;
      assert r[s] == ps[s'] && r[u] == ps[u'] && s' < u';
    }
  }

  lemma SumRangeStep(a: seq<int>, k: nat)
    requires k < |a|
    ensures Sum(a, Range(k + 1)) == Sum(a, Range(k)) + a[k]
  {
    assert Range(k + 1)[..k] == Range(k);
  }

  /**
    The exchange bound behind the fractional relaxation: when the amounts are
    non-negative before position `k` and non-positive from `k` on, no distinct list
    of positions below `m` adds up to more than the positions below `min(k, m)`.
  */
  lemma {:induction false} SubsetSumBound(d: seq<int>, k: nat, m: nat, S: seq<nat>)
    requires k <= |d| && m <= |d|
    requires forall p :: 0 <= p < k ==> d[p] >= 0
    requires forall p :: k <= p < |d| ==> d[p] <= 0
    requires Distinct(S) && InRange(S, m)
    ensures Sum(d, S) <= Sum(d, Range(if m < k then m else k))
    decreases m, 1
  {
    if m == 0 {
      assert |S| == 0;
    } else if m - 1 in S {
      var t :| 0 <= t < |S| && S[t] == m - 1;
      SubsetSumBoundTop(d, k, m, S, t);
    } else {
      assert InRange(S, m - 1);
      SubsetSumBound(d, k, m - 1, S);
      if m - 1 < k {
        SumRangeStep(d, m - 1);
      }
    }
  }

  /** The case of `SubsetSumBound` where position `m - 1` is listed, at index `t`. */
  lemma {:induction false} SubsetSumBoundTop(d: seq<int>, k: nat, m: nat, S: seq<nat>, t: nat)
    requires k <= |d| && 0 < m <= |d|
    requires forall p :: 0 <= p < k ==> d[p] >= 0
    requires forall p :: k <= p < |d| ==> d[p] <= 0
    requires Distinct(S) && InRange(S, m) && t < |S| && S[t] == m - 1
    ensures Sum(d, S) <= Sum(d, Range(if m < k then m else k))
    decreases m, 0
  {
    var S' := RemoveAt(S, t);
    RemoveTop(S, t, m - 1);
    SumRemove(d, S, t);
    SubsetSumBound(d, k, m - 1, S');
    if m - 1 < k {
      SumRangeStep(d, m - 1);
    }
  }

  /** Sums are linear: summing `a[p] * x - b[p] * y` is `Sum(a) * x - Sum(b) * y`. */
  lemma {:induction false} SumCombination(a: seq<int>, b: seq<int>, x: int, y: int, d: seq<int>, ps: seq<nat>)
    requires |a| == |d| && |b| == |d|
    requires forall p :: 0 <= p < |d| ==> d[p] == a[p] * x - b[p] * y
    requires InRange(ps, |d|)
    ensures Sum(d, ps) == Sum(a, ps) * x - Sum(b, ps) * y
    decreases |ps|
  {
    if |ps| > 0 {
      var init, last := ps[..|ps| - 1], ps[|ps| - 1];
      SumCombination(a, b, x, y, d, init);
      assert (Sum(a, init) + a[last]) * x == Sum(a, init) * x + a[last] * x;
      assert (Sum(b, init) + b[last]) * y == Sum(b, init) * y + b[last] * y;
    }
  }
}

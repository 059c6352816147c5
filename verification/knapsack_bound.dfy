/**
  The fractional-relaxation (Dantzig) upper bound of the knapsack solver.

  `sw` and `sv` are the weights and values listed in the solver's ratio order.
  The bound takes items while they fit and then the floored fractional share of
  the first item that does not fit.
*/
module KnapsackBound {
  import opened IndexSums

  /** Items listed in non-increasing value/weight ratio, compared exactly by
      cross-multiplication (`v_p / w_p >= v_q / w_q` as `v_p * w_q >= v_q * w_p`). */
  predicate RatioSorted(sw: seq<nat>, sv: seq<nat>)
    requires |sw| == |sv|
  {
    forall p, q :: 0 <= p < q < |sw| ==> sv[p] * sw[q] >= sv[q] * sw[p]
  }

  /** The bound loop from sorted position `j`, with `acc` accumulated so far and
      `rem` capacity remaining. */
  function Greedy(sw: seq<nat>, sv: seq<nat>, j: nat, acc: nat, rem: nat): nat
    requires |sw| == |sv| && j <= |sw|
    decreases |sw| - j
  {
    if j == |sw| then acc
    else if sw[j] <= rem then Greedy(sw, sv, j + 1, acc + sv[j], rem - sw[j])
    else acc + sv[j] * rem / sw[j]
  }

  function UpperBound(sw: seq<nat>, sv: seq<nat>, cap: nat): nat
    requires |sw| == |sv|
  {
    Greedy(sw, sv, 0, 0, cap)
  }

  /** The sorted position at which the greedy loop stops taking whole items. */
  function FitEnd(sw: seq<nat>, j: nat, rem: nat): nat
    requires j <= |sw|
    decreases |sw| - j
  {
    if j == |sw| then j
    else if sw[j] <= rem then FitEnd(sw, j + 1, rem - sw[j])
    else j
  }

  lemma {:induction false} GreedyClosedForm(sw: seq<nat>, sv: seq<nat>, j: nat, cap: nat)
    requires |sw| == |sv| && j <= |sw| && Sum(sw, Range(j)) <= cap
    ensures var k := FitEnd(sw, j, cap - Sum(sw, Range(j)));
      && j <= k <= |sw|
      && Sum(sw, Range(k)) <= cap
      && (k < |sw| ==> Sum(sw, Range(k)) + sw[k] > cap)
      && Greedy(sw, sv, j, Sum(sv, Range(j)), cap - Sum(sw, Range(j)))
         == Sum(sv, Range(k)) + (if k < |sw| then sv[k] * (cap - Sum(sw, Range(k))) / sw[k] else 0)
    decreases |sw| - j
  {
    if j < |sw| && sw[j] <= cap - Sum(sw, Range(j)) {
      SumRangeStep(sw, j);
      SumRangeStep(sv, j);
      GreedyClosedForm(sw, sv, j + 1, cap);
    }
  }

  /**
    The bound is the value of the longest prefix (in ratio order) that fits, plus the
    floored fractional share `v_k * remaining / w_k` of the first item `k` that does not.
  */
  lemma UpperBoundClosedForm(sw: seq<nat>, sv: seq<nat>, cap: nat)
    requires |sw| == |sv|
    ensures var k := FitEnd(sw, 0, cap);
      && k <= |sw|
      && Sum(sw, Range(k)) <= cap
      && (k < |sw| ==> Sum(sw, Range(k)) + sw[k] > cap)
      && UpperBound(sw, sv, cap)
         == Sum(sv, Range(k)) + (if k < |sw| then sv[k] * (cap - Sum(sw, Range(k))) / sw[k] else 0)
  {
    assert Range(0) == [];
    GreedyClosedForm(sw, sv, 0, cap);
  }

  /** The arithmetic closing the soundness proof: from the exchange inequality and
      `ws <= cap` follows `vs <= vp + floor(vk * (cap - wp) / wk)`. */
  lemma BoundArithmetic(vs: int, ws: int, vp: int, wp: int, vk: nat, wk: nat, cap: nat)
    requires wk > 0 && ws <= cap && wp <= cap
    requires vs * wk - ws * vk <= vp * wk - wp * vk
    ensures vs <= vp + (vk * (cap - wp)) / wk
  {
    var x: nat := vk * (cap - wp);
    assert vk * ws <= vk * cap;
    assert x == vk * cap - vk * wp;
    assert vs * wk <= vp * wk + x;
    var q := x / wk;
    assert x < q * wk + wk;
    assert (vp + q + 1) * wk == vp * wk + q * wk + wk;
    assert vs * wk < (vp + q + 1) * wk;
  }

  /**
    The exchange argument: measured against the first item `k` that does not fit,
    every item before `k` gains at least as much value per weight and every item from
    `k` on at most as much, so no subset beats the prefix before `k` in
    `value * w_k - weight * v_k`.
  */
  lemma ExchangeBound(sw: seq<nat>, sv: seq<nat>, k: nat, S: seq<nat>)
    requires |sw| == |sv| && RatioSorted(sw, sv) && k < |sw|
    requires Distinct(S) && InRange(S, |sw|)
    ensures Sum(sv, S) * sw[k] - Sum(sw, S) * sv[k] <= Sum(sv, Range(k)) * sw[k] - Sum(sw, Range(k)) * sv[k] as int
  {
    var n := |sw|;
    var wk: int, vk: int := sw[k], sv[k];
    var d: seq<int> := seq(n, p requires 0 <= p < n => (sv[p] as int) * wk - (sw[p] as int) * vk);
    forall p | 0 <= p < k
      ensures d[p] >= 0
    {
      assert sv[p] * sw[k] >= sv[k] * sw[p];
    }
    forall p | k < p < n
      ensures d[p] <= 0
    {
      assert sv[k] * sw[p] >= sv[p] * sw[k];
    }
    SubsetSumBound(d, k, n, S);
    SumCombination(sv, sw, wk, vk, d, S);
    SumCombination(sv, sw, wk, vk, d, Range(k));
  }

  /**
    Soundness of the bound: in ratio order, no subset of items whose total weight is at
    most `cap` is worth more than `UpperBound`, so rejecting an instance whose bound
    is below the target never loses a solution.
  */
  lemma UpperBoundSound(sw: seq<nat>, sv: seq<nat>, cap: nat, S: seq<nat>)
    requires |sw| == |sv| && RatioSorted(sw, sv)
    requires Distinct(S) && InRange(S, |sw|) && Sum(sw, S) <= cap
    ensures Sum(sv, S) <= UpperBound(sw, sv, cap)
  {
    UpperBoundClosedForm(sw, sv, cap);
    var k := FitEnd(sw, 0, cap);
    if k == |sw| {
      SubsetSumBound(sv, k, k, S);
    } else {
      var vs, ws := Sum(sv, S), Sum(sw, S);
      var vp, wp := Sum(sv, Range(k)), Sum(sw, Range(k));
      ExchangeBound(sw, sv, k, S);
      BoundArithmetic(vs, ws, vp, wp, sv[k], sw[k], cap);
    }
  }
}

/**
  The knapsack solver: ratio order, fractional upper bound, 0/1 DP with an
  inclusion record, early exit at the first prefix that reaches the target, and
  backwards reconstruction.

  The solver is modelled once, parameterised by the `Layout` of its inclusion bits:
  `Solve(ch, order, AsWritten)` follows the source's bit indexing and
  `Solve(ch, order, Corrected)` gives every (item, capacity) pair its own bit.
*/
module Knapsack {
  import opened Wrappers
  import opened IndexSums
  import opened KnapsackBound
  import opened KnapsackDp
  import opened KnapsackTable

  /** The fields of a knapsack challenge the solver reads. */
  datatype Challenge = Challenge(weights: seq<nat>, values: seq<nat>, maxWeight: nat, minValue: nat)

  /** One weight and one value per item; and, whenever the sort has two items to compare,
      no item with weight 0 and value 0, whose ratio `0 / 0` is NaN and makes the
      comparator panic. */
  predicate WellFormed(ch: Challenge)
  {
    && |ch.weights| == |ch.values|
    && (|ch.weights| >= 2 ==> forall i :: 0 <= i < |ch.weights| ==> ch.weights[i] > 0 || ch.values[i] > 0)
  }

  predicate IsPermutation(order: seq<nat>, n: nat)
  {
    |order| == n && Distinct(order) && InRange(order, n) && forall x :: 0 <= x < n ==> x in order
  }

  /** `a` listed in the order `order`. */
  function InOrder(a: seq<nat>, order: seq<nat>): (r: seq<nat>)
    requires InRange(order, |a|)
    ensures |r| == |order| && forall k :: 0 <= k < |order| ==> r[k] == a[order[k]]
  {
    seq(|order|, k requires 0 <= k < |order| => a[order[k]])
  }

  /** `order` lists the items by non-increasing value/weight ratio, as the sort leaves
      them (ties in any order). */
  predicate RatioOrdered(ch: Challenge, order: seq<nat>)
    requires WellFormed(ch) && IsPermutation(order, |ch.weights|)
  {
    RatioSorted(InOrder(ch.weights, order), InOrder(ch.values, order))
  }

  /** The item indices at the given sorted positions. */
  function ItemsAt(order: seq<nat>, ps: seq<nat>): (items: seq<nat>)
    requires InRange(ps, |order|)
    ensures |items| == |ps| && forall t :: 0 <= t < |ps| ==> items[t] == order[ps[t]]
  {
    seq(|ps|, t requires 0 <= t < |ps| => order[ps[t]])
  }

  /** The sorted position of item `x`. */
  function IndexOf(order: seq<nat>, x: nat): (k: nat)
    requires x in order
    ensures k < |order| && order[k] == x
  {
    if order[0] == x then 0 else 1 + IndexOf(order[1..], x)
  }

  /** `dp[cap]` once the first `j + 1` sorted items have been scanned. */
  function Reached(sw: seq<nat>, sv: seq<nat>, cap: nat, j: nat): (v: nat)
    requires |sw| == |sv| && j < |sw|
  {
    Rows(sw, sv, cap, j + 1)[cap]
  }

  /**
    The early exit: the first sorted position `i >= start` after which `dp[cap]`
    reaches `minValue`, or `None` when no prefix does.
  */
  function FirstReaching(sw: seq<nat>, sv: seq<nat>, cap: nat, minValue: nat, start: nat): (r: Option<nat>)
    requires |sw| == |sv| && start <= |sw|
    ensures r.Some? ==> start <= r.value < |sw| && Reached(sw, sv, cap, r.value) >= minValue
    ensures r.Some? ==> forall j :: start <= j < r.value ==> Reached(sw, sv, cap, j) < minValue
    ensures r.None? ==> forall j :: start <= j < |sw| ==> Reached(sw, sv, cap, j) < minValue
    decreases |sw| - start
  {
    if start == |sw| then None
    else if Reached(sw, sv, cap, start) >= minValue then Some(start)
    else FirstReaching(sw, sv, cap, minValue, start + 1)
  }

  /** `solve_challenge`, given the order the ratio sort produced. */
  function Solve(ch: Challenge, order: seq<nat>, layout: Layout): Option<seq<nat>>
    requires WellFormed(ch) && IsPermutation(order, |ch.weights|)
  {
    var sw, sv, cap := InOrder(ch.weights, order), InOrder(ch.values, order), ch.maxWeight;
    if UpperBound(sw, sv, cap) < ch.minValue then None
    else
      match FirstReaching(sw, sv, cap, ch.minValue, 0)
      case None => None
      case Some(i) => Some(Answer(order, sw, sv, cap, layout, i))
  }

  /** The reconstruction after the early exit at sorted position `i`: walk the
      inclusion bits back from `(i, cap)`, reverse, map to item indices. */
  function Answer(order: seq<nat>, sw: seq<nat>, sv: seq<nat>, cap: nat, layout: Layout, i: nat): seq<nat>
    requires |sw| == |sv| == |order| && i < |sw|
  {
    ItemsAt(order, Reverse(Walk(TableOf(layout, sw, sv, cap, i + 1), sw, i + 1, cap)))
  }

  /** Distinct item indices of total weight at most `maxWeight`. */
  predicate Feasible(ch: Challenge, items: seq<nat>)
    requires |ch.weights| == |ch.values|
  {
    Distinct(items) && InRange(items, |ch.weights|) && Sum(ch.weights, items) <= ch.maxWeight
  }

  /** The items appear in increasing sorted position. */
  predicate InSortedOrder(order: seq<nat>, items: seq<nat>)
  {
    forall s, t :: 0 <= s < t < |items| ==>
      items[s] in order && items[t] in order && IndexOf(order, items[s]) < IndexOf(order, items[t])
  }

  /** Summing over sorted positions is summing over the items at those positions. */
  lemma {:induction false} SumInOrder(a: seq<nat>, order: seq<nat>, ps: seq<nat>)
    requires InRange(order, |a|) && InRange(ps, |order|)
    ensures Sum(InOrder(a, order), ps) == Sum(a, ItemsAt(order, ps))
    decreases |ps|
  {
    if |ps| > 0 {
      var init := ps[..|ps| - 1];
      SumInOrder(a, order, init);
      assert ItemsAt(order, ps)[..|ps| - 1] == ItemsAt(order, init);
    }
  }

  lemma IndexOfOrder(order: seq<nat>, p: nat)
    requires Distinct(order) && p < |order|
    ensures order[p] in order && IndexOf(order, order[p]) == p
  {
    var k := IndexOf(order, order[p]);
    assert order[k] == order[p];
  }

  /** The sorted positions of a list of items. */
  function PositionsOf(order: seq<nat>, items: seq<nat>): (ps: seq<nat>)
    requires forall t :: 0 <= t < |items| ==> items[t] in order
    ensures |ps| == |items| && InRange(ps, |order|)
    ensures forall t :: 0 <= t < |items| ==> order[ps[t]] == items[t]
  {
    seq(|items|, t requires 0 <= t < |items| => IndexOf(order, items[t]))
  }

  /** Any feasible selection, looked at through the ratio order, is a distinct list of
      sorted positions with the same weight and value. */
  lemma PositionsOfSelection(ch: Challenge, order: seq<nat>, items: seq<nat>)
    requires WellFormed(ch) && IsPermutation(order, |ch.weights|) && Feasible(ch, items)
    ensures forall t :: 0 <= t < |items| ==> items[t] in order
    ensures var ps := PositionsOf(order, items);
      && Distinct(ps)
      && Sum(InOrder(ch.weights, order), ps) == Sum(ch.weights, items)
      && Sum(InOrder(ch.values, order), ps) == Sum(ch.values, items)
  {
    var ps := PositionsOf(order, items);
    assert ItemsAt(order, ps) == items;
    assert Distinct(ps) by {
      forall s, t | 0 <= s < t < |ps|
        ensures ps[s] != ps[t]
      {
        assert order[ps[s]] == items[s] && order[ps[t]] == items[t];
      }
    }
    SumInOrder(ch.weights, order, ps);
    SumInOrder(ch.values, order, ps);
  }

  /** The answer's weight and value are those of the walked sorted positions. */
  lemma ItemsAtSelection(ch: Challenge, order: seq<nat>, ps: seq<nat>)
    requires WellFormed(ch) && IsPermutation(order, |ch.weights|)
    requires Increasing(ps) && InRange(ps, |order|)
    ensures Distinct(ItemsAt(order, ps)) && InRange(ItemsAt(order, ps), |ch.weights|)
    ensures InSortedOrder(order, ItemsAt(order, ps))
    ensures Sum(ch.weights, ItemsAt(order, ps)) == Sum(InOrder(ch.weights, order), ps)
    ensures Sum(ch.values, ItemsAt(order, ps)) == Sum(InOrder(ch.values, order), ps)
  {
    var items := ItemsAt(order, ps);
    forall t | 0 <= t < |ps|
      ensures items[t] in order && IndexOf(order, items[t]) == ps[t]
    {
      IndexOfOrder(order, ps[t]);
    }
    SumInOrder(ch.weights, order, ps);
    SumInOrder(ch.values, order, ps);
  }

  /** The corrected reconstruction after the exit at `i` is a feasible selection in
      sorted order whose value is `dp[maxWeight]` at that point. */
  lemma CorrectedAnswerSound(ch: Challenge, order: seq<nat>, i: nat)
    requires WellFormed(ch) && IsPermutation(order, |ch.weights|) && i < |ch.weights|
    ensures var sw, sv := InOrder(ch.weights, order), InOrder(ch.values, order);
      var items := Answer(order, sw, sv, ch.maxWeight, Corrected, i);
      && Feasible(ch, items) && InSortedOrder(order, items)
      && Sum(ch.values, items) == Reached(sw, sv, ch.maxWeight, i)
  {
    var sw, sv, cap := InOrder(ch.weights, order), InOrder(ch.values, order), ch.maxWeight;
    var ps := Reverse(Walk(TableOf(Corrected, sw, sv, cap, i + 1), sw, i + 1, cap));
    assert Answer(order, sw, sv, cap, Corrected, i) == ItemsAt(order, ps);
    ReconstructionSound(ch, order, sw, sv, i, ps);
  }

  /** The step behind `CorrectedAnswerSound`, over the reconstructed positions `ps`. */
  lemma ReconstructionSound(ch: Challenge, order: seq<nat>, sw: seq<nat>, sv: seq<nat>, i: nat, ps: seq<nat>)
    requires WellFormed(ch) && IsPermutation(order, |ch.weights|) && i < |ch.weights|
    requires sw == InOrder(ch.weights, order) && sv == InOrder(ch.values, order)
    requires ps == Reverse(Walk(TableOf(Corrected, sw, sv, ch.maxWeight, i + 1), sw, i + 1, ch.maxWeight))
    ensures Feasible(ch, ItemsAt(order, ps)) && InSortedOrder(order, ItemsAt(order, ps))
    ensures Sum(ch.values, ItemsAt(order, ps)) == Reached(sw, sv, ch.maxWeight, i)
  {
    var v := Reached(sw, sv, ch.maxWeight, i);
    assert Increasing(ps) && InRange(ps, i + 1) && Sum(sw, ps) <= ch.maxWeight && Sum(sv, ps) == v by {
      CorrectedReconstruction(sw, sv, ch.maxWeight, i + 1);
    }
    assert InRange(ps, |order|);
    SelectionFeasible(ch, order, sw, sv, ps, v);
  }

  /** Increasing sorted positions within the capacity name a feasible selection
      worth their sorted value sum. */
  lemma SelectionFeasible(ch: Challenge, order: seq<nat>, sw: seq<nat>, sv: seq<nat>, ps: seq<nat>, value: nat)
    requires WellFormed(ch) && IsPermutation(order, |ch.weights|)
    requires sw == InOrder(ch.weights, order) && sv == InOrder(ch.values, order)
    requires Increasing(ps) && InRange(ps, |order|)
    requires Sum(sw, ps) <= ch.maxWeight && Sum(sv, ps) == value
    ensures Feasible(ch, ItemsAt(order, ps)) && InSortedOrder(order, ItemsAt(order, ps))
    ensures Sum(ch.values, ItemsAt(order, ps)) == value
  {
    ItemsAtSelection(ch, order, ps);
  }

  /** Increasing sorted positions up to `i` name distinct items in sorted order, each
      at a sorted position up to `i`. */
  lemma PositionsShape(ch: Challenge, order: seq<nat>, ps: seq<nat>, i: nat)
    requires WellFormed(ch) && IsPermutation(order, |ch.weights|) && i < |order|
    requires Increasing(ps) && InRange(ps, i + 1)
    ensures var items := ItemsAt(order, ps);
      && Distinct(items) && InRange(items, |ch.weights|) && InSortedOrder(order, items)
      && forall t :: 0 <= t < |items| ==> items[t] in order && IndexOf(order, items[t]) <= i
  {
    ItemsAtSelection(ch, order, ps);
    forall t | 0 <= t < |ps|
      ensures order[ps[t]] in order && IndexOf(order, order[ps[t]]) <= i
    {
      IndexOfOrder(order, ps[t]);
    }
  }

  /**
    Whatever the bit layout, the answer after the exit at `i` lists distinct items in
    increasing sorted position, none of them past position `i`. Only its weight and
    value depend on the bits reading back what was written.
  */
  lemma AnswerShape(ch: Challenge, order: seq<nat>, layout: Layout, i: nat)
    requires WellFormed(ch) && IsPermutation(order, |ch.weights|) && i < |ch.weights|
    ensures var sw, sv := InOrder(ch.weights, order), InOrder(ch.values, order);
      var items := Answer(order, sw, sv, ch.maxWeight, layout, i);
      && Distinct(items) && InRange(items, |ch.weights|) && InSortedOrder(order, items)
      && forall t :: 0 <= t < |items| ==> items[t] in order && IndexOf(order, items[t]) <= i
  {
    var sw, sv, cap := InOrder(ch.weights, order), InOrder(ch.values, order), ch.maxWeight;
    var w := Walk(TableOf(layout, sw, sv, cap, i + 1), sw, i + 1, cap);
    ReverseIncreasing(w);
    PositionsShape(ch, order, Reverse(w), i);
  }

  /**
    For every layout: the solver answers exactly when the greedy bound reaches
    `minValue` and some prefix of the DP reaches it; the answer then comes from the
    first such prefix and is a list of distinct items in sorted order drawn from it.
  */
  lemma SolveExit(ch: Challenge, order: seq<nat>, layout: Layout)
    requires WellFormed(ch) && IsPermutation(order, |ch.weights|)
    ensures var sw, sv := InOrder(ch.weights, order), InOrder(ch.values, order);
      var f := FirstReaching(sw, sv, ch.maxWeight, ch.minValue, 0);
      Solve(ch, order, layout).Some? <==> UpperBound(sw, sv, ch.maxWeight) >= ch.minValue && f.Some?
    ensures var sw, sv := InOrder(ch.weights, order), InOrder(ch.values, order);
      var r, f := Solve(ch, order, layout), FirstReaching(sw, sv, ch.maxWeight, ch.minValue, 0);
      r.Some? ==>
        (&& f.Some? && Reached(sw, sv, ch.maxWeight, f.value) >= ch.minValue
         && Distinct(r.value) && InRange(r.value, |ch.weights|) && InSortedOrder(order, r.value)
         && forall t :: 0 <= t < |r.value| ==> r.value[t] in order && IndexOf(order, r.value[t]) <= f.value)
  {
    var sw, sv := InOrder(ch.weights, order), InOrder(ch.values, order);
    var f := FirstReaching(sw, sv, ch.maxWeight, ch.minValue, 0);
    if f.Some? {
      AnswerShape(ch, order, layout, f.value);
    }
  }

  lemma SolveSound(ch: Challenge, order: seq<nat>)
    requires WellFormed(ch) && IsPermutation(order, |ch.weights|)
    ensures var r := Solve(ch, order, Corrected);
      r.Some? ==> Feasible(ch, r.value) && Sum(ch.values, r.value) >= ch.minValue && InSortedOrder(order, r.value)
    ensures var sw, sv := InOrder(ch.weights, order), InOrder(ch.values, order);
      var r := Solve(ch, order, Corrected);
      var f := FirstReaching(sw, sv, ch.maxWeight, ch.minValue, 0);
      r.Some? ==> f.Some? && Sum(ch.values, r.value) == Reached(sw, sv, ch.maxWeight, f.value)
  {
    var sw, sv := InOrder(ch.weights, order), InOrder(ch.values, order);
    var f := FirstReaching(sw, sv, ch.maxWeight, ch.minValue, 0);
    if f.Some? {
      CorrectedAnswerSound(ch, order, f.value);
    }
  }

  /**
    The solver answers `None` exactly when no feasible selection reaches `minValue`
    (or there are no items at all): neither the bound's early `None` nor running out
    of items loses a solution. Both `None` paths are decided before any bit is read,
    so this holds for either layout.
  */
  lemma SolveComplete(ch: Challenge, order: seq<nat>, layout: Layout)
    requires WellFormed(ch) && IsPermutation(order, |ch.weights|) && RatioOrdered(ch, order)
    ensures Solve(ch, order, layout).None? <==>
      (|ch.weights| == 0 || forall items :: Feasible(ch, items) ==> Sum(ch.values, items) < ch.minValue)
  {
    var sw, sv, cap := InOrder(ch.weights, order), InOrder(ch.values, order), ch.maxWeight;
    var n := |ch.weights|;
    var r := Solve(ch, order, Corrected);
    assert Solve(ch, order, layout).None? == r.None?;
    SolveSound(ch, order);
    if r.None? && n > 0 {
      forall items | Feasible(ch, items)
        ensures Sum(ch.values, items) < ch.minValue
      {
        PositionsOfSelection(ch, order, items);
        var ps := PositionsOf(order, items);
        if UpperBound(sw, sv, cap) < ch.minValue {
          UpperBoundSound(sw, sv, cap, ps);
        } else {
          assert Reached(sw, sv, cap, n - 1) < ch.minValue;
          RowsOptimal(sw, sv, cap, n, cap, ps);
        }
      }
    }
  }

  /** When rows are aligned (or there is a single item) the source's bits do not
      overlap and it answers exactly as the corrected solver. */
  lemma AsWrittenAgreesWhenAligned(ch: Challenge, order: seq<nat>)
    requires WellFormed(ch) && IsPermutation(order, |ch.weights|)
    requires |ch.weights| <= 1 || (ch.maxWeight + 1) % 64 == 0
    ensures Solve(ch, order, AsWritten) == Solve(ch, order, Corrected)
  {
    var sw, sv, cap := InOrder(ch.weights, order), InOrder(ch.values, order), ch.maxWeight;
    var f := FirstReaching(sw, sv, cap, ch.minValue, 0);
    if f.Some? {
      AnswerAgrees(order, sw, sv, cap, f.value);
    }
  }

  /** Without overlapping bits both layouts read back the same table, so they
      reconstruct the same answer. */
  lemma AnswerAgrees(order: seq<nat>, sw: seq<nat>, sv: seq<nat>, cap: nat, i: nat)
    requires |sw| == |sv| == |order| && i < |sw|
    requires |sw| <= 1 || (cap + 1) % 64 == 0
    ensures Answer(order, sw, sv, cap, AsWritten, i) == Answer(order, sw, sv, cap, Corrected, i)
  {
    assert TableOf(AsWritten, sw, sv, cap, i + 1) == TableOf(Corrected, sw, sv, cap, i + 1) by {
      AsWrittenAlignedInjective(|sw|, cap);
      CorrectedInjective(|sw|, cap);
      TableIsIdeal(AsWritten, sw, sv, cap, i + 1);
      TableIsIdeal(Corrected, sw, sv, cap, i + 1);
    }
  }

  /** Two items, weights `[1, 4]`, values `[1, 6]`, `max_weight` 2, `min_value` 1. Item 1
      (ratio 1.5) sorts before item 0 (ratio 1). */
  function OverlapInstance(): Challenge
  {
    Challenge([1, 4], [1, 6], 2, 1)
  }

  /** On the instance the bound (3) passes, the first item alone leaves `dp[2] == 0` and the
      second lifts it to 1: the solver stops after sorted position 1. */
  lemma OverlapInstanceRun()
    ensures WellFormed(OverlapInstance()) && IsPermutation([1, 0], 2)
    ensures RatioOrdered(OverlapInstance(), [1, 0])
    ensures var sw, sv := InOrder([1, 4], [1, 0]), InOrder([1, 6], [1, 0]);
      && sw == [4, 1] && sv == [6, 1]
      && UpperBound(sw, sv, 2) == 3
      && Rows(sw, sv, 2, 1) == [0, 0, 0] && Rows(sw, sv, 2, 2) == [0, 1, 1]
      && FirstReaching(sw, sv, 2, 1, 0) == Some(1)
  {
    var sw, sv := InOrder([1, 4], [1, 0]), InOrder([1, 6], [1, 0]);
    assert sw == [4, 1] && sv == [6, 1];
    assert [1, 0][1] == 0;
    assert Rows(sw, sv, 2, 0) == [0, 0, 0];
    assert Rows(sw, sv, 2, 1) == [0, 0, 0];
    assert Rows(sw, sv, 2, 2) == [0, 1, 1];
    assert Reached(sw, sv, 2, 0) == 0;
  }

  /**
    As written, sorted position 1's bits for capacities 1 and 2 are also the bits read
    back for sorted position 0: the walk takes both positions, `saturating_sub` clamps,
    and the answer `[1, 0]` weighs 5 against a limit of 2.
  */
  lemma OverlapAnswerOverweight()
    ensures Solve(OverlapInstance(), [1, 0], AsWritten) == Some([1, 0])
    ensures !Feasible(OverlapInstance(), [1, 0]) && Sum(OverlapInstance().weights, [1, 0]) == 5
    ensures !NoSaturation(TableOf(AsWritten, [4, 1], [6, 1], 2, 2), [4, 1], 2, 2)
  {
    OverlapInstanceRun();
    OverlapAsWrittenWalk();
    assert Sum([1, 4], [1]) == 4;
  }

  lemma OverlapAsWrittenWalk()
    ensures Answer([1, 0], [4, 1], [6, 1], 2, AsWritten, 1) == [1, 0]
    ensures !NoSaturation(TableOf(AsWritten, [4, 1], [6, 1], 2, 2), [4, 1], 2, 2)
  {
    var sw, sv := [4, 1], [6, 1];
    var t := TableOf(AsWritten, sw, sv, 2, 2);
    OverlapAsWrittenBits();
    assert Walk(t, sw, 0, 0) == [];
    assert Walk(t, sw, 1, 1) == [0];
    assert Walk(t, sw, 2, 2) == [1, 0];
    assert Reverse([1, 0]) == [0, 1];
  }

  /** On the instance the row stride is 0, so the bit of `(i, w)` is bit `w`. Sorted
      position 1 (item 0, weight 1) raises bits 1 and 2; the walk reads bit 2 at
      `(1, 2)` and then bit 1 at `(0, 1)`, which position 0 never raised. */
  lemma OverlapAsWrittenBits()
    ensures var t := TableOf(AsWritten, [4, 1], [6, 1], 2, 2); t[1][2] && t[0][1]
  {
    var sw, sv := [4, 1], [6, 1];
    assert Rows(sw, sv, 2, 0) == [0, 0, 0];
    assert Rows(sw, sv, 2, 1) == [0, 0, 0];
    FlatBitsSets(AsWritten, sw, sv, 2, 2, 1, 1);
    FlatBitsSets(AsWritten, sw, sv, 2, 2, 1, 2);
    AsWrittenSharedRow(2, 2, 0, 1);
    AsWrittenSharedRow(2, 2, 1, 1);
    AsWrittenSharedRow(2, 2, 1, 2);
  }

  /** The corrected solver answers `[0]` on the same instance: weight 1, value 1. */
  lemma OverlapCorrectedAnswer()
    ensures Solve(OverlapInstance(), [1, 0], Corrected) == Some([0])
    ensures Feasible(OverlapInstance(), [0]) && Sum(OverlapInstance().values, [0]) == 1
  {
    OverlapInstanceRun();
    OverlapCorrectedWalk();
    assert Sum([1, 4], []) == 0;
  }

  lemma OverlapCorrectedWalk()
    ensures Answer([1, 0], [4, 1], [6, 1], 2, Corrected, 1) == [0]
  {
    var sw, sv := [4, 1], [6, 1];
    var t := TableOf(Corrected, sw, sv, 2, 2);
    assert t[1][2] && !t[0][1] by {
      assert Rows(sw, sv, 2, 0) == [0, 0, 0];
      assert Rows(sw, sv, 2, 1) == [0, 0, 0];
      CorrectedInjective(2, 2);
      TableIsIdeal(Corrected, sw, sv, 2, 2);
      assert t[1][2] == Improves(Rows(sw, sv, 2, 1), 1, 1, 2);
      assert t[0][1] == Improves(Rows(sw, sv, 2, 0), 4, 6, 1);
    }
    assert Walk(t, sw, 0, 1) == [];
    assert Walk(t, sw, 1, 1) == [];
    assert Walk(t, sw, 2, 2) == [1];
    assert Reverse([1]) == [1];
  }
}

/**
  The 0/1 dynamic programme of the knapsack solver.

  `dp` has one entry per capacity `0..=cap`. Items are processed in ratio order;
  `Rows(sw, sv, cap, i)` is `dp` after the first `i` sorted items.
*/
module KnapsackDp {
  import opened IndexSums

  /** Whether taking an item of weight `wt` and value `v` on top of the state at
      capacity `c - wt` beats the state at `c`. */
  predicate Improves(row: seq<nat>, wt: nat, v: nat, c: nat)
    requires c < |row|
  {
    wt <= c && row[c - wt] + v > row[c]
  }

  /** The row after one item, where every capacity looks only at the row as it was
      before the item. */
  function RowUpdate(row: seq<nat>, wt: nat, v: nat): (r: seq<nat>)
    ensures |r| == |row|
  {
    seq(|row|, c requires 0 <= c < |row| => if Improves(row, wt, v, c) then row[c - wt] + v else row[c])
  }

  function Rows(sw: seq<nat>, sv: seq<nat>, cap: nat, i: nat): (r: seq<nat>)
    requires |sw| == |sv| && i <= |sw|
    ensures |r| == cap + 1
  {
    if i == 0 then seq(cap + 1, _ => 0)
    else RowUpdate(Rows(sw, sv, cap, i - 1), sw[i - 1], sv[i - 1])
  }

  /**
    The inner loop for one item: capacities from the last one down to the item's
    weight, updating `dp` in place and raising the inclusion bit wherever the item
    improves the state. Because the scan descends, each read `dp[w - wt]` still sees
    the value from before this item, so the item is used at most once.
  */
  method ScanItem(dp: seq<nat>, wt: nat, v: nat) returns (next: seq<nat>, bits: seq<bool>)
    ensures next == RowUpdate(dp, wt, v)
    ensures |bits| == |dp|
    ensures forall c :: 0 <= c < |dp| ==> bits[c] == Improves(dp, wt, v, c)
  {
    next := dp;
    bits := seq(|dp|, _ => false);
    var w: int := |dp| - 1;
    while w >= wt
      invariant -1 <= w < |dp|
      invariant |next| == |dp| && |bits| == |dp|
      invariant forall c :: 0 <= c <= w ==> next[c] == dp[c] && !bits[c]
      invariant forall c :: w < c < |dp| ==> next[c] == RowUpdate(dp, wt, v)[c]
      invariant forall c :: w < c < |dp| ==> bits[c] == Improves(dp, wt, v, c)
      decreases w
    {
      var newValue := next[w - wt] + v;
      if newValue > next[w] {
        next := next[w := newValue];
        bits := bits[w := true];
      }
      w := w - 1;
    }
  }

  /** The updated row dominates both leaving the item out and taking it. */
  lemma RowUpdateDominates(row: seq<nat>, wt: nat, v: nat, c: nat)
    requires c < |row|
    ensures RowUpdate(row, wt, v)[c] >= row[c]
    ensures wt <= c ==> RowUpdate(row, wt, v)[c] >= row[c - wt] + v
  {
  }

  /** `dp` entries only ever grow as more items are processed. */
  lemma {:induction false} RowsGrow(sw: seq<nat>, sv: seq<nat>, cap: nat, i: nat, j: nat, c: nat)
    requires |sw| == |sv| && i <= j <= |sw| && c <= cap
    ensures Rows(sw, sv, cap, i)[c] <= Rows(sw, sv, cap, j)[c]
    decreases j - i
  {
    if i < j {
      RowsGrow(sw, sv, cap, i, j - 1, c);
    }
  }

  /** One entry of the row after item `j`. */
  lemma RowsAt(sw: seq<nat>, sv: seq<nat>, cap: nat, j: nat, c: nat)
    requires |sw| == |sv| && j < |sw| && c <= cap
    ensures var prev := Rows(sw, sv, cap, j);
      Rows(sw, sv, cap, j + 1)[c]
        == if Improves(prev, sw[j], sv[j], c) then prev[c - sw[j]] + sv[j] else prev[c]
  {
  }

  /** One item keeps a pair of capacities in order when the row before it does, at
      both capacities and at both capacities less the item's weight. */
  lemma RowUpdateMonotone(row: seq<nat>, wt: nat, v: nat, c: nat, c': nat)
    requires c <= c' < |row| && row[c] <= row[c']
    requires wt <= c ==> row[c - wt] <= row[c' - wt]
    ensures RowUpdate(row, wt, v)[c] <= RowUpdate(row, wt, v)[c']
  {
  }

  /** Every row is non-decreasing in the capacity. */
  lemma {:induction false} RowsMonotone(sw: seq<nat>, sv: seq<nat>, cap: nat, i: nat, c: nat, c': nat)
    requires |sw| == |sv| && i <= |sw| && c <= c' <= cap
    ensures Rows(sw, sv, cap, i)[c] <= Rows(sw, sv, cap, i)[c']
    decreases i
  {
    if i > 0 {
      var prev, wt, v := Rows(sw, sv, cap, i - 1), sw[i - 1], sv[i - 1];
      RowsMonotone(sw, sv, cap, i - 1, c, c');
      if wt <= c {
        RowsMonotone(sw, sv, cap, i - 1, c - wt, c' - wt);
      }
      RowUpdateMonotone(prev, wt, v, c, c');
    }
  }

  /**
    The DP invariant, upper half: no subset of the first `i` sorted items whose
    weight is at most `c` is worth more than `dp[c]`.
  */
  lemma {:induction false} RowsOptimal(sw: seq<nat>, sv: seq<nat>, cap: nat, i: nat, c: nat, S: seq<nat>)
    requires |sw| == |sv| && i <= |sw| && c <= cap
    requires Distinct(S) && InRange(S, i) && Sum(sw, S) <= c
    ensures Sum(sv, S) <= Rows(sw, sv, cap, i)[c]
    decreases i, 1
  {
    if i == 0 {
      assert |S| == 0;
    } else if i - 1 in S {
      var t :| 0 <= t < |S| && S[t] == i - 1;
      RowsOptimalTaken(sw, sv, cap, i, c, S, t);
    } else {
      assert InRange(S, i - 1);
      RowsOptimal(sw, sv, cap, i - 1, c, S);
      RowUpdateDominates(Rows(sw, sv, cap, i - 1), sw[i - 1], sv[i - 1], c);
    }
  }

  /** The case of `RowsOptimal` where the subset holds item `i - 1`, at index `t`. */
  lemma {:induction false} RowsOptimalTaken(sw: seq<nat>, sv: seq<nat>, cap: nat, i: nat, c: nat, S: seq<nat>, t: nat)
    requires |sw| == |sv| && 0 < i <= |sw| && c <= cap
    requires Distinct(S) && InRange(S, i) && Sum(sw, S) <= c
    requires t < |S| && S[t] == i - 1
    ensures Sum(sv, S) <= Rows(sw, sv, cap, i)[c]
    decreases i, 0
  {
    var S', wt, v := RemoveAt(S, t), sw[i - 1], sv[i - 1];
    var prev := Rows(sw, sv, cap, i - 1);
    RemoveTop(S, t, i - 1);
    SumRemove(sw, S, t);
    SumRemove(sv, S, t);
    assert Sum(sw, S') >= 0;
    RowsOptimal(sw, sv, cap, i - 1, c - wt, S');
    RowUpdateDominates(prev, wt, v, c);
  }
}

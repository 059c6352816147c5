/**
  The roulette-wheel step of the ant colony: one uniform draw `r` against the running
  normalised weights. `f64` arithmetic is modelled by exact reals.
*/
module RoutingSelect {

  /** Sum of the first `k` weights. */
  function Prefix(w: seq<real>, k: nat): real
    requires k <= |w|
  {
    if k == 0 then 0.0 else Prefix(w, k - 1) + w[k - 1]
  }

  /** The running weight once index `j` has been added. */
  function Cumulative(w: seq<real>, j: nat): real
    requires j < |w|
  {
    Prefix(w, j + 1)
  }

  function Total(w: seq<real>): real
  {
    Prefix(w, |w|)
  }

  predicate NonNegative(w: seq<real>)
  {
    forall i :: 0 <= i < |w| ==> w[i] >= 0.0
  }

  /** The scan from index `i` on, `cum` being the normalised weight so far: the first
      index whose running value reaches `r`, or 0 when none does. */
  function Scan(w: seq<real>, total: real, r: real, i: nat, cum: real): (k: nat)
    requires total != 0.0 && i <= |w|
    ensures k == 0 || i <= k < |w|
    decreases |w| - i
  {
    if i == |w| then 0
    else
      var c := cum + w[i] / total;
      if r <= c then i else Scan(w, total, r, i + 1, c)
  }

  /**
    One selection. When all weights are zero every `prob / total` is `0 / 0`, a NaN that
    no comparison reaches, and the default 0 stands.
  */
  function Select(w: seq<real>, r: real): (k: nat)
    ensures |w| > 0 ==> k < |w|
  {
    var total := Total(w);
    if total == 0.0 then 0 else Scan(w, total, r, 0, 0.0)
  }

  lemma {:induction false} PrefixMonotone(w: seq<real>, j: nat, k: nat)
    requires NonNegative(w) && j <= k <= |w|
    ensures 0.0 <= Prefix(w, j) <= Prefix(w, k)
    decreases k
  {
    if k > j {
      PrefixMonotone(w, j, k - 1);
    } else if j > 0 {
      PrefixMonotone(w, j - 1, j - 1);
    }
  }

  /** A non-negative list with one positive weight has a positive total. */
  lemma {:induction false} TotalPositive(w: seq<real>, j: nat)
    requires NonNegative(w) && j < |w| && w[j] > 0.0
    ensures Total(w) > 0.0
  {
    PrefixMonotone(w, 0, j);
    PrefixMonotone(w, j + 1, |w|);
  }

  /** The scan returns the first index from `i` on whose normalised running weight
      reaches `r`, or 0 when there is none. */
  lemma {:induction false} ScanFirst(w: seq<real>, total: real, r: real, i: nat)
    requires total > 0.0 && i <= |w|
    ensures var k := Scan(w, total, r, i, Prefix(w, i) / total);
      if exists j :: i <= j < |w| && r <= Cumulative(w, j) / total then
        && i <= k < |w| && r <= Cumulative(w, k) / total
        && forall j :: i <= j < k ==> Cumulative(w, j) / total < r
      else k == 0
    decreases |w| - i
  {
    if i < |w| {
      var c := Prefix(w, i) / total + w[i] / total;
      assert c == Cumulative(w, i) / total;
      if r > c {
        ScanFirst(w, total, r, i + 1);
        assert (exists j :: i <= j < |w| && r <= Cumulative(w, j) / total)
           <==> (exists j :: i + 1 <= j < |w| && r <= Cumulative(w, j) / total);
      }
    }
  }

  /**
    With non-negative weights, a positive total and `r <= 1`, the selection is the
    first index whose normalised running weight reaches `r`.
  */
  lemma SelectFirstReaching(w: seq<real>, r: real)
    requires NonNegative(w) && Total(w) > 0.0 && r <= 1.0
    ensures var k := Select(w, r);
      && k < |w| && r <= Cumulative(w, k) / Total(w)
      && forall j :: 0 <= j < k ==> Cumulative(w, j) / Total(w) < r
  {
    var total := Total(w);
    assert |w| > 0;
    assert Cumulative(w, |w| - 1) / total == 1.0;
    ScanFirst(w, total, r, 0);
  }

  /** A draw in `(0, 1]` lands on an index of positive weight, never on a zero one. */
  lemma SelectPositive(w: seq<real>, r: real)
    requires NonNegative(w) && Total(w) > 0.0 && 0.0 < r <= 1.0
    ensures w[Select(w, r)] > 0.0
  {
    var total, k := Total(w), Select(w, r);
    SelectFirstReaching(w, r);
    var before := Prefix(w, k);
    if k > 0 {
      assert Cumulative(w, k - 1) / total < r;
      assert Cumulative(w, k - 1) == before;
    } else {
      assert before == 0.0;
    }
    assert Cumulative(w, k) / total == before / total + w[k] / total;
  }

  /** A zero draw always selects index 0, whatever its weight. */
  lemma SelectZeroDraw(w: seq<real>, r: real)
    requires NonNegative(w) && |w| > 0 && r <= 0.0
    ensures Select(w, r) == 0
  {
    PrefixMonotone(w, 0, |w|);
    if Total(w) != 0.0 {
      assert w[0] / Total(w) >= 0.0;
    }
  }
}

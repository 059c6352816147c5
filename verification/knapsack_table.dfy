/**
  The inclusion record of the knapsack solver and the backwards walk over it.

  The solver keeps one bit per (sorted position `i`, capacity `c`) saying whether
  item `i` improved `dp[c]`. The bits live in an array of `Words(n, cap)` 64-bit
  words; bit `b` of word `k` is modelled as position `64 * k + b` of a flat bit
  sequence. `Layout` says where the bit of `(i, c)` goes:
  - `AsWritten`: word `i * ((cap + 1) / 64) + c / 64`, bit `c % 64`, the row stride
    rounded down, so rows overlap unless `(cap + 1) % 64 == 0`;
  - `Corrected`: position `i * (cap + 1) + c`, which fits the same allocation and never
    overlaps.
*/
module KnapsackTable {
  import opened IndexSums
  import opened KnapsackDp

  datatype Layout = AsWritten | Corrected

  /** Number of 64-bit words allocated for `n` items and capacities `0..=cap`. */
  function Words(n: nat, cap: nat): nat
  {
    (n * (cap + 1) + 63) / 64
  }

  /** The word the source reads and writes for sorted position `i` and capacity `c`. */
  function WordIndex(cap: nat, i: nat, c: nat): nat
  {
    i * ((cap + 1) / 64) + c / 64
  }

  lemma DivShift(a: nat, b: nat)
    ensures (64 * a + b) / 64 == a + b / 64
  {
  }

  /** The source's word index never leaves the allocated array. */
  lemma WordIndexInBounds(n: nat, cap: nat, i: nat, c: nat)
    requires i < n && c <= cap
    ensures WordIndex(cap, i, c) < Words(n, cap)
  {
    var s, t := (cap + 1) / 64, (cap + 1) % 64;
    assert Words(n, cap) == n * s + (n * t + 63) / 64 by {
      SplitProduct(n, cap + 1, s, t);
      DivShift(n * s, n * t + 63);
    }
    assert i * s + s <= n * s by {
      MulStep(i, n, s);
    }
    assert c / 64 <= cap / 64;
    if t == 0 {
      assert cap / 64 == s - 1;
    } else {
      assert cap / 64 == s;
      assert n * t >= 1 by {
        MulStep(0, n, t);
      }
    }
  }

  /** `n * m` for `m == 64 * s + t`, split into whole words and a remainder. */
  lemma SplitProduct(n: nat, m: nat, s: nat, t: nat)
    requires m == 64 * s + t
    ensures n * m + 63 == 64 * (n * s) + (n * t + 63)
  {
  }

  /** `i < n` gives `i * s + s <= n * s`. */
  lemma MulStep(i: nat, n: nat, s: nat)
    requires i < n
    ensures i * s + s <= n * s
  {
    assert n * s == (n - i - 1) * s + (i + 1) * s;
  }

  lemma CorrectedInBounds(n: nat, cap: nat, i: nat, c: nat)
    requires i < n && c <= cap
    ensures i * (cap + 1) + c < 64 * Words(n, cap)
  {
    var x := n * (cap + 1);
    assert (i + 1) * (cap + 1) <= n * (cap + 1);
    assert 64 * ((x + 63) / 64) + (x + 63) % 64 == x + 63;
  }

  /** The flat bit position of `(i, c)`; it always lies inside the allocation. */
  function BitPosition(layout: Layout, n: nat, cap: nat, i: nat, c: nat): (r: nat)
    requires i < n && c <= cap
    ensures r < 64 * Words(n, cap)
  {
    match layout
    case AsWritten =>
      WordIndexInBounds(n, cap, i, c);
      64 * WordIndex(cap, i, c) + c % 64
    case Corrected =>
      CorrectedInBounds(n, cap, i, c);
      i * (cap + 1) + c
  }

  /** As written, the flat position is `64 * i * ((cap + 1) / 64) + c`. */
  lemma AsWrittenPosition(n: nat, cap: nat, i: nat, c: nat)
    requires i < n && c <= cap
    ensures BitPosition(AsWritten, n, cap, i, c) == 64 * i * ((cap + 1) / 64) + c
  {
  }

  /** For capacities below 63 the row stride is zero: every item writes the same row. */
  lemma AsWrittenSharedRow(n: nat, cap: nat, i: nat, c: nat)
    requires i < n && c <= cap && cap < 63
    ensures BitPosition(AsWritten, n, cap, i, c) == c
  {
    AsWrittenPosition(n, cap, i, c);
  }

  /** Distinct (position, capacity) pairs get distinct bits. */
  ghost predicate Injective(layout: Layout, n: nat, cap: nat)
  {
    forall i1: nat, c1: nat, i2: nat, c2: nat ::
      i1 < n && c1 <= cap && i2 < n && c2 <= cap &&
      BitPosition(layout, n, cap, i1, c1) == BitPosition(layout, n, cap, i2, c2)
      ==> i1 == i2 && c1 == c2
  }

  lemma RowsApart(i1: nat, i2: nat, c1: nat, c2: nat, w: nat)
    ensures i1 < i2 && c1 < w ==> i1 * w + c1 < i2 * w + c2
  {
    if i1 < i2 && c1 < w {
      assert (i1 + 1) * w <= i2 * w;
    }
  }

  /** The corrected layout gives every pair its own bit. */
  lemma CorrectedInjective(n: nat, cap: nat)
    ensures Injective(Corrected, n, cap)
  {
    forall i1: nat, c1: nat, i2: nat, c2: nat |
      i1 < n && c1 <= cap && i2 < n && c2 <= cap &&
      BitPosition(Corrected, n, cap, i1, c1) == BitPosition(Corrected, n, cap, i2, c2)
      ensures i1 == i2 && c1 == c2
    {
      RowsApart(i1, i2, c1, c2, cap + 1);
      RowsApart(i2, i1, c2, c1, cap + 1);
    }
  }

  /** With aligned rows the source's position is the corrected one. */
  lemma AlignedSamePosition(n: nat, cap: nat, i: nat, c: nat)
    requires i < n && c <= cap && (cap + 1) % 64 == 0
    ensures BitPosition(AsWritten, n, cap, i, c) == BitPosition(Corrected, n, cap, i, c)
  {
    var s := (cap + 1) / 64;
    AsWrittenPosition(n, cap, i, c);
    assert 64 * s == cap + 1;
    assert 64 * i * s == i * (64 * s);
  }

  /** Aligned rows (or a single item) keep every pair on its own bit. */
  lemma AsWrittenAlignedInjective(n: nat, cap: nat)
    requires (cap + 1) % 64 == 0 || n <= 1
    ensures Injective(AsWritten, n, cap)
  {
    CorrectedInjective(n, cap);
    forall i1: nat, c1: nat, i2: nat, c2: nat |
      i1 < n && c1 <= cap && i2 < n && c2 <= cap &&
      BitPosition(AsWritten, n, cap, i1, c1) == BitPosition(AsWritten, n, cap, i2, c2)
      ensures i1 == i2 && c1 == c2
    {
      if (cap + 1) % 64 == 0 {
        AlignedSamePosition(n, cap, i1, c1);
        AlignedSamePosition(n, cap, i2, c2);
      } else {
        AsWrittenPosition(n, cap, i1, c1);
        AsWrittenPosition(n, cap, i2, c2);
      }
    }
  }

  /** Unaligned rows overlap: item 1 at capacity 0 shares its bit with item 0 at
      capacity `64 * ((cap + 1) / 64)`. */
  lemma AsWrittenCollision(n: nat, cap: nat)
    requires n >= 2 && (cap + 1) % 64 != 0
    ensures 64 * ((cap + 1) / 64) <= cap
    ensures BitPosition(AsWritten, n, cap, 0, 64 * ((cap + 1) / 64)) == BitPosition(AsWritten, n, cap, 1, 0)
  {
    var s := (cap + 1) / 64;
    AsWrittenPosition(n, cap, 0, 64 * s);
    AsWrittenPosition(n, cap, 1, 0);
  }

  /**
    As written, the bits of different items stay apart exactly when `cap + 1` is a
    multiple of 64 (for two or more items); with one item they never meet.
  */
  lemma AsWrittenInjectiveIff(n: nat, cap: nat)
    ensures n >= 2 ==> (Injective(AsWritten, n, cap) <==> (cap + 1) % 64 == 0)
    ensures n <= 1 ==> Injective(AsWritten, n, cap)
  {
    if (cap + 1) % 64 == 0 || n <= 1 {
      AsWrittenAlignedInjective(n, cap);
    } else {
      AsWrittenCollision(n, cap);
    }
  }

  /** Raises the bit of `(j, c)` for every capacity `c < m` at which the item improves `row`. */
  function MarkRow(layout: Layout, n: nat, cap: nat, bits: seq<bool>, j: nat, row: seq<nat>, wt: nat, v: nat, m: nat): (r: seq<bool>)
    requires j < n && |row| == cap + 1 && m <= cap + 1 && |bits| == 64 * Words(n, cap)
    ensures |r| == |bits|
    decreases m
  {
    if m == 0 then bits
    else
      var b := MarkRow(layout, n, cap, bits, j, row, wt, v, m - 1);
      if Improves(row, wt, v, m - 1) then b[BitPosition(layout, n, cap, j, m - 1) := true] else b
  }

  /** The bit array after the first `i` sorted items have been processed. */
  function FlatBits(layout: Layout, sw: seq<nat>, sv: seq<nat>, cap: nat, i: nat): (r: seq<bool>)
    requires |sw| == |sv| && i <= |sw|
    ensures |r| == 64 * Words(|sw|, cap)
  {
    if i == 0 then seq(64 * Words(|sw|, cap), _ => false)
    else
      MarkRow(layout, |sw|, cap, FlatBits(layout, sw, sv, cap, i - 1), i - 1,
              Rows(sw, sv, cap, i - 1), sw[i - 1], sv[i - 1], cap + 1)
  }

  /** The bits of the first `i` rows as the solver reads them back. */
  function TableOf(layout: Layout, sw: seq<nat>, sv: seq<nat>, cap: nat, i: nat): (t: seq<seq<bool>>)
    requires |sw| == |sv| && i <= |sw|
    ensures |t| == i && forall j :: 0 <= j < i ==> |t[j]| == cap + 1
  {
    var bits := FlatBits(layout, sw, sv, cap, i);
    seq(i, j requires 0 <= j < i =>
      seq(cap + 1, c requires 0 <= c <= cap => bits[BitPosition(layout, |sw|, cap, j, c)]))
  }

  /** Row `j` of `table` says, for every capacity, whether sorted item `j` improved `dp`. */
  predicate RecordsImprovements(table: seq<seq<bool>>, sw: seq<nat>, sv: seq<nat>, cap: nat)
    requires |sw| == |sv|
  {
    && |table| <= |sw|
    && (forall j :: 0 <= j < |table| ==> |table[j]| == cap + 1)
    && forall j, c :: 0 <= j < |table| && 0 <= c <= cap ==>
         table[j][c] == Improves(Rows(sw, sv, cap, j), sw[j], sv[j], c)
  }

  /** The intended record: a separate row of bits per sorted item. */
  function IdealTable(sw: seq<nat>, sv: seq<nat>, cap: nat, i: nat): (t: seq<seq<bool>>)
    requires |sw| == |sv| && i <= |sw|
    ensures |t| == i && forall j :: 0 <= j < i ==> |t[j]| == cap + 1
    ensures RecordsImprovements(t, sw, sv, cap)
  {
    seq(i, j requires 0 <= j < i =>
      seq(cap + 1, c requires 0 <= c <= cap => Improves(Rows(sw, sv, cap, j), sw[j], sv[j], c)))
  }

  lemma {:induction false} MarkRowReads(layout: Layout, n: nat, cap: nat, bits: seq<bool>, j: nat, row: seq<nat>,
                                        wt: nat, v: nat, m: nat, j2: nat, c2: nat)
    requires j < n && |row| == cap + 1 && m <= cap + 1 && |bits| == 64 * Words(n, cap)
    requires Injective(layout, n, cap) && j2 < n && c2 <= cap
    ensures MarkRow(layout, n, cap, bits, j, row, wt, v, m)[BitPosition(layout, n, cap, j2, c2)]
            == (bits[BitPosition(layout, n, cap, j2, c2)] || (j2 == j && c2 < m && Improves(row, wt, v, c2)))
    decreases m
  {
    if m > 0 {
      MarkRowReads(layout, n, cap, bits, j, row, wt, v, m - 1, j2, c2);
    }
  }

  /** With a layout that keeps pairs apart, the bit of `(j, c)` is raised exactly when
      item `j` has been processed and improved `dp[c]`. */
  lemma {:induction false} FlatBitsReads(layout: Layout, sw: seq<nat>, sv: seq<nat>, cap: nat, i: nat, j: nat, c: nat)
    requires |sw| == |sv| && i <= |sw| && j < |sw| && c <= cap && Injective(layout, |sw|, cap)
    ensures FlatBits(layout, sw, sv, cap, i)[BitPosition(layout, |sw|, cap, j, c)]
            == (j < i && Improves(Rows(sw, sv, cap, j), sw[j], sv[j], c))
    decreases i
  {
    if i > 0 {
      FlatBitsReads(layout, sw, sv, cap, i - 1, j, c);
      MarkRowReads(layout, |sw|, cap, FlatBits(layout, sw, sv, cap, i - 1), i - 1,
                   Rows(sw, sv, cap, i - 1), sw[i - 1], sv[i - 1], cap + 1, j, c);
    }
  }

  lemma {:induction false} MarkRowKeeps(layout: Layout, n: nat, cap: nat, bits: seq<bool>, j: nat, row: seq<nat>,
                                        wt: nat, v: nat, m: nat, p: nat)
    requires j < n && |row| == cap + 1 && m <= cap + 1 && |bits| == 64 * Words(n, cap)
    requires p < |bits| && bits[p]
    ensures MarkRow(layout, n, cap, bits, j, row, wt, v, m)[p]
    decreases m
  {
    if m > 0 {
      MarkRowKeeps(layout, n, cap, bits, j, row, wt, v, m - 1, p);
    }
  }

  lemma {:induction false} MarkRowSets(layout: Layout, n: nat, cap: nat, bits: seq<bool>, j: nat, row: seq<nat>,
                                       wt: nat, v: nat, m: nat, c: nat)
    requires j < n && |row| == cap + 1 && m <= cap + 1 && |bits| == 64 * Words(n, cap)
    requires c < m && Improves(row, wt, v, c)
    ensures MarkRow(layout, n, cap, bits, j, row, wt, v, m)[BitPosition(layout, n, cap, j, c)]
    decreases m
  {
    if c < m - 1 {
      MarkRowSets(layout, n, cap, bits, j, row, wt, v, m - 1, c);
    }
  }

  /** Whatever the layout, the bit of every improvement made so far is raised (it may
      share its place with other pairs). */
  lemma {:induction false} FlatBitsSets(layout: Layout, sw: seq<nat>, sv: seq<nat>, cap: nat, i: nat, j: nat, c: nat)
    requires |sw| == |sv| && i <= |sw| && j < i && c <= cap
    requires Improves(Rows(sw, sv, cap, j), sw[j], sv[j], c)
    ensures FlatBits(layout, sw, sv, cap, i)[BitPosition(layout, |sw|, cap, j, c)]
    decreases i
  {
    if j < i - 1 {
      FlatBitsSets(layout, sw, sv, cap, i - 1, j, c);
      MarkRowKeeps(layout, |sw|, cap, FlatBits(layout, sw, sv, cap, i - 1), i - 1, Rows(sw, sv, cap, i - 1),
                   sw[i - 1], sv[i - 1], cap + 1, BitPosition(layout, |sw|, cap, j, c));
    } else {
      FlatBitsSetsLast(layout, sw, sv, cap, j, c);
    }
  }

  /** The case of `FlatBitsSets` where the improvement is by the last item processed. */
  lemma FlatBitsSetsLast(layout: Layout, sw: seq<nat>, sv: seq<nat>, cap: nat, j: nat, c: nat)
    requires |sw| == |sv| && j < |sw| && c <= cap
    requires Improves(Rows(sw, sv, cap, j), sw[j], sv[j], c)
    ensures FlatBits(layout, sw, sv, cap, j + 1)[BitPosition(layout, |sw|, cap, j, c)]
  {
    MarkRowSets(layout, |sw|, cap, FlatBits(layout, sw, sv, cap, j), j, Rows(sw, sv, cap, j), sw[j], sv[j], cap + 1, c);
  }

  /** A layout without overlaps reads back exactly the intended table. */
  lemma TableIsIdeal(layout: Layout, sw: seq<nat>, sv: seq<nat>, cap: nat, i: nat)
    requires |sw| == |sv| && i <= |sw| && Injective(layout, |sw|, cap)
    ensures TableOf(layout, sw, sv, cap, i) == IdealTable(sw, sv, cap, i)
  {
    var t, u := TableOf(layout, sw, sv, cap, i), IdealTable(sw, sv, cap, i);
    forall j | 0 <= j < i
      ensures t[j] == u[j]
    {
      forall c | 0 <= c <= cap
        ensures t[j][c] == u[j][c]
      {
        FlatBitsReads(layout, sw, sv, cap, i, j, c);
      }
    }
  }

  /** `w.saturating_sub(x)` on unsigned integers. */
  function SatSub(a: nat, b: nat): nat
  {
    if a >= b then a - b else 0
  }

  /**
    The backwards walk over sorted positions `j - 1` down to `0` from capacity `c`:
    a raised bit pushes the position and takes its weight off the capacity. The list
    is in push order.
  */
  function Walk(table: seq<seq<bool>>, sw: seq<nat>, j: nat, c: nat): (ps: seq<nat>)
    requires j <= |table| && j <= |sw|
    requires forall r :: 0 <= r < |table| ==> c < |table[r]|
    ensures InRange(ps, j) && Decreasing(ps)
    decreases j
  {
    if j == 0 then []
    else if table[j - 1][c] then [j - 1] + Walk(table, sw, j - 1, SatSub(c, sw[j - 1]))
    else Walk(table, sw, j - 1, c)
  }

  /** Whether every subtraction of the walk stays non-negative, so that `saturating_sub`
      never clamps. */
  predicate NoSaturation(table: seq<seq<bool>>, sw: seq<nat>, j: nat, c: nat)
    requires j <= |table| && j <= |sw|
    requires forall r :: 0 <= r < |table| ==> c < |table[r]|
    decreases j
  {
    if j == 0 then true
    else if table[j - 1][c] then c >= sw[j - 1] && NoSaturation(table, sw, j - 1, c - sw[j - 1])
    else NoSaturation(table, sw, j - 1, c)
  }

  /**
    Reconstruction from the intended table: the walk from `(j, c)` lists distinct
    positions below `j` of total weight at most `c` and total value exactly `dp[c]`
    after `j` items, and its subtractions never clamp.
  */
  lemma {:induction false} WalkIdeal(table: seq<seq<bool>>, sw: seq<nat>, sv: seq<nat>, cap: nat, j: nat, c: nat)
    requires |sw| == |sv| && RecordsImprovements(table, sw, sv, cap) && j <= |table| && c <= cap
    ensures Sum(sw, Walk(table, sw, j, c)) <= c
    ensures Sum(sv, Walk(table, sw, j, c)) == Rows(sw, sv, cap, j)[c]
    ensures NoSaturation(table, sw, j, c)
    decreases j, 1
  {
    if j > 0 {
      RowsAt(sw, sv, cap, j - 1, c);
      if table[j - 1][c] {
        WalkIdealTaken(table, sw, sv, cap, j, c);
      } else {
        assert Walk(table, sw, j, c) == Walk(table, sw, j - 1, c);
        assert NoSaturation(table, sw, j, c) == NoSaturation(table, sw, j - 1, c);
        WalkIdeal(table, sw, sv, cap, j - 1, c);
      }
    }
  }

  /** The case of `WalkIdeal` where item `j - 1` improved `dp[c]`. */
  lemma {:induction false} WalkIdealTaken(table: seq<seq<bool>>, sw: seq<nat>, sv: seq<nat>, cap: nat, j: nat, c: nat)
    requires |sw| == |sv| && RecordsImprovements(table, sw, sv, cap) && 0 < j <= |table| && c <= cap
    requires table[j - 1][c]
    ensures Sum(sw, Walk(table, sw, j, c)) <= c
    ensures Sum(sv, Walk(table, sw, j, c)) == Rows(sw, sv, cap, j)[c]
    ensures NoSaturation(table, sw, j, c)
    decreases j, 0
  {
    var wt, v := sw[j - 1], sv[j - 1];
    RowsAt(sw, sv, cap, j - 1, c);
    assert Improves(Rows(sw, sv, cap, j - 1), wt, v, c);
    var rest := Walk(table, sw, j - 1, c - wt);
    assert Walk(table, sw, j, c) == [j - 1] + rest;
    assert NoSaturation(table, sw, j, c) == NoSaturation(table, sw, j - 1, c - wt);
    WalkIdeal(table, sw, sv, cap, j - 1, c - wt);
    SumCons(sw, j - 1, rest);
    SumCons(sv, j - 1, rest);
  }

  function Reverse(ps: seq<nat>): (r: seq<nat>)
    ensures |r| == |ps|
    ensures forall t :: 0 <= t < |ps| ==> r[t] == ps[|ps| - 1 - t]
  {
    if |ps| == 0 then [] else Reverse(ps[1..]) + [ps[0]]
  }

  /** Reversing the push order lists the positions in increasing order. */
  lemma ReverseIncreasing(ps: seq<nat>)
    requires Decreasing(ps)
    ensures Increasing(Reverse(ps)) && Distinct(Reverse(ps))
  {
  }

  /** Reversing keeps the positions and hence the sum. */
  lemma {:induction false} ReverseSum(a: seq<int>, ps: seq<nat>)
    requires InRange(ps, |a|)
    ensures InRange(Reverse(ps), |a|) && Sum(a, Reverse(ps)) == Sum(a, ps)
    decreases |ps|
  {
    if |ps| > 0 {
      var r, tail := Reverse(ps), ps[1..];
      ReverseSum(a, tail);
      assert ps == [ps[0]] + tail;
      SumCons(a, ps[0], tail);
      assert r == Reverse(tail) + [ps[0]];
      assert r[..|r| - 1] == Reverse(tail);
    }
  }

  /** With separate bits per pair, the reconstruction in increasing sorted position
      fits the capacity and achieves exactly `dp[cap]` after `i` items. */
  lemma CorrectedReconstruction(sw: seq<nat>, sv: seq<nat>, cap: nat, i: nat)
    requires |sw| == |sv| && i <= |sw|
    ensures var ps := Reverse(Walk(TableOf(Corrected, sw, sv, cap, i), sw, i, cap));
      && Increasing(ps) && Distinct(ps) && InRange(ps, i)
      && Sum(sw, ps) <= cap && Sum(sv, ps) == Rows(sw, sv, cap, i)[cap]
  {
    CorrectedInjective(|sw|, cap);
    TableIsIdeal(Corrected, sw, sv, cap, i);
    var table := TableOf(Corrected, sw, sv, cap, i);
    var ps := Walk(table, sw, i, cap);
    WalkIdeal(table, sw, sv, cap, i, cap);
    ReverseIncreasing(ps);
    ReverseSum(sw, ps);
    ReverseSum(sv, ps);
  }
}

/**
  One ant's tour: repeated selection from the current node, closing back to the
  start, and the tour length as a sum over consecutive pairs.
*/
module RoutingTour {
  import opened IndexSums
  import opened RoutingSelect

  /** Rows of reals, indexed `[from][to]`. */
  type Matrix = seq<seq<real>>

  predicate IsSquare(m: Matrix, n: nat)
  {
    |m| == n && forall i :: 0 <= i < n ==> |m[i]| == n
  }

  /** Distances between distinct nodes are positive, so every heuristic `1 / d` is finite. */
  predicate OffDiagonalPositive(d: Matrix, n: nat)
    requires IsSquare(d, n)
  {
    forall i, j :: 0 <= i < n && 0 <= j < n && i != j ==> d[i][j] > 0.0
  }

  predicate Positive(m: Matrix, n: nat)
    requires IsSquare(m, n)
  {
    forall i, j :: 0 <= i < n && 0 <= j < n ==> m[i][j] > 0.0
  }

  /** An ant: its closed tour and the length of that tour. */
  datatype Ant = Ant(tour: seq<nat>, tourLength: real)

  /** `(1 / d)^beta` with `beta = 2`. */
  function Heuristic(d: real): (h: real)
    requires d != 0.0
    ensures h > 0.0
  {
    var inv := 1.0 / d;
    assert inv != 0.0;
    inv * inv
  }

  /**
    The selection weights from `cur`: `pheromone^alpha * heuristic` with `alpha = 1` for
    every unvisited node, 0 for visited ones. With positive pheromone, exactly the
    unvisited nodes carry weight.
  */
  function StepWeights(pher: Matrix, dist: Matrix, n: nat, visited: seq<bool>, cur: nat): (w: seq<real>)
    requires IsSquare(pher, n) && IsSquare(dist, n) && OffDiagonalPositive(dist, n)
    requires |visited| == n && cur < n && visited[cur]
    ensures |w| == n
    ensures forall j :: 0 <= j < n && visited[j] ==> w[j] == 0.0
    ensures Positive(pher, n) ==> NonNegative(w) && forall j :: 0 <= j < n && !visited[j] ==> w[j] > 0.0
  {
    seq(n, j requires 0 <= j < n => if visited[j] then 0.0 else pher[cur][j] * Heuristic(dist[cur][j]))
  }

  /**
    The construction loop: while fewer than `n` nodes are on the tour, select the next
    node from the last one with the draw of this step and mark it visited.
  */
  function Extend(pher: Matrix, dist: Matrix, n: nat, tour: seq<nat>, visited: seq<bool>, steps: seq<real>): (t: seq<nat>)
    requires IsSquare(pher, n) && IsSquare(dist, n) && OffDiagonalPositive(dist, n)
    requires 1 <= |tour| <= n && InRange(tour, n) && |visited| == n && visited[tour[|tour| - 1]]
    requires |steps| >= n - 1
    ensures |t| == n && t[..|tour|] == tour && InRange(t, n)
    decreases n - |tour|
  {
    if |tour| == n then tour
    else
      var cur := tour[|tour| - 1];
      var next := Select(StepWeights(pher, dist, n, visited, cur), steps[|tour| - 1]);
      var t := Extend(pher, dist, n, tour + [next], visited[next := true], steps);
      assert t[..|tour|] == t[..|tour| + 1][..|tour|];
      t
  }

  /** The tour of an ant starting at `start`, closed by returning to `start`. */
  function BuildTour(pher: Matrix, dist: Matrix, n: nat, start: nat, steps: seq<real>): (t: seq<nat>)
    requires IsSquare(pher, n) && IsSquare(dist, n) && OffDiagonalPositive(dist, n)
    requires start < n && |steps| >= n - 1
    ensures |t| == n + 1 && t[0] == start && t[n] == start && InRange(t, n)
  {
    var visited := seq(n, j => j == start);
    var open := Extend(pher, dist, n, [start], visited, steps);
    assert open[..1] == [start];
    open + [start]
  }

  /** Every node once, then back to the first. */
  predicate IsClosedTour(t: seq<nat>, n: nat)
  {
    && n > 0 && |t| == n + 1 && t[n] == t[0] && InRange(t, n)
    && Distinct(t[..n]) && forall x :: 0 <= x < n ==> x in t[..n]
  }

  /** Draws as `rng.gen()` produces them, with exactly zero excluded. */
  predicate ProperDraws(steps: seq<real>)
  {
    forall k :: 0 <= k < |steps| ==> 0.0 < steps[k] <= 1.0
  }

  /** How many of the nodes `0 .. m - 1` are absent from `s`. */
  function Missing(s: seq<nat>, m: nat): nat
  {
    if m == 0 then 0 else Missing(s, m - 1) + (if m - 1 in s then 0 else 1)
  }

  lemma {:induction false} MissingNone(s: seq<nat>, m: nat)
    ensures Missing(s, m) == 0 <==> forall x :: 0 <= x < m ==> x in s
  {
    if m > 0 {
      MissingNone(s, m - 1);
    }
  }

  lemma {:induction false} MissingAll(m: nat)
    ensures Missing([], m) == m
  {
    if m > 0 {
      MissingAll(m - 1);
    }
  }

  lemma {:induction false} MissingAppend(s: seq<nat>, e: nat, m: nat)
    requires e !in s
    ensures Missing(s + [e], m) + (if e < m then 1 else 0) == Missing(s, m)
  {
    if m > 0 {
      MissingAppend(s, e, m - 1);
    }
  }

  /** A list of distinct nodes below `n` leaves exactly `n - |s|` nodes out. */
  lemma {:induction false} MissingCount(s: seq<nat>, n: nat)
    requires Distinct(s) && InRange(s, n)
    ensures |s| + Missing(s, n) == n
    decreases |s|
  {
    if |s| == 0 {
      MissingAll(n);
    } else {
      var init, e := s[..|s| - 1], s[|s| - 1];
      assert s == init + [e];
      MissingCount(init, n);
      MissingAppend(init, e, n);
    }
  }

  /**
    With positive pheromone and draws in `(0, 1]` every step picks an unvisited node:
    the finished open tour lists every node exactly once.
  */
  lemma {:induction false} ExtendVisitsAll(pher: Matrix, dist: Matrix, n: nat, tour: seq<nat>, visited: seq<bool>, steps: seq<real>)
    requires IsSquare(pher, n) && IsSquare(dist, n) && OffDiagonalPositive(dist, n) && Positive(pher, n)
    requires 1 <= |tour| <= n && InRange(tour, n) && |visited| == n && visited[tour[|tour| - 1]]
    requires |steps| >= n - 1 && ProperDraws(steps)
    requires Distinct(tour) && forall j :: 0 <= j < n ==> (visited[j] <==> j in tour)
    ensures var t := Extend(pher, dist, n, tour, visited, steps);
      Distinct(t) && forall x :: 0 <= x < n ==> x in t
    decreases n - |tour|
  {
    MissingCount(tour, n);
    MissingNone(tour, n);
    if |tour| < n {
      var cur := tour[|tour| - 1];
      var w := StepWeights(pher, dist, n, visited, cur);
      var x :| 0 <= x < n && x !in tour;
      TotalPositive(w, x);
      var next := Select(w, steps[|tour| - 1]);
      SelectPositive(w, steps[|tour| - 1]);
      assert next !in tour;
      var tour', visited' := tour + [next], visited[next := true];
      assert forall j :: 0 <= j < n ==> (visited'[j] <==> j in tour');
      ExtendVisitsAll(pher, dist, n, tour', visited', steps);
    }
  }

  /** The Hamiltonian property: with positive pheromone and draws in `(0, 1]`, an ant's
      tour visits every node once and returns to its start. */
  lemma BuildTourHamiltonian(pher: Matrix, dist: Matrix, n: nat, start: nat, steps: seq<real>)
    requires IsSquare(pher, n) && IsSquare(dist, n) && OffDiagonalPositive(dist, n) && Positive(pher, n)
    requires start < n && |steps| >= n - 1 && ProperDraws(steps)
    ensures IsClosedTour(BuildTour(pher, dist, n, start, steps), n)
  {
    var visited := seq(n, j => j == start);
    var open := Extend(pher, dist, n, [start], visited, steps);
    ExtendVisitsAll(pher, dist, n, [start], visited, steps);
    assert BuildTour(pher, dist, n, start, steps)[..n] == open;
  }

  /** A zero draw at the first step from node 0 selects node 0 again: the tour repeats
      its start, so the Hamiltonian property needs draws above zero. */
  lemma ZeroDrawRepeatsStart(pher: Matrix, dist: Matrix, n: nat, steps: seq<real>)
    requires IsSquare(pher, n) && IsSquare(dist, n) && OffDiagonalPositive(dist, n) && Positive(pher, n)
    requires n >= 2 && |steps| >= n - 1 && steps[0] == 0.0
    ensures var t := BuildTour(pher, dist, n, 0, steps); t[0] == 0 && t[1] == 0
  {
    var visited := seq(n, j => j == 0);
    var w := StepWeights(pher, dist, n, visited, 0);
    SelectZeroDraw(w, steps[0]);
    var next := Select(w, steps[0]);
    var open := Extend(pher, dist, n, [0] + [next], visited[next := true], steps);
    assert Extend(pher, dist, n, [0], visited, steps) == open;
    assert open[..2] == [0, next];
  }

  /** The sum of `dist[tour[k]][tour[k + 1]]` over consecutive pairs. */
  function PathLength(dist: Matrix, n: nat, tour: seq<nat>): real
    requires IsSquare(dist, n) && InRange(tour, n)
    decreases |tour|
  {
    if |tour| < 2 then 0.0
    else PathLength(dist, n, tour[..|tour| - 1]) + dist[tour[|tour| - 2]][tour[|tour| - 1]]
  }

  /** `calculate_tour_length`: the running sum over `i in 0..tour.len() - 1`. */
  method CalculateTourLength(tour: seq<nat>, dist: Matrix, n: nat) returns (length: real)
    requires IsSquare(dist, n) && InRange(tour, n) && |tour| >= 1
    ensures length == PathLength(dist, n, tour)
  {
    length := 0.0;
    var i := 0;
    while i < |tour| - 1
      invariant 0 <= i <= |tour| - 1
      invariant length == PathLength(dist, n, tour[..i + 1])
    {
      length := length + dist[tour[i]][tour[i + 1]];
      assert tour[..i + 2][..i + 1] == tour[..i + 1];
      i := i + 1;
    }
    assert tour[..|tour|] == tour;
  }

  /** A path whose consecutive nodes always differ has positive length. */
  lemma {:induction false} PathLengthPositive(dist: Matrix, n: nat, tour: seq<nat>)
    requires IsSquare(dist, n) && OffDiagonalPositive(dist, n) && InRange(tour, n) && |tour| >= 2
    requires forall k :: 0 <= k < |tour| - 1 ==> tour[k] != tour[k + 1]
    ensures PathLength(dist, n, tour) > 0.0
    decreases |tour|
  {
    var init := tour[..|tour| - 1];
    if |tour| > 2 {
      PathLengthPositive(dist, n, init);
    }
  }

  /** With every distance at most `bound`, a path of `m + 1` nodes is at most `m * bound` long. */
  lemma {:induction false} PathLengthBound(dist: Matrix, n: nat, tour: seq<nat>, bound: real)
    requires IsSquare(dist, n) && InRange(tour, n) && |tour| >= 1
    requires forall i, j :: 0 <= i < n && 0 <= j < n ==> dist[i][j] <= bound
    ensures PathLength(dist, n, tour) <= (|tour| - 1) as real * bound
    decreases |tour|
  {
    if |tour| >= 2 {
      PathLengthBound(dist, n, tour[..|tour| - 1], bound);
    }
  }

  /** A closed tour over at least two nodes never stays on a node, so its length is positive. */
  lemma ClosedTourPositive(dist: Matrix, n: nat, t: seq<nat>)
    requires IsSquare(dist, n) && OffDiagonalPositive(dist, n) && IsClosedTour(t, n) && n >= 2
    ensures PathLength(dist, n, t) > 0.0
  {
    forall k | 0 <= k < |t| - 1
      ensures t[k] != t[k + 1]
    {
      var open := t[..n];
      if k + 1 < n {
        assert t[k] == open[k] && t[k + 1] == open[k + 1];
      } else {
        assert t[k] == open[n - 1] && t[k + 1] == open[0];
      }
    }
    PathLengthPositive(dist, n, t);
  }

  /** An ant: the tour built from `start` and the draws, with its length. */
  function MakeAnt(pher: Matrix, dist: Matrix, n: nat, start: nat, steps: seq<real>): (a: Ant)
    requires IsSquare(pher, n) && IsSquare(dist, n) && OffDiagonalPositive(dist, n)
    requires start < n && |steps| >= n - 1
    ensures |a.tour| == n + 1 && a.tour[0] == start && a.tour[n] == start && InRange(a.tour, n)
  {
    var t := BuildTour(pher, dist, n, start, steps);
    Ant(t, PathLength(dist, n, t))
  }

  /** With every distance at most `bound`, an ant's closed tour is at most `n * bound` long. */
  lemma AntLengthBound(pher: Matrix, dist: Matrix, n: nat, start: nat, steps: seq<real>, bound: real)
    requires IsSquare(pher, n) && IsSquare(dist, n) && OffDiagonalPositive(dist, n)
    requires start < n && |steps| >= n - 1
    requires forall i, j :: 0 <= i < n && 0 <= j < n ==> dist[i][j] <= bound
    ensures MakeAnt(pher, dist, n, start, steps).tourLength <= n as real * bound
  {
    var a := MakeAnt(pher, dist, n, start, steps);
    assert a.tourLength == PathLength(dist, n, a.tour);
    assert |a.tour| - 1 == n;
    PathLengthBound(dist, n, a.tour, bound);
  }
}

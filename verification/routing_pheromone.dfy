/**
  The pheromone matrix: the uniform start, evaporation and reinforcement along the
  ants' tours.
*/
module RoutingPheromone {
  import opened IndexSums
  import opened RoutingTour

  const EvaporationRate: real := 0.5

  predicate Symmetric(m: Matrix, n: nat)
    requires IsSquare(m, n)
  {
    forall i, j :: 0 <= i < n && 0 <= j < n ==> m[i][j] == m[j][i]
  }

  /** The pheromone invariant: square, symmetric and positive. */
  predicate Healthy(m: Matrix, n: nat)
  {
    IsSquare(m, n) && Symmetric(m, n) && Positive(m, n)
  }

  /** The starting matrix: `1 / n` everywhere. */
  function Uniform(n: nat): (m: Matrix)
    requires n > 0
    ensures Healthy(m, n)
    ensures forall i, j :: 0 <= i < n && 0 <= j < n ==> m[i][j] * n as real == 1.0
  {
    seq(n, _ => seq(n, _ => 1.0 / n as real))
  }

  /** Every entry multiplied by `1 - evaporation_rate`: halved, so a symmetric positive
      matrix stays symmetric and positive. */
  function Evaporate(m: Matrix, n: nat): (r: Matrix)
    requires IsSquare(m, n)
    ensures IsSquare(r, n)
    ensures forall i, j :: 0 <= i < n && 0 <= j < n ==> r[i][j] * 2.0 == m[i][j]
    ensures Healthy(m, n) ==> Healthy(r, n)
  {
    seq(n, i requires 0 <= i < n => seq(n, j requires 0 <= j < n => m[i][j] * (1.0 - EvaporationRate)))
  }

  /** `pheromone[i][j] += amount` followed by `pheromone[j][i] += amount`: `[i][j]` and
      `[j][i]` rise by `amount` (a self-loop entry by twice that) and every other entry
      stays as it was. */
  function AddEdge(m: Matrix, n: nat, i: nat, j: nat, amount: real): (r: Matrix)
    requires IsSquare(m, n) && i < n && j < n
    ensures IsSquare(r, n)
    ensures forall x, y :: 0 <= x < n && 0 <= y < n ==> r[x][y] == m[x][y] + Times(amount, Hits(i, j, x, y))
  {
    var m1 := m[i := m[i][j := m[i][j] + amount]];
    m1[j := m1[j][i := m1[j][i] + amount]]
  }

  /** How many of the two updates for the step from `i` to `j` land on entry `[x][y]`. */
  function Hits(i: nat, j: nat, x: nat, y: nat): nat
  {
    (if x == i && y == j then 1 else 0) + (if x == j && y == i then 1 else 0)
  }

  /** How often the edge between `x` and `y`, in either direction, is traversed among the
      steps `k, k + 1`, `k + 1, k + 2`, ... of the tour. A step from `x` to `x` counts twice. */
  function Crossings(tour: seq<nat>, x: nat, y: nat, k: nat): nat
    decreases |tour| - k
  {
    if k + 1 >= |tour| then 0
    else Hits(tour[k], tour[k + 1], x, y) + Crossings(tour, x, y, k + 1)
  }

  /** The deposit along a tour from step `k` on. */
  function Deposit(m: Matrix, n: nat, tour: seq<nat>, amount: real, k: nat): (r: Matrix)
    requires IsSquare(m, n) && InRange(tour, n)
    ensures IsSquare(r, n)
    decreases |tour| - k
  {
    if k + 1 >= |tour| then m
    else Deposit(AddEdge(m, n, tour[k], tour[k + 1], amount), n, tour, amount, k + 1)
  }

  /** Depositing along a tour adds `amount` to `[x][y]` once per traversal of the edge
      between `x` and `y`. */
  lemma {:induction false} DepositAdds(m: Matrix, n: nat, tour: seq<nat>, amount: real, k: nat, x: nat, y: nat)
    requires IsSquare(m, n) && InRange(tour, n) && x < n && y < n
    ensures Deposit(m, n, tour, amount, k)[x][y] == m[x][y] + Times(amount, Crossings(tour, x, y, k))
    decreases |tour| - k
  {
    if k + 1 < |tour| {
      var i, j := tour[k], tour[k + 1];
      var m1 := AddEdge(m, n, i, j, amount);
      DepositAdds(m1, n, tour, amount, k + 1, x, y);
      Distribute(amount, Hits(i, j, x, y), Crossings(tour, x, y, k + 1));
    }
  }

  /** `amount` added `count` times. */
  function Times(amount: real, count: nat): real
  {
    amount * count as real
  }

  lemma Distribute(a: real, b: nat, c: nat)
    ensures Times(a, b + c) == Times(a, b) + Times(a, c)
  {
  }

  /** The edge count is the same in both directions. */
  lemma {:induction false} CrossingsSymmetric(tour: seq<nat>, x: nat, y: nat, k: nat)
    ensures Crossings(tour, x, y, k) == Crossings(tour, y, x, k)
    decreases |tour| - k
  {
    if k + 1 < |tour| {
      CrossingsSymmetric(tour, x, y, k + 1);
    }
  }

  /** A positive deposit along any tour keeps the matrix symmetric and positive and
      lowers no entry. */
  lemma DepositPreserves(m: Matrix, n: nat, tour: seq<nat>, amount: real)
    requires Healthy(m, n) && InRange(tour, n) && amount > 0.0
    ensures Healthy(Deposit(m, n, tour, amount, 0), n)
    ensures forall x, y :: 0 <= x < n && 0 <= y < n ==> m[x][y] <= Deposit(m, n, tour, amount, 0)[x][y]
  {
    var r := Deposit(m, n, tour, amount, 0);
    forall x, y | 0 <= x < n && 0 <= y < n
      ensures m[x][y] <= r[x][y]
    {
      DepositAdds(m, n, tour, amount, 0, x, y);
      assert Times(amount, Crossings(tour, x, y, 0)) >= 0.0;
    }
    forall x, y | 0 <= x < n && 0 <= y < n
      ensures r[x][y] == r[y][x]
    {
      DepositAdds(m, n, tour, amount, 0, x, y);
      DepositAdds(m, n, tour, amount, 0, y, x);
      CrossingsSymmetric(tour, x, y, 0);
    }
    assert Symmetric(r, n);
    assert Positive(r, n);
  }

  /** Every ant deposits `1 / tour_length` along its tour, in the order of the ants. */
  function Reinforce(m: Matrix, n: nat, ants: seq<Ant>): (r: Matrix)
    requires IsSquare(m, n)
    requires forall a :: 0 <= a < |ants| ==> InRange(ants[a].tour, n) && ants[a].tourLength != 0.0
    ensures IsSquare(r, n)
    decreases |ants|
  {
    if |ants| == 0 then m
    else Reinforce(Deposit(m, n, ants[0].tour, 1.0 / ants[0].tourLength, 0), n, ants[1..])
  }

  /** Reinforcement by ants with positive tour lengths keeps the matrix symmetric and
      positive and lowers no entry. */
  lemma {:induction false} ReinforcePreserves(m: Matrix, n: nat, ants: seq<Ant>)
    requires Healthy(m, n)
    requires forall a :: 0 <= a < |ants| ==> InRange(ants[a].tour, n) && ants[a].tourLength > 0.0
    ensures Healthy(Reinforce(m, n, ants), n)
    ensures forall x, y :: 0 <= x < n && 0 <= y < n ==> m[x][y] <= Reinforce(m, n, ants)[x][y]
    decreases |ants|
  {
    if |ants| > 0 {
      var m1 := Deposit(m, n, ants[0].tour, 1.0 / ants[0].tourLength, 0);
      DepositPreserves(m, n, ants[0].tour, 1.0 / ants[0].tourLength);
      ReinforcePreserves(m1, n, ants[1..]);
    }
  }
}

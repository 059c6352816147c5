/**
  The ant-colony routing solver: per iteration ten ants build closed tours, the
  shortest tour so far is kept, the pheromone evaporates and every ant reinforces
  its tour. The random start nodes and draws are inputs.
*/
module Routing {
  import opened Wrappers
  import opened RoutingTour
  import opened RoutingPheromone

  const NumAnts: nat := 10
  const MaxIterations: nat := 1000

  /** `f64::MAX`, `(2 - 2^-52) * 2^1023`, written out exactly. */
  const F64Max: real := 179769313486231570814527423731704356798070567525844996598917476803157260780028538760589558632766878171540458953514382464234321326889464182768467546703537516986049910576551282076245490090389328944075868508455133942304583236903222948165808559332123348274797826204144723168738177180919299881250404026184124858368.0

  /** The fields of a routing challenge the solver reads. */
  datatype Challenge = Challenge(numNodes: nat, distances: seq<seq<int>>)

  /** The distance matrix converted to reals. */
  function Distances(ch: Challenge): (d: Matrix)
    ensures |d| == |ch.distances|
    ensures forall i :: 0 <= i < |d| ==> |d[i]| == |ch.distances[i]|
  {
    seq(|ch.distances|, i requires 0 <= i < |ch.distances| =>
      seq(|ch.distances[i]|, j requires 0 <= j < |ch.distances[i]| => ch.distances[i][j] as real))
  }

  /** At least two nodes, a square matrix, and positive distances between distinct nodes. */
  predicate WellFormed(ch: Challenge)
  {
    ch.numNodes >= 2 && IsSquare(Distances(ch), ch.numNodes) && OffDiagonalPositive(Distances(ch), ch.numNodes)
  }

  /** The random choices of one ant: `gen_range(0..num_nodes)` for the start and one
      `gen()` per construction step. */
  datatype AntDraws = AntDraws(start: nat, steps: seq<real>)

  predicate ValidDraws(a: AntDraws, n: nat)
  {
    a.start < n && |a.steps| == n - 1 && ProperDraws(a.steps)
  }

  predicate AllValid(draws: seq<AntDraws>, n: nat)
  {
    forall a :: 0 <= a < |draws| ==> ValidDraws(draws[a], n)
  }

  /** `best_tour` and `best_tour_length`. */
  datatype Best = Best(tour: seq<nat>, length: real)

  /** The solver state between iterations. */
  datatype Colony = Colony(pheromone: Matrix, best: Best)

  /** The best record is the initial one, or a closed tour together with its length. */
  predicate BestValid(b: Best, dist: Matrix, n: nat)
    requires IsSquare(dist, n)
  {
    || (b.tour == [] && b.length == F64Max)
    || (IsClosedTour(b.tour, n) && b.length == PathLength(dist, n, b.tour) && b.length < F64Max)
  }

  /**
    The ants of one iteration, in order. With positive pheromone, at least two nodes
    and draws in `(0, 1]`, every ant holds a closed tour visiting each node once, and
    its recorded length is that tour's positive path length.
  */
  function MakeAnts(pher: Matrix, dist: Matrix, n: nat, draws: seq<AntDraws>): (ants: seq<Ant>)
    requires IsSquare(pher, n) && IsSquare(dist, n) && OffDiagonalPositive(dist, n) && AllValid(draws, n)
    ensures |ants| == |draws|
    ensures forall a :: 0 <= a < |ants| ==>
      ants[a] == MakeAnt(pher, dist, n, draws[a].start, draws[a].steps)
    ensures Positive(pher, n) && n >= 2 ==>
      forall a :: 0 <= a < |ants| ==>
        && IsClosedTour(ants[a].tour, n)
        && ants[a].tourLength == PathLength(dist, n, ants[a].tour)
        && ants[a].tourLength > 0.0
  {
    var ants := seq(|draws|, a requires 0 <= a < |draws| => MakeAnt(pher, dist, n, draws[a].start, draws[a].steps));
    AntsClosed(pher, dist, n, draws, ants);
    ants
  }

  /** With positive pheromone and proper draws, every ant built from the draws holds a
      closed tour of positive length equal to its tour length. */
  lemma AntsClosed(pher: Matrix, dist: Matrix, n: nat, draws: seq<AntDraws>, ants: seq<Ant>)
    requires IsSquare(pher, n) && IsSquare(dist, n) && OffDiagonalPositive(dist, n) && AllValid(draws, n)
    requires |ants| == |draws|
    requires forall a :: 0 <= a < |ants| ==> ants[a] == MakeAnt(pher, dist, n, draws[a].start, draws[a].steps)
    ensures Positive(pher, n) && n >= 2 ==>
      forall a :: 0 <= a < |ants| ==>
        && IsClosedTour(ants[a].tour, n)
        && ants[a].tourLength == PathLength(dist, n, ants[a].tour)
        && ants[a].tourLength > 0.0
  {
    if Positive(pher, n) && n >= 2 {
      forall a | 0 <= a < |ants|
        ensures IsClosedTour(ants[a].tour, n) && ants[a].tourLength > 0.0
      {
        BuildTourHamiltonian(pher, dist, n, draws[a].start, draws[a].steps);
        ClosedTourPositive(dist, n, ants[a].tour);
      }
    }
  }

  /** Best-so-far tracking over the ants in order, replacing only on a strictly shorter tour. */
  function Track(best: Best, ants: seq<Ant>): Best
    decreases |ants|
  {
    if |ants| == 0 then best
    else
      var b := if ants[0].tourLength < best.length then Best(ants[0].tour, ants[0].tourLength) else best;
      Track(b, ants[1..])
  }

  /**
    Tracking never lengthens the best tour, ends no longer than any ant, keeps the old
    record when no ant is strictly shorter, and otherwise holds some ant's tour and
    length.
  */
  lemma {:induction false} TrackMinimum(best: Best, ants: seq<Ant>)
    ensures Track(best, ants).length <= best.length
    ensures forall a :: 0 <= a < |ants| ==> Track(best, ants).length <= ants[a].tourLength
    ensures (forall a :: 0 <= a < |ants| ==> ants[a].tourLength >= best.length) ==> Track(best, ants) == best
    ensures Track(best, ants) == best
         || exists a :: 0 <= a < |ants| && Track(best, ants) == Best(ants[a].tour, ants[a].tourLength)
    decreases |ants|
  {
    if |ants| > 0 {
      var b := if ants[0].tourLength < best.length then Best(ants[0].tour, ants[0].tourLength) else best;
      TrackMinimum(b, ants[1..]);
      var r := Track(best, ants);
      assert r == Track(b, ants[1..]);
      forall a | 1 <= a < |ants|
        ensures r.length <= ants[a].tourLength
      {
        assert ants[1..][a - 1] == ants[a];
      }
      if r != best && r != b {
        var a :| 0 <= a < |ants[1..]| && r == Best(ants[1..][a].tour, ants[1..][a].tourLength);
        assert ants[a + 1] == ants[1..][a];
      }
    }
  }

  /** Tracking over ants with closed tours keeps the best record valid. */
  lemma TrackValid(best: Best, ants: seq<Ant>, dist: Matrix, n: nat)
    requires IsSquare(dist, n) && BestValid(best, dist, n)
    requires forall a :: 0 <= a < |ants| ==>
      IsClosedTour(ants[a].tour, n) && ants[a].tourLength == PathLength(dist, n, ants[a].tour)
    ensures BestValid(Track(best, ants), dist, n)
  {
    TrackMinimum(best, ants);
  }

  /** One iteration: build the ants, track the best, evaporate, reinforce. */
  function Iterate(dist: Matrix, n: nat, c: Colony, draws: seq<AntDraws>): (r: Colony)
    requires IsSquare(dist, n) && OffDiagonalPositive(dist, n) && n >= 2
    requires Healthy(c.pheromone, n) && AllValid(draws, n)
    ensures Healthy(r.pheromone, n)
  {
    var ants := MakeAnts(c.pheromone, dist, n, draws);
    var evaporated := Evaporate(c.pheromone, n);
    ReinforcePreserves(evaporated, n, ants);
    Colony(Reinforce(evaporated, n, ants), Track(c.best, ants))
  }

  /** An iteration keeps the best record valid, never lengthens it, and ends no longer
      than any of its ants. */
  lemma IterateBest(dist: Matrix, n: nat, c: Colony, draws: seq<AntDraws>)
    requires IsSquare(dist, n) && OffDiagonalPositive(dist, n) && n >= 2
    requires Healthy(c.pheromone, n) && AllValid(draws, n)
    ensures var r := Iterate(dist, n, c, draws);
      var ants := MakeAnts(c.pheromone, dist, n, draws);
      && r.best.length <= c.best.length
      && (forall a :: 0 <= a < |ants| ==> r.best.length <= ants[a].tourLength)
      && (BestValid(c.best, dist, n) ==> BestValid(r.best, dist, n))
  {
    var ants := MakeAnts(c.pheromone, dist, n, draws);
    TrackMinimum(c.best, ants);
    if BestValid(c.best, dist, n) {
      TrackValid(c.best, ants, dist, n);
    }
  }

  /** Iterations in order, one list of ant draws each. */
  function Run(dist: Matrix, n: nat, c: Colony, iters: seq<seq<AntDraws>>): (r: Colony)
    requires IsSquare(dist, n) && OffDiagonalPositive(dist, n) && n >= 2
    requires Healthy(c.pheromone, n)
    requires forall k :: 0 <= k < |iters| ==> AllValid(iters[k], n)
    ensures Healthy(r.pheromone, n)
    decreases |iters|
  {
    if |iters| == 0 then c else Run(dist, n, Iterate(dist, n, c, iters[0]), iters[1..])
  }

  /** Over a run the pheromone stays symmetric and positive, the best length never
      grows, and the best record stays valid. */
  lemma {:induction false} RunBest(dist: Matrix, n: nat, c: Colony, iters: seq<seq<AntDraws>>)
    requires IsSquare(dist, n) && OffDiagonalPositive(dist, n) && n >= 2
    requires Healthy(c.pheromone, n)
    requires forall k :: 0 <= k < |iters| ==> AllValid(iters[k], n)
    ensures Run(dist, n, c, iters).best.length <= c.best.length
    ensures BestValid(c.best, dist, n) ==> BestValid(Run(dist, n, c, iters).best, dist, n)
    decreases |iters|
  {
    if |iters| > 0 {
      IterateBest(dist, n, c, iters[0]);
      RunBest(dist, n, Iterate(dist, n, c, iters[0]), iters[1..]);
    }
  }

  /** `solve_challenge`: `MaxIterations` iterations of `NumAnts` ants from the uniform
      matrix, answering the best tour as the single route. */
  function Solve(ch: Challenge, iters: seq<seq<AntDraws>>): Option<seq<seq<nat>>>
    requires WellFormed(ch)
    requires |iters| == MaxIterations
    requires forall k :: 0 <= k < |iters| ==> |iters[k]| == NumAnts && AllValid(iters[k], ch.numNodes)
  {
    var n, dist := ch.numNodes, Distances(ch);
    var start := Colony(Uniform(n), Best([], F64Max));
    Some([Run(dist, n, start, iters).best.tour])
  }

  /** The answer is always one route: either still empty or a closed tour visiting every
      node once. */
  lemma SolveRoute(ch: Challenge, iters: seq<seq<AntDraws>>)
    requires WellFormed(ch)
    requires |iters| == MaxIterations
    requires forall k :: 0 <= k < |iters| ==> |iters[k]| == NumAnts && AllValid(iters[k], ch.numNodes)
    ensures var r := Solve(ch, iters);
      r.Some? && |r.value| == 1 && (r.value[0] == [] || IsClosedTour(r.value[0], ch.numNodes))
  {
    var n, dist := ch.numNodes, Distances(ch);
    RunBest(dist, n, Colony(Uniform(n), Best([], F64Max)), iters);
  }

  /** When every distance is at most `bound` and `n * bound` stays below `f64::MAX`, the
      first ant already beats the initial record, so the route is a closed tour. */
  lemma SolveFindsTour(ch: Challenge, iters: seq<seq<AntDraws>>, bound: real)
    requires WellFormed(ch)
    requires |iters| == MaxIterations
    requires forall k :: 0 <= k < |iters| ==> |iters[k]| == NumAnts && AllValid(iters[k], ch.numNodes)
    requires forall i, j :: 0 <= i < ch.numNodes && 0 <= j < ch.numNodes ==> ch.distances[i][j] as real <= bound
    requires ch.numNodes as real * bound < F64Max
    ensures var r := Solve(ch, iters);
      r.Some? && |r.value| == 1 && IsClosedTour(r.value[0], ch.numNodes)
  {
    DistancesBounded(ch, bound);
    RunFinds(Distances(ch), ch.numNodes, Colony(Uniform(ch.numNodes), Best([], F64Max)), iters, bound);
  }

  /** From a valid record, a run whose first iteration has an ant and whose distances
      are bounded ends with a closed tour. */
  lemma RunFinds(dist: Matrix, n: nat, c: Colony, iters: seq<seq<AntDraws>>, bound: real)
    requires IsSquare(dist, n) && OffDiagonalPositive(dist, n) && n >= 2
    requires Healthy(c.pheromone, n) && BestValid(c.best, dist, n)
    requires forall k :: 0 <= k < |iters| ==> AllValid(iters[k], n)
    requires |iters| > 0 && |iters[0]| > 0
    requires forall i, j :: 0 <= i < n && 0 <= j < n ==> dist[i][j] <= bound
    requires n as real * bound < F64Max
    ensures IsClosedTour(Run(dist, n, c, iters).best.tour, n)
  {
    var c1 := Iterate(dist, n, c, iters[0]);
    assert Run(dist, n, c, iters) == Run(dist, n, c1, iters[1..]);
    FirstIterationFinds(dist, n, c, iters[0], bound);
    IterateBest(dist, n, c, iters[0]);
    RunBest(dist, n, c1, iters[1..]);
  }

  lemma DistancesBounded(ch: Challenge, bound: real)
    requires WellFormed(ch)
    requires forall i, j :: 0 <= i < ch.numNodes && 0 <= j < ch.numNodes ==> ch.distances[i][j] as real <= bound
    ensures forall i, j :: 0 <= i < ch.numNodes && 0 <= j < ch.numNodes ==> Distances(ch)[i][j] <= bound
  {
  }

  /** With bounded distances, an iteration with at least one ant ends with a record
      shorter than `f64::MAX`. */
  lemma FirstIterationFinds(dist: Matrix, n: nat, c: Colony, draws: seq<AntDraws>, bound: real)
    requires IsSquare(dist, n) && OffDiagonalPositive(dist, n) && n >= 2
    requires Healthy(c.pheromone, n) && AllValid(draws, n) && |draws| > 0
    requires forall i, j :: 0 <= i < n && 0 <= j < n ==> dist[i][j] <= bound
    requires n as real * bound < F64Max
    ensures Iterate(dist, n, c, draws).best.length < F64Max
  {
    var ants := MakeAnts(c.pheromone, dist, n, draws);
    assert ants[0].tourLength <= n as real * bound by {
      AntLengthBound(c.pheromone, dist, n, draws[0].start, draws[0].steps, bound);
    }
    IterateBest(dist, n, c, draws);
  }
}

# Two TIG solvers in Dafny

This project models two pure solver functions from the TIG algorithm collection and
proves properties about them:

- **Knapsack, `bounded_greedy_dp`.** The solver sorts the items by value/weight ratio. It
  then computes a fractional (Dantzig) upper bound and gives up when that bound is below
  `min_value`. Next it runs the descending-capacity 0/1 dynamic programme, recording one
  inclusion bit per (sorted position, capacity). It stops at the first prefix whose
  `dp[max_weight]` reaches `min_value`, and rebuilds the chosen items by walking the bits
  backwards.
- **Vehicle routing, `innovator_outbound`.** This is an ant colony. Each iteration, ten
  ants build closed tours by roulette-wheel selection over `pheromone / distance²`. The
  best tour so far is tracked. The pheromone matrix is halved, then reinforced with
  `1 / tour_length` along every ant's tour in both directions. After 1000 iterations the
  best tour is the single route of the answer.

Modules:

| module | file | contents |
|---|---|---|
| `Wrappers` | `wrappers.dfy` | `Option` |
| `IndexSums` | `index_sums.dfy` | sums over lists of positions, subset-sum bounds |
| `KnapsackBound` | `knapsack_bound.dfy` | ratio order, greedy upper bound, its soundness |
| `KnapsackDp` | `knapsack_dp.dfy` | `dp` rows, the descending inner loop, optimality of `dp` |
| `KnapsackTable` | `knapsack_table.dfy` | inclusion bits (see below), the backwards walk, `reverse` |
| `Knapsack` | `knapsack.dfy` | `solve_challenge`, soundness, completeness, the aliasing counterexample |
| `RoutingSelect` | `routing_select.dfy` | the roulette-wheel step |
| `RoutingTour` | `routing_tour.dfy` | tour construction, `calculate_tour_length`, `Ant` |
| `RoutingPheromone` | `routing_pheromone.dfy` | uniform start, evaporation, reinforcement |
| `Routing` | `routing.dfy` | iterations, best-so-far tracking, `solve_challenge` |

The knapsack solver's inclusion record is modelled with a `Layout` parameter:

- `AsWritten` uses the source's index: word `i * ((max_weight + 1) / 64) + w / 64`, bit
  `w % 64`. As a flat bit position this is `64 * i * ((max_weight + 1) / 64) + w`.
- `Corrected` gives every (position, capacity) pair its own bit `i * (max_weight + 1) + w`.
  This fits in the `(n * (max_weight + 1) + 63) / 64` words the source allocates.

`Knapsack.Solve(ch, order, AsWritten)` is the solver as written. When the solver
answers, and with which shape of answer, does not depend on the layout
(`Knapsack.SolveExit`, `Knapsack.SolveComplete`). The weight and value of the answer
do depend on it, so the soundness theorem is about `Knapsack.Solve(ch, order, Corrected)`.
`Knapsack.AsWrittenAgreesWhenAligned` shows the two layouts agree whenever the source's
rows do not overlap.

The random draws of the routing solver are inputs:

- one `AntDraws(start, steps)` per ant;
- one list of ants per iteration.

`f64` values are modelled by exact reals.

## Model

Paths are relative to the repository root. `inbound.rs` is
`tig-algorithms/src/knapsack/bounded_greedy_dp/inbound.rs`. `innovator_outbound.rs` is
`tig-algorithms/src/vehicle_routing/overloded/innovator_outbound.rs`.

| member | source | states |
|---|---|---|
| KnapsackBound.Greedy | tig-algorithms/src/knapsack/bounded_greedy_dp/inbound.rs:34-45 | The bound loop itself, with no contract of its own. What it computes is stated by `KnapsackBound.GreedyClosedForm`. |
| KnapsackBound.UpperBound | tig-algorithms/src/knapsack/bounded_greedy_dp/inbound.rs:32-45 | `upper_bound`, with no contract of its own. `KnapsackBound.UpperBoundClosedForm` gives its value and `KnapsackBound.UpperBoundSound` its soundness. |
| KnapsackBound.GreedyClosedForm | tig-algorithms/src/knapsack/bounded_greedy_dp/inbound.rs:34-45 | The bound loop, resumed at sorted position `j` with the first `j` items already taken, takes items exactly up to the first one that does not fit (`k`). It ends with their value sum plus `floor(v_k * remaining / w_k)`. |
| KnapsackBound.UpperBoundClosedForm | tig-algorithms/src/knapsack/bounded_greedy_dp/inbound.rs:32-45 | `upper_bound` is the value of the longest ratio-ordered prefix that fits, plus the floored fractional share of the first item that does not fit. The prefix fits; adding the next item would not. |
| KnapsackBound.ExchangeBound | tig-algorithms/src/knapsack/bounded_greedy_dp/inbound.rs:26-45 | In ratio order, any set of distinct items gains no more value, per unit of the item at position `k`'s ratio, than the first `k` items (the exchange inequality). |
| KnapsackBound.UpperBoundSound | tig-algorithms/src/knapsack/bounded_greedy_dp/inbound.rs:26-49 | With items in non-increasing value/weight order, no subset of weight at most `max_weight` is worth more than `upper_bound`. So the early `None` at line 47 never rejects a solvable instance. |
| KnapsackDp.RowUpdate | tig-algorithms/src/knapsack/bounded_greedy_dp/inbound.rs:55-66 | The row after one item keeps one entry per capacity. `KnapsackDp.ScanItem` shows the in-place loop computes it. |
| KnapsackDp.Rows | tig-algorithms/src/knapsack/bounded_greedy_dp/inbound.rs:52-66 | `dp` after the first `i` sorted items has `max_weight + 1` entries. Its properties are the rows of `RowsGrow`, `RowsMonotone`, `RowsOptimal` and `KnapsackTable.WalkIdeal`. |
| KnapsackDp.ScanItem | tig-algorithms/src/knapsack/bounded_greedy_dp/inbound.rs:55-66 | The descending in-place loop for one item gives the row in which every capacity sees only the previous row, so the item is used at most once. It raises exactly the bits of the capacities where the item improves `dp`. |
| KnapsackDp.RowsGrow | tig-algorithms/src/knapsack/bounded_greedy_dp/inbound.rs:61-63 | A `dp` entry never decreases as more items are processed. |
| KnapsackDp.RowsMonotone | tig-algorithms/src/knapsack/bounded_greedy_dp/inbound.rs:52-66 | After any number of items, `dp` is non-decreasing in the capacity. |
| KnapsackDp.RowsOptimal | tig-algorithms/src/knapsack/bounded_greedy_dp/inbound.rs:52-66 | After the first `i` sorted items, `dp[c]` is at least the value of every set of distinct items among them weighing at most `c`. This is the upper half of the DP invariant. |
| KnapsackTable.WordIndexInBounds | tig-algorithms/src/knapsack/bounded_greedy_dp/inbound.rs:53-64 | For `i < n` and `w <= max_weight`, the word index `i * ((max_weight + 1) / 64) + w / 64` used at lines 64 and 73 is below the allocated length `(n * (max_weight + 1) + 63) / 64`. `KnapsackTable.Words` models the allocation at line 53 and `KnapsackTable.WordIndex` the index. |
| KnapsackTable.BitPosition | tig-algorithms/src/knapsack/bounded_greedy_dp/inbound.rs:53-64 | Under either layout, the flat bit of (position `i`, capacity `w`) lies inside the `64 * ((n * (max_weight + 1) + 63) / 64)` bits allocated at line 53. |
| KnapsackTable.CorrectedInBounds | tig-algorithms/src/knapsack/bounded_greedy_dp/inbound.rs:53 | One bit per (position, capacity) fits in the same allocation. |
| KnapsackTable.AsWrittenSharedRow | tig-algorithms/src/knapsack/bounded_greedy_dp/inbound.rs:64 | For `max_weight < 63` the row stride is 0, so every item writes capacity `w` to the same bit. |
| KnapsackTable.CorrectedInjective | tig-algorithms/src/knapsack/bounded_greedy_dp/inbound.rs:53 | The corrected layout gives distinct (position, capacity) pairs distinct bits. |
| KnapsackTable.AsWrittenAlignedInjective | tig-algorithms/src/knapsack/bounded_greedy_dp/inbound.rs:64 | The source's index is injective when `(max_weight + 1) % 64 == 0`, and also when there is at most one item. |
| KnapsackTable.AsWrittenCollision | tig-algorithms/src/knapsack/bounded_greedy_dp/inbound.rs:64 | Otherwise, with two or more items, sorted position 0 at capacity `64 * ((max_weight + 1) / 64)` and sorted position 1 at capacity 0 share a bit. |
| KnapsackTable.AsWrittenInjectiveIff | tig-algorithms/src/knapsack/bounded_greedy_dp/inbound.rs:64 | With at least two items, the source's index is injective if and only if `(max_weight + 1) % 64 == 0`. |
| KnapsackTable.MarkRow | tig-algorithms/src/knapsack/bounded_greedy_dp/inbound.rs:60-65 | Marking one item keeps the length of the bit array. Which bits it raises is stated by `MarkRowReads`. |
| KnapsackTable.FlatBits | tig-algorithms/src/knapsack/bounded_greedy_dp/inbound.rs:53-66 | The bit array after `i` items keeps the allocated length. Its contents are stated by `FlatBitsReads` and `FlatBitsSets`. |
| KnapsackTable.TableOf | tig-algorithms/src/knapsack/bounded_greedy_dp/inbound.rs:73 | The bits read back at line 73 form one row of `max_weight + 1` entries per processed item. `TableIsIdeal` says what they hold. |
| KnapsackTable.MarkRowReads | tig-algorithms/src/knapsack/bounded_greedy_dp/inbound.rs:60-65 | Under an injective layout, marking one item's row leaves every other item's bits unchanged. It sets the item's own bit exactly where the item improves `dp`. |
| KnapsackTable.FlatBitsReads | tig-algorithms/src/knapsack/bounded_greedy_dp/inbound.rs:55-66 | Under an injective layout, after `i` items the bit of (`j`, `c`) is set if and only if `j < i` and item `j` improved `dp[c]`. |
| KnapsackTable.FlatBitsSets | tig-algorithms/src/knapsack/bounded_greedy_dp/inbound.rs:55-66 | Under any layout, the bit of every improvement is set; `|=` never clears a bit. |
| KnapsackTable.TableIsIdeal | tig-algorithms/src/knapsack/bounded_greedy_dp/inbound.rs:53-66 | Under an injective layout, the bits read back as the ideal two-dimensional table of improvements. |
| KnapsackTable.Walk | tig-algorithms/src/knapsack/bounded_greedy_dp/inbound.rs:70-77 | The backwards walk pushes sorted positions below `i + 1`, strictly decreasing. |
| KnapsackTable.SatSub | tig-algorithms/src/knapsack/bounded_greedy_dp/inbound.rs:75 | `saturating_sub`, with no contract of its own. `KnapsackTable.WalkIdeal` proves that on a table recording the improvements it never clamps. |
| KnapsackTable.WalkIdeal | tig-algorithms/src/knapsack/bounded_greedy_dp/inbound.rs:70-77 | On a table that records the improvements, the walk from (`j`, `c`) picks items of total weight at most `c` and total value exactly `dp[c]` after `j` items. `saturating_sub` never saturates. Together with `RowsOptimal` this gives both halves of the DP invariant. |
| KnapsackTable.Reverse | tig-algorithms/src/knapsack/bounded_greedy_dp/inbound.rs:78 | `reverse` keeps the length and puts entry `t` at position `length - 1 - t`. So the walk's decreasing push order comes out increasing, and the sums are unchanged (`ReverseSum`). |
| KnapsackTable.ReverseSum | tig-algorithms/src/knapsack/bounded_greedy_dp/inbound.rs:78 | `reverse` keeps the positions in range and keeps their sums. |
| KnapsackTable.CorrectedReconstruction | tig-algorithms/src/knapsack/bounded_greedy_dp/inbound.rs:70-78 | With the corrected layout, the reversed walk lists distinct, increasing positions whose weight fits `max_weight` and whose value is `dp[max_weight]`. |
| Knapsack.Solve | tig-algorithms/src/knapsack/bounded_greedy_dp/inbound.rs:18-83 | `solve_challenge` for a given ratio order and layout, with no contract of its own. Its properties are the rows of `SolveExit`, `SolveSound`, `SolveComplete`, `AsWrittenAgreesWhenAligned` and `OverlapAnswerOverweight`. |
| Knapsack.Answer | tig-algorithms/src/knapsack/bounded_greedy_dp/inbound.rs:70-78 | The reconstruction after the exit, with no contract of its own. Its properties are the rows of `AnswerShape`, `CorrectedAnswerSound` and `AnswerAgrees`. |
| Knapsack.FirstReaching | tig-algorithms/src/knapsack/bounded_greedy_dp/inbound.rs:55-81 | The early exit happens at the first sorted position whose `dp[max_weight]` reaches `min_value`. No earlier prefix reaches it. When there is none, no prefix does. |
| Knapsack.SumInOrder | tig-algorithms/src/knapsack/bounded_greedy_dp/inbound.rs:26-29 | Summing weights or values over sorted positions equals summing over the item indices at those positions. |
| Knapsack.ItemsAtSelection | tig-algorithms/src/knapsack/bounded_greedy_dp/inbound.rs:74 | Mapping increasing sorted positions to `sorted_items[j].0` gives distinct, in-range items in sorted order, with the same weight and value sums. |
| Knapsack.PositionsOfSelection | tig-algorithms/src/knapsack/bounded_greedy_dp/inbound.rs:26-29 | Every feasible set of items maps to distinct sorted positions with the same weight and value sums. |
| Knapsack.SelectionFeasible | tig-algorithms/src/knapsack/bounded_greedy_dp/inbound.rs:72-79 | Increasing sorted positions within the capacity name a feasible answer in sorted order, worth their sorted value sum. |
| Knapsack.CorrectedAnswerSound | tig-algorithms/src/knapsack/bounded_greedy_dp/inbound.rs:68-79 | With the corrected layout, the answer after an exit at position `i` is feasible, is in sorted order, and is worth exactly `dp[max_weight]` after `i + 1` items. |
| Knapsack.ReconstructionSound | tig-algorithms/src/knapsack/bounded_greedy_dp/inbound.rs:70-79 | With the corrected layout, the reversed walk after an exit at position `i` maps to a feasible selection in sorted order worth `dp[max_weight]` after `i + 1` items. |
| Knapsack.PositionsShape | tig-algorithms/src/knapsack/bounded_greedy_dp/inbound.rs:72-78 | Increasing sorted positions up to `i` map to distinct, in-range items in sorted order, each at a sorted position up to `i`. |
| Knapsack.AnswerShape | tig-algorithms/src/knapsack/bounded_greedy_dp/inbound.rs:70-78 | Under either layout, the answer after an exit at position `i` lists distinct, in-range items in increasing sorted position, none of them past `i`. |
| Knapsack.SolveExit | tig-algorithms/src/knapsack/bounded_greedy_dp/inbound.rs:47-83 | Under either layout, the solver answers `Some` if and only if the bound reaches `min_value` and some prefix of `dp` reaches it. A `Some` answer then comes from the first such prefix: its items are distinct, in range, in sorted order and drawn from that prefix. |
| Knapsack.SolveSound | tig-algorithms/src/knapsack/bounded_greedy_dp/inbound.rs:47-83 | A `Some` answer of the corrected solver lists distinct items in increasing sorted position. Their weight is at most `max_weight` and their value is at least `min_value`. The value equals `dp[max_weight]` at the first prefix that reaches `min_value`. |
| Knapsack.SolveComplete | tig-algorithms/src/knapsack/bounded_greedy_dp/inbound.rs:26-83 | In ratio order and under either layout, the solver answers `None` if and only if there are no items, or no feasible set of items reaches `min_value`. |
| Knapsack.AnswerAgrees | tig-algorithms/src/knapsack/bounded_greedy_dp/inbound.rs:64-78 | When rows are aligned, or there is at most one item, both layouts reconstruct the same answer. |
| Knapsack.AsWrittenAgreesWhenAligned | tig-algorithms/src/knapsack/bounded_greedy_dp/inbound.rs:53-83 | When `(max_weight + 1) % 64 == 0`, or there is at most one item, the solver as written answers exactly what the corrected one does. |
| Knapsack.OverlapInstanceRun | tig-algorithms/src/knapsack/bounded_greedy_dp/inbound.rs:26-68 | On weights `[1, 4]`, values `[1, 6]`, `max_weight = 2`, `min_value = 1`, the ratio order is `[1, 0]`. The bound is 3, and the first exit is at position 1. |
| Knapsack.OverlapAsWrittenBits | tig-algorithms/src/knapsack/bounded_greedy_dp/inbound.rs:64-73 | On that instance the row stride is 0, so the bit of (position `i`, capacity `w`) is bit `w`. Sorted position 1 (item 0, weight 1) raises bits 1 and 2. The walk reads bit 2 at (position 1, capacity 2), and then bit 1 at (position 0, capacity 1), which position 0 never raised. |
| Knapsack.OverlapAsWrittenWalk | tig-algorithms/src/knapsack/bounded_greedy_dp/inbound.rs:64-78 | On that instance, the shared row makes the as-written walk take both items, and `saturating_sub` saturates. |
| Knapsack.OverlapAnswerOverweight | tig-algorithms/src/knapsack/bounded_greedy_dp/inbound.rs:53-79 | On that instance, the solver as written answers `[1, 0]`, of weight 5 against a limit of 2. |
| Knapsack.OverlapCorrectedWalk | tig-algorithms/src/knapsack/bounded_greedy_dp/inbound.rs:70-78 | With one bit per pair, the walk on that instance takes only sorted position 1. |
| Knapsack.OverlapCorrectedAnswer | tig-algorithms/src/knapsack/bounded_greedy_dp/inbound.rs:53-79 | With the corrected layout, that instance is answered `[0]`, of weight 1 and value 1. |
| RoutingSelect.Scan | tig-algorithms/src/vehicle_routing/overloded/innovator_outbound.rs:66-76 | The scan answers 0 or an index at or after where it starts, inside the weights. Which index it answers is stated by `ScanFirst`. |
| RoutingSelect.Select | tig-algorithms/src/vehicle_routing/overloded/innovator_outbound.rs:66-76 | With at least one weight the selected index is in range. Which index it is is stated by `SelectFirstReaching`, `SelectPositive` and `SelectZeroDraw`. |
| RoutingSelect.ScanFirst | tig-algorithms/src/vehicle_routing/overloded/innovator_outbound.rs:66-76 | The scan returns the first index whose running normalised weight reaches `r`, and 0 when none does. |
| RoutingSelect.SelectFirstReaching | tig-algorithms/src/vehicle_routing/overloded/innovator_outbound.rs:66-76 | With a positive total and `r <= 1`, selection returns an index whose running sum divided by the total reaches `r`, and every earlier index falls short. |
| RoutingSelect.SelectPositive | tig-algorithms/src/vehicle_routing/overloded/innovator_outbound.rs:54-76 | With a positive total and `0 < r <= 1`, the selected index carries positive weight, so it is an unvisited node. |
| RoutingSelect.SelectZeroDraw | tig-algorithms/src/vehicle_routing/overloded/innovator_outbound.rs:66-76 | A draw `r <= 0` selects index 0 whatever the weights. |
| RoutingTour.Heuristic | tig-algorithms/src/vehicle_routing/overloded/innovator_outbound.rs:60 | `(1 / d)^2` is positive for every non-zero distance. |
| RoutingTour.StepWeights | tig-algorithms/src/vehicle_routing/overloded/innovator_outbound.rs:54-64 | Visited nodes have weight 0. With positive pheromone, every unvisited node has positive weight. |
| RoutingTour.Extend | tig-algorithms/src/vehicle_routing/overloded/innovator_outbound.rs:52-80 | The construction loop extends the partial tour to exactly `n` nodes and keeps its prefix. |
| RoutingTour.BuildTour | tig-algorithms/src/vehicle_routing/overloded/innovator_outbound.rs:46-82 | An ant's tour has `n + 1` entries, starts at `start_node` and is closed by returning to it. |
| RoutingTour.ExtendVisitsAll | tig-algorithms/src/vehicle_routing/overloded/innovator_outbound.rs:52-80 | With positive pheromone and draws in `(0, 1]`, the construction never revisits a node and ends having visited all of them. |
| RoutingTour.BuildTourHamiltonian | tig-algorithms/src/vehicle_routing/overloded/innovator_outbound.rs:46-82 | With positive pheromone and draws in `(0, 1]`, an ant's tour lists every node exactly once and then returns to the start. |
| RoutingTour.ZeroDrawRepeatsStart | tig-algorithms/src/vehicle_routing/overloded/innovator_outbound.rs:66-79 | A first draw of exactly 0 from node 0 selects node 0 again, so the Hamiltonian property needs draws above 0. |
| RoutingTour.MissingCount | tig-algorithms/src/vehicle_routing/overloded/innovator_outbound.rs:49-79 | A list of distinct nodes below `n` plus the nodes it misses make `n`. This is the counting step behind "every node is visited". |
| RoutingTour.PathLength | tig-algorithms/src/vehicle_routing/overloded/innovator_outbound.rs:115-121 | The sum over consecutive pairs, with no contract of its own. `CalculateTourLength` shows the loop computes it; `PathLengthPositive` and `PathLengthBound` bound it. |
| RoutingTour.CalculateTourLength | tig-algorithms/src/vehicle_routing/overloded/innovator_outbound.rs:115-121 | The loop returns the sum of `distance[tour[k]][tour[k + 1]]` over consecutive pairs. |
| RoutingTour.PathLengthPositive | tig-algorithms/src/vehicle_routing/overloded/innovator_outbound.rs:115-121 | A path of at least two nodes that never stays on a node has positive length. |
| RoutingTour.PathLengthBound | tig-algorithms/src/vehicle_routing/overloded/innovator_outbound.rs:115-121 | A path of `m + 1` nodes is at most `m` times the largest distance long. |
| RoutingTour.ClosedTourPositive | tig-algorithms/src/vehicle_routing/overloded/innovator_outbound.rs:82-83 | A closed tour over at least two nodes has positive length, so `1 / tour_length` is defined. |
| RoutingTour.MakeAnt | tig-algorithms/src/vehicle_routing/overloded/innovator_outbound.rs:46-83 | An `Ant` built from a start node and its draws holds a tour of `n + 1` nodes, from the start back to the start, with every node below `n`. The datatype `RoutingTour.Ant` models the `Ant` struct at lines 123-127. |
| RoutingTour.AntLengthBound | tig-algorithms/src/vehicle_routing/overloded/innovator_outbound.rs:82-83 | An ant's tour length is at most `n` times the largest distance. |
| RoutingPheromone.Uniform | tig-algorithms/src/vehicle_routing/overloded/innovator_outbound.rs:34-36 | The start matrix has `1 / n` everywhere, and is square, symmetric and positive. |
| RoutingPheromone.Evaporate | tig-algorithms/src/vehicle_routing/overloded/innovator_outbound.rs:94-98 | Evaporation halves each of the `n × n` entries, so it keeps the matrix symmetric and positive. |
| RoutingPheromone.AddEdge | tig-algorithms/src/vehicle_routing/overloded/innovator_outbound.rs:102-105 | One step raises `[i][j]` and `[j][i]` by the amount (a self-loop entry twice) and changes nothing else. |
| RoutingPheromone.Deposit | tig-algorithms/src/vehicle_routing/overloded/innovator_outbound.rs:100-107 | One ant's deposit keeps the matrix `n × n`. Its entries are stated by `DepositAdds` and `DepositPreserves`. |
| RoutingPheromone.DepositAdds | tig-algorithms/src/vehicle_routing/overloded/innovator_outbound.rs:100-107 | After one ant's deposit, entry `[x][y]` is its old value plus `1 / tour_length` times the number of traversals of the edge between `x` and `y`. |
| RoutingPheromone.CrossingsSymmetric | tig-algorithms/src/vehicle_routing/overloded/innovator_outbound.rs:101-105 | The traversal count of an edge is the same in both directions. |
| RoutingPheromone.DepositPreserves | tig-algorithms/src/vehicle_routing/overloded/innovator_outbound.rs:100-107 | A positive deposit keeps the matrix symmetric and positive, and never lowers an entry. |
| RoutingPheromone.Reinforce | tig-algorithms/src/vehicle_routing/overloded/innovator_outbound.rs:100-107 | Reinforcement by all ants keeps the matrix `n × n`. `ReinforcePreserves` states the invariants it keeps. |
| RoutingPheromone.ReinforcePreserves | tig-algorithms/src/vehicle_routing/overloded/innovator_outbound.rs:100-107 | Reinforcement by all ants of positive tour length keeps the matrix symmetric and positive, and never lowers an entry. |
| Routing.MakeAnts | tig-algorithms/src/vehicle_routing/overloded/innovator_outbound.rs:45-85 | One ant per draw record, in order. With positive pheromone, at least two nodes and draws in `(0, 1]`, every ant holds a closed tour visiting each node once, and its recorded length is that tour's path length, which is positive. |
| Routing.AntsClosed | tig-algorithms/src/vehicle_routing/overloded/innovator_outbound.rs:45-85 | With positive pheromone, at least two nodes and draws in `(0, 1]`, every ant built from the draws holds a closed tour whose recorded length is its path length and positive. This is the proof behind the contract of `MakeAnts`. |
| Routing.Track | tig-algorithms/src/vehicle_routing/overloded/innovator_outbound.rs:87-92 | Best-so-far tracking, with no contract of its own. Its properties are the rows of `TrackMinimum` and `TrackValid`. |
| Routing.TrackMinimum | tig-algorithms/src/vehicle_routing/overloded/innovator_outbound.rs:87-92 | Best-so-far tracking never lengthens the record, ends no longer than any ant, and keeps the old record when no ant is strictly shorter. Otherwise it holds some ant's tour together with that ant's length. |
| Routing.TrackValid | tig-algorithms/src/vehicle_routing/overloded/innovator_outbound.rs:87-92 | If the record is the initial one or a closed tour with its length, it stays so after tracking. |
| Routing.Iterate | tig-algorithms/src/vehicle_routing/overloded/innovator_outbound.rs:42-107 | One iteration keeps the pheromone matrix symmetric and positive. |
| Routing.IterateBest | tig-algorithms/src/vehicle_routing/overloded/innovator_outbound.rs:42-107 | One iteration never lengthens the record, ends no longer than any of its ants, and keeps the record valid. |
| Routing.Run | tig-algorithms/src/vehicle_routing/overloded/innovator_outbound.rs:42-108 | Any number of iterations keeps the pheromone matrix symmetric and positive. |
| Routing.RunBest | tig-algorithms/src/vehicle_routing/overloded/innovator_outbound.rs:39-108 | Over a run the best length never grows, and the record stays valid. |
| Routing.FirstIterationFinds | tig-algorithms/src/vehicle_routing/overloded/innovator_outbound.rs:42-92 | With distances at most `bound` and `n * bound < f64::MAX`, an iteration with at least one ant ends with a record below `f64::MAX`. |
| Routing.RunFinds | tig-algorithms/src/vehicle_routing/overloded/innovator_outbound.rs:39-108 | Under the same bound, a run with at least one ant in its first iteration ends holding a closed tour. |
| Routing.Solve | tig-algorithms/src/vehicle_routing/overloded/innovator_outbound.rs:23-112 | `solve_challenge` over given draws, with no contract of its own. Its properties are the rows of `SolveRoute` and `SolveFindsTour`. |
| Routing.SolveRoute | tig-algorithms/src/vehicle_routing/overloded/innovator_outbound.rs:110-112 | The answer is always `Some` with exactly one route: the best tour, which is still empty or is a closed tour visiting every node once. |
| Routing.SolveFindsTour | tig-algorithms/src/vehicle_routing/overloded/innovator_outbound.rs:23-112 | With distances bounded so that `n * bound < f64::MAX`, the one route is a closed tour visiting every node once. |

## Left out

- The CUDA modules (`inbound.rs:86-104`, `innovator_outbound.rs:140-160`) are not modelled. They are feature-gated wrappers that call `solve_challenge`.
- `anyhow::Result` and the `tig_challenges` structures are not modelled. Each `Challenge` datatype mirrors only the fields the solver reads.
- The ratio sort is not computed (`inbound.rs:26-29`). Its output is the permutation parameter `order`. `RatioOrdered` states the order by cross-multiplication, `v_a * w_b >= v_b * w_a` for every earlier `a`. `sort_unstable_by` fixes no order among ties, so any ratio-sorted permutation is allowed. Two distinct exact ratios can round to the same `f64` (`inbound.rs:27`, `inbound.rs:29`), so the source's order need not satisfy the exact `RatioOrdered`. This and the rounded product below only weaken the order and the bound that `KnapsackBound.UpperBoundSound` and `Knapsack.SolveComplete` assume.
- The comparator's panic on a NaN ratio is a precondition. `Knapsack.WellFormed` excludes items with weight 0 and value 0 when there are at least two items; their ratio `0 / 0` would be compared.
- The `f64` product at `inbound.rs:42` is modelled as the integer floor `v * remaining / w`. A ratio of `+inf` (weight 0, positive value) cannot occur at that line, because such an item always fits. That `f64` product can round across an integer, so that its floor is one below or one above the exact `floor(v * remaining / w)`. One below, the source can give up at line 47 where the model does not. One above only makes the bound larger, so the source gives up less often.
- `usize` arithmetic is unbounded. The source adds values and indexes words without overflow checks; the model assumes no overflow.
- The `u64` words of the inclusion record are a flat sequence of bits, `64 * word + bit`.
- `StdRng`, `gen_range` and `gen` are not modelled; they become inputs. `AntDraws` carries the start node and one draw per construction step. Seeding from `challenge.seed` (`innovator_outbound.rs:37`) is not modelled.
- `f64` arithmetic in the routing solver is modelled by exact reals. `powf(alpha = 1)` is the identity and `powf(beta = 2)` is a square. Rounding, overflow to infinity and NaN propagation are not modelled, except for the all-zero-weights case of selection: there the source's `0 / 0` comparisons all fail and node 0 is chosen, which `RoutingSelect.Select` models.
- The routing solver requires `n >= 2` nodes and positive distances between distinct nodes. With `n == 0`, `gen_range(0..0)` panics. With `n == 1`, every tour is `[s, s]` and its length is `distance[0][0]`. That is 0 on a zero diagonal, and then `1 / 0` enters the matrix. A zero distance gives an infinite heuristic.
- Routing draws are required to lie in `(0, 1]` for `Routing.Iterate`, `Routing.Run` and `Routing.Solve`. `rng.gen()` can return exactly 0, and then selection may revisit node 0 (`RoutingTour.ZeroDrawRepeatsStart`). A revisited node can make a step of length `distance[i][i]` (0 on a zero diagonal) and leave some node unvisited; the invariants are not modelled past that point.
- `Routing.Solve` requires exactly 1000 iteration records of exactly 10 ants each. The step lemmas are proved for any counts.
- `_max_capacity` and `_demands` (`innovator_outbound.rs:26-27`) are read but never used, so they are not modelled.
- Routing.SolveFindsTour: needs every distance to be at most a `bound` with `n * bound < f64::MAX`. Beyond that, `tour_length` could round to `f64::MAX` or to infinity, and the record might never be replaced.
- Knapsack.SolveComplete: with `n == 0` and `min_value == 0` the source returns `None` although the empty selection would do, and the theorem states that case explicitly.

## Findings

| source | as written | input that shows it | evidently intended | confidence | as-written member | corrected member |
|---|---|---|---|---|---|---|
| tig-algorithms/src/knapsack/bounded_greedy_dp/inbound.rs:64 | The inclusion bit of (position `i`, capacity `w`) is word `i * ((max_weight + 1) / 64) + w / 64`. The row stride is rounded down, so rows overlap unless `(max_weight + 1) % 64 == 0`; for `max_weight < 63` every item shares one row. The read at line 73 uses the same index, so the walk can see another item's bit and take an item that was not chosen. | weights `[1, 4]`, values `[1, 6]`, `max_weight = 2`, `min_value = 1`. The answer is `[1, 0]`, weight 5 > 2, and `saturating_sub` saturates. | One bit per (position, capacity), e.g. bit `i * (max_weight + 1) + w`, which fits the allocation at line 53. The answer is then `[0]`, a feasible selection of value 1. | not executed | Knapsack.OverlapAnswerOverweight | Knapsack.OverlapCorrectedAnswer |

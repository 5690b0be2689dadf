# Slot-machine matching engine, modelled in Dafny

This project models the numeric matching engine of a repeated two-sided matching game,
`matching_algorithms.py`. Players are matched to slot machines. A super-group gets a
correlated payoff surface: one base quality per slot machine, plus Gaussian noise per
player, floored and clipped to the payoff levels 0..20. The file offers two policies
for matching players to slot machines (nothing in the shown application calls them yet):

- **fair**: maximises total payoff over the payoff matrix.
- **self**: maximises the total of `q/(1+q)` over the probability matrix, where `q` is a
  per-payoff-level prior switching weight.

Infeasible cells carry the sentinel `-10000`.

Modules, one per component of the file:

- `Payoffs` (`payoffs.dfy`): `normalize_payoff` and `correlated_payoffs`.
- `SwitchingPrior` (`prior.dfy`): `initialize_probs`, and the odds transform `q/(1+q)`.
- `Matrices` (`matrices.dfy`): `payoff_matrix` and `probability_matrix`. Each is an
  imperative method proved against a function that gives the matrix as a value.
- `LinearSum` (`linear_sum.dfy`): the contract of `scipy.optimize.linear_sum_assignment`.
  It returns min(n, m) pairs, with rows in increasing order, no row or column used twice,
  and least total cost. An exhaustive reference solver (`Best`/`BestWithRow`) is proved to
  meet that contract for every matrix, so the contract can be satisfied.
- `Matching` (`matching.dfy`): `fair_matching` and `self_matching`. This module also proves
  what the sentinel guarantees and what it does not.

One might expect a period in which some player cannot be given a slot machine it is
offered to fail with an error. This code raises none: the solver may pick sentinel cells,
and `-10000` then shows up in `pays`. The model follows the code. `Matching.UnmatchablePlayerGetsSentinel`
states when the sentinel is certainly paid. `Matching.FairOptimumPaysRealPayoffs` and
`Matching.SelfOptimumPaysRealPayoffs` state when it is certainly avoided.

## Model

| member | source | states |
|---|---|---|
| Payoffs.NormalizePayoff | matching_algorithms.py:82-86 | the normalised payoff is an integer in [0, 20] |
| Payoffs.NormalizeIsLevelBelow | matching_algorithms.py:83-84 | the result is at most x unless clipped up to 0, and more than x - 1 unless clipped down to 20 |
| Payoffs.NormalizeIsUniqueLevelBelow | matching_algorithms.py:83-84 | only one level in [0, 20] has those two properties, so floor-then-clip is pinned down by them |
| Payoffs.NormalizeIsIdentityOnRange | matching_algorithms.py:82-86 | an integer already in [0, 20] is returned unchanged |
| Payoffs.NormalizeIsIdempotent | matching_algorithms.py:82-86 | normalising twice gives the same as normalising once |
| Payoffs.NormalizeIsMonotone | matching_algorithms.py:82-86 | a larger value never normalises to a smaller payoff |
| Payoffs.CorrelatedPayoffs | matching_algorithms.py:7-24 | returns one dictionary per player; each has keys exactly 0..n_sm-1, and slot j maps to the normalised base[j] + noise[i][j], which lies in [0, 20] |
| SwitchingPrior.InitializeProbs | matching_algorithms.py:89-94 | the table has keys exactly 0..20, and level i maps to i(20 - i)/100 |
| SwitchingPrior.ParabolaIsPrior | matching_algorithms.py:92 | the expression (i/20)(1 - i/20)·4 that the loop computes equals i(20 - i)/100 |
| SwitchingPrior.PriorVertexForm | matching_algorithms.py:92 | the prior is 1 - ((i - 10)/10)², a parabola with its peak at level 10 |
| SwitchingPrior.PriorEndpoints | matching_algorithms.py:91-92 | q[0] = q[20] = 0 and q[10] = 1 |
| SwitchingPrior.PriorIsSymmetric | matching_algorithms.py:92 | q[i] = q[20 - i] |
| SwitchingPrior.PriorBounds | matching_algorithms.py:91-92 | every q[i] with 0 ≤ i ≤ 20 lies in [0, 1] |
| SwitchingPrior.PriorIncreasesToPeak | matching_algorithms.py:92 | the prior strictly increases from level 0 up to level 10 |
| SwitchingPrior.OddsBounds | matching_algorithms.py:63 | a weight q in [0, 1] becomes q/(1+q) in [0, 1/2] |
| SwitchingPrior.OddsIsMonotone | matching_algorithms.py:63 | q/(1+q) preserves the order of non-negative weights, strictly when they differ |
| Matrices.PayoffMatrix | matching_algorithms.py:29-38 | returns nplayers rows of nslots cells each, in player-id order; cell (p, s) is payoffs[p][s] when p is a key and s is in its dictionary, and -10000 otherwise |
| Matrices.AbsentPlayerRowIsSentinel | matching_algorithms.py:31-37 | a player id that is not a key gets a row made only of the sentinel |
| Matrices.PayoffCellsAreSentinelOrPayoff | matching_algorithms.py:32-36 | with normalised payoffs, the sentinel marks exactly the cells the surface leaves out, and every other cell lies in [0, 20] |
| Matrices.ProbabilityMatrix | matching_algorithms.py:55-64 | same shape as the payoff matrix; a cell with payoff v ≥ 0 becomes prob[v]/(1 + prob[v]), and every other cell stays -10000.0 |
| Matrices.PriorProbabilityCellBounds | matching_algorithms.py:58-63 | under the prior table with normalised payoffs, a cell is the sentinel exactly where the payoff matrix has it, and every other cell lies in [0, 1/2] |
| Matrices.ProbabilityFollowsPrior | matching_algorithms.py:61-63 | of two feasible cells, the one whose payoff level has a prior no lower gets a probability value no lower, and a strictly higher prior gives a strictly higher value |
| LinearSum.LinearSumAssignment | matching_algorithms.py:45 | returns min(n, m) pairs with rows strictly increasing and columns distinct, whose total cost is at most that of every other such assignment |
| LinearSum.BestIsMinimal | matching_algorithms.py:45 | the exhaustive search finds an assignment whenever one exists, and no valid assignment costs less than the one it finds |
| LinearSum.MinimalOfNegatedIsMaximal | matching_algorithms.py:44-45 | an assignment minimises the cost -1·M exactly when it maximises M |
| LinearSum.EveryRowMatched | matching_algorithms.py:45 | when there are no more rows than columns, every row is matched and pair t is row t |
| Matching.FairMatching | matching_algorithms.py:42-50 | the pairs form an assignment with the greatest total payoff; pays has one entry per pair, equal to the payoff-matrix cell of that pair |
| Matching.SelfMatching | matching_algorithms.py:68-78 | the pairs form an assignment with the greatest total of the probability matrix; pays[k] is read from the payoff matrix, not from the probability matrix |
| Matching.OptimumAvoidsSentinel | matching_algorithms.py:32 | if feasible cells lie in [0, hi] and (min(n, m) - 1) times hi is below 10000, an optimal assignment uses no sentinel cell whenever some assignment avoids them all |
| Matching.FairOptimumPaysRealPayoffs | matching_algorithms.py:43-48 | with normalised payoffs and at most 500 pairs, if some assignment of min(nplayers, nslots) pairs uses only offered cells (every player gets an offered slot machine when players are fewer, every slot machine goes to a player offered it otherwise), then every fair pay is a payoff in [0, 20] |
| Matching.SelfOptimumPaysRealPayoffs | matching_algorithms.py:69-76 | the same guarantee for the selfish policy under the prior table, for at most 20000 pairs, since probability cells are at most 1/2 |
| Matching.UnmatchablePlayerGetsSentinel | matching_algorithms.py:45-48 | with no more players than slot machines, a player offered no slot machine is still matched, and its pay is the sentinel -10000 |

## Left out

- The random draws `np.random.beta(1, 2)·20` and `np.random.normal(0, 3)` are left out. `CorrelatedPayoffs` takes the base vector and the per-player noise as parameters.
- The Hungarian algorithm inside `linear_sum_assignment` is not modelled. The exhaustive reference meets the same contract, but among tied optima it may pick a different one than scipy. The contracts of `FairMatching` and `SelfMatching` only promise some optimum.
- FairMatching: requires at least one player. With `nplayers = 0`, `np.array([])` is one-dimensional, and scipy rejects it with a ValueError that the code does not handle.
- SelfMatching: requires at least one player, for the same reason.
- PayoffMatrix: requires every slot key of players 0..nplayers-1 to lie in 0..nslots-1. A key of nslots or more, or below -nslots, raises IndexError in Python. A key from -nslots to -1 silently overwrites the cell counted from the end of that player's row. Neither case is modelled.
- ProbabilityMatrix: requires every non-negative payoff that the surface offers players 0..nplayers-1 to be a key of `prob`, with `1 + prob[v] ≠ 0`. These are exactly the entries the code looks up. Otherwise Python raises KeyError or ZeroDivisionError.
- Payoffs are modelled as integers, as `normalize_payoff` produces them. A surface of non-integral floats is not modelled: `prob[p]` would raise KeyError on it.
- Floating point is left out. The prior and `q/(1+q)` are exact rationals here, while IEEE doubles may differ in the last bits. As a consequence, when two assignments' totals are nearly tied, scipy optimising over doubles may pick one that is not the exact-real optimum that `SelfMatching`'s `IsMaximal` contract states. `FairMatching` is not affected in the same way: its totals are sums of small integers, which doubles hold exactly.
- The order of dictionary keys is left out. `payoff_matrix` writes each slot key once, so the order does not change the result. The model visits the keys in an arbitrary order.
- FairOptimumPaysRealPayoffs: proved under the sufficient bound of at most 500 pairs. An assignment through a sentinel cell then totals at most -10000 + 499·20 < 0. Larger markets are not covered by the lemma.
- SelfOptimumPaysRealPayoffs: proved under the sufficient bound of at most 20000 pairs, by the same argument with cells of at most 1/2.
- `models.py` and `views.py` are not modelled: the oTree pages, the round loop of `Group.after_round` (whose switch branch holds no code yet) and `quit_payoff`, which pays the constant `quit_pay`. The shown code has no availability filter and no switching statistics, and nothing calls `fair_matching` or `self_matching`.
- The unused imports (`minimize`, `matplotlib`) and the commented-out IID beta block are left out.

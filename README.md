# Longest paths and spacelike separations on causal-set DAGs

This project models the matrix core of a library that embeds directed acyclic
graphs (DAGs) and causal sets in spacetime. Graphs are dense N x N adjacency
matrices. The modelled routines are the following.

- `causet_adj_matrix` builds the adjacency matrix of a causal set. Its inputs
  are the pairwise separations and the coordinates of the points.
- `transitive_completion` iterates `A := saturate(A . A0 + A0)` until the
  matrix stops changing. It fails through an `assert` after N steps. On a 0/1
  input that assertion fires only for N = 0: every non-empty 0/1 input,
  cyclic or not, reaches its fixed point by step N - 1, so a failure never
  signals a cycle.
- `transitive_reduction` iterates `A := clamp(A0 - A . A0)` a fixed number of
  times.
- `longest_path_matrix` exists in two variants. Both walk the powers of A and
  record in LP, for each pair, the largest power with a positive entry. The
  `matrix_utils` variant uses N as its default cutoff. The `dagsep` variant
  has no cutoff when `dmax` is falsy.
- `naive_spacelike_matrix` exists in two variants: with and without landmarks.
  It starts from `-(LP + LP^T)^2`. Each visited pair whose entry is still 0
  gets `sp^2`. Here `sp` is the minimum of `dmax` and the positive `LP[w][z]`
  over the common column-neighbours w and common row-neighbours z of the pair;
  it is `dmax` when either list is empty or no such `LP[w][z]` is positive.
  With a truthy landmark count k, pairs whose smaller index is k or more are
  not visited. The result is written on both sides.
- `twolink_spacelike_matrix` does the same, but with the average of per-link
  minima over the pair's "two-link" set, squared.

Matrices are `seq<seq<int>>` values, and the numpy products, sums, signs and
clamps are Dafny functions in module `Matrices`. Each Python loop is a Dafny
method with its loop. The three routines that return a freshly filled numpy
array are methods that fill an `array2`:

- `causet_adj_matrix`;
- both `naive_spacelike_matrix`;
- `twolink_spacelike_matrix`.

Each method is proved equal to a specification function, and the properties
are proved as lemmas about those functions.

Modules:

- `Wrappers`: Python's `None` as `Option`. A failing `assert` becomes
  `Result.Failure`. Python truthiness of an optional integer is `Truthy`.
- `Matrices`: the matrix operations and their basic facts.
- `Causet`: `causet_adj_matrix`, and acyclicity of its result.
- `Completion`: `transitive_completion`, its success condition, and the fact
  that a result is the transitive closure.
- `Reduction`: `transitive_reduction`, and what each step keeps.
- `LongestPath`: the power loop both `longest_path_matrix` routines share,
  what LP holds, and when no path is dropped.
- `Spacelike`: the supports, the naive and two-link distance loops, the final
  matrices, and the loop scaffolding that fills the `array2` pair by pair.
- `MatrixUtils` and `DagSep`: the entry points of the two source files.

## Model

| member | source | states |
|---|---|---|
| Causet.CausetAdjMatrix | dagology/matrix/matrix_utils.py:12-25 | the returned N x N array holds 1 at (i, j) exactly where the nested loops set it (i later than j in time and `S[i][j] < 0`) and 0 elsewhere |
| Causet.CausetEdges | dagology/matrix/matrix_utils.py:21-24 | an edge i -> j exists iff `R[i][0] > R[j][0]` and `S[i][j] < 0`; the diagonal is 0 and no pair has edges both ways |
| Causet.PowerGoesForward | dagology/matrix/matrix_utils.py:21-24 | a positive entry of `A^k` at (i, j) joins a later point i to an earlier point j, and at least k points, j included, have a time in `[R[j][0], R[i][0])` |
| Causet.CausetNilpotent | dagology/matrix/matrix_utils.py:12-25 | the adjacency matrix of N >= 1 points is non-negative and its N-th power is zero (the causal set is acyclic) |
| Completion.TransitiveCompletion | dagology/matrix/matrix_utils.py:27-43 | the loop returns the specification outcome `Completion(A0)`: the matrix at the first step that reproduces its input, or the failure of `assert i < N` |
| Completion.CompletionFromOutcome | dagology/matrix/matrix_utils.py:34-42 | from counter t on, the loop succeeds iff some step s in t..N-1 reproduces its input; a success returns the first such step's matrix; a failure carries the assertion's message |
| Completion.CompletionOutcome | dagology/matrix/matrix_utils.py:34-42 | the routine succeeds iff one of steps 0..N-1 is a fixed point (so N = 0 always fails); a result is a fixed point of the step with A0's shape |
| Completion.IterReach | dagology/matrix/matrix_utils.py:35-38 | for a non-negative A0, A after t steps is positive at (i, j) iff some `(A0^k)[i][j] > 0` with 1 <= k <= t + 1 |
| Completion.IterShape | dagology/matrix/matrix_utils.py:36-38 | for a 0/1 input every step gives a 0/1 matrix that keeps every edge of A0 |
| Completion.StepPositive | dagology/matrix/matrix_utils.py:36-38 | an entry of a step is positive iff A0 has the edge or the previous A reaches an intermediate node with an edge of A0 to the target |
| Completion.IterSettles | dagology/matrix/matrix_utils.py:39-40 | once a step reproduces its input, every later step gives the same matrix |
| Completion.FixedIsClosure | dagology/matrix/matrix_utils.py:34-42 | at a fixed step, A is positive at (i, j) iff some walk of one or more edges of A0 joins i to j |
| Completion.CompletionSucceeds | dagology/matrix/matrix_utils.py:34-42 | on every non-empty 0/1 input, cyclic or not, the routine succeeds: `assert i < N` fails only for N = 0 and cannot detect a cycle |
| Completion.TwoCycleCompletes | dagology/matrix/matrix_utils.py:34-42 | the 2-cycle 0 -> 1 -> 0 has `(A0^2)[0][0] == 1`, yet the routine succeeds and its result has 1 at (0, 0) |
| Completion.LastStepFixed | dagology/matrix/matrix_utils.py:39-41 | for a non-empty 0/1 input, step N - 1 reproduces its input, so the loop stops while `i < N` still holds |
| Completion.RowSettles | dagology/matrix/matrix_utils.py:35-38 | the targets of source i after N - 1 steps are those after N steps |
| Completion.RowGrowth | dagology/matrix/matrix_utils.py:35-38 | after t steps source i has at least t + 1 targets, or step t adds none |
| Completion.RowStable | dagology/matrix/matrix_utils.py:35-38 | once a step adds no target to source i, the next step adds none either |
| Completion.CompletionIsClosure | dagology/matrix/matrix_utils.py:27-43 | a successful result on a non-negative input is the transitive closure of A0, and it is 0/1 when A0 is |
| Reduction.TransitiveReduction | dagology/matrix/matrix_utils.py:45-69 | the loop returns A0 after LP reduction steps when LP is truthy and positive, A0 itself when LP is negative, and A0 after N steps when LP is `None` or 0 |
| Reduction.RedStepEntry | dagology/matrix/matrix_utils.py:64-67 | for a 0/1 A0 and a non-negative A, a step keeps (i, j) iff A0 has the edge and no l has `A[i][l] > 0` and an edge l -> j |
| Reduction.ReductionBelow | dagology/matrix/matrix_utils.py:63-68 | for a 0/1 input every A is 0/1 and lies below A0: no edge is ever added |
| Reduction.ReductionEntry | dagology/matrix/matrix_utils.py:63-68 | step k + 1 keeps an edge of A0 iff A after k steps does not extend to its target by one more edge of A0 |
| Reduction.ClosedPowerEdge | dagology/matrix/matrix_utils.py:48-49 | in a transitively closed 0/1 input, a positive entry of any power `A0^k` has the edge (i, j) itself |
| Reduction.LongWalkIsTwoEdgePath | dagology/matrix/matrix_utils.py:48-49 | in a closed 0/1 input, a walk of two or more edges from i to j exists iff a two-edge path does |
| Reduction.ClosedReductionStep | dagology/matrix/matrix_utils.py:63-68 | on a closed 0/1 input the first step keeps (i, j) iff A0 has the edge and no power `A0^k`, k >= 2, is positive there: it is the transitive reduction |
| Reduction.FirstReductionStep | dagology/matrix/matrix_utils.py:48-49 | the first step keeps exactly the edges of A0 that no two-edge path implies |
| LongestPath.PowerLoop | dagology/matrix/matrix_utils.py:91-102 | the while loop over powers ends in the state `Halted` after m powers, with `LP == LPUpTo(A, m)` |
| LongestPath.HaltedUnique | dagology/matrix/matrix_utils.py:94-101 | the loop halts after one number of powers only, so the LP of `PowerLoop` and both `LongestPathMatrix` methods is determined by A and the cutoff |
| LongestPath.LPUpToStep | dagology/matrix/matrix_utils.py:95-97 | processing power m sets `LP[r][c]` to the maximum of its old value and m where `(A^m)[r][c] > 0`; elsewhere it keeps a non-negative entry |
| LongestPath.LPUpToIsLargestPower | dagology/matrix/matrix_utils.py:94-99 | `LP[r][c]` after m powers is the largest k <= m with `(A^k)[r][c] > 0`, or 0 when there is none |
| LongestPath.LPUpToBounds | dagology/matrix/matrix_utils.py:94-99 | LP is non-negative, and every k <= m with `(A^k)[r][c] > 0` satisfies `k <= LP[r][c] <= m` |
| LongestPath.CutoffBound | dagology/matrix/matrix_utils.py:99-101 | with a cutoff of at least 2, at most cutoff - 1 powers are processed and every LP entry is at most cutoff - 1 |
| LongestPath.CutoffDropsLongPaths | dagology/matrix/matrix_utils.py:99-101 | with a cutoff of at least 2, a pair whose walks all have cutoff or more edges gets 0 in LP, not a value capped at the cutoff |
| LongestPath.LPUpToSettles | dagology/matrix/matrix_utils.py:94-99 | zero powers add nothing: if every power past m is zero, LP after any later power equals LP after m |
| LongestPath.NoPathDropped | dagology/matrix/matrix_utils.py:89-101 | for a non-negative A with `A^n = 0`, the loop ends, and with no cutoff or a cutoff of at least n, the returned LP equals the maximum over every power |
| LongestPath.NilpotentTerminates | algorithms/dagsep.py:25-32 | a vanishing power makes the loop end even with no cutoff |
| MatrixUtils.LongestPathMatrix | dagology/matrix/matrix_utils.py:71-102 | with cutoff `dmax` (N when `None`) the routine halts after m powers and returns `LPUpTo(A, m)` |
| MatrixUtils.NaiveSpacelikeMatrix | dagology/matrix/matrix_utils.py:104-152 | the returned array equals `NaiveEntry` at every (r, c): dmax defaults to `max(LP)`, and the landmark bound k limits the visited pairs |
| MatrixUtils.CausetLongestPath | dagology/matrix/matrix_utils.py:88-102 | on a causal set the loop ends for every cutoff; with the default cutoff N (or none) the returned LP is final, so processing further powers would not change it |
| MatrixUtils.CausetCompletion | dagology/matrix/matrix_utils.py:27-43 | `transitive_completion` of the adjacency matrix of N >= 1 causal-set points always succeeds |
| MatrixUtils.CausetLongestPathForward | dagology/matrix/matrix_utils.py:94-99 | on a causal set a positive `LP[r][c]` has r later than c and `LP[c][r] == 0`, and the diagonal of LP is 0 |
| DagSep.Cutoff | algorithms/dagsep.py:31 | the cutoff compared with the counter is dmax when dmax is truthy; otherwise it is below 2, a value the counter never reaches |
| DagSep.LongestPathMatrix | algorithms/dagsep.py:4-33 | with cutoff dmax, or none when dmax is falsy, the routine halts after m powers and returns `LPUpTo(A, m)` |
| DagSep.NaiveSpacelikeMatrix | algorithms/dagsep.py:35-78 | the returned array equals the landmark-free `NaiveEntry` at every (r, c), with dmax defaulting to `max(LP)` |
| DagSep.TwolinkSpacelikeMatrix | algorithms/dagsep.py:80-121 | the returned array equals `TwoLinkEntry` at every (r, c), with dmax defaulting to `max(LP)` |
| Spacelike.NaiveDistance | dagology/matrix/matrix_utils.py:132-148 | the nested loop over the two supports returns `NaiveDist`, the running minimum of the positive bridging `LP[w][z]` from dmax |
| Spacelike.TwoLinkDistance | algorithms/dagsep.py:99-118 | the loop over the two-link set returns `TwoLinkDist`, the average of the per-link minima, or dmax when the set is empty |
| Spacelike.CommonNonzeroMembers | dagology/matrix/matrix_utils.py:132-138 | the intersected nonzero-index list holds exactly the positions where both vectors are nonzero, strictly ascending |
| Spacelike.CommonOnesMembers | algorithms/dagsep.py:99-101 | the intersected `== 1` index list holds exactly the positions where both vectors are 1, strictly ascending |
| Spacelike.SupportMembers | dagology/matrix/matrix_utils.py:132-138 | x is in the column support iff `LP[x][i]` and `LP[x][j]` are nonzero; in the row support iff `LP[i][x]` and `LP[j][x]` are; in the two-link set iff both are 1 |
| Spacelike.TwoLinkWithinColumnSupport | algorithms/dagsep.py:99-104 | every member of the two-link set is in the column support |
| Spacelike.RowMinIsMinimum | dagology/matrix/matrix_utils.py:143-146 | the inner running minimum is at most its start and every positive `LP[w][z]`, and equals the start or one of them |
| Spacelike.BridgeMinIsMinimum | dagology/matrix/matrix_utils.py:141-146 | the nested running minimum is at most its start and every positive `LP[w][z]` over both lists, and equals the start or one of them |
| Spacelike.NaiveDistIsMinimum | dagology/matrix/matrix_utils.py:139-148 | the naive `sp_dist` is at most dmax and every positive `LP[w][z]` bridging the supports, equals dmax or one of them, and is positive when dmax is |
| Spacelike.TwoLinkSumBounds | algorithms/dagsep.py:107-115 | the sum of per-link minima is at most (number of links) x dmax, and at least the number of links when dmax > 0 |
| Spacelike.TwoLinkDistBounds | algorithms/dagsep.py:106-118 | the two-link `av_sp_dist` is at most dmax, and at least 1 when dmax > 0 |
| Spacelike.NaiveSymmetric | dagology/matrix/matrix_utils.py:150-151 | the naive matrix is symmetric |
| Spacelike.NaiveEntryCases | dagology/matrix/matrix_utils.py:121-151 | the naive matrix keeps `-(LP[r][c] + LP[c][r])^2` on the diagonal, on timelike pairs and on unvisited pairs; every other pair gets `sp^2` |
| Spacelike.NaiveEntryBounds | dagology/matrix/matrix_utils.py:139-151 | a visited spacelike entry lies in (0, dmax^2] when dmax > 0 |
| Spacelike.NaiveTimelikeOfAcyclic | dagology/matrix/matrix_utils.py:121-122 | for an acyclic LP, a pair with `LP[r][c] > 0` keeps `-LP[r][c]^2`, and a zero diagonal entry stays 0 |
| Spacelike.LandmarkCoverage | dagology/matrix/matrix_utils.py:124-128 | a falsy k, or k >= N - 1, gives the unrestricted result; with a truthy k, pairs with both indices at least k keep their timelike value |
| Spacelike.TwoLinkSymmetric | algorithms/dagsep.py:119-120 | the two-link matrix is symmetric |
| Spacelike.TwoLinkEntryCases | algorithms/dagsep.py:91-120 | the two-link matrix keeps the timelike value on the diagonal and on timelike pairs; every other pair gets `av^2` |
| Spacelike.TwoLinkEntryBounds | algorithms/dagsep.py:106-120 | a spacelike two-link entry lies in [1, dmax^2] when dmax > 0 |
| Spacelike.TwoLinkDistSquareBounds | algorithms/dagsep.py:116-119 | the square of the two-link average lies in [1, dmax^2] when dmax > 0 |
| Matrices.MaxEntryIsMaximum | dagology/matrix/matrix_utils.py:119-120 | the default dmax `np.max(LP)` is at least every entry of LP and equals one of them |

## Left out

- Number types. Adjacency matrices, powers, LP and `dmax` are unbounded
  integers, so there is no float64 rounding or overflow. The separations S and
  the coordinates R of `causet_adj_matrix` are exact reals, with no NaN or
  infinity; in the source a NaN time or separation gives no edge. The two-link
  average is an exact `real`, not a rounded float.
- Spacelike `dmax` values that are not whole numbers are not modelled. The
  source takes any maximum spacelike distance: a `dmax` of 2.5 would give
  `sp_dist = 2.5`.
- Shapes are stated as preconditions rather than checked. The matrix
  arguments are square by meaning (`Square`). For `causet_adj_matrix`,
  `WellFormed` asks only what the loops read: N = `S.shape[0]` rows of S with
  at least N entries each, and a time coordinate in each of the first N rows
  of R.
- DagSep.NaiveSpacelikeMatrix and the spacelike routines require `dmax` to be
  given or LP to be non-empty, because `np.max` of an empty array raises.
- The longest-path methods require `Terminates`: the cutoff is at least 2, or
  some power of A has a sum that is not positive. Otherwise the source loops
  forever (a cyclic graph with no cutoff). `NilpotentTerminates` and
  `CausetLongestPath` discharge this for acyclic inputs.
- The ghost out-parameter `m` of both `LongestPathMatrix` methods only names
  the number of processed powers. The Python routines return LP alone.
- The cutoff `i == dmax` is compared after the counter is incremented, so a
  cutoff d processes powers 1..d-1 only: entries never reach d
  (`CutoffBound`). A cutoff of 1 is never met. The model follows the code.
  So a pair whose walks are all d or more edges long gets 0, not a value capped
  at d (`CutoffDropsLongPaths`, from `LPUpToIsLargestPower`).
- Completion.CompletionOutcome: `assert i < N` runs after the comparison, so
  the empty matrix (N = 0) always fails. Every non-empty 0/1 input succeeds,
  cyclic or not (`CompletionSucceeds`, and `TwoCycleCompletes` for the 2-cycle),
  so the assertion cannot reject a cyclic input, although a failure of
  `transitive_completion` is meant to signal a malformed or cyclic one. The
  model follows the code. For inputs with entries other than 0 and 1 the model
  only characterises the outcome: success iff a step in 0..N-1 is a fixed point.
- Reduction.ReductionEntry: only one step is characterised. The code computes a
  transitive reduction only for an input that is already transitively closed.
  On such an input the first step is exactly the reduction
  (`ClosedReductionStep`). On an input that is not closed, the code keeps edges
  that only longer paths imply. An example is the acyclic G with edges 0->1,
  1->2, 2->3 and 0->3: `(G . G)[0][3]` is 0, so every step keeps 0->3. It is
  not proved that the later steps on a closed acyclic input give the same
  matrix again. That proof needs a choice of covering edge along every path,
  by well-founded induction over the acyclic order, which the model does not
  set up.
- In both naive routines, the first support lists the nodes x with
  `LP[x][i]` and `LP[x][j]` nonzero, and the second those with `LP[i][x]` and
  `LP[j][x]` nonzero. In `twolink_spacelike_matrix` both lists are columns:
  the two-link set has `LP[x][i] == 1` and `LP[x][j] == 1`, and `link_past` is
  the nonzero column support again. The model follows the indices, whatever
  the variable names say.
- Running an `assert` under `python -O`, which strips it, is not modelled.
- numpy views and in-place updates are modelled as values. `A += A_0`,
  `A[A>1.] = 1.` and the clamps at lines 66-67 of
  `dagology/matrix/matrix_utils.py` update in place. They act on the fresh
  array that `np.dot` or the subtraction has just returned, so no input or
  view of `A_` is ever written.
- The `__main__` block of `algorithms/dagsep.py`, which only prints the module
  docstring, is not modelled.

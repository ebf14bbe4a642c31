/**
 * The routines of `dagology/matrix/matrix_utils.py` that work on the longest-path
 * matrix: `longest_path_matrix` with its default cutoff N, and
 * `naive_spacelike_matrix` with its optional landmark count k. The adjacency,
 * completion and reduction routines of the same file are the modules Causet,
 * Completion and Reduction.
 */
module MatrixUtils {
  import opened Wrappers
  import opened Matrices
  import opened LongestPath
  import opened Spacelike
  import Causet
  import Completion

  /** `longest_path_matrix(A, dmax)`: a `None` cutoff becomes N. The loop must end:
      the cutoff is at least 2 or some power of A has no positive sum. */
  method LongestPathMatrix(A: Matrix, dmax: Option<int>) returns (LP: Matrix, ghost m: nat)
    requires Square(A) && Terminates(A, dmax.GetOr(|A|))
    ensures Halted(A, dmax.GetOr(|A|), m)
    ensures LP == LPUpTo(A, m)
  {
    var cutoff := dmax.GetOr(|A|);
    LP, m := PowerLoop(A, cutoff);
  }

  /** `naive_spacelike_matrix(LP, dmax, k)`: start from `-(LP + LP^T)^2`; for each i
      and each j below i (and below k when k is truthy), a pair whose entry is still
      0 gets the square of its naive distance, on both sides. */
  method NaiveSpacelikeMatrix(LP: Matrix, dmax: Option<int>, k: Option<int>) returns (ds2: array2<int>)
    requires Square(LP) && (dmax.Some? || |LP| > 0)
    ensures fresh(ds2) && ds2.Length0 == |LP| && ds2.Length1 == |LP|
    ensures forall r, c :: 0 <= r < |LP| && 0 <= c < |LP| ==>
      ds2[r, c] == NaiveEntry(LP, DefaultDmax(LP, dmax), k, r, c)
  {
    var d := DefaultDmax(LP, dmax);
    var N := |LP|;
    ghost var Final := NaiveMatrix(LP, d, k);
    ghost var Init := TimelikeMatrix(LP);
    ds2 := new int[N, N]((r, c) requires 0 <= r < N && 0 <= c < N => Timelike(LP, r, c));
    for i := 0 to N
      invariant Progress(ds2, N, Final, Init, i, 0)
    {
      var maxJ := i;
      if Truthy(k) {
        maxJ := Min(i, k.value);
      }
      var j := 0;
      while j < maxJ
        invariant 0 <= j && (j <= maxJ || j == 0)
        invariant Progress(ds2, N, Final, Init, i, j)
      {
        NaiveAtPair(LP, d, k, i, j);
        NaivePair(ds2, LP, d, Final, Init, i, j);
        j := j + 1;
      }
      forall c | j <= c <= i
        ensures Final[i][c] == Init[i][c] && Final[c][i] == Init[c][i]
      {
        NaiveSkipped(LP, d, k, i, c);
      }
      NextRow(ds2, N, Final, Init, i, j);
    }
  }

  // ---------------------------------------------------------------------------
  // Longest paths of a causal set

  /** On a causal set the loop ends for every cutoff, and with the default cutoff N
      no path is dropped: LP is final, whatever further powers were processed. */
  lemma CausetLongestPath(S: seq<seq<real>>, R: seq<seq<real>>, cutoff: int, m: nat, j: nat)
    requires Causet.WellFormed(S, R)
    ensures Terminates(Causet.CausetAdj(S, R), cutoff)
    ensures |S| >= 1 && (cutoff < 2 || cutoff >= |S|) && Halted(Causet.CausetAdj(S, R), cutoff, m) && j >= m ==>
      LPUpTo(Causet.CausetAdj(S, R), j) == LPUpTo(Causet.CausetAdj(S, R), m)
  {
    var A := Causet.CausetAdj(S, R);
    if |S| == 0 {
      NilpotentTerminates(A, cutoff, 1);
    } else {
      Causet.CausetNilpotent(S, R);
      NilpotentTerminates(A, cutoff, |S|);
      if (cutoff < 2 || cutoff >= |S|) && Halted(A, cutoff, m) && j >= m {
        NoPathDropped(A, cutoff, m, |S|, j);
      }
    }
  }

  /** The longest-path matrix of a causal set points forward in time: a positive
      `LP[r][c]` has r later than c, so `LP[c][r]` is 0 and the diagonal is 0. */
  lemma CausetLongestPathForward(S: seq<seq<real>>, R: seq<seq<real>>, m: nat, r: nat, c: nat)
    requires Causet.WellFormed(S, R) && r < |S| && c < |S|
    ensures LPUpTo(Causet.CausetAdj(S, R), m)[r][c] > 0 ==>
      R[r][0] > R[c][0] && LPUpTo(Causet.CausetAdj(S, R), m)[c][r] == 0
    ensures LPUpTo(Causet.CausetAdj(S, R), m)[r][r] == 0
  {
    var A := Causet.CausetAdj(S, R);
    LPUpToIsLargestPower(A, m, r, c);
    LPUpToIsLargestPower(A, m, c, r);
    LPUpToIsLargestPower(A, m, r, r);
    var rc := LPUpTo(A, m)[r][c];
    var cr := LPUpTo(A, m)[c][r];
    var rr := LPUpTo(A, m)[r][r];
    if rc > 0 {
      Causet.PowerGoesForward(S, R, rc, r, c);
    }
    if cr > 0 {
      Causet.PowerGoesForward(S, R, cr, c, r);
    }
    if rr > 0 {
      Causet.PowerGoesForward(S, R, rr, r, r);
    }
  }

  /** `transitive_completion` of a causal set's adjacency matrix never fails: the
      matrix is 0/1, so step N - 1 reproduces its input. */
  lemma CausetCompletion(S: seq<seq<real>>, R: seq<seq<real>>)
    requires Causet.WellFormed(S, R) && |S| >= 1
    ensures Completion.Completion(Causet.CausetAdj(S, R)).Ok?
  {
    Completion.CompletionSucceeds(Causet.CausetAdj(S, R));
  }
}

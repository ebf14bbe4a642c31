/**
 * The all-pairs longest-path computation shared by both `longest_path_matrix`
 * routines: walk the powers `B = A^k`, and after each one raise `LP` to
 * `k * sign(B)`, until `np.sum(B)` is no longer positive or the counter hits
 * the cutoff.
 */
module LongestPath {
  import opened Matrices

  /** `LP` after powers 1..m have been processed: the elementwise maximum of 0 and
      `k * sign(A^k)` over k in 1..m. */
  function LPUpTo(A: Matrix, m: nat): (LP: Matrix)
    requires Square(A)
    ensures SameShape(LP, A)
  {
    if m == 0 then Zero(|A|) else EMax(LPUpTo(A, m - 1), ScaledSign(m, MatPow(A, m)))
  }

  /** The loop's test `np.sum(B) > 0` for the power `B = A^k`. */
  ghost predicate PowerSumPositive(A: Matrix, k: nat)
    requires Square(A) && k >= 1
  {
    Sum(MatPow(A, k)) > 0
  }

  /** How the loop ends after processing powers 1..m: every processed power had a
      positive sum, the counter never met the cutoff before, and then either the
      next power's sum is not positive or the counter, now m + 1, equals the cutoff. */
  ghost predicate Halted(A: Matrix, cutoff: int, m: nat)
    requires Square(A)
  {
    && (forall k :: 1 <= k <= m ==> PowerSumPositive(A, k))
    && !(2 <= cutoff <= m)
    && (!PowerSumPositive(A, m + 1) || (m >= 1 && m + 1 == cutoff))
  }

  /** The loop ends: either the cutoff is one the counter reaches (at least 2), or
      some power of A has a sum that is not positive. */
  ghost predicate Terminates(A: Matrix, cutoff: int)
    requires Square(A)
  {
    cutoff >= 2 || exists K :: K >= 1 && !PowerSumPositive(A, K)
  }

  /** The loop has gone on past powers 1..i-1: each had a positive sum, and the
      counter, after each increment, was not the cutoff. */
  ghost predicate Passed(A: Matrix, cutoff: int, i: nat)
    requires Square(A)
  {
    (forall k :: 1 <= k < i ==> PowerSumPositive(A, k)) && !(2 <= cutoff < i)
  }

  lemma PassedStep(A: Matrix, cutoff: int, i: nat)
    requires Square(A) && i >= 1 && Passed(A, cutoff, i) && PowerSumPositive(A, i) && !(2 <= cutoff <= i)
    ensures Passed(A, cutoff, i + 1)
  {
  }

  lemma HaltedAt(A: Matrix, cutoff: int, i: nat)
    requires Square(A) && i >= 1 && Passed(A, cutoff, i)
    requires !PowerSumPositive(A, i) || (i >= 2 && i == cutoff)
    ensures Halted(A, cutoff, i - 1)
  {
  }

  /** The loop halts after one number of powers only, so `Halted` fixes m and,
      with it, the LP a loop returns. */
  lemma HaltedUnique(A: Matrix, cutoff: int, m1: nat, m2: nat)
    requires Square(A) && Halted(A, cutoff, m1) && Halted(A, cutoff, m2)
    ensures m1 == m2
  {
  }

  /** The while-loop of `longest_path_matrix`; `cutoff` is the value the counter is
      compared with after each increment (`i == dmax`); a cutoff below 2 is never met.
      The result is LP after the powers the loop processed, and `m` says how many. */
  method PowerLoop(A: Matrix, cutoff: int) returns (LP: Matrix, ghost m: nat)
    requires Square(A)
    requires Terminates(A, cutoff)
    ensures Halted(A, cutoff, m)
    ensures LP == LPUpTo(A, m)
  {
    ghost var K: int := 0;
    if cutoff < 2 {
      K :| K >= 1 && !PowerSumPositive(A, K);
    }
    LP := Zero(|A|);
    m := 0;
    var i := 1;
    var B := A;
    while Sum(B) > 0
      invariant 1 <= i && m == i - 1
      invariant B == MatPow(A, i)
      invariant LP == LPUpTo(A, m)
      invariant Passed(A, cutoff, i)
      invariant cutoff >= 2 ==> i < cutoff
      invariant cutoff < 2 ==> i <= K
      decreases if cutoff >= 2 then cutoff - i else K - i
    {
      assert PowerSumPositive(A, i);
      var pathLength := ScaledSign(i, B);
      LP := EMax(LP, pathLength);
      m := i;
      B := MatMul(B, A);
      i := i + 1;
      if i == cutoff {
        HaltedAt(A, cutoff, i);
        return;
      }
      PassedStep(A, cutoff, i - 1);
    }
    HaltedAt(A, cutoff, i);
  }

  // ---------------------------------------------------------------------------
  // What LP holds

  /** Processing power m >= 1 raises `LP[r][c]` to m where `(A^m)[r][c]` is
      positive and leaves a non-negative entry alone elsewhere. */
  lemma LPUpToStep(A: Matrix, m: nat, r: nat, c: nat)
    requires Square(A) && m >= 1 && r < |A| && c < |A|
    ensures MatPow(A, m)[r][c] > 0 ==> LPUpTo(A, m)[r][c] == Max(LPUpTo(A, m - 1)[r][c], m)
    ensures MatPow(A, m)[r][c] <= 0 && LPUpTo(A, m - 1)[r][c] >= 0 ==>
      LPUpTo(A, m)[r][c] == LPUpTo(A, m - 1)[r][c]
  {
    var P := MatPow(A, m);
    var S := ScaledSign(m, P);
    assert LPUpTo(A, m) == EMax(LPUpTo(A, m - 1), S);
    assert LPUpTo(A, m)[r][c] == Max(LPUpTo(A, m - 1)[r][c], S[r][c]);
    assert S[r][c] == m * SignOf(P[r][c]);
    if P[r][c] > 0 {
      assert S[r][c] == m;
    } else if P[r][c] < 0 {
      assert SignOf(P[r][c]) == -1;
      assert S[r][c] < 0;
    } else {
      assert S[r][c] == 0;
    }
  }

  /** Every entry of LP is non-negative. */
  lemma {:induction false} LPUpToNonneg(A: Matrix, m: nat, r: nat, c: nat)
    requires Square(A) && r < |A| && c < |A|
    ensures LPUpTo(A, m)[r][c] >= 0
  {
    if m > 0 {
      LPUpToNonneg(A, m - 1, r, c);
      LPUpToStep(A, m, r, c);
    }
  }

  /** `LP[r][c]` lies in 0..m. */
  lemma {:induction false} LPUpToRange(A: Matrix, m: nat, r: nat, c: nat)
    requires Square(A) && r < |A| && c < |A|
    ensures 0 <= LPUpTo(A, m)[r][c] <= m
  {
    if m > 0 {
      LPUpToRange(A, m - 1, r, c);
      LPUpToStep(A, m, r, c);
    }
  }

  /** A positive `LP[r][c]` names a power with a positive entry at r, c. */
  lemma {:induction false} LPUpToWitness(A: Matrix, m: nat, r: nat, c: nat)
    requires Square(A) && r < |A| && c < |A|
    ensures LPUpTo(A, m)[r][c] > 0 ==> MatPow(A, LPUpTo(A, m)[r][c])[r][c] > 0
  {
    if m > 0 {
      LPUpToWitness(A, m - 1, r, c);
      LPUpToRange(A, m - 1, r, c);
      LPUpToStep(A, m, r, c);
    }
  }

  /** No power after `LP[r][c]`, up to m, has a positive entry at r, c. */
  lemma {:induction false} LPUpToNoLater(A: Matrix, m: nat, r: nat, c: nat, k: nat)
    requires Square(A) && r < |A| && c < |A| && 1 <= k <= m && LPUpTo(A, m)[r][c] < k
    ensures MatPow(A, k)[r][c] <= 0
  {
    LPUpToRange(A, m - 1, r, c);
    LPUpToStep(A, m, r, c);
    if k < m {
      LPUpToNoLater(A, m - 1, r, c, k);
    }
  }

  /** `LP[r][c]` is the largest k <= m with `(A^k)[r][c] > 0`, or 0 if there is none. */
  lemma LPUpToIsLargestPower(A: Matrix, m: nat, r: nat, c: nat)
    requires Square(A) && r < |A| && c < |A|
    ensures 0 <= LPUpTo(A, m)[r][c] <= m
    ensures LPUpTo(A, m)[r][c] > 0 ==> MatPow(A, LPUpTo(A, m)[r][c])[r][c] > 0
    ensures forall k :: LPUpTo(A, m)[r][c] < k <= m ==> MatPow(A, k)[r][c] <= 0
  {
    LPUpToRange(A, m, r, c);
    LPUpToWitness(A, m, r, c);
    forall k | LPUpTo(A, m)[r][c] < k <= m
      ensures MatPow(A, k)[r][c] <= 0
    {
      LPUpToNoLater(A, m, r, c, k);
    }
  }

  /** Every entry of LP is non-negative, and a power reached with a positive entry is
      recorded: `(A^k)[r][c] > 0` for some k <= m gives `LP[r][c] >= k`. */
  lemma LPUpToBounds(A: Matrix, m: nat)
    requires Square(A)
    ensures Nonneg(LPUpTo(A, m))
    ensures forall r, c, k :: 0 <= r < |A| && 0 <= c < |A| && 1 <= k <= m && MatPow(A, k)[r][c] > 0 ==>
      k <= LPUpTo(A, m)[r][c] <= m
  {
    forall r, c | 0 <= r < |A| && 0 <= c < |A|
      ensures 0 <= LPUpTo(A, m)[r][c] <= m
      ensures forall k :: 1 <= k <= m && MatPow(A, k)[r][c] > 0 ==> k <= LPUpTo(A, m)[r][c]
    {
      LPUpToIsLargestPower(A, m, r, c);
    }
  }

  /** With a cutoff the counter reaches, the loop processes at most powers
      1..cutoff-1, so no entry exceeds cutoff - 1. */
  lemma CutoffBound(A: Matrix, cutoff: int, m: nat)
    requires Square(A) && cutoff >= 2 && Halted(A, cutoff, m)
    ensures m <= cutoff - 1
    ensures forall r, c :: 0 <= r < |A| && 0 <= c < |A| ==> 0 <= LPUpTo(A, m)[r][c] <= cutoff - 1
  {
    forall r, c | 0 <= r < |A| && 0 <= c < |A|
      ensures 0 <= LPUpTo(A, m)[r][c] <= cutoff - 1
    {
      LPUpToIsLargestPower(A, m, r, c);
    }
  }

  /** A pair all of whose walks are cutoff or more edges long is not capped at the
      cutoff: the loop stops before reaching any of those powers and leaves 0. */
  lemma CutoffDropsLongPaths(A: Matrix, cutoff: int, m: nat, r: nat, c: nat)
    requires Square(A) && cutoff >= 2 && Halted(A, cutoff, m) && r < |A| && c < |A|
    requires forall k :: 1 <= k < cutoff ==> MatPow(A, k)[r][c] <= 0
    ensures LPUpTo(A, m)[r][c] == 0
  {
    CutoffBound(A, cutoff, m);
    LPUpToIsLargestPower(A, m, r, c);
  }

  /** A zero power adds nothing to LP. */
  lemma LPUpToZeroStep(A: Matrix, j: nat)
    requires Square(A) && j >= 1 && IsZero(MatPow(A, j))
    ensures LPUpTo(A, j) == LPUpTo(A, j - 1)
  {
    var prev := LPUpTo(A, j - 1);
    forall r, c | 0 <= r < |A| && 0 <= c < |A|
      ensures LPUpTo(A, j)[r][c] == prev[r][c]
    {
      assert MatPow(A, j)[r][c] == 0;
      LPUpToNonneg(A, j - 1, r, c);
      LPUpToStep(A, j, r, c);
    }
    Extensionality(LPUpTo(A, j), prev);
  }

  /** Zero powers add nothing: if every power past m is zero, LP is final at m. */
  lemma {:induction false} LPUpToSettles(A: Matrix, m: nat, j: nat)
    requires Square(A) && m <= j
    requires forall k :: m < k <= j ==> IsZero(MatPow(A, k))
    ensures LPUpTo(A, j) == LPUpTo(A, m)
  {
    if j > m {
      LPUpToSettles(A, m, j - 1);
      LPUpToZeroStep(A, j);
    }
  }

  /** A non-negative matrix whose powers vanish from `A^n` on (an acyclic adjacency
      matrix with n = N nodes): the loop ends, and if the cutoff is not below n (the
      default of `matrix_utils`, N) or is never met (no cutoff), no path is dropped:
      LP equals the maximum over every power. */
  lemma NoPathDropped(A: Matrix, cutoff: int, m: nat, n: nat, j: nat)
    requires Square(A) && Nonneg(A) && n >= 1 && IsZero(MatPow(A, n))
    requires cutoff < 2 || cutoff >= n
    requires Halted(A, cutoff, m) && j >= m
    ensures Terminates(A, cutoff)
    ensures LPUpTo(A, j) == LPUpTo(A, m)
  {
    SumNonpositiveIsZero(MatPow(A, n));
    MatPowNonneg(A, m + 1);
    SumNonpositiveIsZero(MatPow(A, m + 1));
    if Sum(MatPow(A, m + 1)) <= 0 {
      forall k | m < k <= j
        ensures IsZero(MatPow(A, k))
      {
        MatPowZeroStays(A, m + 1, k);
      }
    } else {
      assert m + 1 == cutoff && cutoff >= n;
      forall k | m < k <= j
        ensures IsZero(MatPow(A, k))
      {
        MatPowZeroStays(A, n, k);
      }
    }
    LPUpToSettles(A, m, j);
  }

  /** A vanishing power makes the loop end without a cutoff. */
  lemma NilpotentTerminates(A: Matrix, cutoff: int, n: nat)
    requires Square(A) && n >= 1 && IsZero(MatPow(A, n))
    ensures Terminates(A, cutoff)
  {
    ZeroRowsSum(MatPow(A, n), |A|);
    assert !PowerSumPositive(A, n);
  }
}

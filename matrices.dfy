/**
 * Dense square integer matrices and the numpy operations the DAG routines
 * apply to them: products, powers, saturation, clamping, signs, elementwise
 * maxima and sums. Entries are exact integers (numpy stores them as float64;
 * every matrix entry, power and LP value is integral; the two-link average is
 * modelled as a `real`).
 */
module Matrices {

  type Matrix = seq<seq<int>>

  /** Every row has as many entries as there are rows. */
  predicate Square(M: Matrix) {
    forall r :: 0 <= r < |M| ==> |M[r]| == |M|
  }

  /** Both square, of the same order. */
  predicate SameShape(A: Matrix, B: Matrix) {
    Square(A) && Square(B) && |A| == |B|
  }

  /** Every entry is 0 or 1. */
  predicate Binary(M: Matrix) {
    forall r, c :: 0 <= r < |M| && 0 <= c < |M[r]| ==> M[r][c] == 0 || M[r][c] == 1
  }

  /** No entry is negative. */
  predicate Nonneg(M: Matrix) {
    forall r, c :: 0 <= r < |M| && 0 <= c < |M[r]| ==> M[r][c] >= 0
  }

  /** Every entry is 0. */
  predicate IsZero(M: Matrix) {
    forall r, c :: 0 <= r < |M| && 0 <= c < |M[r]| ==> M[r][c] == 0
  }

  /** Entrywise `A <= B`. */
  predicate Below(A: Matrix, B: Matrix)
    requires SameShape(A, B)
  {
    forall r, c :: 0 <= r < |A| && 0 <= c < |A| ==> A[r][c] <= B[r][c]
  }

  /** `np.zeros((n, n))` */
  function Zero(n: nat): (Z: Matrix)
    ensures Square(Z) && |Z| == n && IsZero(Z)
  {
    seq(n, r => seq(n, c => 0))
  }

  /** The k-term partial dot product of row r of A with column c of B. */
  function Dot(A: Matrix, B: Matrix, r: nat, c: nat, k: nat): int
    requires SameShape(A, B) && r < |A| && c < |A| && k <= |A|
  {
    if k == 0 then 0 else Dot(A, B, r, c, k - 1) + A[r][k - 1] * B[k - 1][c]
  }

  /** `np.dot(A, B)` */
  function MatMul(A: Matrix, B: Matrix): (P: Matrix)
    requires SameShape(A, B)
    ensures SameShape(P, A)
    ensures forall r, c :: 0 <= r < |A| && 0 <= c < |A| ==> P[r][c] == Dot(A, B, r, c, |A|)
  {
    seq(|A|, r requires 0 <= r < |A| => seq(|A|, c requires 0 <= c < |A| => Dot(A, B, r, c, |A|)))
  }

  /** `A^k` for k >= 1, built as the routines build it: `B := np.dot(B, A)`. */
  function MatPow(A: Matrix, k: nat): (P: Matrix)
    requires Square(A) && k >= 1
    ensures SameShape(P, A)
  {
    if k == 1 then A else MatMul(MatPow(A, k - 1), A)
  }

  /** Elementwise `A + B`. */
  function Add(A: Matrix, B: Matrix): (S: Matrix)
    requires SameShape(A, B)
    ensures SameShape(S, A)
  {
    seq(|A|, r requires 0 <= r < |A| => seq(|A|, c requires 0 <= c < |A| => A[r][c] + B[r][c]))
  }

  /** Elementwise `A - B`. */
  function Sub(A: Matrix, B: Matrix): (D: Matrix)
    requires SameShape(A, B)
    ensures SameShape(D, A)
  {
    seq(|A|, r requires 0 <= r < |A| => seq(|A|, c requires 0 <= c < |A| => A[r][c] - B[r][c]))
  }

  /** `A[A > 1] = 1`: entries above 1 become 1, the others are kept. */
  function Sat(A: Matrix): (S: Matrix)
    requires Square(A)
    ensures SameShape(S, A)
  {
    seq(|A|, r requires 0 <= r < |A| => seq(|A|, c requires 0 <= c < |A| => if A[r][c] > 1 then 1 else A[r][c]))
  }

  /** `A[A < 1] = 0; A[A > 1] = 1`: 1 where the entry is at least 1, 0 elsewhere. */
  function Clamp01(A: Matrix): (K: Matrix)
    requires Square(A)
    ensures SameShape(K, A) && Binary(K)
  {
    seq(|A|, r requires 0 <= r < |A| => seq(|A|, c requires 0 <= c < |A| => if A[r][c] < 1 then 0 else 1))
  }

  /** The sign of an integer, as `np.sign`. */
  function SignOf(x: int): int {
    if x > 0 then 1 else if x < 0 then -1 else 0
  }

  /** `k * np.sign(B)` */
  function ScaledSign(k: int, B: Matrix): (P: Matrix)
    requires Square(B)
    ensures SameShape(P, B)
  {
    seq(|B|, r requires 0 <= r < |B| => seq(|B|, c requires 0 <= c < |B| => k * SignOf(B[r][c])))
  }

  function Max(x: int, y: int): int {
    if x >= y then x else y
  }

  function Min(x: int, y: int): int {
    if x <= y then x else y
  }

  /** `np.maximum.reduce((A, B))` */
  function EMax(A: Matrix, B: Matrix): (M: Matrix)
    requires SameShape(A, B)
    ensures SameShape(M, A)
  {
    seq(|A|, r requires 0 <= r < |A| => seq(|A|, c requires 0 <= c < |A| => Max(A[r][c], B[r][c])))
  }

  /** The sum of the first k entries of a row. */
  function RowSum(row: seq<int>, k: nat): int
    requires k <= |row|
  {
    if k == 0 then 0 else RowSum(row, k - 1) + row[k - 1]
  }

  /** The sum of the first k rows. */
  function RowsSum(M: Matrix, k: nat): int
    requires Square(M) && k <= |M|
  {
    if k == 0 then 0 else RowsSum(M, k - 1) + RowSum(M[k - 1], |M|)
  }

  /** `np.sum(M)` */
  function Sum(M: Matrix): int
    requires Square(M)
  {
    RowsSum(M, |M|)
  }

  /** The largest of the first k entries of a non-empty row. */
  function RowMax(row: seq<int>, k: nat): int
    requires 1 <= k <= |row|
  {
    if k == 1 then row[0] else Max(RowMax(row, k - 1), row[k - 1])
  }

  /** The largest entry of the first k rows. */
  function RowsMax(M: Matrix, k: nat): int
    requires Square(M) && 1 <= k <= |M|
  {
    if k == 1 then RowMax(M[0], |M|) else Max(RowsMax(M, k - 1), RowMax(M[k - 1], |M|))
  }

  /** `np.max(M)`, which numpy refuses for an empty matrix. */
  function MaxEntry(M: Matrix): int
    requires Square(M) && |M| > 0
  {
    RowsMax(M, |M|)
  }

  /** `M[:, c]` */
  function Col(M: Matrix, c: nat): (v: seq<int>)
    requires Square(M) && c < |M|
    ensures |v| == |M| && forall r :: 0 <= r < |M| ==> v[r] == M[r][c]
  {
    seq(|M|, r requires 0 <= r < |M| => M[r][c])
  }

  // ---------------------------------------------------------------------------
  // Lemmas about the operations

  /** Matrices of one shape that agree entry by entry are equal. */
  lemma Extensionality(X: Matrix, Y: Matrix)
    requires SameShape(X, Y)
    requires forall r, c :: 0 <= r < |X| && 0 <= c < |X| ==> X[r][c] == Y[r][c]
    ensures X == Y
  {
    forall r | 0 <= r < |X|
      ensures X[r] == Y[r]
    {
      assert forall c :: 0 <= c < |X| ==> X[r][c] == Y[r][c];
    }
  }

  /** A partial sum of non-negative entries that is not positive has only zero terms. */
  lemma {:induction false} RowSumNonpositive(row: seq<int>, k: nat)
    requires k <= |row|
    requires forall c :: 0 <= c < k ==> row[c] >= 0
    ensures RowSum(row, k) >= 0
    ensures RowSum(row, k) <= 0 ==> forall c :: 0 <= c < k ==> row[c] == 0
  {
    if k > 0 {
      RowSumNonpositive(row, k - 1);
    }
  }

  lemma {:induction false} RowsSumNonpositive(M: Matrix, k: nat)
    requires Square(M) && k <= |M| && Nonneg(M)
    ensures RowsSum(M, k) >= 0
    ensures RowsSum(M, k) <= 0 ==> forall r, c :: 0 <= r < k && 0 <= c < |M| ==> M[r][c] == 0
  {
    if k > 0 {
      RowsSumNonpositive(M, k - 1);
      RowSumNonpositive(M[k - 1], |M|);
    }
  }

  /** For a non-negative matrix, `np.sum(M) > 0` is the test "M is not the zero matrix". */
  lemma SumNonpositiveIsZero(M: Matrix)
    requires Square(M) && Nonneg(M)
    ensures Sum(M) >= 0
    ensures Sum(M) <= 0 <==> IsZero(M)
  {
    RowsSumNonpositive(M, |M|);
    if IsZero(M) {
      ZeroRowsSum(M, |M|);
    }
  }

  lemma {:induction false} ZeroRowsSum(M: Matrix, k: nat)
    requires Square(M) && k <= |M| && IsZero(M)
    ensures RowsSum(M, k) == 0
  {
    if k > 0 {
      ZeroRowsSum(M, k - 1);
      ZeroRowSum(M[k - 1], |M|);
    }
  }

  lemma {:induction false} ZeroRowSum(row: seq<int>, k: nat)
    requires k <= |row| && forall c :: 0 <= c < |row| ==> row[c] == 0
    ensures RowSum(row, k) == 0
  {
    if k > 0 {
      ZeroRowSum(row, k - 1);
    }
  }

  /** A dot product of non-negative entries is non-negative, and positive exactly
      when some term has both factors positive. */
  lemma {:induction false} DotPositive(A: Matrix, B: Matrix, r: nat, c: nat, k: nat)
    requires SameShape(A, B) && Nonneg(A) && Nonneg(B) && r < |A| && c < |A| && k <= |A|
    ensures Dot(A, B, r, c, k) >= 0
    ensures Dot(A, B, r, c, k) > 0 <==> exists l :: 0 <= l < k && A[r][l] > 0 && B[l][c] > 0
  {
    if k > 0 {
      DotPositive(A, B, r, c, k - 1);
      assert A[r][k - 1] * B[k - 1][c] >= 0;
      if A[r][k - 1] > 0 && B[k - 1][c] > 0 {
        assert A[r][k - 1] * B[k - 1][c] > 0;
      } else {
        assert A[r][k - 1] * B[k - 1][c] == 0;
      }
    }
  }

  /** The product of non-negative matrices is non-negative, and an entry of it is
      positive exactly when a two-step connection exists. */
  lemma MatMulPositive(A: Matrix, B: Matrix, r: nat, c: nat)
    requires SameShape(A, B) && Nonneg(A) && Nonneg(B) && r < |A| && c < |A|
    ensures MatMul(A, B)[r][c] >= 0
    ensures MatMul(A, B)[r][c] > 0 <==> exists l :: 0 <= l < |A| && A[r][l] > 0 && B[l][c] > 0
  {
    DotPositive(A, B, r, c, |A|);
  }

  lemma MatMulNonneg(A: Matrix, B: Matrix)
    requires SameShape(A, B) && Nonneg(A) && Nonneg(B)
    ensures Nonneg(MatMul(A, B))
  {
    forall r, c | 0 <= r < |A| && 0 <= c < |A|
      ensures MatMul(A, B)[r][c] >= 0
    {
      MatMulPositive(A, B, r, c);
    }
  }

  /** Powers of a non-negative matrix are non-negative. */
  lemma {:induction false} MatPowNonneg(A: Matrix, k: nat)
    requires Square(A) && Nonneg(A) && k >= 1
    ensures Nonneg(MatPow(A, k))
  {
    if k > 1 {
      MatPowNonneg(A, k - 1);
      MatMulNonneg(MatPow(A, k - 1), A);
    }
  }

  lemma {:induction false} DotZeroLeft(A: Matrix, B: Matrix, r: nat, c: nat, k: nat)
    requires SameShape(A, B) && IsZero(A) && r < |A| && c < |A| && k <= |A|
    ensures Dot(A, B, r, c, k) == 0
  {
    if k > 0 {
      DotZeroLeft(A, B, r, c, k - 1);
    }
  }

  /** Once a power is the zero matrix, every later power is too. */
  lemma {:induction false} MatPowZeroStays(A: Matrix, k: nat, j: nat)
    requires Square(A) && 1 <= k <= j && IsZero(MatPow(A, k))
    ensures IsZero(MatPow(A, j))
  {
    if j > k {
      MatPowZeroStays(A, k, j - 1);
      forall r, c | 0 <= r < |A| && 0 <= c < |A|
        ensures MatPow(A, j)[r][c] == 0
      {
        DotZeroLeft(MatPow(A, j - 1), A, r, c, |A|);
      }
    }
  }

  /** RowMax is the largest of the first k entries, and one of them. */
  lemma {:induction false} RowMaxIsMaximum(row: seq<int>, k: nat)
    requires 1 <= k <= |row|
    ensures forall c :: 0 <= c < k ==> row[c] <= RowMax(row, k)
    ensures exists c :: 0 <= c < k && row[c] == RowMax(row, k)
  {
    if k > 1 {
      RowMaxIsMaximum(row, k - 1);
      if RowMax(row, k) == row[k - 1] {
        assert row[k - 1] == RowMax(row, k);
      }
    } else {
      assert row[0] == RowMax(row, 1);
    }
  }

  lemma {:induction false} RowsMaxIsMaximum(M: Matrix, k: nat)
    requires Square(M) && 1 <= k <= |M|
    ensures forall r, c :: 0 <= r < k && 0 <= c < |M| ==> M[r][c] <= RowsMax(M, k)
    ensures exists r, c :: 0 <= r < k && 0 <= c < |M| && M[r][c] == RowsMax(M, k)
  {
    RowMaxIsMaximum(M[k - 1], |M|);
    if k > 1 {
      RowsMaxIsMaximum(M, k - 1);
      if RowsMax(M, k) == RowMax(M[k - 1], |M|) {
        var c :| 0 <= c < |M| && M[k - 1][c] == RowMax(M[k - 1], |M|);
        assert M[k - 1][c] == RowsMax(M, k);
      }
    }
  }

  /** `np.max(M)` bounds every entry and is one of them. */
  lemma MaxEntryIsMaximum(M: Matrix)
    requires Square(M) && |M| > 0
    ensures forall r, c :: 0 <= r < |M| && 0 <= c < |M| ==> M[r][c] <= MaxEntry(M)
    ensures exists r, c :: 0 <= r < |M| && 0 <= c < |M| && M[r][c] == MaxEntry(M)
  {
    RowsMaxIsMaximum(M, |M|);
  }
}

/**
 * `transitive_reduction`: starting from `A := A0`, repeat
 * `A := clamp(A0 - A . A0)` (entries below 1 become 0, above 1 become 1) a fixed
 * number of times: the `LP` argument when it is truthy, N otherwise.
 *
 * Each step keeps exactly the edges of a 0/1 input that the previous A does not
 * extend by one more edge of A0 to the same target; no step adds an edge.
 */
module Reduction {
  import opened Wrappers
  import opened Matrices

  /** One step: `A = np.dot(A, A0); A = A0 - A; A[A < 1] = 0; A[A > 1] = 1`. */
  function RedStep(A0: Matrix, X: Matrix): (Y: Matrix)
    requires SameShape(X, A0)
    ensures SameShape(Y, A0) && Binary(Y)
  {
    Clamp01(Sub(A0, MatMul(X, A0)))
  }

  /** A after k steps. */
  function RedIter(A0: Matrix, k: nat): (X: Matrix)
    requires Square(A0)
    ensures SameShape(X, A0)
  {
    if k == 0 then A0 else RedStep(A0, RedIter(A0, k - 1))
  }

  /** `transitive_reduction(A0, LP)`: LP steps when LP is truthy and positive,
      none when it is negative, N when it is `None` or 0. */
  method TransitiveReduction(A0: Matrix, LP: Option<int>) returns (A: Matrix)
    requires Square(A0)
    ensures Truthy(LP) && LP.value > 0 ==> A == RedIter(A0, LP.value)
    ensures Truthy(LP) && LP.value < 0 ==> A == A0
    ensures !Truthy(LP) ==> A == RedIter(A0, |A0|)
  {
    var N := |A0|;
    A := A0;
    var maxPath := if Truthy(LP) then LP.value else N;
    var i := 0;
    while i < maxPath
      invariant 0 <= i && (i <= maxPath || i == 0)
      invariant A == RedIter(A0, i)
      decreases maxPath - i
    {
      A := MatMul(A, A0);
      A := Sub(A0, A);
      A := Clamp01(A);
      i := i + 1;
    }
  }

  // ---------------------------------------------------------------------------
  // What a step keeps

  /** For a 0/1 input and a non-negative previous A, a step has an edge exactly
      where A0 has one and `(A . A0)` is 0, that is, where no l has
      `A[i][l] > 0` and an edge l -> j. */
  lemma RedStepEntry(A0: Matrix, X: Matrix, i: nat, j: nat)
    requires SameShape(X, A0) && Binary(A0) && Nonneg(X) && i < |A0| && j < |A0|
    ensures RedStep(A0, X)[i][j] == 1 <==> A0[i][j] == 1 && MatMul(X, A0)[i][j] == 0
    ensures RedStep(A0, X)[i][j] == 1 <==>
      A0[i][j] == 1 && !exists l :: 0 <= l < |A0| && X[i][l] > 0 && A0[l][j] > 0
  {
    MatMulPositive(X, A0, i, j);
  }

  /** For a 0/1 input every A is 0/1 and lies below A0: no edge is ever added. */
  lemma {:induction false} ReductionBelow(A0: Matrix, k: nat)
    requires Square(A0) && Binary(A0)
    ensures Binary(RedIter(A0, k)) && Below(RedIter(A0, k), A0)
  {
    if k > 0 {
      ReductionBelow(A0, k - 1);
      var X := RedIter(A0, k - 1);
      forall i, j | 0 <= i < |A0| && 0 <= j < |A0|
        ensures RedIter(A0, k)[i][j] <= A0[i][j]
      {
        RedStepEntry(A0, X, i, j);
      }
    }
  }

  /** Step k + 1 keeps an edge of a 0/1 input exactly when A after k steps does not
      extend to its target by one more edge of A0. */
  lemma ReductionEntry(A0: Matrix, k: nat, i: nat, j: nat)
    requires Square(A0) && Binary(A0) && i < |A0| && j < |A0|
    ensures RedIter(A0, k + 1)[i][j] == 1 <==>
      A0[i][j] == 1 && !exists l :: 0 <= l < |A0| && RedIter(A0, k)[i][l] == 1 && A0[l][j] == 1
  {
    ReductionBelow(A0, k);
    RedStepEntry(A0, RedIter(A0, k), i, j);
  }

  /** The first step keeps exactly the edges of a 0/1 input that no path of two
      edges implies. */
  lemma FirstReductionStep(A0: Matrix, i: nat, j: nat)
    requires Square(A0) && Binary(A0) && i < |A0| && j < |A0|
    ensures RedIter(A0, 1)[i][j] == 1 <==>
      A0[i][j] == 1 && !exists l :: 0 <= l < |A0| && A0[i][l] == 1 && A0[l][j] == 1
  {
    ReductionEntry(A0, 0, i, j);
  }

  // ---------------------------------------------------------------------------
  // Transitively closed inputs

  /** A0 is transitively closed: every two-edge path has its shortcut edge. */
  predicate Closed(A0: Matrix)
    requires Square(A0)
  {
    forall i, l, j :: 0 <= i < |A0| && 0 <= l < |A0| && 0 <= j < |A0| && A0[i][l] == 1 && A0[l][j] == 1 ==>
      A0[i][j] == 1
  }

  /** In a closed 0/1 input every walk has its shortcut edge. */
  lemma {:induction false} ClosedPowerEdge(A0: Matrix, k: nat, i: nat, j: nat)
    requires Square(A0) && Binary(A0) && Closed(A0) && k >= 1 && i < |A0| && j < |A0|
    requires MatPow(A0, k)[i][j] > 0
    ensures A0[i][j] == 1
  {
    if k > 1 {
      assert Nonneg(A0);
      MatPowNonneg(A0, k - 1);
      MatMulPositive(MatPow(A0, k - 1), A0, i, j);
      var l :| 0 <= l < |A0| && MatPow(A0, k - 1)[i][l] > 0 && A0[l][j] > 0;
      ClosedPowerEdge(A0, k - 1, i, l);
    }
  }

  /** In a closed 0/1 input a walk of two or more edges exists exactly when a
      two-edge path does. */
  lemma LongWalkIsTwoEdgePath(A0: Matrix, i: nat, j: nat)
    requires Square(A0) && Binary(A0) && Closed(A0) && i < |A0| && j < |A0|
    ensures (exists k :: k >= 2 && MatPow(A0, k)[i][j] > 0) <==>
      exists l :: 0 <= l < |A0| && A0[i][l] == 1 && A0[l][j] == 1
  {
    if exists k :: k >= 2 && MatPow(A0, k)[i][j] > 0 {
      var k :| k >= 2 && MatPow(A0, k)[i][j] > 0;
      LongWalkShortens(A0, k, i, j);
    }
    if exists l :: 0 <= l < |A0| && A0[i][l] == 1 && A0[l][j] == 1 {
      TwoEdgePathIsWalk(A0, i, j);
    }
  }

  /** The last edge of a walk of k >= 2 edges in a closed input follows a shortcut
      edge from its start. */
  lemma LongWalkShortens(A0: Matrix, k: nat, i: nat, j: nat)
    requires Square(A0) && Binary(A0) && Closed(A0) && k >= 2 && i < |A0| && j < |A0|
    requires MatPow(A0, k)[i][j] > 0
    ensures exists l :: 0 <= l < |A0| && A0[i][l] == 1 && A0[l][j] == 1
  {
    assert Nonneg(A0);
    MatPowNonneg(A0, k - 1);
    MatMulPositive(MatPow(A0, k - 1), A0, i, j);
    var l :| 0 <= l < |A0| && MatPow(A0, k - 1)[i][l] > 0 && A0[l][j] > 0;
    ClosedPowerEdge(A0, k - 1, i, l);
  }

  /** A two-edge path is a walk of two edges. */
  lemma TwoEdgePathIsWalk(A0: Matrix, i: nat, j: nat)
    requires Square(A0) && Binary(A0) && i < |A0| && j < |A0|
    requires exists l :: 0 <= l < |A0| && A0[i][l] == 1 && A0[l][j] == 1
    ensures MatPow(A0, 2)[i][j] > 0
  {
    assert Nonneg(A0);
    MatMulPositive(MatPow(A0, 1), A0, i, j);
  }

  /** On a transitively closed 0/1 input the first step keeps exactly the edges
      that no walk of two or more edges implies: the transitive reduction. */
  lemma ClosedReductionStep(A0: Matrix, i: nat, j: nat)
    requires Square(A0) && Binary(A0) && Closed(A0) && i < |A0| && j < |A0|
    ensures RedIter(A0, 1)[i][j] == 1 <==>
      A0[i][j] == 1 && !exists k :: k >= 2 && MatPow(A0, k)[i][j] > 0
  {
    FirstReductionStep(A0, i, j);
    LongWalkIsTwoEdgePath(A0, i, j);
  }
}

/**
 * `causet_adj_matrix`: the adjacency matrix of a causal set, built from the
 * pairwise separations S and the coordinates R of N points. `A[i][j] = 1` when
 * point i is later than point j in the time coordinate `R[.][0]` and the pair is
 * timelike separated (`S[i][j] < 0`).
 *
 * Every edge goes strictly forward in time, so every power of A does too and,
 * counting the points earlier than a given one, `A^N` is the zero matrix: the
 * result is acyclic.
 */
module Causet {
  import opened Matrices

  /** S has N rows, each with at least the N entries the loops read (N is
      `S.shape[0]`), and each of the first N rows of R holds a time coordinate. */
  predicate WellFormed(S: seq<seq<real>>, R: seq<seq<real>>) {
    && (forall i :: 0 <= i < |S| ==> |S[i]| >= |S|)
    && |R| >= |S|
    && (forall i :: 0 <= i < |S| ==> |R[i]| >= 1)
  }

  /** The time coordinates `R[:, 0]` of the N points. */
  function Times(S: seq<seq<real>>, R: seq<seq<real>>): (T: seq<real>)
    requires WellFormed(S, R)
    ensures |T| == |S| && forall i :: 0 <= i < |S| ==> T[i] == R[i][0]
  {
    seq(|S|, i requires 0 <= i < |S| => R[i][0])
  }

  /** The matrix the nested loops fill in. */
  function CausetAdj(S: seq<seq<real>>, R: seq<seq<real>>): (A: Matrix)
    requires WellFormed(S, R)
    ensures Square(A) && |A| == |S| && Binary(A)
  {
    seq(|S|, i requires 0 <= i < |S| =>
      seq(|S|, j requires 0 <= j < |S| => if R[i][0] > R[j][0] && S[i][j] < 0.0 then 1 else 0))
  }

  /** `causet_adj_matrix(S, R)`: start from zeros and set `A[i, j] = 1` for each
      pair that is time-ordered and timelike. */
  method CausetAdjMatrix(S: seq<seq<real>>, R: seq<seq<real>>) returns (A: array2<int>)
    requires WellFormed(S, R)
    ensures fresh(A) && A.Length0 == |S| && A.Length1 == |S|
    ensures forall i, j :: 0 <= i < |S| && 0 <= j < |S| ==> A[i, j] == CausetAdj(S, R)[i][j]
  {
    var N := |S|;
    A := new int[N, N]((i, j) => 0);
    for i := 0 to N
      invariant forall r, c :: 0 <= r < N && 0 <= c < N ==>
        A[r, c] == if r < i then CausetAdj(S, R)[r][c] else 0
    {
      for j := 0 to N
        invariant forall r, c :: 0 <= r < N && 0 <= c < N ==>
          A[r, c] == if r < i || (r == i && c < j) then CausetAdj(S, R)[r][c] else 0
      {
        if R[i][0] > R[j][0] {
          if S[i][j] < 0.0 {
            A[i, j] := 1;
          }
        }
      }
    }
  }

  // ---------------------------------------------------------------------------
  // Edges

  /** An edge i -> j exists exactly when i is later than j and the pair is
      timelike; so the diagonal is zero and no pair has edges both ways. */
  lemma CausetEdges(S: seq<seq<real>>, R: seq<seq<real>>, i: nat, j: nat)
    requires WellFormed(S, R) && i < |S| && j < |S|
    ensures CausetAdj(S, R)[i][j] == 1 <==> R[i][0] > R[j][0] && S[i][j] < 0.0
    ensures CausetAdj(S, R)[i][i] == 0
    ensures !(CausetAdj(S, R)[i][j] == 1 && CausetAdj(S, R)[j][i] == 1)
  {
  }

  // ---------------------------------------------------------------------------
  // Acyclicity

  /** The number of the first m time coordinates strictly below t. */
  function Earlier(T: seq<real>, m: nat, t: real): (n: nat)
    requires m <= |T|
    ensures n <= m
  {
    if m == 0 then 0 else Earlier(T, m - 1, t) + (if T[m - 1] < t then 1 else 0)
  }

  /** A later time has more points before it; strictly more once the earlier
      point itself is counted. */
  lemma {:induction false} EarlierGrows(T: seq<real>, m: nat, x: nat, t: real)
    requires m <= |T| && x < |T| && T[x] < t
    ensures Earlier(T, m, T[x]) + (if x < m then 1 else 0) <= Earlier(T, m, t)
  {
    if m > 0 {
      EarlierGrows(T, m - 1, x, t);
    }
  }

  /** A point is not earlier than itself, so at most m - 1 of the first m points
      are earlier than one of them. */
  lemma {:induction false} EarlierBelowSelf(T: seq<real>, m: nat, x: nat)
    requires x < m <= |T|
    ensures Earlier(T, m, T[x]) <= m - 1
  {
    if m - 1 > x {
      EarlierBelowSelf(T, m - 1, x);
    }
  }

  /** A positive entry of `A^k` joins a later point i to an earlier point j, and
      at least k points, j included, have a time in `[R[j][0], R[i][0])`. */
  lemma {:induction false} PowerGoesForward(S: seq<seq<real>>, R: seq<seq<real>>, k: nat, i: nat, j: nat)
    requires WellFormed(S, R) && k >= 1 && i < |S| && j < |S|
    requires MatPow(CausetAdj(S, R), k)[i][j] > 0
    ensures R[i][0] > R[j][0]
    ensures Earlier(Times(S, R), |S|, R[j][0]) + k <= Earlier(Times(S, R), |S|, R[i][0])
  {
    var A := CausetAdj(S, R);
    var T := Times(S, R);
    if k == 1 {
      EarlierGrows(T, |S|, j, T[i]);
    } else {
      var P := MatPow(A, k - 1);
      MatPowNonneg(A, k - 1);
      MatMulPositive(P, A, i, j);
      var l :| 0 <= l < |A| && P[i][l] > 0 && A[l][j] > 0;
      PowerGoesForward(S, R, k - 1, i, l);
      EarlierGrows(T, |S|, j, T[l]);
    }
  }

  /** The N-th power of the adjacency matrix of N points is zero: every path has
      fewer than N edges. */
  lemma CausetNilpotent(S: seq<seq<real>>, R: seq<seq<real>>)
    requires WellFormed(S, R) && |S| >= 1
    ensures Nonneg(CausetAdj(S, R))
    ensures IsZero(MatPow(CausetAdj(S, R), |S|))
  {
    var A := CausetAdj(S, R);
    var T := Times(S, R);
    MatPowNonneg(A, |S|);
    forall i, j | 0 <= i < |S| && 0 <= j < |S|
      ensures MatPow(A, |S|)[i][j] == 0
    {
      if MatPow(A, |S|)[i][j] > 0 {
        PowerGoesForward(S, R, |S|, i, j);
        EarlierBelowSelf(T, |S|, i);
      }
    }
  }
}

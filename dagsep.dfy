/**
 * `algorithms/dagsep.py`: `longest_path_matrix` without a default cutoff (a falsy
 * `dmax` means none), `naive_spacelike_matrix` without landmarks, and the
 * two-link estimator `twolink_spacelike_matrix`.
 */
module DagSep {
  import opened Wrappers
  import opened Matrices
  import opened LongestPath
  import opened Spacelike

  /** The cutoff the counter is compared with (`if dmax and (i == dmax)`): dmax when
      it is truthy, otherwise 0, which the counter never reaches. */
  function Cutoff(dmax: Option<int>): (cutoff: int)
    ensures Truthy(dmax) ==> cutoff == dmax.value
    ensures cutoff < 2 || Truthy(dmax)
  {
    if Truthy(dmax) then dmax.value else 0
  }

  /** `longest_path_matrix(A, dmax)`. The loop must end: dmax is at least 2, or some
      power of A has no positive sum (an acyclic A, see NilpotentTerminates). */
  method LongestPathMatrix(A: Matrix, dmax: Option<int>) returns (LP: Matrix, ghost m: nat)
    requires Square(A) && Terminates(A, Cutoff(dmax))
    ensures Halted(A, Cutoff(dmax), m)
    ensures LP == LPUpTo(A, m)
  {
    var cutoff := Cutoff(dmax);
    LP, m := PowerLoop(A, cutoff);
  }

  /** `naive_spacelike_matrix(LP, dmax)`: every pair i > j whose entry is still 0
      gets the square of its naive distance, on both sides; the result is the one
      of `matrix_utils` without landmarks. */
  method NaiveSpacelikeMatrix(LP: Matrix, dmax: Option<int>) returns (ds2: array2<int>)
    requires Square(LP) && (dmax.Some? || |LP| > 0)
    ensures fresh(ds2) && ds2.Length0 == |LP| && ds2.Length1 == |LP|
    ensures forall r, c :: 0 <= r < |LP| && 0 <= c < |LP| ==>
      ds2[r, c] == NaiveEntry(LP, DefaultDmax(LP, dmax), None, r, c)
  {
    var d := DefaultDmax(LP, dmax);
    var N := |LP|;
    ghost var Final := NaiveMatrix(LP, d, None);
    ghost var Init := TimelikeMatrix(LP);
    ds2 := new int[N, N]((r, c) requires 0 <= r < N && 0 <= c < N => Timelike(LP, r, c));
    for i := 0 to N
      invariant Progress(ds2, N, Final, Init, i, 0)
    {
      for j := 0 to N
        invariant Progress(ds2, N, Final, Init, i, Min(j, i))
      {
        if i > j {
          NaiveAtPair(LP, d, None, i, j);
          NaivePair(ds2, LP, d, Final, Init, i, j);
        }
      }
      NaiveSkipped(LP, d, None, i, i);
      NextRow(ds2, N, Final, Init, i, i);
    }
  }

  /** `twolink_spacelike_matrix(LP, dmax)`: every pair i > j whose entry is still 0
      gets the square of its two-link average, on both sides. */
  method TwolinkSpacelikeMatrix(LP: Matrix, dmax: Option<int>) returns (ds2: array2<real>)
    requires Square(LP) && (dmax.Some? || |LP| > 0)
    ensures fresh(ds2) && ds2.Length0 == |LP| && ds2.Length1 == |LP|
    ensures forall r, c :: 0 <= r < |LP| && 0 <= c < |LP| ==>
      ds2[r, c] == TwoLinkEntry(LP, DefaultDmax(LP, dmax), r, c)
  {
    var d := DefaultDmax(LP, dmax);
    var N := |LP|;
    ghost var Final := TwoLinkMatrix(LP, d);
    ghost var Init := TimelikeReals(LP);
    ds2 := new real[N, N]((r, c) requires 0 <= r < N && 0 <= c < N => Timelike(LP, r, c) as real);
    for i := 0 to N
      invariant Progress(ds2, N, Final, Init, i, 0)
    {
      for j := 0 to N
        invariant Progress(ds2, N, Final, Init, i, Min(j, i))
      {
        if i > j {
          TwoLinkAtPair(LP, d, i, j);
          TwoLinkPair(ds2, LP, d, Final, Init, i, j);
        }
      }
      TwoLinkDiagonal(LP, d, i);
      NextRow(ds2, N, Final, Init, i, i);
    }
  }
}

/**
 * The spacelike separation estimators shared by `naive_spacelike_matrix` (in
 * both files) and `twolink_spacelike_matrix`: the initial timelike matrix
 * `-(LP + LP^T)^2`, the per-pair distances, and which pairs get one.
 *
 * Under the longest-path convention (`LP[x][i] > 0` when there is a path from
 * i to x, so x is later than i), the column support of a pair i, j (nodes x
 * with `LP[x][i] != 0` and `LP[x][j] != 0`) is their common future, and the row
 * support (nodes x with `LP[i][x] != 0` and `LP[j][x] != 0`) their common past.
 * The model follows the indices, whatever the source's variable names say.
 */
module Spacelike {
  import opened Wrappers
  import opened Matrices

  /** All elements are indices below n. */
  predicate IndicesBelow(xs: seq<nat>, n: nat) {
    forall t :: 0 <= t < |xs| ==> xs[t] < n
  }

  /** `np.intersect1d(np.flatnonzero(u), np.flatnonzero(v))` over the first n
      positions: the positions where both vectors are nonzero, in ascending order. */
  function CommonNonzero(u: seq<int>, v: seq<int>, n: nat): (xs: seq<nat>)
    requires n <= |u| && n <= |v|
    ensures IndicesBelow(xs, n)
  {
    if n == 0 then []
    else CommonNonzero(u, v, n - 1) + (if u[n - 1] != 0 && v[n - 1] != 0 then [n - 1] else [])
  }

  /** `np.intersect1d(np.where(u == 1)[0], np.where(v == 1)[0])` over the first n
      positions. */
  function CommonOnes(u: seq<int>, v: seq<int>, n: nat): (xs: seq<nat>)
    requires n <= |u| && n <= |v|
    ensures IndicesBelow(xs, n)
  {
    if n == 0 then []
    else CommonOnes(u, v, n - 1) + (if u[n - 1] == 1 && v[n - 1] == 1 then [n - 1] else [])
  }

  /** The column support of i and j: `intersect1d(flatnonzero(LP[:,i]), flatnonzero(LP[:,j]))`. */
  function ColumnSupport(LP: Matrix, i: nat, j: nat): (xs: seq<nat>)
    requires Square(LP) && i < |LP| && j < |LP|
    ensures IndicesBelow(xs, |LP|)
  {
    CommonNonzero(Col(LP, i), Col(LP, j), |LP|)
  }

  /** The row support of i and j: `intersect1d(flatnonzero(LP[i,:]), flatnonzero(LP[j,:]))`. */
  function RowSupport(LP: Matrix, i: nat, j: nat): (xs: seq<nat>)
    requires Square(LP) && i < |LP| && j < |LP|
    ensures IndicesBelow(xs, |LP|)
  {
    CommonNonzero(LP[i], LP[j], |LP|)
  }

  /** The two-link set of i and j: nodes x with `LP[x][i] == 1` and `LP[x][j] == 1`. */
  function TwoLinkSupport(LP: Matrix, i: nat, j: nat): (xs: seq<nat>)
    requires Square(LP) && i < |LP| && j < |LP|
    ensures IndicesBelow(xs, |LP|)
  {
    CommonOnes(Col(LP, i), Col(LP, j), |LP|)
  }

  /** The running minimum `sp = min(sp, LP[w][z])` over the positive `LP[w][z]`,
      z running through zs in order, starting from s. */
  function RowMin(LP: Matrix, w: nat, zs: seq<nat>, s: int): int
    requires Square(LP) && w < |LP| && IndicesBelow(zs, |LP|)
  {
    if zs == [] then s
    else
      var t := RowMin(LP, w, zs[..|zs| - 1], s);
      var wz := LP[w][zs[|zs| - 1]];
      if wz > 0 then Min(t, wz) else t
  }

  /** The same running minimum carried over every w in ws in order, then every z. */
  function BridgeMin(LP: Matrix, ws: seq<nat>, zs: seq<nat>, s: int): int
    requires Square(LP) && IndicesBelow(ws, |LP|) && IndicesBelow(zs, |LP|)
  {
    if ws == [] then s
    else RowMin(LP, ws[|ws| - 1], zs, BridgeMin(LP, ws[..|ws| - 1], zs, s))
  }

  /** The naive estimate `sp_dist` for the pair i, j: dmax when either support is
      empty, otherwise the running minimum from dmax over all (w, z) in
      column support x row support. */
  function NaiveDist(LP: Matrix, i: nat, j: nat, dmax: int): int
    requires Square(LP) && i < |LP| && j < |LP|
  {
    var ws := ColumnSupport(LP, i, j);
    var zs := RowSupport(LP, i, j);
    if |zs| > 0 && |ws| > 0 then BridgeMin(LP, ws, zs, dmax) else dmax
  }

  /** The sum `c` of the per-w minima, each started afresh from dmax. */
  function TwoLinkSum(LP: Matrix, ws: seq<nat>, zs: seq<nat>, dmax: int): int
    requires Square(LP) && IndicesBelow(ws, |LP|) && IndicesBelow(zs, |LP|)
  {
    if ws == [] then 0
    else TwoLinkSum(LP, ws[..|ws| - 1], zs, dmax) + RowMin(LP, ws[|ws| - 1], zs, dmax)
  }

  /** The two-link estimate `av_sp_dist` for the pair i, j: the average of the per-w
      minima over the two-link set, each taken over the column support, or dmax
      when the two-link set is empty. */
  function TwoLinkDist(LP: Matrix, i: nat, j: nat, dmax: int): real
    requires Square(LP) && i < |LP| && j < |LP|
  {
    var ws := TwoLinkSupport(LP, i, j);
    var zs := ColumnSupport(LP, i, j);
    if |ws| > 0 then (TwoLinkSum(LP, ws, zs, dmax) as real) / (|ws| as real) else dmax as real
  }

  /** `dmax`, or `np.max(LP)` when it is `None` (numpy refuses an empty LP). */
  function DefaultDmax(LP: Matrix, dmax: Option<int>): int
    requires Square(LP) && (dmax.Some? || |LP| > 0)
  {
    if dmax.None? then MaxEntry(LP) else dmax.value
  }

  /** `ds2 = -(LP + LP^T)^2` at r, c. */
  function Timelike(LP: Matrix, r: nat, c: nat): int
    requires Square(LP) && r < |LP| && c < |LP|
  {
    -((LP[r][c] + LP[c][r]) * (LP[r][c] + LP[c][r]))
  }

  /** The pair r, c is visited by the naive loop of `matrix_utils`: with the larger
      index as i and the smaller as j, `j < i`, and `j < k` when k is truthy. */
  predicate Visited(k: Option<int>, r: nat, c: nat) {
    Min(r, c) < Max(r, c) && (Truthy(k) ==> Min(r, c) < k.value)
  }

  /** The final naive matrix at r, c: a visited pair whose timelike value is 0 gets
      `sp_dist^2`; every other entry keeps its timelike value. */
  function NaiveEntry(LP: Matrix, dmax: int, k: Option<int>, r: nat, c: nat): int
    requires Square(LP) && r < |LP| && c < |LP|
  {
    if Visited(k, r, c) && Timelike(LP, r, c) == 0 then
      var sp := NaiveDist(LP, Max(r, c), Min(r, c), dmax);
      sp * sp
    else
      Timelike(LP, r, c)
  }

  /** The value the two-link loop leaves at the pair i >= j (and at j, i): a pair
      of distinct points whose timelike value is 0 gets `av_sp_dist^2`; every other
      pair keeps its timelike value. */
  function TwoLinkPairValue(LP: Matrix, dmax: int, i: nat, j: nat): real
    requires Square(LP) && i < |LP| && j < |LP|
  {
    if i != j && Timelike(LP, i, j) == 0 then
      var av := TwoLinkDist(LP, i, j, dmax);
      av * av
    else
      Timelike(LP, i, j) as real
  }

  /** The final two-link matrix at r, c: the value of the pair, larger index first. */
  function TwoLinkEntry(LP: Matrix, dmax: int, r: nat, c: nat): real
    requires Square(LP) && r < |LP| && c < |LP|
  {
    TwoLinkPairValue(LP, dmax, Max(r, c), Min(r, c))
  }

  // ---------------------------------------------------------------------------
  // The per-pair loops

  /** The `for w in w_list: for z in z_list` loop of the naive estimator
      (with its `else` branch), for the pair i, j. */
  method NaiveDistance(LP: Matrix, i: nat, j: nat, dmax: int) returns (sp: int)
    requires Square(LP) && i < |LP| && j < |LP|
    ensures sp == NaiveDist(LP, i, j, dmax)
  {
    var wList := ColumnSupport(LP, i, j);
    var zList := RowSupport(LP, i, j);
    if |zList| > 0 && |wList| > 0 {
      sp := dmax;
      for a := 0 to |wList|
        invariant sp == BridgeMin(LP, wList[..a], zList, dmax)
      {
        var w := wList[a];
        ghost var before := sp;
        for b := 0 to |zList|
          invariant sp == RowMin(LP, w, zList[..b], before)
        {
          var z := zList[b];
          var wz := LP[w][z];
          if wz > 0 {
            sp := Min(sp, wz);
          }
          assert zList[..b + 1][..b] == zList[..b];
        }
        assert zList[..|zList|] == zList;
        assert wList[..a + 1][..a] == wList[..a];
      }
      assert wList[..|wList|] == wList;
    } else {
      sp := dmax;
    }
  }

  /** The loop over the two-link set of the two-link estimator, for the pair i, j. */
  method TwoLinkDistance(LP: Matrix, i: nat, j: nat, dmax: int) returns (av: real)
    requires Square(LP) && i < |LP| && j < |LP|
    ensures av == TwoLinkDist(LP, i, j, dmax)
  {
    var twoLinkFuture := TwoLinkSupport(LP, i, j);
    var linkPast := ColumnSupport(LP, i, j);
    if |twoLinkFuture| > 0 {
      var c := 0;
      for a := 0 to |twoLinkFuture|
        invariant c == TwoLinkSum(LP, twoLinkFuture[..a], linkPast, dmax)
      {
        var w := twoLinkFuture[a];
        var sp := dmax;
        for b := 0 to |linkPast|
          invariant sp == RowMin(LP, w, linkPast[..b], dmax)
        {
          var z := linkPast[b];
          var wz := LP[w][z];
          if wz > 0 {
            sp := Min(sp, wz);
          }
          assert linkPast[..b + 1][..b] == linkPast[..b];
        }
        assert linkPast[..|linkPast|] == linkPast;
        c := c + sp;
        assert twoLinkFuture[..a + 1][..a] == twoLinkFuture[..a];
      }
      assert twoLinkFuture[..|twoLinkFuture|] == twoLinkFuture;
      av := (c as real) / (|twoLinkFuture| as real);
    } else {
      av := dmax as real;
    }
  }

  // ---------------------------------------------------------------------------
  // The supports

  /** The common-nonzero list holds exactly the positions below n where both
      vectors are nonzero, in strictly ascending order. */
  lemma {:induction false} CommonNonzeroMembers(u: seq<int>, v: seq<int>, n: nat)
    requires n <= |u| && n <= |v|
    ensures forall x: nat :: x in CommonNonzero(u, v, n) <==> x < n && u[x] != 0 && v[x] != 0
    ensures forall s, t :: 0 <= s < t < |CommonNonzero(u, v, n)| ==>
      CommonNonzero(u, v, n)[s] < CommonNonzero(u, v, n)[t]
  {
    if n > 0 {
      CommonNonzeroMembers(u, v, n - 1);
    }
  }

  /** The common-ones list holds exactly the positions below n where both vectors
      are 1, in strictly ascending order. */
  lemma {:induction false} CommonOnesMembers(u: seq<int>, v: seq<int>, n: nat)
    requires n <= |u| && n <= |v|
    ensures forall x: nat :: x in CommonOnes(u, v, n) <==> x < n && u[x] == 1 && v[x] == 1
    ensures forall s, t :: 0 <= s < t < |CommonOnes(u, v, n)| ==>
      CommonOnes(u, v, n)[s] < CommonOnes(u, v, n)[t]
  {
    if n > 0 {
      CommonOnesMembers(u, v, n - 1);
    }
  }

  /** Membership in the three supports, by index. */
  lemma SupportMembers(LP: Matrix, i: nat, j: nat)
    requires Square(LP) && i < |LP| && j < |LP|
    ensures forall x: nat :: x in ColumnSupport(LP, i, j) <==> x < |LP| && LP[x][i] != 0 && LP[x][j] != 0
    ensures forall x: nat :: x in RowSupport(LP, i, j) <==> x < |LP| && LP[i][x] != 0 && LP[j][x] != 0
    ensures forall x: nat :: x in TwoLinkSupport(LP, i, j) <==> x < |LP| && LP[x][i] == 1 && LP[x][j] == 1
  {
    CommonNonzeroMembers(Col(LP, i), Col(LP, j), |LP|);
    CommonNonzeroMembers(LP[i], LP[j], |LP|);
    CommonOnesMembers(Col(LP, i), Col(LP, j), |LP|);
  }

  /** The two-link set is part of the column support (`two_link_future` within
      `link_past`). */
  lemma TwoLinkWithinColumnSupport(LP: Matrix, i: nat, j: nat)
    requires Square(LP) && i < |LP| && j < |LP|
    ensures forall x :: x in TwoLinkSupport(LP, i, j) ==> x in ColumnSupport(LP, i, j)
  {
    SupportMembers(LP, i, j);
  }

  // ---------------------------------------------------------------------------
  // The running minima

  /** RowMin is the minimum of s and the positive `LP[w][z]`, z in zs. */
  lemma {:induction false} RowMinIsMinimum(LP: Matrix, w: nat, zs: seq<nat>, s: int)
    requires Square(LP) && w < |LP| && IndicesBelow(zs, |LP|)
    ensures RowMin(LP, w, zs, s) <= s
    ensures forall t :: 0 <= t < |zs| && LP[w][zs[t]] > 0 ==> RowMin(LP, w, zs, s) <= LP[w][zs[t]]
    ensures RowMin(LP, w, zs, s) == s ||
      exists t :: 0 <= t < |zs| && LP[w][zs[t]] > 0 && RowMin(LP, w, zs, s) == LP[w][zs[t]]
  {
    if zs != [] {
      var init := zs[..|zs| - 1];
      RowMinIsMinimum(LP, w, init, s);
      forall t | 0 <= t < |init|
        ensures init[t] == zs[t]
      {
      }
    }
  }

  /** RowMin never exceeds its start s, and stays positive when s is. */
  lemma {:induction false} RowMinBounds(LP: Matrix, w: nat, zs: seq<nat>, s: int)
    requires Square(LP) && w < |LP| && IndicesBelow(zs, |LP|)
    ensures RowMin(LP, w, zs, s) <= s
    ensures s > 0 ==> RowMin(LP, w, zs, s) >= 1
  {
    if zs != [] {
      RowMinBounds(LP, w, zs[..|zs| - 1], s);
    }
  }

  /** BridgeMin is the minimum of s and the positive `LP[w][z]`, w in ws and z in zs. */
  lemma {:induction false} BridgeMinIsMinimum(LP: Matrix, ws: seq<nat>, zs: seq<nat>, s: int)
    requires Square(LP) && IndicesBelow(ws, |LP|) && IndicesBelow(zs, |LP|)
    ensures BridgeMin(LP, ws, zs, s) <= s
    ensures forall a, b :: 0 <= a < |ws| && 0 <= b < |zs| && LP[ws[a]][zs[b]] > 0 ==>
      BridgeMin(LP, ws, zs, s) <= LP[ws[a]][zs[b]]
    ensures BridgeMin(LP, ws, zs, s) == s ||
      exists a, b :: 0 <= a < |ws| && 0 <= b < |zs| && LP[ws[a]][zs[b]] > 0 &&
        BridgeMin(LP, ws, zs, s) == LP[ws[a]][zs[b]]
  {
    if ws != [] {
      var init := ws[..|ws| - 1];
      var w := ws[|ws| - 1];
      var prev := BridgeMin(LP, init, zs, s);
      BridgeMinIsMinimum(LP, init, zs, s);
      RowMinIsMinimum(LP, w, zs, prev);
      assert forall a :: 0 <= a < |init| ==> init[a] == ws[a];
      var m := BridgeMin(LP, ws, zs, s);
      if m != s {
        if m == prev {
          var a, b :| 0 <= a < |init| && 0 <= b < |zs| && LP[init[a]][zs[b]] > 0 && prev == LP[init[a]][zs[b]];
          assert ws[a] == init[a];
        } else {
          var b :| 0 <= b < |zs| && LP[w][zs[b]] > 0 && m == LP[w][zs[b]];
          assert ws[|ws| - 1] == w;
        }
      }
    }
  }

  /** The naive `sp_dist` for i, j is the minimum of dmax and the positive
      `LP[w][z]` over w in the column support and z in the row support (dmax when
      either is empty); it never exceeds dmax and is positive when dmax is. */
  lemma NaiveDistIsMinimum(LP: Matrix, i: nat, j: nat, dmax: int)
    requires Square(LP) && i < |LP| && j < |LP|
    ensures NaiveDist(LP, i, j, dmax) <= dmax
    ensures forall w, z ::
      (0 <= w < |LP| && 0 <= z < |LP| && LP[w][i] != 0 && LP[w][j] != 0 &&
       LP[i][z] != 0 && LP[j][z] != 0 && LP[w][z] > 0) ==> NaiveDist(LP, i, j, dmax) <= LP[w][z]
    ensures NaiveDist(LP, i, j, dmax) == dmax ||
      exists w, z :: 0 <= w < |LP| && 0 <= z < |LP| && LP[w][i] != 0 && LP[w][j] != 0 &&
        LP[i][z] != 0 && LP[j][z] != 0 && LP[w][z] > 0 && NaiveDist(LP, i, j, dmax) == LP[w][z]
    ensures dmax > 0 ==> NaiveDist(LP, i, j, dmax) > 0
  {
    var ws := ColumnSupport(LP, i, j);
    var zs := RowSupport(LP, i, j);
    var sp := NaiveDist(LP, i, j, dmax);
    SupportMembers(LP, i, j);
    if |zs| > 0 && |ws| > 0 {
      BridgeMinIsMinimum(LP, ws, zs, dmax);
      forall w, z | 0 <= w < |LP| && 0 <= z < |LP| && LP[w][i] != 0 && LP[w][j] != 0 &&
        LP[i][z] != 0 && LP[j][z] != 0 && LP[w][z] > 0
        ensures sp <= LP[w][z]
      {
        assert w in ws && z in zs;
        var a :| 0 <= a < |ws| && ws[a] == w;
        var b :| 0 <= b < |zs| && zs[b] == z;
      }
      if sp != dmax {
        var a, b :| 0 <= a < |ws| && 0 <= b < |zs| && LP[ws[a]][zs[b]] > 0 && sp == LP[ws[a]][zs[b]];
        assert ws[a] in ws && zs[b] in zs;
      }
    }
  }

  /** Each per-w minimum of the two-link estimator lies in [1, dmax] when dmax is
      positive, so their sum over ws lies in [|ws|, |ws| * dmax]; for any dmax it is
      at most |ws| * dmax. */
  lemma {:induction false} TwoLinkSumBounds(LP: Matrix, ws: seq<nat>, zs: seq<nat>, dmax: int)
    requires Square(LP) && IndicesBelow(ws, |LP|) && IndicesBelow(zs, |LP|)
    ensures TwoLinkSum(LP, ws, zs, dmax) <= |ws| * dmax
    ensures dmax > 0 ==> TwoLinkSum(LP, ws, zs, dmax) >= |ws|
  {
    if ws != [] {
      var front, w := ws[..|ws| - 1], ws[|ws| - 1];
      TwoLinkSumBounds(LP, front, zs, dmax);
      RowMinBounds(LP, w, zs, dmax);
      MulSucc(|front|, dmax);
    }
  }

  lemma MulSucc(n: nat, d: int)
    ensures (n + 1) * d == n * d + d
  {
  }

  /** The two-link `av_sp_dist` never exceeds dmax, and is at least 1 when dmax is
      positive. */
  lemma TwoLinkDistBounds(LP: Matrix, i: nat, j: nat, dmax: int)
    requires Square(LP) && i < |LP| && j < |LP|
    ensures TwoLinkDist(LP, i, j, dmax) <= dmax as real
    ensures dmax > 0 ==> TwoLinkDist(LP, i, j, dmax) >= 1.0
  {
    var ws := TwoLinkSupport(LP, i, j);
    var zs := ColumnSupport(LP, i, j);
    if |ws| > 0 {
      var c := TwoLinkSum(LP, ws, zs, dmax);
      var n := |ws|;
      TwoLinkSumBounds(LP, ws, zs, dmax);
      AverageBounds(c, n, dmax);
    }
  }

  /** c <= n * d gives c / n <= d, and c >= n gives c / n >= 1, for n > 0. */
  lemma AverageBounds(c: int, n: nat, d: int)
    requires n > 0 && c <= n * d
    ensures (c as real) / (n as real) <= d as real
    ensures c >= n ==> (c as real) / (n as real) >= 1.0
  {
    var q := (c as real) / (n as real);
    var nr := n as real;
    assert (d as real) - q == ((d as real) * nr - (c as real)) / nr;
    assert nr >= 1.0;
    assert nr / nr == 1.0;
    assert q - 1.0 == (c as real) / nr - nr / nr == ((c as real) - nr) / nr;
  }

  // ---------------------------------------------------------------------------
  // The separation matrices, entry by entry

  /** The timelike value of a pair does not depend on its order. */
  lemma TimelikeSymmetric(LP: Matrix, r: nat, c: nat)
    requires Square(LP) && r < |LP| && c < |LP|
    ensures Timelike(LP, r, c) == Timelike(LP, c, r)
  {
    assert LP[r][c] + LP[c][r] == LP[c][r] + LP[r][c];
  }

  lemma SquareZero(x: int)
    ensures -(x * x) == 0 <==> x == 0
    ensures -(x * x) <= 0
  {
    if x != 0 {
      assert x * x > 0;
    }
  }

  /** 0 < x <= d gives 0 < x^2 <= d^2. */
  lemma SquareBounds(x: int, d: int)
    requires 0 < x <= d
    ensures 0 < x * x <= d * d
  {
    assert x * x <= d * x;
    assert d * x <= d * d;
  }

  /** 1 <= x <= d gives 1 <= x^2 <= d^2. */
  lemma RealSquareBounds(x: real, d: real)
    requires 1.0 <= x <= d
    ensures 1.0 <= x * x <= d * d
  {
    assert x <= x * x;
    assert x * x <= d * x;
    assert d * x <= d * d;
  }

  /** The naive matrix is symmetric. */
  lemma NaiveSymmetric(LP: Matrix, dmax: int, k: Option<int>, r: nat, c: nat)
    requires Square(LP) && r < |LP| && c < |LP|
    ensures NaiveEntry(LP, dmax, k, r, c) == NaiveEntry(LP, dmax, k, c, r)
  {
  }

  /** The naive matrix keeps `-(LP[r][c] + LP[c][r])^2` on the diagonal, on timelike
      pairs (`LP[r][c] + LP[c][r] != 0`) and on pairs the loop does not visit; every
      visited pair with `LP[r][c] + LP[c][r] == 0` gets `sp^2` for the naive `sp` of
      the pair (larger index first). */
  lemma NaiveEntryCases(LP: Matrix, dmax: int, k: Option<int>, r: nat, c: nat)
    requires Square(LP) && r < |LP| && c < |LP|
    ensures (r == c || LP[r][c] + LP[c][r] != 0 || !Visited(k, r, c)) ==>
      NaiveEntry(LP, dmax, k, r, c) == -((LP[r][c] + LP[c][r]) * (LP[r][c] + LP[c][r]))
    ensures (r != c && LP[r][c] + LP[c][r] == 0 && Visited(k, r, c)) ==>
      NaiveEntry(LP, dmax, k, r, c) == NaiveDist(LP, Max(r, c), Min(r, c), dmax) * NaiveDist(LP, Max(r, c), Min(r, c), dmax)
  {
    SquareZero(LP[r][c] + LP[c][r]);
  }

  /** A spacelike entry of the naive matrix lies in (0, dmax^2] when dmax > 0. */
  lemma NaiveEntryBounds(LP: Matrix, dmax: int, k: Option<int>, r: nat, c: nat)
    requires Square(LP) && r < |LP| && c < |LP| && dmax > 0
    requires r != c && LP[r][c] + LP[c][r] == 0 && Visited(k, r, c)
    ensures 0 < NaiveEntry(LP, dmax, k, r, c) <= dmax * dmax
  {
    NaiveEntryCases(LP, dmax, k, r, c);
    var sp := NaiveDist(LP, Max(r, c), Min(r, c), dmax);
    NaiveDistIsMinimum(LP, Max(r, c), Min(r, c), dmax);
    SquareBounds(sp, dmax);
  }

  /** For an acyclic longest-path matrix (non-negative, never both `LP[r][c]` and
      `LP[c][r]` positive), a timelike entry is `-LP[r][c]^2` and the diagonal is 0
      when LP's diagonal is. */
  lemma NaiveTimelikeOfAcyclic(LP: Matrix, dmax: int, k: Option<int>, r: nat, c: nat)
    requires Square(LP) && r < |LP| && c < |LP| && Nonneg(LP)
    requires LP[r][c] > 0 ==> LP[c][r] == 0
    ensures LP[r][c] > 0 ==> NaiveEntry(LP, dmax, k, r, c) == -(LP[r][c] * LP[r][c])
    ensures r == c && LP[r][r] == 0 ==> NaiveEntry(LP, dmax, k, r, c) == 0
  {
    NaiveEntryCases(LP, dmax, k, r, c);
  }

  /** Landmarks: k `None` or 0, or k >= N - 1, visits every pair, so the result is
      the unrestricted one; a pair with both indices at least k (k truthy) is not
      visited and keeps its timelike value. */
  lemma LandmarkCoverage(LP: Matrix, dmax: int, k: Option<int>, r: nat, c: nat)
    requires Square(LP) && r < |LP| && c < |LP|
    ensures !Truthy(k) || k.value >= |LP| - 1 ==>
      NaiveEntry(LP, dmax, k, r, c) == NaiveEntry(LP, dmax, None, r, c)
    ensures Truthy(k) && r >= k.value && c >= k.value ==>
      NaiveEntry(LP, dmax, k, r, c) == Timelike(LP, r, c)
  {
  }

  /** The two-link matrix is symmetric. */
  lemma TwoLinkSymmetric(LP: Matrix, dmax: int, r: nat, c: nat)
    requires Square(LP) && r < |LP| && c < |LP|
    ensures TwoLinkEntry(LP, dmax, r, c) == TwoLinkEntry(LP, dmax, c, r)
  {
    assert Max(c, r) == Max(r, c) && Min(c, r) == Min(r, c);
  }

  /** The two-link matrix keeps `-(LP[r][c] + LP[c][r])^2` on the diagonal and on
      timelike pairs; every other pair gets `av^2` for the two-link `av` of the pair
      (larger index first). */
  lemma TwoLinkEntryCases(LP: Matrix, dmax: int, r: nat, c: nat)
    requires Square(LP) && r < |LP| && c < |LP|
    ensures (r == c || LP[r][c] + LP[c][r] != 0) ==>
      TwoLinkEntry(LP, dmax, r, c) == -((LP[r][c] + LP[c][r]) * (LP[r][c] + LP[c][r])) as real
    ensures (r != c && LP[r][c] + LP[c][r] == 0) ==>
      TwoLinkEntry(LP, dmax, r, c) == TwoLinkDist(LP, Max(r, c), Min(r, c), dmax) * TwoLinkDist(LP, Max(r, c), Min(r, c), dmax)
  {
    var i, j := Max(r, c), Min(r, c);
    assert Timelike(LP, i, j) == Timelike(LP, r, c) by {
      TimelikeSymmetric(LP, r, c);
    }
    SquareZero(LP[r][c] + LP[c][r]);
  }

  /** A spacelike entry of the two-link matrix lies in [1, dmax^2] when dmax > 0. */
  lemma TwoLinkEntryBounds(LP: Matrix, dmax: int, r: nat, c: nat)
    requires Square(LP) && r < |LP| && c < |LP| && dmax > 0
    requires r != c && LP[r][c] + LP[c][r] == 0
    ensures 1.0 <= TwoLinkEntry(LP, dmax, r, c) <= (dmax * dmax) as real
  {
    assert Timelike(LP, Max(r, c), Min(r, c)) == 0 by {
      TimelikeSymmetric(LP, r, c);
      SquareZero(LP[r][c] + LP[c][r]);
    }
    TwoLinkPairBounds(LP, dmax, Max(r, c), Min(r, c));
  }

  /** The two-link value of a spacelike pair of distinct points lies in [1, dmax^2]
      when dmax > 0. */
  lemma TwoLinkPairBounds(LP: Matrix, dmax: int, i: nat, j: nat)
    requires Square(LP) && i < |LP| && j < |LP| && dmax > 0
    ensures i != j && Timelike(LP, i, j) == 0 ==>
      1.0 <= TwoLinkPairValue(LP, dmax, i, j) <= (dmax * dmax) as real
  {
    TwoLinkDistSquareBounds(LP, i, j, dmax);
  }

  /** The square of the two-link `av_sp_dist` lies in [1, dmax^2] when dmax > 0. */
  lemma TwoLinkDistSquareBounds(LP: Matrix, i: nat, j: nat, dmax: int)
    requires Square(LP) && i < |LP| && j < |LP| && dmax > 0
    ensures 1.0 <= TwoLinkDist(LP, i, j, dmax) * TwoLinkDist(LP, i, j, dmax) <= (dmax * dmax) as real
  {
    var av := TwoLinkDist(LP, i, j, dmax);
    TwoLinkDistBounds(LP, i, j, dmax);
    RealSquareBounds(av, dmax as real);
    assert (dmax * dmax) as real == (dmax as real) * (dmax as real);
  }

  // ---------------------------------------------------------------------------
  // The whole matrices, and the loops part-way through

  /** `-(LP + LP^T)^2`, the matrix both estimators start from. */
  function TimelikeMatrix(LP: Matrix): (M: Matrix)
    requires Square(LP)
    ensures SameShape(M, LP)
    ensures forall r, c :: 0 <= r < |LP| && 0 <= c < |LP| ==> M[r][c] == Timelike(LP, r, c)
  {
    seq(|LP|, r requires 0 <= r < |LP| => seq(|LP|, c requires 0 <= c < |LP| => Timelike(LP, r, c)))
  }

  /** `-(LP + LP^T)^2` as reals, the two-link estimator's starting matrix. */
  function TimelikeReals(LP: Matrix): (M: seq<seq<real>>)
    requires Square(LP)
    ensures |M| == |LP| && forall r :: 0 <= r < |LP| ==> |M[r]| == |LP|
    ensures forall r, c :: 0 <= r < |LP| && 0 <= c < |LP| ==> M[r][c] == Timelike(LP, r, c) as real
  {
    seq(|LP|, r requires 0 <= r < |LP| => seq(|LP|, c requires 0 <= c < |LP| => Timelike(LP, r, c) as real))
  }

  /** The final naive matrix. */
  function NaiveMatrix(LP: Matrix, dmax: int, k: Option<int>): (M: Matrix)
    requires Square(LP)
    ensures SameShape(M, LP)
    ensures forall r, c :: 0 <= r < |LP| && 0 <= c < |LP| ==> M[r][c] == NaiveEntry(LP, dmax, k, r, c)
  {
    seq(|LP|, r requires 0 <= r < |LP| => seq(|LP|, c requires 0 <= c < |LP| => NaiveEntry(LP, dmax, k, r, c)))
  }

  /** The final two-link matrix. */
  function TwoLinkMatrix(LP: Matrix, dmax: int): (M: seq<seq<real>>)
    requires Square(LP)
    ensures |M| == |LP| && forall r :: 0 <= r < |LP| ==> |M[r]| == |LP|
    ensures forall r, c :: 0 <= r < |LP| && 0 <= c < |LP| ==> M[r][c] == TwoLinkEntry(LP, dmax, r, c)
  {
    seq(|LP|, r requires 0 <= r < |LP| => seq(|LP|, c requires 0 <= c < |LP| => TwoLinkEntry(LP, dmax, r, c)))
  }

  /** The pair r, c comes before the pair (i, j) in the loops' order: its larger
      index is below i, or is i with the smaller index below j. */
  predicate Before(r: nat, c: nat, i: nat, j: nat) {
    Max(r, c) < i || (Max(r, c) == i && Min(r, c) < j)
  }

  /** The n x n matrix ds2 part-way through a pair loop: entries of pairs before
      (i, j) hold their final value, all others their initial value. */
  ghost predicate Progress<T>(ds2: array2<T>, n: nat, Final: seq<seq<T>>, Init: seq<seq<T>>, i: nat, j: nat)
    requires |Final| == n && |Init| == n
    requires forall r :: 0 <= r < n ==> |Final[r]| == n && |Init[r]| == n
    reads ds2
  {
    && ds2.Length0 == n && ds2.Length1 == n
    && forall r, c :: 0 <= r < n && 0 <= c < n ==>
      ds2[r, c] == if Before(r, c, i, j) then Final[r][c] else Init[r][c]
  }

  /** Writing the final value v of the pair (i, j), j < i, on both sides moves the
      loop on to the pair (i, j + 1). */
  method SetPair<T>(ds2: array2<T>, n: nat, ghost Final: seq<seq<T>>, ghost Init: seq<seq<T>>, i: nat, j: nat, v: T)
    requires |Final| == n && |Init| == n
    requires forall r :: 0 <= r < n ==> |Final[r]| == n && |Init[r]| == n
    requires j < i < n && Final[i][j] == v && Final[j][i] == v
    requires Progress(ds2, n, Final, Init, i, j)
    modifies ds2
    ensures Progress(ds2, n, Final, Init, i, j + 1)
  {
    ds2[i, j] := v;
    ds2[j, i] := v;
    forall r, c | 0 <= r < n && 0 <= c < n
      ensures ds2[r, c] == if Before(r, c, i, j + 1) then Final[r][c] else Init[r][c]
    {
      if !((r == i && c == j) || (r == j && c == i)) {
        assert ds2[r, c] == old(ds2[r, c]);
      }
    }
  }

  /** A pair (i, j), j < i, whose final value is its initial one needs no write. */
  lemma SkipPair<T>(ds2: array2<T>, n: nat, Final: seq<seq<T>>, Init: seq<seq<T>>, i: nat, j: nat)
    requires |Final| == n && |Init| == n
    requires forall r :: 0 <= r < n ==> |Final[r]| == n && |Init[r]| == n
    requires j < i < n && Final[i][j] == Init[i][j] && Final[j][i] == Init[j][i]
    requires Progress(ds2, n, Final, Init, i, j)
    ensures Progress(ds2, n, Final, Init, i, j + 1)
  {
  }

  /** Once the pairs of row i left unvisited, (i, c) with j <= c <= i, keep their
      initial value, the loop moves on to row i + 1. */
  lemma NextRow<T>(ds2: array2<T>, n: nat, Final: seq<seq<T>>, Init: seq<seq<T>>, i: nat, j: nat)
    requires |Final| == n && |Init| == n
    requires forall r :: 0 <= r < n ==> |Final[r]| == n && |Init[r]| == n
    requires i < n && Progress(ds2, n, Final, Init, i, j)
    requires forall c :: j <= c <= i ==> Final[i][c] == Init[i][c] && Final[c][i] == Init[c][i]
    ensures Progress(ds2, n, Final, Init, i + 1, 0)
  {
  }

  /** At a visited pair j < i, the naive matrix holds `sp^2` for the naive distance
      sp of (i, j) on both sides when the starting value is 0, and the starting
      value otherwise. */
  lemma NaiveAtPair(LP: Matrix, dmax: int, k: Option<int>, i: nat, j: nat)
    requires Square(LP) && j < i < |LP| && (Truthy(k) ==> j < k.value)
    ensures TimelikeMatrix(LP)[i][j] == 0 ==>
      NaiveMatrix(LP, dmax, k)[i][j] == NaiveDist(LP, i, j, dmax) * NaiveDist(LP, i, j, dmax) &&
      NaiveMatrix(LP, dmax, k)[j][i] == NaiveDist(LP, i, j, dmax) * NaiveDist(LP, i, j, dmax)
    ensures TimelikeMatrix(LP)[i][j] != 0 ==>
      NaiveMatrix(LP, dmax, k)[i][j] == TimelikeMatrix(LP)[i][j] &&
      NaiveMatrix(LP, dmax, k)[j][i] == TimelikeMatrix(LP)[j][i]
  {
    TimelikeSymmetric(LP, i, j);
  }

  /** The pairs of row i the naive loop skips (the diagonal, and smaller index at
      least k when k is truthy) keep their timelike value. */
  lemma NaiveSkipped(LP: Matrix, dmax: int, k: Option<int>, i: nat, c: nat)
    requires Square(LP) && c <= i < |LP|
    requires c == i || (Truthy(k) && k.value <= c)
    ensures NaiveEntry(LP, dmax, k, i, c) == Timelike(LP, i, c)
    ensures NaiveEntry(LP, dmax, k, c, i) == Timelike(LP, c, i)
  {
  }

  /** At a pair j < i, the two-link matrix holds `av^2` for the two-link average av of
      (i, j) on both sides when the starting value is 0, and the starting value
      otherwise. */
  lemma TwoLinkAtPair(LP: Matrix, dmax: int, i: nat, j: nat)
    requires Square(LP) && j < i < |LP|
    ensures TimelikeReals(LP)[i][j] == 0.0 ==>
      TwoLinkMatrix(LP, dmax)[i][j] == TwoLinkDist(LP, i, j, dmax) * TwoLinkDist(LP, i, j, dmax) &&
      TwoLinkMatrix(LP, dmax)[j][i] == TwoLinkDist(LP, i, j, dmax) * TwoLinkDist(LP, i, j, dmax)
    ensures TimelikeReals(LP)[i][j] != 0.0 ==>
      TwoLinkMatrix(LP, dmax)[i][j] == TimelikeReals(LP)[i][j] &&
      TwoLinkMatrix(LP, dmax)[j][i] == TimelikeReals(LP)[j][i]
  {
    TimelikeSymmetric(LP, i, j);
  }

  /** The diagonal of the two-link matrix keeps its timelike value. */
  lemma TwoLinkDiagonal(LP: Matrix, dmax: int, i: nat)
    requires Square(LP) && i < |LP|
    ensures TwoLinkEntry(LP, dmax, i, i) == Timelike(LP, i, i) as real
  {
  }

  /** The body of the inner naive loop at a visited pair j < i: a pair still at 0
      gets the square of its naive distance on both sides, any other keeps its
      value. */
  method NaivePair(ds2: array2<int>, LP: Matrix, d: int, ghost Final: Matrix, ghost Init: Matrix, i: nat, j: nat)
    requires Square(LP) && j < i < |LP|
    requires |Final| == |LP| && |Init| == |LP|
    requires forall r :: 0 <= r < |LP| ==> |Final[r]| == |LP| && |Init[r]| == |LP|
    requires Init[i][j] == 0 ==>
      Final[i][j] == NaiveDist(LP, i, j, d) * NaiveDist(LP, i, j, d) &&
      Final[j][i] == NaiveDist(LP, i, j, d) * NaiveDist(LP, i, j, d)
    requires Init[i][j] != 0 ==> Final[i][j] == Init[i][j] && Final[j][i] == Init[j][i]
    requires Progress(ds2, |LP|, Final, Init, i, j)
    modifies ds2
    ensures Progress(ds2, |LP|, Final, Init, i, j + 1)
  {
    if ds2[i, j] == 0 {
      var sp := NaiveDistance(LP, i, j, d);
      assert Init[i][j] == ds2[i, j] == 0;
      assert Final[i][j] == sp * sp;
      SetPair(ds2, |LP|, Final, Init, i, j, sp * sp);
    } else {
      SkipPair(ds2, |LP|, Final, Init, i, j);
    }
  }

  /** The body of the inner two-link loop at a pair j < i: a pair still at 0 gets
      the square of its two-link average on both sides, any other keeps its
      value. */
  method TwoLinkPair(ds2: array2<real>, LP: Matrix, d: int, ghost Final: seq<seq<real>>,
                     ghost Init: seq<seq<real>>, i: nat, j: nat)
    requires Square(LP) && j < i < |LP|
    requires |Final| == |LP| && |Init| == |LP|
    requires forall r :: 0 <= r < |LP| ==> |Final[r]| == |LP| && |Init[r]| == |LP|
    requires Init[i][j] == 0.0 ==>
      Final[i][j] == TwoLinkDist(LP, i, j, d) * TwoLinkDist(LP, i, j, d) &&
      Final[j][i] == TwoLinkDist(LP, i, j, d) * TwoLinkDist(LP, i, j, d)
    requires Init[i][j] != 0.0 ==> Final[i][j] == Init[i][j] && Final[j][i] == Init[j][i]
    requires Progress(ds2, |LP|, Final, Init, i, j)
    modifies ds2
    ensures Progress(ds2, |LP|, Final, Init, i, j + 1)
  {
    if ds2[i, j] == 0.0 {
      var av := TwoLinkDistance(LP, i, j, d);
      assert Init[i][j] == ds2[i, j] == 0.0;
      assert Final[i][j] == av * av;
      SetPair(ds2, |LP|, Final, Init, i, j, av * av);
    } else {
      SkipPair(ds2, |LP|, Final, Init, i, j);
    }
  }
}

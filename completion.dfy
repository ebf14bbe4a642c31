/**
 * `transitive_completion`: repeat `A := saturate(A . A0 + A0)` from `A := A0`
 * until a step leaves A unchanged. The step counter i starts at 0; the
 * `assert i < N` after each comparison makes the routine fail once the fixed
 * point has not been seen within steps 0..N-1 (for N = 0 it always fails).
 *
 * After t steps, A's positive entries are exactly the pairs joined by a walk of
 * 1..t+1 edges of A0; so a result is the transitive closure of A0. On every
 * non-empty 0/1 input, cyclic or not, step N-1 is a fixed point, so the routine
 * succeeds: the assertion cannot detect a cycle.
 */
module Completion {
  import opened Wrappers
  import opened Matrices

  /** One step: `A = np.dot(A, A0); A += A0; A[A > 1] = 1`. */
  function Step(A0: Matrix, X: Matrix): (Y: Matrix)
    requires SameShape(X, A0)
    ensures SameShape(Y, A0)
  {
    Sat(Add(MatMul(X, A0), A0))
  }

  /** A after t steps. */
  function Iter(A0: Matrix, t: nat): (X: Matrix)
    requires Square(A0)
    ensures SameShape(X, A0)
  {
    if t == 0 then A0 else Step(A0, Iter(A0, t - 1))
  }

  /** Step s reproduces its input: `np.array_equal(A_old, A)`. */
  predicate Fixed(A0: Matrix, s: nat)
    requires Square(A0)
  {
    Iter(A0, s + 1) == Iter(A0, s)
  }

  const TooManySteps := "ERROR - Transitive Completion required more than N steps"

  /** The outcome of the loop from counter t on, with A = Iter(A0, t). */
  function CompletionFrom(A0: Matrix, t: nat): (r: Result<Matrix>)
    requires Square(A0)
    decreases |A0| - t
    ensures r.Ok? ==> SameShape(r.value, A0)
  {
    if t >= |A0| then Failure(TooManySteps)
    else if Fixed(A0, t) then Ok(Iter(A0, t + 1))
    else CompletionFrom(A0, t + 1)
  }

  function Completion(A0: Matrix): (r: Result<Matrix>)
    requires Square(A0)
    ensures r.Ok? ==> SameShape(r.value, A0)
  {
    CompletionFrom(A0, 0)
  }

  /** `transitive_completion(A0)`, the `assert` failing as `Failure`. */
  method TransitiveCompletion(A0: Matrix) returns (r: Result<Matrix>)
    requires Square(A0)
    ensures r == Completion(A0)
  {
    var N := |A0|;
    var A := A0;
    var diff := true;
    var i := 0;
    while diff
      invariant i <= N
      invariant diff ==> A == Iter(A0, i) && CompletionFrom(A0, i) == Completion(A0)
      invariant !diff ==> Completion(A0) == Ok(A)
      decreases N - i
    {
      var previous := A;
      A := MatMul(A, A0);
      A := Add(A, A0);
      A := Sat(A);
      if previous == A {
        diff := false;
      }
      if !(i < N) {
        return Failure(TooManySteps);
      }
      i := i + 1;
    }
    return Ok(A);
  }

  // ---------------------------------------------------------------------------
  // When it succeeds, and with what

  /** No step q with t <= q < s reproduces its input. */
  predicate NoneFixed(A0: Matrix, t: nat, s: nat)
    requires Square(A0)
    decreases s - t
  {
    t >= s || (!Fixed(A0, t) && NoneFixed(A0, t + 1, s))
  }

  /** NoneFixed rules out every step in between. */
  lemma {:induction false} NoneFixedBetween(A0: Matrix, t: nat, s: nat, q: nat)
    requires Square(A0) && NoneFixed(A0, t, s) && t <= q < s
    decreases s - t
    ensures !Fixed(A0, q)
  {
    if t < q {
      NoneFixedBetween(A0, t + 1, s, q);
    }
  }

  /** Step s is the first step from counter t on that reproduces its input. */
  predicate FirstFixed(A0: Matrix, t: nat, s: nat)
    requires Square(A0)
  {
    t <= s < |A0| && Fixed(A0, s) && NoneFixed(A0, t, s)
  }

  /** From counter t on, the routine fails only with the assertion's message. */
  lemma {:induction false} CompletionFromFailure(A0: Matrix, t: nat)
    requires Square(A0)
    decreases |A0| - t
    ensures CompletionFrom(A0, t).Failure? ==> CompletionFrom(A0, t).message == TooManySteps
  {
    if t < |A0| && !Fixed(A0, t) {
      CompletionFromFailure(A0, t + 1);
    }
  }

  /** From counter t on, a success returns the matrix of the first step s in
      t..N-1 that reproduces its input. */
  lemma {:induction false} CompletionFromFirst(A0: Matrix, t: nat)
    requires Square(A0)
    decreases |A0| - t
    ensures CompletionFrom(A0, t).Ok? ==>
      exists s: nat :: FirstFixed(A0, t, s) && CompletionFrom(A0, t).value == Iter(A0, s + 1)
  {
    if t < |A0| {
      if Fixed(A0, t) {
        assert FirstFixed(A0, t, t) && CompletionFrom(A0, t) == Ok(Iter(A0, t + 1));
      } else {
        assert CompletionFrom(A0, t) == CompletionFrom(A0, t + 1);
        if CompletionFrom(A0, t + 1).Ok? {
          CompletionFromFirst(A0, t + 1);
          var s: nat :| FirstFixed(A0, t + 1, s) && CompletionFrom(A0, t + 1).value == Iter(A0, s + 1);
          assert FirstFixed(A0, t, s);
        }
      }
    }
  }

  /** From counter t on, a step s in t..N-1 that reproduces its input makes the
      routine succeed. */
  lemma {:induction false} CompletionFromFixed(A0: Matrix, t: nat, s: nat)
    requires Square(A0) && t <= s < |A0| && Fixed(A0, s)
    decreases s - t
    ensures CompletionFrom(A0, t).Ok?
  {
    if t < s && !Fixed(A0, t) {
      CompletionFromFixed(A0, t + 1, s);
    }
  }

  /** From counter t on, the routine succeeds exactly when some step s in t..N-1
      reproduces its input, and then it returns the matrix of the first such step;
      otherwise it fails with the assertion's message. */
  lemma CompletionFromOutcome(A0: Matrix, t: nat)
    requires Square(A0)
    ensures CompletionFrom(A0, t).Ok? <==> exists s: nat :: t <= s < |A0| && Fixed(A0, s)
    ensures CompletionFrom(A0, t).Ok? ==>
      exists s: nat :: FirstFixed(A0, t, s) && CompletionFrom(A0, t).value == Iter(A0, s + 1)
    ensures CompletionFrom(A0, t).Failure? ==> CompletionFrom(A0, t).message == TooManySteps
  {
    CompletionFromFailure(A0, t);
    CompletionFromFirst(A0, t);
    if exists s: nat :: t <= s < |A0| && Fixed(A0, s) {
      var s: nat :| t <= s < |A0| && Fixed(A0, s);
      CompletionFromFixed(A0, t, s);
    }
  }

  /** The routine succeeds exactly when one of steps 0..N-1 reproduces its input
      (so the empty matrix fails); the result is then a fixed point of the step. */
  lemma CompletionOutcome(A0: Matrix)
    requires Square(A0)
    ensures Completion(A0).Ok? <==> exists s: nat :: s < |A0| && Fixed(A0, s)
    ensures Completion(A0).Ok? ==>
      SameShape(Completion(A0).value, A0) && Step(A0, Completion(A0).value) == Completion(A0).value
  {
    CompletionFromOutcome(A0, 0);
    if Completion(A0).Ok? {
      var s: nat :| FirstFixed(A0, 0, s) && Completion(A0).value == Iter(A0, s + 1);
      assert Iter(A0, s + 2) == Step(A0, Iter(A0, s + 1));
    }
  }

  /** On every non-empty 0/1 input, cyclic or not, step N-1 reproduces its input,
      so the routine succeeds within its N steps: `assert i < N` fails only for
      N = 0 and never flags a cycle. */
  lemma CompletionSucceeds(A0: Matrix)
    requires Square(A0) && Binary(A0) && |A0| >= 1
    ensures Completion(A0).Ok?
  {
    var t: nat := |A0| - 1;
    LastStepFixed(A0, t);
    CompletionFromFixed(A0, 0, t);
  }

  /** The 2-cycle 0 -> 1 -> 0: `(A0^2)[0][0]` is positive, yet the routine
      succeeds, and its result records the cycle at (0, 0). */
  lemma TwoCycleCompletes()
    ensures MatPow([[0, 1], [1, 0]], 2)[0][0] == 1
    ensures Completion([[0, 1], [1, 0]]).Ok? && Completion([[0, 1], [1, 0]]).value[0][0] == 1
  {
    var C: Matrix := [[0, 1], [1, 0]];
    assert MatPow(C, 2)[0][0] == Dot(C, C, 0, 0, 2);
    CompletionSucceeds(C);
    assert Closure(C, 0, 0) by {
      assert MatPow(C, 2)[0][0] > 0;
    }
    CompletionIsClosure(C, 0, 0);
  }

  /** Step N - 1 of a 0/1 input reproduces its input. */
  lemma LastStepFixed(A0: Matrix, t: nat)
    requires Square(A0) && Binary(A0) && t + 1 == |A0|
    ensures Fixed(A0, t)
  {
    assert Nonneg(A0);
    IterShape(A0, t + 1);
    IterShape(A0, t);
    forall i, j | 0 <= i < |A0| && 0 <= j < |A0|
      ensures Iter(A0, t + 1)[i][j] == Iter(A0, t)[i][j]
    {
      RowSettles(A0, t, i);
      assert j in Row(A0, t + 1, i) <==> j in Row(A0, t, i);
      BinaryEntriesAgree(Iter(A0, t + 1), Iter(A0, t), i, j);
    }
    Extensionality(Iter(A0, t + 1), Iter(A0, t));
  }

  /** Two 0/1 entries that are positive together are equal. */
  lemma BinaryEntriesAgree(X: Matrix, Y: Matrix, i: nat, j: nat)
    requires SameShape(X, Y) && Binary(X) && Binary(Y) && i < |X| && j < |X|
    requires X[i][j] > 0 <==> Y[i][j] > 0
    ensures X[i][j] == Y[i][j]
  {
  }

  /** The targets A holds for source i after t steps. */
  ghost function Row(A0: Matrix, t: nat, i: nat): set<int>
    requires Square(A0) && i < |A0|
  {
    set j | 0 <= j < |A0| && Iter(A0, t)[i][j] > 0
  }

  /** Row i after N - 1 steps is the same after N steps: the rows grow by at
      least one target a step until they stop growing, and there are only N
      targets. */
  lemma RowSettles(A0: Matrix, t: nat, i: nat)
    requires Square(A0) && Nonneg(A0) && t + 1 == |A0| && i < |A0|
    ensures Row(A0, t + 1, i) == Row(A0, t, i)
  {
    RowGrowth(A0, t, i);
    RowGrows(A0, t, i);
    if |Row(A0, t, i)| >= t + 1 {
      Count(|A0|);
      assert Row(A0, t + 1, i) <= Range(|A0|);
      SubsetCard(Row(A0, t + 1, i), Range(|A0|));
      SubsetCard(Row(A0, t, i), Row(A0, t + 1, i));
    }
  }

  /** Row i after t steps has at least t + 1 targets, or stops growing at t. */
  lemma {:induction false} RowGrowth(A0: Matrix, t: nat, i: nat)
    requires Square(A0) && Nonneg(A0) && i < |A0|
    ensures |Row(A0, t, i)| >= t + 1 || Row(A0, t + 1, i) == Row(A0, t, i)
  {
    if t == 0 {
      if Row(A0, 0, i) == {} {
        RowEmptyStays(A0, i);
      }
    } else {
      var p := t - 1;
      RowGrowth(A0, p, i);
      if Row(A0, p + 1, i) == Row(A0, p, i) {
        RowStable(A0, p, i);
      } else {
        RowGrowsStrictly(A0, p, i);
      }
    }
  }

  /** A step that adds a target to a row of at least p + 1 targets leaves at
      least p + 2. */
  lemma RowGrowsStrictly(A0: Matrix, p: nat, i: nat)
    requires Square(A0) && Nonneg(A0) && i < |A0|
    requires |Row(A0, p, i)| >= p + 1 && Row(A0, p + 1, i) != Row(A0, p, i)
    ensures |Row(A0, p + 1, i)| >= p + 2
  {
    RowGrows(A0, p, i);
    SubsetCard(Row(A0, p, i), Row(A0, p + 1, i));
  }

  /** A step never drops a target. */
  lemma RowGrows(A0: Matrix, t: nat, i: nat)
    requires Square(A0) && Nonneg(A0) && i < |A0|
    ensures Row(A0, t, i) <= Row(A0, t + 1, i)
  {
    forall j | j in Row(A0, t, i)
      ensures j in Row(A0, t + 1, i)
    {
      IterReach(A0, t, i, j);
      IterReach(A0, t + 1, i, j);
    }
  }

  /** A node with no edge out of it reaches nothing. */
  lemma RowEmptyStays(A0: Matrix, i: nat)
    requires Square(A0) && Nonneg(A0) && i < |A0| && Row(A0, 0, i) == {}
    ensures Row(A0, 1, i) == {}
  {
    assert Iter(A0, 1) == Step(A0, A0);
    forall l | 0 <= l < |A0|
      ensures A0[i][l] <= 0
    {
      assert l !in Row(A0, 0, i);
    }
    forall j | 0 <= j < |A0|
      ensures Iter(A0, 1)[i][j] <= 0
    {
      StepPositive(A0, A0, i, j);
    }
  }

  /** Row i after t + 2 steps depends only on row i after t + 1 steps, so a row
      that has stopped growing stays put. */
  lemma RowStable(A0: Matrix, t: nat, i: nat)
    requires Square(A0) && Nonneg(A0) && i < |A0| && Row(A0, t + 1, i) == Row(A0, t, i)
    ensures Row(A0, t + 2, i) == Row(A0, t + 1, i)
  {
    var u, v := t + 1, t + 2;
    forall j | j in Row(A0, v, i)
      ensures j in Row(A0, u, i)
    {
      RowStableAt(A0, t, i, j);
    }
    forall j | j in Row(A0, u, i)
      ensures j in Row(A0, v, i)
    {
      RowStableAt(A0, t, i, j);
    }
  }

  lemma RowStableAt(A0: Matrix, t: nat, i: nat, j: nat)
    requires Square(A0) && Nonneg(A0) && i < |A0| && j < |A0| && Row(A0, t + 1, i) == Row(A0, t, i)
    ensures Iter(A0, t + 2)[i][j] > 0 <==> Iter(A0, t + 1)[i][j] > 0
  {
    IterNonneg(A0, t);
    IterNonneg(A0, t + 1);
    var X, Y := Iter(A0, t), Iter(A0, t + 1);
    assert Iter(A0, t + 2) == Step(A0, Y);
    assert Y == Step(A0, X);
    StepPositive(A0, Y, i, j);
    StepPositive(A0, X, i, j);
    if exists l :: 0 <= l < |A0| && Y[i][l] > 0 && A0[l][j] > 0 {
      var l :| 0 <= l < |A0| && Y[i][l] > 0 && A0[l][j] > 0;
      assert l in Row(A0, t + 1, i);
      assert X[i][l] > 0;
    }
    if exists l :: 0 <= l < |A0| && X[i][l] > 0 && A0[l][j] > 0 {
      var l :| 0 <= l < |A0| && X[i][l] > 0 && A0[l][j] > 0;
      assert l in Row(A0, t, i);
      assert Y[i][l] > 0;
    }
  }

  /** The nodes 0..n-1. */
  ghost function Range(n: nat): set<int> {
    if n == 0 then {} else Range(n - 1) + {n - 1}
  }

  lemma {:induction false} Count(n: nat)
    ensures |Range(n)| == n
    ensures forall x :: x in Range(n) <==> 0 <= x < n
  {
    if n > 0 {
      Count(n - 1);
    }
  }

  /** A subset is no larger, and a proper subset is smaller. */
  lemma SubsetCard(X: set<int>, Y: set<int>)
    requires X <= Y
    ensures |X| <= |Y| && (X < Y ==> |X| < |Y|)
  {
    assert Y == X + (Y - X);
    if |X| == |Y| {
      assert Y - X == {};
      assert X == Y;
    }
  }

  // ---------------------------------------------------------------------------
  // What the steps compute

  /** A step of non-negative matrices gives a 0/1 matrix that keeps every edge of
      a 0/1 input. */
  lemma StepShape(A0: Matrix, X: Matrix)
    requires SameShape(X, A0) && Nonneg(A0) && Nonneg(X)
    ensures Binary(Step(A0, X))
    ensures Binary(A0) ==> Below(A0, Step(A0, X))
  {
    MatMulNonneg(X, A0);
  }

  /** For a 0/1 input, every A is 0/1 and contains every edge of A0. */
  lemma {:induction false} IterShape(A0: Matrix, t: nat)
    requires Square(A0) && Binary(A0)
    ensures Binary(Iter(A0, t)) && Below(A0, Iter(A0, t))
  {
    if t > 0 {
      IterShape(A0, t - 1);
      StepShape(A0, Iter(A0, t - 1));
    }
  }

  /** An entry of a step is positive exactly when A0 has the edge or X reaches a
      node with an edge of A0 to the target. */
  lemma StepPositive(A0: Matrix, X: Matrix, i: nat, j: nat)
    requires SameShape(X, A0) && Nonneg(A0) && Nonneg(X) && i < |A0| && j < |A0|
    ensures Step(A0, X)[i][j] > 0 <==> A0[i][j] > 0 || exists l :: 0 <= l < |A0| && X[i][l] > 0 && A0[l][j] > 0
  {
    MatMulPositive(X, A0, i, j);
  }

  /** Some walk of 1..t+1 edges of A0 joins i to j. */
  ghost predicate Reach(A0: Matrix, t: nat, i: nat, j: nat)
    requires Square(A0) && i < |A0| && j < |A0|
  {
    exists k :: 1 <= k <= t + 1 && MatPow(A0, k)[i][j] > 0
  }

  /** Every A of a non-negative input is non-negative. */
  lemma {:induction false} IterNonneg(A0: Matrix, t: nat)
    requires Square(A0) && Nonneg(A0)
    ensures Nonneg(Iter(A0, t))
  {
    if t > 0 {
      IterNonneg(A0, t - 1);
      StepShape(A0, Iter(A0, t - 1));
    }
  }

  /** For a non-negative A0, A after t steps is positive at (i, j) exactly when
      `(A0^k)[i][j] > 0` for some k in 1..t+1: a walk of at most t+1 edges. */
  lemma {:induction false} IterReach(A0: Matrix, t: nat, i: nat, j: nat)
    requires Square(A0) && Nonneg(A0) && i < |A0| && j < |A0|
    ensures Iter(A0, t)[i][j] > 0 <==> Reach(A0, t, i, j)
  {
    if t == 0 {
      assert MatPow(A0, 1) == A0;
      if Reach(A0, t, i, j) {
        var k :| 1 <= k <= t + 1 && MatPow(A0, k)[i][j] > 0;
        assert k == 1;
      }
    } else {
      var p := t - 1;
      forall l | 0 <= l < |A0|
        ensures Iter(A0, p)[i][l] > 0 <==> Reach(A0, p, i, l)
      {
        IterReach(A0, p, i, l);
      }
      ReachStep(A0, p, i, j);
    }
  }

  /** One step extends the walks by one edge of A0. */
  lemma ReachStep(A0: Matrix, p: nat, i: nat, j: nat)
    requires Square(A0) && Nonneg(A0) && i < |A0| && j < |A0|
    requires forall l :: 0 <= l < |A0| ==> (Iter(A0, p)[i][l] > 0 <==> Reach(A0, p, i, l))
    ensures Iter(A0, p + 1)[i][j] > 0 <==> Reach(A0, p + 1, i, j)
  {
    var X := Iter(A0, p);
    IterNonneg(A0, p);
    StepPositive(A0, X, i, j);
    if Iter(A0, p + 1)[i][j] > 0 {
      ReachStepSound(A0, p, i, j);
    }
    if Reach(A0, p + 1, i, j) {
      ReachStepComplete(A0, p, i, j);
    }
  }

  lemma ReachStepSound(A0: Matrix, p: nat, i: nat, j: nat)
    requires Square(A0) && Nonneg(A0) && i < |A0| && j < |A0| && Nonneg(Iter(A0, p))
    requires forall l :: 0 <= l < |A0| ==> Iter(A0, p)[i][l] > 0 ==> Reach(A0, p, i, l)
    requires A0[i][j] > 0 || exists l :: 0 <= l < |A0| && Iter(A0, p)[i][l] > 0 && A0[l][j] > 0
    ensures Reach(A0, p + 1, i, j)
  {
    if A0[i][j] > 0 {
      assert MatPow(A0, 1)[i][j] > 0;
    } else {
      var l :| 0 <= l < |A0| && Iter(A0, p)[i][l] > 0 && A0[l][j] > 0;
      var k :| 1 <= k <= p + 1 && MatPow(A0, k)[i][l] > 0;
      PowerStep(A0, k, i, j);
      assert MatPow(A0, k + 1)[i][j] > 0;
    }
  }

  lemma ReachStepComplete(A0: Matrix, p: nat, i: nat, j: nat)
    requires Square(A0) && Nonneg(A0) && i < |A0| && j < |A0|
    requires forall l :: 0 <= l < |A0| ==> Reach(A0, p, i, l) ==> Iter(A0, p)[i][l] > 0
    requires Reach(A0, p + 1, i, j)
    ensures A0[i][j] > 0 || exists l :: 0 <= l < |A0| && Iter(A0, p)[i][l] > 0 && A0[l][j] > 0
  {
    var k :| 1 <= k <= p + 2 && MatPow(A0, k)[i][j] > 0;
    if k > 1 {
      PowerStep(A0, k - 1, i, j);
      var l :| 0 <= l < |A0| && MatPow(A0, k - 1)[i][l] > 0 && A0[l][j] > 0;
      assert Reach(A0, p, i, l);
    } else {
      assert MatPow(A0, 1) == A0;
    }
  }

  /** `(A0^(k+1))[i][j] > 0` exactly when some l has `(A0^k)[i][l] > 0` and an
      edge l -> j. */
  lemma PowerStep(A0: Matrix, k: nat, i: nat, j: nat)
    requires Square(A0) && Nonneg(A0) && k >= 1 && i < |A0| && j < |A0|
    ensures MatPow(A0, k + 1)[i][j] > 0 <==> exists l :: 0 <= l < |A0| && MatPow(A0, k)[i][l] > 0 && A0[l][j] > 0
  {
    MatPowNonneg(A0, k);
    MatMulPositive(MatPow(A0, k), A0, i, j);
  }

  /** Once a step reproduces its input, every later A is the same. */
  lemma {:induction false} IterSettles(A0: Matrix, s: nat, t: nat)
    requires Square(A0) && s <= t && Fixed(A0, s)
    ensures Iter(A0, t) == Iter(A0, s)
  {
    if t > s {
      IterSettles(A0, s, t - 1);
    }
  }

  /** Some walk of one or more edges of A0 joins i to j. */
  ghost predicate Closure(A0: Matrix, i: nat, j: nat)
    requires Square(A0) && i < |A0| && j < |A0|
  {
    exists k :: k >= 1 && MatPow(A0, k)[i][j] > 0
  }

  /** Once step s reproduces its input, A after s steps is the transitive closure
      of a non-negative A0: positive at (i, j) exactly when some walk of one or more
      edges joins i to j. */
  lemma FixedIsClosure(A0: Matrix, s: nat, i: nat, j: nat)
    requires Square(A0) && Nonneg(A0) && i < |A0| && j < |A0| && Fixed(A0, s)
    ensures Iter(A0, s)[i][j] > 0 <==> Closure(A0, i, j)
  {
    IterReach(A0, s, i, j);
    if Iter(A0, s)[i][j] > 0 {
      ReachIsClosure(A0, s, i, j);
    }
    if Closure(A0, i, j) {
      var k :| k >= 1 && MatPow(A0, k)[i][j] > 0;
      var u := if k - 1 > s then k - 1 else s;
      IterSettles(A0, s, u);
      ClosureIsReach(A0, k, u, i, j);
      IterReach(A0, u, i, j);
    }
  }

  lemma ReachIsClosure(A0: Matrix, s: nat, i: nat, j: nat)
    requires Square(A0) && i < |A0| && j < |A0| && Reach(A0, s, i, j)
    ensures Closure(A0, i, j)
  {
  }

  lemma ClosureIsReach(A0: Matrix, k: nat, u: nat, i: nat, j: nat)
    requires Square(A0) && i < |A0| && j < |A0| && 1 <= k <= u + 1 && MatPow(A0, k)[i][j] > 0
    ensures Reach(A0, u, i, j)
  {
  }

  /** A successful result on a non-negative input is the transitive closure of A0,
      and is 0/1 for a 0/1 input. */
  lemma CompletionIsClosure(A0: Matrix, i: nat, j: nat)
    requires Square(A0) && Nonneg(A0) && i < |A0| && j < |A0| && Completion(A0).Ok?
    ensures Completion(A0).value[i][j] > 0 <==> Closure(A0, i, j)
    ensures Binary(A0) ==> Binary(Completion(A0).value)
  {
    CompletionFromOutcome(A0, 0);
    var s: nat :| FirstFixed(A0, 0, s) && Completion(A0).value == Iter(A0, s + 1);
    assert Completion(A0).value == Iter(A0, s);
    FixedIsClosure(A0, s, i, j);
    if Binary(A0) {
      IterShape(A0, s);
    }
  }
}

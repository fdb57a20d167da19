/** Forward substitution (`metodo_sustitucion`): row by row,
    x[i] = (b[i] - sum_{j<i} A[i][j] * x[j]) / A[i][i]. */
module Triangular {
  import opened Linear

  /** What `metodo_sustitucion` needs to run without raising IndexError and
      without dividing by zero: b has an entry for every row and every
      diagonal entry exists and is nonzero. */
  predicate SubstitutionApplicable(A: Matrix, b: Vector) {
    |A| <= |b| && forall i :: 0 <= i < |A| ==> i < |A[i]| && A[i][i] != 0.0
  }

  /** The first k entries of the forward-substitution result. */
  function ForwardPrefix(A: Matrix, b: Vector, k: nat): (y: Vector)
    requires SubstitutionApplicable(A, b) && k <= |A|
    ensures |y| == k
  {
    if k == 0 then []
    else
      var y := ForwardPrefix(A, b, k - 1);
      y + [(b[k - 1] - RowDot(A[k - 1], y, k - 1)) / A[k - 1][k - 1]]
  }

  /** The whole vector forward substitution computes: one entry per row of A. */
  function ForwardSub(A: Matrix, b: Vector): (x: Vector)
    requires SubstitutionApplicable(A, b)
    ensures |x| == |A|
  {
    ForwardPrefix(A, b, |A|)
  }

  /** Row i's equation restricted to the lower triangle: A[i][i] * y[i] plus
      the sum over j < i of A[i][j] * y[j] equals b[i]. */
  predicate LowerRowHolds(A: Matrix, y: Vector, b: Vector, i: nat)
    requires SubstitutionApplicable(A, b) && |y| == |A| && i < |A|
  {
    A[i][i] * y[i] + RowDot(A[i], y, i) == b[i]
  }

  /** Entries once computed are never revised: a longer prefix extends a shorter one. */
  lemma {:induction false} ForwardPrefixExtends(A: Matrix, b: Vector, j: nat, k: nat)
    requires SubstitutionApplicable(A, b) && j <= k <= |A|
    ensures ForwardPrefix(A, b, k)[..j] == ForwardPrefix(A, b, j)
  {
    if j < k {
      ForwardPrefixExtends(A, b, j, k - 1);
      assert ForwardPrefix(A, b, k)[..k - 1] == ForwardPrefix(A, b, k - 1);
    }
  }

  /** The result satisfies every row's lower-triangle equation. */
  lemma ForwardSubRecurrence(A: Matrix, b: Vector)
    requires SubstitutionApplicable(A, b)
    ensures |ForwardSub(A, b)| == |A|
    ensures forall i :: 0 <= i < |A| ==> LowerRowHolds(A, ForwardSub(A, b), b, i)
  {
    var x := ForwardSub(A, b);
    forall i | 0 <= i < |A|
      ensures LowerRowHolds(A, x, b, i)
    {
      var y := ForwardPrefix(A, b, i);
      ForwardPrefixExtends(A, b, i + 1, |A|);
      assert x[..i + 1] == ForwardPrefix(A, b, i + 1);
      assert x[i] == ForwardPrefix(A, b, i + 1)[i];
      assert x[..i] == y by {
        ForwardPrefixExtends(A, b, i, |A|);
      }
      RowDotAgree(A[i], A[i], x, y, i);
      var s := RowDot(A[i], y, i);
      assert x[i] == (b[i] - s) / A[i][i];
      DivisionSolves(A[i][i], x[i], b[i] - s);
    }
  }

  /** Conversely, the lower-triangle equations determine the vector: any y
      that satisfies them all is the forward-substitution result. */
  lemma ForwardSubUnique(A: Matrix, b: Vector, y: Vector)
    requires SubstitutionApplicable(A, b) && |y| == |A|
    requires forall i :: 0 <= i < |A| ==> LowerRowHolds(A, y, b, i)
    ensures y == ForwardSub(A, b)
  {
    var k := 0;
    while k < |A|
      invariant 0 <= k <= |A|
      invariant y[..k] == ForwardPrefix(A, b, k)
    {
      var p := ForwardPrefix(A, b, k);
      RowDotAgree(A[k], A[k], y, p, k);
      assert LowerRowHolds(A, y, b, k);
      DivisionSolves(A[k][k], y[k], b[k] - RowDot(A[k], p, k));
      assert y[..k + 1] == y[..k] + [y[k]];
      k := k + 1;
    }
    assert y[..|A|] == y;
  }

  /** Entries above the diagonal never affect the result: two matrices that
      agree on and below the diagonal give the same vector. */
  lemma {:induction false} ForwardPrefixIgnoresUpper(A: Matrix, A': Matrix, b: Vector, k: nat)
    requires SubstitutionApplicable(A, b) && SubstitutionApplicable(A', b)
    requires |A| == |A'| && k <= |A|
    requires forall i, j :: 0 <= j <= i < |A| ==> A[i][j] == A'[i][j]
    ensures ForwardPrefix(A, b, k) == ForwardPrefix(A', b, k)
  {
    if k > 0 {
      ForwardPrefixIgnoresUpper(A, A', b, k - 1);
      var y := ForwardPrefix(A, b, k - 1);
      RowDotAgree(A[k - 1], A'[k - 1], y, y, k - 1);
    }
  }

  /** The whole-vector form of ForwardPrefixIgnoresUpper. */
  lemma ForwardSubIgnoresUpper(A: Matrix, A': Matrix, b: Vector)
    requires SubstitutionApplicable(A, b) && SubstitutionApplicable(A', b)
    requires |A| == |A'|
    requires forall i, j :: 0 <= j <= i < |A| ==> A[i][j] == A'[i][j]
    ensures ForwardSub(A, b) == ForwardSub(A', b)
  {
    ForwardPrefixIgnoresUpper(A, A', b, |A|);
  }

  /** For a lower-triangular A with nonzero diagonal, a vector solves A·x = b
      exactly when it is the forward-substitution result: the result is a
      solution, and the only one. */
  lemma LowerTriangularSolution(A: Matrix, b: Vector)
    requires SubstitutionApplicable(A, b) && LowerTriangular(A) && |b| == |A|
    ensures Solves(A, ForwardSub(A, b), b)
    ensures forall y :: |y| == |A| ==> (Solves(A, y, b) <==> y == ForwardSub(A, b))
  {
    var n := |A|;
    forall y | |y| == n
      ensures Solves(A, y, b) <==> forall i :: 0 <= i < n ==> LowerRowHolds(A, y, b, i)
    {
      forall i | 0 <= i < n
        ensures (RowDot(A[i], y, n) == b[i]) == LowerRowHolds(A, y, b, i)
      {
        RowDotZeroTail(A[i], y, i + 1, n);
      }
    }
    ForwardSubRecurrence(A, b);
    forall y | |y| == n && Solves(A, y, b)
      ensures y == ForwardSub(A, b)
    {
      ForwardSubUnique(A, b, y);
    }
  }

  /** `metodo_sustitucion`: fills a zero-initialised array entry by entry in
      increasing i, each entry from a running sum over the earlier entries. */
  method MetodoSustitucion(A: Matrix, b: Vector) returns (x: Vector)
    requires SubstitutionApplicable(A, b)
    ensures |x| == |A| && x == ForwardSub(A, b)
    ensures forall i :: 0 <= i < |A| ==> LowerRowHolds(A, x, b, i)
    ensures LowerTriangular(A) && |b| == |A| ==> Solves(A, x, b)
  {
    var n := |A|;
    var xs := new real[n](_ => 0.0);
    for i := 0 to n
      invariant xs[..i] == ForwardPrefix(A, b, i)
      invariant forall k :: i <= k < n ==> xs[k] == 0.0
    {
      var sum := b[i];
      for j := 0 to i
        invariant sum == b[i] - RowDot(A[i], xs[..i], j)
      {
        sum := sum - A[i][j] * xs[j];
      }
      xs[i] := sum / A[i][i];
      assert xs[..i + 1] == xs[..i] + [xs[i]];
    }
    x := xs[..];
    assert x == xs[..n];
    ForwardSubRecurrence(A, b);
    if LowerTriangular(A) && |b| == |A| {
      LowerTriangularSolution(A, b);
    }
  }

  /** Lower-triangular A = [[1, 0], [2, 3]], b = [4, 11] gives x = [4, 1]. */
  lemma SubstitutionExample()
    ensures ForwardSub([[1.0, 0.0], [2.0, 3.0]], [4.0, 11.0]) == [4.0, 1.0]
  {
    var A, b := [[1.0, 0.0], [2.0, 3.0]], [4.0, 11.0];
    assert ForwardPrefix(A, b, 1) == [4.0];
    assert RowDot(A[1], [4.0], 1) == 8.0;
  }
}

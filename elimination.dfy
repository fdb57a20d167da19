/** Gauss-Jordan elimination without pivoting (`metodo_jordan`): build the
    augmented matrix [A | b], and for each pivot i divide row i by its diagonal
    entry, then subtract from every other row j the multiple of row i that
    clears column i. The last column is the answer. */
module Elimination {
  import opened Linear

  datatype Option<T> = None | Some(value: T)

  /** A matrix for a system in m unknowns: every row has m + 1 entries, the
      last being the right-hand side. */
  predicate Augmented(M: Matrix, m: nat) {
    Rect(M, m + 1)
  }

  /** The augmented matrix [A | b] of an A with m columns: A with b appended
      as a last column. */
  function Augment(A: Matrix, m: nat, b: Vector): (M: Matrix)
    requires Rect(A, m) && |b| == |A|
    ensures |M| == |A| && Augmented(M, m)
    ensures forall r, c :: 0 <= r < |A| && 0 <= c < m ==> M[r][c] == A[r][c]
    ensures forall r :: 0 <= r < |A| ==> M[r][m] == b[r]
  {
    seq(|A|, r requires 0 <= r < |A| => A[r] + [b[r]])
  }

  /** One pass of the outer loop for pivot i: row i is divided by its
      diagonal entry, then every other row j loses M[j][i] times the new row i.
      Column i exists as long as i <= m; for i = m it is the right-hand side. */
  function PivotStep(M: Matrix, m: nat, i: nat): (N: Matrix)
    requires Augmented(M, m) && i < |M| && i <= m && M[i][i] != 0.0
    ensures |N| == |M| && Augmented(N, m)
    ensures N[i][i] == 1.0
    ensures forall j :: 0 <= j < |M| && j != i ==> N[j][i] == 0.0
  {
    var pivotRow := ScaleRow(M[i], M[i][i]);
    seq(|M|, j requires 0 <= j < |M| =>
      if j == i then pivotRow else SubtractRow(M[j], M[j][i], pivotRow))
  }

  /** The matrix after the first k pivot steps, or None when one of those
      steps meets a zero pivot (where `metodo_jordan` divides by zero). */
  function Reduce(M: Matrix, m: nat, k: nat): (R: Option<Matrix>)
    requires Augmented(M, m) && k <= |M| && k <= m + 1
    ensures R.Some? ==> |R.value| == |M| && Augmented(R.value, m)
    decreases k
  {
    if k == 0 then Some(M)
    else
      match Reduce(M, m, k - 1)
      case None => None
      case Some(P) => if P[k - 1][k - 1] == 0.0 then None else Some(PivotStep(P, m, k - 1))
  }

  /** What `metodo_jordan` needs to run without raising and without dividing
      by zero: A is rectangular with m columns, b has one entry per row, there
      are at most m + 1 rows (so every diagonal entry aug[i, i] exists), and
      every pivot is nonzero when it is reached. */
  predicate JordanApplicable(A: Matrix, b: Vector) {
    Rect(A, Width(A)) && |b| == |A| && |A| <= Width(A) + 1 &&
    Reduce(Augment(A, Width(A), b), Width(A), |A|).Some?
  }

  /** The vector `metodo_jordan` returns: the last column of the reduced matrix. */
  function JordanSolution(A: Matrix, b: Vector): (x: Vector)
    requires JordanApplicable(A, b)
    ensures |x| == |A|
  {
    var m := Width(A);
    var R := Reduce(Augment(A, m, b), m, |A|).value;
    seq(|A|, r requires 0 <= r < |A| => R[r][m])
  }

  /** Columns 0 .. k - 1 of `M` are the unit columns e_0 .. e_{k-1}. */
  predicate UnitColumns(M: Matrix, m: nat, k: nat)
    requires Augmented(M, m) && k <= m + 1
  {
    forall r, c :: 0 <= r < |M| && 0 <= c < k ==> M[r][c] == if r == c then 1.0 else 0.0
  }

  /** Entry (r, c) after pivot step i, in terms of the entries before it. */
  lemma PivotStepAt(M: Matrix, m: nat, i: nat, r: nat, c: nat)
    requires Augmented(M, m) && i < |M| && i <= m && M[i][i] != 0.0
    requires r < |M| && c <= m
    ensures PivotStep(M, m, i)[r][c] ==
      if r == i then M[i][c] / M[i][i] else M[r][c] - M[r][i] * (M[i][c] / M[i][i])
  {
  }

  /** A pivot step keeps the unit columns already made and makes column i one. */
  lemma {:induction false} PivotStepUnitColumns(M: Matrix, m: nat, i: nat)
    requires Augmented(M, m) && i < |M| && i <= m && M[i][i] != 0.0 && UnitColumns(M, m, i)
    ensures UnitColumns(PivotStep(M, m, i), m, i + 1)
  {
    var N := PivotStep(M, m, i);
    var p := M[i][i];
    DivisionSolves(p, 1.0, p);
    DivisionSolves(p, 0.0, 0.0);
    forall r, c | 0 <= r < |M| && 0 <= c < i + 1
      ensures N[r][c] == if r == c then 1.0 else 0.0
    {
      PivotStepAt(M, m, i, r, c);
      assert M[i][c] / p == if c == i then 1.0 else 0.0;
    }
  }

  /** The loop invariant of the outer loop: after k pivot steps, columns
      0 .. k - 1 are unit columns. */
  lemma {:induction false} ReduceUnitColumns(M: Matrix, m: nat, k: nat)
    requires Augmented(M, m) && k <= |M| && k <= m + 1 && Reduce(M, m, k).Some?
    ensures UnitColumns(Reduce(M, m, k).value, m, k)
  {
    if k > 0 {
      ReduceUnitColumns(M, m, k - 1);
      PivotStepUnitColumns(Reduce(M, m, k - 1).value, m, k - 1);
    }
  }

  /** A pivot step with a nonzero pivot neither adds nor removes solutions:
      scaling row i and subtracting multiples of it from the other rows are
      both invertible row operations. */
  lemma {:induction false} PivotStepPreservesSolutions(M: Matrix, m: nat, i: nat, x: Vector)
    requires Augmented(M, m) && i < |M| && i <= m && M[i][i] != 0.0 && |x| == m
    ensures SolvesAugmented(PivotStep(M, m, i), x) <==> SolvesAugmented(M, x)
  {
    var N := PivotStep(M, m, i);
    PivotRowPreserved(M, m, i, x);
    forall r | 0 <= r < |M| && r != i && RowHolds(N[i], x)
      ensures RowHolds(N[r], x) <==> RowHolds(M[r], x)
    {
      OtherRowPreserved(M, m, i, r, x);
    }
    if SolvesAugmented(N, x) {
      assert RowHolds(N[i], x);
    }
    if SolvesAugmented(M, x) {
      assert RowHolds(M[i], x);
    }
  }

  /** Row i holds before the step exactly when it holds after being divided
      by its nonzero pivot. */
  lemma {:induction false} PivotRowPreserved(M: Matrix, m: nat, i: nat, x: Vector)
    requires Augmented(M, m) && i < |M| && i <= m && M[i][i] != 0.0 && |x| == m
    ensures RowHolds(PivotStep(M, m, i)[i], x) <==> RowHolds(M[i], x)
  {
    var p, N := M[i][i], PivotStep(M, m, i);
    assert N[i] == ScaleRow(M[i], p);
    RowDotScaled(M[i], p, x, m);
    DividedEqual(RowDot(M[i], x, m), M[i][m], p);
  }

  /** Dividing both sides by a nonzero p keeps an equation equivalent. */
  lemma DividedEqual(a: real, e: real, p: real)
    requires p != 0.0
    ensures (a / p == e / p) <==> (a == e)
  {
    DivisionSolves(p, a / p, a);
    DivisionSolves(p, e / p, e);
  }

  /** Row r != i after the step is row r minus M[r][i] times the new pivot
      row, and so are its dot product with x and its last entry. */
  lemma {:induction false} OtherRowCombined(M: Matrix, m: nat, i: nat, r: nat, x: Vector)
    requires Augmented(M, m) && i < |M| && i <= m && M[i][i] != 0.0 && |x| == m
    requires r < |M| && r != i
    ensures var N := PivotStep(M, m, i);
      && RowDot(N[r], x, m) == RowDot(M[r], x, m) - M[r][i] * RowDot(N[i], x, m)
      && N[r][m] == M[r][m] - M[r][i] * N[i][m]
  {
    var N := PivotStep(M, m, i);
    var pivotRow := ScaleRow(M[i], M[i][i]);
    assert N[i] == pivotRow;
    assert N[r] == SubtractRow(M[r], M[r][i], pivotRow);
    RowDotCombined(M[r], M[r][i], pivotRow, x, m);
    assert N[r][m] == M[r][m] - M[r][i] * pivotRow[m];
  }

  /** Once the new pivot row holds, row r != i holds after the step exactly
      when it held before. */
  lemma {:induction false} OtherRowPreserved(M: Matrix, m: nat, i: nat, r: nat, x: Vector)
    requires Augmented(M, m) && i < |M| && i <= m && M[i][i] != 0.0 && |x| == m
    requires r < |M| && r != i && RowHolds(PivotStep(M, m, i)[i], x)
    ensures RowHolds(PivotStep(M, m, i)[r], x) <==> RowHolds(M[r], x)
  {
    var N := PivotStep(M, m, i);
    OtherRowCombined(M, m, i, r, x);
    SubtractedEqual(RowDot(M[r], x, m), M[r][m], M[r][i], RowDot(N[i], x, m), N[i][m]);
  }

  /** The whole reduction preserves the solution set of the augmented system. */
  lemma {:induction false} ReducePreservesSolutions(M: Matrix, m: nat, k: nat, x: Vector)
    requires Augmented(M, m) && k <= |M| && k <= m + 1 && Reduce(M, m, k).Some? && |x| == m
    ensures SolvesAugmented(Reduce(M, m, k).value, x) <==> SolvesAugmented(M, x)
  {
    if k > 0 {
      ReducePreservesSolutions(M, m, k - 1, x);
      PivotStepPreservesSolutions(Reduce(M, m, k - 1).value, m, k - 1, x);
    }
  }

  /** If all n pivots are nonzero, so is every earlier one, and every earlier
      stage exists. */
  lemma {:induction false} ReduceEarlierStage(M: Matrix, m: nat, k: nat, n: nat)
    requires Augmented(M, m) && k < n <= |M| && n <= m + 1 && Reduce(M, m, n).Some?
    ensures Reduce(M, m, k).Some? && Reduce(M, m, k).value[k][k] != 0.0
  {
    if k < n - 1 {
      ReduceEarlierStage(M, m, k, n - 1);
    }
  }

  /** The augmented system [A | b] has exactly the solutions of A·x = b. */
  lemma {:induction false} AugmentPreservesSolutions(A: Matrix, m: nat, b: Vector, x: Vector)
    requires Rect(A, m) && |b| == |A| && |x| == m
    ensures SolvesAugmented(Augment(A, m, b), x) <==> Solves(A, x, b)
  {
    var M := Augment(A, m, b);
    forall r | 0 <= r < |A|
      ensures RowDot(M[r], x, m) == RowDot(A[r], x, m)
    {
      RowDotAgree(M[r], A[r], x, x, m);
    }
  }

  /** With at least as many columns as rows (n <= m) and nonzero pivots, the
      returned n entries are the values of the first n unknowns: a vector
      whose remaining m - n entries are zero solves A·x = b exactly when its
      first n entries are the returned ones. In particular the returned vector
      padded with zeros is a solution. */
  lemma JordanSolvesWide(A: Matrix, b: Vector)
    requires JordanApplicable(A, b) && |A| <= Width(A)
    ensures forall y :: |y| == Width(A) && y[|A|..] == Zeros(Width(A) - |A|) ==>
      (Solves(A, y, b) <==> y[..|A|] == JordanSolution(A, b))
    ensures Solves(A, JordanSolution(A, b) + Zeros(Width(A) - |A|), b)
  {
    var n, m := |A|, Width(A);
    var M := Augment(A, m, b);
    var R := Reduce(M, m, n).value;
    var x := JordanSolution(A, b);
    ReduceUnitColumns(M, m, n);
    forall y | |y| == m && y[n..] == Zeros(m - n)
      ensures Solves(A, y, b) <==> y[..n] == x
    {
      AugmentPreservesSolutions(A, m, b, y);
      ReducePreservesSolutions(M, m, n, y);
      forall r | 0 <= r < n
        ensures RowDot(R[r], y, m) == y[r]
      {
        assert forall j :: n <= j < m ==> y[j] == y[n..][j - n];
        RowDotZeroTail(R[r], y, n, m);
        RowDotUnit(R[r], y, r, n);
      }
      if SolvesAugmented(R, y) {
        assert forall r :: 0 <= r < n ==> y[r] == x[r];
      }
      if y[..n] == x {
        assert forall r :: 0 <= r < n ==> RowHolds(R[r], y);
      }
    }
    var z := x + Zeros(m - n);
    assert z[n..] == Zeros(m - n) && z[..n] == x;
  }

  /** Gauss-Jordan on a square A is exact: when every pivot is nonzero, the
      returned vector solves A·x = b, and no other vector does. */
  lemma JordanSolvesExactly(A: Matrix, b: Vector)
    requires JordanApplicable(A, b) && Square(A)
    ensures forall y :: |y| == |A| ==> (Solves(A, y, b) <==> y == JordanSolution(A, b))
  {
    var n := |A|;
    JordanSolvesWide(A, b);
    forall y | |y| == n
      ensures y[n..] == Zeros(0) && y[..n] == y
    {
    }
  }

  /** With one row more than columns (n = m + 1), the last pivot step divides
      by the transformed right-hand side of row n - 1. When that entry is
      nonzero, row n - 1 of the reduced system reads 0 = 1, so A·x = b has no
      solution at all, and the returned vector is the unit vector e_{n-1}. */
  lemma JordanNarrowNoSolution(A: Matrix, b: Vector)
    requires JordanApplicable(A, b) && |A| == Width(A) + 1
    ensures forall r :: 0 <= r < |A| ==> JordanSolution(A, b)[r] == if r == |A| - 1 then 1.0 else 0.0
    ensures forall y :: |y| == Width(A) ==> !Solves(A, y, b)
  {
    var n, m := |A|, Width(A);
    var M := Augment(A, m, b);
    var R := Reduce(M, m, n).value;
    ReduceUnitColumns(M, m, n);
    forall y | |y| == m
      ensures !Solves(A, y, b)
    {
      AugmentPreservesSolutions(A, m, b, y);
      ReducePreservesSolutions(M, m, n, y);
      RowDotZeroTail(R[n - 1], y, 0, m);
      assert !RowHolds(R[n - 1], y);
    }
  }

  /** Gauss-Jordan agrees with the expected answer on A = [[2, 1], [1, 3]],
      b = [3, 5]: x = [0.8, 1.4]. */
  lemma JordanExample()
    ensures JordanApplicable([[2.0, 1.0], [1.0, 3.0]], [3.0, 5.0])
    ensures JordanSolution([[2.0, 1.0], [1.0, 3.0]], [3.0, 5.0]) == [0.8, 1.4]
  {
    var A, b := [[2.0, 1.0], [1.0, 3.0]], [3.0, 5.0];
    var M := Augment(A, 2, b);
    assert Reduce(M, 2, 1) == Some(PivotStep(M, 2, 0));
    PivotStepAt(M, 2, 0, 1, 1);
    assert PivotStep(M, 2, 0)[1][1] == 2.5;
    JordanSolvesExactly(A, b);
    var x := [0.8, 1.4];
    assert RowDot(A[0], x, 2) == 3.0 && RowDot(A[1], x, 2) == 5.0;
    assert Solves(A, x, b);
  }

  /** A wide system, two equations in three unknowns: A = [[1, 0, 0],
      [0, 1, 0]], b = [1, 2] gives [1, 2], the first two unknowns of the
      solution [1, 2, 0]. */
  lemma JordanWideExample()
    ensures JordanApplicable([[1.0, 0.0, 0.0], [0.0, 1.0, 0.0]], [1.0, 2.0])
    ensures JordanSolution([[1.0, 0.0, 0.0], [0.0, 1.0, 0.0]], [1.0, 2.0]) == [1.0, 2.0]
  {
    var A, b := [[1.0, 0.0, 0.0], [0.0, 1.0, 0.0]], [1.0, 2.0];
    var M := Augment(A, 3, b);
    assert Reduce(M, 3, 1) == Some(PivotStep(M, 3, 0));
    PivotStepAt(M, 3, 0, 1, 1);
    JordanSolvesWide(A, b);
    var y := [1.0, 2.0, 0.0];
    assert RowDot(A[0], y, 3) == 1.0 && RowDot(A[1], y, 3) == 2.0;
    assert Solves(A, y, b);
    assert y[2..] == Zeros(1) && y[..2] == [1.0, 2.0];
  }

  /** A narrow system, two equations in one unknown: A = [[2], [4]],
      b = [1, 3] has no solution, and `metodo_jordan` returns [0, 1]. */
  lemma JordanNarrowExample()
    ensures JordanApplicable([[2.0], [4.0]], [1.0, 3.0])
    ensures JordanSolution([[2.0], [4.0]], [1.0, 3.0]) == [0.0, 1.0]
    ensures forall y :: |y| == 1 ==> !Solves([[2.0], [4.0]], y, [1.0, 3.0])
  {
    var A, b := [[2.0], [4.0]], [1.0, 3.0];
    var M := Augment(A, 1, b);
    assert Reduce(M, 1, 1) == Some(PivotStep(M, 1, 0));
    PivotStepAt(M, 1, 0, 1, 1);
    assert PivotStep(M, 1, 0)[1][1] == 1.0;
    JordanNarrowNoSolution(A, b);
  }

  /** Entry by entry, the array `a` holds the matrix `M`. */
  ghost predicate Holds(a: array2<real>, M: Matrix)
    reads a
  {
    a.Length0 == |M| && Rect(M, a.Length1) &&
    forall r, c :: 0 <= r < a.Length0 && 0 <= c < a.Length1 ==> a[r, c] == M[r][c]
  }

  /** The augmented matrix [A | b] of an A with m columns, as a new
      n x (m + 1) array; the caller's A and b are values and stay as they were. */
  method NewAugmented(A: Matrix, m: nat, b: Vector) returns (a: array2<real>)
    requires Rect(A, m) && |b| == |A|
    ensures fresh(a) && a.Length1 == m + 1 && Holds(a, Augment(A, m, b))
  {
    var n := |A|;
    a := new real[n, m + 1]((r, c) requires 0 <= r < n && 0 <= c < m + 1 =>
      if c < m then A[r][c] else b[r]);
  }

  /** Line 24: row i divided by its pivot; the right-hand side is evaluated
      before any entry is stored, so every entry is divided by the old pivot. */
  method DivideRow(a: array2<real>, i: nat)
    requires i < a.Length0 && i < a.Length1 && a[i, i] != 0.0
    modifies a
    ensures forall r, c :: 0 <= r < a.Length0 && 0 <= c < a.Length1 ==>
      a[r, c] == if r == i then old(a[i, c]) / old(a[i, i]) else old(a[r, c])
  {
    forall c | 0 <= c < a.Length1 {
      a[i, c] := a[i, c] / a[i, i];
    }
  }

  /** Line 28: row j loses `factor` times row i; every other row is untouched. */
  method SubtractMultiple(a: array2<real>, j: nat, factor: real, i: nat)
    requires i < a.Length0 && j < a.Length0 && i != j
    modifies a
    ensures forall r, c :: 0 <= r < a.Length0 && 0 <= c < a.Length1 ==>
      a[r, c] == if r == j then old(a[j, c]) - factor * old(a[i, c]) else old(a[r, c])
  {
    forall c | 0 <= c < a.Length1 {
      a[j, c] := a[j, c] - factor * a[i, c];
    }
  }

  /** Lines 24-28, one pass of the outer loop: the array goes from holding M
      to holding PivotStep(M, m, i). */
  method PivotInPlace(a: array2<real>, i: nat, ghost M: Matrix, ghost m: nat)
    requires Augmented(M, m) && i < |M| && i <= m && M[i][i] != 0.0 && Holds(a, M)
    modifies a
    ensures Holds(a, PivotStep(M, m, i))
  {
    ghost var N := PivotStep(M, m, i);
    forall r, c | 0 <= r < |M| && 0 <= c < m + 1
      ensures N[r][c] == if r == i then M[i][c] / M[i][i] else M[r][c] - M[r][i] * (M[i][c] / M[i][i])
    {
      PivotStepAt(M, m, i, r, c);
    }
    DivideRow(a, i);
    for j := 0 to a.Length0
      invariant forall r, c :: 0 <= r < a.Length0 && 0 <= c < a.Length1 ==>
        a[r, c] == if r == i || r < j then N[r][c] else M[r][c]
    {
      if i != j {
        var factor := a[j, i];
        SubtractMultiple(a, j, factor, i);
      }
    }
  }

  /** `metodo_jordan`: reduces the augmented array in place, pivot by pivot,
      and returns its last column. */
  method MetodoJordan(A: Matrix, b: Vector) returns (x: Vector)
    requires JordanApplicable(A, b)
    ensures x == JordanSolution(A, b)
    ensures |A| <= Width(A) ==> Solves(A, x + Zeros(Width(A) - |A|), b)
    ensures Square(A) ==> forall y :: |y| == |A| ==> (Solves(A, y, b) <==> y == x)
    ensures |A| == Width(A) + 1 ==> forall y :: |y| == Width(A) ==> !Solves(A, y, b)
  {
    var n, m := |A|, Width(A);
    var a := NewAugmented(A, m, b);
    ghost var aug := Augment(A, m, b);
    for i := 0 to n
      invariant Reduce(aug, m, i).Some? && Holds(a, Reduce(aug, m, i).value)
    {
      ReduceEarlierStage(aug, m, i, n);
      ghost var M := Reduce(aug, m, i).value;
      PivotInPlace(a, i, M, m);
      assert Reduce(aug, m, i + 1) == Some(PivotStep(M, m, i));
    }
    x := seq(n, r requires 0 <= r < n reads a => a[r, m]);
    assert x == JordanSolution(A, b) by {
      var R := Reduce(aug, m, n).value;
      assert forall r :: 0 <= r < n ==> x[r] == R[r][m];
    }
    if n <= m {
      JordanSolvesWide(A, b);
    }
    if Square(A) {
      JordanSolvesExactly(A, b);
    }
    if n == m + 1 {
      JordanNarrowNoSolution(A, b);
    }
  }
}

/** Exact linear algebra over the reals that both hand-written solvers rely on:
    matrices as sequences of rows, the partial sums of a row times a vector,
    and what it means for a vector to solve a system. */
module Linear {

  type Matrix = seq<seq<real>>
  type Vector = seq<real>

  /** Every row of `M` has exactly `w` entries. */
  predicate Rect(M: Matrix, w: nat) {
    forall r :: 0 <= r < |M| ==> |M[r]| == w
  }

  /** The length of A's first row, or 0 when A has no rows: the number of
      columns numpy gives A when every row has this length. */
  function Width(A: Matrix): nat {
    if |A| == 0 then 0 else |A[0]|
  }

  /** `A` is n x n, where n is its number of rows. */
  predicate Square(A: Matrix) {
    Rect(A, |A|)
  }

  /** `A` is square and every entry above the diagonal is zero. */
  predicate LowerTriangular(A: Matrix) {
    Square(A) && forall i, j :: 0 <= i < j < |A| ==> A[i][j] == 0.0
  }

  /** The sum of row[j] * x[j] over j < k, accumulated in increasing j. */
  function RowDot(row: Vector, x: Vector, k: nat): real
    requires k <= |row| && k <= |x|
  {
    if k == 0 then 0.0 else RowDot(row, x, k - 1) + row[k - 1] * x[k - 1]
  }

  /** `x` solves A·x = b exactly: A has one column per entry of x, b one entry
      per row of A, and for every row i, sum_j A[i][j] * x[j] == b[i]. */
  predicate Solves(A: Matrix, x: Vector, b: Vector) {
    Rect(A, |x|) && |b| == |A| &&
    forall i :: 0 <= i < |A| ==> RowDot(A[i], x, |x|) == b[i]
  }

  /** `x` solves the augmented system [M' | c]: every row of `M` has |x| + 1
      entries and the first |x| of them, dotted with `x`, give the last one. */
  predicate SolvesAugmented(M: Matrix, x: Vector) {
    Rect(M, |x| + 1) && forall r :: 0 <= r < |M| ==> RowHolds(M[r], x)
  }

  /** One row [a_0 .. a_{n-1} | c] of an augmented system holds for x:
      sum_j a_j * x[j] == c. */
  predicate RowHolds(row: Vector, x: Vector) {
    |row| == |x| + 1 && RowDot(row, x, |x|) == row[|x|]
  }

  /** A partial sum reads only the first k entries of the row and of the vector. */
  lemma {:induction false} RowDotAgree(row1: Vector, row2: Vector, x1: Vector, x2: Vector, k: nat)
    requires k <= |row1| && k <= |row2| && k <= |x1| && k <= |x2|
    requires forall j :: 0 <= j < k ==> row1[j] == row2[j] && x1[j] == x2[j]
    ensures RowDot(row1, x1, k) == RowDot(row2, x2, k)
  {
    if k > 0 {
      RowDotAgree(row1, row2, x1, x2, k - 1);
    }
  }

  /** Terms between k and m with a zero entry in the row or in x add nothing
      to the sum. */
  lemma {:induction false} RowDotZeroTail(row: Vector, x: Vector, k: nat, m: nat)
    requires k <= m <= |row| && m <= |x|
    requires forall j :: k <= j < m ==> row[j] == 0.0 || x[j] == 0.0
    ensures RowDot(row, x, m) == RowDot(row, x, k)
  {
    if m > k {
      RowDotZeroTail(row, x, k, m - 1);
    }
  }

  /** Dotting the unit row e_r with `x` picks out x[r] (once r is within range). */
  lemma {:induction false} RowDotUnit(row: Vector, x: Vector, r: nat, k: nat)
    requires k <= |row| && k <= |x|
    requires forall j :: 0 <= j < k ==> row[j] == if j == r then 1.0 else 0.0
    ensures RowDot(row, x, k) == if r < k then x[r] else 0.0
  {
    if k > 0 {
      RowDotUnit(row, x, r, k - 1);
    }
  }

  /** The row divided entry by entry by p. */
  function ScaleRow(row: Vector, p: real): (s: Vector)
    requires p != 0.0
    ensures |s| == |row| && forall c :: 0 <= c < |row| ==> p * s[c] == row[c]
  {
    seq(|row|, c requires 0 <= c < |row| => row[c] / p)
  }

  /** Row rj minus f times row ri. */
  function SubtractRow(rj: Vector, f: real, ri: Vector): (s: Vector)
    requires |ri| == |rj|
    ensures |s| == |rj| && forall c :: 0 <= c < |rj| ==> s[c] + f * ri[c] == rj[c]
  {
    seq(|rj|, c requires 0 <= c < |rj| => rj[c] - f * ri[c])
  }

  /** The vector of k zeros. */
  function Zeros(k: nat): (z: Vector)
    ensures |z| == k && forall j :: 0 <= j < k ==> z[j] == 0.0
  {
    seq(k, _ => 0.0)
  }

  /** Dividing a row by a nonzero p divides its partial sums by p. */
  lemma {:induction false} RowDotScaled(row: Vector, p: real, x: Vector, k: nat)
    requires p != 0.0 && k <= |row| && k <= |x|
    ensures RowDot(ScaleRow(row, p), x, k) == RowDot(row, x, k) / p
  {
    if k > 0 {
      RowDotScaled(row, p, x, k - 1);
      var a, c, d := RowDot(row, x, k - 1), row[k - 1], x[k - 1];
      assert ScaleRow(row, p)[k - 1] == c / p;
      assert (c / p) * d == (c * d) / p;
      assert a / p + (c * d) / p == (a + c * d) / p;
    }
  }

  /** Subtracting f times row ri from row rj subtracts f times ri's partial sums. */
  lemma {:induction false} RowDotCombined(rj: Vector, f: real, ri: Vector, x: Vector, k: nat)
    requires |ri| == |rj| && k <= |rj| && k <= |x|
    ensures RowDot(SubtractRow(rj, f, ri), x, k) == RowDot(rj, x, k) - f * RowDot(ri, x, k)
  {
    if k > 0 {
      RowDotCombined(rj, f, ri, x, k - 1);
      var c, d, e := rj[k - 1], ri[k - 1], x[k - 1];
      assert SubtractRow(rj, f, ri)[k - 1] == c - f * d;
      assert (c - f * d) * e == c * e - f * (d * e);
      assert f * RowDot(ri, x, k) == f * RowDot(ri, x, k - 1) + f * (d * e);
    }
  }

  /** Subtracting the same multiple of equal quantities from both sides keeps
      an equation equivalent. */
  lemma SubtractedEqual(a: real, e: real, f: real, u: real, v: real)
    requires u == v
    ensures (a - f * u == e - f * v) <==> (a == e)
  {
  }

  /** With d nonzero, v = rhs / d is the one solution of d * v = rhs. */
  lemma DivisionSolves(d: real, v: real, rhs: real)
    requires d != 0.0
    ensures (v == rhs / d) <==> (d * v == rhs)
  {
  }
}

/** The "Calcular Solución" button handler: the size guard, the conversion of
    the parsed rows into a numpy array, the choice of method, and the
    determinant check in front of Cramer's rule. The numpy calls
    `determinante` (np.linalg.det) and `metodo_cramer` (np.linalg.inv
    followed by np.dot) are not part of this model; they are passed in as the
    functions `det` and `cramer`. */
module Calculator {
  import opened Linear
  import opened Triangular
  import opened Elimination

  /** The three options of the sidebar radio button. */
  datatype SolverMethod = Cramer | Jordan | Substitution

  /** The exceptions the handler lets escape: numpy's ValueError for rows of
      different lengths, IndexError for a diagonal entry past the last column,
      and numpy's LinAlgError for the determinant of a non-square matrix. */
  datatype PyError = ValueError | IndexError | LinAlgError

  /** What the page shows: a solution vector, the "enter A and b correctly"
      error, the "determinant is zero, no unique solution" error, or the
      traceback of an exception nothing catches. */
  datatype Outcome = Solved(x: Vector) | InvalidInput | NoUniqueSolution | Raised(error: PyError)

  /** The button handler for `n` variables, A's parsed rows and b's parsed
      entries. The guard compares only the number of rows of A and the length
      of b with n; the row widths reach numpy unchecked. A zero pivot or zero
      diagonal entry is the caller's obligation, stated as the requires
      clauses, because numpy would divide by it. */
  method CalcularSolucion(metodo: SolverMethod, n: nat, A: Matrix, b: Vector,
                          det: Matrix -> real, cramer: (Matrix, Vector) -> Vector)
    returns (r: Outcome)
    requires |A| == n && |b| == n && Rect(A, Width(A)) && metodo == Jordan && n <= Width(A) + 1
      ==> JordanApplicable(A, b)
    requires |A| == n && |b| == n && Rect(A, Width(A)) && metodo == Substitution && n <= Width(A)
      ==> SubstitutionApplicable(A, b)
    ensures r.InvalidInput? <==> !(|A| == n && |b| == n)
    ensures r == Raised(ValueError) <==> |A| == n && |b| == n && !Rect(A, Width(A))
    ensures r == Raised(LinAlgError) <==>
      |A| == n && |b| == n && Rect(A, Width(A)) && metodo == Cramer && Width(A) != n
    ensures r == Raised(IndexError) <==>
      |A| == n && |b| == n && Rect(A, Width(A)) &&
      ((metodo == Jordan && n > Width(A) + 1) || (metodo == Substitution && n > Width(A)))
    ensures r.NoUniqueSolution? <==>
      |A| == n && |b| == n && Square(A) && metodo == Cramer && det(A) == 0.0
    ensures r.Solved? && metodo == Cramer ==> r.x == cramer(A, b)
    ensures r.Solved? && metodo == Jordan ==>
      r.x == JordanSolution(A, b) && |r.x| == n &&
      (n <= Width(A) ==> Solves(A, r.x + Zeros(Width(A) - n), b)) &&
      (Square(A) ==> forall y :: |y| == n ==> (Solves(A, y, b) <==> y == r.x)) &&
      (n == Width(A) + 1 ==> forall y :: |y| == Width(A) ==> !Solves(A, y, b))
    ensures r.Solved? && metodo == Substitution ==>
      |r.x| == n && r.x == ForwardSub(A, b) && (LowerTriangular(A) ==> Solves(A, r.x, b))
  {
    if |A| == n && |b| == n {
      if !Rect(A, Width(A)) {
        r := Raised(ValueError);
      } else {
        match metodo
        case Cramer =>
          if Width(A) != n {
            r := Raised(LinAlgError);
          } else if det(A) != 0.0 {
            r := Solved(cramer(A, b));
          } else {
            r := NoUniqueSolution;
          }
        case Jordan =>
          if n > Width(A) + 1 {
            r := Raised(IndexError);
          } else {
            var x := MetodoJordan(A, b);
            r := Solved(x);
          }
        case Substitution =>
          if n > Width(A) {
            r := Raised(IndexError);
          } else {
            var x := MetodoSustitucion(A, b);
            r := Solved(x);
          }
      }
    } else {
      r := InvalidInput;
    }
  }
}

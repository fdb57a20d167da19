# Linear-system solvers of the "Métodos de Solución de Ecuaciones" page, in Dafny

The page solves a small dense system A·x = b with one of three methods: Cramer's
rule, Gauss–Jordan elimination (`metodo_jordan`) or forward substitution
(`metodo_sustitucion`). This project models the two hand-written solvers and
the button handler that guards and dispatches them. Values are exact Dafny
`real`s, not floats.

- `linear.dfy` (module `Linear`): matrices as sequences of rows, `RowDot`
  (the partial sum of a row times a vector, in increasing column order, as both
  solvers accumulate it), `Solves(A, x, b)` and the augmented-system version,
  the row operations of elimination, and the algebra of partial sums that the
  proofs use.
- `triangular.dfy` (module `Triangular`): `MetodoSustitucion` fills a
  zero-initialised array in increasing i with a running `sum`, exactly as
  `metodo_sustitucion` does. It is proved equal to the specification
  `ForwardSub`. Lemmas about `ForwardSub` show that it satisfies every row's
  lower-triangle equation and is the only vector that does. They also show
  that entries above the diagonal never matter. For a lower-triangular A with
  a nonzero diagonal, the result is the unique solution of A·x = b.
- `elimination.dfy` (module `Elimination`): `MetodoJordan` takes an A of n
  rows and m columns. It builds a fresh n × (m+1) `array2` holding [A | b]
  and reduces it in place, pivot by pivot. For each pivot it divides row i by
  its pivot (a whole-row `forall` assignment, as numpy evaluates the
  right-hand side before storing). It then subtracts `factor` times row i from
  every other row. Finally it returns the last column. The array is proved to
  hold `Reduce(Augment(A, m, b), m, i)` after i steps. Lemmas show that after
  step i the columns 0..i are unit columns, and that every step keeps the
  solution set, in both directions. What the returned vector means depends on
  the shape of A, as long as every pivot is nonzero:
  - square A (m = n): it solves A·x = b, and no other vector does;
  - wide A (m > n): padded with m − n zeros, it solves A·x = b;
  - one column short (m = n − 1): the last pivot is the transformed entry of
    b. The system has no solution, and the result is the unit vector
    [0, …, 0, 1].
- `calculator.dfy` (module `Calculator`): `CalcularSolucion` is the
  "Calcular Solución" handler. It gives `InvalidInput` exactly when A's row
  count or b's length differs from n; the row widths are not checked. It
  gives `Raised(ValueError)` when the rows have different lengths (`np.array`,
  line 109). Cramer on a non-square A gives `Raised(LinAlgError)` (the
  determinant at line 114). Cramer runs only when the determinant is nonzero,
  and otherwise the handler gives `NoUniqueSolution`. Jordan gives
  `Raised(IndexError)` when A has fewer than n − 1 columns, since the diagonal
  entry read at line 24 lies past the last column. Substitution gives it when
  A has fewer than n columns (line 41). Otherwise Jordan and substitution run
  and their result is shown as a solution.

Caller's data: A and b are Dafny sequences, which are values. No solver can
change them. Jordan works on a freshly allocated array (`NewAugmented`
ensures `fresh`).

Two guards are narrower than a reader might expect, and the model follows the
code: the size guard at `ecuacion.py:108` compares only `len(A)` and `len(b)`
with n, not the length of each row; and the Cramer guard at line 114 compares
the determinant with exactly zero, with no tolerance. Because of the first,
Jordan on an n × (n − 1) matrix reports "¡Solución encontrada!" for a system
that has no solution (`Elimination.JordanNarrowExample`: A = [[2], [4]],
b = [1, 3] gives [0, 1]).

## Model

| member | source | states |
|---|---|---|
| `Triangular.MetodoSustitucion` | ecuacion.py:33-43 | returns n entries equal to `ForwardSub(A, b)`; each row's lower-triangle equation A[i][i]·x[i] + Σ_{j<i} A[i][j]·x[j] = b[i] holds; for lower-triangular A, A·x = b; loop invariants: entries 0..i-1 are final, the rest still 0 |
| `Triangular.ForwardPrefix` | ecuacion.py:37-41 | the first k entries computed by the outer loop, as a recursive specification; its contract states only that it has k entries, and its meaning is given by the lemmas below |
| `Triangular.ForwardSub` | ecuacion.py:35-43 | the vector forward substitution returns has one entry per row of A (line 35 sizes it n); its meaning is given by `ForwardSubRecurrence` and `ForwardSubUnique` |
| `Triangular.ForwardPrefixExtends` | ecuacion.py:37-41 | entries are computed once in increasing i and never revised: a longer prefix extends a shorter one |
| `Triangular.ForwardSubRecurrence` | ecuacion.py:37-41 | the result has n entries and every row's lower-triangle equation holds for it |
| `Triangular.ForwardSubUnique` | ecuacion.py:37-41 | any vector satisfying all lower-triangle equations is the forward-substitution result (converse of the above) |
| `Triangular.ForwardPrefixIgnoresUpper` | ecuacion.py:39-41 | only A[i][j] with j ≤ i and b are read: matrices agreeing on and below the diagonal give the same prefixes |
| `Triangular.ForwardSubIgnoresUpper` | ecuacion.py:39-41 | entries above the diagonal never affect the result |
| `Triangular.LowerTriangularSolution` | ecuacion.py:37-41 | for lower-triangular A with nonzero diagonal: the result solves A·x = b, and a vector solves it iff it is the result |
| `Triangular.SubstitutionExample` | ecuacion.py:33-43 | A = [[1,0],[2,3]], b = [4,11] gives [4, 1] |
| `Elimination.Augment` | ecuacion.py:21 | [A \| b] for an A with m columns has n rows of m+1 entries, its first m columns equal A and its last column equals b |
| `Elimination.NewAugmented` | ecuacion.py:20-21 | the augmented matrix is a freshly allocated n × (m+1) array holding [A \| b] |
| `Elimination.PivotStep` | ecuacion.py:24-28 | one pass of the outer loop keeps the n × (m+1) shape, puts 1 at the pivot position (i, i) and clears column i in every other row |
| `Elimination.Reduce` | ecuacion.py:23-28 | a successful reduction keeps the n × (m+1) shape (the None result for a zero pivot is part of its definition, not of its contract) |
| `Elimination.JordanSolution` | ecuacion.py:30 | the returned last column has one entry per row of A; its meaning is given by `JordanSolvesWide`, `JordanSolvesExactly` and `JordanNarrowNoSolution` |
| `Elimination.PivotStepAt` | ecuacion.py:24-28 | entry (r, c) of `PivotStep(M, m, i)`, written out entry by entry; a rewriting aid for the proofs about a step |
| `Elimination.PivotStepUnitColumns` | ecuacion.py:23-28 | a step with nonzero pivot keeps columns < i unit and makes column i the unit column e_i |
| `Elimination.ReduceUnitColumns` | ecuacion.py:23-28 | outer-loop invariant: after k steps, columns 0..k-1 are e_0..e_{k-1} |
| `Elimination.PivotStepPreservesSolutions` | ecuacion.py:24-28 | scaling row i by a nonzero pivot and subtracting multiples of it from other rows keep exactly the same solutions |
| `Elimination.PivotRowPreserved` | ecuacion.py:24 | the pivot row holds for x after being divided by its nonzero pivot exactly when it held before |
| `Elimination.OtherRowCombined` | ecuacion.py:25-28 | after the step, row j ≠ i, its dot product with x and its last entry are the old ones minus factor × the new pivot row's |
| `Elimination.OtherRowPreserved` | ecuacion.py:25-28 | given the new pivot row holds, row j ≠ i holds after the step exactly when it held before |
| `Elimination.ReducePreservesSolutions` | ecuacion.py:23-28 | after any number of steps the augmented system has the same solutions as [A \| b] |
| `Elimination.ReduceEarlierStage` | ecuacion.py:23-24 | if the whole reduction succeeds, every earlier stage exists and its pivot is nonzero |
| `Elimination.AugmentPreservesSolutions` | ecuacion.py:21 | x solves [A \| b] iff A·x = b |
| `Elimination.JordanSolvesWide` | ecuacion.py:19-30 | for n ≤ m with nonzero pivots: a vector whose last m − n entries are zero solves A·x = b iff its first n entries are the returned ones; the returned vector padded with zeros is a solution |
| `Elimination.JordanSolvesExactly` | ecuacion.py:19-30 | for square A with nonzero pivots, the returned vector solves A·x = b and is the only solution |
| `Elimination.JordanNarrowNoSolution` | ecuacion.py:19-30 | for m = n − 1 with nonzero pivots (the last one being the transformed b entry), the result is [0, …, 0, 1] and A·x = b has no solution |
| `Elimination.JordanExample` | ecuacion.py:19-30 | A = [[2,1],[1,3]], b = [3,5] has nonzero pivots and gives [0.8, 1.4] |
| `Elimination.JordanWideExample` | ecuacion.py:19-30 | A = [[1,0,0],[0,1,0]], b = [1,2] gives [1, 2] |
| `Elimination.JordanNarrowExample` | ecuacion.py:19-30 | A = [[2],[4]], b = [1,3] gives [0, 1], although no x solves it |
| `Elimination.DivideRow` | ecuacion.py:24 | row i becomes old row i divided by the old pivot; other rows unchanged |
| `Elimination.SubtractMultiple` | ecuacion.py:27-28 | row j becomes old row j minus factor × row i; other rows unchanged |
| `Elimination.PivotInPlace` | ecuacion.py:23-28 | one outer-loop pass turns the array from holding M into holding PivotStep(M, m, i) |
| `Elimination.MetodoJordan` | ecuacion.py:19-30 | returns the last column of the fully reduced matrix; for n ≤ m, padded with zeros it solves A·x = b; for square A it is the only solution; for m = n − 1 no solution exists |
| `Linear.RowDot` | ecuacion.py:39-40 | the running sum Σ_{j<k} row[j]·x[j] in increasing j; it has no contract of its own, and its properties are the `RowDot…` lemmas below and the inner-loop invariant of `MetodoSustitucion` |
| `Linear.ScaleRow` | ecuacion.py:24 | the row divided by p: p times each new entry gives back the old one |
| `Linear.SubtractRow` | ecuacion.py:28 | row j minus f × row i: adding f × row i back gives the old row j |
| `Linear.RowDotAgree` | ecuacion.py:39-40 | the running sum over j < k reads only entries below k of the row and of x |
| `Linear.RowDotZeroTail` | ecuacion.py:39-40 | terms with a zero row entry or a zero x entry add nothing to the sum |
| `Linear.RowDotUnit` | ecuacion.py:30 | a unit row e_r dotted with x gives x[r], which is why the last column is the solution |
| `Linear.RowDotScaled` | ecuacion.py:24 | dividing a row by p divides its dot product by p |
| `Linear.RowDotCombined` | ecuacion.py:27-28 | subtracting f × row i from row j subtracts f × (row i's dot product) |
| `Calculator.CalcularSolucion` | ecuacion.py:107-132 | `InvalidInput` iff len(A) ≠ n or len(b) ≠ n (row widths unchecked); `Raised(ValueError)` iff the rows differ in length; `Raised(LinAlgError)` iff Cramer on non-square A; `Raised(IndexError)` iff Jordan with fewer than n − 1 columns or substitution with fewer than n; `NoUniqueSolution` iff Cramer on square A with det(A) = 0; otherwise the chosen solver's result, with its guarantee for that shape of A |

## Left out

- Page setup, headings, sidebar widgets, the button and all messages (ecuacion.py:1-6, 45-105 and the display calls in 116-146): user interface.
- The bar chart (ecuacion.py:135-142): plotting. After the "determinant is zero" branch, line 136 plots `resultado`, which that branch never assigns. This is not modelled.
- Parsing of the text inputs with `split` and `float` (ecuacion.py:65-77): the model receives the parsed rows and entries. A row typed as blanks parses to an empty row; the model accepts empty rows like any other.
- `determinante` and `metodo_cramer` (ecuacion.py:9-16) are numpy calls (`np.linalg.det`, `np.linalg.inv`, `np.dot`) and are not part of this model. The handler receives them as the function parameters `det` and `cramer`. So no property relating Cramer's result to Jordan's is stated. Only the LinAlgError that `np.linalg.det` raises for a non-square A is modelled, as an outcome.
- Floating-point rounding: all arithmetic is exact over `real`. A·x = b holds exactly, not within a tolerance.
- Elimination.MetodoJordan: requires every pivot to be nonzero when reached (`JordanApplicable`). `metodo_jordan` divides anyway and returns inf/NaN entries, which are not modelled. It also requires at most m + 1 rows; with more, line 24 raises IndexError, which the handler models as `Raised(IndexError)` without calling it.
- Elimination.MetodoJordan: for a wide A (m > n) the contract describes only the solutions whose last m − n unknowns are zero, not the whole solution set.
- Triangular.MetodoSustitucion: requires a nonzero diagonal and an entry of b for every row (`SubstitutionApplicable`). `metodo_sustitucion` divides by zero and returns inf/NaN, or raises IndexError on a narrow row (line 41); the handler models the narrow-row IndexError as `Raised(IndexError)` without calling it.
- Calculator.CalcularSolucion: for a rectangular A whose shape lets the chosen solver run, it requires that solver's nonzero pivots (Jordan) or nonzero diagonal (substitution), since a zero there yields inf/NaN, which is not modelled. For rows of different lengths it follows numpy 1.24 and later, where `np.array` raises ValueError; older numpy builds an object array instead, which is not modelled.
- The range 2 ≤ n ≤ 10 is enforced by the number-input widget (line 61). The model accepts any n.

/** Local 3x3 statistics of the intensity field and the neighbour weight
    (`compute_means`, `compute_variance`, `compute_wrs` of the colorization
    program). Coefficients are exact reals. */
module LocalStatistics {

  /** A rectangular field of `rows` x `cols` reals. */
  predicate IsField(f: seq<seq<real>>, rows: nat, cols: nat)
  {
    |f| == rows && forall i :: 0 <= i < rows ==> |f[i]| == cols
  }

  /** The 3x3 window centred on cell (i, j) lies inside `f`. */
  predicate InWindow(f: seq<seq<real>>, i: nat, j: nat)
  {
    && 1 <= i && i + 1 < |f| && 1 <= j
    && j + 1 < |f[i - 1]| && j + 1 < |f[i]| && j + 1 < |f[i + 1]|
  }

  /** Sum of the 3x3 window of `f` centred on cell (i, j). */
  function WindowSum(f: seq<seq<real>>, i: nat, j: nat): real
    requires InWindow(f, i, j)
  {
    f[i - 1][j - 1] + f[i - 1][j] + f[i - 1][j + 1]
    + f[i][j - 1] + f[i][j] + f[i][j + 1]
    + f[i + 1][j - 1] + f[i + 1][j] + f[i + 1][j + 1]
  }

  /** Unnormalised sum of squared deviations from `m` over the 3x3 window of
      `f` centred on cell (i, j). */
  function WindowSquares(f: seq<seq<real>>, i: nat, j: nat, m: real): real
    requires InWindow(f, i, j)
  {
    Sq(f[i - 1][j - 1] - m) + Sq(f[i - 1][j] - m) + Sq(f[i - 1][j + 1] - m)
    + Sq(f[i][j - 1] - m) + Sq(f[i][j] - m) + Sq(f[i][j + 1] - m)
    + Sq(f[i + 1][j - 1] - m) + Sq(f[i + 1][j] - m) + Sq(f[i + 1][j + 1] - m)
  }

  /** Product of two reals, kept as a function so that facts about it are
      stated once and reused. */
  function Times(a: real, b: real): real
  {
    a * b
  }

  /** The product of two positive reals is positive. */
  lemma PositiveProduct(a: real, b: real)
    requires a > 0.0 && b > 0.0
    ensures Times(a, b) > 0.0
  {
  }

  /** The square of a real: never negative, and zero only at zero. */
  function Sq(x: real): (r: real)
    ensures r >= 0.0
    ensures r == 0.0 <==> x == 0.0
  {
    if x > 0.0 then PositiveProduct(x, x); Times(x, x)
    else if x < 0.0 then PositiveProduct(-x, -x); assert Times(-x, -x) == Times(x, x); Times(x, x)
    else 0.0
  }

  /** True when all nine cells of the window centred on (i, j) equal `c`. */
  predicate ConstantWindow(f: seq<seq<real>>, i: nat, j: nat, c: real)
    requires InWindow(f, i, j)
  {
    forall a, b :: i - 1 <= a <= i + 1 && j - 1 <= b <= j + 1 ==> f[a][b] == c
  }

  /** `compute_means`: the mean of every 3x3 window of a field; the result has
      one cell less on every side. */
  function ComputeMeans(f: seq<seq<real>>, rows: nat, cols: nat): (means: seq<seq<real>>)
    requires rows >= 3 && cols >= 3 && IsField(f, rows, cols)
    ensures IsField(means, rows - 2, cols - 2)
  {
    seq(rows - 2, i requires 0 <= i < rows - 2 =>
      seq(cols - 2, j requires 0 <= j < cols - 2 => (1.0 / 9.0) * WindowSum(f, i + 1, j + 1)))
  }

  /** `compute_variance`: for every 3x3 window, the unnormalised sum of squared
      deviations from the matching entry of `means`. */
  function ComputeVariance(f: seq<seq<real>>, means: seq<seq<real>>, rows: nat, cols: nat): (variance: seq<seq<real>>)
    requires rows >= 3 && cols >= 3 && IsField(f, rows, cols) && IsField(means, rows - 2, cols - 2)
    ensures IsField(variance, rows - 2, cols - 2)
    ensures forall i, j :: 0 <= i < rows - 2 && 0 <= j < cols - 2 ==> variance[i][j] >= 0.0
  {
    seq(rows - 2, i requires 0 <= i < rows - 2 =>
      seq(cols - 2, j requires 0 <= j < cols - 2 => WindowSquares(f, i + 1, j + 1, means[i][j])))
  }

  /** Each mean depends on its own window only: two fields that agree on the
      window centred on (i + 1, j + 1) have the same mean there. */
  lemma MeansAreLocal(f: seq<seq<real>>, g: seq<seq<real>>, rows: nat, cols: nat, i: nat, j: nat)
    requires rows >= 3 && cols >= 3 && IsField(f, rows, cols) && IsField(g, rows, cols)
    requires i < rows - 2 && j < cols - 2
    requires forall a, b :: i <= a <= i + 2 && j <= b <= j + 2 ==> f[a][b] == g[a][b]
    ensures ComputeMeans(f, rows, cols)[i][j] == ComputeMeans(g, rows, cols)[i][j]
  {
    assert ComputeMeans(f, rows, cols)[i][j] == (1.0 / 9.0) * WindowSum(f, i + 1, j + 1);
    assert ComputeMeans(g, rows, cols)[i][j] == (1.0 / 9.0) * WindowSum(g, i + 1, j + 1);
  }

  /** The mean of a window lies between the smallest and the largest of its cells,
      and equals the common value of a constant window. */
  lemma MeanBounds(f: seq<seq<real>>, rows: nat, cols: nat, i: nat, j: nat, lo: real, hi: real)
    requires rows >= 3 && cols >= 3 && IsField(f, rows, cols)
    requires i < rows - 2 && j < cols - 2
    requires forall a, b :: i <= a <= i + 2 && j <= b <= j + 2 ==> lo <= f[a][b] <= hi
    ensures lo <= ComputeMeans(f, rows, cols)[i][j] <= hi
    ensures lo == hi ==> ComputeMeans(f, rows, cols)[i][j] == lo
  {
    var sum := WindowSum(f, i + 1, j + 1);
    assert ComputeMeans(f, rows, cols)[i][j] == (1.0 / 9.0) * sum;
    assert 9.0 * lo <= sum <= 9.0 * hi;
  }

  /** A variance entry is zero exactly when every cell of its window equals the
      mean it was computed against. */
  lemma {:induction false} VarianceZeroIff(f: seq<seq<real>>, means: seq<seq<real>>, rows: nat, cols: nat, i: nat, j: nat)
    requires rows >= 3 && cols >= 3 && IsField(f, rows, cols) && IsField(means, rows - 2, cols - 2)
    requires i < rows - 2 && j < cols - 2
    ensures ComputeVariance(f, means, rows, cols)[i][j] == 0.0 <==> ConstantWindow(f, i + 1, j + 1, means[i][j])
  {
    var m := means[i][j];
    var v := ComputeVariance(f, means, rows, cols)[i][j];
    assert v == WindowSquares(f, i + 1, j + 1, m);
    if v == 0.0 {
      forall a, b | i <= a <= i + 2 && j <= b <= j + 2
        ensures f[a][b] == m
      {
        assert Sq(f[a][b] - m) == 0.0;
      }
    }
  }

  /** On a constant window, the variance computed against the computed mean is zero. */
  lemma ConstantWindowHasZeroVariance(f: seq<seq<real>>, rows: nat, cols: nat, i: nat, j: nat, c: real)
    requires rows >= 3 && cols >= 3 && IsField(f, rows, cols)
    requires i < rows - 2 && j < cols - 2
    requires ConstantWindow(f, i + 1, j + 1, c)
    ensures ComputeVariance(f, ComputeMeans(f, rows, cols), rows, cols)[i][j] == 0.0
  {
    var means := ComputeMeans(f, rows, cols);
    MeanBounds(f, rows, cols, i, j, c, c);
    VarianceZeroIff(f, means, rows, cols, i, j);
  }

  /** The variance floor used as a divisor: never below `2e-6`, so always positive. */
  function Sigma(v: real): (s: real)
    ensures s > 0.0 && s >= v && s >= 0.000002
    ensures v >= 0.000002 ==> s == v
  {
    if v > 0.000002 then v else 0.000002
  }

  /** `compute_wrs`: weight of neighbour (ic, jc) in the row of pixel (ir, jr),
      indexing `means` and `variance` at [ir, jr] and `intensity` at
      [ir + 1, jr + 1] and [ic + 1, jc + 1], exactly as the program does. */
  function Wrs(intensity: seq<seq<real>>, means: seq<seq<real>>, variance: seq<seq<real>>,
               ir: nat, jr: nat, ic: nat, jc: nat): (w: real)
    requires ir < |means| && jr < |means[ir]| && ir < |variance| && jr < |variance[ir]|
    requires ir + 1 < |intensity| && jr + 1 < |intensity[ir + 1]|
    requires ic + 1 < |intensity| && jc + 1 < |intensity[ic + 1]|
    ensures intensity[ir + 1][jr + 1] == means[ir][jr] ==> w == 1.0
    ensures intensity[ic + 1][jc + 1] == means[ir][jr] ==> w == 1.0
    ensures (intensity[ir + 1][jr + 1] - means[ir][jr]) * (intensity[ic + 1][jc + 1] - means[ir][jr]) >= 0.0 ==> w >= 1.0
    ensures (intensity[ir + 1][jr + 1] - means[ir][jr]) * (intensity[ic + 1][jc + 1] - means[ir][jr]) < 0.0 ==> w < 1.0
  {
    var sigma := Sigma(variance[ir][jr]);
    var mu := means[ir][jr];
    1.0 + (intensity[ir + 1][jr + 1] - mu) * (intensity[ic + 1][jc + 1] - mu) / sigma
  }

  /** On a uniform intensity field with its computed means, every weight is
      exactly 1, whatever the variance. */
  lemma UniformWeights(intensity: seq<seq<real>>, rows: nat, cols: nat, c: real,
                       variance: seq<seq<real>>, ir: nat, jr: nat, ic: nat, jc: nat)
    requires rows >= 3 && cols >= 3 && IsField(intensity, rows, cols)
    requires forall a, b :: 0 <= a < rows && 0 <= b < cols ==> intensity[a][b] == c
    requires IsField(variance, rows - 2, cols - 2)
    requires ir < rows - 2 && jr < cols - 2 && ic + 1 < rows && jc + 1 < cols
    ensures Wrs(intensity, ComputeMeans(intensity, rows, cols), variance, ir, jr, ic, jc) == 1.0
  {
    MeanBounds(intensity, rows, cols, ir, jr, c, c);
  }
}

/** Assembly of the colorization matrix in compressed-sparse-row form
    (`assembly_row` and `compute_matrix` of the colorization program).
    Row `Flat(r, c, nx)` of the matrix belongs to pixel (r, c): it holds 1 on
    the diagonal and, for every neighbour of the pixel inside the image, minus
    the normalised weight of that neighbour. */
module SparseAssembly {
  import opened GridIndex
  import LocalStatistics

  /** A pixel position (row, column). */
  type Cell = (int, int)

  /** One stored coefficient of a matrix row: its column and its value. */
  datatype Entry = Entry(col: int, coef: real)

  /** The statistics the assembly reads: the intensity with two ghost layers,
      the local means and variances with one. */
  datatype Statistics = Statistics(intensity: seq<seq<real>>, means: seq<seq<real>>, variance: seq<seq<real>>)

  /** A compressed-sparse-row matrix as `scipy.sparse.csr_matrix((data, indices, indptr))` stores it. */
  datatype Csr = Csr(data: seq<real>, indices: seq<int>, indptr: seq<int>)

  /** Shapes of the statistics around an `ny` x `nx` image of at least 2 x 2 pixels. */
  predicate Shaped(st: Statistics, nx: int, ny: int)
  {
    && nx >= 2 && ny >= 2
    && LocalStatistics.IsField(st.intensity, ny + 4, nx + 4)
    && LocalStatistics.IsField(st.means, ny + 2, nx + 2)
    && LocalStatistics.IsField(st.variance, ny + 2, nx + 2)
  }

  /** Image width as `compute_matrix` reads it off the means array. */
  function Width(st: Statistics): int
    requires |st.means| > 0
  {
    |st.means[0]| - 2
  }

  /** Image height as `compute_matrix` reads it off the means array. */
  function Height(st: Statistics): int
  {
    |st.means| - 2
  }

  /** Every cell of `cells` lies in the `ny` x `nx` image. */
  predicate InGrid(nx: int, ny: int, cells: seq<Cell>)
  {
    forall k :: 0 <= k < |cells| ==> 0 <= cells[k].0 < ny && 0 <= cells[k].1 < nx
  }

  /** The neighbour `cell` when it exists, nothing otherwise. */
  function Side(present: bool, cell: Cell): seq<Cell>
  {
    if present then [cell] else []
  }

  /** Cells of image row `row` in columns c - 1, c, c + 1 that exist. */
  function RowCells(nx: int, row: int, c: int): seq<Cell>
  {
    Side(c > 0, (row, c - 1)) + [(row, c)] + Side(c < nx - 1, (row, c + 1))
  }

  /** The cells of image row `row` next to column `c` when that row exists, nothing otherwise. */
  function RowIf(present: bool, nx: int, row: int, c: int): seq<Cell>
  {
    if present then RowCells(nx, row, c) else []
  }

  /** Neighbours of (r, c) stored before the diagonal: the row above, then the left neighbour. */
  function Before(nx: int, r: int, c: int): seq<Cell>
  {
    RowIf(r > 0, nx, r - 1, c) + Side(c > 0, (r, c - 1))
  }

  /** Neighbours of (r, c) stored after the diagonal: the right neighbour, then the row below. */
  function After(nx: int, ny: int, r: int, c: int): seq<Cell>
  {
    Side(c < nx - 1, (r, c + 1)) + RowIf(r < ny - 1, nx, r + 1, c)
  }

  /** The 3 x 3 stencil of (r, c) clipped to the image, in storage order. */
  function Stencil(nx: int, ny: int, r: int, c: int): seq<Cell>
  {
    Before(nx, r, c) + [(r, c)] + After(nx, ny, r, c)
  }

  /** `compute_wrs` for neighbour `cell` of pixel (r, c). */
  function Weight(st: Statistics, nx: int, ny: int, r: int, c: int, cell: Cell): real
    requires Shaped(st, nx, ny) && 0 <= r < ny && 0 <= c < nx
    requires 0 <= cell.0 < ny && 0 <= cell.1 < nx
  {
    LocalStatistics.Wrs(st.intensity, st.means, st.variance, r, c, cell.0, cell.1)
  }

  /** The weights `compute_wrs` gives the pixels of the image as neighbours of
      (r, c), as one function of the neighbour (0 outside the image). */
  function Weights(st: Statistics, nx: int, ny: int, r: int, c: int): Cell -> real
    requires Shaped(st, nx, ny) && 0 <= r < ny && 0 <= c < nx
  {
    (p: Cell) => if 0 <= p.0 < ny && 0 <= p.1 < nx then Weight(st, nx, ny, r, c, p) else 0.0
  }

  /** `w` gives every pixel of the image the weight `compute_wrs` computes for
      it as a neighbour of (r, c). The rows below are defined for any weight
      function `w`; the matrix row of a pixel takes `Weights`. */
  ghost predicate Agrees(w: Cell -> real, st: Statistics, nx: int, ny: int, r: int, c: int)
    requires Shaped(st, nx, ny) && 0 <= r < ny && 0 <= c < nx
  {
    forall p: Cell {:trigger Weight(st, nx, ny, r, c, p)} :: 0 <= p.0 < ny && 0 <= p.1 < nx ==> w(p) == Weight(st, nx, ny, r, c, p)
  }

  /** `Weights` agrees with `compute_wrs`. */
  lemma {:induction false} WeightsAgree(st: Statistics, nx: int, ny: int, r: int, c: int)
    requires Shaped(st, nx, ny) && 0 <= r < ny && 0 <= c < nx
    ensures Agrees(Weights(st, nx, ny, r, c), st, nx, ny, r, c)
  {
  }

  /** Sum of the weights of `cells`, accumulated in storage order. */
  function WeightSum(w: Cell -> real, cells: seq<Cell>): real
  {
    if |cells| == 0 then 0.0
    else WeightSum(w, cells[..|cells| - 1]) + w(cells[|cells| - 1])
  }

  /** Unnormalised off-diagonal entries for `cells`: the column of each cell
      and minus its weight, as `assembly_row` first stores them. */
  function RawOff(w: Cell -> real, nx: int, ny: int, cells: seq<Cell>): seq<Entry>
    requires InGrid(nx, ny, cells)
  {
    seq(|cells|, k requires 0 <= k < |cells| =>
      Entry(Flat(cells[k].0, cells[k].1, nx), -w(cells[k])))
  }

  /** The row of pixel (r, c) before normalisation: neighbours before the
      diagonal, the diagonal 1, neighbours after it. */
  function RawRow(w: Cell -> real, nx: int, ny: int, r: int, c: int): seq<Entry>
    requires 0 <= r < ny && 0 <= c < nx
  {
    BeforeInGrid(nx, ny, r, c);
    AfterInGrid(nx, ny, r, c);
    RawOff(w, nx, ny, Before(nx, r, c)) + [Entry(Flat(r, c, nx), 1.0)] + RawOff(w, nx, ny, After(nx, ny, r, c))
  }

  /** Total weight of the neighbours of (r, c), the `sum` of `assembly_row`. */
  function RowWeight(w: Cell -> real, nx: int, ny: int, r: int, c: int): real
  {
    WeightSum(w, Before(nx, r, c)) + WeightSum(w, After(nx, ny, r, c))
  }

  /** `raw` with every value except the one at position `diag` divided by `s`;
      a zero `s` leaves the values as they are. */
  function Normalised(raw: seq<Entry>, diag: int, s: real): seq<Entry>
  {
    seq(|raw|, k requires 0 <= k < |raw| =>
      if k == diag || s == 0.0 then raw[k] else Entry(raw[k].col, raw[k].coef / s))
  }

  /** The row of pixel (r, c) for the neighbour weights `w`. */
  function Row(w: Cell -> real, nx: int, ny: int, r: int, c: int): seq<Entry>
    requires 0 <= r < ny && 0 <= c < nx
  {
    Normalised(RawRow(w, nx, ny, r, c), |Before(nx, r, c)|, RowWeight(w, nx, ny, r, c))
  }

  /** Reference definition of the matrix row of pixel (r, c). */
  function MatrixRow(st: Statistics, nx: int, ny: int, r: int, c: int): seq<Entry>
    requires Shaped(st, nx, ny) && 0 <= r < ny && 0 <= c < nx
  {
    Row(Weights(st, nx, ny, r, c), nx, ny, r, c)
  }

  /** Number of coefficients `assembly_row` reserves for pixel (r, c): 4 at a
      corner, 6 on an edge, 9 inside, which is the product of the stencil's
      extents along the two axes. */
  function PredictedNnz(nx: int, ny: int, r: int, c: int): (count: int)
    ensures count == Factor(ny, r) * Factor(nx, c)
    ensures count == 4 || count == 6 || count == 9
  {
    var rowEdge := r == 0 || r == ny - 1;
    var colEdge := c == 0 || c == nx - 1;
    if rowEdge && colEdge then 4
    else if rowEdge && !colEdge then 6
    else if !rowEdge && colEdge then 6
    else 9
  }

  /** Stencil positions along one axis of length `n` at index `i`: 2 at either end, 3 inside. */
  function Factor(n: int, i: int): int
  {
    if i == 0 || i == n - 1 then 2 else 3
  }

  /** Sum of `Factor(n, i')` over `i' < i`, in closed form. */
  function Span(n: int, i: int): int
  {
    if i <= 0 then 0 else if i < n then 3 * i - 1 else 3 * n - 2
  }

  /** Offset of the row of pixel (r, c) in the coefficient arrays: the
      coefficients reserved for all pixels before it in row-major order.
      Column `nx` of row r stands for the first pixel of row r + 1. */
  function Start(nx: nat, ny: int, r: nat, c: nat): int
    decreases r, c
  {
    if c > 0 then Start(nx, ny, r, c - 1) + PredictedNnz(nx, ny, r, c - 1)
    else if r > 0 then Start(nx, ny, r - 1, nx)
    else 0
  }

  /** The number of coefficients `compute_matrix` allocates for a whole image. */
  function ExpectedNnz(nx: int, ny: int): int
  {
    9 * (nx - 2) * (ny - 2) + 12 * ((nx - 2) + (ny - 2)) + 16
  }

  // ---------------------------------------------------------------- stencil

  /** Row-major (lexicographic) order of cells. */
  predicate Precedes(p: Cell, q: Cell)
  {
    p.0 < q.0 || (p.0 == q.0 && p.1 < q.1)
  }

  /** The cells of `s` are in strictly increasing row-major order. */
  predicate RowMajor(s: seq<Cell>)
  {
    forall i, j :: 0 <= i < j < |s| ==> Precedes(s[i], s[j])
  }

  /** The existing cells of image row `row` next to column `c`, or nothing
      when that row lies outside the image. */
  function Band(nx: int, ny: int, row: int, c: int): seq<Cell>
  {
    RowIf(0 <= row < ny, nx, row, c)
  }

  /** One row of the stencil: the cells of row `row` in columns c - 1 .. c + 1
      inside the image, from left to right; there are `Factor(nx, c)` of them. */
  lemma {:induction false} RowCellsFacts(nx: int, row: int, c: int)
    requires nx >= 2 && 0 <= c < nx
    ensures |RowCells(nx, row, c)| == Factor(nx, c)
    ensures RowMajor(RowCells(nx, row, c))
    ensures forall p :: p in RowCells(nx, row, c) <==> p.0 == row && 0 <= p.1 < nx && c - 1 <= p.1 <= c + 1
  {
  }

  /** Concatenating two row-major runs, the first wholly before the second, is row-major. */
  lemma {:induction false} RowMajorConcat(a: seq<Cell>, b: seq<Cell>)
    requires RowMajor(a) && RowMajor(b)
    requires forall i, j :: 0 <= i < |a| && 0 <= j < |b| ==> Precedes(a[i], b[j])
    ensures RowMajor(a + b)
  {
  }

  /** The stencil is the three bands above, at and below row r. */
  lemma {:induction false} StencilBands(nx: int, ny: int, r: int, c: int)
    requires 0 <= r < ny
    ensures Stencil(nx, ny, r, c) == Band(nx, ny, r - 1, c) + RowCells(nx, r, c) + Band(nx, ny, r + 1, c)
    ensures |Before(nx, r, c)| == |Band(nx, ny, r - 1, c)| + (if c > 0 then 1 else 0)
  {
    var left := Side(c > 0, (r, c - 1));
    var right := Side(c < nx - 1, (r, c + 1));
    assert Before(nx, r, c) == Band(nx, ny, r - 1, c) + left;
    assert After(nx, ny, r, c) == right + Band(nx, ny, r + 1, c);
    assert RowCells(nx, r, c) == left + [(r, c)] + right;
  }

  /** A band holds the cells of row `row` next to column `c` when that row
      exists, in row-major order. */
  lemma {:induction false} BandFacts(nx: int, ny: int, row: int, c: int)
    requires nx >= 2 && 0 <= c < nx
    ensures RowMajor(Band(nx, ny, row, c))
    ensures forall p :: p in Band(nx, ny, row, c) <==>
              0 <= row < ny && p.0 == row && 0 <= p.1 < nx && c - 1 <= p.1 <= c + 1
    ensures forall k :: 0 <= k < |Band(nx, ny, row, c)| ==> Band(nx, ny, row, c)[k] in Band(nx, ny, row, c)
  {
    RowCellsFacts(nx, row, c);
  }

  /** The stencil holds exactly the pixels at most one step away from (r, c)
      in each direction, all inside the image. */
  lemma {:induction false} StencilIsNeighbourhood(nx: int, ny: int, r: int, c: int)
    requires nx >= 2 && ny >= 2 && 0 <= r < ny && 0 <= c < nx
    ensures InGrid(nx, ny, Stencil(nx, ny, r, c))
    ensures forall p :: p in Stencil(nx, ny, r, c) <==>
              0 <= p.0 < ny && 0 <= p.1 < nx && r - 1 <= p.0 <= r + 1 && c - 1 <= p.1 <= c + 1
  {
    StencilBands(nx, ny, r, c);
    var up, mid, down := Band(nx, ny, r - 1, c), Band(nx, ny, r, c), Band(nx, ny, r + 1, c);
    BandFacts(nx, ny, r - 1, c);
    BandFacts(nx, ny, r, c);
    BandFacts(nx, ny, r + 1, c);
    var s := up + mid + down;
    assert s == Stencil(nx, ny, r, c);
    forall p
      ensures p in s <==> 0 <= p.0 < ny && 0 <= p.1 < nx && r - 1 <= p.0 <= r + 1 && c - 1 <= p.1 <= c + 1
    {
      assert p in s <==> p in up || p in mid || p in down;
    }
    forall k | 0 <= k < |s|
      ensures 0 <= s[k].0 < ny && 0 <= s[k].1 < nx
    {
      assert s[k] in s;
    }
  }

  /** The cells of a band all lie in row `row`, in row-major order. */
  lemma {:induction false} BandRows(nx: int, ny: int, row: int, c: int)
    requires nx >= 2 && 0 <= c < nx
    ensures RowMajor(Band(nx, ny, row, c))
    ensures forall k :: 0 <= k < |Band(nx, ny, row, c)| ==> Band(nx, ny, row, c)[k].0 == row
  {
    RowCellsFacts(nx, row, c);
  }

  /** A row-major run whose rows are all before `row`, followed by one whose
      rows lie in `row .. hi`, is row-major, with every row at most `hi`. */
  lemma {:induction false} RowMajorJoin(a: seq<Cell>, b: seq<Cell>, row: int, hi: int)
    requires RowMajor(a) && RowMajor(b) && row <= hi + 1
    requires forall k :: 0 <= k < |a| ==> a[k].0 < row
    requires forall k :: 0 <= k < |b| ==> row <= b[k].0 <= hi
    ensures RowMajor(a + b)
    ensures forall k :: 0 <= k < |a + b| ==> (a + b)[k].0 <= hi
  {
    RowMajorConcat(a, b);
  }

  /** The stencil is in row-major order. */
  lemma {:induction false} StencilOrder(nx: int, ny: int, r: int, c: int)
    requires nx >= 2 && ny >= 2 && 0 <= r < ny && 0 <= c < nx
    ensures RowMajor(Stencil(nx, ny, r, c))
  {
    StencilBands(nx, ny, r, c);
    var up, mid, down := Band(nx, ny, r - 1, c), Band(nx, ny, r, c), Band(nx, ny, r + 1, c);
    BandRows(nx, ny, r - 1, c);
    BandRows(nx, ny, r, c);
    BandRows(nx, ny, r + 1, c);
    RowMajorJoin(up, mid, r, r);
    RowMajorJoin(up + mid, down, r + 1, r + 1);
  }

  /** A band of the stencil lies in the image. */
  lemma {:induction false} BandInGrid(nx: int, ny: int, row: int, c: int)
    requires 0 <= c < nx
    ensures InGrid(nx, ny, Band(nx, ny, row, c))
  {
  }

  /** Two runs of cells inside the image make one. */
  lemma {:induction false} InGridConcat(nx: int, ny: int, a: seq<Cell>, b: seq<Cell>)
    requires InGrid(nx, ny, a) && InGrid(nx, ny, b)
    ensures InGrid(nx, ny, a + b)
  {
  }

  /** The neighbours stored before the diagonal lie in the image. */
  lemma {:induction false} BeforeInGrid(nx: int, ny: int, r: int, c: int)
    requires 0 <= r < ny && 0 <= c < nx
    ensures InGrid(nx, ny, Before(nx, r, c))
  {
    var left := Side(c > 0, (r, c - 1));
    assert Before(nx, r, c) == Band(nx, ny, r - 1, c) + left;
    BandInGrid(nx, ny, r - 1, c);
    InGridConcat(nx, ny, Band(nx, ny, r - 1, c), left);
  }

  /** The neighbours stored after the diagonal lie in the image. */
  lemma {:induction false} AfterInGrid(nx: int, ny: int, r: int, c: int)
    requires 0 <= r < ny && 0 <= c < nx
    ensures InGrid(nx, ny, After(nx, ny, r, c))
  {
    var right := Side(c < nx - 1, (r, c + 1));
    assert After(nx, ny, r, c) == right + Band(nx, ny, r + 1, c);
    BandInGrid(nx, ny, r + 1, c);
    InGridConcat(nx, ny, right, Band(nx, ny, r + 1, c));
  }

  /** Pixel (r, c) itself sits in the stencil right after `Before`. */
  lemma {:induction false} StencilDiagonal(nx: int, ny: int, r: int, c: int)
    requires nx >= 2 && ny >= 2 && 0 <= r < ny && 0 <= c < nx
    ensures |Before(nx, r, c)| < |Stencil(nx, ny, r, c)|
    ensures Stencil(nx, ny, r, c)[|Before(nx, r, c)|] == (r, c)
  {
    var b := Before(nx, r, c);
    assert Stencil(nx, ny, r, c) == b + [(r, c)] + After(nx, ny, r, c);
    assert (b + [(r, c)])[|b|] == (r, c);
  }

  /** The number of stencil cells is the product of the per-axis factors and
      agrees with the count `assembly_row` predicts. */
  lemma {:induction false} StencilSize(nx: int, ny: int, r: int, c: int)
    requires nx >= 2 && ny >= 2 && 0 <= r < ny && 0 <= c < nx
    ensures |Before(nx, r, c)| + 1 + |After(nx, ny, r, c)| == |Stencil(nx, ny, r, c)|
    ensures |Stencil(nx, ny, r, c)| == Factor(ny, r) * Factor(nx, c) == PredictedNnz(nx, ny, r, c)
  {
    StencilBands(nx, ny, r, c);
    RowCellsFacts(nx, r - 1, c);
    RowCellsFacts(nx, r, c);
    RowCellsFacts(nx, r + 1, c);
    var f := Factor(nx, c);
    assert |Stencil(nx, ny, r, c)| == (if r > 0 then f else 0) + f + (if r < ny - 1 then f else 0);
  }

  /** Column indices of a row strictly increase (so each column appears once),
      lie in `0 .. nx*ny - 1`, and the diagonal column holds 1. */
  lemma {:induction false} RowColumns(w: Cell -> real, nx: int, ny: int, r: int, c: int)
    requires nx >= 2 && ny >= 2 && 0 <= r < ny && 0 <= c < nx
    ensures |Row(w, nx, ny, r, c)| == PredictedNnz(nx, ny, r, c)
    ensures forall k :: 0 <= k < |Row(w, nx, ny, r, c)| ==> 0 <= Row(w, nx, ny, r, c)[k].col < nx * ny
    ensures forall i, j :: 0 <= i < j < |Row(w, nx, ny, r, c)| ==> Row(w, nx, ny, r, c)[i].col < Row(w, nx, ny, r, c)[j].col
    ensures Row(w, nx, ny, r, c)[|Before(nx, r, c)|] == Entry(Flat(r, c, nx), 1.0)
  {
    var s := Stencil(nx, ny, r, c);
    var row := Row(w, nx, ny, r, c);
    StencilIsNeighbourhood(nx, ny, r, c);
    StencilOrder(nx, ny, r, c);
    StencilDiagonal(nx, ny, r, c);
    StencilSize(nx, ny, r, c);
    RowFollowsStencil(w, nx, ny, r, c);
    forall k | 0 <= k < |row|
      ensures 0 <= row[k].col < nx * ny
    {
      FlatInRange(s[k].0, s[k].1, ny, nx);
    }
    forall i, j | 0 <= i < j < |row|
      ensures row[i].col < row[j].col
    {
      FlatOrder(s[i].0, s[i].1, s[j].0, s[j].1, nx);
    }
  }

  /** Entry k of a row is stored in the column of stencil cell k. */
  lemma {:induction false} RowFollowsStencil(w: Cell -> real, nx: int, ny: int, r: int, c: int)
    requires nx >= 2 && ny >= 2 && 0 <= r < ny && 0 <= c < nx
    ensures |Row(w, nx, ny, r, c)| == |Stencil(nx, ny, r, c)| && InGrid(nx, ny, Stencil(nx, ny, r, c))
    ensures forall k :: 0 <= k < |Row(w, nx, ny, r, c)| ==>
              Row(w, nx, ny, r, c)[k].col == Flat(Stencil(nx, ny, r, c)[k].0, Stencil(nx, ny, r, c)[k].1, nx)
    ensures Row(w, nx, ny, r, c)[|Before(nx, r, c)|].coef == 1.0
  {
    StencilSize(nx, ny, r, c);
    BeforeInGrid(nx, ny, r, c);
    AfterInGrid(nx, ny, r, c);
    var b, a := Before(nx, r, c), After(nx, ny, r, c);
    var ob, oa := RawOff(w, nx, ny, b), RawOff(w, nx, ny, a);
    var raw := RawRow(w, nx, ny, r, c);
    var s := Stencil(nx, ny, r, c);
    assert raw == ob + [Entry(Flat(r, c, nx), 1.0)] + oa;
    assert s == b + [(r, c)] + a;
    InGridConcat(nx, ny, b + [(r, c)], a);
    forall k | 0 <= k < |raw|
      ensures raw[k].col == Flat(s[k].0, s[k].1, nx)
    {
      if k < |b| {
        assert raw[k] == ob[k] && s[k] == b[k];
      } else if k > |b| {
        assert raw[k] == oa[k - |b| - 1] && s[k] == a[k - |b| - 1];
      }
    }
    assert raw[|b|].coef == 1.0;
  }

  // ----------------------------------------------------------- row sums

  /** Sum of the coefficients of a row. */
  function CoefSum(row: seq<Entry>): real
  {
    if |row| == 0 then 0.0 else CoefSum(row[..|row| - 1]) + row[|row| - 1].coef
  }

  lemma {:induction false} CoefSumConcat(a: seq<Entry>, b: seq<Entry>)
    ensures CoefSum(a + b) == CoefSum(a) + CoefSum(b)
    decreases |b|
  {
    if |b| > 0 {
      assert (a + b)[..|a + b| - 1] == a + b[..|b| - 1];
      CoefSumConcat(a, b[..|b| - 1]);
    } else {
      assert a + b == a;
    }
  }

  /** Every value of `x` divided by `s`. */
  function Scaled(x: seq<Entry>, s: real): seq<Entry>
    requires s != 0.0
  {
    seq(|x|, k requires 0 <= k < |x| => Entry(x[k].col, x[k].coef / s))
  }

  /** Normalising around the diagonal scales what lies on either side of it. */
  lemma {:induction false} NormalisedSplit(x: seq<Entry>, e: Entry, y: seq<Entry>, s: real)
    requires s != 0.0
    ensures Normalised(x + [e] + y, |x|, s) == Scaled(x, s) + [e] + Scaled(y, s)
  {
    var n, m := Normalised(x + [e] + y, |x|, s), Scaled(x, s) + [e] + Scaled(y, s);
    forall k | 0 <= k < |n|
      ensures n[k] == m[k]
    {
      if k < |x| {
        assert (x + [e] + y)[k] == x[k];
      } else if k > |x| {
        assert (x + [e] + y)[k] == y[k - |x| - 1];
      }
    }
  }

  /** Scaling every value scales their sum. */
  lemma {:induction false} ScaledSum(x: seq<Entry>, s: real)
    requires s != 0.0
    ensures CoefSum(Scaled(x, s)) == CoefSum(x) / s
    decreases |x|
  {
    if |x| > 0 {
      var n := |x| - 1;
      assert Scaled(x, s)[..n] == Scaled(x[..n], s);
      ScaledSum(x[..n], s);
      QuotientSum(CoefSum(x[..n]), x[n].coef, s);
    }
  }

  /** The unnormalised off-diagonal values of `cells` add up to minus their weight sum. */
  lemma {:induction false} RawOffSum(w: Cell -> real, nx: int, ny: int, cells: seq<Cell>)
    requires InGrid(nx, ny, cells)
    ensures CoefSum(RawOff(w, nx, ny, cells)) == -WeightSum(w, cells)
    decreases |cells|
  {
    if |cells| > 0 {
      var n := |cells| - 1;
      assert RawOff(w, nx, ny, cells)[..n] == RawOff(w, nx, ny, cells[..n]);
      RawOffSum(w, nx, ny, cells[..n]);
    }
  }

  lemma {:induction false} QuotientSum(a: real, b: real, s: real)
    requires s != 0.0
    ensures a / s + b / s == (a + b) / s
  {
  }

  lemma {:induction false} NegSelfQuotient(s: real)
    requires s != 0.0
    ensures -s / s == -1.0
  {
  }

  /** A row made of off-diagonal values summing to `-wb` and `-wa` around a
      diagonal 1 sums to zero once normalised by `wb + wa`. */
  lemma {:induction false} NormalisedSumsToZero(x: seq<Entry>, e: Entry, y: seq<Entry>, wb: real, wa: real)
    requires wb + wa != 0.0 && e.coef == 1.0
    requires CoefSum(x) == -wb && CoefSum(y) == -wa
    ensures CoefSum(Normalised(x + [e] + y, |x|, wb + wa)) == 0.0
  {
    var s := wb + wa;
    var d := [e];
    NormalisedSplit(x, e, y, s);
    CoefSumConcat(Scaled(x, s), d);
    CoefSumConcat(Scaled(x, s) + d, Scaled(y, s));
    assert CoefSum(d) == 1.0 by {
      assert d[..0] == [];
    }
    ScaledSum(x, s);
    ScaledSum(y, s);
    QuotientSum(-wb, -wa, s);
    NegSelfQuotient(s);
  }

  /** When the weights of a row do not sum to zero, its coefficients sum to
      zero: the matrix maps a constant image to zero on every row. */
  lemma {:induction false} RowSumsToZero(w: Cell -> real, nx: int, ny: int, r: int, c: int)
    requires 0 <= r < ny && 0 <= c < nx
    requires RowWeight(w, nx, ny, r, c) != 0.0
    ensures CoefSum(Row(w, nx, ny, r, c)) == 0.0
  {
    var b, a := Before(nx, r, c), After(nx, ny, r, c);
    BeforeInGrid(nx, ny, r, c);
    AfterInGrid(nx, ny, r, c);
    RawOffSum(w, nx, ny, b);
    RawOffSum(w, nx, ny, a);
    NormalisedSumsToZero(RawOff(w, nx, ny, b), Entry(Flat(r, c, nx), 1.0), RawOff(w, nx, ny, a),
                         WeightSum(w, b), WeightSum(w, a));
  }

  // ----------------------------------------------------------- row offsets

  /** Appending the pixel at column c advances the row-prefix count by its factor. */
  lemma {:induction false} SpanStep(n: int, i: int)
    requires n >= 2 && 0 <= i < n
    ensures Span(n, i + 1) == Span(n, i) + Factor(n, i)
  {
  }

  /** Offsets never decrease along row-major order. */
  lemma {:induction false} StartMonotone(nx: nat, ny: int, r: nat, c: nat, r': nat, c': nat)
    requires c <= nx && c' <= nx
    requires r < r' || (r == r' && c <= c')
    ensures Start(nx, ny, r, c) <= Start(nx, ny, r', c')
    decreases r', c'
  {
    if r == r' && c == c' {
    } else if c' > 0 {
      StartMonotone(nx, ny, r, c, r', c' - 1);
    } else {
      StartMonotone(nx, ny, r, c, r' - 1, nx);
    }
  }

  /** A pixel's row ends no later than any later pixel's row begins. */
  lemma {:induction false} StartBound(nx: nat, ny: int, r: nat, c: nat, r': nat, c': nat)
    requires c < nx && c' <= nx
    requires r < r' || (r == r' && c < c')
    ensures Start(nx, ny, r, c) + PredictedNnz(nx, ny, r, c) <= Start(nx, ny, r', c')
  {
    StartMonotone(nx, ny, r, c + 1, r', c');
  }

  /** Within image row r, the offsets grow by that row's stencil height times the columns' extents. */
  lemma {:induction false} StartInRow(nx: nat, ny: int, r: nat, c: nat)
    requires nx >= 2 && ny >= 2 && r < ny && c <= nx
    ensures Start(nx, ny, r, c) == Start(nx, ny, r, 0) + Factor(ny, r) * Span(nx, c)
  {
    if c > 0 {
      StartInRow(nx, ny, r, c - 1);
      SpanStep(nx, c - 1);
      assert Factor(ny, r) * Span(nx, c) == Factor(ny, r) * Span(nx, c - 1) + Factor(ny, r) * Factor(nx, c - 1);
    }
  }

  /** Image row r starts after `Span(ny, r)` full rows of `3 nx - 2` coefficients. */
  lemma {:induction false} StartOfRow(nx: nat, ny: int, r: nat)
    requires nx >= 2 && ny >= 2 && r <= ny
    ensures Start(nx, ny, r, 0) == Span(ny, r) * (3 * nx - 2)
  {
    if r > 0 {
      StartOfRow(nx, ny, r - 1);
      StartInRow(nx, ny, r - 1, nx);
      SpanStep(ny, r - 1);
      assert Span(nx, nx) == 3 * nx - 2;
      assert Span(ny, r) * (3 * nx - 2) == Span(ny, r - 1) * (3 * nx - 2) + Factor(ny, r - 1) * (3 * nx - 2);
    }
  }

  /** The rows of all pixels together fill exactly the number of coefficients
      `compute_matrix` allocates, which is `(3 nx - 2)(3 ny - 2)`. */
  lemma {:induction false} TotalNnz(nx: nat, ny: int)
    requires nx >= 2 && ny >= 2
    ensures Start(nx, ny, ny, 0) == ExpectedNnz(nx, ny) == (3 * nx - 2) * (3 * ny - 2)
  {
    StartOfRow(nx, ny, ny);
  }

  // ------------------------------------------------------------- assembly

  lemma {:induction false} RawOffAppend(w: Cell -> real, nx: int, ny: int, cells: seq<Cell>, cell: Cell)
    requires InGrid(nx, ny, cells)
    requires 0 <= cell.0 < ny && 0 <= cell.1 < nx
    ensures InGrid(nx, ny, cells + [cell])
    ensures WeightSum(w, cells + [cell]) == WeightSum(w, cells) + w(cell)
    ensures RawOff(w, nx, ny, cells + [cell]) ==
              RawOff(w, nx, ny, cells) + [Entry(Flat(cell.0, cell.1, nx), -w(cell))]
  {
    assert (cells + [cell])[..|cells|] == cells;
  }

  /** `row` stands at `at ..` of the column and value sequences, entry by entry. */
  predicate Holds(cols: seq<int>, vals: seq<real>, at: int, row: seq<Entry>)
  {
    && 0 <= at && at + |row| <= |cols| && at + |row| <= |vals|
    && forall k :: 0 <= k < |row| ==> cols[at + k] == row[k].col && vals[at + k] == row[k].coef
  }

  /** Two rows stored one after the other store their concatenation. */
  lemma {:induction false} HoldsConcat(cols: seq<int>, vals: seq<real>, at: int, x: seq<Entry>, y: seq<Entry>)
    requires Holds(cols, vals, at, x) && Holds(cols, vals, at + |x|, y)
    ensures Holds(cols, vals, at, x + y)
  {
    forall k | 0 <= k < |x + y|
      ensures cols[at + k] == (x + y)[k].col && vals[at + k] == (x + y)[k].coef
    {
      if k >= |x| {
        assert (x + y)[k] == y[k - |x|];
      }
    }
  }

  /** A stored row survives writes outside its positions. */
  lemma {:induction false} HoldsFrame(cols: seq<int>, vals: seq<real>, cols': seq<int>, vals': seq<real>, at: int, row: seq<Entry>)
    requires Holds(cols, vals, at, row)
    requires |cols'| == |cols| && |vals'| == |vals|
    requires forall k :: at <= k < at + |row| ==> cols'[k] == cols[k] && vals'[k] == vals[k]
    ensures Holds(cols', vals', at, row)
  {
  }

  /** Dividing the stored values other than the diagonal by `s` stores the normalised row. */
  lemma {:induction false} NormaliseHolds(cols: seq<int>, raw: seq<real>, at: int, row: seq<Entry>, diag: int, s: real)
    requires Holds(cols, raw, at, row)
    ensures Holds(cols, DividedRange(raw, at, at + diag, at + |row|, s), at, Normalised(row, diag, s))
  {
  }

  /** `vals` with the values at positions `lo .. hi - 1` other than `diag`
      divided by `s`; a zero `s` leaves them as they are. */
  function DividedRange(vals: seq<real>, lo: int, diag: int, hi: int, s: real): seq<real>
  {
    seq(|vals|, k requires 0 <= k < |vals| => if s != 0.0 && lo <= k < hi && k != diag then vals[k] / s else vals[k])
  }

  /** Appending entry `e` just after a stored row stores the longer row. */
  lemma {:induction false} HoldsSnoc(cols: seq<int>, vals: seq<real>, cols': seq<int>, vals': seq<real>, at: int, row: seq<Entry>, e: Entry)
    requires Holds(cols, vals, at, row)
    requires at + |row| < |cols| == |cols'| && at + |row| < |vals| == |vals'|
    requires forall k :: 0 <= k < |cols| && k != at + |row| ==> cols'[k] == cols[k]
    requires forall k :: 0 <= k < |vals| && k != at + |row| ==> vals'[k] == vals[k]
    requires cols'[at + |row|] == e.col && vals'[at + |row|] == e.coef
    ensures Holds(cols', vals', at, row + [e])
  {
    assert forall k :: 0 <= k < |row| ==> (row + [e])[k] == row[k];
  }

  /** One neighbour block of `assembly_row`: store the neighbour's column
      `col` at `start`, add its weight to the running sum and store minus that
      weight. The ghost parameters say what is already stored from `at` on,
      `prefix` then the raw entries of `cells`, and that the running sum is
      `sum0` plus the weights of `cells`; the block extends both by `cell`. */
  method PutNeighbour(st: Statistics, nx: int, ny: int, r: int, c: int, ghost w: Cell -> real, cell: Cell, col: int,
                      indCols: array<int>, coefs: array<real>, start: int, sum: real,
                      ghost at: int, ghost prefix: seq<Entry>, ghost cells: seq<Cell>, ghost sum0: real)
    returns (next: int, sum': real)
    requires Shaped(st, nx, ny) && 0 <= r < ny && 0 <= c < nx && Agrees(w, st, nx, ny, r, c) && InGrid(nx, ny, cells)
    requires 0 <= cell.0 < ny && 0 <= cell.1 < nx && col == Flat(cell.0, cell.1, nx)
    requires indCols.Length == coefs.Length && start == at + |prefix| + |cells| < indCols.Length
    requires Holds(indCols[..], coefs[..], at, prefix + RawOff(w, nx, ny, cells))
    requires sum == sum0 + WeightSum(w, cells)
    modifies indCols, coefs
    ensures InGrid(nx, ny, cells + [cell])
    ensures next == start + 1
    ensures sum' == sum0 + WeightSum(w, cells + [cell])
    ensures Holds(indCols[..], coefs[..], at, prefix + RawOff(w, nx, ny, cells + [cell]))
    ensures forall k :: 0 <= k < indCols.Length && k != start ==> indCols[k] == old(indCols[k]) && coefs[k] == old(coefs[k])
  {
    ghost var cols, vals := indCols[..], coefs[..];
    indCols[start] := col;
    var wrs := LocalStatistics.Wrs(st.intensity, st.means, st.variance, r, c, cell.0, cell.1);
    assert wrs == Weight(st, nx, ny, r, c, cell);
    sum' := sum + wrs;
    coefs[start] := -wrs;
    next := start + 1;
    var e := Entry(col, -wrs);
    RawOffAppend(w, nx, ny, cells, cell);
    HoldsSnoc(cols, vals, indCols[..], coefs[..], at, prefix + RawOff(w, nx, ny, cells), e);
    assert prefix + RawOff(w, nx, ny, cells + [cell]) == prefix + RawOff(w, nx, ny, cells) + [e];
  }

  /** `cells + RowCells(nx, row, c)` as the three appends that build it. */
  lemma {:induction false} AppendRowCells(cells: seq<Cell>, nx: int, row: int, c: int)
    ensures cells + RowCells(nx, row, c) ==
              cells + Side(c > 0, (row, c - 1)) + [(row, c)] + Side(c < nx - 1, (row, c + 1))
  {
  }

  /** A neighbour block that exists only when `present`: `PutNeighbour`
      when it does, nothing otherwise. */
  method PutSide(st: Statistics, nx: int, ny: int, r: int, c: int, ghost w: Cell -> real, present: bool, cell: Cell, col: int,
                 indCols: array<int>, coefs: array<real>, start: int, sum: real,
                 ghost at: int, ghost prefix: seq<Entry>, ghost cells: seq<Cell>, ghost sum0: real)
    returns (next: int, sum': real)
    requires Shaped(st, nx, ny) && 0 <= r < ny && 0 <= c < nx && Agrees(w, st, nx, ny, r, c) && InGrid(nx, ny, cells)
    requires present ==> 0 <= cell.0 < ny && 0 <= cell.1 < nx && col == Flat(cell.0, cell.1, nx)
    requires indCols.Length == coefs.Length && start == at + |prefix| + |cells| && start + |Side(present, cell)| <= indCols.Length
    requires Holds(indCols[..], coefs[..], at, prefix + RawOff(w, nx, ny, cells))
    requires sum == sum0 + WeightSum(w, cells)
    modifies indCols, coefs
    ensures InGrid(nx, ny, cells + Side(present, cell))
    ensures next == start + |Side(present, cell)|
    ensures sum' == sum0 + WeightSum(w, cells + Side(present, cell))
    ensures Holds(indCols[..], coefs[..], at, prefix + RawOff(w, nx, ny, cells + Side(present, cell)))
    ensures forall k :: 0 <= k < indCols.Length && !(start <= k < next) ==> indCols[k] == old(indCols[k]) && coefs[k] == old(coefs[k])
  {
    if present {
      next, sum' := PutNeighbour(st, nx, ny, r, c, w, cell, col, indCols, coefs, start, sum, at, prefix, cells, sum0);
    } else {
      next, sum' := start, sum;
      assert cells + Side(present, cell) == cells;
    }
  }

  /** The centre and right blocks of a neighbour row: cell (row, c), whose
      flat index is `base`, then (row, c + 1) when it exists. */
  method PutCentreRight(st: Statistics, nx: int, ny: int, r: int, c: int, ghost w: Cell -> real, row: int, base: int,
                        indCols: array<int>, coefs: array<real>, start: int, sum: real,
                        ghost at: int, ghost prefix: seq<Entry>, ghost cells: seq<Cell>, ghost sum0: real)
    returns (next: int, sum': real)
    requires Shaped(st, nx, ny) && 0 <= r < ny && 0 <= c < nx && Agrees(w, st, nx, ny, r, c) && 0 <= row < ny && InGrid(nx, ny, cells)
    requires base == Flat(row, c, nx)
    requires indCols.Length == coefs.Length && start == at + |prefix| + |cells|
    requires start + 1 + |Side(c < nx - 1, (row, c + 1))| <= indCols.Length
    requires Holds(indCols[..], coefs[..], at, prefix + RawOff(w, nx, ny, cells))
    requires sum == sum0 + WeightSum(w, cells)
    modifies indCols, coefs
    ensures InGrid(nx, ny, cells + [(row, c)] + Side(c < nx - 1, (row, c + 1)))
    ensures next == start + 1 + |Side(c < nx - 1, (row, c + 1))|
    ensures sum' == sum0 + WeightSum(w, cells + [(row, c)] + Side(c < nx - 1, (row, c + 1)))
    ensures Holds(indCols[..], coefs[..], at, prefix + RawOff(w, nx, ny, cells + [(row, c)] + Side(c < nx - 1, (row, c + 1))))
    ensures forall k :: 0 <= k < indCols.Length && !(start <= k < next) ==> indCols[k] == old(indCols[k]) && coefs[k] == old(coefs[k])
  {
    FlatLeftRight(row, c, nx);
    next, sum' := PutNeighbour(st, nx, ny, r, c, w, (row, c), base, indCols, coefs, start, sum, at, prefix, cells, sum0);
    next, sum' := PutSide(st, nx, ny, r, c, w, c < nx - 1, (row, c + 1), base + 1, indCols, coefs, next, sum', at, prefix, cells + [(row, c)], sum0);
  }

  /** The three neighbour blocks of `assembly_row` for the image row `row`
      just above or just below pixel (r, c): the existing cells of
      `RowCells(nx, row, c)`, left to right; `base` is the flat index of
      (row, c). The ghost parameters are those of `PutNeighbour`. */
  method PutRow(st: Statistics, nx: int, ny: int, r: int, c: int, ghost w: Cell -> real, row: int, base: int,
                indCols: array<int>, coefs: array<real>, start: int, sum: real,
                ghost at: int, ghost prefix: seq<Entry>, ghost cells: seq<Cell>, ghost sum0: real)
    returns (next: int, sum': real)
    requires Shaped(st, nx, ny) && 0 <= r < ny && 0 <= c < nx && Agrees(w, st, nx, ny, r, c) && 0 <= row < ny && InGrid(nx, ny, cells)
    requires base == Flat(row, c, nx)
    requires indCols.Length == coefs.Length && start == at + |prefix| + |cells|
    requires start + |RowCells(nx, row, c)| <= indCols.Length
    requires Holds(indCols[..], coefs[..], at, prefix + RawOff(w, nx, ny, cells))
    requires sum == sum0 + WeightSum(w, cells)
    modifies indCols, coefs
    ensures InGrid(nx, ny, cells + RowCells(nx, row, c))
    ensures next == start + |RowCells(nx, row, c)|
    ensures sum' == sum0 + WeightSum(w, cells + RowCells(nx, row, c))
    ensures Holds(indCols[..], coefs[..], at, prefix + RawOff(w, nx, ny, cells + RowCells(nx, row, c)))
    ensures forall k :: 0 <= k < indCols.Length && !(start <= k < next) ==> indCols[k] == old(indCols[k]) && coefs[k] == old(coefs[k])
  {
    FlatLeftRight(row, c, nx);
    AppendRowCells(cells, nx, row, c);
    next, sum' := PutSide(st, nx, ny, r, c, w, c > 0, (row, c - 1), base - 1, indCols, coefs, start, sum, at, prefix, cells, sum0);
    next, sum' := PutCentreRight(st, nx, ny, r, c, w, row, base, indCols, coefs, next, sum', at, prefix, cells + Side(c > 0, (row, c - 1)), sum0);
  }

  /** The neighbour row `row` when it exists: `PutRow` when it does,
      nothing otherwise. */
  method PutRowIf(st: Statistics, nx: int, ny: int, r: int, c: int, ghost w: Cell -> real, present: bool, row: int, base: int,
                  indCols: array<int>, coefs: array<real>, start: int, sum: real,
                  ghost at: int, ghost prefix: seq<Entry>, ghost cells: seq<Cell>, ghost sum0: real)
    returns (next: int, sum': real)
    requires Shaped(st, nx, ny) && 0 <= r < ny && 0 <= c < nx && Agrees(w, st, nx, ny, r, c) && InGrid(nx, ny, cells)
    requires present ==> 0 <= row < ny && base == Flat(row, c, nx)
    requires indCols.Length == coefs.Length && start == at + |prefix| + |cells|
    requires start + |RowIf(present, nx, row, c)| <= indCols.Length
    requires Holds(indCols[..], coefs[..], at, prefix + RawOff(w, nx, ny, cells))
    requires sum == sum0 + WeightSum(w, cells)
    modifies indCols, coefs
    ensures InGrid(nx, ny, cells + RowIf(present, nx, row, c))
    ensures next == start + |RowIf(present, nx, row, c)|
    ensures sum' == sum0 + WeightSum(w, cells + RowIf(present, nx, row, c))
    ensures Holds(indCols[..], coefs[..], at, prefix + RawOff(w, nx, ny, cells + RowIf(present, nx, row, c)))
    ensures forall k :: 0 <= k < indCols.Length && !(start <= k < next) ==> indCols[k] == old(indCols[k]) && coefs[k] == old(coefs[k])
  {
    if present {
      next, sum' := PutRow(st, nx, ny, r, c, w, row, base, indCols, coefs, start, sum, at, prefix, cells, sum0);
    } else {
      next, sum' := start, sum;
      assert cells + RowIf(present, nx, row, c) == cells;
    }
  }

  /** No cells add no entries and no weight. */
  lemma {:induction false} NoCells(w: Cell -> real, nx: int, ny: int, prefix: seq<Entry>)
    ensures prefix + RawOff(w, nx, ny, []) == prefix
    ensures WeightSum(w, []) == 0.0
  {
  }

  /** Appending to the empty sequence changes nothing. */
  lemma {:induction false} EmptyLeft<T>(x: seq<T>)
    ensures [] + x == x
  {
  }

  /** The blocks before and after the diagonal, appended to no cells, make up
      `Before` and `After`, and with the diagonal entry between them the raw row. */
  lemma {:induction false} RawRowParts(w: Cell -> real, nx: int, ny: int, r: int, c: int)
    requires 0 <= r < ny && 0 <= c < nx
    ensures [] + RowIf(r > 0, nx, r - 1, c) + Side(c > 0, (r, c - 1)) == Before(nx, r, c)
    ensures [] + Side(c < nx - 1, (r, c + 1)) + RowIf(r < ny - 1, nx, r + 1, c) == After(nx, ny, r, c)
    ensures InGrid(nx, ny, Before(nx, r, c)) && InGrid(nx, ny, After(nx, ny, r, c))
    ensures RawOff(w, nx, ny, Before(nx, r, c)) + [Entry(Flat(r, c, nx), 1.0)] + RawOff(w, nx, ny, After(nx, ny, r, c))
              == RawRow(w, nx, ny, r, c)
  {
    EmptyLeft(RowIf(r > 0, nx, r - 1, c));
    EmptyLeft(Side(c < nx - 1, (r, c + 1)));
    BeforeInGrid(nx, ny, r, c);
    AfterInGrid(nx, ny, r, c);
  }

  /** The blocks of `assembly_row` before the diagonal: the row above (when
      there is one), then the left neighbour; `index` is the flat index of
      (r, c). The ghost parameters are those of `PutNeighbour`. */
  method WriteBefore(st: Statistics, nx: int, ny: int, r: int, c: int, ghost w: Cell -> real, index: int,
                     indCols: array<int>, coefs: array<real>, start: int, sum: real,
                     ghost at: int, ghost prefix: seq<Entry>, ghost cells: seq<Cell>, ghost sum0: real)
    returns (next: int, sum': real)
    requires Shaped(st, nx, ny) && 0 <= r < ny && 0 <= c < nx && Agrees(w, st, nx, ny, r, c) && index == Flat(r, c, nx) && InGrid(nx, ny, cells)
    requires indCols.Length == coefs.Length && start == at + |prefix| + |cells|
    requires start + |RowIf(r > 0, nx, r - 1, c)| + |Side(c > 0, (r, c - 1))| <= indCols.Length
    requires Holds(indCols[..], coefs[..], at, prefix + RawOff(w, nx, ny, cells))
    requires sum == sum0 + WeightSum(w, cells)
    modifies indCols, coefs
    ensures InGrid(nx, ny, cells + RowIf(r > 0, nx, r - 1, c) + Side(c > 0, (r, c - 1)))
    ensures next == start + |RowIf(r > 0, nx, r - 1, c)| + |Side(c > 0, (r, c - 1))|
    ensures sum' == sum0 + WeightSum(w, cells + RowIf(r > 0, nx, r - 1, c) + Side(c > 0, (r, c - 1)))
    ensures Holds(indCols[..], coefs[..], at, prefix + RawOff(w, nx, ny, cells + RowIf(r > 0, nx, r - 1, c) + Side(c > 0, (r, c - 1))))
    ensures forall k :: 0 <= k < indCols.Length && !(start <= k < next) ==> indCols[k] == old(indCols[k]) && coefs[k] == old(coefs[k])
  {
    FlatLeftRight(r, c, nx);
    next, sum' := PutRowIf(st, nx, ny, r, c, w, r > 0, r - 1, index - nx, indCols, coefs, start, sum, at, prefix, cells, sum0);
    next, sum' := PutSide(st, nx, ny, r, c, w, c > 0, (r, c - 1), index - 1, indCols, coefs, next, sum', at, prefix,
                          cells + RowIf(r > 0, nx, r - 1, c), sum0);
  }

  /** The blocks of `assembly_row` after the diagonal: the right neighbour,
      then the row below (when there is one). The ghost parameters are those
      of `PutNeighbour`. */
  method WriteAfter(st: Statistics, nx: int, ny: int, r: int, c: int, ghost w: Cell -> real, index: int,
                    indCols: array<int>, coefs: array<real>, start: int, sum: real,
                    ghost at: int, ghost prefix: seq<Entry>, ghost cells: seq<Cell>, ghost sum0: real)
    returns (next: int, sum': real)
    requires Shaped(st, nx, ny) && 0 <= r < ny && 0 <= c < nx && Agrees(w, st, nx, ny, r, c) && index == Flat(r, c, nx) && InGrid(nx, ny, cells)
    requires indCols.Length == coefs.Length && start == at + |prefix| + |cells|
    requires start + |Side(c < nx - 1, (r, c + 1))| + |RowIf(r < ny - 1, nx, r + 1, c)| <= indCols.Length
    requires Holds(indCols[..], coefs[..], at, prefix + RawOff(w, nx, ny, cells))
    requires sum == sum0 + WeightSum(w, cells)
    modifies indCols, coefs
    ensures InGrid(nx, ny, cells + Side(c < nx - 1, (r, c + 1)) + RowIf(r < ny - 1, nx, r + 1, c))
    ensures next == start + |Side(c < nx - 1, (r, c + 1))| + |RowIf(r < ny - 1, nx, r + 1, c)|
    ensures sum' == sum0 + WeightSum(w, cells + Side(c < nx - 1, (r, c + 1)) + RowIf(r < ny - 1, nx, r + 1, c))
    ensures Holds(indCols[..], coefs[..], at, prefix + RawOff(w, nx, ny, cells + Side(c < nx - 1, (r, c + 1)) + RowIf(r < ny - 1, nx, r + 1, c)))
    ensures forall k :: 0 <= k < indCols.Length && !(start <= k < next) ==> indCols[k] == old(indCols[k]) && coefs[k] == old(coefs[k])
  {
    FlatLeftRight(r, c, nx);
    next, sum' := PutSide(st, nx, ny, r, c, w, c < nx - 1, (r, c + 1), index + 1, indCols, coefs, start, sum, at, prefix, cells, sum0);
    next, sum' := PutRowIf(st, nx, ny, r, c, w, r < ny - 1, r + 1, index + nx, indCols, coefs, next, sum', at, prefix,
                           cells + Side(c < nx - 1, (r, c + 1)), sum0);
  }

  /** The normalisation of `assembly_row`: every coefficient of positions
      `lo .. hi - 1` except the diagonal one at `diag` is divided by `sum`
      (skipped when `sum` is zero). */
  method DivideOffDiagonal(coefs: array<real>, lo: int, diag: int, hi: int, sum: real)
    requires 0 <= lo <= diag < hi <= coefs.Length
    modifies coefs
    ensures coefs[..] == DividedRange(old(coefs[..]), lo, diag, hi, sum)
  {
    if sum != 0.0 {
      forall k | lo <= k < diag {
        coefs[k] := coefs[k] / sum;
      }
      forall k | diag + 1 <= k < hi {
        coefs[k] := coefs[k] / sum;
      }
    }
  }

  /** The diagonal block of `assembly_row`: column `index` with coefficient 1
      stored at `start`, just after `prefix`. */
  method PutDiagonal(indCols: array<int>, coefs: array<real>, index: int, start: int,
                     ghost at: int, ghost prefix: seq<Entry>)
    requires indCols.Length == coefs.Length && start == at + |prefix| < indCols.Length
    requires Holds(indCols[..], coefs[..], at, prefix)
    modifies indCols, coefs
    ensures Holds(indCols[..], coefs[..], at, prefix + [Entry(index, 1.0)])
    ensures forall k :: 0 <= k < indCols.Length && k != start ==> indCols[k] == old(indCols[k]) && coefs[k] == old(coefs[k])
  {
    ghost var cols, vals := indCols[..], coefs[..];
    indCols[start] := index;
    coefs[start] := 1.0;
    HoldsSnoc(cols, vals, indCols[..], coefs[..], at, prefix, Entry(index, 1.0));
  }

  /** The blocks of `assembly_row` up to and including the diagonal, written
      from `start` on. Returns the position of the diagonal and the weight sum
      so far. */
  method WriteUpToDiagonal(st: Statistics, nx: int, ny: int, r: int, c: int, ghost w: Cell -> real, index: int,
                           indCols: array<int>, coefs: array<real>, start: int)
    returns (posDiag: int, sum: real)
    requires Shaped(st, nx, ny) && 0 <= r < ny && 0 <= c < nx && Agrees(w, st, nx, ny, r, c) && index == Flat(r, c, nx)
    requires 0 <= start && start + |Before(nx, r, c)| < indCols.Length == coefs.Length
    modifies indCols, coefs
    ensures InGrid(nx, ny, Before(nx, r, c))
    ensures posDiag == start + |Before(nx, r, c)|
    ensures sum == WeightSum(w, Before(nx, r, c))
    ensures Holds(indCols[..], coefs[..], start, RawOff(w, nx, ny, Before(nx, r, c)) + [Entry(index, 1.0)])
    ensures forall k :: 0 <= k < indCols.Length && !(start <= k <= posDiag) ==> indCols[k] == old(indCols[k]) && coefs[k] == old(coefs[k])
  {
    RawRowParts(w, nx, ny, r, c);
    NoCells(w, nx, ny, []);
    posDiag, sum := WriteBefore(st, nx, ny, r, c, w, index, indCols, coefs, start, 0.0, start, [], [], 0.0);
    EmptyLeft(RawOff(w, nx, ny, Before(nx, r, c)));
    PutDiagonal(indCols, coefs, index, posDiag, start, RawOff(w, nx, ny, Before(nx, r, c)));
  }

  /** The unnormalised row of pixel (r, c) written from `start` on: the blocks
      before the diagonal, the diagonal, the blocks after it. Returns the
      position of the diagonal, the end of the row and the weight sum. */
  method WriteRawRow(st: Statistics, nx: int, ny: int, r: int, c: int, ghost w: Cell -> real, index: int,
                     indCols: array<int>, coefs: array<real>, start: int)
    returns (posDiag: int, next: int, sum: real)
    requires Shaped(st, nx, ny) && 0 <= r < ny && 0 <= c < nx && Agrees(w, st, nx, ny, r, c) && index == Flat(r, c, nx)
    requires 0 <= start && start + |RawRow(w, nx, ny, r, c)| <= indCols.Length && indCols.Length == coefs.Length
    modifies indCols, coefs
    ensures posDiag == start + |Before(nx, r, c)| && next == start + |RawRow(w, nx, ny, r, c)|
    ensures sum == RowWeight(w, nx, ny, r, c)
    ensures Holds(indCols[..], coefs[..], start, RawRow(w, nx, ny, r, c))
    ensures forall k :: 0 <= k < indCols.Length && !(start <= k < next) ==> indCols[k] == old(indCols[k]) && coefs[k] == old(coefs[k])
  {
    RawRowParts(w, nx, ny, r, c);
    posDiag, sum := WriteUpToDiagonal(st, nx, ny, r, c, w, index, indCols, coefs, start);
    ghost var diag := RawOff(w, nx, ny, Before(nx, r, c)) + [Entry(index, 1.0)];
    NoCells(w, nx, ny, diag);
    next, sum := WriteAfter(st, nx, ny, r, c, w, index, indCols, coefs, posDiag + 1, sum, start, diag, [], sum);
  }

  /** The row of pixel (r, c) written from `start` on and normalised. */
  method WriteRow(st: Statistics, nx: int, ny: int, r: int, c: int, ghost w: Cell -> real, index: int,
                  indCols: array<int>, coefs: array<real>, start: int)
    returns (next: int)
    requires Shaped(st, nx, ny) && 0 <= r < ny && 0 <= c < nx && Agrees(w, st, nx, ny, r, c) && index == Flat(r, c, nx)
    requires 0 <= start && start + |RawRow(w, nx, ny, r, c)| <= indCols.Length && indCols.Length == coefs.Length
    modifies indCols, coefs
    ensures next == start + |Row(w, nx, ny, r, c)|
    ensures Holds(indCols[..], coefs[..], start, Row(w, nx, ny, r, c))
    ensures forall k :: 0 <= k < indCols.Length && !(start <= k < next) ==> indCols[k] == old(indCols[k]) && coefs[k] == old(coefs[k])
  {
    var posDiag, sum;
    posDiag, next, sum := WriteRawRow(st, nx, ny, r, c, w, index, indCols, coefs, start);
    ghost var cols, raw := indCols[..], coefs[..];
    NormaliseHolds(cols, raw, start, RawRow(w, nx, ny, r, c), |Before(nx, r, c)|, sum);
    // Normalisation of the off-diagonal coefficients
    DivideOffDiagonal(coefs, start, posDiag, next, sum);
    assert indCols[..] == cols;
  }

  /** The row pointers once the end of the row of pixel (r, c) is recorded
      after its start. */
  function WithRowEnd(rows: seq<int>, nx: int, ny: int, r: nat, c: int): seq<int>
    requires 0 <= Flat(r, c, nx) && Flat(r, c, nx) + 1 < |rows|
  {
    rows[Flat(r, c, nx) + 1 := rows[Flat(r, c, nx)] + PredictedNnz(nx, ny, r, c)]
  }

  /** `assembly_row` for pixel (r, c) of the whole image (`i_start` = 0):
      writes the columns and coefficients of its row from `ptRows[index]` on,
      divides the off-diagonal coefficients by their weight sum and records
      where the row ends in `ptRows[index + 1]`. */
  method AssemblyRow(st: Statistics, nx: int, ny: int, r: int, c: int,
                     ptRows: array<int>, indCols: array<int>, coefs: array<real>)
    requires Shaped(st, nx, ny) && 0 <= r < ny && 0 <= c < nx
    requires ptRows != indCols
    requires 0 <= Flat(r, c, nx) && Flat(r, c, nx) + 1 < ptRows.Length
    requires 0 <= ptRows[Flat(r, c, nx)]
    requires ptRows[Flat(r, c, nx)] + PredictedNnz(nx, ny, r, c) <= indCols.Length == coefs.Length
    modifies ptRows, indCols, coefs
    ensures ptRows[..] == WithRowEnd(old(ptRows[..]), nx, ny, r, c)
    ensures SameOutside(old(indCols[..]), old(coefs[..]), indCols[..], coefs[..], ptRows[Flat(r, c, nx)], ptRows[Flat(r, c, nx) + 1])
    ensures Holds(indCols[..], coefs[..], ptRows[Flat(r, c, nx)], MatrixRow(st, nx, ny, r, c))
  {
    StencilSize(nx, ny, r, c);
    WeightsAgree(st, nx, ny, r, c);
    var index := Flat(r, c, nx);
    var start := ptRows[index];
    var next := WriteRow(st, nx, ny, r, c, Weights(st, nx, ny, r, c), index, indCols, coefs, start);
    ptRows[index + 1] := next;
  }

  // ------------------------------------------------------- compute_matrix

  /** The matrix rows of all pixels as one function of the pixel (empty
      outside the image). */
  function MatrixRows(st: Statistics, nx: int, ny: int): Cell -> seq<Entry>
    requires Shaped(st, nx, ny)
  {
    (p: Cell) => if 0 <= p.0 < ny && 0 <= p.1 < nx then MatrixRow(st, nx, ny, p.0, p.1) else []
  }

  /** Every pixel's row in `rowOf` has the length `assembly_row` predicts. */
  ghost predicate RowLengths(rowOf: Cell -> seq<Entry>, nx: int, ny: int)
  {
    forall r, c {:trigger rowOf((r, c))} :: 0 <= r < ny && 0 <= c < nx ==> |rowOf((r, c))| == PredictedNnz(nx, ny, r, c)
  }

  /** The row of pixel (r, c) in `MatrixRows` is its matrix row. */
  lemma {:induction false} MatrixRowsAt(st: Statistics, nx: int, ny: int, r: int, c: int)
    requires Shaped(st, nx, ny) && 0 <= r < ny && 0 <= c < nx
    ensures MatrixRows(st, nx, ny)((r, c)) == MatrixRow(st, nx, ny, r, c)
  {
  }

  /** Every matrix row has the length `assembly_row` predicts. */
  lemma {:induction false} MatrixRowLengths(st: Statistics, nx: int, ny: int)
    requires Shaped(st, nx, ny)
    ensures RowLengths(MatrixRows(st, nx, ny), nx, ny)
  {
    forall r, c | 0 <= r < ny && 0 <= c < nx
      ensures |MatrixRows(st, nx, ny)((r, c))| == PredictedNnz(nx, ny, r, c)
    {
      MatrixRowsAt(st, nx, ny, r, c);
      RowFollowsStencil(Weights(st, nx, ny, r, c), nx, ny, r, c);
      StencilSize(nx, ny, r, c);
    }
  }

  /** The row pointers `compute_matrix` has written when it reaches pixel
      (r, c): the offset of every pixel up to and including (r, c), in
      row-major order (pixel (r, nx) stands for (r + 1, 0)). */
  function Pointers(nx: nat, ny: int, r: nat, c: nat): (p: seq<int>)
    requires c <= nx
    ensures 0 <= Flat(r, c, nx) && |p| == Flat(r, c, nx) + 1
    ensures p[Flat(r, c, nx)] == Start(nx, ny, r, c)
    decreases r, c
  {
    if c > 0 then
      FlatLeftRight(r, c - 1, nx);
      Pointers(nx, ny, r, c - 1) + [Start(nx, ny, r, c)]
    else if r > 0 then
      FlatRowEnd(r - 1, nx);
      Pointers(nx, ny, r - 1, nx)
    else
      [0]
  }

  /** `Pointers(r, c)` holds the offset of every pixel up to (r, c) at its flat index. */
  lemma {:induction false} PointersAt(nx: nat, ny: int, r: nat, c: nat, r': nat, c': nat)
    requires c <= nx && c' <= nx
    requires r' < r || (r' == r && c' <= c)
    ensures 0 <= Flat(r', c', nx) < |Pointers(nx, ny, r, c)|
    ensures Pointers(nx, ny, r, c)[Flat(r', c', nx)] == Start(nx, ny, r', c')
    decreases r, c
  {
    if r' == r && c' == c {
      assert |Pointers(nx, ny, r, c)| == Flat(r, c, nx) + 1;
    } else if c > 0 {
      PointersAt(nx, ny, r, c - 1, r', c');
    } else {
      PointersAt(nx, ny, r - 1, nx, r', c');
    }
  }

  /** The row pointers of every pixel before (r, c), and that of (r, c) itself, are set. */
  ghost predicate PointersSet(nx: nat, ny: nat, rows: seq<int>, r: nat, c: nat)
    requires c <= nx
  {
    && |rows| == Flat(ny, 0, nx) + 1
    && 0 <= Flat(r, c, nx) < |rows|
    && rows[..Flat(r, c, nx) + 1] == Pointers(nx, ny, r, c)
  }

  /** Pixel (r, c) has its row `rowOf` stored at its offset. */
  ghost predicate StoredAt(rowOf: Cell -> seq<Entry>, nx: nat, ny: int, cols: seq<int>, vals: seq<real>, r: nat, c: nat)
  {
    Holds(cols, vals, Start(nx, ny, r, c), rowOf((r, c)))
  }

  /** Every pixel before (r, c) in row-major order has its row `rowOf` stored at its offset. */
  ghost predicate Stored(rowOf: Cell -> seq<Entry>, nx: nat, ny: int, cols: seq<int>, vals: seq<real>, r: nat, c: nat)
  {
    forall r': nat, c': nat {:trigger StoredAt(rowOf, nx, ny, cols, vals, r', c')} ::
      r' < ny && c' < nx && Precedes((r', c'), (r, c)) ==> StoredAt(rowOf, nx, ny, cols, vals, r', c')
  }

  /** What `compute_matrix` has built when it reaches pixel (r, c). */
  ghost predicate Assembled(rowOf: Cell -> seq<Entry>, nx: nat, ny: nat, rows: seq<int>, cols: seq<int>, vals: seq<real>, r: nat, c: nat)
  {
    && nx >= 2 && ny >= 2 && c <= nx
    && RowLengths(rowOf, nx, ny)
    && |cols| == Start(nx, ny, ny, 0) && |vals| == Start(nx, ny, ny, 0)
    && PointersSet(nx, ny, rows, r, c)
    && Stored(rowOf, nx, ny, cols, vals, r, c)
  }

  /** Nothing is assembled yet: the zeroed row pointers hold offset 0 for the first pixel. */
  lemma {:induction false} AssembledInit(rowOf: Cell -> seq<Entry>, nx: nat, ny: nat, rows: seq<int>, cols: seq<int>, vals: seq<real>)
    requires nx >= 2 && ny >= 2 && RowLengths(rowOf, nx, ny)
    requires 0 <= Flat(ny, 0, nx) && |rows| == Flat(ny, 0, nx) + 1 && rows[0] == 0
    requires |cols| == Start(nx, ny, ny, 0) && |vals| == Start(nx, ny, ny, 0)
    ensures Assembled(rowOf, nx, ny, rows, cols, vals, 0, 0)
  {
    FlatBounds(0, 0, ny, nx);
    assert rows[..1] == [0];
  }

  /** Before pixel (r, c) is assembled, its row pointer and its row fit the
      arrays as `assembly_row` needs. */
  lemma {:induction false} AssembledRoom(rowOf: Cell -> seq<Entry>, nx: nat, ny: nat, rows: seq<int>, cols: seq<int>, vals: seq<real>, r: nat, c: nat)
    requires r < ny && c < nx
    requires Assembled(rowOf, nx, ny, rows, cols, vals, r, c)
    ensures 0 <= Flat(r, c, nx) && Flat(r, c, nx) + 1 < |rows|
    ensures rows[Flat(r, c, nx)] == Start(nx, ny, r, c)
    ensures 0 <= rows[Flat(r, c, nx)] && rows[Flat(r, c, nx)] + PredictedNnz(nx, ny, r, c) <= |cols|
  {
    FlatBounds(r, c, ny, nx);
    assert rows[Flat(r, c, nx)] == rows[..Flat(r, c, nx) + 1][Flat(r, c, nx)];
    StartBound(nx, ny, r, c, ny, 0);
    StartMonotone(nx, ny, 0, 0, r, c);
  }

  /** `cols'` and `vals'` hold what `cols` and `vals` held, except in the slots `lo .. hi - 1`. */
  predicate SameOutside(cols: seq<int>, vals: seq<real>, cols': seq<int>, vals': seq<real>, lo: int, hi: int)
  {
    && |cols'| == |cols| == |vals| == |vals'|
    && forall k :: 0 <= k < |cols| && !(lo <= k < hi) ==> cols'[k] == cols[k] && vals'[k] == vals[k]
  }

  /** A row stored wholly before the rewritten slots stays stored. */
  lemma {:induction false} HoldsBefore(cols: seq<int>, vals: seq<real>, cols': seq<int>, vals': seq<real>, lo: int, hi: int,
                    at: int, row: seq<Entry>)
    requires Holds(cols, vals, at, row) && SameOutside(cols, vals, cols', vals', lo, hi)
    requires at + |row| <= lo
    ensures Holds(cols', vals', at, row)
  {
    HoldsFrame(cols, vals, cols', vals', at, row);
  }

  /** Recording the end of the row of pixel (r, c) moves the pointer frontier to the next pixel. */
  lemma {:induction false} PointersStep(nx: nat, ny: nat, rows: seq<int>, rows': seq<int>, r: nat, c: nat)
    requires c < nx
    requires PointersSet(nx, ny, rows, r, c)
    requires 0 <= Flat(r, c, nx) && Flat(r, c, nx) + 1 < |rows|
    requires rows' == WithRowEnd(rows, nx, ny, r, c)
    ensures PointersSet(nx, ny, rows', r, c + 1)
  {
    var n := Flat(r, c, nx);
    FlatLeftRight(r, c, nx);
    assert rows[n] == rows[..n + 1][n];
    var v := Start(nx, ny, r, c + 1);
    assert rows'[n + 1] == v;
    assert rows'[..n + 1] == rows[..n + 1];
    assert rows'[..n + 2] == rows'[..n + 1] + [v];
  }

  /** Storing the row of pixel (r, c) in its own slots keeps the row of an earlier pixel stored. */
  lemma {:induction false} StoredAtStep(rowOf: Cell -> seq<Entry>, nx: nat, ny: int, cols: seq<int>, vals: seq<real>,
                     cols': seq<int>, vals': seq<real>, r: nat, c: nat, r': nat, c': nat)
    requires c < nx && c' < nx && Precedes((r', c'), (r, c))
    requires |rowOf((r', c'))| == PredictedNnz(nx, ny, r', c')
    requires StoredAt(rowOf, nx, ny, cols, vals, r', c')
    requires SameOutside(cols, vals, cols', vals', Start(nx, ny, r, c), Start(nx, ny, r, c) + PredictedNnz(nx, ny, r, c))
    ensures StoredAt(rowOf, nx, ny, cols', vals', r', c')
  {
    StartBound(nx, ny, r', c', r, c);
    HoldsBefore(cols, vals, cols', vals', Start(nx, ny, r, c), Start(nx, ny, r, c) + PredictedNnz(nx, ny, r, c),
                Start(nx, ny, r', c'), rowOf((r', c')));
  }

  /** Storing the row of pixel (r, c) in its own slots keeps every earlier row stored. */
  lemma {:induction false} StoredStep(rowOf: Cell -> seq<Entry>, nx: nat, ny: int, cols: seq<int>, vals: seq<real>,
                   cols': seq<int>, vals': seq<real>, r: nat, c: nat)
    requires c < nx && RowLengths(rowOf, nx, ny)
    requires Stored(rowOf, nx, ny, cols, vals, r, c)
    requires SameOutside(cols, vals, cols', vals', Start(nx, ny, r, c), Start(nx, ny, r, c) + PredictedNnz(nx, ny, r, c))
    requires StoredAt(rowOf, nx, ny, cols', vals', r, c)
    ensures Stored(rowOf, nx, ny, cols', vals', r, c + 1)
  {
    forall r': nat, c': nat | r' < ny && c' < nx && Precedes((r', c'), (r, c + 1))
      ensures StoredAt(rowOf, nx, ny, cols', vals', r', c')
    {
      if (r', c') != (r, c) {
        assert Precedes((r', c'), (r, c));
        StoredAtStep(rowOf, nx, ny, cols, vals, cols', vals', r, c, r', c');
      }
    }
  }

  /** Assembling pixel (r, c) as `assembly_row` does moves the frontier to the next pixel. */
  lemma {:induction false} AssembledStep(rowOf: Cell -> seq<Entry>, nx: nat, ny: nat, rows: seq<int>, cols: seq<int>, vals: seq<real>,
                      rows': seq<int>, cols': seq<int>, vals': seq<real>, r: nat, c: nat)
    requires r < ny && c < nx
    requires Assembled(rowOf, nx, ny, rows, cols, vals, r, c)
    requires 0 <= Flat(r, c, nx) && Flat(r, c, nx) + 1 < |rows|
    requires rows' == WithRowEnd(rows, nx, ny, r, c)
    requires SameOutside(cols, vals, cols', vals', rows'[Flat(r, c, nx)], rows'[Flat(r, c, nx) + 1])
    requires Holds(cols', vals', rows'[Flat(r, c, nx)], rowOf((r, c)))
    ensures Assembled(rowOf, nx, ny, rows', cols', vals', r, c + 1)
  {
    PointersStep(nx, ny, rows, rows', r, c);
    AssembledRoom(rowOf, nx, ny, rows, cols, vals, r, c);
    StoredStep(rowOf, nx, ny, cols, vals, cols', vals', r, c);
  }

  /** The frontier at the end of image row r is the start of row r + 1. */
  lemma {:induction false} AssembledNextRow(rowOf: Cell -> seq<Entry>, nx: nat, ny: nat, rows: seq<int>, cols: seq<int>, vals: seq<real>, r: nat, c: nat)
    requires c == nx && Assembled(rowOf, nx, ny, rows, cols, vals, r, c)
    ensures Assembled(rowOf, nx, ny, rows, cols, vals, r + 1, 0)
  {
    FlatRowEnd(r, nx);
    assert Pointers(nx, ny, r + 1, 0) == Pointers(nx, ny, r, nx);
    forall r': nat, c': nat | r' < ny && c' < nx && Precedes((r', c'), (r + 1, 0))
      ensures StoredAt(rowOf, nx, ny, cols, vals, r', c')
    {
      assert Precedes((r', c'), (r, nx));
    }
  }

  /** In the complete pointer array, each pixel's pair of pointers frames
      the slots reserved for its row. */
  lemma {:induction false} PointerPair(nx: nat, ny: nat, r: nat, c: nat)
    requires r < ny && c < nx
    ensures 0 <= Flat(r, c, nx) < Flat(ny, 0, nx)
    ensures Pointers(nx, ny, ny, 0)[Flat(r, c, nx)] == Start(nx, ny, r, c)
    ensures Pointers(nx, ny, ny, 0)[Flat(r, c, nx) + 1] == Start(nx, ny, r, c) + PredictedNnz(nx, ny, r, c)
  {
    FlatBounds(r, c, ny, nx);
    FlatLeftRight(r, c, nx);
    PointersAt(nx, ny, ny, 0, r, c);
    PointersAt(nx, ny, ny, 0, r, c + 1);
  }

  /** Once every pixel's pointers are set, each pixel's pair of pointers
      frames the slots reserved for its row. */
  lemma {:induction false} PointersAll(nx: nat, ny: nat, r: nat, rows: seq<int>)
    requires r == ny && nx >= 1 && PointersSet(nx, ny, rows, r, 0)
    ensures rows[0] == 0 && rows[Flat(ny, 0, nx)] == Start(nx, ny, ny, 0)
    ensures forall r', c' {:trigger Flat(r', c', nx)} :: 0 <= r' < ny && 0 <= c' < nx ==>
              && 0 <= Flat(r', c', nx) < Flat(ny, 0, nx)
              && rows[Flat(r', c', nx)] == Start(nx, ny, r', c')
              && rows[Flat(r', c', nx) + 1] == Start(nx, ny, r', c') + PredictedNnz(nx, ny, r', c')
  {
    assert rows == Pointers(nx, ny, ny, 0) by {
      assert rows == rows[..Flat(ny, 0, nx) + 1];
    }
    PointersAt(nx, ny, ny, 0, 0, 0);
    PointerFrames(nx, ny, rows);
  }

  /** The final pointers frame every pixel's row. */
  lemma {:induction false} PointerFrames(nx: nat, ny: nat, rows: seq<int>)
    requires nx >= 1 && rows == Pointers(nx, ny, ny, 0)
    ensures forall r, c {:trigger Flat(r, c, nx)} :: 0 <= r < ny && 0 <= c < nx ==>
              && 0 <= Flat(r, c, nx) < Flat(ny, 0, nx)
              && rows[Flat(r, c, nx)] == Start(nx, ny, r, c)
              && rows[Flat(r, c, nx) + 1] == Start(nx, ny, r, c) + PredictedNnz(nx, ny, r, c)
  {
    forall r, c | 0 <= r < ny && 0 <= c < nx
      ensures 0 <= Flat(r, c, nx) < Flat(ny, 0, nx)
      ensures rows[Flat(r, c, nx)] == Start(nx, ny, r, c)
      ensures rows[Flat(r, c, nx) + 1] == Start(nx, ny, r, c) + PredictedNnz(nx, ny, r, c)
    {
      PointerPair(nx, ny, r, c);
    }
  }

  /** Every entry of `s` is smaller than every later one. */
  predicate Increasing(s: seq<int>)
  {
    forall i, j :: 0 <= i < j < |s| ==> s[i] < s[j]
  }

  /** Pointers holding every pixel's offset, and the total after the last
      pixel, grow strictly from one flat index to any later one. */
  lemma {:induction false} PointersIncrease(nx: nat, ny: nat, rows: seq<int>)
    requires nx >= 1 && 0 <= Flat(ny, 0, nx) && |rows| == Flat(ny, 0, nx) + 1
    requires rows[Flat(ny, 0, nx)] == Start(nx, ny, ny, 0)
    requires forall r, c {:trigger Flat(r, c, nx)} :: 0 <= r < ny && 0 <= c < nx ==>
               0 <= Flat(r, c, nx) < Flat(ny, 0, nx) && rows[Flat(r, c, nx)] == Start(nx, ny, r, c)
    ensures Increasing(rows)
  {
    FlatIsProduct(ny, 0, nx);
    forall i, j | 0 <= i < j < |rows|
      ensures rows[i] < rows[j]
    {
      FlatCover(i, ny, nx);
      var r, c := i / nx, i % nx;
      if j == Flat(ny, 0, nx) {
        StartBound(nx, ny, r, c, ny, 0);
      } else {
        FlatCover(j, ny, nx);
        var r', c' := j / nx, j % nx;
        FlatOrder(r, c, r', c', nx);
        StartBound(nx, ny, r, c, r', c');
      }
    }
  }

  /** Once every pixel is assembled, every pixel's matrix row is stored at its offset. */
  lemma {:induction false} StoredAll(st: Statistics, nx: nat, ny: int, r: nat, cols: seq<int>, vals: seq<real>)
    requires Shaped(st, nx, ny)
    requires r == ny && Stored(MatrixRows(st, nx, ny), nx, ny, cols, vals, r, 0)
    ensures forall r', c' {:trigger MatrixRow(st, nx, ny, r', c')} :: 0 <= r' < ny && 0 <= c' < nx ==>
              Holds(cols, vals, Start(nx, ny, r', c'), MatrixRow(st, nx, ny, r', c'))
  {
    forall r', c' | 0 <= r' < ny && 0 <= c' < nx
      ensures Holds(cols, vals, Start(nx, ny, r', c'), MatrixRow(st, nx, ny, r', c'))
    {
      assert Precedes((r', c'), (r, 0));
      assert StoredAt(MatrixRows(st, nx, ny), nx, ny, cols, vals, r', c');
      MatrixRowsAt(st, nx, ny, r', c');
    }
  }

  /** Once every pixel is assembled, the row pointers run from 0 to the
      allocated count, strictly increasing, and every pixel's pointers frame
      its row. */
  lemma {:induction false} AssembledAll(st: Statistics, nx: nat, ny: nat, r: nat, rows: seq<int>, cols: seq<int>, vals: seq<real>)
    requires Shaped(st, nx, ny)
    requires r == ny && Assembled(MatrixRows(st, nx, ny), nx, ny, rows, cols, vals, r, 0)
    ensures Increasing(rows)
    ensures 0 <= Flat(ny, 0, nx) && |rows| == Flat(ny, 0, nx) + 1
    ensures rows[0] == 0 && rows[Flat(ny, 0, nx)] == Start(nx, ny, ny, 0)
    ensures |cols| == |vals| == Start(nx, ny, ny, 0)
    ensures forall r', c' {:trigger Flat(r', c', nx)} :: 0 <= r' < ny && 0 <= c' < nx ==>
              && 0 <= Flat(r', c', nx) < Flat(ny, 0, nx)
              && rows[Flat(r', c', nx)] == Start(nx, ny, r', c')
              && rows[Flat(r', c', nx) + 1] == Start(nx, ny, r', c') + PredictedNnz(nx, ny, r', c')
    ensures forall r', c' {:trigger MatrixRow(st, nx, ny, r', c')} :: 0 <= r' < ny && 0 <= c' < nx ==>
              Holds(cols, vals, Start(nx, ny, r', c'), MatrixRow(st, nx, ny, r', c'))
  {
    PointersAll(nx, ny, r, rows);
    PointersIncrease(nx, ny, rows);
    StoredAll(st, nx, ny, r, cols, vals);
  }

  /** One iteration of the inner loop of `compute_matrix`: `assembly_row`
      for pixel (r, c) extends what is assembled by that pixel. */
  method AssemblePixel(st: Statistics, nx: int, ny: int, r: nat, c: nat,
                       begRows: array<int>, indCols: array<int>, coefs: array<real>)
    requires Shaped(st, nx, ny) && r < ny && c < nx
    requires begRows != indCols
    requires Assembled(MatrixRows(st, nx, ny), nx, ny, begRows[..], indCols[..], coefs[..], r, c)
    modifies begRows, indCols, coefs
    ensures Assembled(MatrixRows(st, nx, ny), nx, ny, begRows[..], indCols[..], coefs[..], r, c + 1)
  {
    AssembledRoom(MatrixRows(st, nx, ny), nx, ny, begRows[..], indCols[..], coefs[..], r, c);
    ghost var rows, cols, vals := begRows[..], indCols[..], coefs[..];
    AssemblyRow(st, nx, ny, r, c, begRows, indCols, coefs);
    MatrixRowsAt(st, nx, ny, r, c);
    AssembledStep(MatrixRows(st, nx, ny), nx, ny, rows, cols, vals, begRows[..], indCols[..], coefs[..], r, c);
  }

  /** One pass of the inner loop of `compute_matrix`: `assembly_row` for
      every pixel of image row `irow`, from left to right. */
  method AssembleImageRow(st: Statistics, nx: int, ny: int, irow: nat,
                          begRows: array<int>, indCols: array<int>, coefs: array<real>)
    requires Shaped(st, nx, ny) && irow < ny
    requires begRows != indCols
    requires Assembled(MatrixRows(st, nx, ny), nx, ny, begRows[..], indCols[..], coefs[..], irow, 0)
    modifies begRows, indCols, coefs
    ensures Assembled(MatrixRows(st, nx, ny), nx, ny, begRows[..], indCols[..], coefs[..], irow + 1, 0)
  {
    var jcol := 0;
    while jcol < nx
      invariant 0 <= jcol <= nx
      invariant Assembled(MatrixRows(st, nx, ny), nx, ny, begRows[..], indCols[..], coefs[..], irow, jcol)
    {
      AssemblePixel(st, nx, ny, irow, jcol, begRows, indCols, coefs);
      jcol := jcol + 1;
    }
    AssembledNextRow(MatrixRows(st, nx, ny), nx, ny, begRows[..], indCols[..], coefs[..], irow, jcol);
  }

  /** Once every pixel of the image is assembled, the three arrays form the
      compressed-sparse-row matrix of the image: `nx*ny + 1` strictly
      increasing row pointers from 0 to the allocated count, and every pixel's
      matrix row stored between its two pointers. */
  lemma {:induction false} AssembledMatrix(st: Statistics, r: nat, rows: seq<int>, cols: seq<int>, vals: seq<real>)
    requires |st.means| > 0 && Shaped(st, Width(st), Height(st))
    requires r == Height(st) && Assembled(MatrixRows(st, Width(st), Height(st)), Width(st), Height(st), rows, cols, vals, r, 0)
    ensures |rows| == Width(st) * Height(st) + 1
    ensures |cols| == |vals| == ExpectedNnz(Width(st), Height(st))
    ensures rows[0] == 0 && rows[Width(st) * Height(st)] == ExpectedNnz(Width(st), Height(st))
    ensures forall i, j :: 0 <= i < j < |rows| ==> rows[i] < rows[j]
    ensures forall r, c {:trigger Flat(r, c, Width(st))} :: 0 <= r < Height(st) && 0 <= c < Width(st) ==>
              && 0 <= Flat(r, c, Width(st)) < |rows| - 1
              && rows[Flat(r, c, Width(st))] == Start(Width(st), Height(st), r, c)
              && rows[Flat(r, c, Width(st)) + 1] == Start(Width(st), Height(st), r, c) + PredictedNnz(Width(st), Height(st), r, c)
    ensures forall r, c {:trigger MatrixRow(st, Width(st), Height(st), r, c)} :: 0 <= r < Height(st) && 0 <= c < Width(st) ==>
              Holds(cols, vals, Start(Width(st), Height(st), r, c), MatrixRow(st, Width(st), Height(st), r, c))
  {
    var nx, ny := Width(st), Height(st);
    AssembledAll(st, nx, ny, r, rows, cols, vals);
    TotalNnz(nx, ny);
    assert nx * ny == Flat(ny, 0, nx) by {
      FlatIsProduct(ny, 0, nx);
    }
  }

  /** `compute_matrix` for the whole image (`i_start` = 0): the rows of all
      pixels assembled in row-major order into one compressed-sparse-row
      matrix of `nx*ny` rows. */
  method ComputeMatrix(st: Statistics) returns (m: Csr)
    requires |st.means| > 0 && Shaped(st, Width(st), Height(st))
    ensures |m.indptr| == Width(st) * Height(st) + 1
    ensures |m.indices| == |m.data| == ExpectedNnz(Width(st), Height(st))
    ensures m.indptr[0] == 0 && m.indptr[Width(st) * Height(st)] == ExpectedNnz(Width(st), Height(st))
    ensures forall i, j :: 0 <= i < j < |m.indptr| ==> m.indptr[i] < m.indptr[j]
    ensures forall r, c {:trigger Flat(r, c, Width(st))} :: 0 <= r < Height(st) && 0 <= c < Width(st) ==>
              && 0 <= Flat(r, c, Width(st)) < |m.indptr| - 1
              && m.indptr[Flat(r, c, Width(st))] == Start(Width(st), Height(st), r, c)
              && m.indptr[Flat(r, c, Width(st)) + 1] == Start(Width(st), Height(st), r, c) + PredictedNnz(Width(st), Height(st), r, c)
    ensures forall r, c {:trigger MatrixRow(st, Width(st), Height(st), r, c)} :: 0 <= r < Height(st) && 0 <= c < Width(st) ==>
              Holds(m.indices, m.data, Start(Width(st), Height(st), r, c), MatrixRow(st, Width(st), Height(st), r, c))
  {
    var nx, ny := Width(st), Height(st);
    var begRows, indCols, coefs := AllocateMatrix(nx, ny);
    MatrixRowLengths(st, nx, ny);
    AssembledInit(MatrixRows(st, nx, ny), nx, ny, begRows[..], indCols[..], coefs[..]);
    AssembleImage(st, nx, ny, begRows, indCols, coefs);
    AssembledMatrix(st, ny, begRows[..], indCols[..], coefs[..]);
    m := Csr(coefs[..], indCols[..], begRows[..]);
  }

  /** The allocations of `compute_matrix`: `nx*ny + 1` zeroed row pointers and
      room for `nnz` entries, which is exactly the number of entries the
      pixels' rows hold together. */
  method AllocateMatrix(nx: int, ny: int) returns (begRows: array<int>, indCols: array<int>, coefs: array<real>)
    requires nx >= 2 && ny >= 2
    ensures fresh(begRows) && fresh(indCols) && fresh(coefs) && begRows != indCols
    ensures 0 <= Flat(ny, 0, nx) && begRows.Length == Flat(ny, 0, nx) + 1
    ensures forall k :: 0 <= k < begRows.Length ==> begRows[k] == 0
    ensures indCols.Length == coefs.Length == Start(nx, ny, ny, 0)
  {
    var dim := nx * ny;
    // With i_start = 0 and the image height equal to ny, neither correction applies.
    var nnz := 9 * (nx - 2) * (ny - 2) + 12 * ((nx - 2) + (ny - 2)) + 16;
    assert nnz == Start(nx, ny, ny, 0) by {
      TotalNnz(nx, ny);
    }
    assert Start(nx, ny, ny, 0) >= 0 by {
      StartBound(nx, ny, 0, 0, ny, 0);
    }
    assert dim == Flat(ny, 0, nx) by {
      FlatIsProduct(ny, 0, nx);
    }
    assert Flat(ny, 0, nx) >= 0 by {
      FlatBounds(0, 0, ny, nx);
    }
    begRows := new int[dim + 1](_ => 0);
    indCols := new int[nnz](_ => 0);
    coefs := new real[nnz](_ => 0.0);
  }

  /** The outer loop of `compute_matrix`: every image row in turn, from top
      to bottom. */
  method AssembleImage(st: Statistics, nx: int, ny: int,
                       begRows: array<int>, indCols: array<int>, coefs: array<real>)
    requires Shaped(st, nx, ny)
    requires begRows != indCols
    requires Assembled(MatrixRows(st, nx, ny), nx, ny, begRows[..], indCols[..], coefs[..], 0, 0)
    modifies begRows, indCols, coefs
    ensures Assembled(MatrixRows(st, nx, ny), nx, ny, begRows[..], indCols[..], coefs[..], ny, 0)
  {
    var irow := 0;
    while irow < ny
      invariant 0 <= irow <= ny
      invariant Assembled(MatrixRows(st, nx, ny), nx, ny, begRows[..], indCols[..], coefs[..], irow, 0)
    {
      AssembleImageRow(st, nx, ny, irow, begRows, indCols, coefs);
      irow := irow + 1;
    }
  }
}

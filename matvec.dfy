/** The row-block decomposition behind `get_matrix_vector_product` of the
    colorization program: the rows of the matrix are cut into one block per
    process, every block is multiplied by the vector, and the block products
    are stacked in rank order. */
module MatVec {
  import opened GridIndex
  import SparseAssembly
  import Dirichlet
  import opened Seqs

  type Csr = SparseAssembly.Csr

  /** A matrix of `n` rows in compressed-sparse-row form whose stored column
      indices address a vector of length `len`. */
  predicate WellFormed(m: Csr, n: nat, len: nat)
  {
    && |m.indptr| == n + 1
    && Dirichlet.IsCsr(m.indptr, |m.data|)
    && |m.indices| == |m.data|
    && forall k :: m.indptr[0] <= k < m.indptr[n] ==> 0 <= m.indices[k] < len
  }

  /** Sum of `data[k] * x[indices[k]]` over the stored entries `k .. hi - 1`. */
  function EntriesDot(m: Csr, n: nat, x: seq<real>, k: int, hi: int): real
    requires WellFormed(m, n, |x|)
    requires m.indptr[0] <= k && hi <= m.indptr[n]
    decreases hi - k
  {
    if k >= hi then 0.0 else m.data[k] * x[m.indices[k]] + EntriesDot(m, n, x, k + 1, hi)
  }

  /** Entry `i` of the product: the stored entries of row `i` against `x`. */
  function RowDot(m: Csr, n: nat, x: seq<real>, i: nat): real
    requires WellFormed(m, n, |x|) && i < n
  {
    EntriesDot(m, n, x, m.indptr[i], m.indptr[i + 1])
  }

  /** Rows `lo .. hi - 1` of the product of `m` by `x`, which is what
      `matrix[lo:hi].dot(x)` computes. */
  function Product(m: Csr, n: nat, x: seq<real>, lo: nat, hi: nat): (r: seq<real>)
    requires WellFormed(m, n, |x|) && lo <= hi <= n
    ensures |r| == hi - lo
    ensures forall k :: 0 <= k < |r| ==> r[k] == RowDot(m, n, x, lo + k)
    decreases hi - lo
  {
    if lo == hi then [] else [RowDot(m, n, x, lo)] + Product(m, n, x, lo + 1, hi)
  }

  /** The product of two adjacent row ranges, stacked, is the product of
      their union. */
  lemma {:induction false} ProductSplit(m: Csr, n: nat, x: seq<real>, lo: nat, mid: nat, hi: nat)
    requires WellFormed(m, n, |x|) && lo <= mid <= hi <= n
    ensures Product(m, n, x, lo, mid) + Product(m, n, x, mid, hi) == Product(m, n, x, lo, hi)
    decreases mid - lo
  {
    if lo < mid {
      ProductSplit(m, n, x, lo + 1, mid, hi);
      assert [RowDot(m, n, x, lo)] + Product(m, n, x, lo + 1, mid) + Product(m, n, x, mid, hi)
          == [RowDot(m, n, x, lo)] + (Product(m, n, x, lo + 1, mid) + Product(m, n, x, mid, hi));
    }
  }

  // ------------------------------------------------------------- partition

  /** `math.ceil(dim / n_fragments)`: the number of rows per block, the
      least count that gives `size` blocks room for all `dim` rows. */
  function LinesPerFragment(dim: nat, size: nat): (lines: nat)
    requires size >= 1
    ensures dim <= lines * size
    ensures lines == 0 || (lines - 1) * size < dim
  {
    var q := (dim + size - 1) / size;
    assert dim + size - 1 == q * size + (dim + size - 1) % size;
    assert q > 0 ==> (q - 1) * size == q * size - size;
    q
  }

  /** `LinesPerFragment` is `dim / size`, plus one when `size` does not divide `dim`. */
  lemma {:induction false} CeilingByCases(dim: nat, size: nat)
    requires size >= 1
    ensures dim == (dim / size) * size + dim % size
    ensures LinesPerFragment(dim, size) == dim / size + (if dim % size == 0 then 0 else 1)
  {
    var q, r := dim / size, dim % size;
    FlatIsProduct(q, r, size);
    if r == 0 {
      FlatIsProduct(q, size - 1, size);
      FlatSplit(q, size - 1, size);
      assert dim + size - 1 == Flat(q, size - 1, size);
    } else {
      FlatIsProduct(q + 1, r - 1, size);
      FlatSplit(q + 1, r - 1, size);
      assert dim + size - 1 == Flat(q + 1, r - 1, size);
    }
  }

  /** First row of the block of rank `i`: `lines_per_fragment * i`. */
  function FragmentStart(dim: nat, size: nat, i: nat): nat
    requires size >= 1
  {
    i * LinesPerFragment(dim, size)
  }

  /** End of the block of rank `i` before clipping: one block further on,
      except for the last rank of several, whose block holds `dim // size` rows. */
  function FragmentEnd(dim: nat, size: nat, i: nat): nat
    requires size >= 1
  {
    if 1 <= i && i == size - 1 then FragmentStart(dim, size, i) + dim / size
    else FragmentStart(dim, size, i) + LinesPerFragment(dim, size)
  }

  /** The rows `matrix[start:end]` actually holds: Python clips both bounds
      of a slice to the number of rows. */
  function Clip(k: nat, dim: nat): (r: nat)
    ensures r <= dim && r <= k
    ensures r == k || r == dim
  {
    if k <= dim then k else dim
  }

  /** The clipped row range `[Lo, Hi)` of the block of rank `i`. */
  function Lo(dim: nat, size: nat, i: nat): nat
    requires size >= 1
  {
    Clip(FragmentStart(dim, size, i), dim)
  }

  function Hi(dim: nat, size: nat, i: nat): nat
    requires size >= 1
  {
    Clip(FragmentEnd(dim, size, i), dim)
  }

  /** Every block is a (possibly empty) range of rows of the matrix. */
  lemma {:induction false} BlockInRange(dim: nat, size: nat, i: nat)
    requires size >= 1
    ensures Lo(dim, size, i) <= Hi(dim, size, i) <= dim
  {
    assert FragmentStart(dim, size, i) <= FragmentEnd(dim, size, i);
  }

  /** The block of rank 0 starts at row 0. */
  lemma {:induction false} FirstBlockStarts(dim: nat, size: nat)
    requires size >= 1
    ensures Lo(dim, size, 0) == 0
  {
  }

  /** Each block but the last ends where the next one starts, so the blocks
      are disjoint and follow each other in rank order. */
  lemma {:induction false} BlocksAdjacent(dim: nat, size: nat, i: nat)
    requires size >= 1 && i + 1 < size
    ensures Hi(dim, size, i) == Lo(dim, size, i + 1)
  {
    var l := LinesPerFragment(dim, size);
    assert (i + 1) * l == i * l + l;
  }

  /** The block of the last rank reaches the last row: the `dim // size`
      rows it is given make up for the blocks of the other ranks being
      rounded up. */
  lemma {:induction false} LastBlockEnds(dim: nat, size: nat)
    requires size >= 1
    ensures Hi(dim, size, size - 1) == dim
  {
    var l := LinesPerFragment(dim, size);
    var q, r := dim / size, dim % size;
    if size == 1 {
      assert l * 1 == l;
    } else {
      CeilingByCases(dim, size);
      assert FragmentEnd(dim, size, size - 1) == (size - 1) * l + q;
      if r == 0 {
        assert (size - 1) * q + q == q * size;
      } else {
        assert (size - 1) * (q + 1) + q == q * size + size - 1;
      }
    }
  }

  /** The blocks of ranks `0 .. i` together cover the rows `0 .. Hi(i) - 1`. */
  lemma {:induction false} BlocksCover(m: Csr, n: nat, x: seq<real>, size: nat, i: nat)
    requires WellFormed(m, n, |x|) && size >= 1 && i < size
    ensures Concat(BlockProducts(m, n, x, size, i + 1)) == Product(m, n, x, 0, Hi(n, size, i))
  {
    BlockInRange(n, size, i);
    if i == 0 {
      FirstBlockStarts(n, size);
      assert BlockProducts(m, n, x, size, 1) == [Product(m, n, x, 0, Hi(n, size, 0))];
    } else {
      BlocksCover(m, n, x, size, i - 1);
      BlocksAdjacent(n, size, i - 1);
      ProductSplit(m, n, x, 0, Lo(n, size, i), Hi(n, size, i));
    }
  }

  // ----------------------------------------------------------- the product

  /** The block products of ranks `0 .. k - 1`, in rank order. */
  function BlockProducts(m: Csr, n: nat, x: seq<real>, size: nat, k: nat): (parts: seq<seq<real>>)
    requires WellFormed(m, n, |x|) && size >= 1
    ensures |parts| == k
  {
    if k == 0 then []
    else
      BlockInRange(n, size, k - 1);
      BlockProducts(m, n, x, size, k - 1) + [Product(m, n, x, Lo(n, size, k - 1), Hi(n, size, k - 1))]
  }

  /** One pass of the sending loop of `get_matrix_vector_product` and the
      reply to it: the rows `start_i .. end_i - 1` sent to rank `i`,
      multiplied by the vector there. */
  method FragmentProduct(m: Csr, x: seq<real>, size: nat, linesPerFragment: nat, i: nat) returns (part: seq<real>)
    requires size >= 1 && WellFormed(m, |x|, |x|)
    requires linesPerFragment == LinesPerFragment(|x|, size)
    ensures Lo(|x|, size, i) <= Hi(|x|, size, i) <= |x|
    ensures part == Product(m, |x|, x, Lo(|x|, size, i), Hi(|x|, size, i))
  {
    var dim := |x|;
    var start := linesPerFragment * i;
    var end := start + linesPerFragment;
    if i == size - 1 {
      end := start + dim / size;
    }
    BlockInRange(dim, size, i);
    part := Product(m, dim, x, Clip(start, dim), Clip(end, dim));
  }

  /** `get_matrix_vector_product`, with the messages exchanged with the
      other ranks replaced by the products they compute: rank 0 multiplies
      the first block, every other rank `i` multiplies its block, and the
      parts are stacked in rank order. The result is the whole product. */
  method MatrixVectorProduct(m: Csr, x: seq<real>, size: nat) returns (result: seq<real>)
    requires size >= 1 && WellFormed(m, |x|, |x|)
    ensures |result| == |x|
    ensures forall i :: 0 <= i < |x| ==> result[i] == RowDot(m, |x|, x, i)
  {
    var dim := |x|;
    var linesPerFragment := LinesPerFragment(dim, size);
    var parts := [Product(m, dim, x, 0, Clip(linesPerFragment, dim))];
    var i := 1;
    while i < size
      invariant 1 <= i <= size
      invariant parts == BlockProducts(m, dim, x, size, i)
    {
      var part := FragmentProduct(m, x, size, linesPerFragment, i);
      parts := parts + [part];
      i := i + 1;
    }
    result := Concat(parts);
    BlocksCover(m, dim, x, size, size - 1);
    LastBlockEnds(dim, size);
  }
}

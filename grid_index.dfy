/** Row-major flattening of a two-dimensional grid and Python's indexing
    conventions, shared by the image, Game of Life and ant-colony models. */
module GridIndex {

  /** Row-major flat index of cell (row, col) in a grid `width` cells wide,
      counted one row at a time; `FlatIsProduct` gives its closed form
      `row * width + col`. */
  function Flat(row: nat, col: int, width: int): int
  {
    if row == 0 then col else Flat(row - 1, col, width) + width
  }

  /** The flat index is `row * width + col`. */
  lemma {:induction false} FlatIsProduct(row: nat, col: int, width: int)
    ensures Flat(row, col, width) == row * width + col
  {
    if row > 0 {
      FlatIsProduct(row - 1, col, width);
    }
  }

  /** The cells left and right of (row, col) have the flat indices just
      before and just after its own. */
  lemma {:induction false} FlatLeftRight(row: nat, col: int, width: int)
    ensures Flat(row, col - 1, width) == Flat(row, col, width) - 1
    ensures Flat(row, col + 1, width) == Flat(row, col, width) + 1
  {
    if row > 0 {
      FlatLeftRight(row - 1, col, width);
    }
  }

  /** Flat indices of the eight neighbours of (row, col), relative to its own. */
  lemma FlatNeighbours(row: nat, col: int, width: int)
    ensures Flat(row, col - 1, width) == Flat(row, col, width) - 1
    ensures Flat(row, col + 1, width) == Flat(row, col, width) + 1
    ensures row > 0 ==> Flat(row - 1, col - 1, width) == Flat(row, col, width) - width - 1
    ensures row > 0 ==> Flat(row - 1, col, width) == Flat(row, col, width) - width
    ensures row > 0 ==> Flat(row - 1, col + 1, width) == Flat(row, col, width) - width + 1
    ensures Flat(row + 1, col - 1, width) == Flat(row, col, width) + width - 1
    ensures Flat(row + 1, col, width) == Flat(row, col, width) + width
    ensures Flat(row + 1, col + 1, width) == Flat(row, col, width) + width + 1
  {
    FlatIsProduct(row, col, width);
    FlatIsProduct(row, col - 1, width);
    FlatIsProduct(row, col + 1, width);
    FlatIsProduct(row + 1, col - 1, width);
    FlatIsProduct(row + 1, col, width);
    FlatIsProduct(row + 1, col + 1, width);
    if row > 0 {
      FlatIsProduct(row - 1, col - 1, width);
      FlatIsProduct(row - 1, col, width);
      FlatIsProduct(row - 1, col + 1, width);
    }
  }

  /** Splitting a flat index with `/` and `%` recovers the cell it came from. */
  lemma FlatSplit(row: nat, col: int, width: int)
    requires 0 <= col < width
    ensures Flat(row, col, width) / width == row
    ensures Flat(row, col, width) % width == col
  {
    FlatIsProduct(row, col, width);
    var k := row * width + col;
    var q, r := k / width, k % width;
    assert k == q * width + r;
    if q > row {
      Scale(q - row, width);
      assert false;
    } else if q < row {
      Scale(row - q, width);
      assert false;
    }
  }

  /** Every flat index of a `height` x `width` grid is the flat index of one of its cells. */
  lemma FlatCover(k: int, height: int, width: int)
    requires 0 < width && 0 <= k < height * width
    ensures 0 <= k / width < height && 0 <= k % width < width
    ensures Flat(k / width, k % width, width) == k
  {
    var q := k / width;
    assert k == q * width + k % width;
    if q >= height {
      Scale(q - height + 1, width);
      assert false;
    }
    FlatIsProduct(q, k % width, width);
  }

  /** Flat indices grow strictly along row-major order, and only along it. */
  lemma FlatOrder(row: nat, col: int, row': nat, col': int, width: int)
    requires 0 <= col < width && 0 <= col' < width
    ensures Flat(row, col, width) < Flat(row', col', width) <==> row < row' || (row == row' && col < col')
  {
    FlatIsProduct(row, col, width);
    FlatIsProduct(row', col', width);
    if row < row' {
      Scale(row' - row, width);
      assert row' * width == row * width + (row' - row) * width;
    } else if row' < row {
      Scale(row - row', width);
      assert row * width == row' * width + (row - row') * width;
    }
  }

  /** The flat index of a cell of a `height` x `width` grid lies in `0 .. height*width - 1`. */
  lemma FlatInRange(row: nat, col: int, height: int, width: int)
    requires row < height && 0 <= col < width
    ensures 0 <= Flat(row, col, width) < height * width
  {
    FlatIsProduct(row, col, width);
    if row > 0 {
      Scale(row, width);
    }
    if row < height - 1 {
      Scale(height - 1 - row, width);
      assert height * width == row * width + (height - 1 - row) * width + width;
    } else {
      assert height * width == row * width + width;
    }
  }

  /** The flat index of a cell of a `height` x `width` grid lies before
      that of the first cell of row `height`. */
  lemma {:induction false} FlatBounds(row: nat, col: int, height: nat, width: int)
    requires row < height && 0 <= col < width
    ensures 0 <= Flat(row, col, width) < Flat(height, 0, width)
  {
    if row > 0 {
      FlatBounds(row - 1, col, height - 1, width);
    } else if height > 1 {
      FlatBounds(0, col, height - 1, width);
    }
  }

  /** One past the last column of a row is the first cell of the next row. */
  lemma {:induction false} FlatRowEnd(row: nat, width: int)
    ensures Flat(row, width, width) == Flat(row + 1, 0, width)
  {
    if row > 0 {
      FlatRowEnd(row - 1, width);
    }
  }

  /** A positive multiple of a non-negative width is at least that width. */
  lemma {:induction false} Scale(a: int, width: int)
    requires a >= 1 && width >= 0
    ensures a * width >= width
  {
    if a > 1 {
      Scale(a - 1, width);
      assert a * width == (a - 1) * width + width;
    }
  }

  /** Python's reading of a possibly negative index into a sequence of length `n`:
      `-n <= i < 0` counts from the end. */
  function PyIndex(i: int, n: int): (r: int)
    requires -n <= i < n
    ensures 0 <= r < n
    ensures r == i % n
  {
    if i < 0 then i + n else i
  }
}

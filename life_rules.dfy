/** The rules of Conway's Game of Life on a torus, shared by the three
    `Grille` classes: the eight neighbours of a cell, the B3/S23 rule, the
    list of flat indices of the cells that change, and the sweep that
    computes the next generation into a second buffer. */
module LifeRules {
  import opened GridIndex

  /** Every cell of the grid is dead (0) or alive (1). */
  ghost predicate Binary(cells: array2<int>)
    reads cells
  {
    forall i, j :: 0 <= i < cells.Length0 && 0 <= j < cells.Length1 ==> cells[i, j] == 0 || cells[i, j] == 1
  }

  /** The index before `k` on a ring of `n` indices. */
  function Prev(k: int, n: int): int
  {
    if k == 0 then n - 1 else k - 1
  }

  /** The index after `k` on a ring of `n` indices. */
  function Succ(k: int, n: int): int
  {
    if k == n - 1 then 0 else k + 1
  }

  /** `Prev` and `Succ` are the modular steps `(k + n - 1) % n` and
      `(k + 1) % n` of the sweep, that is `(k - 1) % n` and `(k + 1) % n`. */
  lemma RingSteps(k: int, n: int)
    requires 0 <= k < n
    ensures Prev(k, n) == (k + n - 1) % n == (k - 1) % n
    ensures Succ(k, n) == (k + 1) % n
    ensures k % n == k
  {
    FlatSplit(0, k, n);
    if k == 0 {
      FlatSplit(0, n - 1, n);
      MinusOneMod(n);
    } else {
      FlatSplit(1, k - 1, n);
      FlatSplit(0, k - 1, n);
    }
    if k == n - 1 {
      FlatSplit(1, 0, n);
    } else {
      FlatSplit(0, k + 1, n);
    }
  }

  /** `-1 % n` is `n - 1`: the index before the first is the last. */
  lemma MinusOneMod(n: int)
    requires n >= 1
    ensures (-1) % n == n - 1
  {
    var q := (-1) / n;
    assert -1 == q * n + (-1) % n;
    if q >= 1 {
      Scale(q, n);
      assert false;
    } else if q <= -2 {
      Scale(-q, n);
      assert false;
    }
  }

  /** The eight neighbours of (i, j) in the order the sweep lists them:
      the row above, then the cells left and right, then the row below,
      with rows and columns wrapping around. */
  function Neighbours(i: int, j: int, ny: int, nx: int): (ns: seq<(int, int)>)
    requires 0 <= i < ny && 0 <= j < nx
    ensures |ns| == 8
    ensures forall k :: 0 <= k < 8 ==> 0 <= ns[k].0 < ny && 0 <= ns[k].1 < nx
  {
    var above, below := Prev(i, ny), Succ(i, ny);
    var left, right := Prev(j, nx), Succ(j, nx);
    [(above, left), (above, j), (above, right), (i, left),
     (i, right), (below, left), (below, j), (below, right)]
  }

  /** The offsets of the eight neighbours, in the order of `Neighbours`. */
  const Offsets: seq<(int, int)> := [(-1, -1), (-1, 0), (-1, 1), (0, -1), (0, 1), (1, -1), (1, 0), (1, 1)]

  /** The neighbours are the cells at the eight offsets other than (0, 0),
      taken modulo the grid dimensions. */
  lemma NeighboursAreToroidal(i: int, j: int, ny: int, nx: int)
    requires 0 <= i < ny && 0 <= j < nx
    ensures (0, 0) !in Offsets
    ensures forall k :: 0 <= k < 8 ==>
              Neighbours(i, j, ny, nx)[k] == ((i + Offsets[k].0) % ny, (j + Offsets[k].1) % nx)
  {
    RingSteps(i, ny);
    RingSteps(j, nx);
  }

  /** On a grid of at least three rows and three columns the eight
      neighbours are eight distinct cells, none of them (i, j) itself. */
  lemma NeighboursDistinct(i: int, j: int, ny: int, nx: int)
    requires 3 <= ny && 3 <= nx && 0 <= i < ny && 0 <= j < nx
    ensures (i, j) !in Neighbours(i, j, ny, nx)
    ensures forall p, q :: 0 <= p < q < 8 ==> Neighbours(i, j, ny, nx)[p] != Neighbours(i, j, ny, nx)[q]
  {
  }

  /** The sum of the values of the eight neighbours of (i, j). */
  function LiveNeighbours(cells: array2<int>, i: int, j: int): int
    requires 0 <= i < cells.Length0 && 0 <= j < cells.Length1
    reads cells
  {
    var above, below := Prev(i, cells.Length0), Succ(i, cells.Length0);
    var left, right := Prev(j, cells.Length1), Succ(j, cells.Length1);
    cells[above, left] + cells[above, j] + cells[above, right] + cells[i, left]
    + cells[i, right] + cells[below, left] + cells[below, j] + cells[below, right]
  }

  /** The values of the cells `ns` hold, summed. */
  function SumOver(cells: array2<int>, ns: seq<(int, int)>): int
    requires forall k :: 0 <= k < |ns| ==> 0 <= ns[k].0 < cells.Length0 && 0 <= ns[k].1 < cells.Length1
    reads cells
  {
    if ns == [] then 0 else cells[ns[0].0, ns[0].1] + SumOver(cells, ns[1..])
  }

  /** Peeling the `k`-th cell off a suffix of `ns`. */
  lemma SumOverStep(cells: array2<int>, ns: seq<(int, int)>, k: nat)
    requires forall t :: 0 <= t < |ns| ==> 0 <= ns[t].0 < cells.Length0 && 0 <= ns[t].1 < cells.Length1
    requires k < |ns|
    ensures SumOver(cells, ns[k..]) == cells[ns[k].0, ns[k].1] + SumOver(cells, ns[k + 1..])
  {
    assert ns[k..][1..] == ns[k + 1..];
  }

  /** `LiveNeighbours` is the sum over the eight neighbours the sweep lists. */
  lemma LiveNeighboursSum(cells: array2<int>, i: int, j: int)
    requires 0 <= i < cells.Length0 && 0 <= j < cells.Length1
    ensures LiveNeighbours(cells, i, j) == SumOver(cells, Neighbours(i, j, cells.Length0, cells.Length1))
  {
    var ns := Neighbours(i, j, cells.Length0, cells.Length1);
    assert ns[0..] == ns;
    SumOverStep(cells, ns, 0);
    SumOverStep(cells, ns, 1);
    SumOverStep(cells, ns, 2);
    SumOverStep(cells, ns, 3);
    SumOverStep(cells, ns, 4);
    SumOverStep(cells, ns, 5);
    SumOverStep(cells, ns, 6);
    SumOverStep(cells, ns, 7);
    assert ns[8..] == [];
  }

  /** On a grid of dead and live cells the neighbour sum counts the live
      neighbours, between 0 and 8. */
  lemma LiveNeighboursBound(cells: array2<int>, i: int, j: int)
    requires 0 <= i < cells.Length0 && 0 <= j < cells.Length1 && Binary(cells)
    ensures 0 <= LiveNeighbours(cells, i, j) <= 8
  {
    var ns := Neighbours(i, j, cells.Length0, cells.Length1);
    forall k | 0 <= k < 8
      ensures 0 <= cells[ns[k].0, ns[k].1] <= 1
    {
    }
    assert 0 <= cells[ns[0].0, ns[0].1] + cells[ns[1].0, ns[1].1] + cells[ns[2].0, ns[2].1] + cells[ns[3].0, ns[3].1]
              + cells[ns[4].0, ns[4].1] + cells[ns[5].0, ns[5].1] + cells[ns[6].0, ns[6].1] + cells[ns[7].0, ns[7].1] <= 8;
  }

  /** The B3/S23 rule: a live cell survives with two or three live
      neighbours, any other cell is born with exactly three. */
  function NextState(alive: int, count: int): (r: int)
    ensures r == 0 || r == 1
    ensures alive == 1 ==> (r == 1 <==> 2 <= count <= 3)
    ensures alive != 1 ==> (r == 1 <==> count == 3)
  {
    if alive == 1 then
      if count < 2 || count > 3 then 0 else 1
    else if count == 3 then 1
    else 0
  }

  /** The state of cell (i, j) in the next generation. */
  function NextCell(cells: array2<int>, i: int, j: int): int
    requires 0 <= i < cells.Length0 && 0 <= j < cells.Length1
    reads cells
  {
    NextState(cells[i, j], LiveNeighbours(cells, i, j))
  }

  /** Whether the sweep records cell (i, j) as changed: a live cell that
      dies or a cell that is born. */
  predicate Flips(cells: array2<int>, i: int, j: int)
    requires 0 <= i < cells.Length0 && 0 <= j < cells.Length1
    reads cells
  {
    var alive, count := cells[i, j], LiveNeighbours(cells, i, j);
    (alive == 1 && (count < 2 || count > 3)) || (alive != 1 && count == 3)
  }

  /** On a grid of dead and live cells, a cell is recorded exactly when its
      state changes. */
  lemma FlipsIffChanges(cells: array2<int>, i: int, j: int)
    requires 0 <= i < cells.Length0 && 0 <= j < cells.Length1 && Binary(cells)
    ensures Flips(cells, i, j) <==> NextCell(cells, i, j) != cells[i, j]
  {
  }

  /** The flat indices `i * nx + j` the sweep has recorded once it has
      visited every cell of rows `0 .. i - 1` and the first `j` cells of row `i`. */
  function DiffCells(cells: array2<int>, i: nat, j: nat): seq<int>
    requires j <= cells.Length1 && (i < cells.Length0 || (i == cells.Length0 && j == 0))
    reads cells
    decreases i, j
  {
    if j == 0 then
      if i == 0 then [] else DiffCells(cells, i - 1, cells.Length1)
    else
      DiffCells(cells, i, j - 1) + (if Flips(cells, i, j - 1) then [Flat(i, j - 1, cells.Length1)] else [])
  }

  /** Cell (r, c) comes before position (i, j) in row-major order. */
  predicate Before(r: int, c: int, i: int, j: int)
  {
    r < i || (r == i && c < j)
  }

  /** The recorded list is strictly increasing and holds flat indices of
      cells before (i, j) only. */
  lemma {:induction false} DiffCellsOrdered(cells: array2<int>, i: nat, j: nat)
    requires j <= cells.Length1 && (i < cells.Length0 || (i == cells.Length0 && j == 0))
    ensures forall k :: k in DiffCells(cells, i, j) ==> 0 <= k < Flat(i, j, cells.Length1)
    ensures forall p, q :: 0 <= p < q < |DiffCells(cells, i, j)| ==> DiffCells(cells, i, j)[p] < DiffCells(cells, i, j)[q]
    decreases i, j
  {
    var nx := cells.Length1;
    if j == 0 {
      if i > 0 {
        DiffCellsOrdered(cells, i - 1, nx);
        FlatRowEnd(i - 1, nx);
      }
    } else {
      var d := DiffCells(cells, i, j - 1);
      DiffCellsOrdered(cells, i, j - 1);
      FlatLeftRight(i, j, nx);
      FlatBounds(i, j - 1, i + 1, nx);
      if Flips(cells, i, j - 1) {
        var d' := d + [Flat(i, j - 1, nx)];
        assert d' == DiffCells(cells, i, j);
        forall p, q | 0 <= p < q < |d'|
          ensures d'[p] < d'[q]
        {
          if q == |d| {
            assert d[p] in d;
          }
        }
      }
    }
  }

  /** Every recorded flat index `k` is that of a cell that flips: the cell
      in row `k / nx` and column `k % nx`. */
  lemma {:induction false} DiffCellsSound(cells: array2<int>, i: nat, j: nat)
    requires j <= cells.Length1 && (i < cells.Length0 || (i == cells.Length0 && j == 0))
    ensures forall k :: k in DiffCells(cells, i, j) ==>
              cells.Length1 > 0 && 0 <= k / cells.Length1 < cells.Length0 && 0 <= k % cells.Length1 < cells.Length1
              && Flips(cells, k / cells.Length1, k % cells.Length1)
    decreases i, j
  {
    var nx := cells.Length1;
    if j == 0 {
      if i > 0 {
        DiffCellsSound(cells, i - 1, nx);
      }
    } else {
      DiffCellsSound(cells, i, j - 1);
      FlatSplit(i, j - 1, nx);
    }
  }

  /** The flat index of every cell before (i, j) that flips is recorded. */
  lemma {:induction false} DiffCellsComplete(cells: array2<int>, i: nat, j: nat)
    requires j <= cells.Length1 && (i < cells.Length0 || (i == cells.Length0 && j == 0))
    ensures forall r, c {:trigger Flat(r, c, cells.Length1)} ::
              0 <= r < cells.Length0 && 0 <= c < cells.Length1 && Before(r, c, i, j) && Flips(cells, r, c) ==>
                Flat(r, c, cells.Length1) in DiffCells(cells, i, j)
    decreases i, j
  {
    var nx := cells.Length1;
    if j == 0 {
      if i > 0 {
        DiffCellsComplete(cells, i - 1, nx);
      }
    } else {
      DiffCellsComplete(cells, i, j - 1);
    }
  }

  /** Over the whole of a grid of dead and live cells, the recorded list
      is strictly increasing and holds the flat index `r * nx + c` of a cell
      (r, c) exactly when the cell changes state. */
  lemma DiffCellsAreChanges(cells: array2<int>)
    requires Binary(cells)
    ensures forall p, q :: 0 <= p < q < |DiffCells(cells, cells.Length0, 0)| ==>
              DiffCells(cells, cells.Length0, 0)[p] < DiffCells(cells, cells.Length0, 0)[q]
    ensures forall r, c :: 0 <= r < cells.Length0 && 0 <= c < cells.Length1 ==>
              (r * cells.Length1 + c in DiffCells(cells, cells.Length0, 0) <==> NextCell(cells, r, c) != cells[r, c])
  {
    DiffCellsOrdered(cells, cells.Length0, 0);
    forall r, c | 0 <= r < cells.Length0 && 0 <= c < cells.Length1
      ensures r * cells.Length1 + c in DiffCells(cells, cells.Length0, 0) <==> NextCell(cells, r, c) != cells[r, c]
    {
      DiffCellChanges(cells, r, c);
    }
  }

  /** One cell of `DiffCellsAreChanges`. */
  lemma DiffCellChanges(cells: array2<int>, r: int, c: int)
    requires Binary(cells) && 0 <= r < cells.Length0 && 0 <= c < cells.Length1
    ensures r * cells.Length1 + c in DiffCells(cells, cells.Length0, 0) <==> NextCell(cells, r, c) != cells[r, c]
  {
    var ny, nx := cells.Length0, cells.Length1;
    var d := DiffCells(cells, ny, 0);
    DiffCellsSound(cells, ny, 0);
    DiffCellsComplete(cells, ny, 0);
    FlatIsProduct(r, c, nx);
    FlatSplit(r, c, nx);
    FlipsIffChanges(cells, r, c);
    assert Before(r, c, ny, 0);
    if r * nx + c in d {
      assert Flips(cells, r, c);
    }
  }

  /** The pattern coordinate `p`, shifted back by `shift`, designates cell
      (i, j) under Python's indexing. */
  predicate Hit(p: (int, int), shift: int, ny: int, nx: int, i: int, j: int)
    requires -ny <= p.0 - shift < ny && -nx <= p.1 - shift < nx
  {
    PyIndex(p.0 - shift, ny) == i && PyIndex(p.1 - shift, nx) == j
  }

  /** Every shifted coordinate of the pattern is a valid Python index. */
  predicate InRange(pattern: seq<(int, int)>, shift: int, ny: int, nx: int)
  {
    forall t :: 0 <= t < |pattern| ==> -ny <= pattern[t].0 - shift < ny && -nx <= pattern[t].1 - shift < nx
  }

  /** Cell (i, j) is designated by one of the first `k` coordinates of the pattern. */
  predicate Marked(pattern: seq<(int, int)>, k: nat, shift: int, ny: int, nx: int, i: int, j: int)
    requires k <= |pattern| && InRange(pattern, shift, ny, nx)
  {
    exists t :: 0 <= t < k && Hit(pattern[t], shift, ny, nx, i, j)
  }

  /** `cells[indices_i, indices_j] = 1` with `indices_i`, `indices_j` the
      pattern's coordinates less `shift`: every designated cell becomes
      alive and every other cell keeps its value. */
  method PlacePattern(cells: array2<int>, pattern: seq<(int, int)>, shift: int)
    requires InRange(pattern, shift, cells.Length0, cells.Length1)
    modifies cells
    ensures forall i, j :: 0 <= i < cells.Length0 && 0 <= j < cells.Length1 ==>
              cells[i, j] == if Marked(pattern, |pattern|, shift, cells.Length0, cells.Length1, i, j) then 1 else old(cells[i, j])
  {
    var ny, nx := cells.Length0, cells.Length1;
    var k := 0;
    while k < |pattern|
      invariant 0 <= k <= |pattern|
      invariant forall i, j :: 0 <= i < ny && 0 <= j < nx ==>
                  cells[i, j] == if Marked(pattern, k, shift, ny, nx, i, j) then 1 else old(cells[i, j])
    {
      var r, c := PyIndex(pattern[k].0 - shift, ny), PyIndex(pattern[k].1 - shift, nx);
      cells[r, c] := 1;
      forall i, j | 0 <= i < ny && 0 <= j < nx
        ensures Marked(pattern, k + 1, shift, ny, nx, i, j) <==> Marked(pattern, k, shift, ny, nx, i, j) || (i == r && j == c)
      {
        if Marked(pattern, k + 1, shift, ny, nx, i, j) && !(i == r && j == c) {
          var t :| 0 <= t < k + 1 && Hit(pattern[t], shift, ny, nx, i, j);
          assert t < k;
        }
        if i == r && j == c {
          assert Hit(pattern[k], shift, ny, nx, i, j);
        }
      }
      k := k + 1;
    }
  }

  /** A fresh `ny` x `nx` grid of dead cells with the cells of the pattern
      (less `shift`) alive: the pattern branch of the `Grille` constructors. */
  method PatternGrid(ny: nat, nx: nat, pattern: seq<(int, int)>, shift: int) returns (cells: array2<int>)
    requires InRange(pattern, shift, ny, nx)
    ensures fresh(cells) && cells.Length0 == ny && cells.Length1 == nx && Binary(cells)
    ensures forall i, j :: 0 <= i < ny && 0 <= j < nx ==>
              cells[i, j] == if Marked(pattern, |pattern|, shift, ny, nx, i, j) then 1 else 0
  {
    cells := new int[ny, nx]((i, j) => 0);
    PlacePattern(cells, pattern, shift);
  }

  /** `compute_next_iteration` without its last assignment: every cell of a
      new buffer takes its next state, computed from the unchanged grid,
      and the cells that flip are listed in row-major order. */
  method Sweep(cells: array2<int>) returns (next: array2<int>, diff: seq<int>)
    ensures fresh(next) && next.Length0 == cells.Length0 && next.Length1 == cells.Length1
    ensures Binary(next)
    ensures forall i, j :: 0 <= i < next.Length0 && 0 <= j < next.Length1 ==> next[i, j] == NextCell(cells, i, j)
    ensures diff == DiffCells(cells, cells.Length0, 0)
  {
    var ny, nx := cells.Length0, cells.Length1;
    next := new int[ny, nx];
    diff := [];
    var i := 0;
    while i < ny
      invariant 0 <= i <= ny
      invariant diff == DiffCells(cells, i, 0)
      invariant forall r, c :: 0 <= r < i && 0 <= c < nx ==> next[r, c] == NextCell(cells, r, c)
    {
      diff := SweepRow(cells, next, i, diff);
      assert DiffCells(cells, i + 1, 0) == DiffCells(cells, i, nx);
      i := i + 1;
    }
  }

  /** The inner loop of the sweep, over the cells of row `i`. */
  method SweepRow(cells: array2<int>, next: array2<int>, i: nat, diff0: seq<int>) returns (diff: seq<int>)
    requires next != cells && next.Length0 == cells.Length0 && next.Length1 == cells.Length1
    requires i < cells.Length0 && diff0 == DiffCells(cells, i, 0)
    modifies next
    ensures diff == DiffCells(cells, i, cells.Length1)
    ensures forall r, c {:trigger next[r, c]} :: 0 <= r < next.Length0 && 0 <= c < next.Length1 ==>
              next[r, c] == if r == i then NextCell(cells, r, c) else old(next[r, c])
  {
    var ny, nx := cells.Length0, cells.Length1;
    var iAbove, iBelow := (i + ny - 1) % ny, (i + 1) % ny;
    RingSteps(i, ny);
    diff := diff0;
    var j := 0;
    while j < nx
      invariant 0 <= j <= nx
      invariant diff == DiffCells(cells, i, j)
      invariant forall r, c {:trigger next[r, c]} :: 0 <= r < ny && 0 <= c < nx ==>
                  next[r, c] == if r == i && c < j then NextCell(cells, r, c) else old(next[r, c])
    {
      diff := SweepCell(cells, next, i, iAbove, iBelow, j, diff);
      j := j + 1;
    }
  }

  /** The body of the inner loop: the next state of cell (i, j) and, when
      it flips, its flat index appended to the list. */
  method SweepCell(cells: array2<int>, next: array2<int>, i: nat, iAbove: nat, iBelow: nat, j: nat, diff0: seq<int>)
    returns (diff: seq<int>)
    requires next != cells && next.Length0 == cells.Length0 && next.Length1 == cells.Length1
    requires i < cells.Length0 && j < cells.Length1 && diff0 == DiffCells(cells, i, j)
    requires iAbove == Prev(i, cells.Length0) && iBelow == Succ(i, cells.Length0)
    modifies next
    ensures diff == DiffCells(cells, i, j + 1)
    ensures forall r, c {:trigger next[r, c]} :: 0 <= r < next.Length0 && 0 <= c < next.Length1 ==>
              next[r, c] == if r == i && c == j then NextCell(cells, r, c) else old(next[r, c])
  {
    var nx := cells.Length1;
    diff := diff0;
    var jLeft, jRight := (j - 1 + nx) % nx, (j + 1) % nx;
    RingSteps(j, nx);
    var count := cells[iAbove, jLeft] + cells[iAbove, j] + cells[iAbove, jRight] + cells[i, jLeft]
                 + cells[i, jRight] + cells[iBelow, jLeft] + cells[iBelow, j] + cells[iBelow, jRight];
    assert count == LiveNeighbours(cells, i, j);
    if cells[i, j] == 1 {
      if count < 2 || count > 3 {
        next[i, j] := 0;
        assert i * nx + j == Flat(i, j, nx) by { FlatIsProduct(i, j, nx); }
        diff := diff + [i * nx + j];
      } else {
        next[i, j] := 1;
      }
    } else if count == 3 {
      next[i, j] := 1;
      assert i * nx + j == Flat(i, j, nx) by { FlatIsProduct(i, j, nx); }
      diff := diff + [i * nx + j];
    } else {
      next[i, j] := 0;
    }
  }
}

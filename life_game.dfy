/** The `Grille` of the sequential Game of Life program, whose update
    returns the flat indices of the cells that changed. */
module LifeGame {
  import opened LifeRules

  class Grille {
    /** (number of rows, number of columns) */
    const dimensions: (nat, nat)
    /** 0 for a dead cell, 1 for a live one */
    var cells: array2<int>

    ghost predicate Valid()
      reads this, cells
    {
      cells.Length0 == dimensions.0 && cells.Length1 == dimensions.1 && Binary(cells)
    }

    /** A grid of dead cells in which exactly the cells of the pattern are alive. */
    constructor (dim: (nat, nat), initPattern: seq<(int, int)>)
      requires InRange(initPattern, 0, dim.0, dim.1)
      ensures Valid() && dimensions == dim && fresh(cells)
      ensures forall i, j :: 0 <= i < dim.0 && 0 <= j < dim.1 ==>
                cells[i, j] == if Marked(initPattern, |initPattern|, 0, dim.0, dim.1, i, j) then 1 else 0
    {
      dimensions := dim;
      var grid := PatternGrid(dim.0, dim.1, initPattern, 0);
      cells := grid;
    }

    /** One generation: the grid is replaced by a new one computed from the
        old grid alone, and the flat indices of the cells that flip are
        returned in increasing order. */
    method ComputeNextIteration() returns (diffCells: seq<int>)
      requires Valid()
      modifies this
      ensures Valid() && fresh(cells)
      ensures forall i, j :: 0 <= i < dimensions.0 && 0 <= j < dimensions.1 ==> cells[i, j] == old(NextCell(cells, i, j))
      ensures diffCells == old(DiffCells(cells, cells.Length0, 0))
    {
      var next, diff := Sweep(cells);
      cells := next;
      diffCells := diff;
    }
  }
}

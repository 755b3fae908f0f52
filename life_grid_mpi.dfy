/** The `Grille` of the parallel Game of Life program: built from a
    sub-pattern whose coordinates are shifted back by 51, its update returns
    the new grid. */
module LifeGridMpi {
  import opened LifeRules

  class Grille {
    /** (number of rows, number of columns) */
    const dimensions: (nat, nat)
    /** 0 for a dead cell, 1 for a live one */
    var cells: array2<int>

    ghost predicate Valid()
      reads this, cells
    {
      cells.Length0 == dimensions.0 && cells.Length1 == dimensions.1 && Binary(cells)
    }

    /** The offset subtracted from every coordinate of the sub-pattern. */
    static const Shift := 51

    /** A grid of dead cells in which exactly the cells at the coordinates of
        the sub-pattern, less `Shift` and read as Python indices (negative
        ones counting from the end), are alive. `subPatternCells` is the
        coordinate list the sub-pattern holds in its second component. */
    constructor (dim: (nat, nat), subPatternCells: seq<(int, int)>)
      requires InRange(subPatternCells, Shift, dim.0, dim.1)
      ensures Valid() && dimensions == dim && fresh(cells)
      ensures forall i, j :: 0 <= i < dim.0 && 0 <= j < dim.1 ==>
                cells[i, j] == if Marked(subPatternCells, |subPatternCells|, Shift, dim.0, dim.1, i, j) then 1 else 0
    {
      dimensions := dim;
      var grid := PatternGrid(dim.0, dim.1, subPatternCells, Shift);
      cells := grid;
    }

    /** One generation: the grid is replaced by a new buffer computed from
        the old grid alone, and that buffer is returned. */
    method ComputeNextIteration() returns (nextCells: array2<int>)
      requires Valid()
      modifies this
      ensures Valid() && fresh(cells) && nextCells == cells
      ensures forall i, j :: 0 <= i < dimensions.0 && 0 <= j < dimensions.1 ==> cells[i, j] == old(NextCell(cells, i, j))
    {
      var next, _ := Sweep(cells);
      cells := next;
      nextCells := next;
    }
  }
}

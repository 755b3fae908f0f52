/** The pheromone map of the ant colony: a grid padded with one ghost cell on
    every side, so that the neighbours of any maze cell can be read without
    bounds tests. Maze cell `(i, j)` lives at `(i + 1, j + 1)`. */
module Pheromone {
  import opened GridIndex
  import opened Directions

  /** `np.maximum` of two values. */
  function Max2(a: real, b: real): (r: real)
    ensures r >= a && r >= b && (r == a || r == b)
  {
    if a >= b then a else b
  }

  /** The larger of a value and zero. */
  function NonNegative(v: real): (r: real)
    ensures r >= 0.0 && r >= v
    ensures r == v || r == 0.0
  {
    Max2(v, 0.0)
  }

  /** What `mark` writes, from the four neighbours' values (west, east, south,
      north), each already zero when its exit is closed: the neighbours are
      clamped at zero, then the largest is blended with their mean. For a
      weight `0 <= alpha <= 1` the result lies between zero and the largest
      clamped neighbour. */
  function MarkValue(alpha: real, w: real, e: real, s: real, n: real): (r: real)
    ensures 0.0 <= alpha <= 1.0 ==>
              0.0 <= r <= Max2(Max2(Max2(NonNegative(w), NonNegative(e)), NonNegative(s)), NonNegative(n))
  {
    var cw, ce, cs, cn := NonNegative(w), NonNegative(e), NonNegative(s), NonNegative(n);
    var m := Max2(Max2(Max2(cw, ce), cs), cn);
    var r := alpha * m + (1.0 - alpha) * 0.25 * (cw + ce + cs + cn);
    assert 0.0 <= alpha <= 1.0 ==> 0.0 <= r <= m by {
      if 0.0 <= alpha <= 1.0 {
        MixBetween(alpha, m, 0.25 * (cw + ce + cs + cn));
      }
    }
    r
  }

  /** A weighted mix of two values lies between zero and the larger. */
  lemma MixBetween(alpha: real, m: real, mean: real)
    requires 0.0 <= alpha <= 1.0 && 0.0 <= mean <= m
    ensures 0.0 <= alpha * m + (1.0 - alpha) * mean <= m
  {
    MulLeftMonotone(0.0, mean, alpha);
    MulLeftMonotone(0.0, mean, 1.0 - alpha);
    MulLeftMonotone(mean, m, 1.0 - alpha);
    assert alpha * m + (1.0 - alpha) * m == m;
  }

  /** Four equal non-negative neighbours are copied unchanged, whatever the
      weight. */
  lemma MarkValueUniform(alpha: real, v: real)
    requires v >= 0.0
    ensures MarkValue(alpha, v, v, v, v) == v
  {
    assert alpha * v + (1.0 - alpha) * 0.25 * (v + v + v + v) == alpha * v + (1.0 - alpha) * v;
  }

  /** Every cell of a map lies in `[0, 1]`. */
  ghost predicate Bounded(a: array2<real>)
    reads a
  {
    forall i, j :: 0 <= i < a.Length0 && 0 <= j < a.Length1 ==> 0.0 <= a[i, j] <= 1.0
  }

  /** `max(min(v, 1), 0)`. */
  function ClampUnit(v: real): (r: real)
    ensures 0.0 <= r <= 1.0
    ensures 0.0 <= v <= 1.0 ==> r == v
    ensures v < 0.0 ==> r == 0.0
    ensures v > 1.0 ==> r == 1.0
  {
    var low := if v <= 1.0 then v else 1.0;
    if low >= 0.0 then low else 0.0
  }

  /** The threshold `1e-16` above which a cell is drawn red. */
  const Threshold: real := 0.0000000000000001

  /** The pheromone map with its two weights. */
  class Pheromon {
    /** The blend weight of `mark`. */
    const alpha: real
    /** The persistence factor of `do_evaporation`. */
    const beta: real
    /** `(rows + 2) x (columns + 2)` cells, the maze padded by one ghost cell. */
    var pheromon: array2<real>

    /** The padded cell of a position given as a maze cell, with Python's
        negative indices. */
    static function PaddedCell(position: (int, int), rows: nat, cols: nat): (int, int)
      requires -(rows as int) <= position.0 + 1 < rows && -(cols as int) <= position.1 + 1 < cols
    {
      (PyIndex(position.0 + 1, rows), PyIndex(position.1 + 1, cols))
    }

    /** A zero map of the padded size, with `1` on the food cell. */
    constructor(dimensions: (nat, nat), foodPosition: (int, int), alpha: real, beta: real)
      requires -(dimensions.0 + 2) <= foodPosition.0 + 1 < dimensions.0 + 2
      requires -(dimensions.1 + 2) <= foodPosition.1 + 1 < dimensions.1 + 2
      ensures this.alpha == alpha && this.beta == beta
      ensures fresh(pheromon)
      ensures pheromon.Length0 == dimensions.0 + 2 && pheromon.Length1 == dimensions.1 + 2
      ensures forall i, j :: 0 <= i < pheromon.Length0 && 0 <= j < pheromon.Length1 ==>
                pheromon[i, j] == if (i, j) == PaddedCell(foodPosition, pheromon.Length0, pheromon.Length1) then 1.0 else 0.0
      ensures Bounded(pheromon)
    {
      this.alpha := alpha;
      this.beta := beta;
      var cells := new real[dimensions.0 + 2, dimensions.1 + 2]((i, j) => 0.0);
      var food := PaddedCell(foodPosition, dimensions.0 + 2, dimensions.1 + 2);
      cells[food.0, food.1] := 1.0;
      pheromon := cells;
    }

    /** A fresh map with every cell multiplied by `beta`, the food cell reset
        to exactly `1`. A persistence factor in `[0, 1]` keeps the map in
        `[0, 1]`. */
    method DoEvaporation(posFood: (int, int))
      requires -pheromon.Length0 <= posFood.0 + 1 < pheromon.Length0
      requires -pheromon.Length1 <= posFood.1 + 1 < pheromon.Length1
      modifies this
      ensures fresh(pheromon)
      ensures pheromon.Length0 == old(pheromon.Length0) && pheromon.Length1 == old(pheromon.Length1)
      ensures forall i, j :: 0 <= i < pheromon.Length0 && 0 <= j < pheromon.Length1 ==>
                pheromon[i, j] == if (i, j) == PaddedCell(posFood, pheromon.Length0, pheromon.Length1) then 1.0 else beta * old(pheromon[i, j])
      ensures 0.0 <= beta <= 1.0 && old(Bounded(pheromon)) ==> Bounded(pheromon)
    {
      var current := pheromon;
      var scaled := new real[current.Length0, current.Length1]((i, j) reads current requires 0 <= i < current.Length0 && 0 <= j < current.Length1 => beta * current[i, j]);
      var food := PaddedCell(posFood, current.Length0, current.Length1);
      scaled[food.0, food.1] := 1.0;
      pheromon := scaled;
      if 0.0 <= beta <= 1.0 && Bounded(current) {
        forall i, j | 0 <= i < scaled.Length0 && 0 <= j < scaled.Length1
          ensures 0.0 <= scaled[i, j] <= 1.0
        {
          if i != food.0 || j != food.1 {
            assert 0.0 <= current[i, j] <= 1.0;
            UnitProduct(beta, current[i, j]);
            assert scaled[i, j] == beta * current[i, j];
          }
        }
      }
    }

    /** Marks the cell of `position`: the only cell of the map that changes,
        it receives the `MarkValue` of its four neighbours read from
        `oldPheromones`, a closed exit counting as zero. With a weight in
        `[0, 1]` and a bounded previous map, the map stays in `[0, 1]`. */
    method Mark(position: (int, int), hasWESNExits: seq<bool>, dirs: Codes, oldPheromones: array2<real>)
      requires position.0 >= 0 && position.1 >= 0
      requires 0 <= dirs.west < |hasWESNExits| && 0 <= dirs.east < |hasWESNExits|
      requires 0 <= dirs.south < |hasWESNExits| && 0 <= dirs.north < |hasWESNExits|
      requires hasWESNExits[dirs.west] ==> position.0 + 1 < oldPheromones.Length0 && position.1 < oldPheromones.Length1
      requires hasWESNExits[dirs.east] ==> position.0 + 1 < oldPheromones.Length0 && position.1 + 2 < oldPheromones.Length1
      requires hasWESNExits[dirs.south] ==> position.0 + 2 < oldPheromones.Length0 && position.1 + 1 < oldPheromones.Length1
      requires hasWESNExits[dirs.north] ==> position.0 < oldPheromones.Length0 && position.1 + 1 < oldPheromones.Length1
      requires position.0 + 1 < pheromon.Length0 && position.1 + 1 < pheromon.Length1
      modifies pheromon
      ensures pheromon[position.0 + 1, position.1 + 1] == MarkValue(alpha,
                if hasWESNExits[dirs.west] then old(oldPheromones[position.0 + 1, position.1]) else 0.0,
                if hasWESNExits[dirs.east] then old(oldPheromones[position.0 + 1, position.1 + 2]) else 0.0,
                if hasWESNExits[dirs.south] then old(oldPheromones[position.0 + 2, position.1 + 1]) else 0.0,
                if hasWESNExits[dirs.north] then old(oldPheromones[position.0, position.1 + 1]) else 0.0)
      ensures forall i, j :: 0 <= i < pheromon.Length0 && 0 <= j < pheromon.Length1 && (i, j) != (position.0 + 1, position.1 + 1) ==>
                pheromon[i, j] == old(pheromon[i, j])
      ensures 0.0 <= alpha <= 1.0 && old(Bounded(oldPheromones)) && old(Bounded(pheromon)) ==> Bounded(pheromon)
    {
      var w := if hasWESNExits[dirs.west] then oldPheromones[position.0 + 1, position.1] else 0.0;
      var e := if hasWESNExits[dirs.east] then oldPheromones[position.0 + 1, position.1 + 2] else 0.0;
      var s := if hasWESNExits[dirs.south] then oldPheromones[position.0 + 2, position.1 + 1] else 0.0;
      var n := if hasWESNExits[dirs.north] then oldPheromones[position.0, position.1 + 1] else 0.0;
      pheromon[position.0 + 1, position.1 + 1] := MarkValue(alpha, w, e, s, n);
    }

    /** The colour of padded cell `(i, j)`: red when the clamped value exceeds
        `1e-16`, green in proportion to the clamped value, a constant blue. */
    function GetColor(i: int, j: int): (c: (real, real, real))
      reads this, pheromon
      requires -pheromon.Length0 <= i < pheromon.Length0 && -pheromon.Length1 <= j < pheromon.Length1
      ensures c.0 == 255.0 || c.0 == 0.0
      ensures c.0 == 255.0 <==> ClampUnit(pheromon[PyIndex(i, pheromon.Length0), PyIndex(j, pheromon.Length1)]) > Threshold
      ensures 0.0 <= c.1 <= 255.0 && c.2 == 128.0
      ensures c.1 == 255.0 * ClampUnit(pheromon[PyIndex(i, pheromon.Length0), PyIndex(j, pheromon.Length1)])
    {
      var v := ClampUnit(pheromon[PyIndex(i, pheromon.Length0), PyIndex(j, pheromon.Length1)]);
      (if v > Threshold then 255.0 else 0.0, 255.0 * v, 128.0)
    }
  }

  /** The product of two values of `[0, 1]` is in `[0, 1]`. */
  lemma UnitProduct(a: real, b: real)
    requires 0.0 <= a <= 1.0 && 0.0 <= b <= 1.0
    ensures 0.0 <= a * b <= 1.0
  {
    MulLeftMonotone(0.0, a, b);
    MulLeftMonotone(0.0, 1.0 - a, b);
    assert b - a * b == (1.0 - a) * b;
    assert (1.0 - a) * b >= 0.0;
  }

  /** Multiplying a non-negative value by a smaller factor gives a smaller
      product. */
  lemma MulLeftMonotone(a: real, b: real, c: real)
    requires a <= b && c >= 0.0
    ensures a * c <= b * c
  {
    assert b * c - a * c == (b - a) * c;
  }
}

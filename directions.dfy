/** The direction codes and maze-cell exit masks the ant colony is written
    against. Their values live in modules outside this model, so they are
    carried as parameters. */
module Directions {
  /** The codes `DIR_NONE`, `DIR_WEST`, `DIR_EAST`, `DIR_NORTH`, `DIR_SOUTH`. */
  datatype Codes = Codes(none: int, west: int, east: int, north: int, south: int)

  /** The four moving directions have pairwise different codes. */
  predicate Distinct(d: Codes)
  {
    d.west != d.east && d.west != d.north && d.west != d.south &&
    d.east != d.north && d.east != d.south && d.north != d.south
  }

  /** The bit masks `NORTH`, `EAST`, `SOUTH`, `WEST` of a maze cell. */
  datatype Masks = Masks(north: bv8, east: bv8, south: bv8, west: bv8)

  /** Which of the four walls of a cell are open. */
  datatype Exits = Exits(north: bool, east: bool, south: bool, west: bool)

  /** The exits of a maze cell: a direction is open when its mask bit is set. */
  function ExitsOf(cell: bv8, masks: Masks): Exits
  {
    Exits(cell & masks.north > 0, cell & masks.east > 0, cell & masks.south > 0, cell & masks.west > 0)
  }

  /** The number of open exits. */
  function ExitCount(e: Exits): (n: int)
    ensures 0 <= n <= 4
    ensures n == 0 <==> !e.north && !e.east && !e.south && !e.west
  {
    (if e.north then 1 else 0) + (if e.east then 1 else 0) + (if e.south then 1 else 0) + (if e.west then 1 else 0)
  }
}

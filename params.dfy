/** The simulation's parameters, read from the command line with fallbacks.
    The command line is given as its entries already parsed: each entry
    carries the integer and the floating value it reads as. */
module Params {
  /** One command-line entry, as `int(...)` and `float(...)` read it. */
  datatype Argument = Argument(asInt: int, asReal: real)

  /** All parameters of one run. */
  datatype Parameters = Parameters(
    sizeLaby: (int, int), resolution: (int, int), nbAnts: int, maxLife: int,
    posFood: (int, int), posNest: (int, int), alpha: real, beta: real)

  const DefaultSize: int := 25
  const DefaultMaxLife: int := 500
  const DefaultAlpha: real := 0.9
  const DefaultBeta: real := 0.99

  /** `get_size_laby`: rows and columns from entries 1 and 2 when both are
      present, the default for both otherwise. */
  function GetSizeLaby(argv: seq<Argument>, defaultSize: int): (r: (int, int))
    ensures |argv| > 2 ==> r.0 == argv[1].asInt && r.1 == argv[2].asInt
    ensures |argv| <= 2 ==> r.0 == defaultSize && r.1 == defaultSize
  {
    if |argv| > 2 then (argv[1].asInt, argv[2].asInt) else (defaultSize, defaultSize)
  }

  /** `get_resolution`: the window is 8 pixels per cell, width first: each
      side is a whole number of cells, as many as the maze has columns and
      rows. */
  function GetResolution(sizeLaby: (int, int)): (r: (int, int))
    ensures r.0 % 8 == 0 && r.0 / 8 == sizeLaby.1
    ensures r.1 % 8 == 0 && r.1 / 8 == sizeLaby.0
  {
    (sizeLaby.1 * 8, sizeLaby.0 * 8)
  }

  /** `get_nb_ants`: a quarter of the cells, rounded down. */
  function GetNbAnts(sizeLaby: (int, int)): (n: int)
    ensures 4 * n <= sizeLaby.0 * sizeLaby.1 < 4 * n + 4
  {
    (sizeLaby.0 * sizeLaby.1) / 4
  }

  /** `get_max_life`: entry 3 when present. */
  function GetMaxLife(argv: seq<Argument>, defaultMaxLife: int): (r: int)
    ensures |argv| > 3 ==> r == argv[3].asInt
    ensures |argv| <= 3 ==> r == defaultMaxLife
  {
    if |argv| > 3 then argv[3].asInt else defaultMaxLife
  }

  /** `get_pos_food`: the last cell of the maze. In a non-empty maze it is a
      cell of the maze, the last one in row-major order. */
  function GetPosFood(sizeLaby: (int, int)): (r: (int, int))
    ensures sizeLaby.0 >= 1 && sizeLaby.1 >= 1 ==>
              0 <= r.0 < sizeLaby.0 && 0 <= r.1 < sizeLaby.1 && r.0 * sizeLaby.1 + r.1 == sizeLaby.0 * sizeLaby.1 - 1
  {
    assert (sizeLaby.0 - 1) * sizeLaby.1 == sizeLaby.0 * sizeLaby.1 - sizeLaby.1;
    (sizeLaby.0 - 1, sizeLaby.1 - 1)
  }

  /** `get_pos_nest`: the first cell of the maze, the first in row-major order. */
  function GetPosNest(): (r: (int, int))
    ensures r.0 == 0 && r.1 == 0
  {
    (0, 0)
  }

  /** `get_alpha`: entry 4 when present. */
  function GetAlpha(argv: seq<Argument>, defaultAlpha: real): (r: real)
    ensures |argv| > 4 ==> r == argv[4].asReal
    ensures |argv| <= 4 ==> r == defaultAlpha
  {
    if |argv| > 4 then argv[4].asReal else defaultAlpha
  }

  /** `get_beta`: entry 5 when present. */
  function GetBeta(argv: seq<Argument>, defaultBeta: real): (r: real)
    ensures |argv| > 5 ==> r == argv[5].asReal
    ensures |argv| <= 5 ==> r == defaultBeta
  {
    if |argv| > 5 then argv[5].asReal else defaultBeta
  }

  /** `get_params`: every parameter, the derived ones from the same maze size. */
  function GetParams(argv: seq<Argument>): (p: Parameters)
    ensures p.resolution == GetResolution(p.sizeLaby) && p.nbAnts == GetNbAnts(p.sizeLaby)
    ensures p.posFood == GetPosFood(p.sizeLaby) && p.posNest == GetPosNest()
  {
    var sizeLaby := GetSizeLaby(argv, DefaultSize);
    Parameters(sizeLaby, GetResolution(sizeLaby), GetNbAnts(sizeLaby), GetMaxLife(argv, DefaultMaxLife),
               GetPosFood(sizeLaby), GetPosNest(), GetAlpha(argv, DefaultAlpha), GetBeta(argv, DefaultBeta))
  }

  /** The parameters of a run: the size comes from entries 1 and 2 or
      defaults to 25 x 25; the window is the size times 8, width first;
      there is an ant per four cells, rounded down; the life span, `alpha`
      and `beta` come from entries 3, 4, 5 or default to 500, 0.9, 0.99;
      the nest is the first cell and the food the last, both inside a
      non-empty maze and different unless the maze is a single cell. */
  lemma GetParamsSpec(argv: seq<Argument>)
    ensures var p := GetParams(argv);
            var rows, cols := p.sizeLaby.0, p.sizeLaby.1;
            p.sizeLaby == (if |argv| > 2 then (argv[1].asInt, argv[2].asInt) else (25, 25)) &&
            p.resolution == (cols * 8, rows * 8) &&
            4 * p.nbAnts <= rows * cols < 4 * p.nbAnts + 4 &&
            p.maxLife == (if |argv| > 3 then argv[3].asInt else 500) &&
            p.alpha == (if |argv| > 4 then argv[4].asReal else 0.9) &&
            p.beta == (if |argv| > 5 then argv[5].asReal else 0.99) &&
            p.posNest == (0, 0) && p.posFood == (rows - 1, cols - 1) &&
            (rows >= 1 && cols >= 1 ==> 0 <= p.posFood.0 < rows && 0 <= p.posFood.1 < cols) &&
            (rows >= 1 && cols >= 1 && (rows > 1 || cols > 1) ==> p.posFood != p.posNest)
  {
  }
}

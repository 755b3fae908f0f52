/** The per-ant rules of the colony, as values: the Park-Miller seed step,
    the exploring move, the pheromone-following move, and the filters that
    pick ants out of an index list. */
module AntRules {
  import opened Directions
  import opened Pheromone

  /** The modulus `2^31 - 1` of the seed generator. */
  const Modulus: int := 2147483647
  /** The multiplier `16807` of the "minimal standard" generator. */
  const Multiplier: int := 16807
  /** Below or at this threshold of `seed / Modulus` an ant explores. */
  const ExplorationCoefficient: real := 0.0

  /** `np.mod(16807 * seed, 2147483647)`. */
  function NextSeed(seed: int): (r: int)
    ensures 0 <= r < Modulus
  {
    (Multiplier * seed) % Modulus
  }

  /** A seed in `1 .. Modulus - 1` steps to a seed in the same range: the
      modulus is prime and `1407677000` is the inverse of the multiplier,
      so a product divisible by the modulus needs a seed divisible by it. */
  lemma NextSeedPositive(seed: int)
    requires 0 < seed < Modulus
    ensures 0 < NextSeed(seed) < Modulus
  {
    if NextSeed(seed) == 0 {
      var t := ZeroStepMultiple(seed);
      MultipleOutside(seed, t);
      assert false;
    }
  }

  /** A seed the step sends to zero is a multiple of the modulus. */
  lemma ZeroStepMultiple(seed: int) returns (t: int)
    requires NextSeed(seed) == 0
    ensures seed == Modulus * t
  {
    var q := (Multiplier * seed) / Modulus;
    assert Multiplier * seed == q * Modulus;
    assert 1407677000 * Multiplier == 1 + 11017 * Modulus;
    t := 1407677000 * q - 11017 * seed;
    calc {
      Modulus * t;
      1407677000 * (q * Modulus) - 11017 * Modulus * seed;
      1407677000 * (Multiplier * seed) - 11017 * Modulus * seed;
      (1407677000 * Multiplier - 11017 * Modulus) * seed;
      seed;
    }
  }

  /** A multiple of the modulus is not strictly between zero and it. */
  lemma MultipleOutside(s: int, t: int)
    requires s == Modulus * t
    ensures s <= 0 || s >= Modulus
  {
  }

  /** `seed / 2147483647.`, the ant's draw. */
  function Choice(seed: int): real
  {
    seed as real / 2147483647.0
  }

  /** Since the threshold is zero, an ant with a non-negative seed explores
      by choice exactly when its seed is zero. */
  lemma ChoiceExplores(seed: int)
    requires seed >= 0
    ensures Choice(seed) <= ExplorationCoefficient <==> seed == 0
  {
    if seed > 0 {
      assert seed as real >= 1.0;
    }
  }

  /** The seed step applied to the ants of `ants`. */
  function AdvanceSeeds(seeds: seq<int>, ants: seq<int>): (r: seq<int>)
    ensures |r| == |seeds|
  {
    seq(|seeds|, k requires 0 <= k < |seeds| => if k in ants then NextSeed(seeds[k]) else seeds[k])
  }

  /** The seed step applied to every ant. */
  function AdvanceAll(seeds: seq<int>): (r: seq<int>)
    ensures |r| == |seeds|
  {
    seq(|seeds|, k requires 0 <= k < |seeds| => NextSeed(seeds[k]))
  }

  /** `rounds` steps applied to every ant. */
  function AdvanceTimes(seeds: seq<int>, rounds: nat): (r: seq<int>)
    ensures |r| == |seeds|
  {
    if rounds == 0 then seeds else AdvanceAll(AdvanceTimes(seeds, rounds - 1))
  }

  /** Every seed in `1 .. Modulus - 1`. */
  predicate SeedsPositive(seeds: seq<int>)
  {
    forall k :: 0 <= k < |seeds| ==> 0 < seeds[k] < Modulus
  }

  /** Positive seeds stay positive, whichever ants step and however often:
      an ant never explores by choice. */
  lemma {:induction false} SeedsStayPositive(seeds: seq<int>, ants: seq<int>, rounds: nat)
    requires SeedsPositive(seeds)
    ensures SeedsPositive(AdvanceSeeds(seeds, ants))
    ensures SeedsPositive(AdvanceTimes(seeds, rounds))
  {
    forall k | 0 <= k < |seeds|
      ensures 0 < AdvanceSeeds(seeds, ants)[k] < Modulus
    {
      NextSeedPositive(seeds[k]);
    }
    if rounds > 0 {
      SeedsStayPositive(seeds, ants, rounds - 1);
      var before := AdvanceTimes(seeds, rounds - 1);
      forall k | 0 <= k < |seeds|
        ensures 0 < AdvanceTimes(seeds, rounds)[k] < Modulus
      {
        NextSeedPositive(before[k]);
      }
    }
  }

  /** The neighbour of `pos` one cell in direction `dir`; `pos` itself for a
      code that is not a moving direction. */
  function Toward(pos: (int, int), dir: int, d: Codes): (r: (int, int))
    ensures dir == d.west || dir == d.east || dir == d.north || dir == d.south ==>
              r == (pos.0, pos.1 - 1) || r == (pos.0, pos.1 + 1) || r == (pos.0 - 1, pos.1) || r == (pos.0 + 1, pos.1)
  {
    if dir == d.west then (pos.0, pos.1 - 1)
    else if dir == d.east then (pos.0, pos.1 + 1)
    else if dir == d.north then (pos.0 - 1, pos.1)
    else if dir == d.south then (pos.0 + 1, pos.1)
    else pos
  }

  /** `dir` names a direction whose exit is open. */
  predicate OpenToward(dir: int, exits: Exits, d: Codes)
  {
    (dir == d.west && exits.west) || (dir == d.east && exits.east) ||
    (dir == d.north && exits.north) || (dir == d.south && exits.south)
  }

  /** The exploring ant's new position: each of the four directions moves it
      when it is the drawn direction and its exit is open. */
  function ExploreTarget(pos: (int, int), dir: int, exits: Exits, d: Codes): (int, int)
  {
    var col := pos.1 - (if dir == d.west && exits.west then 1 else 0) + (if dir == d.east && exits.east then 1 else 0);
    var row := pos.0 - (if dir == d.north && exits.north then 1 else 0) + (if dir == d.south && exits.south then 1 else 0);
    (row, col)
  }

  /** An exploring move is kept when the ant moved and did not turn back,
      unless its cell has a single exit. */
  predicate Accepted(pos: (int, int), dir: int, exits: Exits, d: Codes, previous: int)
  {
    ExploreTarget(pos, dir, exits, d) != pos && (dir != 3 - previous || ExitCount(exits) == 1)
  }

  /** With distinct codes, an exploring ant moves one cell toward the drawn
      direction when its exit is open and stays put otherwise; the move is
      kept exactly when the exit is open and the move is not a reversal,
      or the cell has a single exit. */
  lemma ExploreMove(pos: (int, int), dir: int, exits: Exits, d: Codes, previous: int)
    requires Distinct(d)
    ensures ExploreTarget(pos, dir, exits, d) == if OpenToward(dir, exits, d) then Toward(pos, dir, d) else pos
    ensures Accepted(pos, dir, exits, d, previous) <==> OpenToward(dir, exits, d) && (dir != 3 - previous || ExitCount(exits) == 1)
  {
  }

  /** The pheromone sensed in the four directions (zero through a closed exit). */
  datatype Sensed = Sensed(north: real, east: real, south: real, west: real)

  /** The strongest of the four, as `np.maximum` folds them. */
  function Strongest(p: Sensed): (m: real)
    ensures m >= p.north && m >= p.east && m >= p.south && m >= p.west
    ensures m == p.north || m == p.east || m == p.south || m == p.west
  {
    Max2(Max2(Max2(p.north, p.east), p.south), p.west)
  }

  /** A closed exit senses nothing. */
  predicate Gated(p: Sensed, exits: Exits)
  {
    (!exits.north ==> p.north == 0.0) && (!exits.east ==> p.east == 0.0) &&
    (!exits.south ==> p.south == 0.0) && (!exits.west ==> p.west == 0.0)
  }

  /** One for an open exit, zero for a closed one. */
  function Open(e: bool): real
  {
    if e then 1.0 else 0.0
  }

  /** The four padded neighbours of maze cell `pos`, each multiplied by its
      exit flag. */
  function SensedAt(ph: array2<real>, pos: (int, int), exits: Exits): (p: Sensed)
    reads ph
    requires 0 <= pos.0 && pos.0 + 2 < ph.Length0 && 0 <= pos.1 && pos.1 + 2 < ph.Length1
    ensures Gated(p, exits)
  {
    Sensed(ph[pos.0, pos.1 + 1] * Open(exits.north), ph[pos.0 + 1, pos.1 + 2] * Open(exits.east),
           ph[pos.0 + 2, pos.1 + 1] * Open(exits.south), ph[pos.0 + 1, pos.1] * Open(exits.west))
  }

  /** The following ant's new position: one step toward every direction
      whose pheromone is the strongest. */
  function FollowTarget(pos: (int, int), p: Sensed): (int, int)
  {
    var m := Strongest(p);
    var col := pos.1 + (if p.east == m then 1 else 0) - (if p.west == m then 1 else 0);
    var row := pos.0 - (if p.north == m then 1 else 0) + (if p.south == m then 1 else 0);
    (row, col)
  }

  /** When some pheromone is sensed, a following ant only steps through open
      exits; it moves at most one row and one column; a single strongest
      direction gives a one-cell step toward it, and opposite ties cancel. */
  lemma FollowMove(pos: (int, int), p: Sensed, exits: Exits)
    requires Gated(p, exits) && Strongest(p) > 0.0
    ensures p.north == Strongest(p) ==> exits.north
    ensures p.east == Strongest(p) ==> exits.east
    ensures p.south == Strongest(p) ==> exits.south
    ensures p.west == Strongest(p) ==> exits.west
    ensures pos.0 - 1 <= FollowTarget(pos, p).0 <= pos.0 + 1 && pos.1 - 1 <= FollowTarget(pos, p).1 <= pos.1 + 1
    ensures p.east > p.north && p.east > p.south && p.east > p.west ==> FollowTarget(pos, p) == (pos.0, pos.1 + 1)
    ensures p.west > p.north && p.west > p.south && p.west > p.east ==> FollowTarget(pos, p) == (pos.0, pos.1 - 1)
    ensures p.north > p.east && p.north > p.south && p.north > p.west ==> FollowTarget(pos, p) == (pos.0 - 1, pos.1)
    ensures p.south > p.east && p.south > p.north && p.south > p.west ==> FollowTarget(pos, p) == (pos.0 + 1, pos.1)
    ensures p.north == p.east == p.south == p.west ==> FollowTarget(pos, p) == pos
  {
  }

  /** The elements of `s` that satisfy `keep`, in order, duplicates kept:
      exactly the elements that pass, and no more of them than there were. */
  function Filter(s: seq<int>, keep: int -> bool): (r: seq<int>)
    ensures forall x {:trigger x in r} :: x in r <==> x in s && keep(x)
    ensures |r| <= |s|
  {
    if s == [] then []
    else
      assert s == s[..|s| - 1] + [s[|s| - 1]];
      Filter(s[..|s| - 1], keep) + (if keep(s[|s| - 1]) then [s[|s| - 1]] else [])
  }
}

/** The ant colony: parallel per-ant state updated in place by the return
    to the nest and by one exploration step. Ant `k` has a seed, a loaded
    flag, a life span, an age, a path of positions indexed by age, and the
    direction of its last exploring move. */
module AntColony {
  import opened GridIndex
  import opened Directions
  import opened Pheromone
  import opened AntRules

  /** The position of every ant: its path at its age. */
  function Positions(path: seq<seq<(int, int)>>, age: seq<int>): (r: seq<(int, int)>)
    requires |age| == |path| && forall k :: 0 <= k < |path| ==> 0 <= age[k] < |path[k]|
    ensures |r| == |path|
  {
    seq(|path|, k requires 0 <= k < |path| => path[k][age[k]])
  }

  /** The exits of every ant's cell. */
  function ExitsAll(maze: array2<bv8>, masks: Masks, positions: seq<(int, int)>): (r: seq<Exits>)
    reads maze
    requires forall k :: 0 <= k < |positions| ==> 0 <= positions[k].0 < maze.Length0 && 0 <= positions[k].1 < maze.Length1
    ensures |r| == |positions|
  {
    seq(|positions|, k requires 0 <= k < |positions| reads maze => ExitsOf(maze[positions[k].0, positions[k].1], masks))
  }

  /** The pheromone every ant senses around its cell. */
  function SensedAll(ph: array2<real>, positions: seq<(int, int)>, exits: seq<Exits>): (r: seq<Sensed>)
    reads ph
    requires |exits| == |positions|
    requires forall k :: 0 <= k < |positions| ==>
               0 <= positions[k].0 && positions[k].0 + 2 < ph.Length0 && 0 <= positions[k].1 && positions[k].1 + 2 < ph.Length1
    ensures |r| == |positions|
    ensures forall k :: 0 <= k < |r| ==> Gated(r[k], exits[k])
  {
    seq(|positions|, k requires 0 <= k < |positions| reads ph => SensedAt(ph, positions[k], exits[k]))
  }

  /** The ants of `ants` that explore: by choice, or because they sense no
      pheromone. */
  function Exploring(ants: seq<int>, seeds: seq<int>, sensed: seq<Sensed>): (r: seq<int>)
    ensures forall k {:trigger k in r} :: k in r <==>
              (k in ants && 0 <= k < |seeds| && 0 <= k < |sensed| &&
               (Choice(seeds[k]) <= ExplorationCoefficient || Strongest(sensed[k]) == 0.0))
  {
    Filter(ants, k => 0 <= k < |seeds| && 0 <= k < |sensed| &&
                      (Choice(seeds[k]) <= ExplorationCoefficient || Strongest(sensed[k]) == 0.0))
  }

  /** The ants of `ants` that follow the pheromone. */
  function Following(ants: seq<int>, seeds: seq<int>, sensed: seq<Sensed>): (r: seq<int>)
    ensures forall k {:trigger k in r} :: k in r <==>
              (k in ants && 0 <= k < |seeds| && 0 <= k < |sensed| &&
               Choice(seeds[k]) > ExplorationCoefficient && Strongest(sensed[k]) > 0.0)
  {
    Filter(ants, k => 0 <= k < |seeds| && 0 <= k < |sensed| &&
                      Choice(seeds[k]) > ExplorationCoefficient && Strongest(sensed[k]) > 0.0)
  }

  /** The ants of `ants` whose move is still to be found. */
  function Pending(ants: seq<int>, valid: seq<bool>): (r: seq<int>)
    ensures forall k {:trigger k in r} :: k in r <==> k in ants && 0 <= k < |valid| && !valid[k]
  {
    Filter(ants, k => 0 <= k < |valid| && !valid[k])
  }

  /** The ants of `loaded` whose path, at their (already lowered) age, is
      the nest in both coordinates. Python's negative index reads from the
      end of the path. */
  function AtNest(loaded: seq<int>, path: seq<seq<(int, int)>>, age: seq<int>, nest: (int, int)): seq<int>
  {
    Filter(loaded, k => 0 <= k < |path| && 0 <= k < |age| && -|path[k]| <= age[k] < |path[k]| &&
                        path[k][PyIndex(age[k], |path[k]|)] == nest)
  }

  /** Loaded ants have their age lowered by one. */
  function LowerAges(age: seq<int>, ants: seq<int>): (r: seq<int>)
    ensures |r| == |age|
  {
    seq(|age|, k requires 0 <= k < |age| => if k in ants then age[k] - 1 else age[k])
  }

  /** One step back along its path, ant `k` stands on the nest in both
      coordinates. */
  predicate BackAtNest(path: seq<seq<(int, int)>>, age: seq<int>, nest: (int, int), k: int)
  {
    0 <= k < |path| && 0 <= k < |age| && -|path[k]| <= age[k] - 1 < |path[k]| &&
    path[k][PyIndex(age[k] - 1, |path[k]|)] == nest
  }

  /** The ants that returned to the nest are exactly the given ants that,
      one step back along their path, stand on the nest; there are no more
      of them than given ants. */
  lemma ArrivedAnts(loaded: seq<int>, path: seq<seq<(int, int)>>, age: seq<int>, nest: (int, int))
    requires |age| == |path|
    requires forall i :: 0 <= i < |loaded| ==> 0 <= loaded[i] < |path| && 0 <= age[loaded[i]] <= |path[loaded[i]]|
    ensures forall k {:trigger k in AtNest(loaded, path, LowerAges(age, loaded), nest)} ::
              k in AtNest(loaded, path, LowerAges(age, loaded), nest) <==>
              k in loaded && BackAtNest(path, age, nest, k)
    ensures |AtNest(loaded, path, LowerAges(age, loaded), nest)| <= |loaded|
  {
  }

  /** An accepted exploring move from `path[age]` in direction `dir`: the
      new path is the old one with its target in slot `age + 1`. */
  predicate Explored(path: seq<(int, int)>, age: int, dir: int, exits: Exits, d: Codes, previous: int, newPath: seq<(int, int)>)
    requires 0 <= age && age + 1 < |path|
  {
    Accepted(path[age], dir, exits, d, previous) && newPath == path[age + 1 := ExploreTarget(path[age], dir, exits, d)]
  }

  /** Every draw of rounds `1 .. n` of the retry loop is refused for ant `k`
      standing at `pos`: round `r` draws the seed stepped `r` times. */
  ghost predicate RefusedUpTo(pos: (int, int), seeds0: seq<int>, k: int, n: nat, exits: Exits, d: Codes, previous: int)
    requires 0 <= k < |seeds0|
  {
    forall r :: 1 <= r <= n ==> !Accepted(pos, AdvanceTimes(seeds0, r)[k] % 4, exits, d, previous)
  }

  /** What the retry loop leaves for exploring ant `k`: when it settled in
      round `at`, the draw of that round is its direction and its move is
      recorded, and every earlier draw was refused; otherwise (`at == 0`)
      the loop ran out of rounds, every draw was refused and the ant is untouched. */
  ghost predicate ExploreOutcome(path0: seq<(int, int)>, age: int, previous: int, exits: Exits, d: Codes,
                                 seeds0: seq<int>, k: int, roundsRun: nat, settled: bool, at: nat,
                                 path: seq<(int, int)>, dir: int)
    requires 0 <= age && age + 1 < |path0| && 0 <= k < |seeds0|
  {
    if at == 0 then
      !settled && RefusedUpTo(path0[age], seeds0, k, roundsRun, exits, d, previous) && path == path0 && dir == previous
    else
      at <= roundsRun && dir == AdvanceTimes(seeds0, at)[k] % 4 && Explored(path0, age, dir, exits, d, previous, path) &&
      RefusedUpTo(path0[age], seeds0, k, at - 1, exits, d, previous)
  }

  /** One more round of the retry loop, for one exploring ant: an ant that
      settled stays as it was; a pending ant draws the seed stepped `n + 1`
      times and settles in round `n + 1` exactly when that draw is accepted. */
  lemma RoundOutcome(path0: seq<(int, int)>, age: int, previous: int, exits: Exits, d: Codes, seeds0: seq<int>, k: int,
                     n: nat, atOld: nat, atNew: nat, before: bool, after: bool,
                     pathB: seq<(int, int)>, dirB: int, pathA: seq<(int, int)>, dirA: int, drawn: int)
    requires 0 <= age && age + 1 < |path0| && 0 <= k < |seeds0| && |pathB| == |path0|
    requires before <==> atOld != 0
    requires ExploreOutcome(path0, age, previous, exits, d, seeds0, k, n, false, atOld, pathB, dirB)
    requires drawn == AdvanceTimes(seeds0, n + 1)[k]
    requires atNew == if !before && after then n + 1 else atOld
    requires if before then after && pathA == pathB && dirA == dirB
             else after == Accepted(pathB[age], drawn % 4, exits, d, dirB) &&
                  pathA == (if after then pathB[age + 1 := ExploreTarget(pathB[age], drawn % 4, exits, d)] else pathB) &&
                  dirA == (if after then drawn % 4 else dirB)
    ensures after <==> atNew != 0
    ensures ExploreOutcome(path0, age, previous, exits, d, seeds0, k, n + 1, false, atNew, pathA, dirA)
  {
    if !before && !after {
      forall r | 1 <= r <= n + 1
        ensures !Accepted(path0[age], AdvanceTimes(seeds0, r)[k] % 4, exits, d, previous)
      {
        if r <= n {
          assert RefusedUpTo(path0[age], seeds0, k, n, exits, d, previous);
        }
      }
    }
  }

  /** The retry loop's own bookkeeping: an exploring ant has a move
      (`valid`) exactly when it has settled, and any other ant never has one. */
  predicate TracksSettled(exploring: seq<int>, valid: seq<bool>, settledAt: seq<nat>)
    requires |settledAt| == |valid|
  {
    forall k :: 0 <= k < |valid| ==> if k in exploring then (valid[k] <==> settledAt[k] != 0) else !valid[k]
  }

  /** The rounds the ants have settled in, after round `r`: an ant that
      gained a move in it settled there. */
  function NextSettledAt(valid: seq<bool>, nextValid: seq<bool>, settledAt: seq<nat>, r: nat): (next: seq<nat>)
    requires |nextValid| == |valid| && |settledAt| == |valid|
    ensures |next| == |valid|
  {
    seq(|valid|, k requires 0 <= k < |valid| => if !valid[k] && nextValid[k] then r else settledAt[k])
  }

  /** One round of the retry loop, from the paths and directions before it
      (`pathsB`, `dirsB`) to those after it: every pending ant of `exploring`
      draws `drawn[k] % 4`, and when the draw is accepted it gains a move,
      its target goes to path slot `age + 1` and the draw becomes its
      direction; every other ant is untouched. */
  predicate RoundDone(exploring: seq<int>, valid: seq<bool>, exits: seq<Exits>, d: Codes, age: seq<int>,
                      pathsB: seq<seq<(int, int)>>, dirsB: seq<int>, drawn: seq<int>,
                      nextValid: seq<bool>, pathsA: seq<seq<(int, int)>>, dirsA: seq<int>)
    requires |exits| == |valid| && |age| == |valid| && |pathsB| == |valid| && |dirsB| == |valid| && |drawn| == |valid|
    requires |nextValid| == |valid| && |pathsA| == |valid| && |dirsA| == |valid|
    requires forall k {:trigger k in exploring} :: k in exploring ==> 0 <= k < |valid| && 0 <= age[k] && age[k] + 1 < |pathsB[k]|
  {
    forall k :: 0 <= k < |valid| ==>
      if k in Pending(exploring, valid) then
        var pos, dir := pathsB[k][age[k]], drawn[k] % 4;
        nextValid[k] == Accepted(pos, dir, exits[k], d, dirsB[k]) &&
        pathsA[k] == (if nextValid[k] then pathsB[k][age[k] + 1 := ExploreTarget(pos, dir, exits[k], d)] else pathsB[k]) &&
        dirsA[k] == (if nextValid[k] then dir else dirsB[k])
      else
        nextValid[k] == valid[k] && pathsA[k] == pathsB[k] && dirsA[k] == dirsB[k]
  }

  /** Where the retry loop leaves the ants after `n` rounds: every ant of
      `exploring` as `ExploreOutcome` says, every other ant untouched. */
  ghost predicate Retried(paths0: seq<seq<(int, int)>>, age: seq<int>, dirs0: seq<int>, exploring: seq<int>, exits: seq<Exits>,
                          d: Codes, seeds0: seq<int>, n: nat, settled: bool, settledAt: seq<nat>,
                          paths: seq<seq<(int, int)>>, dirs: seq<int>)
    requires |age| == |paths0| && |dirs0| == |paths0| && |exits| == |paths0| && |seeds0| == |paths0|
    requires |settledAt| == |paths0| && |paths| == |paths0| && |dirs| == |paths0|
    requires forall k {:trigger k in exploring} :: k in exploring ==> 0 <= k < |paths0| && 0 <= age[k] && age[k] + 1 < |paths0[k]|
  {
    forall k :: 0 <= k < |paths0| ==>
      if k in exploring then
        ExploreOutcome(paths0[k], age[k], dirs0[k], exits[k], d, seeds0, k, n, settled, settledAt[k], paths[k], dirs[k])
      else
        paths[k] == paths0[k] && dirs[k] == dirs0[k]
  }

  /** One round keeps the retry loop's state: after round `n + 1`, which
      draws the seeds stepped `n + 1` times, every ant is where
      `ExploreOutcome` says, and the paths keep their lengths and starts. */
  lemma RetryStep(paths0: seq<seq<(int, int)>>, age: seq<int>, dirs0: seq<int>, exploring: seq<int>, exits: seq<Exits>,
                  d: Codes, seeds0: seq<int>, n: nat, valid: seq<bool>, at: seq<nat>,
                  pathsB: seq<seq<(int, int)>>, dirsB: seq<int>, nextValid: seq<bool>,
                  pathsA: seq<seq<(int, int)>>, dirsA: seq<int>)
    requires |age| == |paths0| && |dirs0| == |paths0| && |exits| == |paths0| && |seeds0| == |paths0| && |valid| == |paths0|
    requires |at| == |paths0| && |pathsB| == |paths0| && |dirsB| == |paths0| && |nextValid| == |paths0|
    requires |pathsA| == |paths0| && |dirsA| == |paths0|
    requires forall k {:trigger k in exploring} :: k in exploring ==> 0 <= k < |paths0| && 0 <= age[k] && age[k] + 1 < |paths0[k]|
    requires KeepsStarts(paths0, pathsB)
    requires TracksSettled(exploring, valid, at)
    requires Retried(paths0, age, dirs0, exploring, exits, d, seeds0, n, false, at, pathsB, dirsB)
    requires RoundDone(exploring, valid, exits, d, age, pathsB, dirsB, AdvanceTimes(seeds0, n + 1), nextValid, pathsA, dirsA)
    ensures KeepsStarts(paths0, pathsA)
    ensures TracksSettled(exploring, nextValid, NextSettledAt(valid, nextValid, at, n + 1))
    ensures Retried(paths0, age, dirs0, exploring, exits, d, seeds0, n + 1, false, NextSettledAt(valid, nextValid, at, n + 1),
                    pathsA, dirsA)
  {
    var atNew := NextSettledAt(valid, nextValid, at, n + 1);
    var drawn := AdvanceTimes(seeds0, n + 1);
    forall k | 0 <= k < |paths0| && k in exploring
      ensures nextValid[k] <==> atNew[k] != 0
      ensures ExploreOutcome(paths0[k], age[k], dirs0[k], exits[k], d, seeds0, k, n + 1, false, atNew[k], pathsA[k], dirsA[k])
    {
      assert k in Pending(exploring, valid) <==> !valid[k];
      RoundOutcome(paths0[k], age[k], dirs0[k], exits[k], d, seeds0, k, n, at[k], atNew[k], valid[k], nextValid[k],
                   pathsB[k], dirsB[k], pathsA[k], dirsA[k], drawn[k]);
    }
    forall k | 0 <= k < |paths0|
      ensures |pathsA[k]| == |paths0[k]| && (|paths0[k]| > 0 ==> pathsA[k][0] == paths0[k][0])
    {
      assert k in Pending(exploring, valid) ==> k in exploring;
    }
  }

  /** When no exploring ant is left pending, the loop ends settled. */
  lemma RetriesSettle(paths0: seq<seq<(int, int)>>, age: seq<int>, dirs0: seq<int>, exploring: seq<int>, exits: seq<Exits>,
                      d: Codes, seeds0: seq<int>, n: nat, valid: seq<bool>, at: seq<nat>,
                      paths: seq<seq<(int, int)>>, dirs: seq<int>)
    requires |age| == |paths0| && |dirs0| == |paths0| && |exits| == |paths0| && |seeds0| == |paths0| && |valid| == |paths0|
    requires |at| == |paths0| && |paths| == |paths0| && |dirs| == |paths0|
    requires forall k {:trigger k in exploring} :: k in exploring ==> 0 <= k < |paths0| && 0 <= age[k] && age[k] + 1 < |paths0[k]|
    requires TracksSettled(exploring, valid, at) && |Pending(exploring, valid)| == 0
    requires Retried(paths0, age, dirs0, exploring, exits, d, seeds0, n, false, at, paths, dirs)
    ensures Retried(paths0, age, dirs0, exploring, exits, d, seeds0, n, true, at, paths, dirs)
  {
    forall k | 0 <= k < |paths0| && k in exploring
      ensures ExploreOutcome(paths0[k], age[k], dirs0[k], exits[k], d, seeds0, k, n, true, at[k], paths[k], dirs[k])
    {
      assert k !in Pending(exploring, valid);
    }
  }

  /** The moves of one step, ant by ant: a following ant copies its
      position to slot `age + 1` and steps it toward every strongest
      direction; an exploring ant ends as the retry loop leaves it; every
      other ant keeps its path and direction. */
  ghost predicate Moved(path0: seq<seq<(int, int)>>, age: seq<int>, dirs0: seq<int>, exploring: seq<int>, following: seq<int>,
                        exits: seq<Exits>, sensed: seq<Sensed>, d: Codes, seeds0: seq<int>, roundsRun: nat, settled: bool,
                        settledAt: seq<nat>, path: seq<seq<(int, int)>>, dirs: seq<int>)
    requires |age| == |path0| && |dirs0| == |path0| && |exits| == |path0| && |sensed| == |path0| && |seeds0| == |path0|
    requires forall k {:trigger k in exploring} :: k in exploring ==> 0 <= k < |path0| && 0 <= age[k] && age[k] + 1 < |path0[k]|
    requires forall k {:trigger k in following} :: k in following ==> 0 <= k < |path0| && 0 <= age[k] && age[k] + 1 < |path0[k]|
  {
    |settledAt| == |path0| && |path| == |path0| && |dirs| == |path0| &&
    forall k :: 0 <= k < |path0| ==>
      if k in following then
        path[k] == path0[k][age[k] + 1 := FollowTarget(path0[k][age[k]], sensed[k])] && dirs[k] == dirs0[k]
      else if k in exploring then
        ExploreOutcome(path0[k], age[k], dirs0[k], exits[k], d, seeds0, k, roundsRun, settled, settledAt[k], path[k], dirs[k])
      else
        path[k] == path0[k] && dirs[k] == dirs0[k]
  }

  /** The end of one step, ant by ant: the ants of `unloadedAnts` get one
      year older; an ant that reached its life span restarts at age zero
      from the nest with no direction; then an ant of `unloadedAnts`
      standing on the food is loaded, and every other ant keeps its load. */
  ghost predicate Ended(age0: seq<int>, path0: seq<seq<(int, int)>>, dirs0: seq<int>, loaded0: seq<bool>, maxLife: seq<int>,
                        unloadedAnts: seq<int>, nest: (int, int), food: (int, int), none: int,
                        age: seq<int>, path: seq<seq<(int, int)>>, dirs: seq<int>, loaded: seq<bool>)
    requires |path0| == |age0| && |dirs0| == |age0| && |loaded0| == |age0| && |maxLife| == |age0|
  {
    |age| == |age0| && |path| == |age0| && |dirs| == |age0| && |loaded| == |age0| &&
    forall k :: 0 <= k < |age0| ==>
      var grown := if k in unloadedAnts then age0[k] + 1 else age0[k];
      (if grown == maxLife[k] then
         age[k] == 0 && |path0[k]| > 0 && path[k] == path0[k][0 := nest] && dirs[k] == none
       else
         age[k] == grown && path[k] == path0[k] && dirs[k] == dirs0[k]) &&
      loaded[k] == (loaded0[k] || (k in unloadedAnts && 0 <= age[k] < |path[k]| && path[k][age[k]] == food))
  }

  /** A path update that keeps every path's length and first slot. */
  predicate KeepsStarts(before: seq<seq<(int, int)>>, after: seq<seq<(int, int)>>)
  {
    |after| == |before| &&
    forall k :: 0 <= k < |before| ==> |after[k]| == |before[k]| && (|before[k]| > 0 ==> after[k][0] == before[k][0])
  }

  class Colony {
    /** The seed of every ant. */
    var seeds: seq<int>
    /** Whether every ant carries food. */
    var isLoaded: seq<bool>
    /** The life span of every ant. */
    var maxLife: seq<int>
    /** The age of every ant: the index of its position in its path. */
    var age: seq<int>
    /** The positions of every ant, indexed by age. */
    var historicPath: seq<seq<(int, int)>>
    /** The direction of every ant's last exploring move. */
    var directions: seq<int>

    /** All per-ant sequences have one entry per ant. */
    ghost predicate Valid()
      reads this
    {
      |isLoaded| == |seeds| && |maxLife| == |seeds| && |age| == |seeds| &&
      |historicPath| == |seeds| && |directions| == |seeds|
    }

    /** The colony invariant: every age is below the ant's life span, which
        is below the path length, so slot `age + 1` always exists; every path
        starts at the nest; a loaded ant is at least one step from its start. */
    ghost predicate Healthy(nest: (int, int))
      reads this
    {
      Valid() &&
      forall k :: 0 <= k < |seeds| ==>
        0 <= age[k] < maxLife[k] < |historicPath[k]| && historicPath[k][0] == nest && (isLoaded[k] ==> age[k] >= 1)
    }

    /** Every age indexes its path. */
    ghost predicate Located()
      reads this
    {
      Valid() && forall k :: 0 <= k < |seeds| ==> 0 <= age[k] < |historicPath[k]|
    }

    /** The colony of `numAnts` ants numbered from `minIndex`: seeds
        `minIndex + 1 ..`, nobody loaded, age zero, paths of `maxLifeAll + 1`
        slots starting at `initialPosition`, no direction yet. The per-ant
        life spans are given. */
    constructor(numAnts: nat, initialPosition: (int, int), maxLifeAll: nat, lifeSpans: seq<int>, minIndex: int, d: Codes)
      requires |lifeSpans| == numAnts
      ensures Valid() && |seeds| == numAnts && maxLife == lifeSpans
      ensures forall k :: 0 <= k < numAnts ==>
                seeds[k] == minIndex + 1 + k && !isLoaded[k] && age[k] == 0 && directions[k] == d.none &&
                |historicPath[k]| == maxLifeAll + 1 && historicPath[k][0] == initialPosition
      ensures (forall k :: 0 <= k < numAnts ==> 1 <= lifeSpans[k] <= maxLifeAll) ==> Healthy(initialPosition)
    {
      seeds := seq(numAnts, k => minIndex + 1 + k);
      isLoaded := seq(numAnts, _ => false);
      maxLife := lifeSpans;
      age := seq(numAnts, _ => 0);
      historicPath := seq(numAnts, _ => seq(maxLifeAll + 1, j => if j == 0 then initialPosition else (0, 0)));
      directions := seq(numAnts, _ => d.none);
    }

    /** `return_to_nest`: every ant of `loadedAnts` gets one year younger;
        those whose path at that age is the nest unload, restart at age zero
        and are added to the food counter. Other ants and fields are
        untouched, and the colony invariant is kept when the given ants are
        the loaded ones. */
    method ReturnToNest(loadedAnts: seq<int>, nestPosition: (int, int), foodCounter: int) returns (newCounter: int)
      requires Valid()
      requires forall i :: 0 <= i < |loadedAnts| ==> 0 <= loadedAnts[i] < |seeds|
      requires forall i :: 0 <= i < |loadedAnts| ==> 0 <= age[loadedAnts[i]] <= |historicPath[loadedAnts[i]]|
      modifies this
      ensures Valid()
      ensures seeds == old(seeds) && maxLife == old(maxLife) && historicPath == old(historicPath) && directions == old(directions)
      ensures var arrived := AtNest(loadedAnts, historicPath, LowerAges(old(age), loadedAnts), nestPosition);
              newCounter == foodCounter + |arrived| &&
              (forall k :: 0 <= k < |seeds| ==>
                 age[k] == (if k in arrived then 0 else if k in loadedAnts then old(age[k]) - 1 else old(age[k])) &&
                 isLoaded[k] == (old(isLoaded[k]) && k !in arrived))
      ensures old(Healthy(nestPosition)) && (forall i :: 0 <= i < |loadedAnts| ==> old(isLoaded[loadedAnts[i]])) ==> Healthy(nestPosition)
    {
      ghost var age0, loaded0 := age, isLoaded;
      age := LowerAges(age, loadedAnts);
      var arrived := AtNest(loadedAnts, historicPath, age, nestPosition);
      var loaded, lowered := isLoaded, age;
      isLoaded := seq(|loaded|, k requires 0 <= k < |loaded| => if k in arrived then false else loaded[k]);
      age := seq(|lowered|, k requires 0 <= k < |lowered| => if k in arrived then 0 else lowered[k]);
      newCounter := foodCounter + |arrived|;
      ArrivedAnts(loadedAnts, historicPath, age0, nestPosition);
    }

    /** One round of the exploring retry loop: every ant's seed steps; each
        ant of `exploring` still without a move draws `seed % 4`, and when
        the move is accepted its target goes to path slot `age + 1` and the
        drawn code becomes its direction. Positions, ages and path starts
        are untouched. */
    method ExploreRound(exploring: seq<int>, exits: seq<Exits>, d: Codes, valid: seq<bool>) returns (nextValid: seq<bool>)
      requires Located() && |exits| == |seeds| && |valid| == |seeds|
      requires forall k {:trigger k in exploring} :: k in exploring ==> 0 <= k < |seeds| && age[k] + 1 < |historicPath[k]|
      modifies this
      ensures Located() && |nextValid| == |valid|
      ensures seeds == AdvanceAll(old(seeds))
      ensures age == old(age) && isLoaded == old(isLoaded) && maxLife == old(maxLife)
      ensures RoundDone(exploring, valid, exits, d, age, old(historicPath), old(directions), seeds, nextValid, historicPath, directions)
    {
      var pending := Pending(exploring, valid);
      seeds := AdvanceAll(seeds);
      var drawn, path, dirs, ages := seeds, historicPath, directions, age;
      var accepted := seq(|valid|, k requires 0 <= k < |valid| =>
                        if k in pending then Accepted(path[k][ages[k]], drawn[k] % 4, exits[k], d, dirs[k]) else valid[k]);
      historicPath := seq(|path|, k requires 0 <= k < |path| =>
                        if k in pending && accepted[k]
                        then path[k][ages[k] + 1 := ExploreTarget(path[k][ages[k]], drawn[k] % 4, exits[k], d)]
                        else path[k]);
      directions := seq(|dirs|, k requires 0 <= k < |dirs| => if k in pending && accepted[k] then drawn[k] % 4 else dirs[k]);
      nextValid := accepted;
    }

    /** The exploring retry loop, run for at most `rounds` rounds: it stops
        once every ant of `exploring` has an accepted move (`settled`). An
        ant of `exploring` settles in the first round whose draw is
        accepted (`settledAt`), with that draw as its direction and its move
        in slot `age + 1`; an ant that never settles is untouched, and so is
        every other ant. Every round steps every seed. */
    method ExploreRetries(exploring: seq<int>, exits: seq<Exits>, d: Codes, rounds: nat)
      returns (settled: bool, roundsRun: nat, ghost settledAt: seq<nat>)
      requires Located() && |exits| == |seeds|
      requires forall k {:trigger k in exploring} :: k in exploring ==> 0 <= k < |seeds| && age[k] + 1 < |historicPath[k]|
      modifies this
      ensures Located()
      ensures age == old(age) && isLoaded == old(isLoaded) && maxLife == old(maxLife)
      ensures roundsRun <= rounds && seeds == AdvanceTimes(old(seeds), roundsRun)
      ensures !settled ==> roundsRun == rounds
      ensures KeepsStarts(old(historicPath), historicPath)
      ensures |settledAt| == |seeds|
      ensures Retried(old(historicPath), age, old(directions), exploring, exits, d, old(seeds), roundsRun, settled, settledAt,
                      historicPath, directions)
    {
      var valid := seq(|seeds|, _ => false);
      settledAt := seq(|seeds|, _ => 0);
      roundsRun := 0;
      while roundsRun < rounds && |Pending(exploring, valid)| > 0
        invariant Located() && |valid| == |seeds| && |settledAt| == |seeds|
        invariant age == old(age) && isLoaded == old(isLoaded) && maxLife == old(maxLife)
        invariant KeepsStarts(old(historicPath), historicPath)
        invariant roundsRun <= rounds && seeds == AdvanceTimes(old(seeds), roundsRun)
        invariant TracksSettled(exploring, valid, settledAt)
        invariant Retried(old(historicPath), age, old(directions), exploring, exits, d, old(seeds), roundsRun, false, settledAt,
                          historicPath, directions)
      {
        ghost var paths, dirs := historicPath, directions;
        var before := valid;
        valid := ExploreRound(exploring, exits, d, valid);
        RetryStep(old(historicPath), age, old(directions), exploring, exits, d, old(seeds), roundsRun, before, settledAt,
                  paths, dirs, valid, historicPath, directions);
        settledAt := NextSettledAt(before, valid, settledAt, roundsRun + 1);
        roundsRun := roundsRun + 1;
      }
      settled := |Pending(exploring, valid)| == 0;
      if settled {
        RetriesSettle(old(historicPath), age, old(directions), exploring, exits, d, old(seeds), roundsRun, valid, settledAt,
                      historicPath, directions);
      }
    }

    /** The following ants copy their position to path slot `age + 1` and
        step it toward every strongest direction; nothing else changes. */
    method FollowPheromones(following: seq<int>, sensed: seq<Sensed>)
      requires Located() && |sensed| == |seeds|
      requires forall k {:trigger k in following} :: k in following ==> 0 <= k < |seeds| && age[k] + 1 < |historicPath[k]|
      modifies this
      ensures Located()
      ensures seeds == old(seeds) && age == old(age) && isLoaded == old(isLoaded) && maxLife == old(maxLife) && directions == old(directions)
      ensures KeepsStarts(old(historicPath), historicPath)
      ensures forall k :: 0 <= k < |seeds| ==>
                historicPath[k] == if k in following
                                   then old(historicPath[k])[age[k] + 1 := FollowTarget(old(historicPath[k][age[k]]), sensed[k])]
                                   else old(historicPath[k])
    {
      var path, ages := historicPath, age;
      historicPath := seq(|path|, k requires 0 <= k < |path| =>
                        if k in following then path[k][ages[k] + 1 := FollowTarget(path[k][ages[k]], sensed[k])] else path[k]);
    }

    /** The ants of `unloadedAnts` get one year older; then every ant whose
        age reached its life span restarts at age zero from the nest with
        no direction. */
    method AgeAndRenew(unloadedAnts: seq<int>, nestPosition: (int, int), none: int)
      requires Located()
      requires forall k {:trigger k in unloadedAnts} :: k in unloadedAnts ==> 0 <= k < |seeds| && age[k] + 1 < |historicPath[k]|
      modifies this
      ensures Located()
      ensures old(Healthy(nestPosition)) && (forall k :: 0 <= k < |isLoaded| && k in unloadedAnts ==> !isLoaded[k]) ==>
                Healthy(nestPosition)
      ensures seeds == old(seeds) && isLoaded == old(isLoaded) && maxLife == old(maxLife)
      ensures forall k :: 0 <= k < |seeds| ==>
                var grown := if k in unloadedAnts then old(age[k]) + 1 else old(age[k]);
                if grown == maxLife[k] then
                  age[k] == 0 && historicPath[k] == old(historicPath[k])[0 := nestPosition] && directions[k] == none
                else
                  age[k] == grown && historicPath[k] == old(historicPath[k]) && directions[k] == old(directions[k])
    {
      if |unloadedAnts| > 0 {
        var ages := age;
        age := seq(|ages|, k requires 0 <= k < |ages| => if k in unloadedAnts then ages[k] + 1 else ages[k]);
      }
      var grown, lives, path, dirs := age, maxLife, historicPath, directions;
      age := seq(|grown|, k requires 0 <= k < |grown| => if grown[k] == lives[k] then 0 else grown[k]);
      historicPath := seq(|path|, k requires 0 <= k < |path| => if grown[k] == lives[k] then path[k][0 := nestPosition] else path[k]);
      directions := seq(|dirs|, k requires 0 <= k < |dirs| => if grown[k] == lives[k] then none else dirs[k]);
    }

    /** The ants of `unloadedAnts` standing on the food become loaded. */
    method PickUpFood(unloadedAnts: seq<int>, foodPosition: (int, int))
      requires Located()
      modifies this
      ensures Located()
      ensures seeds == old(seeds) && age == old(age) && maxLife == old(maxLife) && historicPath == old(historicPath) && directions == old(directions)
      ensures forall k :: 0 <= k < |seeds| ==>
                isLoaded[k] == (old(isLoaded[k]) || (k in unloadedAnts && historicPath[k][age[k]] == foodPosition))
    {
      var loaded, path, ages := isLoaded, historicPath, age;
      isLoaded := seq(|loaded|, k requires 0 <= k < |loaded| =>
                    if k in unloadedAnts && path[k][ages[k]] == foodPosition then true else loaded[k]);
    }

    /** The moves of one step: the exploring ants retry for at most
        `rounds` rounds, then the following ants step (`Moved`). Ages, loads
        and life spans are untouched and every path keeps its length and
        start. */
    method MoveAnts(exploring: seq<int>, following: seq<int>, exits: seq<Exits>, sensed: seq<Sensed>, d: Codes, rounds: nat)
      returns (settled: bool, roundsRun: nat, ghost settledAt: seq<nat>)
      requires Located() && |exits| == |seeds| && |sensed| == |seeds|
      requires forall k {:trigger k in exploring} :: k in exploring ==> 0 <= k < |seeds| && age[k] + 1 < |historicPath[k]|
      requires forall k {:trigger k in following} :: k in following ==> 0 <= k < |seeds| && age[k] + 1 < |historicPath[k]|
      requires forall k {:trigger k in exploring} :: k in exploring ==> k !in following
      modifies this
      ensures Located()
      ensures age == old(age) && isLoaded == old(isLoaded) && maxLife == old(maxLife)
      ensures KeepsStarts(old(historicPath), historicPath)
      ensures roundsRun <= rounds && seeds == AdvanceTimes(old(seeds), roundsRun)
      ensures Moved(old(historicPath), age, old(directions), exploring, following, exits, sensed, d, old(seeds),
                    roundsRun, settled, settledAt, historicPath, directions)
    {
      ghost var path0 := historicPath;
      settled, roundsRun, settledAt := true, 0, seq(|seeds|, _ => 0);
      if |exploring| > 0 {
        settled, roundsRun, settledAt := ExploreRetries(exploring, exits, d, rounds);
      }
      ghost var path1 := historicPath;
      if |following| > 0 {
        FollowPheromones(following, sensed);
      }
      assert KeepsStarts(path0, path1) && KeepsStarts(path1, historicPath);
    }

    /** The end of one step (`Ended`): ageing and renewal, then food
        pickup. */
    method EndStep(unloadedAnts: seq<int>, nestPosition: (int, int), foodPosition: (int, int), none: int)
      requires Located()
      requires forall k {:trigger k in unloadedAnts} :: k in unloadedAnts ==> 0 <= k < |seeds| && age[k] + 1 < |historicPath[k]|
      modifies this
      ensures Located() && seeds == old(seeds) && maxLife == old(maxLife)
      ensures Ended(old(age), old(historicPath), old(directions), old(isLoaded), maxLife, unloadedAnts, nestPosition, foodPosition, none,
                    age, historicPath, directions, isLoaded)
      ensures (old(Healthy(nestPosition)) && nestPosition != foodPosition &&
               forall k :: 0 <= k < |isLoaded| && k in unloadedAnts ==> !old(isLoaded[k])) ==> Healthy(nestPosition)
    {
      ghost var healthy := Healthy(nestPosition) && nestPosition != foodPosition &&
                           forall k :: 0 <= k < |isLoaded| && k in unloadedAnts ==> !isLoaded[k];
      AgeAndRenew(unloadedAnts, nestPosition, none);
      PickUpFood(unloadedAnts, foodPosition);
      if healthy {
        forall k | 0 <= k < |seeds| && isLoaded[k]
          ensures age[k] >= 1
        {
        }
      }
    }

    /** The moves of one step followed by its end: the state after the
        moves is returned as `movedPath` and `movedDirs`. */
    method MoveAndAge(unloadedAnts: seq<int>, exploring: seq<int>, following: seq<int>, exits: seq<Exits>, sensed: seq<Sensed>,
                      d: Codes, foodPosition: (int, int), nestPosition: (int, int), rounds: nat)
      returns (settled: bool, roundsRun: nat, ghost settledAt: seq<nat>, ghost movedPath: seq<seq<(int, int)>>, ghost movedDirs: seq<int>)
      requires Located() && |exits| == |seeds| && |sensed| == |seeds|
      requires forall k {:trigger k in unloadedAnts} :: k in unloadedAnts ==> 0 <= k < |seeds| && age[k] + 1 < |historicPath[k]|
      requires forall k {:trigger k in exploring} :: k in exploring ==> 0 <= k < |seeds| && age[k] + 1 < |historicPath[k]|
      requires forall k {:trigger k in following} :: k in following ==> 0 <= k < |seeds| && age[k] + 1 < |historicPath[k]|
      requires forall k {:trigger k in exploring} :: k in exploring ==> k !in following
      modifies this
      ensures Located() && maxLife == old(maxLife)
      ensures roundsRun <= rounds && seeds == AdvanceTimes(old(seeds), roundsRun)
      ensures Moved(old(historicPath), old(age), old(directions), exploring, following, exits, sensed, d, old(seeds),
                    roundsRun, settled, settledAt, movedPath, movedDirs)
      ensures Ended(old(age), movedPath, movedDirs, old(isLoaded), maxLife, unloadedAnts, nestPosition, foodPosition, d.none,
                    age, historicPath, directions, isLoaded)
      ensures (old(Healthy(nestPosition)) && nestPosition != foodPosition &&
               forall k :: 0 <= k < |isLoaded| && k in unloadedAnts ==> !old(isLoaded[k])) ==> Healthy(nestPosition)
    {
      settled, roundsRun, settledAt := MoveAnts(exploring, following, exits, sensed, d, rounds);
      movedPath, movedDirs := historicPath, directions;
      EndStep(unloadedAnts, nestPosition, foodPosition, d.none);
    }

    /** `explore`, with the retry loop bounded by `rounds`: the seeds of
        `unloadedAnts` step; every ant senses the pheromone behind its open
        exits; the ants of `unloadedAnts` that draw zero or sense nothing
        explore, the others follow the pheromone; then those ants age, ants
        at the end of their life restart from the nest, and ants of
        `unloadedAnts` on the food become loaded. Positive seeds stay
        positive, and when the listed ants are unloaded and the nest is not
        the food, the colony invariant is kept. */
    method Explore(unloadedAnts: seq<int>, maze: array2<bv8>, masks: Masks, d: Codes,
                   foodPosition: (int, int), nestPosition: (int, int), pheromones: Pheromon, rounds: nat)
      returns (settled: bool, roundsRun: nat, ghost settledAt: seq<nat>, ghost movedPath: seq<seq<(int, int)>>, ghost movedDirs: seq<int>)
      requires Located()
      requires forall k {:trigger k in unloadedAnts} :: k in unloadedAnts ==> 0 <= k < |seeds| && age[k] + 1 < |historicPath[k]|
      requires forall k :: 0 <= k < |seeds| ==>
                 0 <= historicPath[k][age[k]].0 < maze.Length0 && 0 <= historicPath[k][age[k]].1 < maze.Length1
      requires pheromones.pheromon.Length0 >= maze.Length0 + 2 && pheromones.pheromon.Length1 >= maze.Length1 + 2
      modifies this
      ensures Located()
      ensures maxLife == old(maxLife) && roundsRun <= rounds
      ensures seeds == AdvanceTimes(AdvanceSeeds(old(seeds), unloadedAnts), roundsRun)
      ensures old(SeedsPositive(seeds)) ==> SeedsPositive(seeds)
      ensures var positions := Positions(old(historicPath), old(age));
              var exits := ExitsAll(maze, masks, positions);
              var sensed := SensedAll(pheromones.pheromon, positions, exits);
              var drawn := AdvanceSeeds(old(seeds), unloadedAnts);
              Moved(old(historicPath), old(age), old(directions), Exploring(unloadedAnts, drawn, sensed),
                    Following(unloadedAnts, drawn, sensed), exits, sensed, d, drawn,
                    roundsRun, settled, settledAt, movedPath, movedDirs)
      ensures Ended(old(age), movedPath, movedDirs, old(isLoaded), maxLife, unloadedAnts, nestPosition, foodPosition, d.none,
                    age, historicPath, directions, isLoaded)
      ensures (old(Healthy(nestPosition)) && nestPosition != foodPosition &&
               forall k :: 0 <= k < |isLoaded| && k in unloadedAnts ==> !old(isLoaded[k])) ==> Healthy(nestPosition)
    {
      ghost var positive := SeedsPositive(seeds);
      ghost var seeds0 := seeds;
      ghost var healthy := Healthy(nestPosition);
      seeds := AdvanceSeeds(seeds, unloadedAnts);
      assert healthy ==> Healthy(nestPosition);
      var drawn := seeds;
      var positions := Positions(historicPath, age);
      var exits := ExitsAll(maze, masks, positions);
      var sensed := SensedAll(pheromones.pheromon, positions, exits);
      var exploring := Exploring(unloadedAnts, drawn, sensed);
      var following := Following(unloadedAnts, drawn, sensed);
      settled, roundsRun, settledAt, movedPath, movedDirs :=
        MoveAndAge(unloadedAnts, exploring, following, exits, sensed, d, foodPosition, nestPosition, rounds);
      if positive {
        SeedsStayPositive(seeds0, unloadedAnts, 0);
        SeedsStayPositive(drawn, unloadedAnts, roundsRun);
      }
    }
  }
}

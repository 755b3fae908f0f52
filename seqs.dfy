/** Concatenation of a list of sequences, as `np.hstack` and
    `np.concatenate` perform it on a list of one-dimensional arrays. */
module Seqs {

  /** The parts joined end to end, in list order. */
  function Concat<T>(parts: seq<seq<T>>): (r: seq<T>)
  {
    if parts == [] then [] else Concat(parts[..|parts| - 1]) + parts[|parts| - 1]
  }
}

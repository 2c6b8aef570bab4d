/** Square cells of the real line: how far apart the cells of two nearby values can be, and the scales in use. */
module Cells {
  import opened Basics
  import opened Reals

  /** Metres to a degree of latitude. */
  const METRES_PER_DEGREE := 111320.0

  /** Cell units to a degree, east to west and south to north. */
  const BIN_METRES_PER_LON := 102900.0
  const BIN_METRES_PER_LAT := 111200.0

  lemma CellsApart(u: real, v: real, k: nat)
    requires Abs(u - v) <= k as real
    ensures Distance(u.Floor, v.Floor) <= k
  {}
}

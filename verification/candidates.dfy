/**
 * The candidate record exchanged between candidate generation, the
 * candidate file and the collapser: a pair of segmentation labels, the grid
 * location between them and the ground-truth flag.
 */
module Candidates {

  /** A grid position (z, y, x); coordinates may be negative before the enclosure test. */
  datatype Point = Point(z: int, y: int, x: int)

  /**
   * A candidate merge. Candidate generation always produces
   * `labelOne < labelTwo`; the collapser accepts either order.
   */
  datatype Candidate = Candidate(labelOne: nat, labelTwo: nat, location: Point, groundTruth: bool)

  /** True when the candidate's edge connects labels `l` and `m`, in either order. */
  predicate Joins(c: Candidate, l: nat, m: nat)
  {
    (c.labelOne == l && c.labelTwo == m) || (c.labelOne == m && c.labelTwo == l)
  }
}

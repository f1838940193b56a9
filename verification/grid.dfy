/**
 The occupancy grid: `GridRings` rings, each an ordered row of
 `SegmentsPerRing` cells, every cell empty (`None`) or holding a colour token.
 */
module Grid {
  import opened Wrappers
  import opened Coords

  /** A colour token, such as "#FF0000"; the engine only copies and compares it. */
  type Color = string

  type Cell = Option<Color>

  type Ring = seq<Cell>

  type Board = seq<Ring>

  /** The dimensions every board built by the game has. */
  predicate WellFormed(b: Board) {
    |b| == GridRings && forall i :: 0 <= i < |b| ==> |b[i]| == SegmentsPerRing
  }

  /** `new Array(SEGMENTS_PER_RING).fill(null)`. */
  function EmptyRing(): (r: Ring)
    ensures |r| == SegmentsPerRing
    ensures forall j :: 0 <= j < |r| ==> r[j] == None
  {
    seq(SegmentsPerRing, _ => None)
  }

  /** `initializeGrid`: a fresh board of empty rings. */
  function InitializeGrid(): (b: Board)
    ensures WellFormed(b)
    ensures forall i, j :: 0 <= i < |b| && 0 <= j < |b[i]| ==> b[i][j] == None
  {
    seq(GridRings, _ => EmptyRing())
  }

  /** The `every(cell => cell !== null)` test of `checkLines`. */
  predicate RingFull(r: Ring) {
    forall j :: 0 <= j < |r| ==> r[j].Some?
  }

  /** `checkOuterRingViolation`: the danger ring holds some occupied cell. */
  predicate OuterRingViolation(b: Board)
    requires WellFormed(b)
  {
    exists j :: 0 <= j < SegmentsPerRing && b[OuterRingThreshold][j].Some?
  }

  /** The danger ring is occupied exactly when it is not an empty ring. */
  lemma OuterRingViolationIff(b: Board)
    requires WellFormed(b)
    ensures OuterRingViolation(b) <==> b[OuterRingThreshold] != EmptyRing()
  {
  }

  /** An empty ring is never full, since a ring has at least one cell. */
  lemma EmptyRingNotFull()
    ensures !RingFull(EmptyRing())
  {
    assert EmptyRing()[0] == None;
  }

}

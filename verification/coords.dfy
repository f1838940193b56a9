/**
 The fixed dimensions of the radial board and the angular wrap-around
 arithmetic. Rings are indexed from the outer rim (0) inward; segments are
 angular slices that wrap around the circle.
 */
module Coords {

  const OuterRadius: int := 240
  const InnerRadius: int := 80
  const CellSize: int := 20

  /** Number of rings: the floor of a quotient of positive numbers, which Dafny's `/` computes exactly. */
  const GridRings: int := (OuterRadius - InnerRadius) / CellSize

  const SegmentsPerRing: int := 32

  /** The ring whose occupation right after a placement ends the game. */
  const OuterRingThreshold: int := 1

  /** Points awarded for each cleared ring. */
  const LineReward: int := 100

  /**
   `a % SegmentsPerRing` with JavaScript's `%`: the remainder of division
   truncated toward zero, so it carries the sign of the dividend.
   */
  function JsRem(a: int): (r: int)
    ensures -SegmentsPerRing < r < SegmentsPerRing
    ensures r > 0 ==> a > 0
    ensures r < 0 ==> a < 0
    ensures (a - r) % SegmentsPerRing == 0
    ensures a >= 0 ==> r == a % SegmentsPerRing
  {
    if a >= 0 then
      MultipleVanishes(a / SegmentsPerRing, 0);
      a % SegmentsPerRing
    else
      MultipleVanishes(-((-a) / SegmentsPerRing), 0);
      -((-a) % SegmentsPerRing)
  }

  /**
   The wrap applied to every segment index: `(x + SegmentsPerRing) % SegmentsPerRing`
   with JavaScript's `%`. It agrees with the mathematical residue whenever
   `x` is at least `-SegmentsPerRing`; below that it yields a non-positive index.
   */
  function WrapSegment(x: int): (r: int)
    ensures -SegmentsPerRing < r < SegmentsPerRing
    ensures x >= -SegmentsPerRing ==> 0 <= r && r == x % SegmentsPerRing
    ensures x < -SegmentsPerRing ==> r <= 0
  {
    JsRem(x + SegmentsPerRing)
  }

  /** Reducing the anchor first does not change the residue of anchor plus offset. */
  lemma ModAddCongruent(a: int, d: int)
    ensures (a % SegmentsPerRing + d) % SegmentsPerRing == (a + d) % SegmentsPerRing
  {
    var q := a / SegmentsPerRing;
    assert a == SegmentsPerRing * q + a % SegmentsPerRing;
    MultipleVanishes(q, a % SegmentsPerRing + d);
  }

  lemma {:induction false} MultipleVanishes(q: int, z: int)
    ensures (SegmentsPerRing * q + z) % SegmentsPerRing == z % SegmentsPerRing
    decreases if q < 0 then -q else q
  {
    if q > 0 {
      MultipleVanishes(q - 1, z);
      assert SegmentsPerRing * q + z == SegmentsPerRing * (q - 1) + z + SegmentsPerRing;
    } else if q < 0 {
      MultipleVanishes(q + 1, z);
      assert SegmentsPerRing * q + z == SegmentsPerRing * (q + 1) + z - SegmentsPerRing;
    }
  }

  /** Two anchors congruent modulo the ring size wrap to the same segment, once both are in the agreeing range. */
  lemma WrapCongruent(x: int, y: int)
    requires x >= -SegmentsPerRing && y >= -SegmentsPerRing
    requires x % SegmentsPerRing == y % SegmentsPerRing
    ensures WrapSegment(x) == WrapSegment(y)
  {
  }

}

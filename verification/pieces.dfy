/**
 Falling pieces: a shape of (ring, segment) offsets relative to an anchor,
 a colour, and the anchor's position. Covers the piece catalog, spawning
 with injected random choices, and the rotation map.
 */
module Pieces {
  import opened Coords
  import opened Grid

  datatype Offset = Offset(dr: int, ds: int)

  type Shape = seq<Offset>

  datatype Piece = Piece(shape: Shape, color: Color, ring: int, segment: int)

  datatype Template = Template(shape: Shape, color: Color)

  /** The `PIECES` table: L, reverse L, square, line and T. */
  const Catalog: seq<Template> := [
    Template([Offset(0, 0), Offset(0, 1), Offset(0, 2), Offset(1, 2)], "#FF0000"),
    Template([Offset(0, 0), Offset(0, 1), Offset(0, 2), Offset(1, 0)], "#00FF00"),
    Template([Offset(0, 0), Offset(0, 1), Offset(1, 0), Offset(1, 1)], "#0000FF"),
    Template([Offset(0, 0), Offset(0, 1), Offset(0, 2), Offset(0, 3)], "#FFFF00"),
    Template([Offset(0, 0), Offset(0, 1), Offset(0, 2), Offset(1, 1)], "#FF00FF")
  ]

  /** The largest offset magnitude of any catalog shape; rotation keeps offsets within it. */
  const MaxOffset: int := 3

  predicate ShapeBounded(shape: Shape) {
    forall k :: 0 <= k < |shape| ==>
      -MaxOffset <= shape[k].dr <= MaxOffset && -MaxOffset <= shape[k].ds <= MaxOffset
  }

  /** What holds of every piece the game creates or moves: a wrapped anchor segment and bounded offsets. */
  predicate ValidPiece(p: Piece) {
    0 <= p.segment < SegmentsPerRing && ShapeBounded(p.shape)
  }

  /** No offset occurs twice in a shape. */
  predicate DistinctOffsets(shape: Shape) {
    forall k, l :: 0 <= k < l < |shape| ==> shape[k] != shape[l]
  }

  /**
   The two `Math.random` draws of `createPiece`, injected: `kind` indexes the
   catalog and `entry` picks one of the four entry directions.
   */
  datatype SpawnChoice = SpawnChoice(kind: int, entry: int)

  /** `Math.floor(Math.random() * k)` lies in [0, k). */
  predicate ValidChoice(c: SpawnChoice) {
    0 <= c.kind < |Catalog| && 0 <= c.entry < 4
  }

  /** The `switch (entryDirection)` of `createPiece`. */
  function EntrySegment(entry: int): (seg: int)
    requires 0 <= entry < 4
    ensures seg == entry * (SegmentsPerRing / 4)
    ensures 0 <= seg < SegmentsPerRing
  {
    if entry == 0 then 0
    else if entry == 1 then SegmentsPerRing / 4
    else if entry == 2 then SegmentsPerRing / 2
    else 3 * SegmentsPerRing / 4
  }

  /** `createPiece`: the chosen template at ring 0 and one of the four cardinal segments. */
  function CreatePiece(c: SpawnChoice): (p: Piece)
    requires ValidChoice(c)
    ensures p.ring == 0
    ensures p.segment == c.entry * (SegmentsPerRing / 4)
    ensures p.segment in {0, 8, 16, 24}
    ensures p.shape == Catalog[c.kind].shape && p.color == Catalog[c.kind].color
    ensures ValidPiece(p) && |p.shape| == 4 && DistinctOffsets(p.shape)
    ensures forall k :: 0 <= k < |p.shape| ==> 0 <= p.shape[k].dr <= 1 && 0 <= p.shape[k].ds
  {
    var t := Catalog[c.kind];
    CatalogShape(c.kind);
    Piece(t.shape, t.color, 0, EntrySegment(c.entry))
  }

  /** Every catalog shape has four distinct offsets, each in the first two rings and at most `MaxOffset` segments along. */
  lemma CatalogShape(kind: int)
    requires 0 <= kind < |Catalog|
    ensures var shape := Catalog[kind].shape;
      && |shape| == 4 && DistinctOffsets(shape) && ShapeBounded(shape)
      && forall k :: 0 <= k < |shape| ==> 0 <= shape[k].dr <= 1 && 0 <= shape[k].ds
  {
    var shape := Catalog[kind].shape;
    assert shape[0] == Offset(0, 0) && shape[1] == Offset(0, 1);
  }

  /** The map `[r, s] -> [-s, r]` of `rotatePiece`. */
  function RotateOffset(o: Offset): (rotated: Offset) {
    Offset(-o.ds, o.dr)
  }

  /** `currentPiece.shape.map(...)`: every offset rotated, in the same order. */
  function RotateShape(shape: Shape): (r: Shape)
    ensures |r| == |shape|
    ensures forall k :: 0 <= k < |shape| ==> r[k] == RotateOffset(shape[k])
  {
    seq(|shape|, k requires 0 <= k < |shape| => RotateOffset(shape[k]))
  }

  /** Rotating twice negates every offset. */
  lemma RotateTwiceNegates(shape: Shape)
    ensures |RotateShape(RotateShape(shape))| == |shape|
    ensures forall k :: 0 <= k < |shape| ==>
      RotateShape(RotateShape(shape))[k] == Offset(-shape[k].dr, -shape[k].ds)
  {
  }

  /** Four rotations give back the original shape. */
  lemma RotateFourTimes(shape: Shape)
    ensures RotateShape(RotateShape(RotateShape(RotateShape(shape)))) == shape
  {
    RotateTwiceNegates(shape);
    RotateTwiceNegates(RotateShape(RotateShape(shape)));
  }

  /** Rotation keeps offsets bounded and distinct. */
  lemma RotatePreservesShape(shape: Shape)
    ensures ShapeBounded(shape) ==> ShapeBounded(RotateShape(shape))
    ensures DistinctOffsets(shape) ==> DistinctOffsets(RotateShape(shape))
  {
  }

}

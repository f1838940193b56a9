/**
 Collision detection (`checkCollision`) and the cell writes of `placePiece`.
 The ring axis is hard-bounded; the segment axis wraps with JavaScript's `%`.
 */
module Collision {
  import opened Wrappers
  import opened Coords
  import opened Grid
  import opened Pieces

  /**
   The test applied to one shape cell: its ring is off the board, or the cell
   read at its segment is not `null`. An index outside the row reads as
   `undefined`, which is not `null` either.
   */
  predicate Blocked(b: Board, ring: int, seg: int)
    requires WellFormed(b)
  {
    ring < 0 || ring >= GridRings || seg < 0 || seg >= |b[ring]| || b[ring][seg].Some?
  }

  /** The `shape.some(...)` of `checkCollision`, for an anchor already moved by the offsets. */
  function ShapeCollides(b: Board, shape: Shape, ring: int, seg: int): (r: bool)
    requires WellFormed(b)
    decreases |shape|
  {
    if shape == [] then false
    else Blocked(b, ring + shape[0].dr, WrapSegment(seg + shape[0].ds)) || ShapeCollides(b, shape[1..], ring, seg)
  }

  /** The shape collides exactly when some cell of it is blocked. */
  lemma {:induction false} ShapeCollidesIff(b: Board, shape: Shape, ring: int, seg: int)
    requires WellFormed(b)
    ensures ShapeCollides(b, shape, ring, seg) <==>
      exists k :: 0 <= k < |shape| && Blocked(b, ring + shape[k].dr, WrapSegment(seg + shape[k].ds))
    decreases |shape|
  {
    if shape != [] {
      var tail := shape[1..];
      ShapeCollidesIff(b, tail, ring, seg);
      if ShapeCollides(b, tail, ring, seg) {
        var k :| 0 <= k < |tail| && Blocked(b, ring + tail[k].dr, WrapSegment(seg + tail[k].ds));
        assert tail[k] == shape[k + 1];
      } else if !Blocked(b, ring + shape[0].dr, WrapSegment(seg + shape[0].ds)) {
        forall k | 0 <= k < |shape|
          ensures !Blocked(b, ring + shape[k].dr, WrapSegment(seg + shape[k].ds))
        {
          if k > 0 {
            assert shape[k] == tail[k - 1];
          }
        }
      }
    }
  }

  /** `checkCollision(piece, ringOffset, segmentOffset)`. */
  function Collides(b: Board, p: Piece, dr: int, ds: int): (r: bool)
    requires WellFormed(b)
  {
    ShapeCollides(b, p.shape, p.ring + dr, p.segment + ds)
  }

  /**
   For a valid piece and a segment offset of at most one, every wrapped
   segment lies on the board, and the piece collides exactly when some shape
   cell is off the ring axis or lands on an occupied cell at the residue of
   its segment.
   */
  lemma CollidesIffHit(b: Board, p: Piece, dr: int, ds: int)
    requires WellFormed(b) && ValidPiece(p) && -1 <= ds <= 1
    ensures forall k :: 0 <= k < |p.shape| ==> 0 <= WrapSegment(p.segment + ds + p.shape[k].ds) < SegmentsPerRing
    ensures Collides(b, p, dr, ds) <==>
      exists k :: 0 <= k < |p.shape| &&
        var i := p.ring + dr + p.shape[k].dr;
        i < 0 || i >= GridRings || b[i][(p.segment + ds + p.shape[k].ds) % SegmentsPerRing].Some?
  {
    ShapeCollidesIff(b, p.shape, p.ring + dr, p.segment + ds);
  }

  /**
   Testing a piece at segment offset `ds` is the same as testing, at offset
   zero, the piece whose anchor has been moved by `dr` rings and wrapped by `ds` segments.
   */
  lemma CollidesAtMovedAnchor(b: Board, p: Piece, dr: int, ds: int)
    requires WellFormed(b) && ValidPiece(p) && -1 <= ds <= 1
    ensures Collides(b, p, dr, ds) == Collides(b, p.(ring := p.ring + dr, segment := (p.segment + ds) % SegmentsPerRing), 0, 0)
  {
    var ring, seg := p.ring + dr, p.segment + ds;
    AnchorsBlockAlike(b, p.shape, ring, seg);
    SameBlockedSameCollision(b, p.shape, ring, seg, ring + 0, seg % SegmentsPerRing + 0);
  }

  /** Every cell of a shape is blocked alike whether the anchor segment is reduced or not. */
  lemma AnchorsBlockAlike(b: Board, shape: Shape, ring: int, seg: int)
    requires WellFormed(b) && ShapeBounded(shape) && -1 <= seg <= SegmentsPerRing
    ensures forall k :: 0 <= k < |shape| ==>
      Blocked(b, ring + shape[k].dr, WrapSegment(seg + shape[k].ds))
        == Blocked(b, ring + 0 + shape[k].dr, WrapSegment(seg % SegmentsPerRing + 0 + shape[k].ds))
  {
    forall k | 0 <= k < |shape|
      ensures WrapSegment(seg + shape[k].ds) == WrapSegment(seg % SegmentsPerRing + 0 + shape[k].ds)
    {
      ReducedAnchorWraps(seg, shape[k].ds);
    }
  }

  /** A slightly negative or slightly overflowing anchor wraps like its residue. */
  lemma ReducedAnchorWraps(seg: int, d: int)
    requires -1 <= seg <= SegmentsPerRing && -MaxOffset <= d <= MaxOffset
    ensures WrapSegment(seg + d) == WrapSegment(seg % SegmentsPerRing + 0 + d)
  {
    ModAddCongruent(seg, d);
    WrapCongruent(seg + d, seg % SegmentsPerRing + 0 + d);
  }

  /** Two anchors whose shape cells are blocked alike collide alike. */
  lemma {:induction false} SameBlockedSameCollision(b: Board, shape: Shape, ring: int, seg: int, ring': int, seg': int)
    requires WellFormed(b)
    requires forall k :: 0 <= k < |shape| ==>
      Blocked(b, ring + shape[k].dr, WrapSegment(seg + shape[k].ds)) == Blocked(b, ring' + shape[k].dr, WrapSegment(seg' + shape[k].ds))
    ensures ShapeCollides(b, shape, ring, seg) == ShapeCollides(b, shape, ring', seg')
    decreases |shape|
  {
    if shape != [] {
      assert forall k :: 0 <= k < |shape[1..]| ==> shape[1..][k] == shape[k + 1];
      SameBlockedSameCollision(b, shape[1..], ring, seg, ring', seg');
    }
  }

  /** One write of the `forEach` in `placePiece`; only in-range indices change the row's cells. */
  function WriteCell(b: Board, ring: int, seg: int, color: Color): (r: Board)
    requires WellFormed(b)
    ensures WellFormed(r)
  {
    if 0 <= ring < GridRings && 0 <= seg < SegmentsPerRing then b[ring := b[ring][seg := Some(color)]] else b
  }

  /** The `shape.forEach(...)` of `placePiece`: writes the colour at each shape cell, first offset first. */
  function WriteShape(b: Board, shape: Shape, ring: int, seg: int, color: Color): (r: Board)
    requires WellFormed(b)
    ensures WellFormed(r)
    decreases |shape|
  {
    if shape == [] then b
    else WriteShape(WriteCell(b, ring + shape[0].dr, WrapSegment(seg + shape[0].ds), color), shape[1..], ring, seg, color)
  }

  function WritePiece(b: Board, p: Piece): (r: Board)
    requires WellFormed(b)
    ensures WellFormed(r)
  {
    WriteShape(b, p.shape, p.ring, p.segment, p.color)
  }

  /** The board cells a shape covers: in-range rings, segments reduced modulo the ring size. */
  ghost function Footprint(shape: Shape, ring: int, seg: int): set<(int, int)> {
    set k | 0 <= k < |shape| && 0 <= ring + shape[k].dr < GridRings :: (ring + shape[k].dr, (seg + shape[k].ds) % SegmentsPerRing)
  }

  lemma FootprintCons(shape: Shape, ring: int, seg: int)
    requires shape != []
    ensures Footprint(shape, ring, seg) ==
      Footprint(shape[1..], ring, seg) +
      (if 0 <= ring + shape[0].dr < GridRings then {(ring + shape[0].dr, (seg + shape[0].ds) % SegmentsPerRing)} else {})
  {
    var rest := shape[1..];
    forall x | x in Footprint(rest, ring, seg)
      ensures x in Footprint(shape, ring, seg)
    {
      var k :| 0 <= k < |rest| && 0 <= ring + rest[k].dr < GridRings && x == (ring + rest[k].dr, (seg + rest[k].ds) % SegmentsPerRing);
      assert rest[k] == shape[k + 1];
    }
    forall x | x in Footprint(shape, ring, seg)
      ensures x in Footprint(rest, ring, seg) || (0 <= ring + shape[0].dr < GridRings && x == (ring + shape[0].dr, (seg + shape[0].ds) % SegmentsPerRing))
    {
      var k :| 0 <= k < |shape| && 0 <= ring + shape[k].dr < GridRings && x == (ring + shape[k].dr, (seg + shape[k].ds) % SegmentsPerRing);
      if k > 0 {
        assert shape[k] == rest[k - 1];
      }
    }
  }

  /**
   Placement writes the colour into exactly the footprint of the shape and
   leaves every other cell as it was.
   */
  lemma {:induction false} WriteShapeCells(b: Board, shape: Shape, ring: int, seg: int, color: Color)
    requires WellFormed(b) && ShapeBounded(shape) && 0 <= seg < SegmentsPerRing
    ensures forall i, j :: 0 <= i < GridRings && 0 <= j < SegmentsPerRing ==>
      WriteShape(b, shape, ring, seg, color)[i][j] ==
        if (i, j) in Footprint(shape, ring, seg) then Some(color) else b[i][j]
    decreases |shape|
  {
    if shape != [] {
      var b1 := WriteCell(b, ring + shape[0].dr, WrapSegment(seg + shape[0].ds), color);
      assert ShapeBounded(shape[1..]) by {
        forall k | 0 <= k < |shape[1..]| ensures shape[1..][k] == shape[k + 1] { }
      }
      WriteShapeCells(b1, shape[1..], ring, seg, color);
      FootprintCons(shape, ring, seg);
    }
  }

  /**
   Placing a piece that does not collide covers every cell of its shape, each
   of which was empty and now holds the piece's colour.
   */
  lemma PlaceOnFreeCells(b: Board, p: Piece)
    requires WellFormed(b) && ValidPiece(p) && !Collides(b, p, 0, 0)
    ensures forall k :: 0 <= k < |p.shape| ==>
      var i := p.ring + p.shape[k].dr;
      var j := (p.segment + p.shape[k].ds) % SegmentsPerRing;
      0 <= i < GridRings && b[i][j] == None && WritePiece(b, p)[i][j] == Some(p.color)
  {
    WriteShapeCells(b, p.shape, p.ring, p.segment, p.color);
    forall k | 0 <= k < |p.shape|
      ensures FreeCell(b, p.ring + p.shape[k].dr, (p.segment + p.shape[k].ds) % SegmentsPerRing)
      ensures (p.ring + p.shape[k].dr, (p.segment + p.shape[k].ds) % SegmentsPerRing) in Footprint(p.shape, p.ring, p.segment)
    {
      ShapeCellFree(b, p, k);
    }
  }

  predicate FreeCell(b: Board, i: int, j: int)
    requires WellFormed(b)
  {
    0 <= i < GridRings && 0 <= j < SegmentsPerRing && b[i][j] == None
  }

  /** Each cell of a piece that does not collide is a free board cell in its footprint. */
  lemma ShapeCellFree(b: Board, p: Piece, k: int)
    requires WellFormed(b) && ValidPiece(p) && !Collides(b, p, 0, 0) && 0 <= k < |p.shape|
    ensures FreeCell(b, p.ring + p.shape[k].dr, (p.segment + p.shape[k].ds) % SegmentsPerRing)
    ensures (p.ring + p.shape[k].dr, (p.segment + p.shape[k].ds) % SegmentsPerRing) in Footprint(p.shape, p.ring, p.segment)
  {
    ShapeCollidesIff(b, p.shape, p.ring + 0, p.segment + 0);
    assert !Blocked(b, p.ring + 0 + p.shape[k].dr, WrapSegment(p.segment + 0 + p.shape[k].ds));
  }

}

# Radial tetris engine in Dafny

A model of the simulation engine of a browser game in which tetromino-like
pieces fall inward across a donut-shaped board. The model covers:

- the board (`GridRings` = floor((240 - 80) / 20) = 8 rings of
  `SegmentsPerRing` = 32 cells, each empty or holding a colour token);
- the piece catalog and `createPiece`;
- `checkCollision`;
- the moves: the ArrowLeft/ArrowRight shifts of the key handler,
  `movePieceIn` and `rotatePiece`;
- `placePiece` with its danger-ring check;
- the ring-clearing pass `checkLines`.

Everything is pure: the board is `seq<seq<Option<Color>>>`, and every
operation maps a `Game` (board, optional current piece, score) to a new one.

Modules, one per concern of `game.js`:

| module | contents |
|---|---|
| `Wrappers` | `Option` |
| `Coords` | the constants, and JavaScript's truncating `%` (`JsRem`) with the segment wrap `(x + 32) % 32` (`WrapSegment`) |
| `Grid` | boards, `initializeGrid`, the full-ring test and `checkOuterRingViolation` |
| `Pieces` | offsets, shapes, pieces, the `PIECES` catalog, `createPiece` and the rotation map `(r, s) -> (-s, r)` |
| `Collision` | `checkCollision` and the cell writes of `placePiece` |
| `Lines` | `checkLines` as the ascending pass the code runs (`CheckLinesFrom`, `ClearRing`, `ShiftOut`), related to a direct description of its outcome (`Compacted`) |
| `Engine` | the game state, the moves, `placePiece`, the key handler, and runs of events |

How the JavaScript semantics are modelled:

- **JavaScript `%`.** `%` takes the sign of the dividend. `JsRem` models it
  exactly, and `WrapSegment` applies it to `x + 32`. The wrap agrees with the
  mathematical residue whenever `x >= -32`; below that it is never positive. Every shape offset stays within
  [-3, 3], even after rotation, and shifts add at most one segment, so the
  game only ever wraps in that range.
- **Out-of-range reads.** Reading a cell at a negative segment gives
  `undefined`, which is `!== null`, so `Blocked` treats it as occupied.
- **Out-of-range writes.** A write at a negative index creates a property
  outside the array and changes no cell, so `WriteCell` skips it.
- **Game over.** The code has no game-over status. `gameOver()` only draws
  and cancels the frame loop, and `currentPiece` is never reset to `null`.
  Keys therefore keep acting after a game over, and the Space restart branch
  cannot be reached once `init` has run (`RestartUnreachable`). A `Step`
  records whether `gameOver()` ran during the step. This flag is an addition
  of the model, and nothing in the engine reads it.
- **The danger ring is ring 1.** The game-over check after placement reads
  ring `OUTER_RING_THRESHOLD` = 1, not the outermost ring 0. The model
  follows the code.
- **Numbers.** JavaScript numbers are doubles; the model uses unbounded
  integers for rings, segments and the score. This is exact here, since every
  such value is a small integer far below 2^53 (the score grows by 100 per
  cleared ring).
- **Randomness.** The two `Math.random` draws of `createPiece` are a
  `SpawnChoice` argument: a catalog index in [0, 5) and an entry direction
  in [0, 4).

## Model

| member | source | states |
|---|---|---|
| Coords.JsRem | game.js:183 | JavaScript's `%` by 32: the result lies strictly between -32 and 32, has the sign of the dividend, differs from it by a multiple of 32, and equals the Euclidean residue on non-negative dividends |
| Coords.WrapSegment | game.js:183 | `(x + 32) % 32` lies strictly between -32 and 32, lands in [0, 32) and equals `x mod 32` whenever `x >= -32`; below that it is never positive |
| Grid.OuterRingViolation | game.js:175-177 | `checkOuterRingViolation`: some cell of ring 1 is not `null`; its contract is `Grid.OuterRingViolationIff` |
| Grid.OuterRingViolationIff | game.js:175-177 | ring 1 holds an occupied cell if and only if it differs from an empty ring |
| Grid.InitializeGrid | game.js:27-32 | a fresh board has 8 rings of 32 cells, all empty |
| Pieces.CatalogShape | game.js:35-46 | every catalog shape has four distinct offsets, each on ring offset 0 or 1 and a non-negative segment offset of at most 3 |
| Pieces.EntrySegment | game.js:68-81 | the four-way `switch` on the entry direction yields segment `entry * 8`, which lies in [0, 32) |
| Pieces.CreatePiece | game.js:59-89 | a spawned piece sits on ring 0 at segment `entry * 8`, one of 0, 8, 16, 24; it carries the chosen template's shape and colour, and its shape has four distinct bounded offsets |
| Pieces.RotateShape | game.js:206-208 | rotation keeps the length and maps each offset `(r, s)` to `(-s, r)` in place |
| Pieces.RotateFourTimes | game.js:206-208 | applying the rotation map four times gives back the original shape |
| Pieces.RotatePreservesShape | game.js:206-208 | rotation keeps offsets within [-3, 3] and keeps them pairwise distinct |
| Collision.Collides | game.js:180-187 | `checkCollision(piece, ringOffset, segmentOffset)`; its meaning is stated by `Collision.ShapeCollidesIff`, `Collision.CollidesIffHit` and `Collision.CollidesAtMovedAnchor` |
| Collision.ShapeCollidesIff | game.js:180-187 | the `some` over the shape is true exactly when some shape cell is off the ring axis or reads a non-null (or undefined) cell at its wrapped segment |
| Collision.CollidesIffHit | game.js:180-187 | for a valid piece and a segment offset in [-1, 1], every wrapped segment is on the board, and the piece collides exactly when some cell's ring is outside [0, 8) or the cell at the residue of its segment is occupied |
| Collision.CollidesAtMovedAnchor | game.js:180-187 | testing with offsets `(dr, ds)` gives the same answer as testing, with no offset, the piece moved by `dr` rings and wrapped by `ds` segments |
| Collision.WritePiece | game.js:224-230 | the `forEach` writes of `placePiece` keep the board 8 rings by 32 cells; which cells change is stated by `Collision.WriteShapeCells` |
| Collision.WriteShapeCells | game.js:224-230 | the placement writes put the colour into exactly the on-board footprint of the shape and leave every other cell unchanged |
| Collision.PlaceOnFreeCells | game.js:224-230 | when the piece does not collide, each of its cells is on the board, was empty, and holds the piece's colour after placement |
| Lines.ShiftOut | game.js:256-258 | after the downward copy loop from `r` to 0, element 0 is unchanged, elements 1..r+1 hold the old elements 0..r, and the elements above `r + 1` are unchanged |
| Lines.ClearRing | game.js:250-259 | clearing ring `k` gives an empty ring 0, then the old rings 0..k-1, then the old rings above `k`; the dimensions are kept |
| Lines.RewardsCount | game.js:253 | the summed rewards are 100 times the number of full rings |
| Lines.LoweredCompacts | game.js:250-259 | removing one full ring this way, when no ring before it is full, leaves the compacted outcome unchanged and takes one reward of 100 |
| Lines.PassFrom | game.js:248-262 | once the pass reaches ring `k` with no full ring before it, the rest of the pass yields the compacted board and adds 100 per remaining full ring |
| Lines.CheckLinesFrom | game.js:249-261 | the rest of the ascending pass from a given ring keeps the board 8 by 32; its outcome is stated by `Lines.PassFrom` |
| Lines.CheckLines | game.js:248-262 | `checkLines` keeps the board 8 by 32; its exact outcome is stated by `Lines.CheckLinesOutcome` |
| Lines.CheckLinesOutcome | game.js:248-262 | `checkLines` leaves one empty ring per full ring followed by the non-full rings in their original order, and adds exactly 100 per full ring |
| Lines.CheckLinesLeavesNoFullRing | game.js:248-262 | after the single ascending pass no ring is full and the board keeps its dimensions |
| Lines.CheckLinesIdle | game.js:248-262 | board and score are unchanged if and only if no ring is full |
| Lines.CheckLinesKeepsInnerRings | game.js:248-262 | rings at indices above every full ring keep their contents |
| Lines.SingleFullRingClears | game.js:248-262 | a board whose only occupied ring is one full ring becomes empty, for a score of 100 |
| Engine.Init | game.js:292-295 | `init` gives an empty board, a zero score and a freshly spawned piece that does not collide |
| Engine.ShiftLeft | game.js:313-317 | ArrowLeft changes only the segment; it commits only when the shifted piece does not collide, and the new segment is `(segment - 1) mod 32`, still in [0, 32) |
| Engine.ShiftRight | game.js:318-322 | ArrowRight changes only the segment; it commits only when the shifted piece does not collide, and the new segment is `(segment + 1) mod 32`, still in [0, 32) |
| Engine.ShiftKeepsPlaying | game.js:313-322 | a shift either way keeps a non-colliding piece non-colliding |
| Engine.RotatePiece | game.js:203-218 | the rotated shape is adopted if and only if the rotated piece does not collide; position and colour are kept, and a non-colliding piece stays non-colliding |
| Engine.MovePieceIn | game.js:190-200 | `movePieceIn` keeps the board 8 by 32; its return value and step are stated by `Engine.MovePieceInOutcome` |
| Engine.MovePieceInOutcome | game.js:190-200 | `movePieceIn` returns true exactly when ring + 1 is free, and then only the ring grows and the piece still does not collide; otherwise it places the piece and returns false |
| Engine.PlacePiece | game.js:221-245 | placement keeps the board's dimensions |
| Engine.PlacePieceOutcome | game.js:221-245 | the game ends if and only if ring 1 holds a cell right after the writes, or the newly spawned piece collides with the cleared board; in the first case nothing is cleared, spawned or scored; otherwise the board is the compacted one, the score grows by 100 per full ring and the piece is the spawned one |
| Engine.PlacePieceKeepsSound | game.js:221-245 | placement keeps the state well formed and the score from falling; unless the game ended, the new piece does not collide |
| Engine.HandleKey | game.js:304-330 | the keydown handler keeps the board 8 by 32; what each key does is stated by `Engine.ShiftLeft`, `Engine.ShiftRight`, `Engine.RotatePiece`, `Engine.MovePieceInOutcome` and `Engine.RestartUnreachable` |
| Engine.HandleEvent | game.js:282-285 | a tick of the frame loop runs `movePieceIn` and a key press runs the handler; either keeps the board 8 by 32, and `Engine.EventKeepsInvariant` states the invariant they keep |
| Engine.EventKeepsInvariant | game.js:304-330 | every key or tick keeps the state well formed and the score from falling, keeps a non-colliding piece non-colliding unless `gameOver()` ran, and only ArrowDown or a tick can end the game |
| Engine.RestartUnreachable | game.js:305-309 | once a piece exists, Space does nothing, so the restart branch is dead after `init` |
| Engine.RunFromInit | game.js:292-330 | from `init`, any sequence of keys and ticks keeps the board 8 by 32 and the piece valid, and the piece never collides as long as `gameOver()` has not run |

## Left out

- Rendering is not modelled: `drawCell`, `drawBoard` and the game-over overlay (game.js:92-172, 269-277) only draw on the canvas.
- `polarToCartesian` (game.js:49-56) is floating-point geometry used only for drawing.
- Scheduling is not modelled. This covers `update`, the timing part of `init`, `requestAnimationFrame`, `cancelAnimationFrame` and `performance.now` (game.js:281-301). A run is any sequence of key presses and ticks, so the model admits every order the browser could produce. That includes the ticks that continue after a game over raised inside `update`, because `update` requests the next frame after `movePieceIn` returns.
- `Math.random` is replaced by the `SpawnChoice` argument (game.js:60-61).
- The DOM wiring is replaced by the `Key` and `Event` datatypes: the canvas lookup and `addEventListener` (game.js:1-6, 304). Keys other than the four arrows and Space are `OtherKey`.
- Collision.CollidesIffHit: stated only for valid pieces and segment offsets in [-1, 1], the only ones the game passes. For every input, `ShapeCollidesIff` characterises collision in terms of the wrapped segment.
- The frame-loop handle `gameLoop` and `lastMoveTime` are not part of the state, since they only drive scheduling.

/**
 The simulation engine: the game state, the moves a player or the timer can
 make, the placement protocol and the key handler.

 The engine keeps no game-over status. `gameOver()` only cancels the frame
 loop and draws an overlay, and the current piece is never reset to `null`,
 so keys keep acting afterwards. A `Step` records whether `gameOver()` ran during the step; the
 flag is an addition of this model and nothing in the engine reads it.
 */
module Engine {
  import opened Wrappers
  import opened Coords
  import opened Grid
  import opened Lines
  import opened Pieces
  import opened Collision

  datatype Game = Game(board: Board, piece: Option<Piece>, score: int)

  datatype Step = Step(game: Game, gameOver: bool)

  /** The result of `movePieceIn`: the step, and its return value (`None` for `undefined`). */
  datatype MoveIn = MoveIn(step: Step, moved: Option<bool>)

  /** The keys the `keydown` handler tells apart. */
  datatype Key = ArrowLeft | ArrowRight | ArrowDown | ArrowUp | Space | OtherKey

  /** What drives the engine: a key press, or a timer tick of the frame loop. */
  datatype Event = KeyDown(key: Key) | Tick

  /** What every state after `init` satisfies, game over or not. */
  predicate Sound(g: Game) {
    WellFormed(g.board) && g.piece.Some? && ValidPiece(g.piece.value) && g.score >= 0
  }

  /** A sound state whose current piece does not collide with the board. */
  predicate Playing(g: Game) {
    Sound(g) && !Collides(g.board, g.piece.value, 0, 0)
  }

  /** `init`: an empty board, a freshly spawned piece and a zero score. */
  function Init(c: SpawnChoice): (g: Game)
    requires ValidChoice(c)
    ensures Playing(g) && g.score == 0
    ensures forall i, j :: 0 <= i < GridRings && 0 <= j < SegmentsPerRing ==> g.board[i][j] == None
    ensures g.piece == Some(CreatePiece(c))
  {
    var b := InitializeGrid();
    var p := CreatePiece(c);
    ShapeCollidesIff(b, p.shape, p.ring + 0, p.segment + 0);
    assert forall k :: 0 <= k < |p.shape| ==> !Blocked(b, p.ring + p.shape[k].dr, WrapSegment(p.segment + p.shape[k].ds));
    Game(b, Some(p), 0)
  }

  /** The `ArrowLeft` branch: move one segment back if that spot is free. */
  function ShiftLeft(b: Board, p: Piece): (q: Piece)
    requires WellFormed(b)
    ensures q.shape == p.shape && q.color == p.color && q.ring == p.ring
    ensures Collides(b, p, 0, -1) ==> q == p
    ensures ValidPiece(p) ==> ValidPiece(q)
    ensures ValidPiece(p) && !Collides(b, p, 0, -1) ==> q != p && q.segment == (p.segment - 1) % SegmentsPerRing
  {
    if !Collides(b, p, 0, -1) then p.(segment := JsRem(p.segment - 1 + SegmentsPerRing)) else p
  }

  /** The `ArrowRight` branch: move one segment forward if that spot is free. */
  function ShiftRight(b: Board, p: Piece): (q: Piece)
    requires WellFormed(b)
    ensures q.shape == p.shape && q.color == p.color && q.ring == p.ring
    ensures Collides(b, p, 0, 1) ==> q == p
    ensures ValidPiece(p) ==> ValidPiece(q)
    ensures ValidPiece(p) && !Collides(b, p, 0, 1) ==> q != p && q.segment == (p.segment + 1) % SegmentsPerRing
  {
    if !Collides(b, p, 0, 1) then p.(segment := JsRem(p.segment + 1)) else p
  }

  /** `rotatePiece`: adopt the rotated shape if the rotated piece does not collide. */
  function RotatePiece(b: Board, p: Piece): (q: Piece)
    requires WellFormed(b)
    ensures q.segment == p.segment && q.ring == p.ring && q.color == p.color
    ensures Collides(b, p.(shape := RotateShape(p.shape)), 0, 0) ==> q == p
    ensures !Collides(b, p.(shape := RotateShape(p.shape)), 0, 0) ==> q.shape == RotateShape(p.shape)
    ensures !Collides(b, p, 0, 0) ==> !Collides(b, q, 0, 0)
    ensures ValidPiece(p) ==> ValidPiece(q)
  {
    RotatePreservesShape(p.shape);
    var candidate := p.(shape := RotateShape(p.shape));
    if !Collides(b, candidate, 0, 0) then candidate else p
  }

  /**
   `placePiece`: write the piece's cells, end the game if the danger ring is
   occupied (no clearing, no spawn), otherwise clear rings, spawn the next
   piece and end the game if that piece collides.
   */
  function PlacePiece(g: Game, c: SpawnChoice): (s: Step)
    requires WellFormed(g.board) && ValidChoice(c)
    ensures WellFormed(s.game.board)
  {
    match g.piece
    case None => Step(g, false)
    case Some(p) =>
      var written := WritePiece(g.board, p);
      if OuterRingViolation(written) then Step(g.(board := written), true)
      else
        var cleared := CheckLines(written, g.score);
        var next := CreatePiece(c);
        Step(Game(cleared.board, Some(next), cleared.score), Collides(cleared.board, next, 0, 0))
  }

  /** `movePieceIn`: one ring inward if free, otherwise place the piece. */
  function MovePieceIn(g: Game, c: SpawnChoice): (m: MoveIn)
    requires WellFormed(g.board) && ValidChoice(c)
    ensures WellFormed(m.step.game.board)
  {
    match g.piece
    case None => MoveIn(Step(g, false), None)
    case Some(p) =>
      if !Collides(g.board, p, 1, 0) then MoveIn(Step(g.(piece := Some(p.(ring := p.ring + 1))), false), Some(true))
      else MoveIn(PlacePiece(g, c), Some(false))
  }

  /**
   The `keydown` handler. With no current piece only Space acts, restarting
   the game; otherwise the arrow keys shift, move in or rotate.
   */
  function HandleKey(g: Game, key: Key, c: SpawnChoice): (s: Step)
    requires WellFormed(g.board) && ValidChoice(c)
    ensures WellFormed(s.game.board)
  {
    match g.piece
    case None => if key == Space then Step(Init(c), false) else Step(g, false)
    case Some(p) =>
      match key
      case ArrowLeft => Step(g.(piece := Some(ShiftLeft(g.board, p))), false)
      case ArrowRight => Step(g.(piece := Some(ShiftRight(g.board, p))), false)
      case ArrowDown => MovePieceIn(g, c).step
      case ArrowUp => Step(g.(piece := Some(RotatePiece(g.board, p))), false)
      case _ => Step(g, false)
  }

  /** One event: a key press goes to the handler, a timer tick calls `movePieceIn`. */
  function HandleEvent(g: Game, e: Event, c: SpawnChoice): (s: Step)
    requires WellFormed(g.board) && ValidChoice(c)
    ensures WellFormed(s.game.board)
  {
    match e
    case KeyDown(key) => HandleKey(g, key, c)
    case Tick => MovePieceIn(g, c).step
  }

  /** A shift either way keeps a non-colliding piece non-colliding. */
  lemma ShiftKeepsPlaying(b: Board, p: Piece, ds: int)
    requires WellFormed(b) && ValidPiece(p) && !Collides(b, p, 0, 0) && (ds == -1 || ds == 1)
    ensures !Collides(b, if ds == -1 then ShiftLeft(b, p) else ShiftRight(b, p), 0, 0)
  {
    var q := if ds == -1 then ShiftLeft(b, p) else ShiftRight(b, p);
    if !Collides(b, p, 0, ds) {
      CollidesAtMovedAnchor(b, p, 0, ds);
      assert q == p.(ring := p.ring + 0, segment := (p.segment + ds) % SegmentsPerRing);
    }
  }

  /**
   `movePieceIn` on a sound state returns true exactly when the piece can
   move one ring inward; then only the ring changes and the moved piece does
   not collide. Otherwise the step is the placement.
   */
  lemma MovePieceInOutcome(g: Game, c: SpawnChoice)
    requires Sound(g) && ValidChoice(c)
    ensures var p := g.piece.value; var m := MovePieceIn(g, c);
      && m.moved == Some(!Collides(g.board, p, 1, 0))
      && (m.moved == Some(true) ==>
            && m.step.game == g.(piece := Some(p.(ring := p.ring + 1)))
            && !m.step.gameOver
            && Playing(m.step.game))
      && (m.moved == Some(false) ==> m.step == PlacePiece(g, c))
  {
    var p := g.piece.value;
    CollidesAtMovedAnchor(g.board, p, 1, 0);
    assert p.(ring := p.ring + 1, segment := (p.segment + 0) % SegmentsPerRing) == p.(ring := p.ring + 1);
  }

  /**
   The placement protocol. The danger-ring test reads the board right after
   the writes and, when it fires, leaves that board unchanged even if it has
   full rings. Otherwise the board is compacted, the score grows by
   `LineReward` per full ring, a piece is spawned, and the game ends exactly
   when that piece collides.
   */
  lemma PlacePieceOutcome(g: Game, c: SpawnChoice)
    requires WellFormed(g.board) && g.piece.Some? && ValidChoice(c)
    ensures var w := WritePiece(g.board, g.piece.value); var s := PlacePiece(g, c);
      && (s.gameOver <==> OuterRingViolation(w) || Collides(Compacted(w), CreatePiece(c), 0, 0))
      && (OuterRingViolation(w) ==> s.game == Game(w, g.piece, g.score))
      && (!OuterRingViolation(w) ==>
            && s.game.board == Compacted(w)
            && s.game.score == g.score + LineReward * CountFull(w)
            && s.game.piece == Some(CreatePiece(c)))
  {
    var w := WritePiece(g.board, g.piece.value);
    CheckLinesOutcome(w, g.score);
  }

  /** Placement keeps the state sound, and the new piece free unless the game ended. */
  lemma PlacePieceKeepsSound(g: Game, c: SpawnChoice)
    requires Sound(g) && ValidChoice(c)
    ensures Sound(PlacePiece(g, c).game)
    ensures !PlacePiece(g, c).gameOver ==> Playing(PlacePiece(g, c).game)
    ensures PlacePiece(g, c).game.score >= g.score
  {
    PlacePieceOutcome(g, c);
  }

  /**
   Every event keeps the state sound and the score from falling; from a
   playing state, the next state is playing again unless `gameOver()` ran.
   Only placements (ArrowDown or a tick) can end the game.
   */
  lemma EventKeepsInvariant(g: Game, e: Event, c: SpawnChoice)
    requires Sound(g) && ValidChoice(c)
    ensures Sound(HandleEvent(g, e, c).game)
    ensures HandleEvent(g, e, c).game.score >= g.score
    ensures Playing(g) && !HandleEvent(g, e, c).gameOver ==> Playing(HandleEvent(g, e, c).game)
    ensures HandleEvent(g, e, c).gameOver ==> e == Tick || e == KeyDown(ArrowDown)
  {
    var p := g.piece.value;
    match e
    case Tick =>
      MovePieceInOutcome(g, c);
      PlacePieceKeepsSound(g, c);
    case KeyDown(ArrowDown) =>
      MovePieceInOutcome(g, c);
      PlacePieceKeepsSound(g, c);
    case KeyDown(ArrowLeft) =>
      if Playing(g) {
        ShiftKeepsPlaying(g.board, p, -1);
      }
    case KeyDown(ArrowRight) =>
      if Playing(g) {
        ShiftKeepsPlaying(g.board, p, 1);
      }
    case KeyDown(_) =>
  }

  /** After `init` the current piece is never `null`, so Space never restarts the game. */
  lemma RestartUnreachable(g: Game, c: SpawnChoice)
    requires Sound(g) && ValidChoice(c)
    ensures HandleKey(g, Space, c) == Step(g, false)
  {
  }

  /** A run of events, each with its own spawn choice; reports whether `gameOver()` ran at some step. */
  function Run(g: Game, events: seq<Event>, choices: seq<SpawnChoice>): (r: Step)
    requires WellFormed(g.board)
    requires |choices| == |events| && forall i :: 0 <= i < |choices| ==> ValidChoice(choices[i])
    ensures WellFormed(r.game.board)
    decreases |events|
  {
    if events == [] then Step(g, false)
    else
      var s := HandleEvent(g, events[0], choices[0]);
      var rest := Run(s.game, events[1..], choices[1..]);
      Step(rest.game, s.gameOver || rest.gameOver)
  }

  /**
   From `init`, every reachable state is sound, and until `gameOver()` first
   runs the current piece never collides with the board.
   */
  lemma {:induction false} RunKeepsInvariant(g: Game, events: seq<Event>, choices: seq<SpawnChoice>)
    requires Sound(g)
    requires |choices| == |events| && forall i :: 0 <= i < |choices| ==> ValidChoice(choices[i])
    ensures Sound(Run(g, events, choices).game)
    ensures Run(g, events, choices).game.score >= g.score
    ensures Playing(g) && !Run(g, events, choices).gameOver ==> Playing(Run(g, events, choices).game)
    decreases |events|
  {
    if events != [] {
      var s := HandleEvent(g, events[0], choices[0]);
      EventKeepsInvariant(g, events[0], choices[0]);
      RunKeepsInvariant(s.game, events[1..], choices[1..]);
    }
  }

  /** Any run from a fresh game: sound throughout, and non-colliding while no game over was signalled. */
  lemma RunFromInit(c: SpawnChoice, events: seq<Event>, choices: seq<SpawnChoice>)
    requires ValidChoice(c)
    requires |choices| == |events| && forall i :: 0 <= i < |choices| ==> ValidChoice(choices[i])
    ensures Sound(Run(Init(c), events, choices).game)
    ensures !Run(Init(c), events, choices).gameOver ==> Playing(Run(Init(c), events, choices).game)
  {
    RunKeepsInvariant(Init(c), events, choices);
  }

}

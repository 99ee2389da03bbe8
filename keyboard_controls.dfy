/** The state updates behind the keyboard actions, as one transition
    function `Step`, and the hard-drop loop. */
module KeyboardControls {
  import opened Types
  import opened Collision
  import opened LineClearing
  import opened Scoring
  import opened GameLogic

  datatype Action = MoveLeft | MoveRight | MoveDown | Rotate | HardDrop | Hold | Pause

  /** The key code bound to `action`. */
  function KeyOf(controls: Controls, action: Action): string
  {
    match action
    case MoveLeft => controls.moveLeft
    case MoveRight => controls.moveRight
    case MoveDown => controls.moveDown
    case Rotate => controls.rotate
    case HardDrop => controls.hardDrop
    case Hold => controls.hold
    case Pause => controls.pause
  }

  /** The position of `action` in the order the bindings are tried. */
  function Rank(action: Action): nat
  {
    match action
    case MoveLeft => 0
    case MoveRight => 1
    case MoveDown => 2
    case Rotate => 3
    case HardDrop => 4
    case Hold => 5
    case Pause => 6
  }

  /** The action for key `code`: the first binding, in the order above, that
      matches; none if no binding matches. */
  function ActionOf(controls: Controls, code: string): (a: Option<Action>)
    ensures a.None? ==> forall b: Action :: code != KeyOf(controls, b)
    ensures a.Some? ==> code == KeyOf(controls, a.value)
    ensures a.Some? ==> forall b: Action :: Rank(b) < Rank(a.value) ==> code != KeyOf(controls, b)
  {
    if code == controls.moveLeft then Some(MoveLeft)
    else if code == controls.moveRight then Some(MoveRight)
    else if code == controls.moveDown then Some(MoveDown)
    else if code == controls.rotate then Some(Rotate)
    else if code == controls.hardDrop then Some(HardDrop)
    else if code == controls.hold then Some(Hold)
    else if code == controls.pause then Some(Pause)
    else None
  }

  /** The state with the piece replaced by `candidate` if that is free, else
      the state unchanged. */
  function TryPiece(cat: Catalog, s: GameState, candidate: Tetromino): GameState
    requires |s.board| > 0
  {
    if !Collides(s.board, cat, candidate) then s.(currentPiece := Some(candidate)) else s
  }

  /** The state with the piece `k` rows lower. */
  function FallenBy(s: GameState, k: nat): (r: GameState)
    requires s.currentPiece.Some?
    ensures r.currentPiece.Some? && r.(currentPiece := s.currentPiece) == s
  {
    s.(currentPiece := Some(MoveTetromino(s.currentPiece.value, 0, k)))
  }

  /** What the fall of a hard drop needs: a nonempty board and a nonempty
      tile list (the fall loop would not end otherwise). */
  predicate FallReady(cat: Catalog, s: GameState)
  {
    s.currentPiece.Some? ==>
      |s.board| > 0 && cat(s.currentPiece.value.shape, s.currentPiece.value.rotation) != []
  }

  /** The state after the piece has fallen as far as it can. */
  function Landed(cat: Catalog, s: GameState): (r: GameState)
    requires FallReady(cat, s)
    ensures r.currentPiece.Some? <==> s.currentPiece.Some?
    ensures r.(currentPiece := s.currentPiece) == s
  {
    if s.currentPiece.None? then s
    else FallenBy(s, DropDistance(s.board, cat, s.currentPiece.value))
  }

  /** The rows the piece falls in a hard drop. */
  function RowsToLand(cat: Catalog, s: GameState): nat
    requires FallReady(cat, s)
  {
    if s.currentPiece.None? then 0
    else DropDistance(s.board, cat, s.currentPiece.value)
  }

  /** What a hard drop needs: what its fall needs and what the final drop
      needs. */
  predicate HardDropReady(cat: Catalog, s: GameState)
  {
    FallReady(cat, s) && (s.currentPiece.Some? ==> DropReady(cat, Landed(cat, s)))
  }

  /** A hard drop: fall as far as possible, add two points per row fallen,
      then drop once more, which locks the piece. */
  function HardDropped(cat: Catalog, s: GameState, newShape: Shape): GameState
    requires HardDropReady(cat, s)
  {
    var landed := Landed(cat, s);
    DropPiece(cat, landed.(score := AddHardDropScore(landed.score, RowsToLand(cat, s))), newShape)
  }

  /** The hard-drop loop's state after `k` turns: with no piece, the start
      state; otherwise the piece `k` rows lower, within its drop distance. */
  predicate Falling(cat: Catalog, s: GameState, current: GameState, k: nat)
    requires FallReady(cat, s)
  {
    if s.currentPiece.None? then current == s && k == 0
    else k <= DropDistance(s.board, cat, s.currentPiece.value) && current == FallenBy(s, k)
  }

  /** The rows the loop may still fall after `k` turns. */
  function Remaining(cat: Catalog, s: GameState, k: nat): int
    requires FallReady(cat, s)
  {
    if s.currentPiece.None? then 0 else DropDistance(s.board, cat, s.currentPiece.value) - k
  }

  /** One more turn of the hard-drop loop: the next row is free, so the
      count stays within the drop distance and the piece is one row lower. */
  lemma FallOneRow(cat: Catalog, s: GameState, current: GameState, k: nat)
    requires FallReady(cat, s) && Falling(cat, s, current, k)
    requires current.currentPiece.Some? && |current.board| > 0
    requires !Collides(current.board, cat, MoveTetromino(current.currentPiece.value, 0, 1))
    ensures Falling(cat, s, current.(currentPiece := Some(MoveTetromino(current.currentPiece.value, 0, 1))), k + 1)
    ensures 0 <= Remaining(cat, s, k + 1) < Remaining(cat, s, k)
  {
    var p := s.currentPiece.value;
    assert current.currentPiece.value == MoveTetromino(p, 0, k);
    MoveDownIsLowered(p, k);
    MoveDownIsLowered(p, k + 1);
    LoweredTwice(p, k);
    FreeRowWithinDistance(s.board, cat, p, k);
  }

  /** When the hard-drop loop stops, the piece has landed after the drop
      distance. */
  lemma LoopStopsAtLanding(cat: Catalog, s: GameState, current: GameState, k: nat)
    requires FallReady(cat, s) && Falling(cat, s, current, k)
    requires !(current.currentPiece.Some? &&
               !Collides(current.board, cat, MoveTetromino(current.currentPiece.value, 0, 1)))
    ensures current == Landed(cat, s) && k == RowsToLand(cat, s)
  {
    if s.currentPiece.Some? {
      var p := s.currentPiece.value;
      assert current.currentPiece.value == MoveTetromino(p, 0, k);
      MoveDownIsLowered(p, k);
      StopIsLanding(s.board, cat, p, k);
    }
  }

  /** The fall of a hard drop as the source runs it: move the piece down one
      row at a time while the next row is free, counting the rows. */
  method FallToLanding(cat: Catalog, s: GameState) returns (current: GameState, rowsDropped: nat)
    requires FallReady(cat, s)
    ensures current == Landed(cat, s) && rowsDropped == RowsToLand(cat, s)
  {
    current := s;
    rowsDropped := 0;
    while current.currentPiece.Some? &&
          !Collides(current.board, cat, MoveTetromino(current.currentPiece.value, 0, 1))
      invariant Falling(cat, s, current, rowsDropped)
      invariant current.board == s.board
      decreases Remaining(cat, s, rowsDropped)
    {
      FallOneRow(cat, s, current, rowsDropped);
      current := current.(currentPiece := Some(MoveTetromino(current.currentPiece.value, 0, 1)));
      rowsDropped := rowsDropped + 1;
    }
    LoopStopsAtLanding(cat, s, current, rowsDropped);
  }

  /** The hard drop as the source runs it: the counted fall, two points per
      row fallen, then the drop step that locks the piece. */
  method HardDropLoop(cat: Catalog, s: GameState, newShape: Shape) returns (r: GameState)
    requires HardDropReady(cat, s)
    ensures r == HardDropped(cat, s, newShape)
  {
    var current, rowsDropped := FallToLanding(cat, s);
    var newScore := AddHardDropScore(current.score, rowsDropped);
    r := DropPiece(cat, current.(score := newScore), newShape);
  }

  /** What `action` needs of a state it acts on. */
  predicate Ready(cat: Catalog, s: GameState, action: Action)
  {
    (s.status == Playing && s.currentPiece.Some?) ==>
      match action
      case MoveDown => DropReady(cat, s)
      case HardDrop => HardDropReady(cat, s)
      case Hold => true
      case Pause => true
      case _ => |s.board| > 0
  }

  /** One keyboard action. Nothing happens unless the game is playing with a
      piece in play. Moves and the clockwise rotation are taken only if the
      result is free; a soft drop is a drop step; hold does nothing; pause
      switches a playing game to paused. */
  function Step(cat: Catalog, s: GameState, action: Action, newShape: Shape): GameState
    requires Ready(cat, s, action)
  {
    if s.status != Playing || s.currentPiece.None? then s
    else
      var piece := s.currentPiece.value;
      match action
      case MoveLeft => TryPiece(cat, s, MoveTetromino(piece, -1, 0))
      case MoveRight => TryPiece(cat, s, MoveTetromino(piece, 1, 0))
      case MoveDown => DropPiece(cat, s, newShape)
      case Rotate => TryPiece(cat, s, RotateTetromino(cat, piece))
      case HardDrop => HardDropped(cat, s, newShape)
      case Hold => s
      case Pause => s.(status := if s.status == Playing then Paused else Playing)
  }

  /** A key press: the bound action, or nothing for an unbound key. */
  function HandleKeyDown(cat: Catalog, s: GameState, code: string, newShape: Shape): GameState
    requires ActionOf(s.settings.controls, code).Some? ==>
      Ready(cat, s, ActionOf(s.settings.controls, code).value)
  {
    match ActionOf(s.settings.controls, code)
    case None => s
    case Some(a) => Step(cat, s, a, newShape)
  }

  /** A key that no control is bound to changes nothing, whatever the state. */
  lemma UnboundKeyIgnored(cat: Catalog, s: GameState, code: string, newShape: Shape)
    requires ActionOf(s.settings.controls, code).None?
    ensures HandleKeyDown(cat, s, code, newShape) == s
  {
  }

  /** Outside play, or with no piece, every action leaves the state as it
      is; in particular a paused game cannot be resumed by the pause key. */
  lemma OnlyPlayingReacts(cat: Catalog, s: GameState, action: Action, newShape: Shape)
    requires Ready(cat, s, action)
    requires s.status != Playing || s.currentPiece.None?
    ensures Step(cat, s, action, newShape) == s
  {
  }

  /** Pause takes a playing game to paused and changes nothing else. */
  lemma PauseFromPlaying(cat: Catalog, s: GameState, newShape: Shape)
    requires s.status == Playing && s.currentPiece.Some?
    ensures Step(cat, s, Pause, newShape) == s.(status := Paused)
  {
  }

  /** The candidate piece a move or rotation tries. */
  function Candidate(cat: Catalog, piece: Tetromino, action: Action): Tetromino
    requires action == MoveLeft || action == MoveRight || action == Rotate
  {
    match action
    case MoveLeft => MoveTetromino(piece, -1, 0)
    case MoveRight => MoveTetromino(piece, 1, 0)
    case Rotate => RotateTetromino(cat, piece)
  }

  /** A move or rotation changes the state exactly when the candidate piece
      is free, and then only the piece changes; a piece that was free stays
      free. */
  lemma MoveOrRotateAcceptedIff(cat: Catalog, s: GameState, action: Action, newShape: Shape)
    requires action == MoveLeft || action == MoveRight || action == Rotate
    requires s.status == Playing && s.currentPiece.Some? && |s.board| > 0
    ensures var r, cand := Step(cat, s, action, newShape), Candidate(cat, s.currentPiece.value, action);
      (r != s <==> !Collides(s.board, cat, cand)) &&
      (r != s ==> r == s.(currentPiece := Some(cand))) &&
      (!Collides(s.board, cat, s.currentPiece.value) ==>
         r.currentPiece.Some? && !Collides(r.board, cat, r.currentPiece.value))
  {
    var piece := s.currentPiece.value;
    var cand := Candidate(cat, piece, action);
    assert cand != piece by {
      if action == Rotate {
        assert cand.rotation != piece.rotation;
      } else {
        assert cand.position != piece.position;
      }
    }
  }

  lemma SoftDropIsDrop(cat: Catalog, s: GameState, newShape: Shape)
    requires s.status == Playing && s.currentPiece.Some? && DropReady(cat, s)
    ensures Step(cat, s, MoveDown, newShape) == DropPiece(cat, s, newShape)
  {
  }

  lemma HoldDoesNothing(cat: Catalog, s: GameState, newShape: Shape)
    ensures Step(cat, s, Hold, newShape) == s
  {
  }

  /** After a hard drop's fall the row below the piece is blocked. */
  lemma LandedBlocked(cat: Catalog, s: GameState)
    requires s.currentPiece.Some? && |s.board| > 0
    requires cat(s.currentPiece.value.shape, s.currentPiece.value.rotation) != []
    ensures Landed(cat, s).currentPiece.Some?
    ensures Collides(s.board, cat, MoveTetromino(Landed(cat, s).currentPiece.value, 0, 1))
  {
    var p := s.currentPiece.value;
    var n := DropDistance(s.board, cat, p);
    assert Landed(cat, s).currentPiece.value == MoveTetromino(p, 0, n);
    MoveDownIsLowered(p, n);
  }

  /** After a hard drop's fall the row below is blocked, so the final drop
      locks; the score gains two points per row fallen, the line-clear
      points at the old level, and the lock bonus. */
  lemma HardDropLocks(cat: Catalog, s: GameState, newShape: Shape)
    requires s.status == Playing && s.currentPiece.Some? && HardDropReady(cat, s)
    ensures var landed := Landed(cat, s);
      Collides(s.board, cat, MoveTetromino(landed.currentPiece.value, 0, 1)) &&
      var k := FullRowCount(Placed(s.board, cat, landed.currentPiece.value));
      Step(cat, s, HardDrop, newShape).score ==
        s.score + 2 * RowsToLand(cat, s) + BasePoints(k) * (s.level + 1) + 10
  {
    LandedBlocked(cat, s);
    var landed := Landed(cat, s);
    var scored := landed.(score := AddHardDropScore(landed.score, RowsToLand(cat, s)));
    assert Step(cat, s, HardDrop, newShape) == HardDropped(cat, s, newShape);
    DropLocks(cat, scored, newShape);
  }

  /** A hard drop on an empty board: the piece falls until its lowest tile
      `low` is on the bottom row, and the score gains two points per row
      fallen, the line-clear points and the lock bonus. */
  lemma HardDropOnEmptyBoard(cat: Catalog, s: GameState, newShape: Shape, low: Pos)
    requires s.status == Playing && s.currentPiece.Some? && HardDropReady(cat, s)
    requires IsRectangular(s.board)
    requires forall r, c :: 0 <= r < |s.board| && 0 <= c < |s.board[r]| ==> s.board[r][c] == None
    requires var p := s.currentPiece.value;
      low in cat(p.shape, p.rotation) &&
      (forall t :: t in cat(p.shape, p.rotation) ==>
        t.y <= low.y && 0 <= p.position.x + t.x < |s.board[0]|) &&
      p.position.y + low.y <= |s.board| - 1
    ensures var y := s.currentPiece.value.position.y;
      RowsToLand(cat, s) == |s.board| - 1 - y - low.y &&
      Landed(cat, s).currentPiece.value.position.y + low.y == |s.board| - 1 &&
      var k := FullRowCount(Placed(s.board, cat, Landed(cat, s).currentPiece.value));
      Step(cat, s, HardDrop, newShape).score ==
        s.score + 2 * (|s.board| - 1 - y - low.y) + BasePoints(k) * (s.level + 1) + 10
  {
    EmptyBoardLanding(s.board, cat, s.currentPiece.value, low);
    HardDropLocks(cat, s, newShape);
  }

  /** The status changes only from playing: to paused by the pause key, or
      to game over when a lock fills a top-two row. */
  lemma StatusChanges(cat: Catalog, s: GameState, action: Action, newShape: Shape)
    requires Ready(cat, s, action)
    ensures var r := Step(cat, s, action, newShape);
      r.status != s.status ==>
        s.status == Playing &&
        ((r.status == Paused && action == Pause) ||
         (r.status == GameOver && (action == MoveDown || action == HardDrop)))
  {
    if s.status == Playing && s.currentPiece.Some? {
      match action
      case MoveDown =>
        DropStatus(cat, s, newShape);
      case HardDrop =>
        var landed := Landed(cat, s);
        DropStatus(cat, landed.(score := AddHardDropScore(landed.score, RowsToLand(cat, s))), newShape);
      case _ =>
    }
  }
}

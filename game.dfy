/** The session around the engine: the initial state, starting, the timer
    tick, and the invariant every transition keeps. */
module Game {
  import opened Types
  import opened Collision
  import opened LineClearing
  import opened Scoring
  import opened GameLogic
  import opened KeyboardControls

  /** The state a session opens with. `first` and `queue` stand for the
      random shapes drawn for the first piece and the five-piece preview. */
  function InitialState(cat: Catalog, first: Shape, queue: seq<Shape>): (s: GameState)
    requires |queue| == 5
    ensures s.status == Menu && s.score == 0 && s.level == 0 && s.linesCleared == 0
    ensures s.currentPiece == Some(CreateTetromino(cat, first)) && s.nextPieces == queue
    ensures |s.board| == 20 && forall r :: 0 <= r < 20 ==> s.board[r] == EmptyRow(10)
  {
    var settings := DefaultSettings();
    GameState(
      CreateEmptyBoard(settings.boardWidth, settings.boardHeight),
      Some(CreateTetromino(cat, first)),
      queue, None, true, 0, 0, 0, 0, Menu, settings)
  }

  /** Starting play changes only the status. */
  function StartGame(s: GameState): (r: GameState)
    ensures r.status == Playing && r.(status := s.status) == s
  {
    s.(status := Playing)
  }

  /** The automatic fall: a drop step while playing; the timer is not armed
      in any other status. */
  function Tick(cat: Catalog, s: GameState, newShape: Shape): GameState
    requires s.status == Playing ==> DropReady(cat, s)
  {
    if s.status == Playing then DropPiece(cat, s, newShape) else s
  }

  /** Each catalog entry has one to four tiles. */
  predicate CatalogOk(cat: Catalog)
  {
    forall sh: Shape, rot: Rotation :: 1 <= |cat(sh, rot)| <= 4
  }

  /** A newly spawned piece lies within a board of the given size. */
  predicate SpawnFits(cat: Catalog, width: int, height: int)
  {
    forall sh: Shape, t :: t in cat(sh, 0) && t.y >= 0 ==>
      t.y < height && 0 <= SpawnPosition.x + t.x < width
  }

  /** The invariant of a session: a rectangular board of at least two rows
      and one column without full rows, a nonempty preview queue, spawns
      that fit the board, and a current piece that can be placed. */
  predicate Inv(cat: Catalog, s: GameState)
  {
    |s.board| >= 2 && IsRectangular(s.board) && |s.board[0]| >= 1 &&
    NoFullRows(s.board) &&
    |s.nextPieces| >= 1 &&
    SpawnFits(cat, |s.board[0]|, |s.board|) &&
    (s.currentPiece.Some? ==> Writable(s.board, cat, s.currentPiece.value))
  }

  lemma {:induction false} InitialInv(cat: Catalog, first: Shape, queue: seq<Shape>)
    requires |queue| == 5 && SpawnFits(cat, 10, 20)
    ensures Inv(cat, InitialState(cat, first, queue))
    ensures Inv(cat, StartGame(InitialState(cat, first, queue)))
  {
    var s := InitialState(cat, first, queue);
    forall r | 0 <= r < |s.board|
      ensures !IsFull(s.board[r])
    {
      assert s.board[r][0] == None;
    }
  }

  /** A spawned piece can be placed on a board of the session's size. */
  lemma SpawnWritable(cat: Catalog, board: Board, sh: Shape)
    requires |board| >= 1 && IsRectangular(board)
    requires SpawnFits(cat, |board[0]|, |board|)
    ensures Writable(board, cat, CreateTetromino(cat, sh))
  {
  }

  /** Under the invariant, a lock clears at most four rows. */
  lemma LockFitsTable(cat: Catalog, s: GameState)
    requires CatalogOk(cat) && Inv(cat, s) && s.currentPiece.Some?
    ensures LockReady(cat, s)
  {
    var p := s.currentPiece.value;
    PlacedFullRows(s.board, cat, p);
    assert 1 <= |cat(p.shape, p.rotation)| <= 4;
  }

  /** Under the invariant a lock yields a state that keeps it. */
  lemma LockKeepsInv(cat: Catalog, s: GameState, newShape: Shape)
    requires CatalogOk(cat) && Inv(cat, s) && s.currentPiece.Some?
    requires Collides(s.board, cat, MoveTetromino(s.currentPiece.value, 0, 1))
    requires LockReady(cat, s)
    ensures Inv(cat, DropPiece(cat, s, newShape))
  {
    var placed := Placed(s.board, cat, s.currentPiece.value);
    var c := ClearedBoard(placed);
    ClearedShape(placed);
    ClearedHasNoFullRow(placed);
    KeptRows(placed);
    assert |placed[0]| == |s.board[0]|;
    forall r | 0 <= r < |c.clearedBoard|
      ensures |c.clearedBoard[r]| == |s.board[0]|
    {
      if r >= c.linesCleared {
        assert c.clearedBoard[r] == Kept(placed)[r - c.linesCleared];
        assert c.clearedBoard[r] in placed;
      }
    }
    DropLocks(cat, s, newShape);
    var r := DropPiece(cat, s, newShape);
    assert r.board == c.clearedBoard;
    SpawnWritable(cat, r.board, s.nextPieces[0]);
  }

  /** Under the invariant every drop step has what it needs and keeps the
      invariant. */
  lemma DropKeepsInv(cat: Catalog, s: GameState, newShape: Shape)
    requires CatalogOk(cat) && Inv(cat, s)
    ensures DropReady(cat, s)
    ensures Inv(cat, DropPiece(cat, s, newShape))
  {
    if s.currentPiece.Some? {
      LockFitsTable(cat, s);
      var moved := MoveTetromino(s.currentPiece.value, 0, 1);
      if Collides(s.board, cat, moved) {
        LockKeepsInv(cat, s, newShape);
      } else {
        FreeIsWritable(s.board, cat, moved);
      }
    }
  }

  /** Under the invariant the landed piece of a hard drop can be placed and
      locked, and the landed state keeps the invariant. */
  lemma LandedKeepsInv(cat: Catalog, s: GameState)
    requires CatalogOk(cat) && Inv(cat, s) && s.currentPiece.Some?
    ensures cat(s.currentPiece.value.shape, s.currentPiece.value.rotation) != []
    ensures Inv(cat, Landed(cat, s))
  {
    var p := s.currentPiece.value;
    assert 1 <= |cat(p.shape, p.rotation)|;
    var n := DropDistance(s.board, cat, p);
    MoveDownIsLowered(p, n);
    if n > 0 {
      FreeAboveLanding(s.board, cat, p, n);
      FreeIsWritable(s.board, cat, Lowered(p, n));
    } else {
      assert MoveTetromino(p, 0, n) == p;
    }
  }

  /** Under the invariant every action has what it needs, and the invariant
      holds afterwards. */
  lemma StepKeepsInv(cat: Catalog, s: GameState, action: Action, newShape: Shape)
    requires CatalogOk(cat) && Inv(cat, s)
    ensures Ready(cat, s, action)
    ensures Inv(cat, Step(cat, s, action, newShape))
  {
    if s.status == Playing && s.currentPiece.Some? {
      var p := s.currentPiece.value;
      match action
      case MoveLeft =>
        if !Collides(s.board, cat, MoveTetromino(p, -1, 0)) {
          FreeIsWritable(s.board, cat, MoveTetromino(p, -1, 0));
        }
      case MoveRight =>
        if !Collides(s.board, cat, MoveTetromino(p, 1, 0)) {
          FreeIsWritable(s.board, cat, MoveTetromino(p, 1, 0));
        }
      case Rotate =>
        if !Collides(s.board, cat, RotateTetromino(cat, p)) {
          FreeIsWritable(s.board, cat, RotateTetromino(cat, p));
        }
      case MoveDown =>
        DropKeepsInv(cat, s, newShape);
      case HardDrop =>
        LandedKeepsInv(cat, s);
        var landed := Landed(cat, s);
        DropKeepsInv(cat, landed, newShape);
        var scored := landed.(score := AddHardDropScore(landed.score, RowsToLand(cat, s)));
        DropKeepsInv(cat, scored, newShape);
      case Hold =>
      case Pause =>
    }
  }

  /** A key press, bound or not, keeps the session invariant. */
  lemma HandleKeyDownKeepsInv(cat: Catalog, s: GameState, code: string, newShape: Shape)
    requires CatalogOk(cat) && Inv(cat, s)
    ensures ActionOf(s.settings.controls, code).Some? ==>
      Ready(cat, s, ActionOf(s.settings.controls, code).value)
    ensures Inv(cat, HandleKeyDown(cat, s, code, newShape))
  {
    match ActionOf(s.settings.controls, code)
    case None =>
    case Some(a) => StepKeepsInv(cat, s, a, newShape);
  }

  lemma TickKeepsInv(cat: Catalog, s: GameState, newShape: Shape)
    requires CatalogOk(cat) && Inv(cat, s)
    ensures s.status == Playing ==> DropReady(cat, s)
    ensures Inv(cat, Tick(cat, s, newShape))
  {
    DropKeepsInv(cat, s, newShape);
  }

  /** A finished game stays finished: no key and no tick changes it. */
  lemma GameOverIsFinal(cat: Catalog, s: GameState, action: Action, newShape: Shape)
    requires s.status == GameOver && Ready(cat, s, action)
    ensures Step(cat, s, action, newShape) == s && Tick(cat, s, newShape) == s
  {
  }
}

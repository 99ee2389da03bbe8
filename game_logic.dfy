/** Piece transforms, placement, the game-over test, board creation and the
    drop transition (fall one row, or lock, clear, score and respawn). */
module GameLogic {
  import opened Types
  import opened Collision
  import opened LineClearing
  import opened Scoring

  /** Where a new piece appears. */
  const SpawnPosition := Pos(3, 0)

  /** The piece's tiles are the catalog entry for its shape and rotation. */
  predicate Consistent(cat: Catalog, piece: Tetromino)
  {
    piece.tiles == cat(piece.shape, piece.rotation)
  }

  /** A new piece of `shape` in rotation 0, by default at the spawn position. */
  function CreateTetromino(cat: Catalog, shape: Shape, position: Pos := SpawnPosition): (p: Tetromino)
    ensures p.shape == shape && p.position == position && p.rotation == 0
    ensures Consistent(cat, p)
  {
    Tetromino(shape, position, 0, cat(shape, 0))
  }

  /** The piece turned a quarter clockwise, or counter-clockwise; only the
      rotation and the tiles change. */
  function RotateTetromino(cat: Catalog, piece: Tetromino, clockwise: bool := true): (p: Tetromino)
    ensures p.shape == piece.shape && p.position == piece.position
    ensures Consistent(cat, p)
    ensures clockwise ==> p.rotation == (piece.rotation + 1) % 4
    ensures !clockwise ==> (p.rotation + 1) % 4 == piece.rotation
  {
    var newRotation := if clockwise then (piece.rotation + 1) % 4 else (piece.rotation + 3) % 4;
    piece.(rotation := newRotation, tiles := cat(piece.shape, newRotation))
  }

  /** The piece translated by (dx, dy); nothing else changes. */
  function MoveTetromino(piece: Tetromino, dx: int, dy: int): (p: Tetromino)
    ensures p.shape == piece.shape && p.rotation == piece.rotation && p.tiles == piece.tiles
    ensures p.position.x - piece.position.x == dx && p.position.y - piece.position.y == dy
  {
    piece.(position := Pos(piece.position.x + dx, piece.position.y + dy))
  }

  lemma {:induction false} RotateFourTimes(cat: Catalog, piece: Tetromino)
    requires Consistent(cat, piece)
    ensures RotateTetromino(cat, RotateTetromino(cat, RotateTetromino(cat, RotateTetromino(cat, piece)))) == piece
  {
  }

  lemma RotateThenBack(cat: Catalog, piece: Tetromino)
    requires Consistent(cat, piece)
    ensures RotateTetromino(cat, RotateTetromino(cat, piece), false) == piece
    ensures RotateTetromino(cat, RotateTetromino(cat, piece, false)) == piece
  {
  }

  lemma MoveThenBack(piece: Tetromino, dx: int, dy: int)
    ensures MoveTetromino(MoveTetromino(piece, dx, dy), -dx, -dy) == piece
  {
  }

  /** Moving down is the ghost search's lowering. */
  lemma MoveDownIsLowered(piece: Tetromino, dy: int)
    ensures MoveTetromino(piece, 0, dy) == Lowered(piece, dy)
    ensures MoveTetromino(MoveTetromino(piece, 0, dy), 0, 1) == Lowered(Lowered(piece, dy), 1)
  {
  }

  /** Every visible tile of the piece lands on a cell of the board, so that
      placing it writes within the rows. */
  predicate Writable(board: Board, cat: Catalog, piece: Tetromino)
  {
    forall t :: t in cat(piece.shape, piece.rotation) && piece.position.y + t.y >= 0 ==>
      piece.position.y + t.y < |board| &&
      0 <= piece.position.x + t.x < |board[piece.position.y + t.y]|
  }

  /** A free piece can be placed. */
  lemma FreeIsWritable(board: Board, cat: Catalog, piece: Tetromino)
    requires |board| > 0 && !Collides(board, cat, piece)
    ensures Writable(board, cat, piece)
  {
  }

  /** One of the first `n` tiles, put at `pos`, covers cell (x, y). */
  predicate CoveredBy(pos: Pos, tiles: seq<Pos>, n: nat, x: int, y: int)
    requires n <= |tiles|
  {
    exists j :: 0 <= j < n && pos.x + tiles[j].x == x && pos.y + tiles[j].y == y
  }

  /** The board with the piece frozen in: every cell a visible tile covers
      holds the piece's shape, every other cell is as before. */
  function Placed(board: Board, cat: Catalog, piece: Tetromino): (nb: Board)
    requires Writable(board, cat, piece)
    ensures |nb| == |board|
    ensures forall r :: 0 <= r < |board| ==> |nb[r]| == |board[r]|
  {
    var tiles := cat(piece.shape, piece.rotation);
    seq(|board|, r requires 0 <= r < |board| =>
      seq(|board[r]|, c requires 0 <= c < |board[r]| =>
        if CoveredBy(piece.position, tiles, |tiles|, c, r) then Some(piece.shape) else board[r][c]))
  }

  /** Placement as the source runs it: copy the board, then write the shape
      into the cell of each tile in turn, skipping tiles above the top. The
      input board is a value and is left as it was. */
  method PlacePiece(board: Board, cat: Catalog, piece: Tetromino) returns (newBoard: Board)
    requires Writable(board, cat, piece)
    ensures newBoard == Placed(board, cat, piece)
  {
    newBoard := board;
    var shape := cat(piece.shape, piece.rotation);
    for k := 0 to |shape|
      invariant |newBoard| == |board|
      invariant forall r :: 0 <= r < |board| ==> |newBoard[r]| == |board[r]|
      invariant forall r, c :: 0 <= r < |board| && 0 <= c < |board[r]| ==>
        newBoard[r][c] == if CoveredBy(piece.position, shape, k, c, r) then Some(piece.shape) else board[r][c]
    {
      var x := piece.position.x + shape[k].x;
      var y := piece.position.y + shape[k].y;
      if y >= 0 {
        assert shape[k] in shape;
        newBoard := newBoard[y := newBoard[y][x := Some(piece.shape)]];
      }
    }
    var placed := Placed(board, cat, piece);
    forall r | 0 <= r < |board|
      ensures newBoard[r] == placed[r]
    {
    }
  }

  /** Each visible tile's cell holds the shape; every cell no tile covers is
      unchanged. */
  lemma PlacedCells(board: Board, cat: Catalog, piece: Tetromino)
    requires Writable(board, cat, piece)
    ensures var nb, tiles := Placed(board, cat, piece), cat(piece.shape, piece.rotation);
      forall t :: t in tiles && piece.position.y + t.y >= 0 ==>
        nb[piece.position.y + t.y][piece.position.x + t.x] == Some(piece.shape)
    ensures var nb, tiles := Placed(board, cat, piece), cat(piece.shape, piece.rotation);
      forall r, c ::
        (0 <= r < |board| && 0 <= c < |board[r]| && !CoveredBy(piece.position, tiles, |tiles|, c, r))
        ==> nb[r][c] == board[r][c]
  {
    var nb, tiles := Placed(board, cat, piece), cat(piece.shape, piece.rotation);
    forall t | t in tiles && piece.position.y + t.y >= 0
      ensures nb[piece.position.y + t.y][piece.position.x + t.x] == Some(piece.shape)
    {
      var j :| 0 <= j < |tiles| && tiles[j] == t;
      assert CoveredBy(piece.position, tiles, |tiles|, piece.position.x + t.x, piece.position.y + t.y);
    }
  }

  /** The rows the tiles of the piece fall in. */
  function TileRows(pos: Pos, tiles: seq<Pos>): (rows: set<int>)
    ensures |rows| <= |tiles|
    ensures forall j :: 0 <= j < |tiles| ==> pos.y + tiles[j].y in rows
  {
    if tiles == [] then {}
    else
      var rest := TileRows(pos, tiles[1..]);
      assert forall j :: 1 <= j < |tiles| ==> tiles[j] == tiles[1..][j - 1];
      assert |{pos.y + tiles[0].y} + rest| <= 1 + |rest|;
      {pos.y + tiles[0].y} + rest
  }

  /** On a board without full rows, a placement fills at most as many rows
      as the piece has tiles: only rows that hold a tile can become full. */
  lemma PlacedFullRows(board: Board, cat: Catalog, piece: Tetromino)
    requires Writable(board, cat, piece) && NoFullRows(board)
    ensures FullRowCount(Placed(board, cat, piece)) <= |cat(piece.shape, piece.rotation)|
  {
    var nb, tiles := Placed(board, cat, piece), cat(piece.shape, piece.rotation);
    var rows := TileRows(piece.position, tiles);
    forall c, r | CoveredBy(piece.position, tiles, |tiles|, c, r)
      ensures r in rows
    {
      var j :| 0 <= j < |tiles| && piece.position.x + tiles[j].x == c && piece.position.y + tiles[j].y == r;
    }
    forall r | 0 <= r < |nb| && r !in rows
      ensures nb[r] == board[r]
    {
    }
    FullRowsWithin(nb, rows);
  }

  /** The top two rows are checked for any block. The spawn test the source
      prepares for `nextPiece` is never consulted, so the piece plays no
      part. */
  function CheckGameOver(board: Board, nextPiece: Tetromino): (over: bool)
    requires |board| >= 2
    ensures !over <==> board[0] == EmptyRow(|board[0]|) && board[1] == EmptyRow(|board[1]|)
  {
    (exists c :: 0 <= c < |board[0]| && board[0][c] != None) ||
    (exists c :: 0 <= c < |board[1]| && board[1][c] != None)
  }

  lemma GameOverIgnoresNextPiece(board: Board, p: Tetromino, q: Tetromino)
    requires |board| >= 2
    ensures CheckGameOver(board, p) == CheckGameOver(board, q)
  {
  }

  /** A board of `height` rows of `width` empty cells. */
  function CreateEmptyBoard(width: nat, height: nat): (board: Board)
    ensures |board| == height
    ensures forall r :: 0 <= r < height ==> |board[r]| == width
    ensures forall r, c :: 0 <= r < height && 0 <= c < width ==> board[r][c] == None
  {
    seq(height, _ => EmptyRow(width))
  }

  function DefaultSettings(): (s: Settings)
    ensures s.boardWidth == 10 && s.boardHeight == 20 && s.dropSpeed == 1000
  {
    Settings(10, 20, 1000, true, true, "default",
      Controls("ArrowLeft", "ArrowRight", "ArrowDown", "ArrowUp", " ", "KeyC", "KeyP"))
  }

  /** What locking the current piece needs: two rows for the game-over test,
      a queued shape, a placement within the board, and at most four rows
      cleared (the line-clear table has five entries). */
  predicate LockReady(cat: Catalog, s: GameState)
    requires s.currentPiece.Some?
  {
    |s.board| >= 2 && |s.nextPieces| >= 1 &&
    Writable(s.board, cat, s.currentPiece.value) &&
    FullRowCount(Placed(s.board, cat, s.currentPiece.value)) <= 4
  }

  /** What a drop needs: a board to test against, and what a lock needs if
      the piece cannot fall. */
  predicate DropReady(cat: Catalog, s: GameState)
  {
    s.currentPiece.Some? ==>
      |s.board| > 0 &&
      (Collides(s.board, cat, MoveTetromino(s.currentPiece.value, 0, 1)) ==> LockReady(cat, s))
  }

  /** One drop step. With no piece nothing happens; if the piece can fall one
      row it does; otherwise it is placed, full rows are cleared, the totals
      and score are updated (the line-clear points use the level before the
      update), the first queued shape spawns, `newShape` joins the queue, and
      the game ends if a top-two row holds a block. */
  function DropPiece(cat: Catalog, s: GameState, newShape: Shape): GameState
    requires DropReady(cat, s)
  {
    if s.currentPiece.None? then s
    else
      var movedPiece := MoveTetromino(s.currentPiece.value, 0, 1);
      if !Collides(s.board, cat, movedPiece) then
        s.(currentPiece := Some(movedPiece))
      else
        var newBoard := Placed(s.board, cat, s.currentPiece.value);
        var cleared := ClearedBoard(newBoard);
        KeptCount(newBoard);
        var newLinesTotal := s.linesCleared + cleared.linesCleared;
        var newLevel := CalculateLevel(newLinesTotal);
        var newScore := CalculateScore(s.score, cleared.linesCleared, s.level);
        var finalScore := AddPlacingScore(newScore);
        var newCurrentPiece := CreateTetromino(cat, s.nextPieces[0]);
        var newNextPieces := s.nextPieces[1..] + [newShape];
        ClearedShape(newBoard);
        var gameOver := CheckGameOver(cleared.clearedBoard, newCurrentPiece);
        s.(board := cleared.clearedBoard,
           currentPiece := if gameOver then None else Some(newCurrentPiece),
           nextPieces := newNextPieces,
           score := finalScore,
           level := newLevel,
           linesCleared := newLinesTotal,
           status := if gameOver then GameOver else s.status)
  }

  lemma DropWithoutPiece(cat: Catalog, s: GameState, newShape: Shape)
    requires s.currentPiece.None?
    ensures DropPiece(cat, s, newShape) == s
  {
  }

  /** A piece that can fall moves one row down and nothing else changes. */
  lemma DropFalls(cat: Catalog, s: GameState, newShape: Shape)
    requires s.currentPiece.Some? && |s.board| > 0
    requires !Collides(s.board, cat, MoveTetromino(s.currentPiece.value, 0, 1))
    ensures var r, p := DropPiece(cat, s, newShape), s.currentPiece.value;
      r.currentPiece.Some? &&
      r.currentPiece.value.position == Pos(p.position.x, p.position.y + 1) &&
      r.currentPiece.value.(position := p.position) == p &&
      r.(currentPiece := s.currentPiece) == s
  {
  }

  /** A drop step keeps the status or ends the game. */
  lemma DropStatus(cat: Catalog, s: GameState, newShape: Shape)
    requires DropReady(cat, s)
    ensures var r := DropPiece(cat, s, newShape);
      r.status == s.status || (r.status == GameOver && r.currentPiece.None?)
  {
  }

  /** The lock branch: the placed board is cleared; the totals grow by the
      rows cleared; the level follows the new total; the score gains the
      line-clear points at the old level plus the lock bonus; the queue
      shifts by one and keeps its length; the board keeps its height; the
      game ends exactly when a top-two row is occupied; and the held piece,
      hold flag, high score and settings are untouched. */
  lemma DropLocks(cat: Catalog, s: GameState, newShape: Shape)
    requires s.currentPiece.Some? && |s.board| > 0
    requires Collides(s.board, cat, MoveTetromino(s.currentPiece.value, 0, 1))
    requires LockReady(cat, s)
    ensures var r, placed := DropPiece(cat, s, newShape), Placed(s.board, cat, s.currentPiece.value);
      var k := FullRowCount(placed);
      r.board == ClearedBoard(placed).clearedBoard &&
      |r.board| == |s.board| &&
      r.linesCleared == s.linesCleared + k &&
      r.level == (s.linesCleared + k) / 10 &&
      r.score == s.score + BasePoints(k) * (s.level + 1) + 10 &&
      r.nextPieces == s.nextPieces[1..] + [newShape] &&
      |r.nextPieces| == |s.nextPieces| &&
      (CheckGameOver(r.board, CreateTetromino(cat, s.nextPieces[0])) ==>
         r.currentPiece.None? && r.status == GameOver) &&
      (!CheckGameOver(r.board, CreateTetromino(cat, s.nextPieces[0])) ==>
         r.currentPiece == Some(CreateTetromino(cat, s.nextPieces[0])) && r.status == s.status) &&
      r.heldPiece == s.heldPiece && r.canHold == s.canHold &&
      r.highScore == s.highScore && r.settings == s.settings
  {
    var placed := Placed(s.board, cat, s.currentPiece.value);
    KeptCount(placed);
    ClearedShape(placed);
  }
}

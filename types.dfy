/** The records the game engine works on: shapes, pieces, the board and the
    whole game snapshot, plus the abstract shape catalog. */
module Types {

  datatype Option<+A> = None | Some(value: A)

  /** The seven tetromino shapes. */
  datatype Shape = I | O | T | S | Z | J | L

  /** A rotation index of a piece. */
  type Rotation = r: int | 0 <= r < 4

  /** A board position, also used for the tile offsets of the catalog. */
  datatype Pos = Pos(x: int, y: int)

  /** The shape catalog: for each shape and rotation, the ordered tile offsets
      relative to the piece origin. Its concrete contents are not part of this
      model, so every operation takes the catalog as a parameter. */
  type Catalog = (Shape, Rotation) -> seq<Pos>

  /** A falling piece. `tiles` is the catalog entry that was current when the
      rotation was last set; collision and placement look the tiles up again. */
  datatype Tetromino = Tetromino(shape: Shape, position: Pos, rotation: Rotation, tiles: seq<Pos>)

  /** A board row, left to right; `None` is an empty cell. */
  type Row = seq<Option<Shape>>

  /** A board, rows top (index 0) to bottom. */
  type Board = seq<Row>

  datatype Status = Menu | Playing | Paused | GameOver

  /** Key codes bound to the seven actions. */
  datatype Controls = Controls(
    moveLeft: string, moveRight: string, moveDown: string, rotate: string,
    hardDrop: string, hold: string, pause: string)

  datatype Settings = Settings(
    boardWidth: int, boardHeight: int, dropSpeed: int,
    showGhostPiece: bool, enableSounds: bool, skin: string, controls: Controls)

  /** The game snapshot that every transition replaces. */
  datatype GameState = GameState(
    board: Board,
    currentPiece: Option<Tetromino>,
    nextPieces: seq<Shape>,
    heldPiece: Option<Shape>,
    canHold: bool,
    score: int,
    level: int,
    linesCleared: int,
    highScore: int,
    status: Status,
    settings: Settings)

  /** A row of `width` empty cells. */
  function EmptyRow(width: nat): (row: Row)
    ensures |row| == width
    ensures forall c :: 0 <= c < width ==> row[c] == None
  {
    seq(width, _ => None)
  }

  /** Every row has the width of the top row. */
  predicate IsRectangular(board: Board)
  {
    forall r :: 0 <= r < |board| ==> |board[r]| == |board[0]|
  }
}

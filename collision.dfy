/** Collision detection and the ghost-piece (landing preview) search. */
module Collision {
  import opened Types

  /** Whether a tile at board cell (x, y) is blocked: outside the side walls,
      below the floor, or on a visible cell that is not empty. Cells above the
      board (y < 0) are never occupied. A cell beyond the end of a short row
      reads as occupied, as an absent array entry is not `null`. */
  predicate Blocked(board: Board, x: int, y: int)
    requires |board| > 0
  {
    x < 0 || x >= |board[0]| || y >= |board| ||
    (y >= 0 && (x >= |board[y]| || board[y][x] != None))
  }

  /** The piece overlaps a wall, the floor or a placed block. The tiles are
      looked up in the catalog from the piece's shape and rotation. */
  predicate Collides(board: Board, cat: Catalog, piece: Tetromino)
    requires |board| > 0
  {
    exists t :: t in cat(piece.shape, piece.rotation) &&
      Blocked(board, piece.position.x + t.x, piece.position.y + t.y)
  }

  /** The collision test as the source runs it: the tiles in order, returning
      at the first blocked one. It reads the board and changes nothing. */
  method CheckCollision(board: Board, cat: Catalog, piece: Tetromino) returns (hit: bool)
    requires |board| > 0
    ensures hit <==> (exists t :: t in cat(piece.shape, piece.rotation) &&
                        Blocked(board, piece.position.x + t.x, piece.position.y + t.y))
  {
    var shape := cat(piece.shape, piece.rotation);
    for k := 0 to |shape|
      invariant forall j :: 0 <= j < k ==>
        !Blocked(board, piece.position.x + shape[j].x, piece.position.y + shape[j].y)
    {
      var x := piece.position.x + shape[k].x;
      var y := piece.position.y + shape[k].y;
      if x < 0 || x >= |board[0]| || y >= |board| {
        assert shape[k] in shape;
        return true;
      }
      if y >= 0 && (x >= |board[y]| || board[y][x] != None) {
        assert shape[k] in shape;
        return true;
      }
    }
    return false;
  }

  /** Any tile outside the columns or below the floor makes the piece collide,
      whatever the board holds. */
  lemma OutOfBoundsCollides(board: Board, cat: Catalog, piece: Tetromino, t: Pos)
    requires |board| > 0
    requires t in cat(piece.shape, piece.rotation)
    requires piece.position.x + t.x < 0 || piece.position.x + t.x >= |board[0]| ||
             piece.position.y + t.y >= |board|
    ensures Collides(board, cat, piece)
  {
  }

  /** A piece wholly above the board and within the columns never collides:
      the board contents are not consulted for rows above the top. */
  lemma AboveBoardNeverCollides(board: Board, cat: Catalog, piece: Tetromino)
    requires |board| > 0
    requires forall t :: t in cat(piece.shape, piece.rotation) ==>
      0 <= piece.position.x + t.x < |board[0]| && piece.position.y + t.y < 0
    ensures !Collides(board, cat, piece)
  {
  }

  /** A piece is free exactly when every tile lies within the columns, above
      the floor, and either above the top or on an empty cell. */
  lemma FreeIff(board: Board, cat: Catalog, piece: Tetromino)
    requires |board| > 0 && IsRectangular(board)
    ensures !Collides(board, cat, piece) <==>
      forall t :: t in cat(piece.shape, piece.rotation) ==>
        var x, y := piece.position.x + t.x, piece.position.y + t.y;
        0 <= x < |board[0]| && y < |board| && (y < 0 || board[y][x] == None)
  {
  }

  /** The piece moved `dy` rows down. */
  function Lowered(piece: Tetromino, dy: int): (p: Tetromino)
    ensures p.shape == piece.shape && p.rotation == piece.rotation && p.tiles == piece.tiles
    ensures p.position == Pos(piece.position.x, piece.position.y + dy)
  {
    piece.(position := Pos(piece.position.x, piece.position.y + dy))
  }

  /** How many rows the piece can fall before the next row down collides.
      The first tile of the catalog entry bounds the count by its distance to
      the floor. */
  function DropDistance(board: Board, cat: Catalog, piece: Tetromino): (n: nat)
    requires |board| > 0 && cat(piece.shape, piece.rotation) != []
    ensures Collides(board, cat, Lowered(Lowered(piece, n), 1))
    ensures n < |board| - piece.position.y - cat(piece.shape, piece.rotation)[0].y
            || n == 0
    decreases |board| - piece.position.y - cat(piece.shape, piece.rotation)[0].y
  {
    var next := Lowered(piece, 1);
    if Collides(board, cat, next) then
      assert Lowered(piece, 0) == piece;
      0
    else
      var first := cat(piece.shape, piece.rotation)[0];
      assert first in cat(next.shape, next.rotation);
      var m := DropDistance(board, cat, next);
      assert Lowered(next, m) == Lowered(piece, 1 + m);
      1 + m
  }

  /** The row below the piece lowered by `k` is the piece lowered by
      `k + 1`. */
  lemma LoweredTwice(piece: Tetromino, k: int)
    ensures Lowered(Lowered(piece, k), 1) == Lowered(piece, k + 1)
  {
  }

  /** Every row down to the drop distance is free. */
  lemma {:induction false} FreeAboveLanding(board: Board, cat: Catalog, piece: Tetromino, k: nat)
    requires |board| > 0 && cat(piece.shape, piece.rotation) != []
    requires 1 <= k <= DropDistance(board, cat, piece)
    ensures !Collides(board, cat, Lowered(piece, k))
    decreases DropDistance(board, cat, piece)
  {
    var next := Lowered(piece, 1);
    assert cat(next.shape, next.rotation) == cat(piece.shape, piece.rotation);
    assert !Collides(board, cat, next);
    if k > 1 {
      assert DropDistance(board, cat, piece) == 1 + DropDistance(board, cat, next);
      FreeAboveLanding(board, cat, next, k - 1);
      assert Lowered(next, k - 1) == Lowered(piece, k);
    } else {
      assert Lowered(piece, k) == next;
    }
  }

  /** Lowered by fewer rows than the drop distance, the piece still has a
      free row below it. */
  lemma FreeBelow(board: Board, cat: Catalog, piece: Tetromino, k: nat)
    requires |board| > 0 && cat(piece.shape, piece.rotation) != []
    requires k < DropDistance(board, cat, piece)
    ensures !Collides(board, cat, Lowered(Lowered(piece, k), 1))
  {
    FreeAboveLanding(board, cat, piece, k + 1);
    LoweredTwice(piece, k);
  }

  /** DropDistance is the only count with its two defining properties. */
  lemma {:induction false} DropDistanceUnique(board: Board, cat: Catalog, piece: Tetromino, m: nat)
    requires |board| > 0 && cat(piece.shape, piece.rotation) != []
    requires Collides(board, cat, Lowered(Lowered(piece, m), 1))
    requires forall k :: 1 <= k <= m ==> !Collides(board, cat, Lowered(piece, k))
    ensures DropDistance(board, cat, piece) == m
  {
    var n := DropDistance(board, cat, piece);
    if m < n {
      FreeBelow(board, cat, piece, m);
    }
    LoweredTwice(piece, n);
  }

  /** A count within the drop distance whose next row is blocked is the drop
      distance. */
  lemma StopIsLanding(board: Board, cat: Catalog, piece: Tetromino, k: nat)
    requires |board| > 0 && cat(piece.shape, piece.rotation) != []
    requires k <= DropDistance(board, cat, piece)
    requires Collides(board, cat, Lowered(Lowered(piece, k), 1))
    ensures k == DropDistance(board, cat, piece)
  {
    if k < DropDistance(board, cat, piece) {
      FreeBelow(board, cat, piece, k);
    }
  }

  /** Below a free row within the drop distance, the piece can still fall. */
  lemma FreeRowWithinDistance(board: Board, cat: Catalog, piece: Tetromino, k: nat)
    requires |board| > 0 && cat(piece.shape, piece.rotation) != []
    requires k <= DropDistance(board, cat, piece)
    requires !Collides(board, cat, Lowered(Lowered(piece, k), 1))
    ensures k < DropDistance(board, cat, piece)
  {
  }

  /** A downward search that stops at the first colliding row `k` below
      `start`: it stopped at once exactly when the start collides, and
      otherwise the row above the stop is the landing row. */
  lemma SearchStop(board: Board, cat: Catalog, start: Tetromino, k: nat)
    requires |board| > 0 && cat(start.shape, start.rotation) != []
    requires Collides(board, cat, Lowered(start, k))
    requires forall j :: 0 <= j < k ==> !Collides(board, cat, Lowered(start, j))
    ensures Collides(board, cat, start) <==> k == 0
    ensures k > 0 ==>
      DropDistance(board, cat, start) == k - 1 &&
      !Collides(board, cat, Lowered(start, k - 1)) &&
      Collides(board, cat, Lowered(Lowered(start, k - 1), 1))
  {
    assert start == Lowered(start, 0);
    if k > 0 {
      LoweredTwice(start, k - 1);
      DropDistanceUnique(board, cat, start, k - 1);
    }
  }

  /** On an empty board, a piece whose tiles lie within the columns falls
      until its lowest tile `low` reaches the bottom row. */
  lemma EmptyBoardLanding(board: Board, cat: Catalog, piece: Tetromino, low: Pos)
    requires |board| > 0 && IsRectangular(board)
    requires forall r, c :: 0 <= r < |board| && 0 <= c < |board[r]| ==> board[r][c] == None
    requires low in cat(piece.shape, piece.rotation)
    requires forall t :: t in cat(piece.shape, piece.rotation) ==>
      t.y <= low.y && 0 <= piece.position.x + t.x < |board[0]|
    requires piece.position.y + low.y <= |board| - 1
    ensures DropDistance(board, cat, piece) == |board| - 1 - piece.position.y - low.y
  {
    var m := |board| - 1 - piece.position.y - low.y;
    LoweredTwice(piece, m);
    assert Blocked(board, piece.position.x + low.x, Lowered(piece, m + 1).position.y + low.y);
    DropDistanceUnique(board, cat, piece, m);
  }

  /** A mutable position object, shared by reference as in the source. */
  class Position {
    var x: int
    var y: int

    constructor (x: int, y: int)
      ensures this.x == x && this.y == y
    {
      this.x := x;
      this.y := y;
    }
  }

  /** A piece object whose `position` field refers to a Position object. */
  class PieceRef {
    var shape: Shape
    var rotation: Rotation
    var tiles: seq<Pos>
    var position: Position

    constructor (shape: Shape, rotation: Rotation, tiles: seq<Pos>, position: Position)
      ensures this.shape == shape && this.rotation == rotation
      ensures this.tiles == tiles && this.position == position
    {
      this.shape := shape;
      this.rotation := rotation;
      this.tiles := tiles;
      this.position := position;
    }

    /** The piece as a value. */
    function Value(): (p: Tetromino)
      reads this, position
      ensures p.shape == shape && p.rotation == rotation && p.tiles == tiles
      ensures p.position == Pos(position.x, position.y)
    {
      Tetromino(shape, Pos(position.x, position.y), rotation, tiles)
    }
  }

  /** The ghost search. The copy of the piece is shallow, so it shares the
      caller's Position object: the caller's piece ends at the returned
      position, and the returned object is that same Position. From a free
      start it is the landing row (free, with the row below blocked); from a
      blocked start it is one row above the start. */
  method GetGhostPiecePosition(board: Board, cat: Catalog, piece: PieceRef) returns (r: Position)
    requires |board| > 0 && cat(piece.shape, piece.rotation) != []
    modifies piece.position
    ensures r == piece.position && piece.position == old(piece.position)
    ensures piece.position.x == old(piece.position.x)
    ensures old(Collides(board, cat, piece.Value())) ==> r.y == old(piece.position.y) - 1
    ensures !old(Collides(board, cat, piece.Value())) ==>
      r.y == old(piece.position.y) + DropDistance(board, cat, old(piece.Value())) &&
      !Collides(board, cat, piece.Value()) &&
      Collides(board, cat, Lowered(piece.Value(), 1))
  {
    ghost var start := piece.Value();
    var ghostPiece := new PieceRef(piece.shape, piece.rotation, piece.tiles, piece.position);
    ghost var k: nat := 0;
    while !Collides(board, cat, ghostPiece.Value())
      invariant ghostPiece.position == piece.position
      invariant ghostPiece.shape == piece.shape && ghostPiece.rotation == piece.rotation
      invariant ghostPiece.tiles == piece.tiles
      invariant ghostPiece.Value() == Lowered(start, k)
      invariant forall j :: 0 <= j < k ==> !Collides(board, cat, Lowered(start, j))
      decreases |board| - ghostPiece.position.y - cat(piece.shape, piece.rotation)[0].y
    {
      assert cat(piece.shape, piece.rotation)[0] in cat(piece.shape, piece.rotation);
      ghostPiece.position.y := ghostPiece.position.y + 1;
      k := k + 1;
    }
    ghostPiece.position.y := ghostPiece.position.y - 1;
    r := ghostPiece.position;
    SearchStop(board, cat, start, k);
    if k > 0 {
      assert piece.Value() == Lowered(start, k - 1);
    }
  }
}

/** Removal of full rows. */
module LineClearing {
  import opened Types

  /** A row with no empty cell (a row of width zero counts as full). */
  predicate IsFull(row: Row)
  {
    None !in row
  }

  /** The board has no full row. */
  predicate NoFullRows(board: Board)
  {
    forall r :: 0 <= r < |board| ==> !IsFull(board[r])
  }

  /** The rows that survive a clear: those with an empty cell, in order. */
  function Kept(board: Board): (kept: Board)
    ensures |kept| <= |board|
  {
    if board == [] then []
    else
      var last := board[|board| - 1];
      Kept(board[..|board| - 1]) + (if IsFull(last) then [] else [last])
  }

  /** The number of full rows. */
  function FullRowCount(board: Board): (n: nat)
    ensures n <= |board|
  {
    if board == [] then 0
    else FullRowCount(board[..|board| - 1]) + (if IsFull(board[|board| - 1]) then 1 else 0)
  }

  /** The outcome of a clear: the new board and how many rows went. */
  datatype Cleared = Cleared(clearedBoard: Board, linesCleared: nat)

  /** The width of fresh rows: that of the input's top row. */
  function TopWidth(board: Board): nat
  {
    if board == [] then 0 else |board[0]|
  }

  /** The clear as a value: the kept rows at the bottom, below as many empty
      rows of the top row's width as were removed. */
  function ClearedBoard(board: Board): (c: Cleared)
  {
    var kept := Kept(board);
    var n := |board| - |kept|;
    Cleared(seq(n, _ => EmptyRow(TopWidth(board))) + kept, n)
  }

  /** The clear as the source runs it: filter the rows that have an empty
      cell, then put empty rows on top until the height is restored. */
  method ClearLines(board: Board) returns (result: Cleared)
    ensures result == ClearedBoard(board)
    ensures |result.clearedBoard| == |board|
    ensures result.linesCleared == FullRowCount(board)
  {
    var newBoard := Kept(board);
    ghost var kept := newBoard;
    var linesCleared := |board| - |newBoard|;
    while |newBoard| < |board|
      invariant |kept| <= |newBoard| <= |board|
      invariant newBoard == seq(|newBoard| - |kept|, _ => EmptyRow(TopWidth(board))) + kept
    {
      newBoard := [EmptyRow(|board[0]|)] + newBoard;
    }
    result := Cleared(newBoard, linesCleared);
    KeptCount(board);
  }

  /** Every row is either kept or counted as full. */
  lemma {:induction false} KeptCount(board: Board)
    ensures |Kept(board)| + FullRowCount(board) == |board|
  {
    if board != [] {
      KeptCount(board[..|board| - 1]);
    }
  }

  /** Clearing a concatenation clears each part: rows keep their relative
      order. */
  lemma {:induction false} KeptConcat(a: Board, b: Board)
    ensures Kept(a + b) == Kept(a) + Kept(b)
  {
    if b == [] {
      assert a + b == a;
    } else {
      assert (a + b)[..|a + b| - 1] == a + b[..|b| - 1];
      KeptConcat(a, b[..|b| - 1]);
    }
  }

  /** The kept rows are rows of the input, and none of them is full. */
  lemma {:induction false} KeptRows(board: Board)
    ensures forall i :: 0 <= i < |Kept(board)| ==>
      Kept(board)[i] in board && !IsFull(Kept(board)[i])
  {
    if board != [] {
      KeptRows(board[..|board| - 1]);
      forall i | 0 <= i < |Kept(board)|
        ensures Kept(board)[i] in board && !IsFull(Kept(board)[i])
      {
        var front := Kept(board[..|board| - 1]);
        if i < |front| {
          assert front[i] in board[..|board| - 1];
        }
      }
    }
  }

  /** A board without full rows is kept whole. */
  lemma {:induction false} KeptNoFull(board: Board)
    requires NoFullRows(board)
    ensures Kept(board) == board
  {
    if board != [] {
      KeptNoFull(board[..|board| - 1]);
    }
  }

  /** The result has the input's height; its top `linesCleared` rows are
      empty rows of the top row's width, and the rest are the input's non-full
      rows in their order; `linesCleared` is the number of full input rows. */
  lemma ClearedShape(board: Board)
    ensures var c := ClearedBoard(board);
      |c.clearedBoard| == |board| &&
      c.linesCleared == FullRowCount(board) &&
      (forall r :: 0 <= r < c.linesCleared ==> c.clearedBoard[r] == EmptyRow(TopWidth(board))) &&
      c.clearedBoard[c.linesCleared..] == Kept(board)
  {
    KeptCount(board);
  }

  /** With a top row of width at least one, no full row is left. */
  lemma ClearedHasNoFullRow(board: Board)
    requires TopWidth(board) >= 1
    ensures NoFullRows(ClearedBoard(board).clearedBoard)
  {
    var c := ClearedBoard(board);
    KeptRows(board);
    forall r | 0 <= r < |c.clearedBoard|
      ensures !IsFull(c.clearedBoard[r])
    {
      if r < c.linesCleared {
        assert c.clearedBoard[r][0] == None;
      } else {
        assert c.clearedBoard[r] == Kept(board)[r - c.linesCleared];
      }
    }
  }

  /** A board without full rows comes back unchanged, with nothing cleared. */
  lemma NothingToClear(board: Board)
    requires NoFullRows(board)
    ensures ClearedBoard(board) == Cleared(board, 0)
  {
    KeptNoFull(board);
  }

  /** Clearing twice clears nothing the second time. */
  lemma ClearIdempotent(board: Board)
    requires TopWidth(board) >= 1
    ensures var c := ClearedBoard(board).clearedBoard;
      ClearedBoard(c) == Cleared(c, 0)
  {
    ClearedHasNoFullRow(board);
    NothingToClear(ClearedBoard(board).clearedBoard);
  }

  /** If every full row's index lies in `rows`, there are at most |rows| full
      rows. */
  lemma {:induction false} FullRowsWithin(board: Board, rows: set<int>)
    requires forall r :: 0 <= r < |board| && IsFull(board[r]) ==> r in rows
    ensures FullRowCount(board) <= |rows|
  {
    if board != [] {
      var n := |board| - 1;
      if IsFull(board[n]) {
        FullRowsWithin(board[..n], rows - {n});
      } else {
        FullRowsWithin(board[..n], rows);
      }
    }
  }
}

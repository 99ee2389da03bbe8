# Falling-block game engine (blockblast) in Dafny

This project models the deterministic engine of the blockblast browser game, a
Tetris-style falling-block puzzle. It covers:

- the piece transforms: create, rotate and move a tetromino;
- placing a piece onto a copy of the board;
- collision detection, which lets tiles stick out above the top row;
- the ghost-piece (landing preview) search;
- line clearing;
- the scoring, level and drop-speed arithmetic;
- the drop transition: fall one row, or lock, clear, score, respawn and test
  for game over;
- the state updates behind the seven keyboard actions, gathered in one
  transition function `KeyboardControls.Step`;
- the hard-drop counting loop.

Two parts of the program are not visible to the engine, so they become
parameters:

- The shape catalog (the tile offsets of each shape in each rotation) is a
  `Catalog` function. No particular offsets are assumed.
- The random shape appended to the preview queue is the `newShape` argument
  of the transitions.

| file | module | what it holds |
|---|---|---|
| `types.dfy` | `Types` | shapes, positions, pieces, rows and boards, settings, the game snapshot |
| `scoring.dfy` | `Scoring` | line-clear points, level, lock and hard-drop bonuses, drop speed |
| `collision.dfy` | `Collision` | the collision test; the ghost search over mutable `Position`/`PieceRef` objects |
| `line_clearing.dfy` | `LineClearing` | removal of full rows, as a function and as the padding loop |
| `game_logic.dfy` | `GameLogic` | the piece transforms, placement, the game-over test, `DropPiece` |
| `keyboard_controls.dfy` | `KeyboardControls` | the action updaters as `Step`, and the hard-drop loop |
| `game.dfy` | `Game` | the initial state, start and timer tick, and the session invariant `Inv` |

Each loop in the source is a method, proved equal to a specification function
(the ghost search only from a free start; from a blocked start it is proved
to end one row above the start):

| method | specification function |
|---|---|
| `CheckCollision` | `Collides` |
| `PlacePiece` | `Placed` |
| `ClearLines` | `ClearedBoard` |
| `FallToLanding` | `Landed`, `RowsToLand` |
| `HardDropLoop` | `HardDropped` |
| `GetGhostPiecePosition` | `DropDistance` |

The properties are proved about those functions.

The session invariant `Game.Inv` holds when:

- the board is rectangular, with at least two rows and one column;
- no row is full;
- the preview queue is nonempty;
- a new piece fits the board;
- the current piece can be placed.

Together with a catalog whose entries have one to four tiles, `Game.Inv`
guarantees that every transition's precondition holds, and every transition
keeps it.

The model keeps these behaviours of the code:

- **Pause is one-way.** Every key handler first returns unless the game is
  playing with a piece (app/hooks/useKeyboardControls.ts:14). So the pause
  key takes a game from playing to paused, and it cannot resume a paused
  game.
- **The ghost search moves the caller's piece.** It copies the piece with a
  shallow spread, so the caller's position object is moved as well, and the
  object it returns is that same one. Every other update in the engine
  builds new values and leaves its arguments as they were.
- **The game-over test ignores the incoming piece.** It only looks for blocks
  in the top two rows. The spawn position it computes, and the `nextPiece`
  argument, play no part.
- **Line-clear points use the level from before the lock.**

## Model

| member | source | states |
|---|---|---|
| Types.EmptyRow | app/utils/gameLogic.ts:79 | a fresh row has the requested width and every cell is empty |
| Scoring.BasePoints | app/utils/scoring.ts:6 | the points table gives nothing for zero rows and at least 40 for one to four rows |
| Scoring.CalculateScore | app/utils/scoring.ts:1-8 | clearing no row keeps the score; at a non-negative level the score never falls, and any cleared row adds at least 40 |
| Scoring.CalculateLevel | app/utils/scoring.ts:10-12 | the level is the floor of the total over ten: 10*level <= lines < 10*level + 10 |
| Scoring.AddPlacingScore | app/utils/scoring.ts:14-16 | every lock adds exactly 10 points |
| Scoring.AddHardDropScore | app/utils/scoring.ts:18-20 | a hard drop adds exactly two points per row fallen, never lowering the score for a non-negative count |
| Scoring.GetDropSpeed | app/utils/scoring.ts:22-25 | the interval is never below 50 ms; it is 1000 - 50*level up to level 19 and 50 from level 19 on |
| Scoring.ScoreExamples | app/utils/scoring.ts:1-8 | no cleared row keeps any score; a single at level 0 is 40 and a four-row clear is 1200 |
| Scoring.LevelExamples | app/utils/scoring.ts:10-12 | 9 lines are level 0 and 10 lines are level 1 |
| Scoring.LevelMonotone | app/utils/scoring.ts:10-12 | more lines never give a lower level |
| Scoring.DropSpeedExamples | app/utils/scoring.ts:22-25 | the interval is 1000 ms at level 0 and 50 ms at levels 19 and 25 |
| Scoring.DropSpeedNonIncreasing | app/utils/scoring.ts:22-25 | a higher level never gives a slower drop |
| Collision.Collides | app/utils/collisionDetection.ts:4-26 | no contract of its own: the specification of the collision test. `CheckCollision` is proved to answer it; `OutOfBoundsCollides`, `AboveBoardNeverCollides` and `FreeIff` state what it means for walls, floor, the rows above the top and the cells |
| Collision.CheckCollision | app/utils/collisionDetection.ts:4-26 | the early-return loop answers true exactly when some tile is outside the columns, below the floor, or on an occupied visible cell |
| Collision.OutOfBoundsCollides | app/utils/collisionDetection.ts:15-17 | one tile outside the side walls or below the floor makes the piece collide, whatever the board holds |
| Collision.AboveBoardNeverCollides | app/utils/collisionDetection.ts:20 | a piece wholly above the top row and within the columns never collides |
| Collision.FreeIff | app/utils/collisionDetection.ts:10-25 | on a rectangular board a piece is free iff every tile is within the columns, above the floor, and above the top or on an empty cell |
| Collision.Lowered | app/utils/collisionDetection.ts:35 | lowering changes only the row of the position, by exactly the given amount |
| Collision.DropDistance | app/utils/collisionDetection.ts:34-36 | one row below the piece lowered by the distance, it collides; the distance is bounded by the first tile's distance to the floor, so the search ends |
| Collision.FreeAboveLanding | app/utils/collisionDetection.ts:34-36 | the piece is free at every row from one down to the drop distance |
| Collision.FreeBelow | app/utils/collisionDetection.ts:34-36 | lowered by fewer rows than the drop distance, the piece still has a free row below it |
| Collision.DropDistanceUnique | app/utils/collisionDetection.ts:34-39 | any count that is free all the way and blocked one row lower is the drop distance |
| Collision.EmptyBoardLanding | app/utils/collisionDetection.ts:34-36 | on an empty board, with every tile within the columns, the search falls until the lowest tile reaches the bottom row: the drop distance is the board height less one, less the piece's row and the lowest tile's offset |
| Collision.StopIsLanding | app/utils/collisionDetection.ts:34-39 | a count within the drop distance whose next row is blocked is the drop distance |
| Collision.FreeRowWithinDistance | app/utils/collisionDetection.ts:34-36 | if the next row is free, the count is still below the drop distance |
| Collision.SearchStop | app/utils/collisionDetection.ts:34-39 | a downward search stops at once exactly when the start collides; otherwise the row above the stop is the drop distance, free, with the row below blocked |
| Collision.GetGhostPiecePosition | app/utils/collisionDetection.ts:28-42 | the returned object is the caller's own position object, moved in place; from a free start it ends on the landing row, where the piece is free and the row below is blocked; from a blocked start it ends one row above; the column never changes |
| LineClearing.Kept | app/utils/lineClearing.ts:7 | filtering never yields more rows than the input |
| LineClearing.FullRowCount | app/utils/lineClearing.ts:7-8 | the number of full rows is at most the height |
| LineClearing.ClearedBoard | app/utils/lineClearing.ts:3-16 | no contract of its own: the specification of the clear. `ClearLines` is proved to compute it; `ClearedShape`, `ClearedHasNoFullRow`, `NothingToClear` and `ClearIdempotent` state its height, empty top rows, surviving rows in order, the absence of full rows, and idempotence |
| LineClearing.ClearLines | app/utils/lineClearing.ts:3-16 | the filter-and-pad loop yields the cleared board, keeps the height, and reports the number of full input rows |
| LineClearing.KeptCount | app/utils/lineClearing.ts:7-8 | kept rows plus full rows account for every input row |
| LineClearing.KeptConcat | app/utils/lineClearing.ts:7 | the filter distributes over concatenation, so surviving rows keep their relative order |
| LineClearing.KeptRows | app/utils/lineClearing.ts:7 | every surviving row is an input row and has an empty cell |
| LineClearing.KeptNoFull | app/utils/lineClearing.ts:7 | a board without full rows survives the filter whole |
| LineClearing.ClearedShape | app/utils/lineClearing.ts:7-13 | the result has the input's height; its top rows, one per full row, are empty rows of the top row's width; below them are the surviving rows in order |
| LineClearing.ClearedHasNoFullRow | app/utils/lineClearing.ts:7-13 | when the top row has at least one cell, no full row is left |
| LineClearing.NothingToClear | app/utils/lineClearing.ts:7-8 | a board without full rows comes back identical, with zero rows cleared |
| LineClearing.ClearIdempotent | app/utils/lineClearing.ts:7-13 | clearing a cleared board clears nothing and changes nothing |
| GameLogic.CreateTetromino | app/utils/gameLogic.ts:14-24 | a new piece has the given shape, rotation 0, the spawn position (3, 0) by default, and the catalog's rotation-0 tiles |
| GameLogic.RotateTetromino | app/utils/gameLogic.ts:26-36 | rotation moves one step forward (clockwise) or back modulo 4; shape and position are kept; the tiles follow the catalog |
| GameLogic.MoveTetromino | app/utils/gameLogic.ts:38-46 | the position moves by exactly (dx, dy); shape, rotation and tiles are kept |
| GameLogic.RotateFourTimes | app/utils/gameLogic.ts:26-36 | four clockwise turns restore a consistent piece |
| GameLogic.RotateThenBack | app/utils/gameLogic.ts:26-36 | a clockwise turn and a counter-clockwise turn undo each other, in either order |
| GameLogic.MoveThenBack | app/utils/gameLogic.ts:38-46 | moving by (dx, dy) and then by (-dx, -dy) restores the piece |
| GameLogic.FreeIsWritable | app/utils/gameLogic.ts:55-61 | a piece that does not collide writes only within the board |
| GameLogic.Placed | app/utils/gameLogic.ts:48-64 | placement keeps the height and every row's width |
| GameLogic.PlacePiece | app/utils/gameLogic.ts:48-64 | the tile-by-tile writing loop yields exactly the placed board; the input board is a value and stays as it was |
| GameLogic.PlacedCells | app/utils/gameLogic.ts:55-61 | every visible tile's cell holds the piece's shape and every cell no tile covers is unchanged; tiles above the top are dropped |
| GameLogic.PlacedFullRows | app/utils/gameLogic.ts:115-119 | on a board without full rows, a placement fills at most as many rows as the piece has tiles |
| GameLogic.CheckGameOver | app/utils/gameLogic.ts:66-76 | the game is not over exactly when rows 0 and 1 are both empty |
| GameLogic.GameOverIgnoresNextPiece | app/utils/gameLogic.ts:66-76 | the next-piece argument makes no difference to the verdict |
| GameLogic.CreateEmptyBoard | app/utils/gameLogic.ts:78-80 | the board has `height` rows of `width` cells, all empty |
| GameLogic.DefaultSettings | app/utils/gameLogic.ts:82-100 | the defaults are a 10 x 20 board with a 1000 ms drop |
| GameLogic.DropPiece | app/utils/gameLogic.ts:102-141 | no contract of its own: `DropWithoutPiece` (no piece), `DropFalls` (fall one row), `DropLocks` (lock, clear, score, respawn, game over) and `DropStatus` state each branch, and `Game.DropKeepsInv` that it keeps the session invariant |
| GameLogic.DropWithoutPiece | app/utils/gameLogic.ts:103 | with no current piece a drop leaves the state unchanged |
| GameLogic.DropFalls | app/utils/gameLogic.ts:105-112 | if the next row is free, only the piece's row grows by one and nothing else changes |
| GameLogic.DropStatus | app/utils/gameLogic.ts:102-141 | a drop step keeps the status, or ends the game and removes the piece |
| GameLogic.DropLocks | app/utils/gameLogic.ts:113-140 | on lock: the board is the cleared placement and keeps its height; the line total grows by the rows cleared; the level is the new total over ten; the score gains the points at the old level plus 10; the queue shifts by one and keeps its length; game over means no piece and status gameOver, otherwise the next shape spawns; held piece, hold flag, high score and settings are untouched |
| KeyboardControls.ActionOf | app/hooks/useKeyboardControls.ts:18-88 | a key selects the first binding, in switch order, that equals it; an unbound key selects nothing |
| KeyboardControls.TryPiece | app/hooks/useKeyboardControls.ts:21-28 | no contract of its own: the accept-if-free update shared by the move and rotate keys (also lines 31-41 and 48-58); `MoveOrRotateAcceptedIff` states that it changes only the piece, and exactly when the candidate is free |
| KeyboardControls.Landed | app/hooks/useKeyboardControls.ts:65-71 | the fall changes only the current piece and keeps it present |
| KeyboardControls.FallOneRow | app/hooks/useKeyboardControls.ts:65-71 | a turn of the fall loop keeps the count within the drop distance and lowers the piece one row |
| KeyboardControls.LoopStopsAtLanding | app/hooks/useKeyboardControls.ts:65-71 | when the fall loop stops, the state is the landed one and the count is the drop distance |
| KeyboardControls.FallToLanding | app/hooks/useKeyboardControls.ts:63-71 | the counting loop ends with the piece landed and the count equal to the drop distance |
| KeyboardControls.HardDropped | app/hooks/useKeyboardControls.ts:62-75 | no contract of its own: the specification of the hard drop. `HardDropLoop` is proved to compute it, `HardDropLocks` states that it locks and what it scores, and `Game.StepKeepsInv` that it keeps the session invariant |
| KeyboardControls.HardDropLoop | app/hooks/useKeyboardControls.ts:62-75 | the counting loop ends and yields the hard drop: land, add two points per row, then lock |
| KeyboardControls.Step | app/hooks/useKeyboardControls.ts:18-87 | no contract of its own: the seven updaters. `OnlyPlayingReacts`, `PauseFromPlaying`, `MoveOrRotateAcceptedIff`, `SoftDropIsDrop`, `HardDropLocks`, `HoldDoesNothing` and `StatusChanges` state each action, and `Game.StepKeepsInv` that every action keeps the session invariant |
| KeyboardControls.HandleKeyDown | app/hooks/useKeyboardControls.ts:13-89 | no contract of its own: a key runs the action `ActionOf` selects. `UnboundKeyIgnored` states that an unbound key changes nothing, the action lemmas above state each bound case, and `Game.HandleKeyDownKeepsInv` that every key press keeps the session invariant |
| KeyboardControls.UnboundKeyIgnored | app/hooks/useKeyboardControls.ts:18-88 | a key that matches no control falls through the switch and leaves the state unchanged |
| KeyboardControls.OnlyPlayingReacts | app/hooks/useKeyboardControls.ts:14 | outside play, or with no piece, every action is a no-op, so pause cannot resume a paused game |
| KeyboardControls.PauseFromPlaying | app/hooks/useKeyboardControls.ts:84-87 | pause takes a playing game to paused and changes nothing else |
| KeyboardControls.MoveOrRotateAcceptedIff | app/hooks/useKeyboardControls.ts:21-57 | a move or clockwise rotation changes the state iff the candidate is free, and then only the piece changes; a free piece stays free |
| KeyboardControls.SoftDropIsDrop | app/hooks/useKeyboardControls.ts:43-46 | the soft drop is one drop step |
| KeyboardControls.HoldDoesNothing | app/hooks/useKeyboardControls.ts:79-82 | hold leaves the state unchanged |
| KeyboardControls.LandedBlocked | app/hooks/useKeyboardControls.ts:65 | after the fall the piece is present and the row below it is blocked |
| KeyboardControls.HardDropLocks | app/hooks/useKeyboardControls.ts:62-75 | after the fall the row below is blocked, so the final drop locks; the score rises by two per row fallen, the line-clear points at the old level and the lock bonus |
| KeyboardControls.HardDropOnEmptyBoard | app/hooks/useKeyboardControls.ts:62-75 | on an empty board the piece falls until its lowest tile is on the bottom row, and the score gains two points for each of those rows, the line-clear points and the lock bonus |
| KeyboardControls.StatusChanges | app/hooks/useKeyboardControls.ts:14-87 | the status changes only from playing: to paused by pause, or to game over by a soft or hard drop |
| Game.InitialState | app/components/Game.tsx:15-34 | a session opens in the menu with zero score, level and lines, the first piece at spawn, five queued shapes and an empty 10 x 20 board |
| Game.StartGame | app/components/Game.tsx:59-61 | starting sets status playing and changes nothing else |
| Game.InitialInv | app/components/Game.tsx:15-34 | the opening state, and the started one, satisfy the session invariant |
| Game.SpawnWritable | app/utils/gameLogic.ts:123-124 | a spawned piece can be placed on a board of the session's size |
| Game.LockFitsTable | app/utils/gameLogic.ts:115-119 | under the invariant a lock has everything it needs, and it clears at most four rows, the size of the points table |
| Game.LockKeepsInv | app/utils/gameLogic.ts:113-140 | under the invariant a lock yields a state that keeps the invariant |
| Game.DropKeepsInv | app/utils/gameLogic.ts:102-141 | under the invariant every drop step is defined and keeps the invariant |
| Game.LandedKeepsInv | app/hooks/useKeyboardControls.ts:65-71 | under the invariant the hard-drop fall is defined and keeps the invariant |
| Game.StepKeepsInv | app/hooks/useKeyboardControls.ts:19-87 | under the invariant every keyboard action is defined and keeps the invariant |
| Game.HandleKeyDownKeepsInv | app/hooks/useKeyboardControls.ts:13-89 | under the invariant every key press, bound or not, is defined and keeps the invariant |
| Game.Tick | app/components/Game.tsx:37-42 | no contract of its own: the timer drop while playing, and nothing otherwise. `TickKeepsInv` states that it keeps the session invariant, and `GameOverIsFinal` that it leaves a finished game alone |
| Game.TickKeepsInv | app/components/Game.tsx:37-42 | under the invariant the timer's drop is defined and keeps the invariant |
| Game.GameOverIsFinal | app/hooks/useKeyboardControls.ts:14 | once the game is over, no action and no tick changes the state |

## Left out

- The concrete shape table lives in `app/types/TetrominoType`, which is not part of this model. It is the `Catalog` parameter, and nothing is assumed about its offsets. Properties that depend on the offsets take the relevant tile as a parameter: `Collision.EmptyBoardLanding` and `KeyboardControls.HardDropOnEmptyBoard` state the landing row of the lowest tile on an empty board. The landing row of the piece's origin itself depends on the table's offsets and is not stated.
- `generateRandomPiece` draws from `Math.random`. Its result is the `newShape` parameter, and the five initial preview shapes are the `queue` parameter of `Game.InitialState`.
- The React and DOM wiring is left out: the `keydown` listener, `preventDefault`, the `setInterval` timer, the overlays and the page reload. `Game.Tick` is one timer callback together with the effect that arms the timer: the callback itself (app/components/Game.tsx:40-42) drops unconditionally, and its `status == Playing` test stands for the effect's test (app/components/Game.tsx:38), since no timer runs in any other status. The dependence of the drop interval on the level is only in `Scoring.GetDropSpeed`.
- The key handler reads the rendered state in its guard, but each updater runs on the latest state. The model applies both to one state; queued updates that see different states are not modelled.
- Rendering, tile skins (`app/utils/tileLoader.ts`), sound and high-score persistence are left out, because they carry no game logic.
- Hold is declared in the source but does nothing. It stays a no-op, and swap semantics are not invented.
- Scores and counts are unbounded integers. The floating-point number type of the source, and its precision limit above 2^53, are not modelled. `Math.floor` of a division by 10 agrees with Dafny's `/` for every integer, so negative totals need no special case.
- Scoring.CalculateScore: the points table has five entries, and more than four rows in one lock would read past it and give NaN in the source. The model requires at most four rows, and `Game.LockFitsTable` shows that this holds in every reachable lock.
- GameLogic.PlacePiece: in the source, a write below the board throws for the missing row. A write at a negative column only adds a non-index property to the row array, leaving its cells and length unchanged, and the next `[...row]` copy drops it. A write past the right edge lengthens the row. The model requires every visible tile to land on the board (`Writable`), and the only call site, the lock, meets this: it places the current piece, and the `Writable` part of `Game.Inv` holds for it. That part is kept by `Game.SpawnWritable` for a new piece, `GameLogic.FreeIsWritable` for a move, rotation or fall, and `Game.LandedKeepsInv` for a hard drop; `Game.LockFitsTable` and `Game.LockKeepsInv` use it at the lock.
- GameLogic.DropPiece: the lock reads `nextPieces[0]`, and the game-over test reads `board[1]` only when row 0 holds no block (the `||` at app/utils/gameLogic.ts:74-75 short-circuits). So on a one-row board whose row is occupied the source reports game over. The model requires two rows and a nonempty queue whenever the piece locks, so it does not cover that one-row case. Every board the game creates has 20 rows, and `Game.Inv` guarantees both requirements.
- Collision.CheckCollision: the model requires a nonempty board, and so do `Collision.Blocked` and `Collision.Collides`. On an empty board the source throws at `board[0].length` for a piece with a tile, and answers false for a piece without tiles; neither case is modelled. `Game.Inv` keeps at least two rows, so no reachable state has an empty board.
- Collision.GetGhostPiecePosition: with an empty tile list the source loop never ends. The model requires a nonempty catalog entry, and `KeyboardControls.HardDropLoop` and `Collision.DropDistance` make the same requirement.
- Boards and states are values. A copied board that aliases the input, and a shared row, are therefore not modelled. Only the ghost search's shared position object is modelled with objects, because there the sharing changes what the caller observes.

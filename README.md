# Tetris core in Dafny

This project models the game logic of a small SDL Tetris.

- **`tetris.c`** holds the engine:
  - a 20 x 10 board of colour identifiers, where 0 is an empty cell;
  - the falling block, a 4 x 4 frame anchored at a column and row;
  - the seven tetromino shapes.
- **Engine procedures:** `initBoard`, `spawnBlock`, `checkCollision`, `placeBlock`, `clearLines`, `rotateBlock` and `moveBlock`.
- **`main.c`** drives them from `game_loop`:
  - it polls the event queue;
  - the start and restart buttons switch between the menu, play and game over;
  - the arrow keys and WASD act only during play;
  - a static frame counter makes the block fall one row every 30 frames.

The project has two layers.

- **Pure layer:**
  - `Board` covers the grid and what clearing lines does to it.
  - `Pieces` covers shapes, rotation, collision and the writes of a lock.
  - `Rules` states each procedure as a transition of one `State` value: the grid, the block, the score and the game state. Its lemmas prove the invariant the game keeps:
    - the grid is 20 x 10;
    - every cell holds a value in 0..7;
    - no row is ever left full;
    - the score is non-negative;
    - while the game is not over, the falling block overlaps neither a wall, the floor nor a locked cell.
- **Imperative layer:**
  - `Engine.Tetris` is a class that owns the board as an `array2<int>`, together with the current block, the score and the game state. Its methods keep the loops of the C procedures over the board (`initBoard`, `checkCollision`, `placeBlock`, `clearLines`) and the transform loop of `rotateBlock`. The 4 x 4 shape copies of `spawnBlock` (tetris.c:72-74) and `rotateBlock` (tetris.c:158-160) are single assignments of the frame value. Each method is proved to perform exactly the matching transition of `Rules`.
  - `Game.MainLoop` holds the frame counter and the running flag. Its methods are the poll loop and the frame update of `game_loop`. They are proved against `Game.Dispatch`, `Game.Run` and `Game.Tick`.

Three modelling choices:

- The random choice `rand() % NUM_BLOCKS` becomes a parameter `r` in `0..6`.
- A block's colour is kept as its shape index. `placeBlock` finds that index from the RGB triple, and the seven triples are distinct, so it always finds the block's own index. It stores the index plus 1.
- A mouse click is a pair of booleans: whether it lies in the start button and whether it lies in the restart button.

## Model

| member | source | states |
|---|---|---|
| Board.Kept | tetris.c:129-144 | the rows that survive clearing: each one is a row of the input and is not full; together with the full rows they account for every input row |
| Board.Cleared | tetris.c:127-145 | clearing keeps the number of rows: the k full rows become k empty rows on top |
| Board.LineScore | tetris.c:146 | the points for k cleared lines are zero exactly when k is 0, and at least 100 otherwise |
| Board.ClearedWellFormed | tetris.c:127-145 | after clearing, the board is still 20 rows of 10 cells, and cell values stay within 0..7 |
| Board.ClearedHasNoFullRow | tetris.c:129-144 | after clearing, no row is full |
| Board.KeptAllWhenNoneFull | tetris.c:129-144 | with no full row, every row is kept in place |
| Board.NothingFullNothingCleared | tetris.c:127-146 | with no full row, clearing leaves the board unchanged |
| Board.KeptConcat | tetris.c:139-141 | the rows that survive keep their relative order; kept rows and full-row counts add up over any split of the board |
| Board.KeptComplete | tetris.c:129-144 | every row that is not full survives clearing |
| Board.ClearedStep | tetris.c:136-144 | examining one more row: a full row adds an empty row on top, any other row is kept below |
| Board.ClearedPrefixStep | tetris.c:129-144 | one pass of the top-to-bottom loop turns the first i+1 rows into the clear of the original first i+1 rows and leaves the rows below untouched |
| Board.ClearBottomRowOnly | tetris.c:127-146 | when only the bottom row is full, one line is cleared and every other row moves down by one under a new empty top row |
| Board.NoFullRowCountsZero | tetris.c:129-137 | a board with no full row counts zero cleared lines |
| Pieces.TetrominoesAreTetrominoes | tetris.c:4-12 | the table `Tetrominoes` holds the seven shapes I, O, T, S, Z, J, L; every entry is a 4 x 4 frame with exactly four occupied cells, all in its top two rows |
| Pieces.Spawned | tetris.c:72-81 | the new block is table entry r with colour index r, at column 3, row 0 |
| Pieces.Blocked | tetris.c:94-97 | a cell is rejected beyond a side wall, below the floor, or on an occupied board cell; a row above the board is not by itself rejected |
| Pieces.Collides | tetris.c:90-103 | a placement collides when some occupied cell of the frame lands on a rejected cell |
| Pieces.Rotated | tetris.c:151-154 | the turned frame has the cell at row i, column j of the old frame at row j, column 3-i |
| Pieces.RotatedFourTimes | tetris.c:150-154 | four clockwise turns give back the original frame |
| Pieces.RotatedCells | tetris.c:152-154 | a turn moves the set of occupied cells by (i, j) to (j, 3-i) |
| Pieces.TurnAllSize | tetris.c:154 | the cell map of a turn is one-to-one, so it keeps the number of cells in any set |
| Pieces.RotatedKeepsCellCount | tetris.c:150-154 | a turn keeps the number of occupied cells of the frame |
| Pieces.FitsInside | tetris.c:97 | a placement that passes the collision test with its frame anchored at row 0 or below puts every occupied cell inside the board, on an empty cell |
| Pieces.SpawnFitsClearTop | tetris.c:80-86 | each of the seven shapes fits at the spawn point when the top four rows are empty |
| Pieces.SpawnFitsEmptyBoard | tetris.c:80-86 | each of the seven shapes fits at the spawn point of an empty board |
| Pieces.Stamp | tetris.c:107-121 | after a lock, every in-board cell covered by the block holds its colour index plus 1 |
| Pieces.StampAddsPieceCells | tetris.c:107-121 | locking a block that fits adds exactly its cells to the occupied cells; none of those cells was occupied before |
| Pieces.StampKeepsCellsInRange | tetris.c:110-120 | a lock writes only identifiers 1..7, so cell values stay within 0..7 |
| Rules.Spawn | tetris.c:70-87 | the block becomes the spawned block of shape r; the game becomes over exactly when it already was or that block collides, otherwise the game state is kept; grid and score are unchanged |
| Rules.Place | tetris.c:106-121 | the writes of placeBlock change only the grid |
| Rules.Clear | tetris.c:127-147 | the grid has no full row afterwards, the score rises by LineScore of the number of full rows, and block and game state are unchanged |
| Rules.Lock | tetris.c:106-124 | placeBlock leaves no full row, adds LineScore of the rows the written block completes, and spawns the block of shape r |
| Rules.Move | tetris.c:164-173 | a target that fits translates the block by (dx, dy); the grid, the score and the game state change only when a step with dy = 1 is blocked; the block keeps its frame or is replaced by the spawned block |
| Rules.Rotate | tetris.c:150-161 | only the frame may change; the turned frame replaces it exactly when it does not collide where the block stands, and otherwise the frame is kept |
| Rules.Restart | main.c:116-119 | the game is playing on an empty board with score 0 and the spawned block of shape r |
| Rules.SpawnEstablishesInv | tetris.c:70-87 | spawning restores the full invariant; the game becomes over exactly when it already was or the new block collides at the spawn point; grid and score are unchanged |
| Rules.LockPreservesInv | tetris.c:106-124 | placing a block that fits keeps the invariant, and raises the score by exactly 100·k² for the k rows it completes |
| Rules.MovePreservesInv | tetris.c:164-173 | a move with dy of 0 or 1 during play keeps the invariant and never lowers the score |
| Rules.MoveEndsGameOnlyBySpawn | tetris.c:164-173 | a move ends the game only when a downward step is blocked and the next block collides with the cleared grid at the spawn point |
| Rules.RotatePreservesInv | tetris.c:150-161 | a rotation keeps the invariant, the grid, the score, the game state, the anchor and the number of occupied cells |
| Rules.RestartPlays | main.c:116-119 | starting or restarting gives a running game on an empty board with score 0 and the new block of shape r |
| Rules.OFitsDownTo18 | tetris.c:90-103 | on an empty board, the O block at the spawn column fits exactly at rows 0 to 18 |
| Rules.OFalls | tetris.c:164-169 | while the O block fits, each downward move only lowers it by one row |
| Rules.OStepsDown | tetris.c:164-169 | on an empty board, one downward move of the O block above row 18 lowers it by one row and changes nothing else |
| Rules.OStamp | tetris.c:107-121 | writing the O block at the floor of an empty board fills rows 18-19, columns 3-4 with 2 and leaves no full row |
| Rules.OLocks | tetris.c:170-172 | the O block resting on the floor locks there; cells (18..19, 3..4) hold 2, no line is cleared, and the next block fits |
| Rules.ODropExample | tetris.c:106-173 | from a fresh game with the O block, 19 downward moves lock it at rows 18-19, columns 3-4, with score 0, and play goes on |
| Engine.TurnShape | tetris.c:151-154 | the transform loop of rotateBlock computes exactly the turned frame |
| Engine.Tetris.constructor | tetris.c:25-28 | the zero-initialised globals: an empty board, an empty block, score 0, and the game in the menu as gameState is initialised at main.c:17 |
| Engine.Tetris.InitBoard | tetris.c:31-35 | every cell becomes 0, and nothing else changes |
| Engine.Tetris.CheckCollision | tetris.c:90-103 | the early-exit scan answers true exactly when some occupied cell lands beyond a wall, below the floor, or on an occupied board cell |
| Engine.Tetris.SpawnBlock | tetris.c:70-87 | the block of shape r at column 3, row 0; the game becomes over when it collides; board and score are unchanged |
| Engine.Tetris.RowFull | tetris.c:130-135 | the early-exit scan answers true exactly when every cell of row i is non-zero |
| Engine.Tetris.ShiftDown | tetris.c:139-143 | the rows above i move down by one, row i is overwritten, and row 0 becomes empty |
| Engine.Tetris.ClearLines | tetris.c:127-147 | the board becomes the clear of the old board, and the score rises by 100·k² |
| Engine.Tetris.WriteCells | tetris.c:107-121 | the board becomes the old board with the block's cells written |
| Engine.Tetris.PlaceBlock | tetris.c:106-124 | performs Lock: write, clear, spawn; keeps the invariant |
| Engine.Tetris.RotateBlock | tetris.c:150-161 | performs Rotate and keeps the invariant |
| Engine.Tetris.MoveBlock | tetris.c:164-173 | performs Move and keeps the invariant |
| Game.Startup | main.c:216-218 | after initBoard and spawnBlock, the game is in the menu on an empty board with score 0 and the block of shape r |
| Game.Dispatch | main.c:104-146 | an event changes the state only when it is a click outside play or a key press during play |
| Game.Tick | main.c:149-155 | outside play neither the state nor the counter changes; the state changes only together with a counter reset to 0 |
| Game.BeforeQuit | main.c:104-108 | the handled events are a prefix of the queue with no Quit, and when the prefix is shorter than the queue, a Quit follows it |
| Game.BeforeQuitIsPrefix | main.c:104-108 | the handled events are exactly those before the first Quit |
| Game.Run | main.c:104-146 | dispatching the events in order keeps the invariant |
| Game.StartupInMenu | main.c:17 | at startup the game is in the menu, on an empty board with score 0, with a first block that fits |
| Game.DispatchPreservesInv | main.c:104-146 | every event keeps the invariant |
| Game.MenuLeftOnlyByStart | main.c:114-120 | in the menu, only a click in the start button changes the state, and it starts a game; every other event leaves the state as it was |
| Game.GameOverLeftOnlyByRestart | main.c:121-128 | after game over, only a click in the restart button changes the state, and it starts a game; every other event leaves the state as it was |
| Game.PlayEndsOnlyBySpawnCollision | main.c:132-144 | during play, no event returns to the menu; the game ends only on the down key, when the step is blocked and the next block collides at the spawn point |
| Game.PlayNeverLowersScore | main.c:132-144 | during play no event lowers the score |
| Game.TickProperties | main.c:149-155 | the counter stays in 0..29 and, during play, advances modulo 30, with the block stepping down exactly when it wraps to 0; the invariant is kept; outside play nothing changes |
| Game.MainLoop.constructor | main.c:216-218 | the setup initBoard then spawnBlock leaves the engine in the startup state, in the menu |
| Game.MainLoop.StartGame | main.c:116-119 | the start and restart branch performs Restart |
| Game.MainLoop.HandleEvent | main.c:105-145 | one event performs Dispatch, keeps the invariant, and clears the running flag exactly on Quit |
| Game.MainLoop.PollEvents | main.c:104-146 | the poll loop dispatches exactly the events before the first Quit, in order; running is cleared exactly when a Quit arrives |
| Game.MainLoop.Frame | main.c:149-155 | the frame update performs Tick |
| Game.MainLoop.GameLoop | main.c:102-155 | one call runs the poll, then the frame update; the frame update also runs after a Quit |

## Left out

- Rendering is not modelled. This covers `drawBoard`, `drawScore`, `drawMenu`, `drawGameOver` and the render calls in `game_loop`. Apart from drawing, `drawMenu` and `drawGameOver` only move the button rectangles; the click line below covers that.
- SDL and TTF setup and teardown, the Emscripten main-loop hooks, and `SDL_Delay` are not modelled. They are I/O and timing.
- Button geometry and `SDL_PointInRect` are replaced by the two booleans of a click. Both rectangles start as `{0, 0, 150, 50}` (main.c:20-21); `drawMenu` and `drawGameOver` move them to (150, 275) and (150, 310) (main.c:77-78, 91-92). Both are 150 x 50, so they overlap before and after the move, and a click can lie in both.
- `rand()` and the seed are replaced by the shape index `r` passed to each spawn.
- The RGB colour table and the reverse lookup loop in `placeBlock` (tetris.c:110-119) are modelled by keeping the shape index as the block's colour. The seven RGB triples are distinct, so the lookup always yields that index plus 1.
- `score` is an unbounded integer. One lock adds at most 4 · 4 · 100 = 1600 points (tetris.c:146), so 32-bit overflow would need about 1.34 million four-line clears; it is not modelled.
- `tetris.h` holds only declarations and constants, which are restated in the modules.
- Engine.Tetris.SpawnBlock, Engine.Tetris.RotateBlock: the element-wise copy of the 4 x 4 shape (tetris.c:72-74, 158-160) is one assignment of the frame value; the order of the sixteen writes is not modelled, and nothing can observe it.
- Engine.Tetris.MoveBlock: requires that the game is not over and that `dy >= 0`. Every caller in `main.c` passes a dy of 0 or 1, and only during play. The game ends only through a spawn collision (tetris.c:84-86). The block stored at game over therefore overlaps locked cells, and a lock would overwrite them (tetris.c:120). `WriteCells` needs a block that fits. `dy >= 0` keeps the anchor at row 0 or below; a negative row would make `placeBlock` index the board below 0.
- Engine.Tetris.PlaceBlock: requires the invariant with the game not over, that is, a block that fits. `placeBlock` writes without bounds checks, and it is only reached from `moveBlock` under that condition.
- Engine.Tetris.WriteCells: requires a block that fits and is anchored at row 0 or below, for the same reason.
- The spawn column follows the code: `BOARD_WIDTH / 2 - 2` = 3 (tetris.c:80). A dropped O block therefore occupies columns 3 and 4.
- The static frame counter (main.c:150) persists across games. The model keeps it in `Game.MainLoop` and does not reset it on restart, as in the code.

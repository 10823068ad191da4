# Tetris game engine in Dafny

A model of the game-state engine of a browser Tetris game (the `Tetris` class of
`tetris/tetris.js`). It covers the 20×10 grid of locked cells and the seven tetromino
shapes, as well as the falling piece and the collision rule. It also covers the piece
operations (move left or right, soft drop, rotate, hard drop), locking a piece into the
grid, line clearing and scoring, spawning, and the game-over reset in the game loop.

- `shapes.dfy`, module `Shapes`: the shape catalog and the rotation of a shape matrix.
- `board.dfy`, module `Board`: the grid and the collision rule. The rule is written
  twice: as the game's nested row and cell scan, and as a direct statement. The module
  also holds the grid after locking (`Merged`) and after clearing (`Cleared`).
- `game.dfy`, module `Game`: the class `Tetris`. Its fields are `grid`, `score`,
  `gameOver`, `current` and `started`, and its methods update them in place as the
  game does. Each method is proved against the functions of `Board` and `Shapes`.

Conventions: a grid cell is `0` when empty. Otherwise it holds a colour id `1..7`,
which is the catalog index of the locked piece's shape plus one. A shape cell is a
`bool` (the game's tables use `1` and `0`). The random shape choice is a parameter
`k < 7`. The falling piece is a value (`datatype Piece`) held in `current`, which is
`None` until the first piece is spawned.

The class invariant `Valid()` says these things:
- The grid is always 20×10.
- The score is a non-negative multiple of 100.
- The piece is a rectangular matrix with an occupied cell.
- The piece lies wholly on the field (`InBounds`).
- While the game is not over, the piece does not collide.

From this invariant, locking never writes above the top row (negative `y`) or outside
the grid. The source has no guard against that; the invariant shows the case cannot
arise.

## Model

| member | source | states |
|---|---|---|
| `Shapes.CatalogShape` | tetris/tetris.js:16-24 | every catalog shape is rectangular, has 1–2 rows and 2–4 columns, and has an occupied cell in its top row |
| `Shapes.Reverse` | tetris/tetris.js:106 | the result has the same length, with element `k` taken from position `n-1-k` |
| `Shapes.Rotated` | tetris/tetris.js:105-107 | the rotation (column `i` read bottom to top, built from `Column` and `Reverse`) is a quarter turn: width and height swap, and `r[i][j] == s[h-1-j][i]` |
| `Shapes.HalfTurn` | tetris/tetris.js:105-107 | two quarter turns give the matrix upside down and mirrored |
| `Shapes.FullTurn` | tetris/tetris.js:105-107 | four successive quarter turns give back the starting matrix |
| `Shapes.RotateFourTimes` | tetris/tetris.js:105-107 | rotating any rectangular shape four times gives back the original shape |
| `Shapes.RotatedPieceShape` | tetris/tetris.js:105-110 | rotation keeps a shape rectangular and keeps an occupied cell |
| `Shapes.RotateSquare` | tetris/tetris.js:20 | the O piece is unchanged by a rotation |
| `Shapes.RotateLine` | tetris/tetris.js:17 | the I piece turns into four rows of one cell, and back after a second turn |
| `Board.Blocked` | tetris/tetris.js:154-158 | the test for one occupied cell at grid position (x, y): left of column 0, right of the last column, below the floor, or on a filled cell at a row on the field; a cell above the field is never looked up |
| `Board.Collides` | tetris/tetris.js:148-162 | the collision check: the scan over the shape rows from row 0; equal to the direct rule `HitsObstacle` by `Board.CollidesIff` |
| `Board.SomeRow` | tetris/tetris.js:149-161 | the outer `some` over shape rows from row `dy` on: true as soon as one row holds a blocked occupied cell; characterised by `Board.SomeRowIff` |
| `Board.SomeCell` | tetris/tetris.js:150-160 | the inner `some` over the cells of row `dy` from column `dx` on: empty cells are skipped, and the scan is true as soon as an occupied cell is blocked; characterised by `Board.SomeCellIff` |
| `Board.SomeCellIff` | tetris/tetris.js:150-160 | the scan of one shape row finds a collision iff some occupied cell at or after the start column is blocked |
| `Board.SomeRowIff` | tetris/tetris.js:149-161 | the scan of the rows finds a collision iff some occupied cell in a row at or after the start row is blocked |
| `Board.CollidesIff` | tetris/tetris.js:148-162 | the collision check is true exactly when some occupied cell lands at `x < 0`, `x >= COLS`, `y >= ROWS`, or on a filled cell with `y >= 0`; cells above the field never meet the grid |
| `Board.EmptyRow` | tetris/tetris.js:180 | a row of `COLS` zero cells, the row pushed on top for each cleared row |
| `Board.Zeros` | tetris/tetris.js:180 | `k` empty rows, as `k` successive `unshift`s of an empty row leave on top: exactly `k` rows, each equal to `EmptyRow()` |
| `Board.EmptyGrid` | tetris/tetris.js:41 | the all-zero grid of a new game and of the reset at tetris/tetris.js:259: `ROWS` empty rows |
| `Board.FreeIsInBounds` | tetris/tetris.js:148-162 | a non-colliding piece whose top row is on the field lies wholly on the field |
| `Board.InBoundsFreeOnEmptyGrid` | tetris/tetris.js:148-162 | a piece on the field never collides with an empty grid |
| `Board.FreeIsAboveFloor` | tetris/tetris.js:141-146 | a non-colliding piece with an occupied cell has `y < ROWS`, which bounds the hard-drop loop |
| `Board.Merged` | tetris/tetris.js:164-172 | locking gives a 20×10 grid in which the cells under occupied piece cells hold the piece colour and all other cells are unchanged |
| `Board.MergeLocks` | tetris/tetris.js:164-172 | after locking, the piece collides with the grid at the place where it was locked |
| `Board.IsFull` | tetris/tetris.js:178 | a row is full when every cell is non-zero |
| `Board.FullCount` | tetris/tetris.js:178 | the number of full rows is at most the number of rows |
| `Board.Kept` | tetris/tetris.js:177-184 | the rows left after removing the full rows, in their original order, number `|g|` minus the full rows |
| `Board.KeptRows` | tetris/tetris.js:177-184 | every row left after removing the full rows is a row of the input and is not full |
| `Board.Cleared` | tetris/tetris.js:174-190 | after clearing, the grid is still 20×10; no row is full; every row is empty or a row of the old grid |
| `Board.ScanStart` | tetris/tetris.js:175-177 | the scan begins with no row counted, the whole grid unexamined and the index on the bottom row |
| `Board.ScanRowAt` | tetris/tetris.js:177-178 | during the bottom-up scan, the index is inside the grid, and the row under it is the lowest unexamined original row, or an inserted empty row (never full) once none is left |
| `Board.SuffixFull` | tetris/tetris.js:178-181 | a full original row adds one to the count and is not among the kept rows |
| `Board.CutAndPush` | tetris/tetris.js:179-180 | removing the element at position `y` and pushing a new element on the front gives the front element, then the elements before `y`, then those after it |
| `Board.ScanRemove` | tetris/tetris.js:179-180 | removing the full row at the index and inserting an empty row on top turns the scan grid with `k` rows removed and `m` unexamined into the one with `k+1` removed and `m-1` unexamined |
| `Board.ScanFullStep` | tetris/tetris.js:178-182 | a full row under the index is an original row; the removal, the insertion, the count and the same-index re-scan (`y++` then `y--`) keep the scan state |
| `Board.ScanSkip` | tetris/tetris.js:177-178 | an original row that is not full adds nothing to the count and stays in place |
| `Board.ScanOtherStep` | tetris/tetris.js:177-178 | a row under the index that is not full leaves the grid and count alone while the index moves up one row |
| `Board.ScanDone` | tetris/tetris.js:177-184 | once the index has passed the top row, the count is the number of full rows of the original grid and the grid is `Cleared` of it |
| `Board.KeptAppend` | tetris/tetris.js:177-184 | clearing a concatenation clears each part in place, so the rows that stay keep their relative order |
| `Board.KeptNoFull` | tetris/tetris.js:177-184 | a grid without full rows is left as it is and scores nothing |
| `Board.ClearedIdempotent` | tetris/tetris.js:174-190 | clearing a cleared grid changes nothing |
| `Board.ClearBottomRow` | tetris/tetris.js:174-190 | a single full bottom row scores one row; an empty row goes on top and every other row moves down one |
| `Board.ClearTwoBottomRows` | tetris/tetris.js:174-190 | two adjacent full bottom rows are both removed (the same-index re-scan) and score two rows |
| `Game.Spawned` | tetris/tetris.js:92-97 | the new piece of catalog entry `k`: its shape, colour id `k + 1`, `x = COLS/2 - width/2` (both divisions on non-negative numbers, so floor and Dafny division agree) and `y = 0`; proved on the field by `Game.SpawnInBounds` |
| `Game.SpawnInBounds` | tetris/tetris.js:92-97 | every new piece, at `x = COLS/2 - width/2` and `y = 0`, lies wholly on the field |
| `Game.SpawnFreeOnEmptyGrid` | tetris/tetris.js:99-101 | a new piece never collides with an empty grid |
| `Game.SpawnCollidesUnderFullTopRow` | tetris/tetris.js:99-101 | when the top grid row is full, every new piece collides, which ends the game |
| `Game.Tetris.constructor` | tetris/tetris.js:41-46 | a new game object has an empty grid, score 0, no piece, and is neither over nor started |
| `Game.Tetris.StartGame` | tetris/tetris.js:52-84 | when already started, nothing changes; otherwise piece `k` is spawned and one loop tick follows, which resets at once if that spawn collided |
| `Game.Tetris.CreateNewPiece` | tetris/tetris.js:90-102 | the piece becomes catalog entry `k`, with colour `k+1`, centred on row 0; `gameOver` becomes true if it collides and is otherwise unchanged; the grid and score are not touched |
| `Game.Tetris.Rotate` | tetris/tetris.js:104-115 | the shape becomes its rotation unless that collides, in which case it stays; `x`, `y`, grid and score never change; the invariant is kept |
| `Game.Tetris.MoveDown` | tetris/tetris.js:117-125 | if one row lower is free, `y` rises by 1 and nothing else changes; otherwise the piece is locked at its old `y`, full rows are cleared, the score rises by 100 per cleared row, piece `next` is spawned, and `gameOver` says whether it collides |
| `Game.Tetris.MoveLeft` | tetris/tetris.js:127-132 | `x` drops by 1 unless that collides, in which case the piece stays; `y`, shape, grid and score never change; a non-colliding piece stays non-colliding |
| `Game.Tetris.MoveRight` | tetris/tetris.js:134-139 | `x` rises by 1 unless that collides, in which case the piece stays; `y`, shape, grid and score never change; a non-colliding piece stays non-colliding |
| `Game.ShiftUndo` | tetris/tetris.js:127-139 | a sideways move that succeeded from a free position is undone by the move in the other direction |
| `Game.Tetris.Drop` | tetris/tetris.js:141-146 | the loop terminates; the piece ends at the lowest free row reached by falling (free at every row passed, colliding one row lower); only `y` changes, and nothing is locked |
| `Game.Tetris.MergePiece` | tetris/tetris.js:164-172 | the grid becomes `Merged(old grid, piece)`: exactly the covered cells take the piece colour; nothing else changes |
| `Game.Tetris.ClearLines` | tetris/tetris.js:174-190 | the grid becomes `Cleared(old grid)`, and the score rises by exactly 100 × the number of full rows |
| `Game.Tetris.Tick` | tetris/tetris.js:248-270 | while the game runs, one downward step; once it is over: an empty grid, score 0, `gameOver` false, not started, and the piece left as it was |
| `Game.Tetris.HandleKey` | tetris/tetris.js:225-246 | nothing changes once the game is over or for an unknown key; otherwise each key has exactly the effect of its operation: left and right give `Shifted` by -1 and +1, up gives `Turned`, space gives `Dropped` (grid, score and flags untouched), and down gives one downward step (`SteppedDown`) |

## Left out

- Canvas and DOM: element lookups, canvas sizing and scaling, `draw` and its calls
  (tetris/tetris.js:245, 251), the start-button click listener (tetris/tetris.js:49),
  score text and `style.display` updates (tetris/tetris.js:28-35, 56-59, 70-78, 188,
  192-223, 261, 265-269). These are presentation only.
- Audio playback (tetris/tetris.js:38-39, 64-66, 255-256) is a foreign browser call.
- `setTimeout` rescheduling and `alert` (tetris/tetris.js:252, 258) are timer and dialog
  calls. `Tick` models one run of `gameLoop`; the caller decides when ticks happen.
- `Math.random` (tetris/tetris.js:91) is replaced by the shape-index parameters `k` and `next`.
- Colour strings (tetris/tetris.js:5-13) are replaced by the ids `1..7`.
- Key codes and event objects (tetris/tetris.js:228-243) are replaced by the `Command` datatype.
- The keydown listener registration (tetris/tetris.js:87) is not modelled. Every
  `init` adds another listener, so after a restart the game runs each key command once
  per registered listener. The model applies a command once.
- The unused `nextPiece` field (tetris/tetris.js:45) is not modelled.
- `Game.Tetris.Rotate`, `MoveLeft`, `MoveRight`, `MoveDown` and `Drop` require
  `!gameOver`. Every caller in the game checks this first (tetris/tetris.js:226, 249).
- After the game-over reset (tetris/tetris.js:259-266) `gameOver` is false, and the keydown
  listener added at tetris/tetris.js:87 stays registered. While the game is not started,
  keys therefore still move, rotate, drop and lock the old piece. `HandleKey` models this:
  it ignores keys only while `gameOver` is true.

# Falling-block game engine in Dafny

This project models the game engine of the browser falling-block game in `script.js`, and proves
properties of it. The engine has:

- a board of 20 rows by 10 columns, where a cell is 0 when empty and otherwise holds the colour
  of the block that settled there;
- a catalog of seven pieces (I, O, T, J, L, S, Z);
- the game state, held in global variables: score, level, cleared lines, the drop timer (drop
  counter and drop interval), the running and paused flags, and the active and waiting pieces.

The model covers these engine operations:

- `createBoard` and `getRandomPiece`;
- `canMove`, `rotatePiece` and `mergePiece`;
- `clearLines`, with its in-place `splice`/`unshift` scan;
- `isGameOver`, `startGame` and `togglePause`;
- the tick step `update(deltaTime)`;
- the game actions of the `keydown` handler: left, right, rotate, soft drop, hard drop and
  Escape.

The model is built in layers:

- `board.dfy` (module `Board`): the grid, and what clearing full rows makes of it. `Kept` is the
  filter of rows that are not full, `FullCount` counts the full rows, and `Cleared` is the
  compacted board. Lemmas describe each stage of `clearLines`' bottom-up scan.
- `pieces.dfy` (module `Pieces`): the piece catalog, spawning a piece, and the clockwise quarter
  turn.
- `collision.dfy` (module `Collision`): the legality test `Fits`, the `CanMove` loop proved equal
  to it, the merged board `Merged`, and how far a hard drop falls (`DropDistance`).
- `rules.dfy` (module `Rules`): the whole game state as a value (`Game`), with one pure function
  per transition (`Tick`, `Pressed`, `Locked`, `Started`, `Toggled`, ...). An invariant `Inv`
  holds in every reachable state: the counters follow the line count, and while the game runs
  the active piece fits on the board.
- `session.dfy` (module `Engine`): the `Session` class. Its fields are the game's globals, and its
  methods update them step by step as the source does, with the same loops. Each method ensures
  that the new state `Snapshot()` equals the matching `Rules` function of the old one, so every
  lemma in `Rules` applies to the methods.

Inputs the engine takes from the browser are parameters:

- the random catalog index `k`, standing in for `Math.floor(Math.random() * 7)`;
- the elapsed time `deltaTime`, as an integer number of milliseconds;
- the key pressed.

## Model

| member | source | states |
|---|---|---|
| Board.CreateBoard | script.js:45-47 | The new board has ROWS rows of COLS cells, and every cell is empty. |
| Board.EmptyRow | script.js:115 | The row put on top has COLS cells, all empty, so it is never full. |
| Board.Kept | script.js:113-114 | The surviving rows are never more than the rows of the board, and none of them is full. |
| Board.KeptRows | script.js:113-114 | Every surviving row is a row of the original board and is not full. |
| Board.KeptComplete | script.js:113-114 | Every row of the original board that is not full survives. |
| Board.FullCount | script.js:113-116 | The full rows and the surviving rows together account for every row of the board. |
| Board.FullCountZero | script.js:113-121 | No rows are removed exactly when no row of the board is full. |
| Board.Cleared | script.js:109-119 | Clearing keeps the number of rows and the ROWS x COLS shape of the board. |
| Board.ClearedShape | script.js:109-119 | After clearing, no row is full. The top FullCount rows are empty, and below them are the surviving rows in their original order. |
| Board.KeptAppend | script.js:112-118 | Filtering distributes over concatenation, so the surviving rows keep their relative order. The full-row counts of two parts add up. |
| Board.KeptAll | script.js:113 | A board with no full row keeps every row, unchanged. |
| Board.ClearedIdempotent | script.js:109-119 | A cleared board has no full rows, and clearing it again gives the same board. |
| Board.ScanStep | script.js:112-118 | One pass of the scan loop keeps the loop's state description true. A full row at the index is spliced out, an empty row goes on top, and the same index is examined again. A row that is not full is passed over. |
| Board.ScannedStart | script.js:110-112 | Before the scan, the state description is the original board with nothing removed. |
| Board.ScannedEnd | script.js:112-119 | When every original row has been examined, the state description is the cleared board. |
| Pieces.Catalog | script.js:21-29 | The seven catalog shapes are rectangular with at most two rows and two to four columns. Each colour is non-zero. |
| Pieces.Spawn | script.js:49-57 | The spawned piece has catalog entry k's shape and colour, y = 0 and x = floor(COLS/2) - floor(width/2). It lies within the side walls. |
| Pieces.Rotated | script.js:79-82 | The turned shape swaps the row and column counts, and new[i][j] == old[h-1-j][i]. |
| Pieces.RotatedIsShape | script.js:79-82 | Turning a well-formed shape gives a well-formed shape, with at least one filled cell. |
| Pieces.RotatedTwice | script.js:79-82 | Two quarter turns are the half turn: cell (i, j) becomes cell (h-1-i, w-1-j). |
| Pieces.RotatedFourTimes | script.js:79-82 | Four quarter turns give back exactly the original shape. |
| Collision.Fits | script.js:59-77 | What canMove decides: every filled cell of the shifted piece is inside the side walls and above the floor, and, when at a row >= 0, on an empty cell. Rows above the board are allowed. Collision.CanMove is proved equal to it. |
| Collision.CanMove | script.js:59-77 | The result is false exactly when some filled cell lands left or right of the walls, at or below the floor, or on an occupied cell at a row >= 0. Rows above the board are allowed. The method changes nothing. |
| Collision.FitsShift | script.js:59-77 | Testing the move (dx, dy) is the same as testing the moved piece where it stands. |
| Collision.SpawnFitsEmpty | script.js:49-57 | Every catalog piece, spawned, fits on an empty board. |
| Collision.Merged | script.js:94-107 | The board mergePiece leaves: the piece colour on every on-board cell under a filled shape cell, every other cell unchanged. Filled cells off the board are dropped. Its ensures says the result is still a ROWS x COLS board; Collision.MergedCells states it cell by cell. |
| Collision.MergedCells | script.js:94-107 | After merging, each board cell holds the piece's colour if the piece covers it, and its old value otherwise. Cells of the piece that fall off the board are dropped. |
| Collision.MergeFillsFreeCells | script.js:94-107 | Merging a piece that fits overwrites no occupied cell, and every cell under the piece becomes occupied. |
| Collision.FitsBelowBounded | script.js:355 | A piece that can move down is above the floor row, so the hard-drop loop ends. |
| Collision.DropDistance | script.js:355-358 | The number of rows the hard-drop loop moves the piece: one more while the next row down is legal, 0 once it is not. Collision.DropLands and Collision.DropDistanceStep state what the count means. |
| Collision.DropLands | script.js:355-358 | Every row the hard drop passes allows a further step down. The row where it stops does not allow one. |
| Collision.DropDistanceStep | script.js:355-358 | The drop goes one row further exactly while the next row down is legal. |
| Collision.DropLandingFits | script.js:355-358 | A piece that fits still fits where the hard drop leaves it. |
| Rules.LineScore | script.js:123 | Clearing n rows pays a non-negative score, which is zero exactly when n is zero. |
| Rules.LevelFor | script.js:124 | The level computed from a non-negative line count is at least 1. |
| Rules.IntervalFor | script.js:125 | The drop interval is never below 200 ms and, from level 1 up, never above 1000 ms. |
| Rules.Initial | script.js:10-19 | The state the globals are declared with: empty board, score 0, level 1, no lines, counter 0, interval 1000, not running, not paused, no pieces. |
| Rules.Inv | script.js:121-137 | The invariant of reachable states: score and lines non-negative, level and drop interval as clearLines computes them from lines, and, while the game runs, an active piece that fits where it is (the isGameOver test fails). |
| Rules.Started | script.js:139-157 | startGame for the two catalog indices: fresh board and counters, running, not paused, first piece active and second waiting. Rules.StartedInv proves the invariant of it. |
| Rules.Toggled | script.js:204-207 | togglePause: a game that is not running is unchanged; a running game has its paused flag flipped. |
| Rules.IsOver | script.js:135-137 | isGameOver: there is an active piece and it does not fit where it stands. |
| Rules.ClearedGame | script.js:109-133 | clearLines on the whole state: the board loses its full rows, and only when there were any do lines, score, level and interval change. Rules.ClearScoring and Rules.ClearTwice state its effect. |
| Rules.Settled | script.js:224-228 | Landing: merge the piece, clear lines, promote the waiting piece and spawn catalog piece k as the new waiting piece. Rules.SettledCounters and Rules.SettledRunning state its effect. |
| Rules.Locked | script.js:224-233 | Landing followed by the game-over check: the game stops when the promoted piece does not fit. Rules.LockedInv states its effect. |
| Rules.Fall | script.js:220-236 | The drop branch of update: move the piece down a row when legal, otherwise land; the counter restarts unless the game just ended. |
| Rules.Tick | script.js:215-237 | update(dt): a stopped or paused game is unchanged; otherwise dt is accumulated and the piece falls only when the counter is strictly above the interval. Rules.TickInv, Rules.TickBelowThreshold and Rules.TickAboveThreshold state its effect. |
| Rules.Shifted | script.js:341-344 | Left or right arrow: the piece moves one column when that is legal; otherwise nothing changes. Rules.ShiftedInv states its effect. |
| Rules.Turned | script.js:345-346 | Up arrow: the turned shape is taken when it fits in place, otherwise nothing changes. Rules.RotationRestores states its effect. |
| Rules.SoftDropped | script.js:347-352 | Down arrow: the piece moves down a row and scores a point when that is legal; otherwise nothing changes. Rules.SoftDropScores states its effect. |
| Rules.DropLanded | script.js:355-358 | The state after the hard-drop loop: the piece moved down by its drop distance, with as many points added. |
| Rules.HardDropped | script.js:353-366 | Space: the drop loop, then landing and the game-over check, exactly once. Rules.HardDropLands states its effect. |
| Rules.Pressed | script.js:336-371 | The keydown handler: nothing unless the game runs; otherwise the key's move, with Escape toggling pause and any other key doing nothing. The paused flag is not consulted. Rules.PressedInv and Rules.PausedIgnoresTicksNotKeys state its effect. |
| Rules.ScoreTable | script.js:123 | Clearing 1, 2, 3 or 4 rows at once pays 100, 400, 900 or 1600 points. |
| Rules.LineScoreSuperadditive | script.js:123 | Clearing rows together pays at least as much as clearing them in separate steps. |
| Rules.LevelAfterTenK | script.js:124-125 | After 10k lines the level is k + 1 and the interval is max(200, 1000 - 50k). |
| Rules.IntervalNonIncreasing | script.js:124-125 | More cleared lines never make the drop interval longer. |
| Rules.ClearScoring | script.js:109-133 | When clearLines removes n > 0 rows, lines grows by n and score by n*n*100, and level and interval follow the new line count. When n = 0 the state is unchanged. The flags and pieces are never touched. |
| Rules.ClearTwice | script.js:109-133 | Calling clearLines again straight away removes nothing and changes nothing. |
| Rules.StartedInv | script.js:139-157 | startGame leaves a state that satisfies the invariant. |
| Rules.SettledCounters | script.js:224-228 | Landing promotes the waiting piece. The counters still follow the line count, and score and lines never decrease. |
| Rules.SettledRunning | script.js:224-233 | Landing alone never stops the game. The game-over check stops it exactly when the promoted piece does not fit. |
| Rules.LockedInv | script.js:224-233 | Landing plus the game-over check keep the invariant. The game keeps running exactly when the waiting piece fits on the new board. |
| Rules.TickInv | script.js:215-237 | A tick keeps the invariant and never lowers score or line count. |
| Rules.TickBelowThreshold | script.js:218-220 | Up to and including the drop interval, a tick only adds the elapsed time to the counter. |
| Rules.TickAboveThreshold | script.js:220-236 | Once the counter is strictly above the interval, the piece moves down one row and the counter restarts. If the piece cannot move, it lands, and the counter restarts unless the game ended. |
| Rules.MovedInv | script.js:341-350 | A legal sideways or downward move keeps the invariant. |
| Rules.ShiftedInv | script.js:341-344 | Left and right keep the invariant, the score and the line count. |
| Rules.TurnedInv | script.js:345-346 | Rotating keeps the invariant, the score and the line count. |
| Rules.SoftDroppedInv | script.js:347-352 | A soft drop keeps the invariant and the line count, and never lowers the score. |
| Rules.HardDroppedInv | script.js:353-366 | A hard drop keeps the invariant and never lowers score or line count. |
| Rules.PressedInv | script.js:336-371 | Any key press keeps the invariant and never lowers score or line count. |
| Rules.StoppedIsFrozen | script.js:204-216 | When the game is not running, ticks, the pause toggle and keys change nothing. The key handler returns early at script.js:339. |
| Rules.PausedIgnoresTicksNotKeys | script.js:216-371 | A paused game ignores ticks. The movement keys act on it exactly as on the same game unpaused, and Space still hard-drops. |
| Rules.HardDropLands | script.js:353-366 | Space moves the piece straight down d >= 0 rows and adds d to the score. It stops at the first row from which the piece cannot move down, then lands exactly once, also when d = 0. |
| Rules.SoftDropScores | script.js:347-352 | The down arrow adds a point exactly when the piece can move down. |
| Rules.RotationRestores | script.js:79-92 | The up arrow keeps x, y and colour. It takes the turned shape when that fits and otherwise leaves the state exactly as it was. |
| Engine.RemoveFullRows | script.js:110-119 | The scan loop leaves exactly the cleared board, and its count is the number of full rows. |
| Engine.Session.constructor | script.js:10-19 | The state starts as declared: empty board, no pieces, not running, interval 1000. It satisfies the invariant. |
| Engine.Session.IsGameOver | script.js:135-137 | The result is true exactly when there is an active piece and it does not fit where it is. |
| Engine.Session.RotatePiece | script.js:79-92 | The result tells whether the turned piece fits. On success the turned shape is installed. On failure the original piece is restored exactly. |
| Engine.Session.MergePiece | script.js:94-107 | The nested loops leave exactly the merged board, and nothing else changes. |
| Engine.Session.ClearLines | script.js:109-133 | The new state is the cleared state. The result is true exactly when the old board had at least one full row, which is exactly when lines grew. |
| Engine.Session.Settle | script.js:224-228 | The state after merge, clear and promotion of the waiting piece. |
| Engine.Session.Lock | script.js:224-233 | Landing plus the game-over check. The result is true exactly when the game stopped. |
| Engine.Session.GameOver | script.js:162-163 | The game stops running. |
| Engine.Session.StartGame | script.js:139-157 | The state is reset as startGame does, and the invariant holds. |
| Engine.Session.TogglePause | script.js:204-207 | Flips the paused flag of a running game, and does nothing otherwise. The invariant is kept, since the pause button calls this directly. |
| Engine.Session.Update | script.js:215-237 | The new state is the tick of the old one, and the invariant is kept. |
| Engine.Session.Fall | script.js:220-236 | The drop branch of update: move down or land, then restart the counter unless the game ended. |
| Engine.Session.DropToFloor | script.js:355-358 | The while loop moves the piece down by exactly the drop distance and adds the same number of points. |
| Engine.Session.HardDrop | script.js:353-366 | Drop to the floor, then land once. |
| Engine.Session.KeyDown | script.js:336-371 | The new state is the key's transition of the old one, and the invariant is kept. |

## Left out

- Engine.Session.GameOver: the board is not overwritten with the heart picture, which
  `placeValentineMessage` paints at game over (script.js:168, 178-202). The model's board after
  game over, in Engine.Session.Lock, Rules.Locked and Rules.StoppedIsFrozen, is the merged and
  cleared board. In the source it is the all-coloured picture. Nothing in the engine reads the
  board again before `startGame` replaces it.
- Drawing (`drawGame`, `drawBlock`, `drawNextPiece`) and every DOM write (score, level and
  lines text, buttons, the game-over modal) are left out. They are presentation only.
- `gameLoop` and `requestAnimationFrame` are left out; only the `update(deltaTime)` step is
  modelled. The timestamp arithmetic that yields `deltaTime` is not part of the model. That
  arithmetic can give a negative delta after a restart or resume, so `deltaTime` is any integer.
- Engine.Session.Update: `deltaTime` is an integer. In the source it is a difference of
  `requestAnimationFrame` timestamps (script.js:326), which carry fractional milliseconds, and
  the strict comparison `dropCounter > dropInterval` (script.js:220) sees those fractions.
  Fractional milliseconds are not modelled.
- `Math.random` becomes the catalog index parameter `k`, with 0 <= k < 7.
- Colours are the integers of the CSS hex strings (`'#00f0f0'` is 0x00f0f0). The source only
  compares cells with 0 and tests truthiness, and both behave the same on these values.
- The board is a sequence of row sequences, reassigned by every operation. The source's rows are
  distinct arrays that are never shared, so no aliasing is lost. `clearLines`' scan works on a
  local copy that is written back once, instead of splicing the global array as it goes.
- `e.preventDefault()`, the `keys` map, the `keyup` handler and the touch gesture handlers are
  left out. The touch handlers make the same moves as the keys, gated only by pixel distances: a
  horizontal swipe shifts the piece once it exceeds 30 pixels (script.js:400, 403), a downward
  movement soft-drops on any positive `diffY` (script.js:407), and a tap under 20 pixels rotates
  (script.js:428). `lastTouchTime` (script.js:387) is written but never read, so there is no time
  threshold. These handlers test only `gameRunning`, not `gamePaused`.
- `createHeartExplosion`, the modal buttons and the `setTimeout` chains are left out. They are
  decorative, timer-driven UI.

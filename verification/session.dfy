/** The game session: the engine's mutable state and the operations of script.js that change it
    in place. Each operation is proved to perform the matching transition of module Rules, and
    the ones a player or the clock can trigger keep the invariant Rules.Inv. */
module Engine {
  import opened Board
  import opened Pieces
  import opened Collision
  import opened Rules

  /** The cell (r, c) lies under a filled piece cell that the row-by-row, column-by-column scan
      of mergePiece has already passed when it stands at shape cell (row, col). */
  ghost predicate CoveredBefore(p: Piece, r: int, c: int, row: int, col: int)
  {
    Covers(p, r, c) && (r - p.y < row || (r - p.y == row && c - p.x < col))
  }

  /** The row loop of clearLines: scan the rows bottom-up; a full row is spliced out and an
      empty row put on top, and the same index is examined again, since it now holds the row
      from above (the source's row++ in the loop body followed by the loop's row--; here the
      index is simply left where it is). The ghost index j counts the rows of the original
      board not yet examined. */
  method RemoveFullRows(rows: Grid) returns (grid: Grid, clearedLines: nat)
    ensures grid == Cleared(rows)
    ensures clearedLines == FullCount(rows)
  {
    clearedLines := 0;
    ghost var j := |rows|;
    grid := rows;
    var row := |rows| - 1;
    ScannedStart(rows);
    while row >= 0
      invariant ScanState(rows, grid, clearedLines, j, row)
      decreases row + j + 1
    {
      ScanStep(rows, grid, clearedLines, j, row);
      if IsFull(grid[row]) {
        grid := grid[..row] + grid[row + 1..];
        grid := [EmptyRow()] + grid;
        clearedLines := clearedLines + 1;
        j := j - 1;
      } else {
        if j > 0 {
          j := j - 1;
        }
        row := row - 1;
      }
    }
    assert rows[0..] == rows;
    ScannedEnd(rows);
  }

  class Session {
    var board: Grid
    var score: int
    var level: int
    var lines: int
    var dropCounter: int
    var dropInterval: int
    var gameRunning: bool
    var gamePaused: bool
    var currentPiece: Option<Piece>
    var nextPiece: Option<Piece>

    /** The session's state as a value. */
    function Snapshot(): Game
      reads this
    {
      Game(board, score, level, lines, dropCounter, dropInterval, gameRunning, gamePaused, currentPiece, nextPiece)
    }

    ghost predicate Valid()
      reads this
    {
      Inv(Snapshot())
    }

    /** The values the globals are declared with: an empty board, no pieces, not running. */
    constructor ()
      ensures Snapshot() == Initial() && Valid()
    {
      board := CreateBoard();
      score := 0;
      level := 1;
      lines := 0;
      gameRunning := false;
      gamePaused := false;
      currentPiece := None;
      nextPiece := None;
      dropCounter := 0;
      dropInterval := 1000;
    }

    /** isGameOver: an active piece exists and does not fit where it is. */
    method IsGameOver() returns (over: bool)
      requires IsGrid(board)
      ensures over <==> currentPiece.Some? && !Fits(board, currentPiece.value, 0, 0)
    {
      if currentPiece.None? {
        return false;
      }
      var ok := CanMove(board, currentPiece.value, 0, 0);
      return !ok;
    }

    /** rotatePiece on the active piece: install the quarter-turned shape, and put the original
        shape back when the turned piece does not fit in place. */
    method RotatePiece() returns (ok: bool)
      requires IsGrid(board) && currentPiece.Some? && IsRect(currentPiece.value.shape)
      modifies this`currentPiece
      ensures var p := old(currentPiece.value);
              var q := p.(shape := Rotated(p.shape));
              ok == Fits(board, q, 0, 0) &&
              currentPiece == (if ok then Some(q) else old(currentPiece))
    {
      var piece := currentPiece.value;
      var newShape := Rotated(piece.shape);
      var originalShape := piece.shape;
      piece := piece.(shape := newShape);
      currentPiece := Some(piece);
      ok := CanMove(board, piece, 0, 0);
      if !ok {
        currentPiece := Some(piece.(shape := originalShape));
      }
    }

    /** mergePiece: the nested scan writing the piece's colour into the board under each filled
        shape cell that lands on the board. */
    method MergePiece(piece: Piece)
      requires IsGrid(board)
      modifies this`board
      ensures board == Merged(old(board), piece)
    {
      var row := 0;
      while row < |piece.shape|
        invariant 0 <= row <= |piece.shape|
        invariant IsGrid(board)
        invariant forall r, c :: 0 <= r < ROWS && 0 <= c < COLS ==>
                    board[r][c] == if CoveredBefore(piece, r, c, row, 0) then piece.color else old(board)[r][c]
      {
        var col := 0;
        while col < |piece.shape[row]|
          invariant 0 <= col <= |piece.shape[row]|
          invariant IsGrid(board)
          invariant forall r, c :: 0 <= r < ROWS && 0 <= c < COLS ==>
                      board[r][c] == if CoveredBefore(piece, r, c, row, col) then piece.color else old(board)[r][c]
        {
          if piece.shape[row][col] != 0 {
            var boardRow := piece.y + row;
            var boardCol := piece.x + col;
            if 0 <= boardRow < ROWS && 0 <= boardCol < COLS {
              board := board[boardRow := board[boardRow][boardCol := piece.color]];
            }
          }
          col := col + 1;
        }
        row := row + 1;
      }
      var m := Merged(old(board), piece);
      MergedCells(old(board), piece);
      forall r | 0 <= r < ROWS
        ensures board[r] == m[r]
      {
        assert forall c :: 0 <= c < COLS ==> board[r][c] == m[r][c];
      }
    }

    /** clearLines: remove the full rows, then update the counters when anything was removed. */
    method ClearLines() returns (anyCleared: bool)
      requires IsGrid(board)
      modifies this
      ensures Snapshot() == ClearedGame(old(Snapshot()))
      ensures anyCleared <==> FullCount(old(board)) > 0
      ensures anyCleared <==> lines > old(lines)
    {
      var clearedLines;
      board, clearedLines := RemoveFullRows(board);
      if clearedLines > 0 {
        lines := lines + clearedLines;
        score := score + LineScore(clearedLines);
        level := LevelFor(lines);
        dropInterval := IntervalFor(level);
      }
      anyCleared := clearedLines > 0;
    }

    /** The landing sequence shared by update and hard drop: merge, clear, promote the waiting
        piece, draw a new one (catalog index k). */
    method Settle(k: int)
      requires Formed(Snapshot()) && currentPiece.Some? && 0 <= k < |Catalog()|
      modifies this
      ensures Snapshot() == Settled(old(Snapshot()), k)
    {
      ghost var g := Snapshot();
      MergePiece(currentPiece.value);
      ghost var merged := Snapshot();
      assert merged == g.(board := Merged(g.board, g.current.value));
      var anyCleared := ClearLines();
      assert Snapshot() == ClearedGame(merged);
      currentPiece := nextPiece;
      nextPiece := Some(Spawn(k));
    }

    /** A piece that cannot move down lands: settle it, and end the game when the promoted
        piece does not fit. over tells whether the game ended. */
    method Lock(k: int) returns (over: bool)
      requires Formed(Snapshot()) && gameRunning && 0 <= k < |Catalog()|
      modifies this
      ensures Snapshot() == Locked(old(Snapshot()), k)
      ensures over <==> !gameRunning
    {
      SettledRunning(Snapshot(), k);
      Settle(k);
      over := IsGameOver();
      if over {
        GameOver();
      }
    }

    /** gameOver, as far as the engine state goes: the game stops running. */
    method GameOver()
      modifies this`gameRunning
      ensures !gameRunning
    {
      gameRunning := false;
    }

    /** startGame with the two random catalog indices. */
    method StartGame(k1: int, k2: int)
      requires 0 <= k1 < |Catalog()| && 0 <= k2 < |Catalog()|
      modifies this
      ensures Snapshot() == Started(k1, k2) && Valid()
    {
      board := CreateBoard();
      score := 0;
      level := 1;
      lines := 0;
      dropCounter := 0;
      dropInterval := 1000;
      gameRunning := true;
      gamePaused := false;
      currentPiece := Some(Spawn(k1));
      nextPiece := Some(Spawn(k2));
      StartedInv(k1, k2);
    }

    /** togglePause: only a running game can be paused or resumed. */
    method TogglePause()
      modifies this`gamePaused
      ensures Snapshot() == Toggled(old(Snapshot()))
      ensures old(Valid()) ==> Valid()
    {
      if !gameRunning {
        return;
      }
      gamePaused := !gamePaused;
    }

    /** update(deltaTime), with k the random catalog index for the piece drawn if one lands. */
    method Update(deltaTime: int, k: int)
      requires Valid() && 0 <= k < |Catalog()|
      modifies this
      ensures Snapshot() == Tick(old(Snapshot()), deltaTime, k)
      ensures Valid()
    {
      TickInv(Snapshot(), deltaTime, k);
      if !gameRunning || gamePaused {
        return;
      }
      dropCounter := dropCounter + deltaTime;
      if dropCounter > dropInterval {
        Fall(k);
      }
    }

    /** The body of update's drop branch: move down when legal, otherwise land, then restart
        the accumulator unless the game is over. */
    method Fall(k: int)
      requires Formed(Snapshot()) && gameRunning && 0 <= k < |Catalog()|
      modifies this
      ensures Snapshot() == Rules.Fall(old(Snapshot()), k)
    {
      var down := CanMove(board, currentPiece.value, 0, 1);
      if down {
        currentPiece := Some(currentPiece.value.(y := currentPiece.value.y + 1));
      } else {
        var over := Lock(k);
        if over {
          return;
        }
      }
      dropCounter := 0;
    }

    /** The descent of a hard drop: move down while the next row is legal, a point per row. */
    method DropToFloor()
      requires Formed(Snapshot()) && currentPiece.Some?
      modifies this`currentPiece, this`score
      ensures Snapshot() == DropLanded(old(Snapshot()))
    {
      ghost var g := Snapshot();
      var grid := board;
      var piece := currentPiece.value;
      ghost var start := piece;
      var ok := CanMove(grid, piece, 0, 1);
      while ok
        modifies this`currentPiece, this`score
        invariant currentPiece == Some(piece) && piece == start.(y := piece.y)
        invariant start.y <= piece.y
        invariant score == g.score + (piece.y - start.y)
        invariant DropDistance(grid, start) == (piece.y - start.y) + DropDistance(grid, piece)
        invariant ok == Fits(grid, piece, 0, 1)
        decreases DropDistance(grid, piece)
      {
        DropDistanceStep(grid, piece);
        piece := piece.(y := piece.y + 1);
        currentPiece := Some(piece);
        score := score + 1;
        ok := CanMove(grid, piece, 0, 1);
      }
      DropDistanceStep(grid, piece);
      DropLandedBy(g, piece.y - start.y);
    }

    /** Space: drop to the landing row, then land once. */
    method HardDrop(k: int)
      requires Formed(Snapshot()) && gameRunning && 0 <= k < |Catalog()|
      modifies this
      ensures Snapshot() == HardDropped(old(Snapshot()), k)
    {
      DropToFloor();
      var over := Lock(k);
    }

    /** The keydown handler with k the random catalog index for a hard drop's new piece. Only
        gameRunning is checked, so a paused game still accepts moves and drops. */
    method KeyDown(key: Key, k: int)
      requires Valid() && 0 <= k < |Catalog()|
      modifies this
      ensures Snapshot() == Pressed(old(Snapshot()), key, k)
      ensures Valid()
    {
      PressedInv(Snapshot(), key, k);
      if !gameRunning {
        return;
      }
      var piece := currentPiece.value;
      match key
      case ArrowLeft =>
        var ok := CanMove(board, piece, -1, 0);
        if ok {
          currentPiece := Some(piece.(x := piece.x - 1));
        }
      case ArrowRight =>
        var ok := CanMove(board, piece, 1, 0);
        if ok {
          currentPiece := Some(piece.(x := piece.x + 1));
        }
      case ArrowUp =>
        var rotated := RotatePiece();
      case ArrowDown =>
        var ok := CanMove(board, piece, 0, 1);
        if ok {
          currentPiece := Some(piece.(y := piece.y + 1));
          score := score + 1;
        }
      case Space =>
        HardDrop(k);
      case Escape =>
        TogglePause();
      case OtherKey =>
    }
  }
}

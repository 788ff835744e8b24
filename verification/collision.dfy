/** Legality of a piece position (canMove), writing a piece into the board (mergePiece) and how
    far a hard drop falls. */
module Collision {
  import opened Board
  import opened Pieces

  /** A target cell a filled piece cell may occupy: inside the side walls, above the floor, and
      either above the board (rows < 0 are allowed while spawning) or on an empty cell. */
  predicate CellFree(b: Grid, col: int, row: int)
    requires IsGrid(b)
  {
    0 <= col < COLS && row < ROWS && (row >= 0 ==> b[row][col] == EMPTY)
  }

  /** The piece, shifted by (dx, dy), has every filled cell on a free target cell. */
  predicate Fits(b: Grid, p: Piece, dx: int, dy: int)
    requires IsGrid(b)
  {
    forall r, c :: 0 <= r < |p.shape| && 0 <= c < |p.shape[r]| && p.shape[r][c] != 0 ==>
      CellFree(b, p.x + c + dx, p.y + r + dy)
  }

  /** canMove: the nested scan over the shape, returning false at the first filled cell that
      lands outside the side walls, at or below the floor, or on an occupied cell. */
  method CanMove(b: Grid, p: Piece, dx: int, dy: int) returns (ok: bool)
    requires IsGrid(b)
    ensures ok == Fits(b, p, dx, dy)
    ensures !ok <==> exists r, c :: 0 <= r < |p.shape| && 0 <= c < |p.shape[r]| && p.shape[r][c] != 0 &&
                       (p.x + c + dx < 0 || p.x + c + dx >= COLS || p.y + r + dy >= ROWS ||
                        (p.y + r + dy >= 0 && b[p.y + r + dy][p.x + c + dx] != EMPTY))
  {
    var row := 0;
    while row < |p.shape|
      invariant 0 <= row <= |p.shape|
      invariant forall r, c :: 0 <= r < row && 0 <= c < |p.shape[r]| && p.shape[r][c] != 0 ==>
                  CellFree(b, p.x + c + dx, p.y + r + dy)
    {
      var col := 0;
      while col < |p.shape[row]|
        invariant 0 <= col <= |p.shape[row]|
        invariant forall r, c :: 0 <= r < row && 0 <= c < |p.shape[r]| && p.shape[r][c] != 0 ==>
                    CellFree(b, p.x + c + dx, p.y + r + dy)
        invariant forall c :: 0 <= c < col && p.shape[row][c] != 0 ==>
                    CellFree(b, p.x + c + dx, p.y + row + dy)
      {
        if p.shape[row][col] != 0 {
          var newX := p.x + col + dx;
          var newY := p.y + row + dy;
          if newX < 0 || newX >= COLS || newY >= ROWS {
            return false;
          }
          if newY >= 0 && b[newY][newX] != EMPTY {
            return false;
          }
        }
        col := col + 1;
      }
      row := row + 1;
    }
    return true;
  }

  /** Testing a shifted position is testing the shifted piece in place. */
  lemma FitsShift(b: Grid, p: Piece, dx: int, dy: int)
    requires IsGrid(b)
    ensures Fits(b, p, dx, dy) == Fits(b, p.(x := p.x + dx, y := p.y + dy), 0, 0)
  {
    var q := p.(x := p.x + dx, y := p.y + dy);
    if Fits(b, q, 0, 0) {
      forall r, c | 0 <= r < |p.shape| && 0 <= c < |p.shape[r]| && p.shape[r][c] != 0
        ensures CellFree(b, p.x + c + dx, p.y + r + dy)
      {
        assert q.shape[r][c] != 0;
      }
    }
  }

  /** Every piece the catalog spawns fits on an empty board, so the first piece of a game is
      always legal. */
  lemma SpawnFitsEmpty(k: int)
    requires 0 <= k < |Catalog()|
    ensures Fits(CreateBoard(), Spawn(k), 0, 0)
  {
    var p := Spawn(k);
    assert IsRect(Catalog()[k].shape);
    forall r, c | 0 <= r < |p.shape| && 0 <= c < |p.shape[r]| && p.shape[r][c] != 0
      ensures CellFree(CreateBoard(), p.x + c, p.y + r)
    {
      assert |p.shape[r]| == |p.shape[0]|;
    }
  }

  /** The board cell (row, col) lies under a filled cell of the piece. */
  predicate Covers(p: Piece, row: int, col: int)
  {
    0 <= row - p.y < |p.shape| && 0 <= col - p.x < |p.shape[row - p.y]| && p.shape[row - p.y][col - p.x] != 0
  }

  /** The board after mergePiece: the piece's colour on every on-board cell under a filled shape
      cell, every other cell as before (MergedCells). Filled shape cells off the board are
      dropped. */
  function Merged(b: Grid, p: Piece): (m: Grid)
    requires IsGrid(b)
    ensures IsGrid(m)
  {
    seq(ROWS, r requires 0 <= r < ROWS =>
      seq(COLS, c requires 0 <= c < COLS => if Covers(p, r, c) then p.color else b[r][c]))
  }

  /** Each cell of the merged board: the piece's colour where the piece covers it, the old cell
      elsewhere. */
  lemma MergedCells(b: Grid, p: Piece)
    requires IsGrid(b)
    ensures forall r, c :: 0 <= r < ROWS && 0 <= c < COLS ==>
              Merged(b, p)[r][c] == (if Covers(p, r, c) then p.color else b[r][c])
  {
  }

  /** Merging a piece that fits only writes empty cells: no block already on the board is
      overwritten, and each cell under the piece becomes occupied. */
  lemma MergeFillsFreeCells(b: Grid, p: Piece)
    requires IsGrid(b) && Fits(b, p, 0, 0) && p.color != EMPTY
    ensures forall r, c :: 0 <= r < ROWS && 0 <= c < COLS && b[r][c] != EMPTY ==> Merged(b, p)[r][c] == b[r][c]
    ensures forall r, c :: 0 <= r < ROWS && 0 <= c < COLS && Covers(p, r, c) ==>
              b[r][c] == EMPTY && Merged(b, p)[r][c] != EMPTY
  {
    MergedCells(b, p);
    forall r, c | 0 <= r < ROWS && 0 <= c < COLS && Covers(p, r, c)
      ensures b[r][c] == EMPTY
    {
      assert CellFree(b, p.x + (c - p.x), p.y + (r - p.y));
    }
  }

  /** A piece that can move down has a filled cell above the floor row, so its top row is at
      least one row above the floor. */
  lemma FitsBelowBounded(b: Grid, p: Piece)
    requires IsGrid(b) && HasCell(p.shape) && Fits(b, p, 0, 1)
    ensures p.y + 1 < ROWS
  {
    var r, c :| 0 <= r < |p.shape| && 0 <= c < |p.shape[r]| && p.shape[r][c] != 0;
    assert CellFree(b, p.x + c, p.y + r + 1);
  }

  /** The number of rows a hard drop moves the piece: it keeps moving while the next row down is
      legal. DropLands states what this means. */
  function DropDistance(b: Grid, p: Piece): (d: nat)
    requires IsGrid(b) && HasCell(p.shape)
    decreases ROWS - p.y
  {
    if Fits(b, p, 0, 1) then
      FitsBelowBounded(b, p);
      1 + DropDistance(b, p.(y := p.y + 1))
    else
      0
  }

  /** Every row a hard drop passes allows a further step down, and the row it stops on does
      not: the drop stops at the first row from which the piece cannot move down. */
  lemma {:induction false} DropLands(b: Grid, p: Piece)
    requires IsGrid(b) && HasCell(p.shape)
    ensures !Fits(b, p.(y := p.y + DropDistance(b, p)), 0, 1)
    ensures forall y :: p.y <= y < p.y + DropDistance(b, p) ==> Fits(b, p.(y := y), 0, 1)
    decreases ROWS - p.y
  {
    if Fits(b, p, 0, 1) {
      FitsBelowBounded(b, p);
      var q := p.(y := p.y + 1);
      DropLands(b, q);
      assert q.(y := q.y + DropDistance(b, q)) == p.(y := p.y + DropDistance(b, p));
      forall y | p.y <= y < p.y + DropDistance(b, p)
        ensures Fits(b, p.(y := y), 0, 1)
      {
        if y > p.y {
          assert p.(y := y) == q.(y := y);
        }
      }
    } else {
      assert p.(y := p.y + 0) == p;
    }
  }

  /** While the next row down is legal the drop goes one row further; otherwise it is over. */
  lemma DropDistanceStep(b: Grid, p: Piece)
    requires IsGrid(b) && HasCell(p.shape)
    ensures Fits(b, p, 0, 1) ==> DropDistance(b, p) == 1 + DropDistance(b, p.(y := p.y + 1))
    ensures !Fits(b, p, 0, 1) ==> DropDistance(b, p) == 0
  {
  }

  /** A piece that fits where it is still fits where a hard drop leaves it. */
  lemma DropLandingFits(b: Grid, p: Piece)
    requires IsGrid(b) && HasCell(p.shape) && Fits(b, p, 0, 0)
    ensures Fits(b, p.(y := p.y + DropDistance(b, p)), 0, 0)
  {
    var d := DropDistance(b, p);
    if d > 0 {
      DropLands(b, p);
      var q := p.(y := p.y + d - 1);
      assert Fits(b, q, 0, 1);
      FitsShift(b, q, 0, 1);
      assert q.(x := q.x + 0, y := q.y + 1) == p.(y := p.y + d);
    }
  }
}

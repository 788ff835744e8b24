/** The piece catalog, spawning, and the clockwise rotation of a shape. */
module Pieces {
  import opened Board

  /** A shape is a matrix of 0/1 cells; a cell is part of the piece when it is non-zero. */
  type Shape = seq<seq<int>>

  /** A catalog entry: a shape and the colour its blocks get. */
  datatype Template = Template(shape: Shape, color: int)

  /** A live piece: its current shape (some rotation of a template), its colour and the board
      column x and row y of the shape's top-left cell. */
  datatype Piece = Piece(shape: Shape, color: int, x: int, y: int)

  /** A non-empty rectangular matrix. */
  predicate IsRect(s: Shape)
  {
    |s| > 0 && |s[0]| > 0 && forall r :: 0 <= r < |s| ==> |s[r]| == |s[0]|
  }

  /** At least one cell of the shape is filled. */
  predicate HasCell(s: Shape)
  {
    exists r, c :: 0 <= r < |s| && 0 <= c < |s[r]| && s[r][c] != 0
  }

  predicate IsShape(s: Shape)
  {
    IsRect(s) && HasCell(s)
  }

  /** A piece the engine can work with: a well-formed shape and a colour that marks a cell as
      occupied. */
  predicate ValidPiece(p: Piece)
  {
    IsShape(p.shape) && p.color != EMPTY
  }

  /** PIECES: I, O, T, J, L, S and Z, with their colours written as hexadecimal numbers. */
  function Catalog(): (t: seq<Template>)
    ensures |t| == 7
    ensures forall i :: 0 <= i < |t| ==>
              IsRect(t[i].shape) && t[i].color != EMPTY && |t[i].shape| <= 2 && 2 <= |t[i].shape[0]| <= 4
              && t[i].shape[|t[i].shape| - 1][1] != 0
  {
    [ Template([[1, 1, 1, 1]], 0x00f0f0),
      Template([[1, 1], [1, 1]], 0xf0f000),
      Template([[0, 1, 0], [1, 1, 1]], 0xa000f0),
      Template([[1, 0, 0], [1, 1, 1]], 0x0000f0),
      Template([[0, 0, 1], [1, 1, 1]], 0xf0a000),
      Template([[0, 1, 1], [1, 1, 0]], 0x00f000),
      Template([[1, 1, 0], [0, 1, 1]], 0xf00000) ]
  }

  /** getRandomPiece, with the random catalog index k passed in: a copy of entry k, horizontally
      centred (x = floor(COLS/2) - floor(width/2)) on the top row. Shapes are values, so the
      catalog can never be changed through the copy. */
  function Spawn(k: int): (p: Piece)
    requires 0 <= k < |Catalog()|
    ensures p.shape == Catalog()[k].shape && p.color == Catalog()[k].color
    ensures ValidPiece(p)
    ensures p.y == 0 && p.x + |p.shape[0]| / 2 == COLS / 2
    ensures 0 <= p.x && p.x + |p.shape[0]| <= COLS
  {
    var t := Catalog()[k];
    assert t.shape[|t.shape| - 1][1] != 0;
    Piece(t.shape, t.color, COLS / 2 - |t.shape[0]| / 2, 0)
  }

  /** The clockwise quarter turn of rotatePiece: the transpose with each new row reversed. The
      result has as many rows as s has columns, and new[i][j] == s[h-1-j][i]. */
  function Rotated(s: Shape): (r: Shape)
    requires IsRect(s)
    ensures IsRect(r) && |r| == |s[0]| && |r[0]| == |s|
    ensures forall i, j :: 0 <= i < |r| && 0 <= j < |r[i]| ==> r[i][j] == s[|s| - 1 - j][i]
  {
    seq(|s[0]|, i requires 0 <= i < |s[0]| => seq(|s|, j requires 0 <= j < |s| => s[|s| - 1 - j][i]))
  }

  /** Every filled cell of s has a filled image in the rotated shape, so rotation keeps a shape
      well formed. */
  lemma RotatedIsShape(s: Shape)
    requires IsShape(s)
    ensures IsShape(Rotated(s))
  {
    var r, c :| 0 <= r < |s| && 0 <= c < |s[r]| && s[r][c] != 0;
    var t := Rotated(s);
    assert t[c][|s| - 1 - r] == s[r][c];
  }

  /** Two quarter turns are the half turn. */
  lemma RotatedTwice(s: Shape)
    requires IsRect(s)
    ensures IsRect(Rotated(Rotated(s)))
    ensures |Rotated(Rotated(s))| == |s| && |Rotated(Rotated(s))[0]| == |s[0]|
    ensures forall i, j :: 0 <= i < |s| && 0 <= j < |s[0]| ==>
              Rotated(Rotated(s))[i][j] == s[|s| - 1 - i][|s[0]| - 1 - j]
  {
  }

  /** Four quarter turns give back exactly the original shape. */
  lemma RotatedFourTimes(s: Shape)
    requires IsRect(s)
    ensures Rotated(Rotated(Rotated(Rotated(s)))) == s
  {
    RotatedTwice(s);
    var h := Rotated(Rotated(s));
    RotatedTwice(h);
    var f := Rotated(Rotated(h));
    forall i | 0 <= i < |s|
      ensures f[i] == s[i]
    {
      assert |f[i]| == |s[i]|;
      forall j | 0 <= j < |s[i]|
        ensures f[i][j] == s[i][j]
      {
        assert f[i][j] == h[|s| - 1 - i][|s[0]| - 1 - j];
      }
    }
  }
}

/** The playing field: a ROWS x COLS grid of cells, and what clearing full rows does to it. */
module Board {

  const ROWS: int := 20
  const COLS: int := 10

  /** A cell holds 0 when it is empty, otherwise the colour of the block that settled there. */
  const EMPTY: int := 0

  type Row = seq<int>
  type Grid = seq<Row>

  /** The board keeps exactly ROWS rows of COLS cells each. */
  predicate IsGrid(b: Grid)
  {
    |b| == ROWS && forall r :: 0 <= r < |b| ==> |b[r]| == COLS
  }

  /** A row is full when every one of its cells is occupied. */
  predicate IsFull(row: Row)
  {
    forall c :: 0 <= c < |row| ==> row[c] != EMPTY
  }

  /** A fresh row of COLS empty cells; being non-empty, it is never full. */
  function EmptyRow(): (row: Row)
    ensures |row| == COLS
    ensures forall c :: 0 <= c < |row| ==> row[c] == EMPTY
    ensures !IsFull(row)
  {
    var row := seq(COLS, _ => EMPTY);
    assert row[0] == EMPTY;
    row
  }

  /** createBoard: ROWS rows of COLS empty cells. */
  function CreateBoard(): (b: Grid)
    ensures IsGrid(b)
    ensures forall r, c :: 0 <= r < ROWS && 0 <= c < COLS ==> b[r][c] == EMPTY
  {
    seq(ROWS, _ => EmptyRow())
  }

  function EmptyRows(n: nat): (e: Grid)
    ensures |e| == n && forall i :: 0 <= i < n ==> e[i] == EmptyRow()
  {
    seq(n, _ => EmptyRow())
  }

  /** The rows of b that are not full, in their original top-to-bottom order. */
  function Kept(b: Grid): (k: Grid)
    ensures |k| <= |b|
    ensures forall i :: 0 <= i < |k| ==> !IsFull(k[i])
  {
    if b == [] then [] else (if IsFull(b[0]) then [] else [b[0]]) + Kept(b[1..])
  }

  /** Every kept row is a row of b and is not full. */
  lemma {:induction false} KeptRows(b: Grid)
    ensures forall i :: 0 <= i < |Kept(b)| ==> !IsFull(Kept(b)[i]) && Kept(b)[i] in b
  {
    if b != [] {
      KeptRows(b[1..]);
      var k := Kept(b);
      var rest := Kept(b[1..]);
      forall i | 0 <= i < |k|
        ensures !IsFull(k[i]) && k[i] in b
      {
        if !IsFull(b[0]) && i == 0 {
          assert k[i] == b[0];
        } else {
          var i' := if IsFull(b[0]) then i else i - 1;
          assert k[i] == rest[i'];
          assert rest[i'] in b[1..];
        }
      }
    }
  }

  /** Conversely, every row of b that is not full is kept. */
  lemma {:induction false} KeptComplete(b: Grid)
    ensures forall i :: 0 <= i < |b| && !IsFull(b[i]) ==> b[i] in Kept(b)
  {
    if b != [] {
      KeptComplete(b[1..]);
      var h := if IsFull(b[0]) then [] else [b[0]];
      assert Kept(b) == h + Kept(b[1..]);
      forall i | 0 <= i < |b| && !IsFull(b[i])
        ensures b[i] in Kept(b)
      {
        if i == 0 {
          assert Kept(b)[0] == b[0];
        } else {
          assert b[i] == b[1..][i - 1];
          assert b[i] in Kept(b[1..]);
        }
      }
    }
  }

  /** The number of full rows of b; together with the kept rows they account for every row. */
  function FullCount(b: Grid): (n: nat)
    ensures n + |Kept(b)| == |b|
  {
    if b == [] then 0 else (if IsFull(b[0]) then 1 else 0) + FullCount(b[1..])
  }

  /** No row is counted as full exactly when no row of b is full. */
  lemma {:induction false} FullCountZero(b: Grid)
    ensures FullCount(b) == 0 <==> forall i :: 0 <= i < |b| ==> !IsFull(b[i])
  {
    if b != [] {
      FullCountZero(b[1..]);
      assert forall i :: 1 <= i < |b| ==> b[i] == b[1..][i - 1];
    }
  }

  /** The board clearLines leaves: one empty row on top for every full row removed, then the
      surviving rows in their original order. ClearedShape states what it is made of. */
  function Cleared(b: Grid): (c: Grid)
    ensures |c| == |b|
    ensures IsGrid(b) ==> IsGrid(c)
  {
    var c := EmptyRows(FullCount(b)) + Kept(b);
    assert IsGrid(b) ==> forall i :: 0 <= i < |Kept(b)| ==> |Kept(b)[i]| == COLS by {
      if IsGrid(b) {
        KeptRows(b);
        forall i | 0 <= i < |Kept(b)| ensures |Kept(b)[i]| == COLS {
          var row := Kept(b)[i];
          var j :| 0 <= j < |b| && b[j] == row;
        }
      }
    }
    assert IsGrid(b) ==> forall i :: FullCount(b) <= i < |c| ==> c[i] == Kept(b)[i - FullCount(b)];
    c
  }

  /** The cleared board has no full row: its top rows are the empty rows that replace the
      removed ones, and below them come the kept rows, in order. */
  lemma ClearedShape(b: Grid)
    ensures forall i :: 0 <= i < |Cleared(b)| ==> !IsFull(Cleared(b)[i])
    ensures Cleared(b)[..FullCount(b)] == EmptyRows(FullCount(b))
    ensures Cleared(b)[FullCount(b)..] == Kept(b)
  {
    var n := FullCount(b);
    var e, k := EmptyRows(n), Kept(b);
    assert Cleared(b) == e + k;
    ConcatParts(e, k);
    KeptRows(b);
    NoFullConcat(e, k);
  }

  /** The two halves of a concatenation. */
  lemma ConcatParts(e: Grid, k: Grid)
    ensures (e + k)[..|e|] == e && (e + k)[|e|..] == k
  {
  }

  /** Empty rows on top of rows that are not full: no row is full. */
  lemma NoFullConcat(e: Grid, k: Grid)
    requires forall i :: 0 <= i < |e| ==> e[i] == EmptyRow()
    requires forall i :: 0 <= i < |k| ==> !IsFull(k[i])
    ensures forall i :: 0 <= i < |e + k| ==> !IsFull((e + k)[i])
  {
    forall i | 0 <= i < |e + k|
      ensures !IsFull((e + k)[i])
    {
      if i >= |e| {
        assert (e + k)[i] == k[i - |e|];
      }
    }
  }

  /** One step of the bottom-up scan: the row just above a suffix either joins the kept rows or is
      counted as full. */
  lemma KeptStep(b: Grid, j: int)
    requires 0 < j <= |b|
    ensures Kept(b[j - 1..]) == (if IsFull(b[j - 1]) then [] else [b[j - 1]]) + Kept(b[j..])
    ensures FullCount(b[j - 1..]) == (if IsFull(b[j - 1]) then 1 else 0) + FullCount(b[j..])
  {
    assert b[j - 1..][1..] == b[j..];
  }

  /** A full row is not kept. */
  lemma KeptSkip(b: Grid, j: int)
    requires 0 < j <= |b| && IsFull(b[j - 1])
    ensures Kept(b[j - 1..]) == Kept(b[j..])
  {
    KeptStep(b, j);
    assert [] + Kept(b[j..]) == Kept(b[j..]);
  }

  /** The board part-way through clearLines' bottom-up scan of the original rows, when the top
      j original rows are still unexamined and cl full rows have been removed: cl empty rows,
      the unexamined rows, then the examined rows that survived. */
  function Scanned(rows: Grid, cl: nat, j: int): (b: Grid)
    requires 0 <= j <= |rows|
    ensures |b| == cl + j + |Kept(rows[j..])|
  {
    EmptyRows(cl) + rows[..j] + Kept(rows[j..])
  }

  /** Before the scan nothing is removed: the board is the original one. */
  lemma ScannedStart(rows: Grid)
    ensures Scanned(rows, 0, |rows|) == rows
  {
    assert rows[..|rows|] == rows;
    assert rows[|rows|..] == [];
  }

  /** After the scan the board is the cleared board. */
  lemma ScannedEnd(rows: Grid)
    ensures Scanned(rows, FullCount(rows), 0) == Cleared(rows)
  {
    assert rows[..0] == [];
    assert rows[0..] == rows;
  }

  /** The row the scan examines at index cl + j - 1 is the lowest unexamined original row; once
      all original rows are examined, the rows left above index cl are empty. */
  lemma ScannedRow(rows: Grid, cl: nat, j: int, row: int)
    requires 0 <= j <= |rows| && 0 <= row
    requires (j > 0 ==> row == cl + j - 1) && (j == 0 ==> row < cl)
    ensures row < |Scanned(rows, cl, j)|
    ensures Scanned(rows, cl, j)[row] == if j == 0 then EmptyRow() else rows[j - 1]
  {
  }

  /** The first j rows are the first j - 1 rows and then row j - 1. */
  lemma TakeLast(b: Grid, j: int)
    requires 0 < j <= |b|
    ensures b[..j] == b[..j - 1] + [b[j - 1]]
  {
  }

  /** An empty row on top of n empty rows is n + 1 empty rows. */
  lemma EmptyRowsCons(n: nat)
    ensures [EmptyRow()] + EmptyRows(n) == EmptyRows(n + 1)
  {
  }

  /** Removing the element x at index n == |e| + |u| of s == e + (u + [x]) + c and putting r
      on top leaves ([r] + e) + u + c. */
  lemma SpliceOut(s: Grid, n: int, e: Grid, u: Grid, x: Row, c: Grid, r: Row)
    requires s == e + (u + [x]) + c && n == |e| + |u|
    ensures [r] + (s[..n] + s[n + 1..]) == [r] + e + u + c
  {
    assert s[..n] == e + u;
    assert s[n + 1..] == c;
  }

  /** The scan state around the lowest unexamined original row rows[j - 1]. */
  lemma ScannedAround(rows: Grid, cl: nat, j: int)
    requires 0 < j <= |rows|
    ensures Scanned(rows, cl, j) == EmptyRows(cl) + (rows[..j - 1] + [rows[j - 1]]) + Kept(rows[j..])
  {
    TakeLast(rows, j);
  }

  /** The scan state once the full row rows[j - 1] has been removed. */
  lemma ScannedPastFull(rows: Grid, cl: nat, j: int)
    requires 0 < j <= |rows| && IsFull(rows[j - 1])
    ensures Scanned(rows, cl + 1, j - 1) == [EmptyRow()] + EmptyRows(cl) + rows[..j - 1] + Kept(rows[j..])
  {
    EmptyRowsCons(cl);
    KeptSkip(rows, j);
  }

  /** Splicing out the examined row when it is full and putting an empty row on top gives the
      scan state with that row counted as removed. */
  lemma ScannedSplice(rows: Grid, cl: nat, j: int)
    requires 0 < j <= |rows| && IsFull(rows[j - 1])
    ensures var b := Scanned(rows, cl, j);
            var row := cl + j - 1;
            [EmptyRow()] + (b[..row] + b[row + 1..]) == Scanned(rows, cl + 1, j - 1)
  {
    ScannedAround(rows, cl, j);
    ScannedPastFull(rows, cl, j);
    SpliceOut(Scanned(rows, cl, j), cl + j - 1, EmptyRows(cl), rows[..j - 1], rows[j - 1], Kept(rows[j..]), EmptyRow());
  }

  /** Passing over a row that is not full leaves the board as it is: the row moves from the
      unexamined part to the kept part. */
  lemma ScannedKeep(rows: Grid, cl: nat, j: int)
    requires 0 < j <= |rows| && !IsFull(rows[j - 1])
    ensures Scanned(rows, cl, j) == Scanned(rows, cl, j - 1)
  {
    KeptStep(rows, j);
    assert rows[..j] == rows[..j - 1] + [rows[j - 1]];
  }

  /** Where clearLines' scan can stand: the board is the scan state of Scanned, of the original
      length; when original rows remain unexamined, row is the index of the lowest of them, and
      otherwise row is within the empty rows added on top (or -1 when the scan is over). */
  ghost predicate ScanState(rows: Grid, grid: Grid, cl: nat, j: int, row: int)
  {
    -1 <= row < |rows| && 0 <= j <= |rows| &&
    grid == Scanned(rows, cl, j) && |grid| == |rows| && cl == FullCount(rows[j..]) &&
    (j > 0 ==> row == cl + j - 1) && (j == 0 ==> row < cl)
  }

  /** A full row at index row is spliced out and an empty row put on top; row is then examined
      again, since it now holds the row from above. */
  lemma ScanSplice(rows: Grid, grid: Grid, cl: nat, j: int, row: int)
    requires ScanState(rows, grid, cl, j, row) && 0 <= row < |grid| && IsFull(grid[row])
    ensures j > 0 && ScanState(rows, [EmptyRow()] + (grid[..row] + grid[row + 1..]), cl + 1, j - 1, row)
  {
    ScannedRow(rows, cl, j, row);
    assert j > 0;
    KeptStep(rows, j);
    assert cl + 1 == FullCount(rows[j - 1..]);
    ScannedSplice(rows, cl, j);
    assert [EmptyRow()] + (grid[..row] + grid[row + 1..]) == Scanned(rows, cl + 1, j - 1);
  }

  /** An original row that is not full is passed over: it joins the kept rows. */
  lemma ScanKeep(rows: Grid, grid: Grid, cl: nat, j: int, row: int)
    requires ScanState(rows, grid, cl, j, row) && 0 <= row < |grid| && !IsFull(grid[row]) && j > 0
    ensures ScanState(rows, grid, cl, j - 1, row - 1)
  {
    ScannedRow(rows, cl, j, row);
    KeptStep(rows, j);
    ScannedKeep(rows, cl, j);
  }

  /** One step of the scan from row: a full row is spliced out and examined again, a row that
      is not full is passed over. */
  lemma ScanStep(rows: Grid, grid: Grid, cl: nat, j: int, row: int)
    requires ScanState(rows, grid, cl, j, row) && row >= 0
    ensures row < |grid|
    ensures IsFull(grid[row]) ==>
              j > 0 && ScanState(rows, [EmptyRow()] + (grid[..row] + grid[row + 1..]), cl + 1, j - 1, row)
    ensures !IsFull(grid[row]) && j > 0 ==> ScanState(rows, grid, cl, j - 1, row - 1)
    ensures !IsFull(grid[row]) && j == 0 ==> ScanState(rows, grid, cl, j, row - 1)
  {
    if IsFull(grid[row]) {
      ScanSplice(rows, grid, cl, j, row);
    } else if j > 0 {
      ScanKeep(rows, grid, cl, j, row);
    }
  }

  /** Filtering distributes over concatenation, so the kept rows keep their relative order. */
  lemma {:induction false} KeptAppend(a: Grid, b: Grid)
    ensures Kept(a + b) == Kept(a) + Kept(b)
    ensures FullCount(a + b) == FullCount(a) + FullCount(b)
  {
    if a == [] {
      assert a + b == b;
    } else {
      var ab := a + b;
      ConsAppend(a, b);
      KeptAppend(a[1..], b);
      var h := if IsFull(a[0]) then [] else [a[0]];
      assert Kept(ab) == h + Kept(a[1..] + b);
      ConcatAssoc(h, Kept(a[1..]), Kept(b));
    }
  }

  /** The head and tail of a + b when a is not empty. */
  lemma ConsAppend(a: Grid, b: Grid)
    requires a != []
    ensures a + b != [] && (a + b)[0] == a[0] && (a + b)[1..] == a[1..] + b
  {
  }

  /** Concatenation is associative. */
  lemma ConcatAssoc(h: Grid, x: Grid, y: Grid)
    ensures h + (x + y) == (h + x) + y
  {
  }

  /** A board without full rows keeps every row. */
  lemma {:induction false} KeptAll(b: Grid)
    requires forall i :: 0 <= i < |b| ==> !IsFull(b[i])
    ensures Kept(b) == b
  {
    if b != [] {
      assert forall i :: 0 <= i < |b[1..]| ==> b[1..][i] == b[i + 1];
      KeptAll(b[1..]);
      assert [b[0]] + b[1..] == b;
    }
  }

  /** Clearing a second time finds nothing to remove and leaves the board as it is. */
  lemma ClearedIdempotent(b: Grid)
    ensures FullCount(Cleared(b)) == 0
    ensures Cleared(Cleared(b)) == Cleared(b)
  {
    var c := Cleared(b);
    ClearedShape(b);
    FullCountZero(c);
    KeptAll(c);
    assert EmptyRows(0) + c == c;
  }
}

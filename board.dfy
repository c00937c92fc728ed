/** The Connect Four grid as a value: its cells, the column scan that finds
    where a dropped piece lands, the four-in-a-row test and the tie test,
    with the facts about them that the game engine relies on.

    Row 0 is the top row; pieces fall towards row Height - 1. */
module Board {

  const Width: int := 7
  const Height: int := 6

  /** The value of a cell nobody has played. */
  const EmptyCell: int := 0

  datatype Option<T> = None | Some(value: T)

  /** board[y][x]: a sequence of Height rows of Width cells. */
  type Grid = seq<seq<int>>

  predicate IsPlayer(p: int) { p == 1 || p == 2 }

  predicate InBounds(y: int, x: int) { 0 <= y < Height && 0 <= x < Width }

  predicate WellFormed(g: Grid) {
    |g| == Height && forall y :: 0 <= y < Height ==> |g[y]| == Width
  }

  /** Every cell is empty or holds one of the two players. */
  ghost predicate CellsOk(g: Grid)
    requires WellFormed(g)
  {
    forall y, x :: InBounds(y, x) ==> g[y][x] == EmptyCell || IsPlayer(g[y][x])
  }

  /** Pieces never float: an occupied cell above the bottom row sits on an
      occupied cell. */
  predicate Gravity(g: Grid)
    requires WellFormed(g)
  {
    forall y, x {:trigger g[y][x]} :: 0 <= y < Height - 1 && 0 <= x < Width && g[y][x] != EmptyCell ==> g[y + 1][x] != EmptyCell
  }

  /** makeBoard: the Height x Width grid of empty cells. */
  function EmptyGrid(): (g: Grid)
    ensures WellFormed(g)
    ensures forall y, x :: InBounds(y, x) ==> g[y][x] == EmptyCell
  {
    seq(Height, _ => seq(Width, _ => EmptyCell))
  }

  /** Two well-formed grids that agree on every cell are equal. */
  lemma GridsEqual(g: Grid, h: Grid)
    requires WellFormed(g) && WellFormed(h)
    requires forall y, x :: InBounds(y, x) ==> g[y][x] == h[y][x]
    ensures g == h
  {
    forall y | 0 <= y < Height
      ensures g[y] == h[y]
    {
      assert forall x :: 0 <= x < Width ==> g[y][x] == h[y][x];
    }
  }

  /** The grid after writing v into cell (y, x): that cell holds v and no
      other cell changes. */
  function Place(g: Grid, y: int, x: int, v: int): (r: Grid)
    requires WellFormed(g) && InBounds(y, x)
    ensures WellFormed(r)
    ensures r[y][x] == v
    ensures forall y', x' :: InBounds(y', x') && (y', x') != (y, x) ==> r[y'][x'] == g[y'][x']
  {
    g[y := g[y][x := v]]
  }

  // ---------------------------------------------------------------------
  // findSpotForCol

  /** Every cell of column x is occupied. */
  predicate ColumnIsFull(g: Grid, x: int)
    requires WellFormed(g) && 0 <= x < Width
  {
    forall k :: 0 <= k < Height ==> g[k][x] != EmptyCell
  }

  /** The scan of column x from row i up to row 0 (towards the top), stopping
      at the first empty cell. Some(r): row r is empty and every scanned row
      below it is occupied; None: rows 0..i are all occupied. */
  function ScanColumn(g: Grid, x: int, i: int): (r: Option<int>)
    requires WellFormed(g) && 0 <= x < Width && -1 <= i < Height
    ensures r.Some? ==> 0 <= r.value <= i && g[r.value][x] == EmptyCell
    ensures r.Some? ==> forall k :: r.value < k <= i ==> g[k][x] != EmptyCell
    ensures r.None? ==> forall k :: 0 <= k <= i ==> g[k][x] != EmptyCell
    decreases i + 1
  {
    if i < 0 then None
    else if g[i][x] == EmptyCell then Some(i)
    else ScanColumn(g, x, i - 1)
  }

  /** The row a piece dropped into column x lands in: the largest row whose
      cell in column x is empty, or None when the column is full. */
  function FindSpot(g: Grid, x: int): (r: Option<int>)
    requires WellFormed(g) && 0 <= x < Width
    ensures r.Some? ==> InBounds(r.value, x) && g[r.value][x] == EmptyCell
    ensures r.Some? ==> forall k :: r.value < k < Height ==> g[k][x] != EmptyCell
    ensures r.None? <==> ColumnIsFull(g, x)
  {
    ScanColumn(g, x, Height - 1)
  }

  /** Dropping into the spot FindSpot returns keeps pieces from floating. */
  lemma PlaceAtSpotKeepsGravity(g: Grid, x: int, p: int)
    requires WellFormed(g) && Gravity(g) && 0 <= x < Width
    requires FindSpot(g, x).Some? && p != EmptyCell
    ensures Gravity(Place(g, FindSpot(g, x).value, x, p))
  {
    var y := FindSpot(g, x).value;
    var h := Place(g, y, x, p);
    forall y', x' {:trigger h[y'][x']} | 0 <= y' < Height - 1 && 0 <= x' < Width && h[y'][x'] != EmptyCell
      ensures h[y' + 1][x'] != EmptyCell
    {
      if (y', x') == (y, x) {
        assert h[y' + 1][x'] == g[y + 1][x];
      } else if (y' + 1, x') == (y, x) {
        assert h[y' + 1][x'] == p;
      } else {
        assert h[y'][x'] == g[y'][x'];
      }
    }
  }

  // ---------------------------------------------------------------------
  // checkForTie

  /** checkForTie as written: it looks at the first row only (row 0, the top
      row) and asks whether every value there is positive. */
  predicate TopRowFull(g: Grid)
    requires WellFormed(g)
  {
    forall x :: 0 <= x < Width ==> g[0][x] > 0
  }

  /** No cell of the grid is empty. */
  ghost predicate Full(g: Grid)
    requires WellFormed(g)
  {
    forall y, x :: InBounds(y, x) ==> g[y][x] != EmptyCell
  }

  /** Under gravity, an occupied cell has only occupied cells below it. */
  lemma {:induction false} OccupiedBelow(g: Grid, y: int, x: int)
    requires WellFormed(g) && Gravity(g) && InBounds(y, x) && g[y][x] != EmptyCell
    ensures forall k :: y <= k < Height ==> g[k][x] != EmptyCell
    decreases Height - y
  {
    if y < Height - 1 {
      OccupiedBelow(g, y + 1, x);
    }
  }

  /** Looking at the top row only is enough: with pieces that never float,
      the top row is full exactly when the whole board is. */
  lemma TopRowFullIffFull(g: Grid)
    requires WellFormed(g) && CellsOk(g) && Gravity(g)
    ensures TopRowFull(g) <==> Full(g)
  {
    if TopRowFull(g) {
      forall y, x | InBounds(y, x)
        ensures g[y][x] != EmptyCell
      {
        OccupiedBelow(g, 0, x);
      }
    }
    if Full(g) {
      forall x | 0 <= x < Width
        ensures g[0][x] > 0
      {
        assert InBounds(0, x);
      }
    }
  }

  // ---------------------------------------------------------------------
  // checkForWin

  /** The four directions a line of four is formed in, in the order the
      source tries them. */
  datatype Direction = Horizontal | Vertical | DiagDownRight | DiagDownLeft

  /** The four cells starting at (y, x) and stepping in direction d: the
      horiz, vert, diagDR and diagDL arrays of checkForWin. */
  function Line(y: int, x: int, d: Direction): (cells: seq<(int, int)>)
    ensures |cells| == 4 && cells[0] == (y, x)
  {
    match d
    case Horizontal => [(y, x), (y, x + 1), (y, x + 2), (y, x + 3)]
    case Vertical => [(y, x), (y + 1, x), (y + 2, x), (y + 3, x)]
    case DiagDownRight => [(y, x), (y + 1, x + 1), (y + 2, x + 2), (y + 3, x + 3)]
    case DiagDownLeft => [(y, x), (y + 1, x - 1), (y + 2, x - 2), (y + 3, x - 3)]
  }

  /** _win: every listed coordinate is on the board and holds player p. */
  predicate AllMatch(g: Grid, p: int, cells: seq<(int, int)>)
    requires WellFormed(g)
  {
    forall i :: 0 <= i < |cells| ==> InBounds(cells[i].0, cells[i].1) && g[cells[i].0][cells[i].1] == p
  }

  /** Player p has four in a row: some origin on the board and some direction
      give four cells that are all on the board and all hold p. */
  ghost predicate HasWin(g: Grid, p: int)
    requires WellFormed(g)
  {
    exists y, x, d :: InBounds(y, x) && AllMatch(g, p, Line(y, x, d))
  }

  /** The test checkForWin makes at origin (y, x): the horizontal, vertical,
      diagonal down-right or diagonal down-left line of four is p's. */
  predicate WinFrom(g: Grid, p: int, y: int, x: int)
    requires WellFormed(g)
  {
    || AllMatch(g, p, Line(y, x, Horizontal))
    || AllMatch(g, p, Line(y, x, Vertical))
    || AllMatch(g, p, Line(y, x, DiagDownRight))
    || AllMatch(g, p, Line(y, x, DiagDownLeft))
  }

  /** Trying the four directions at every origin finds a win exactly when
      there is one. */
  lemma HasWinIffWinFrom(g: Grid, p: int)
    requires WellFormed(g)
    ensures HasWin(g, p) <==> exists y, x :: InBounds(y, x) && WinFrom(g, p, y, x)
  {
    if HasWin(g, p) {
      var y, x, d :| InBounds(y, x) && AllMatch(g, p, Line(y, x, d));
      assert WinFrom(g, p, y, x);
    }
    if exists y, x :: InBounds(y, x) && WinFrom(g, p, y, x) {
      var y, x :| InBounds(y, x) && WinFrom(g, p, y, x);
      if AllMatch(g, p, Line(y, x, Horizontal)) {
        assert AllMatch(g, p, Line(y, x, Horizontal));
      } else if AllMatch(g, p, Line(y, x, Vertical)) {
        assert AllMatch(g, p, Line(y, x, Vertical));
      } else if AllMatch(g, p, Line(y, x, DiagDownRight)) {
        assert AllMatch(g, p, Line(y, x, DiagDownRight));
      } else {
        assert AllMatch(g, p, Line(y, x, DiagDownLeft));
      }
    }
  }

  /** Some origin (y, x') with x' < x, in row y, is the start of a line of
      four of p: the origins the inner loop of checkForWin has tried. */
  ghost predicate WinInRowBefore(g: Grid, p: int, y: int, x: int)
    requires WellFormed(g)
    decreases x
  {
    x > 0 && (WinInRowBefore(g, p, y, x - 1) || WinFrom(g, p, y, x - 1))
  }

  /** Some origin in rows 0 .. y - 1 starts a line of four of p: the origins
      the outer loop of checkForWin has tried. */
  ghost predicate WinInRowsBefore(g: Grid, p: int, y: int)
    requires WellFormed(g)
    decreases y
  {
    y > 0 && (WinInRowsBefore(g, p, y - 1) || WinInRowBefore(g, p, y - 1, Width))
  }

  lemma {:induction false} WinInRowBeforeIff(g: Grid, p: int, y: int, x: int)
    requires WellFormed(g) && 0 <= x
    ensures WinInRowBefore(g, p, y, x) <==> exists x' :: 0 <= x' < x && WinFrom(g, p, y, x')
    decreases x
  {
    if x > 0 {
      WinInRowBeforeIff(g, p, y, x - 1);
      if WinInRowBefore(g, p, y, x) {
        if WinInRowBefore(g, p, y, x - 1) {
          var x' :| 0 <= x' < x - 1 && WinFrom(g, p, y, x');
          assert 0 <= x' < x && WinFrom(g, p, y, x');
        } else {
          assert 0 <= x - 1 < x && WinFrom(g, p, y, x - 1);
        }
      }
      if exists x' :: 0 <= x' < x && WinFrom(g, p, y, x') {
        var x' :| 0 <= x' < x && WinFrom(g, p, y, x');
        if x' < x - 1 {
          assert WinInRowBefore(g, p, y, x - 1);
        }
      }
    }
  }

  lemma {:induction false} WinInRowsBeforeIff(g: Grid, p: int, y: int)
    requires WellFormed(g) && 0 <= y
    ensures WinInRowsBefore(g, p, y) <==> exists y', x' :: 0 <= y' < y && 0 <= x' < Width && WinFrom(g, p, y', x')
    decreases y
  {
    if y > 0 {
      WinInRowsBeforeIff(g, p, y - 1);
      WinInRowBeforeIff(g, p, y - 1, Width);
      if WinInRowsBefore(g, p, y) {
        if WinInRowsBefore(g, p, y - 1) {
          var y', x' :| 0 <= y' < y - 1 && 0 <= x' < Width && WinFrom(g, p, y', x');
          assert 0 <= y' < y && 0 <= x' < Width && WinFrom(g, p, y', x');
        } else {
          var x' :| 0 <= x' < Width && WinFrom(g, p, y - 1, x');
          assert 0 <= y - 1 < y && 0 <= x' < Width && WinFrom(g, p, y - 1, x');
        }
      }
      if exists y', x' :: 0 <= y' < y && 0 <= x' < Width && WinFrom(g, p, y', x') {
        var y', x' :| 0 <= y' < y && 0 <= x' < Width && WinFrom(g, p, y', x');
        if y' < y - 1 {
          assert WinInRowsBefore(g, p, y - 1);
        } else {
          assert WinInRowBefore(g, p, y - 1, Width);
        }
      }
    }
  }

  /** Trying every origin of the board in the order of checkForWin's loops
      finds a win exactly when there is one. */
  lemma ScanFindsWin(g: Grid, p: int)
    requires WellFormed(g)
    ensures WinInRowsBefore(g, p, Height) <==> HasWin(g, p)
  {
    WinInRowsBeforeIff(g, p, Height);
    HasWinIffWinFrom(g, p);
  }

  /** Nobody has four in a row on the empty board. */
  lemma EmptyGridHasNoWin(p: int)
    requires p != EmptyCell
    ensures !HasWin(EmptyGrid(), p)
  {
    var g := EmptyGrid();
    forall y, x, d | InBounds(y, x)
      ensures !AllMatch(g, p, Line(y, x, d))
    {
      assert g[y][x] == EmptyCell;
    }
  }

  /** A line of q's in the grid after v was written into (y, x) was already
      there before, unless the line uses that very cell and v == q. */
  lemma LineSurvivesPlace(g: Grid, y: int, x: int, v: int, q: int, cells: seq<(int, int)>)
    requires WellFormed(g) && InBounds(y, x)
    requires AllMatch(Place(g, y, x, v), q, cells)
    requires v != q || (y, x) !in cells
    ensures AllMatch(g, q, cells)
  {
    var h := Place(g, y, x, v);
    forall i | 0 <= i < |cells|
      ensures InBounds(cells[i].0, cells[i].1) && g[cells[i].0][cells[i].1] == q
    {
      assert h[cells[i].0][cells[i].1] == q;
    }
  }

  /** Writing a piece of p cannot give the other player q a win. */
  lemma PlaceGivesOtherNoWin(g: Grid, y: int, x: int, p: int, q: int)
    requires WellFormed(g) && InBounds(y, x) && p != q
    ensures HasWin(Place(g, y, x, p), q) ==> HasWin(g, q)
  {
    var h := Place(g, y, x, p);
    if HasWin(h, q) {
      var y0, x0, d :| InBounds(y0, x0) && AllMatch(h, q, Line(y0, x0, d));
      LineSurvivesPlace(g, y, x, p, q, Line(y0, x0, d));
    }
  }

  /** A win that the last piece created runs through that piece: if p had no
      four in a row before its piece went into (y, x), every winning line
      afterwards contains (y, x). */
  lemma NewWinContainsPlacedCell(g: Grid, y: int, x: int, p: int, y0: int, x0: int, d: Direction)
    requires WellFormed(g) && InBounds(y, x) && !HasWin(g, p)
    requires InBounds(y0, x0) && AllMatch(Place(g, y, x, p), p, Line(y0, x0, d))
    ensures (y, x) in Line(y0, x0, d)
  {
    if (y, x) !in Line(y0, x0, d) {
      LineSurvivesPlace(g, y, x, p, p, Line(y0, x0, d));
    }
  }

  // ---------------------------------------------------------------------
  // Counting pieces

  /** How many cells of a row hold p. */
  function RowPieces(row: seq<int>, p: int): (n: nat)
    ensures n <= |row|
  {
    if row == [] then 0 else (if row[0] == p then 1 else 0) + RowPieces(row[1..], p)
  }

  /** How many cells of the grid hold p. */
  function Pieces(g: Grid, p: int): (n: nat)
  {
    if g == [] then 0 else RowPieces(g[0], p) + Pieces(g[1..], p)
  }

  /** Overwriting one cell of a row changes its count of p by at most the one
      cell written. */
  lemma {:induction false} RowPiecesUpdate(row: seq<int>, x: int, v: int, p: int)
    requires 0 <= x < |row|
    ensures RowPieces(row[x := v], p) + (if row[x] == p then 1 else 0)
         == RowPieces(row, p) + (if v == p then 1 else 0)
  {
    if x > 0 {
      assert row[x := v][1..] == row[1..][x - 1 := v];
      RowPiecesUpdate(row[1..], x - 1, v, p);
    } else {
      assert row[x := v][1..] == row[1..];
    }
  }

  lemma {:induction false} PiecesUpdate(g: Grid, y: int, r: seq<int>, p: int)
    requires 0 <= y < |g|
    ensures Pieces(g[y := r], p) + RowPieces(g[y], p) == Pieces(g, p) + RowPieces(r, p)
  {
    if y > 0 {
      assert g[y := r][1..] == g[1..][y - 1 := r];
      PiecesUpdate(g[1..], y - 1, r, p);
    } else {
      assert g[y := r][1..] == g[1..];
    }
  }

  /** Writing v over an empty cell adds one piece of v and changes no other
      player's count. */
  lemma PlacePieces(g: Grid, y: int, x: int, v: int, p: int)
    requires WellFormed(g) && InBounds(y, x) && g[y][x] == EmptyCell && p != EmptyCell
    ensures Pieces(Place(g, y, x, v), p) == Pieces(g, p) + (if v == p then 1 else 0)
  {
    RowPiecesUpdate(g[y], x, v, p);
    PiecesUpdate(g, y, g[y][x := v], p);
  }

  lemma {:induction false} RowPiecesNone(row: seq<int>, p: int)
    requires forall i :: 0 <= i < |row| ==> row[i] != p
    ensures RowPieces(row, p) == 0
  {
    if row != [] {
      RowPiecesNone(row[1..], p);
    }
  }

  lemma {:induction false} PiecesNone(g: Grid, p: int)
    requires forall y, x :: 0 <= y < |g| && 0 <= x < |g[y]| ==> g[y][x] != p
    ensures Pieces(g, p) == 0
  {
    if g != [] {
      RowPiecesNone(g[0], p);
      PiecesNone(g[1..], p);
    }
  }

  /** The empty board holds no piece of any player. */
  lemma EmptyGridPieces(p: int)
    requires p != EmptyCell
    ensures Pieces(EmptyGrid(), p) == 0
  {
    PiecesNone(EmptyGrid(), p);
  }
}

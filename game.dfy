/** The game object: the board as a HEIGHT x WIDTH array updated in place,
    the current player and the phase, with the operations of connect4.js as
    methods. Each method is proved to do what Engine says of the same step. */
module Game {
  import opened Board
  import opened Engine

  class Connect4 {
    /** board[y, x]: 0 for an empty cell, else the player who played it. */
    var board: array2<int>
    /** The player whose piece the next click drops. */
    var currPlayer: int
    /** Whether the click handler is attached (InProgress) or was removed by
        endGame (Won, Tied). */
    var phase: Phase

    ghost predicate Shape()
      reads this`board
    {
      board.Length0 == Height && board.Length1 == Width
    }

    /** The board as a grid value. */
    ghost function Cells(): (g: Grid)
      reads this`board, board
      requires Shape()
      ensures WellFormed(g)
      ensures forall y, x :: InBounds(y, x) ==> g[y][x] == board[y, x]
    {
      var b := board;
      seq(Height, y requires 0 <= y < b.Length0 reads b =>
        seq(Width, x requires 0 <= x < b.Length1 reads b => b[y, x]))
    }

    /** The whole game state as a value. */
    ghost function Snapshot(): State
      reads this, board
      requires Shape()
    {
      State(Cells(), currPlayer, phase)
    }

    ghost predicate Valid()
      reads this, board
    {
      Shape() && Inv(Snapshot())
    }

    /** Page load: build the board, player 1 to move, clicks accepted. */
    constructor ()
      ensures Valid() && fresh(board)
      ensures Snapshot() == Initial()
    {
      board := new int[Height, Width];
      currPlayer := 1;
      phase := InProgress;
      new;
      MakeBoard();
      assert Snapshot() == Initial();
      InitialInv();
    }

    /** makeBoard: set every cell of the board to empty. */
    method MakeBoard()
      requires Shape()
      modifies board
      ensures Cells() == EmptyGrid()
    {
      for y := 0 to Height
        invariant forall y', x' :: 0 <= y' < y && 0 <= x' < Width ==> board[y', x'] == EmptyCell
      {
        for x := 0 to Width
          invariant forall y', x' :: 0 <= y' < y && 0 <= x' < Width ==> board[y', x'] == EmptyCell
          invariant forall x' :: 0 <= x' < x ==> board[y, x'] == EmptyCell
        {
          board[y, x] := EmptyCell;
        }
      }
      GridsEqual(Cells(), EmptyGrid());
    }

    /** findSpotForCol: scan column x from the bottom row (row 5, that is
        Height - 1) up to row 0 and return the first empty row; None when the
        column is full. */
    method FindSpotForCol(x: int) returns (spot: Option<int>)
      requires Shape() && 0 <= x < Width
      ensures spot.Some? ==> InBounds(spot.value, x) && board[spot.value, x] == EmptyCell
      ensures spot.Some? ==> forall k :: spot.value < k < Height ==> board[k, x] != EmptyCell
      ensures spot.None? ==> forall k :: 0 <= k < Height ==> board[k, x] != EmptyCell
      ensures spot == FindSpot(Cells(), x)
    {
      var i := Height - 1;
      while i >= 0
        invariant -1 <= i < Height
        invariant FindSpot(Cells(), x) == ScanColumn(Cells(), x, i)
        invariant forall k :: i < k < Height ==> board[k, x] != EmptyCell
      {
        if board[i, x] == EmptyCell {
          return Some(i);
        }
        i := i - 1;
      }
      return None;
    }

    /** _win: every listed coordinate is on the board and holds currPlayer. */
    predicate WinCells(cells: seq<(int, int)>)
      reads this, board
      requires Shape()
      ensures WinCells(cells) <==> AllMatch(Cells(), currPlayer, cells)
    {
      forall i :: 0 <= i < |cells| ==>
        InBounds(cells[i].0, cells[i].1) && board[cells[i].0, cells[i].1] == currPlayer
    }

    /** The test checkForWin makes at origin (y, x): _win of the horizontal,
        the vertical, the diagonal down-right or the diagonal down-left line
        of four cells starting there. */
    predicate WinAt(y: int, x: int)
      reads this, board
      requires Shape()
      ensures WinAt(y, x) <==> WinFrom(Cells(), currPlayer, y, x)
    {
      WinCells(Line(y, x, Horizontal)) || WinCells(Line(y, x, Vertical))
        || WinCells(Line(y, x, DiagDownRight)) || WinCells(Line(y, x, DiagDownLeft))
    }

    /** checkForWin: try every origin, row by row from the top, and stop at
        the first one where currPlayer has a line of four. */
    method CheckForWin() returns (won: bool)
      requires Shape()
      ensures won <==> HasWin(Cells(), currPlayer)
    {
      ghost var g := Cells();
      ghost var p := currPlayer;
      for y := 0 to Height
        invariant g == Cells() && p == currPlayer
        invariant !WinInRowsBefore(g, p, y)
      {
        for x := 0 to Width
          invariant g == Cells() && p == currPlayer
          invariant !WinInRowsBefore(g, p, y) && !WinInRowBefore(g, p, y, x)
        {
          if WinAt(y, x) {
            HasWinIffWinFrom(g, p);
            assert InBounds(y, x) && WinFrom(g, p, y, x);
            return true;
          }
        }
      }
      ScanFindsWin(g, p);
      return false;
    }

    /** checkForTie: every cell of the first (top) row is occupied. With
        pieces that never float this means the board is full. */
    predicate CheckForTie()
      reads this, board
      requires Shape() && CellsOk(Cells()) && Gravity(Cells())
      ensures CheckForTie() <==> TopRowFull(Cells())
      ensures CheckForTie() <==> Full(Cells())
    {
      TopRowFullIffFull(Cells());
      forall x :: 0 <= x < Width ==> board[0, x] > 0
    }

    /** handleClick on column x: drop currPlayer's piece into the lowest empty
        cell of the column and finish the turn. A click while the game is
        over, on a column off the board or on a full column changes
        nothing. */
    method DropPiece(x: int) returns (r: MoveResult)
      requires Valid()
      modifies this, board
      ensures Valid() && board == old(board)
      ensures (r, Snapshot()) == Drop(old(Snapshot()), x)
    {
      if phase != InProgress {
        return GameOver;
      }
      if !(0 <= x < Width) {
        return InvalidColumn;
      }
      var spot := FindSpotForCol(x);
      if spot.None? {
        return ColumnFull;
      }
      DropPlaced(Snapshot(), x, spot.value);
      PlacePiece(spot.value, x);
      r := Placed(spot.value, x);
    }

    /** The in-memory update of handleClick, board[y][x] = currPlayer, at the
        spot findSpotForCol found, followed by the end of the turn. */
    method PlacePiece(y: int, x: int)
      requires Valid() && phase == InProgress && 0 <= x < Width && FindSpot(Cells(), x) == Some(y)
      modifies this, board
      ensures Valid() && board == old(board)
      ensures Snapshot() == Drop(old(Snapshot()), x).1
    {
      ghost var s := Snapshot();
      ghost var g := Place(s.grid, y, x, s.player);
      DropPlaced(s, x, y);
      board[y, x] := currPlayer;
      assert Cells() == g by {
        forall y', x' | InBounds(y', x')
          ensures Cells()[y'][x'] == g[y'][x']
        {
          if (y', x') == (y, x) {
            assert Cells()[y][x] == board[y, x] == s.player;
          } else {
            assert Cells()[y'][x'] == board[y', x'] == old(board[y', x']) == s.grid[y'][x'] == g[y'][x'];
          }
        }
        GridsEqual(Cells(), g);
      }
      EndTurn();
    }

    /** The rest of handleClick after the piece is written: check for a win,
        then for a tie, and switch players only if neither ended the game. */
    method EndTurn()
      requires Shape() && CellsOk(Cells()) && Gravity(Cells()) && phase == InProgress
      modifies this`currPlayer, this`phase
      ensures Snapshot() == Engine.EndTurn(old(Cells()), old(currPlayer))
    {
      ghost var g, p := Cells(), currPlayer;
      var won := CheckForWin();
      if won {
        phase := Won(currPlayer);
        assert Snapshot() == State(g, p, Won(p));
        return;
      }
      if CheckForTie() {
        phase := Tied;
        assert Snapshot() == State(g, p, Tied);
        return;
      }
      if currPlayer == 1 {
        currPlayer := 2;
      } else if currPlayer == 2 {
        currPlayer := 1;
      }
      assert Snapshot() == State(g, Other(p), InProgress);
    }

    /** The restart button: rebuild the board, make player 1 current and
        accept clicks again, whatever state the game was in. */
    method Restart()
      requires Shape()
      modifies this, board
      ensures Valid() && board == old(board)
      ensures Snapshot() == Initial()
    {
      MakeBoard();
      currPlayer := 1;
      phase := InProgress;
      assert Snapshot() == Initial();
      InitialInv();
    }
  }
}

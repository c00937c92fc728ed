/** The game as a value-level state machine: one step is what a click on a
    column does (handleClick), and the restart handler returns to the
    initial state. The class in module Game is proved to follow it. */
module Engine {
  import opened Board

  /** Whether clicks are still accepted. The source records the end of a game
      by detaching the click handler; Won and Tied stand for that, and say
      which of the two end messages was shown. */
  datatype Phase = InProgress | Won(winner: int) | Tied

  /** What a click on a column reports. */
  datatype MoveResult = Placed(row: int, col: int) | ColumnFull | GameOver | InvalidColumn

  /** board, currPlayer and the phase. */
  datatype State = State(grid: Grid, player: int, phase: Phase)

  /** The switch at the end of handleClick: 1 becomes 2, 2 becomes 1, any
      other value is left alone. */
  function Other(p: int): (q: int)
    ensures IsPlayer(p) ==> IsPlayer(q) && q != p
    ensures !IsPlayer(p) ==> q == p
  {
    if p == 1 then 2 else if p == 2 then 1 else p
  }

  /** Player 1 moves first, so while the game runs player 1 is to move
      exactly when both players have the same number of pieces; once it has
      ended, the player who made the last move is still recorded. */
  ghost predicate TurnsBalanced(s: State)
    requires WellFormed(s.grid)
  {
    Pieces(s.grid, 1) - Pieces(s.grid, 2) == if s.phase.InProgress? == (s.player == 1) then 0 else 1
  }

  /** What holds of every state the game can reach. */
  ghost predicate Inv(s: State) {
    WellFormed(s.grid) && CellsOk(s.grid) && Gravity(s.grid) && IsPlayer(s.player) && TurnsBalanced(s) &&
    match s.phase
    case InProgress => !HasWin(s.grid, 1) && !HasWin(s.grid, 2) && !Full(s.grid)
    case Won(w) => w == s.player && HasWin(s.grid, w) && !HasWin(s.grid, Other(w))
    case Tied => Full(s.grid) && !HasWin(s.grid, 1) && !HasWin(s.grid, 2)
  }

  /** The state at page load and after restart: empty board, player 1 to
      move, clicks accepted. */
  function Initial(): (s: State)
    ensures s.player == 1 && s.phase == InProgress
    ensures WellFormed(s.grid) && forall y, x :: InBounds(y, x) ==> s.grid[y][x] == EmptyCell
  {
    State(EmptyGrid(), 1, InProgress)
  }

  /** The end of a click once player p's piece is on grid g: a win for p
      ends the game, else a full top row ends it as a tie, else the turn
      passes to the other player. */
  ghost function EndTurn(g: Grid, p: int): (s: State)
    requires WellFormed(g)
    ensures s.grid == g
  {
    if HasWin(g, p) then State(g, p, Won(p))
    else if TopRowFull(g) then State(g, p, Tied)
    else State(g, Other(p), InProgress)
  }

  /** One click on column x: reject it if the game is over, the column is off
      the board or full; otherwise write the player's piece into the lowest
      empty cell, then check for a win, then for a tie (top row full), and
      switch players only if neither ended the game. */
  ghost function Drop(s: State, x: int): (r: (MoveResult, State))
    requires WellFormed(s.grid)
    ensures WellFormed(r.1.grid)
    ensures r.0 == GameOver <==> !s.phase.InProgress?
    ensures r.0 == InvalidColumn <==> s.phase.InProgress? && !(0 <= x < Width)
    ensures r.0 == ColumnFull <==> s.phase.InProgress? && 0 <= x < Width && ColumnIsFull(s.grid, x)
    ensures !r.0.Placed? ==> r.1 == s
    ensures r.0.Placed? ==> r.0.col == x && InBounds(r.0.row, x) && s.grid[r.0.row][x] == EmptyCell
    ensures r.0.Placed? ==> forall k :: r.0.row < k < Height ==> s.grid[k][x] != EmptyCell
    ensures r.0.Placed? ==> r.1.grid[r.0.row][x] == s.player && r.1 == EndTurn(r.1.grid, s.player)
    ensures r.0.Placed? ==> forall y, x' :: InBounds(y, x') && (y, x') != (r.0.row, x) ==> r.1.grid[y][x'] == s.grid[y][x']
  {
    if !s.phase.InProgress? then (GameOver, s)
    else if !(0 <= x < Width) then (InvalidColumn, s)
    else match FindSpot(s.grid, x)
      case None => (ColumnFull, s)
      case Some(y) => (Placed(y, x), EndTurn(Place(s.grid, y, x, s.player), s.player))
  }

  /** The order of the checks after a placement: a line of four ends the game
      as a win for the mover even when the same piece fills the board; a tie
      needs a full board and no win; the turn passes to the other player only
      when the game goes on, and otherwise stays with the mover. */
  lemma DropOutcome(s: State, x: int)
    requires Inv(s) && Drop(s, x).0.Placed?
    ensures var s' := Drop(s, x).1;
      && (s'.phase == Won(s.player) <==> HasWin(s'.grid, s.player))
      && (s'.phase == Tied <==> !HasWin(s'.grid, s.player) && Full(s'.grid))
      && (s'.phase == InProgress <==> !HasWin(s'.grid, s.player) && !Full(s'.grid))
      && s'.player == (if s'.phase == InProgress then Other(s.player) else s.player)
  {
    var y := Drop(s, x).0.row;
    PlaceAtSpotKeepsGravity(s.grid, x, s.player);
    var g := Place(s.grid, y, x, s.player);
    assert CellsOk(g);
    TopRowFullIffFull(g);
  }

  /** A click that lands in row y: the grid gets the player's piece there,
      still obeys gravity, and the turn ends as EndTurn says, in a state that
      keeps the invariant. */
  lemma DropPlaced(s: State, x: int, y: int)
    requires Inv(s) && s.phase == InProgress && 0 <= x < Width && FindSpot(s.grid, x) == Some(y)
    ensures var g := Place(s.grid, y, x, s.player);
      && CellsOk(g) && Gravity(g)
      && Drop(s, x) == (Placed(y, x), EndTurn(g, s.player))
      && Inv(EndTurn(g, s.player))
  {
    PlaceAtSpotKeepsGravity(s.grid, x, s.player);
    DropPreservesInv(s, x);
  }

  /** Every step keeps the invariant: pieces stay on top of pieces, the
      players' counts stay balanced, and the phase matches the board. */
  lemma DropPreservesInv(s: State, x: int)
    requires Inv(s)
    ensures Inv(Drop(s, x).1)
  {
    var (r, s') := Drop(s, x);
    if r.Placed? {
      var y := r.row;
      var p := s.player;
      var g := s'.grid;
      assert g == Place(s.grid, y, x, p);
      PlaceAtSpotKeepsGravity(s.grid, x, p);
      assert CellsOk(g);
      TopRowFullIffFull(g);
      PlacePieces(s.grid, y, x, p, 1);
      PlacePieces(s.grid, y, x, p, 2);
      PlaceGivesOtherNoWin(s.grid, y, x, p, Other(p));
      DropOutcome(s, x);
      if s'.phase == InProgress {
        assert !HasWin(g, 1) && !HasWin(g, 2);
      }
    }
  }

  /** The initial state satisfies the invariant. */
  lemma InitialInv()
    ensures Inv(Initial())
  {
    var g := EmptyGrid();
    EmptyGridHasNoWin(1);
    EmptyGridHasNoWin(2);
    EmptyGridPieces(1);
    EmptyGridPieces(2);
    assert g[0][0] == EmptyCell;
  }

  /** The state after a series of clicks on the given columns. */
  ghost function Play(s: State, cols: seq<int>): (t: State)
    requires WellFormed(s.grid)
    ensures WellFormed(t.grid)
    decreases |cols|
  {
    if cols == [] then s else Play(Drop(s, cols[0]).1, cols[1..])
  }

  /** Any series of clicks keeps the invariant. */
  lemma {:induction false} PlayPreservesInv(s: State, cols: seq<int>)
    requires Inv(s)
    ensures Inv(Play(s, cols))
    decreases |cols|
  {
    if cols != [] {
      DropPreservesInv(s, cols[0]);
      PlayPreservesInv(Drop(s, cols[0]).1, cols[1..]);
    }
  }

  /** Every state reachable from the start of a game satisfies the
      invariant. In particular no reachable board has a floating piece, and
      turns alternate starting with player 1: while the game runs, player 1
      is to move exactly when both have played equally often, and player 2
      exactly when player 1 has played once more. */
  lemma ReachableInv(cols: seq<int>)
    ensures Inv(Play(Initial(), cols))
    ensures Gravity(Play(Initial(), cols).grid)
    ensures var t := Play(Initial(), cols);
      t.phase == InProgress ==>
        && (t.player == 1 <==> Pieces(t.grid, 1) == Pieces(t.grid, 2))
        && (t.player == 2 <==> Pieces(t.grid, 1) == Pieces(t.grid, 2) + 1)
  {
    InitialInv();
    PlayPreservesInv(Initial(), cols);
  }

  /** Once the game has ended, no click changes anything. */
  lemma {:induction false} EndedGameIsFrozen(s: State, cols: seq<int>)
    requires WellFormed(s.grid) && !s.phase.InProgress?
    ensures Play(s, cols) == s
    decreases |cols|
  {
    if cols != [] {
      EndedGameIsFrozen(s, cols[1..]);
    }
  }
}

/** The move and turn rules of handleClick, without the page: a move drops
    the current player's piece into a column, then checks for a win, then
    for a tie, and only when neither happened passes the turn. */
module Turns {
  import opened Board
  import opened WinCheck

  /** `currPlayer === players[0] ? players[1] : players[0]`. */
  function Other(p: PlayerId): (q: PlayerId)
    ensures q != p
  {
    if p == 0 then 1 else 0
  }

  /** What a game holds between moves: the board and the current player. */
  datatype State = State(grid: Grid, curr: PlayerId)

  datatype Status = InProgress | Won(winner: PlayerId) | Tied

  /** The result of a click: ignored because the column is full, or a piece
      placed in the given row with the game's status after it. */
  datatype MoveResult = ColumnFull | Placed(row: nat, status: Status)

  /** One click on column x. */
  function Move(s: State, x: int): (r: (State, MoveResult))
    requires WellFormed(s.grid) && 0 <= x < Width(s.grid)
    ensures WellFormed(r.0.grid) && |r.0.grid| == |s.grid| && Width(r.0.grid) == Width(s.grid)
  {
    match SpotForCol(s.grid, x)
    case None => (s, ColumnFull)
    case Some(y) =>
      var g := Place(s.grid, y, x, s.curr);
      if HasWin(g, s.curr) then (State(g, s.curr), Placed(y, Won(s.curr)))
      else if IsFull(g) then (State(g, s.curr), Placed(y, Tied))
      else (State(g, Other(s.curr)), Placed(y, InProgress))
  }

  /** Move once the gravity spot y is known, one case per outcome. */
  lemma MoveAtSpot(s: State, x: int, y: nat)
    requires WellFormed(s.grid) && 0 <= x < Width(s.grid)
    requires SpotForCol(s.grid, x) == Some(y)
    ensures var g := Place(s.grid, y, x, s.curr);
      && (HasWin(g, s.curr) ==> Move(s, x) == (State(g, s.curr), Placed(y, Won(s.curr))))
      && (!HasWin(g, s.curr) && IsFull(g) ==> Move(s, x) == (State(g, s.curr), Placed(y, Tied)))
      && (!HasWin(g, s.curr) && !IsFull(g) ==> Move(s, x) == (State(g, Other(s.curr)), Placed(y, InProgress)))
  {
  }

  /** Turns alternate strictly between the two players, and the player to
      move is always one of them. */
  lemma OtherAlternates(p: PlayerId)
    ensures Other(Other(p)) == p
    ensures {p, Other(p)} == {0, 1}
  {
  }

  /** A click on a full column is ignored, and only then: board and current
      player are both left as they were. */
  lemma FullColumnIsIgnored(s: State, x: int)
    requires WellFormed(s.grid) && 0 <= x < Width(s.grid)
    ensures Move(s, x).1 == ColumnFull <==> forall y :: 0 <= y < |s.grid| ==> Occupied(s.grid, y, x)
    ensures Move(s, x).1 == ColumnFull ==> Move(s, x).0 == s
  {
  }

  /** A successful click writes the current player into the lowest empty
      cell of the column and changes no other cell; the number of occupied
      cells rises by exactly one. */
  lemma MovePlacesOnePiece(s: State, x: int)
    requires WellFormed(s.grid) && 0 <= x < Width(s.grid)
    requires Move(s, x).1.Placed?
    ensures var y, g := Move(s, x).1.row, Move(s, x).0.grid;
      && y < |s.grid| && s.grid[y][x] == None
      && (forall y' :: y < y' < |s.grid| ==> Occupied(s.grid, y', x))
      && g[y][x] == Some(s.curr)
      && (forall i, j :: InBounds(s.grid, Coord(i, j)) && (i != y || j != x) ==> g[i][j] == s.grid[i][j])
      && OccupiedCells(g) == OccupiedCells(s.grid) + {Coord(y, x)}
      && |OccupiedCells(g)| == |OccupiedCells(s.grid)| + 1
  {
    var y := SpotForCol(s.grid, x).value;
    assert Move(s, x).1.row == y;
    PlaceOccupies(s.grid, y, x, s.curr);
  }

  /** The win check comes first, then the tie check; the turn passes only on
      a move that is neither a win nor a tie. */
  lemma MoveStatus(s: State, x: int)
    requires WellFormed(s.grid) && 0 <= x < Width(s.grid)
    requires Move(s, x).1.Placed?
    ensures var (t, r) := Move(s, x);
      && (r.status.Won? <==> HasWin(t.grid, s.curr))
      && (r.status.Won? ==> r.status.winner == s.curr && FourInARow(t.grid, s.curr))
      && (r.status == Tied <==> !HasWin(t.grid, s.curr) && IsFull(t.grid))
      && (r.status == InProgress <==> !HasWin(t.grid, s.curr) && !IsFull(t.grid))
      && t.curr == (if r.status == InProgress then Other(s.curr) else s.curr)
  {
    HasWinIffFourInARow(Move(s, x).0.grid, s.curr);
  }

  /** The winner of a move is the player who made it, and the winning run
      passes through the piece just dropped. */
  lemma WinIsMadeByTheMove(s: State, x: int)
    requires WellFormed(s.grid) && 0 <= x < Width(s.grid)
    requires !HasWin(s.grid, s.curr)
    requires Move(s, x).1.Placed? && Move(s, x).1.status.Won?
    ensures var (t, r) := Move(s, x);
      exists ay, ax, d :: Coord(r.row, x) in Run(ay, ax, d) && Win(t.grid, Run(ay, ax, d), s.curr)
  {
    var y := SpotForCol(s.grid, x).value;
    NewWinThroughMove(s.grid, y, x, s.curr);
  }

  /** A move keeps the gravity invariant. */
  lemma MovePreservesSettled(s: State, x: int)
    requires WellFormed(s.grid) && 0 <= x < Width(s.grid)
    requires Settled(s.grid)
    ensures Settled(Move(s, x).0.grid)
  {
    if SpotForCol(s.grid, x).Some? {
      PlacePreservesSettled(s.grid, x, s.curr);
    }
  }

  /** Nothing stops play once somebody has won: a later click on a column
      with room still places a piece. */
  lemma PlayContinuesAfterWin(s: State, x: int, x': int)
    requires WellFormed(s.grid) && 0 <= x < Width(s.grid) && 0 <= x' < Width(s.grid)
    requires Move(s, x).1.Placed? && Move(s, x).1.status.Won?
    requires SpotForCol(Move(s, x).0.grid, x').Some?
    ensures Move(s, x).0.curr == s.curr
    ensures Move(Move(s, x).0, x').1.Placed?
    ensures HasWin(Move(Move(s, x).0, x').0.grid, s.curr)
  {
    var t := Move(s, x).0;
    var y' := SpotForCol(t.grid, x').value;
    WinPersists(t.grid, y', x', t.curr, s.curr);
  }

  predicate ValidColumns(g: Grid, xs: seq<int>) {
    forall i :: 0 <= i < |xs| ==> 0 <= xs[i] < Width(g)
  }

  /** A game played out click by click. */
  function PlayAll(s: State, xs: seq<int>): (t: State)
    requires WellFormed(s.grid) && ValidColumns(s.grid, xs)
    ensures WellFormed(t.grid) && |t.grid| == |s.grid| && Width(t.grid) == Width(s.grid)
    decreases |xs|
  {
    if xs == [] then s else PlayAll(Move(s, xs[0]).0, xs[1..])
  }

  /** One click never removes or replaces a piece. */
  lemma MoveKeepsPieces(s: State, x: int)
    requires WellFormed(s.grid) && 0 <= x < Width(s.grid)
    ensures var g := Move(s, x).0.grid;
      && OccupiedCells(s.grid) <= OccupiedCells(g)
      && forall y, x :: Occupied(s.grid, y, x) ==> Occupied(g, y, x) && g[y][x] == s.grid[y][x]
  {
    if Move(s, x).1.Placed? {
      MovePlacesOnePiece(s, x);
    }
  }

  /** Over any sequence of clicks an occupied cell keeps its piece, and the
      board stays settled. */
  lemma {:induction false} PlayAllMonotone(s: State, xs: seq<int>)
    requires WellFormed(s.grid) && ValidColumns(s.grid, xs)
    requires Settled(s.grid)
    ensures var g := PlayAll(s, xs).grid;
      && Settled(g)
      && OccupiedCells(s.grid) <= OccupiedCells(g)
      && forall y, x :: Occupied(s.grid, y, x) ==> g[y][x] == s.grid[y][x]
    decreases |xs|
  {
    if xs != [] {
      var t := Move(s, xs[0]).0;
      MovePreservesSettled(s, xs[0]);
      MoveKeepsPieces(s, xs[0]);
      assert ValidColumns(t.grid, xs[1..]);
      PlayAllMonotone(t, xs[1..]);
      assert PlayAll(s, xs) == PlayAll(t, xs[1..]);
    }
  }

  /** Every game starts from an empty, settled board with player 1 to move,
      and stays settled whatever is clicked. */
  lemma GamesStaySettled(height: nat, width: nat, xs: seq<int>)
    requires 0 < height && 0 < width
    requires forall i :: 0 <= i < |xs| ==> 0 <= xs[i] < width
    ensures Settled(PlayAll(State(EmptyGrid(height, width), 0), xs).grid)
  {
    EmptyGridIsInitial(height, width);
    PlayAllMonotone(State(EmptyGrid(height, width), 0), xs);
  }
}

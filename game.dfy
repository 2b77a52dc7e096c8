/** The Game class: the board as a HEIGHT x WIDTH array, the current player,
    and the operations that read and change them. Every contract is stated
    through Rows(), the board read as rows, so that the rules in Board,
    WinCheck and Turns apply to it. */
module Connect4 {
  import opened Board
  import opened WinCheck
  import opened Turns

  class Game {
    const height: nat
    const width: nat
    var board: array2<Cell>
    var currPlayer: PlayerId

    /** The board read as a sequence of rows. */
    function Rows(): (g: Grid)
      reads this`board, board
      ensures |g| == board.Length0
      ensures forall y :: 0 <= y < |g| ==> |g[y]| == board.Length1
      ensures forall y, x :: 0 <= y < board.Length0 && 0 <= x < board.Length1 ==> g[y][x] == board[y, x]
    {
      var b := board;
      seq(b.Length0, (y: int) requires 0 <= y < b.Length0 reads b =>
        seq(b.Length1, (x: int) requires 0 <= x < b.Length1 reads b => b[y, x]))
    }

    /** The game's state as the move rules see it. */
    function Snapshot(): State
      reads this, board
    {
      State(Rows(), currPlayer)
    }

    /** The board has the game's dimensions and obeys gravity. */
    ghost predicate Valid()
      reads this`board, board
    {
      0 < height && 0 < width && board.Length0 == height && board.Length1 == width
      && Settled(Rows())
    }

    /** An empty board for the game's dimensions (6 by 7 unless given) and
        player 1 to move. */
    constructor (height: nat := 6, width: nat := 7)
      requires 0 < height && 0 < width
      ensures Valid() && fresh(board)
      ensures this.height == height && this.width == width
      ensures Snapshot() == State(EmptyGrid(height, width), 0)
    {
      this.height := height;
      this.width := width;
      currPlayer := 0;
      var b := MakeBoard(height, width);
      board := b;
      new;
      SameCellsSameGrid(Rows(), EmptyGrid(height, width));
      EmptyGridIsInitial(height, width);
    }

    /** makeBoard: HEIGHT rows of WIDTH empty cells, built row by row. */
    static method MakeBoard(height: nat, width: nat) returns (b: array2<Cell>)
      ensures fresh(b)
      ensures b.Length0 == height && b.Length1 == width
      ensures forall y, x :: 0 <= y < height && 0 <= x < width ==> b[y, x] == None
    {
      b := new Cell[height, width];
      for y := 0 to height
        invariant forall i, j :: 0 <= i < y && 0 <= j < width ==> b[i, j] == None
      {
        for x := 0 to width
          invariant forall i, j :: 0 <= i < y && 0 <= j < width ==> b[i, j] == None
          invariant forall j :: 0 <= j < x ==> b[y, j] == None
        {
          b[y, x] := None;
        }
      }
    }

    /** findSpotForCol: scan column x from the bottom row upward and return
        the first empty row, or None when the column is full. */
    method FindSpotForCol(x: int) returns (spot: Option<nat>)
      requires Valid() && 0 <= x < width
      ensures spot == SpotForCol(Rows(), x)
    {
      var y: int := height - 1;
      while y >= 0
        invariant -1 <= y < height
        invariant forall y' :: y < y' < height ==> board[y', x].Some?
      {
        if board[y, x].None? {
          SpotForColIsLowestEmpty(Rows(), x, y);
          return Some(y);
        }
        y := y - 1;
      }
      return None;
    }

    /** checkForWin: try every anchor, row by row, stopping at the first
        winning run of the current player. */
    method CheckForWin() returns (won: bool)
      requires Valid()
      ensures won == HasWin(Rows(), currPlayer)
    {
      var g := Rows();
      for y := 0 to height
        invariant forall i, j :: 0 <= i < y && 0 <= j < width ==> !AnchorWins(g, i, j, currPlayer)
      {
        for x := 0 to width
          invariant forall i, j :: 0 <= i < y && 0 <= j < width ==> !AnchorWins(g, i, j, currPlayer)
          invariant forall j :: 0 <= j < x ==> !AnchorWins(g, y, j, currPlayer)
        {
          if AnchorWins(g, y, x, currPlayer) {
            return true;
          }
        }
      }
      return false;
    }

    /** `board[y][x] = currPlayer` at the gravity spot of column x. */
    method PlacePiece(y: nat, x: int)
      requires Valid() && 0 <= x < width && SpotForCol(Rows(), x) == Some(y)
      modifies board
      ensures Valid()
      ensures Rows() == Place(old(Rows()), y, x, currPlayer)
    {
      ghost var g := Place(Rows(), y, x, currPlayer);
      MovePreservesSettled(Snapshot(), x);
      board[y, x] := Some(currPlayer);
      SameCellsSameGrid(Rows(), g);
    }

    /** "Switch players": the other of the two players is to move. */
    method SwitchPlayer()
      requires Valid()
      modifies this`currPlayer
      ensures Valid() && Rows() == old(Rows())
      ensures currPlayer == Other(old(currPlayer))
    {
      currPlayer := Other(currPlayer);
    }

    /** handleClick on column x, without the page updates: place the current
        player's piece at the gravity spot, then check for a win, then for a
        tie, and only then switch players. A full column is ignored. */
    method HandleClick(x: int) returns (result: MoveResult)
      requires Valid() && 0 <= x < width
      modifies board, this`currPlayer
      ensures Valid()
      ensures (Snapshot(), result) == Move(old(Snapshot()), x)
    {
      ghost var s := Snapshot();
      var spot := FindSpotForCol(x);
      if spot.None? {
        return ColumnFull;
      }
      var y := spot.value;
      PlacePiece(y, x);
      result := EndTurn(s, x, y);
    }

    /** The rest of handleClick once the piece is on the board: a win ends
        the game with the mover as winner, else a full board is a tie, else
        the other player is to move. */
    method EndTurn(ghost s: State, x: int, y: nat) returns (result: MoveResult)
      requires Valid() && WellFormed(s.grid) && 0 <= x < Width(s.grid)
      requires SpotForCol(s.grid, x) == Some(y)
      requires Rows() == Place(s.grid, y, x, s.curr) && currPlayer == s.curr
      modifies this`currPlayer
      ensures Valid()
      ensures (Snapshot(), result) == Move(s, x)
    {
      MoveAtSpot(s, x, y);
      var won := CheckForWin();
      if won {
        result := Placed(y, Won(currPlayer));
      } else if IsFull(Rows()) {
        result := Placed(y, Tied);
      } else {
        SwitchPlayer();
        result := Placed(y, InProgress);
      }
    }
  }

  /** `new Game(p1, p2)`: the page starts a game with the default 6 by 7
      board. */
  method StartGame() returns (game: Game)
    ensures fresh(game) && game.Valid()
    ensures game.height == 6 && game.width == 7
    ensures game.Snapshot() == State(EmptyGrid(6, 7), 0)
  {
    game := new Game();
  }
}

/** The Connect Four board: HEIGHT rows by WIDTH columns, row 0 at the top and
    row HEIGHT-1 at the bottom, where pieces land first. A board is modelled
    as a sequence of rows; the class in game.dfy keeps it in an array2 and
    states its contracts through this view. */
module Board {

  datatype Option<T> = None | Some(value: T)

  /** A player, identified by its index in the game's players list [p1, p2]. */
  type PlayerId = p: int | 0 <= p < 2

  /** An empty cell (JavaScript `undefined`) or the player whose piece is in it. */
  type Cell = Option<PlayerId>

  type Grid = seq<seq<Cell>>

  /** A (row, column) coordinate; runs may reach outside the board. */
  datatype Coord = Coord(y: int, x: int)

  /** WIDTH, read off the first row. */
  function Width(g: Grid): nat {
    if |g| == 0 then 0 else |g[0]|
  }

  /** A rectangular board with at least one row and one column. */
  predicate WellFormed(g: Grid) {
    0 < |g| && 0 < |g[0]| && forall y :: 0 <= y < |g| ==> |g[y]| == |g[0]|
  }

  predicate InBounds(g: Grid, c: Coord) {
    0 <= c.y < |g| && 0 <= c.x < |g[c.y]|
  }

  /** Cell (y, x) lies on the board and holds a piece. */
  predicate Occupied(g: Grid, y: int, x: int) {
    InBounds(g, Coord(y, x)) && g[y][x].Some?
  }

  /** The board built by makeBoard: every cell empty. */
  function EmptyGrid(height: nat, width: nat): (g: Grid)
    ensures |g| == height
    ensures forall y :: 0 <= y < height ==> |g[y]| == width
    ensures forall y, x :: 0 <= y < height && 0 <= x < width ==> g[y][x] == None
    ensures 0 < height && 0 < width ==> WellFormed(g) && Width(g) == width
  {
    seq(height, _ => seq(width, _ => None))
  }

  /** The gravity scan over rows n-1, n-2, ..., 0 of column x: the first
      empty row met, or None when all of them are occupied. */
  function ScanColumn(g: Grid, x: int, n: nat): (r: Option<nat>)
    requires n <= |g|
    ensures r.Some? ==> r.value < n && !Occupied(g, r.value, x)
    ensures r.Some? ==> forall y :: r.value < y < n ==> Occupied(g, y, x)
    ensures r.None? <==> forall y :: 0 <= y < n ==> Occupied(g, y, x)
    decreases n
  {
    if n == 0 then None
    else if !Occupied(g, n - 1, x) then Some(n - 1)
    else ScanColumn(g, x, n - 1)
  }

  /** findSpotForCol: the lowest (highest-indexed) empty row of column x. */
  function SpotForCol(g: Grid, x: int): (r: Option<nat>)
    ensures r.Some? ==> r.value < |g| && !Occupied(g, r.value, x)
    ensures r.Some? ==> forall y :: r.value < y < |g| ==> Occupied(g, y, x)
    ensures r.None? <==> forall y :: 0 <= y < |g| ==> Occupied(g, y, x)
  {
    ScanColumn(g, x, |g|)
  }

  /** The converse of SpotForCol's contract: the lowest empty row of a column
      is the only answer it can give. */
  lemma SpotForColIsLowestEmpty(g: Grid, x: int, y: int)
    requires 0 <= y < |g| && !Occupied(g, y, x)
    requires forall y' :: y < y' < |g| ==> Occupied(g, y', x)
    ensures SpotForCol(g, x) == Some(y)
  {
    assert SpotForCol(g, x).Some?;
  }

  /** Two boards with the same dimensions and the same cells are equal. */
  lemma SameCellsSameGrid(g: Grid, h: Grid)
    requires |g| == |h| && forall y :: 0 <= y < |g| ==> |g[y]| == |h[y]|
    requires forall y, x :: 0 <= y < |g| && 0 <= x < |g[y]| ==> g[y][x] == h[y][x]
    ensures g == h
  {
    forall y | 0 <= y < |g| ensures g[y] == h[y] {
      assert forall x :: 0 <= x < |g[y]| ==> g[y][x] == h[y][x];
    }
  }

  /** `board[y][x] = p`: the one cell written by a move. */
  function Place(g: Grid, y: int, x: int, p: PlayerId): (r: Grid)
    requires InBounds(g, Coord(y, x))
    ensures |r| == |g| && forall i :: 0 <= i < |g| ==> |r[i]| == |g[i]|
    ensures r[y][x] == Some(p)
    ensures forall i, j :: InBounds(g, Coord(i, j)) && (i != y || j != x) ==> r[i][j] == g[i][j]
  {
    g[y := g[y][x := Some(p)]]
  }

  /** The tie test `board.every(row => row.every(cell => cell))`. */
  predicate IsFull(g: Grid) {
    forall y, x :: 0 <= y < |g| && 0 <= x < |g[y]| ==> g[y][x].Some?
  }

  /** The set of occupied cells. */
  ghost function OccupiedCells(g: Grid): set<Coord> {
    set y, x | 0 <= y < |g| && 0 <= x < |g[y]| && g[y][x].Some? :: Coord(y, x)
  }

  /** The gravity invariant: in every column the occupied cells form one
      block that reaches down to the bottom row. */
  ghost predicate Settled(g: Grid) {
    forall y, y', x :: 0 <= y <= y' < |g| && Occupied(g, y, x) ==> Occupied(g, y', x)
  }

  /** A freshly made board is well-formed, settled and has no piece on it. */
  lemma EmptyGridIsInitial(height: nat, width: nat)
    requires 0 < height && 0 < width
    ensures WellFormed(EmptyGrid(height, width))
    ensures Settled(EmptyGrid(height, width))
    ensures OccupiedCells(EmptyGrid(height, width)) == {}
    ensures !IsFull(EmptyGrid(height, width))
  {
    var g := EmptyGrid(height, width);
    assert g[0][0] == None;
    assert forall y, x :: 0 <= y < |g| && 0 <= x < |g[y]| ==> g[y][x] == None;
  }

  /** Placing a piece in an empty cell adds exactly that cell to the
      occupied ones: nothing reverts and the count rises by one. */
  lemma PlaceOccupies(g: Grid, y: int, x: int, p: PlayerId)
    requires InBounds(g, Coord(y, x)) && g[y][x] == None
    ensures Coord(y, x) !in OccupiedCells(g)
    ensures OccupiedCells(Place(g, y, x, p)) == OccupiedCells(g) + {Coord(y, x)}
    ensures |OccupiedCells(Place(g, y, x, p))| == |OccupiedCells(g)| + 1
  {
    var g' := Place(g, y, x, p);
    forall c | c in OccupiedCells(g') ensures c in OccupiedCells(g) + {Coord(y, x)} {
      if c != Coord(y, x) {
        assert g[c.y][c.x] == g'[c.y][c.x];
      }
    }
    forall c | c in OccupiedCells(g) + {Coord(y, x)} ensures c in OccupiedCells(g') {
      if c != Coord(y, x) {
        assert g[c.y][c.x] == g'[c.y][c.x];
      }
    }
  }

  /** On a settled board the column above the landing row is empty too:
      a piece lands directly on top of the column's stack. */
  lemma SettledLanding(g: Grid, x: int)
    requires Settled(g)
    requires SpotForCol(g, x).Some?
    ensures forall y :: 0 <= y <= SpotForCol(g, x).value ==> !Occupied(g, y, x)
  {
    var s := SpotForCol(g, x).value;
    forall y | 0 <= y <= s ensures !Occupied(g, y, x) {
      assert !Occupied(g, s, x);
    }
  }

  /** Dropping a piece at the gravity spot keeps the board settled. */
  lemma PlacePreservesSettled(g: Grid, x: int, p: PlayerId)
    requires WellFormed(g) && Settled(g) && 0 <= x < Width(g)
    requires SpotForCol(g, x).Some?
    ensures Settled(Place(g, SpotForCol(g, x).value, x, p))
  {
    var s := SpotForCol(g, x).value;
    var g' := Place(g, s, x, p);
    SettledLanding(g, x);
    forall y, y', c | 0 <= y <= y' < |g'| && Occupied(g', y, c)
      ensures Occupied(g', y', c)
    {
      if c != x {
        assert Occupied(g, y, c);
        assert Occupied(g, y', c);
        assert g'[y'][c] == g[y'][c];
      } else if y' == s {
        assert g'[s][x] == Some(p);
      } else {
        // Column x held no piece at or above row s, so a piece at y != s is below it.
        if y != s {
          assert g'[y][x] == g[y][x];
          assert Occupied(g, y, x);
        }
        assert s < y';
        assert Occupied(g, y', x);
        assert g'[y'][x] == g[y'][x];
      }
    }
  }

  /** The board is full exactly when every column is full. */
  lemma FullIffEveryColumnFull(g: Grid)
    requires WellFormed(g)
    ensures IsFull(g) <==> forall x :: 0 <= x < Width(g) ==> SpotForCol(g, x).None?
  {
    if forall x :: 0 <= x < Width(g) ==> SpotForCol(g, x).None? {
      forall y, x | 0 <= y < |g| && 0 <= x < |g[y]| ensures g[y][x].Some? {
        assert SpotForCol(g, x).None?;
        assert Occupied(g, y, x);
      }
    }
    if IsFull(g) {
      forall x | 0 <= x < Width(g) ensures SpotForCol(g, x).None? {
        forall y | 0 <= y < |g| ensures Occupied(g, y, x) {
          assert g[y][x].Some?;
        }
      }
    }
  }
}

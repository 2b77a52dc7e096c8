/** Win detection: checkForWin and its `_win` helper, as pure functions over
    a board, with an independent "four in a row" definition to check them
    against. */
module WinCheck {
  import opened Board

  /** The four ways to win, each a run of four cells starting at an anchor. */
  datatype Direction = Horizontal | Vertical | DiagDownRight | DiagDownLeft

  /** The step (dy, dx) between consecutive cells of a run. */
  function Delta(d: Direction): (int, int) {
    match d
    case Horizontal => (0, 1)
    case Vertical => (1, 0)
    case DiagDownRight => (1, 1)
    case DiagDownLeft => (1, -1)
  }

  /** The "check list" of four cells anchored at (y, x): horiz, vert,
      diagDR and diagDL. */
  function Run(y: int, x: int, d: Direction): (cells: seq<Coord>)
    ensures |cells| == 4
  {
    match d
    case Horizontal => [Coord(y, x), Coord(y, x + 1), Coord(y, x + 2), Coord(y, x + 3)]
    case Vertical => [Coord(y, x), Coord(y + 1, x), Coord(y + 2, x), Coord(y + 3, x)]
    case DiagDownRight => [Coord(y, x), Coord(y + 1, x + 1), Coord(y + 2, x + 2), Coord(y + 3, x + 3)]
    case DiagDownLeft => [Coord(y, x), Coord(y + 1, x - 1), Coord(y + 2, x - 2), Coord(y + 3, x - 3)]
  }

  /** Cell c is a legal coordinate and holds a piece of p. */
  predicate Owns(g: Grid, c: Coord, p: PlayerId) {
    InBounds(g, c) && g[c.y][c.x] == Some(p)
  }

  /** `_win`: every cell of the list is on the board and belongs to p. */
  predicate Win(g: Grid, cells: seq<Coord>, p: PlayerId) {
    forall i :: 0 <= i < |cells| ==> Owns(g, cells[i], p)
  }

  /** The test made at one anchor, in the order the source makes it. */
  predicate AnchorWins(g: Grid, y: int, x: int, p: PlayerId) {
    Win(g, Run(y, x, Horizontal), p) || Win(g, Run(y, x, Vertical), p)
    || Win(g, Run(y, x, DiagDownRight), p) || Win(g, Run(y, x, DiagDownLeft), p)
  }

  /** A direction in which the anchor (y, x) wins. */
  function WinningDirection(g: Grid, y: int, x: int, p: PlayerId): (d: Direction)
    requires AnchorWins(g, y, x, p)
    ensures Win(g, Run(y, x, d), p)
  {
    if Win(g, Run(y, x, Horizontal), p) then Horizontal
    else if Win(g, Run(y, x, Vertical), p) then Vertical
    else if Win(g, Run(y, x, DiagDownRight), p) then DiagDownRight
    else DiagDownLeft
  }

  /** What checkForWin answers for the current player: some anchor on the
      board starts a winning run. */
  predicate HasWin(g: Grid, p: PlayerId) {
    exists y, x | 0 <= y < |g| && 0 <= x < Width(g) :: AnchorWins(g, y, x, p)
  }

  // ---- Reference definition: four in a row, stated with arithmetic ----

  /** Cell k of the line from (y, x) with step (dy, dx). */
  function At(y: int, x: int, dy: int, dx: int, k: int): Coord {
    Coord(y + k * dy, x + k * dx)
  }

  predicate IsDirection(dy: int, dx: int) {
    (dy == 0 && dx == 1) || (dy == 1 && dx == 0) || (dy == 1 && dx == 1) || (dy == 1 && dx == -1)
  }

  ghost predicate Line(g: Grid, y: int, x: int, dy: int, dx: int, p: PlayerId) {
    forall k :: 0 <= k < 4 ==> Owns(g, At(y, x, dy, dx, k), p)
  }

  /** p has four pieces in a straight line: horizontal, vertical or
      either diagonal. */
  ghost predicate FourInARow(g: Grid, p: PlayerId) {
    exists y, x, dy, dx :: IsDirection(dy, dx) && Line(g, y, x, dy, dx, p)
  }

  function DirectionOf(dy: int, dx: int): (d: Direction)
    requires IsDirection(dy, dx)
    ensures Delta(d) == (dy, dx)
  {
    if dy == 0 then Horizontal
    else if dx == 0 then Vertical
    else if dx == 1 then DiagDownRight
    else DiagDownLeft
  }

  /** Cell k of a run is k steps of Delta(d) away from the anchor. */
  lemma RunIsLine(y: int, x: int, d: Direction)
    ensures forall k :: 0 <= k < 4 ==> Run(y, x, d)[k] == At(y, x, Delta(d).0, Delta(d).1, k)
  {
  }

  /** A run wins exactly when its line, in the reference sense, does. */
  lemma WinIffLine(g: Grid, y: int, x: int, d: Direction, p: PlayerId)
    ensures Win(g, Run(y, x, d), p) <==> Line(g, y, x, Delta(d).0, Delta(d).1, p)
  {
    var cells := Run(y, x, d);
    var (dy, dx) := Delta(d);
    RunIsLine(y, x, d);
    if Win(g, cells, p) {
      forall k | 0 <= k < 4 ensures Owns(g, At(y, x, dy, dx, k), p) {
        assert cells[k] == At(y, x, dy, dx, k);
      }
    }
    if Line(g, y, x, dy, dx, p) {
      forall i | 0 <= i < |cells| ensures Owns(g, cells[i], p) {
        assert cells[i] == At(y, x, dy, dx, i);
      }
    }
  }

  /** checkForWin's anchored scan finds a win exactly when p has four in a
      row somewhere on the board. */
  lemma HasWinIffFourInARow(g: Grid, p: PlayerId)
    requires WellFormed(g)
    ensures HasWin(g, p) <==> FourInARow(g, p)
  {
    if HasWin(g, p) {
      var y, x :| 0 <= y < |g| && 0 <= x < Width(g) && AnchorWins(g, y, x, p);
      var d := WinningDirection(g, y, x, p);
      WinIffLine(g, y, x, d, p);
      assert IsDirection(Delta(d).0, Delta(d).1);
    }
    if FourInARow(g, p) {
      var y, x, dy, dx :| IsDirection(dy, dx) && Line(g, y, x, dy, dx, p);
      var d := DirectionOf(dy, dx);
      WinIffLine(g, y, x, d, p);
      assert Owns(g, At(y, x, dy, dx, 0), p);
      assert AnchorWins(g, y, x, p);
    }
  }

  /** Nobody has won on a board without pieces. */
  lemma NoWinOnEmptyGrid(height: nat, width: nat, p: PlayerId)
    ensures !HasWin(EmptyGrid(height, width), p)
  {
    var g := EmptyGrid(height, width);
    forall y, x | 0 <= y < |g| && 0 <= x < Width(g) ensures !AnchorWins(g, y, x, p) {
      assert !Owns(g, Coord(y, x), p);
      assert forall d :: Run(y, x, d)[0] == Coord(y, x);
    }
  }

  /** Pieces never leave the board, so a win stays a win after any further
      piece is dropped into an empty cell. */
  lemma WinPersists(g: Grid, y: int, x: int, q: PlayerId, p: PlayerId)
    requires WellFormed(g) && InBounds(g, Coord(y, x)) && g[y][x] == None
    requires HasWin(g, p)
    ensures HasWin(Place(g, y, x, q), p)
  {
    var g' := Place(g, y, x, q);
    var ay, ax :| 0 <= ay < |g| && 0 <= ax < Width(g) && AnchorWins(g, ay, ax, p);
    var cells := Run(ay, ax, WinningDirection(g, ay, ax, p));
    forall i | 0 <= i < |cells| ensures Owns(g', cells[i], p) {
      assert Owns(g, cells[i], p);
    }
    assert AnchorWins(g', ay, ax, p);
  }

  /** A win that a move creates runs through the cell of that move, which is
      why one scan after every move suffices. */
  lemma NewWinThroughMove(g: Grid, y: int, x: int, p: PlayerId)
    requires WellFormed(g) && InBounds(g, Coord(y, x))
    requires !HasWin(g, p) && HasWin(Place(g, y, x, p), p)
    ensures exists ay, ax, d :: Coord(y, x) in Run(ay, ax, d) && Win(Place(g, y, x, p), Run(ay, ax, d), p)
  {
    var g' := Place(g, y, x, p);
    var ay, ax :| 0 <= ay < |g'| && 0 <= ax < Width(g') && AnchorWins(g', ay, ax, p);
    var d := WinningDirection(g', ay, ax, p);
    var cells := Run(ay, ax, d);
    if Coord(y, x) !in cells {
      forall i | 0 <= i < |cells| ensures Owns(g, cells[i], p) {
        assert Owns(g', cells[i], p);
        assert cells[i] != Coord(y, x);
      }
      assert AnchorWins(g, ay, ax, p);
      assert false;
    }
  }
}

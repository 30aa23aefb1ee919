/** The board of the game: the cell contents, the 3x3 grid that holds them,
    and the two board checks the game controller consults after every move
    (a win through the cell just played, and a full board). */
module Board {

  /** What a cell holds, and also who is to move: Empty is the content of a
      free cell and never a player. */
  datatype Player = Empty | Cross | Nought

  /** Number of rows and columns of the board. */
  const ROWS: int := 3
  const COLS: int := 3

  /** The cell contents, row-major: g[row][col]. */
  type Grid = seq<seq<Player>>

  /** The grid has exactly ROWS rows of COLS cells each. */
  predicate WellFormed(g: Grid) {
    |g| == ROWS && forall r :: 0 <= r < |g| ==> |g[r]| == COLS
  }

  predicate InBounds(row: int, col: int) {
    0 <= row < ROWS && 0 <= col < COLS
  }

  /** The board with every cell free. */
  function EmptyGrid(): (g: Grid)
    ensures WellFormed(g)
    ensures forall r, c :: InBounds(r, c) ==> g[r][c] == Empty
  {
    [[Empty, Empty, Empty], [Empty, Empty, Empty], [Empty, Empty, Empty]]
  }

  /** The board after writing p into cell (row, col). */
  function Place(g: Grid, row: int, col: int, p: Player): (g': Grid)
    requires WellFormed(g) && InBounds(row, col)
    ensures WellFormed(g')
    ensures g'[row][col] == p
    ensures forall r, c :: InBounds(r, c) && (r, c) != (row, col) ==> g'[r][c] == g[r][c]
  {
    g[row := g[row][col := p]]
  }

  /** Two boards are equal when they agree cell by cell. */
  lemma GridEquality(a: Grid, b: Grid)
    requires WellFormed(a) && WellFormed(b)
    requires forall r, c :: InBounds(r, c) ==> a[r][c] == b[r][c]
    ensures a == b
  {
    assert forall r :: 0 <= r < ROWS ==> a[r] == b[r];
  }

  // ---------------------------------------------------------------------------
  // Board checks. The board's own code is not part of this model; HasWon and
  // IsDraw are given the usual definitions below, and those definitions are
  // assumed, not taken from code.
  // ---------------------------------------------------------------------------

  /** The eight lines of three cells. */
  datatype Line = Row(r: int) | Col(c: int) | Diagonal | AntiDiagonal

  predicate IsLine(l: Line) {
    match l
    case Row(r) => 0 <= r < ROWS
    case Col(c) => 0 <= c < COLS
    case Diagonal => true
    case AntiDiagonal => true
  }

  /** All three cells of line l hold p. */
  predicate Filled(g: Grid, p: Player, l: Line)
    requires WellFormed(g) && IsLine(l)
  {
    match l
    case Row(r) => g[r][0] == p && g[r][1] == p && g[r][2] == p
    case Col(c) => g[0][c] == p && g[1][c] == p && g[2][c] == p
    case Diagonal => g[0][0] == p && g[1][1] == p && g[2][2] == p
    case AntiDiagonal => g[0][2] == p && g[1][1] == p && g[2][0] == p
  }

  /** Board.hasWon(thePlayer, row, col) (assumed): the row of the move, its
      column, and whichever diagonals pass through it are checked, and the
      player has won when one of them is all thePlayer. */
  predicate HasWon(g: Grid, thePlayer: Player, row: int, col: int)
    requires WellFormed(g) && InBounds(row, col)
  {
    Filled(g, thePlayer, Row(row)) || Filled(g, thePlayer, Col(col))
    || (row == col && Filled(g, thePlayer, Diagonal))
    || (row + col == 2 && Filled(g, thePlayer, AntiDiagonal))
  }

  /** Reference check: some line of the whole board is all p. */
  ghost predicate HasLine(g: Grid, p: Player)
    requires WellFormed(g)
  {
    exists l :: IsLine(l) && Filled(g, p, l)
  }

  /** Board.isDraw() (assumed): no cell is free. */
  predicate IsDraw(g: Grid)
    requires WellFormed(g)
  {
    forall r, c :: 0 <= r < ROWS && 0 <= c < COLS ==> g[r][c] != Empty
  }

  /** The local check is sound: a win through (row, col) is a complete line. */
  lemma HasWonSound(g: Grid, p: Player, row: int, col: int)
    requires WellFormed(g) && InBounds(row, col)
    requires HasWon(g, p, row, col)
    ensures HasLine(g, p)
  {
  }

  /** The local check is complete: when no line of p existed before p was
      placed at (row, col), any line of p afterwards passes through (row, col),
      so checking only the lines through the move misses no win. On such a
      move the local check agrees with the full scan of all eight lines. */
  lemma HasWonComplete(g: Grid, p: Player, row: int, col: int)
    requires WellFormed(g) && InBounds(row, col)
    requires !HasLine(g, p)
    ensures HasWon(Place(g, row, col, p), p, row, col) <==> HasLine(Place(g, row, col, p), p)
  {
  }

  // ---------------------------------------------------------------------------
  // Counting cells.
  // ---------------------------------------------------------------------------

  /** Number of entries of s equal to p. */
  function CountIn(s: seq<Player>, p: Player): (n: nat)
    ensures n <= |s|
  {
    if s == [] then 0 else (if s[0] == p then 1 else 0) + CountIn(s[1..], p)
  }

  /** Number of cells of g holding p. */
  function Count(g: Grid, p: Player): (n: nat) {
    if g == [] then 0 else CountIn(g[0], p) + Count(g[1..], p)
  }

  lemma {:induction false} CountInUpdate(s: seq<Player>, i: int, q: Player, p: Player)
    requires 0 <= i < |s|
    ensures CountIn(s[i := q], p)
            == CountIn(s, p) - (if s[i] == p then 1 else 0) + (if q == p then 1 else 0)
  {
    if i > 0 {
      assert s[i := q][1..] == s[1..][i - 1 := q];
      CountInUpdate(s[1..], i - 1, q, p);
    } else {
      assert s[i := q][1..] == s[1..];
    }
  }

  lemma {:induction false} CountUpdate(g: Grid, row: int, col: int, q: Player, p: Player)
    requires 0 <= row < |g| && 0 <= col < |g[row]|
    ensures Count(g[row := g[row][col := q]], p)
            == Count(g, p) - (if g[row][col] == p then 1 else 0) + (if q == p then 1 else 0)
  {
    var g' := g[row := g[row][col := q]];
    if row > 0 {
      assert g'[1..] == g[1..][row - 1 := g[1..][row - 1][col := q]];
      CountUpdate(g[1..], row - 1, col, q, p);
    } else {
      assert g'[1..] == g[1..];
      CountInUpdate(g[0], col, q, p);
    }
  }

  /** Placing p on a free cell adds one p, removes one Empty, leaves the rest. */
  lemma CountPlace(g: Grid, row: int, col: int, p: Player, q: Player)
    requires WellFormed(g) && InBounds(row, col)
    requires g[row][col] == Empty && p != Empty
    ensures Count(Place(g, row, col, p), q)
            == if q == p then Count(g, q) + 1
               else if q == Empty then Count(g, q) - 1
               else Count(g, q)
  {
    CountUpdate(g, row, col, p, q);
  }

  lemma {:induction false} CountInPartition(s: seq<Player>)
    ensures CountIn(s, Empty) + CountIn(s, Cross) + CountIn(s, Nought) == |s|
  {
    if s != [] {
      CountInPartition(s[1..]);
    }
  }

  /** Every cell is Empty, Cross or Nought: the three counts add up to the
      number of cells. */
  lemma {:induction false} CountPartition(g: Grid)
    requires forall r :: 0 <= r < |g| ==> |g[r]| == COLS
    ensures Count(g, Empty) + Count(g, Cross) + Count(g, Nought) == COLS * |g|
  {
    if g != [] {
      CountInPartition(g[0]);
      CountPartition(g[1..]);
    }
  }

  lemma {:induction false} CountInZero(s: seq<Player>, p: Player)
    ensures CountIn(s, p) == 0 <==> forall i :: 0 <= i < |s| ==> s[i] != p
  {
    if s != [] {
      CountInZero(s[1..], p);
      assert forall i :: 1 <= i < |s| ==> s[i] == s[1..][i - 1];
    }
  }

  lemma {:induction false} CountZero(g: Grid, p: Player)
    ensures Count(g, p) == 0
            <==> forall r, c :: 0 <= r < |g| && 0 <= c < |g[r]| ==> g[r][c] != p
  {
    if g != [] {
      CountInZero(g[0], p);
      CountZero(g[1..], p);
      assert forall r :: 1 <= r < |g| ==> g[r] == g[1..][r - 1];
    }
  }

  /** The board is full exactly when no cell is counted Empty. */
  lemma DrawIffNoEmpty(g: Grid)
    requires WellFormed(g)
    ensures IsDraw(g) <==> Count(g, Empty) == 0
  {
    CountZero(g, Empty);
  }
}

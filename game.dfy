/** The game controller's logic as values: how a click picks a cell, how the
    phase is decided after a move, and what one click does to the whole game
    state. The class in module GameMain is proved against these functions;
    the lemmas here state what holds of every game played from the start. */
module GameLogic {
  import opened Board

  /** The game phase; Draw, CrossWon and NoughtWon end the game. */
  datatype GameState = Playing | Draw | CrossWon | NoughtWon

  /** Width and height of one cell in pixels. */
  const CELL_SIZE: int := 100

  /** Width and height of the canvas. */
  const CANVAS_WIDTH: int := CELL_SIZE * COLS
  const CANVAS_HEIGHT: int := CELL_SIZE * ROWS

  /** Row or column of a pixel coordinate: coord / CELL_SIZE with the
      quotient truncated toward zero, as integer division does in the source
      language (Dafny's own division rounds down for a negative coord). */
  function CellIndex(coord: int): (i: int)
    ensures 0 <= coord ==> i * CELL_SIZE <= coord < i * CELL_SIZE + CELL_SIZE
    ensures coord < 0 ==> i * CELL_SIZE - CELL_SIZE < coord <= i * CELL_SIZE
  {
    if coord >= 0 then coord / CELL_SIZE else -((-coord) / CELL_SIZE)
  }

  /** A click selects a cell on the board exactly when both coordinates lie
      within one cell size before the canvas' left/top edge and its far edge:
      truncation maps the strip (-CELL_SIZE, 0) onto row or column 0. */
  lemma ClickCellInBounds(x: int, y: int)
    ensures InBounds(CellIndex(y), CellIndex(x))
            <==> -CELL_SIZE < x < CANVAS_WIDTH && -CELL_SIZE < y < CANVAS_HEIGHT
  {
  }

  /** Every click on the canvas selects a cell on the board. */
  lemma CanvasClickInBounds(x: int, y: int)
    requires 0 <= x < CANVAS_WIDTH && 0 <= y < CANVAS_HEIGHT
    ensures InBounds(CellIndex(y), CellIndex(x))
  {
  }

  /** The player who moves next: Cross after anything but Cross. */
  function Toggle(p: Player): (q: Player)
    ensures q != Empty && q != p
  {
    if p == Cross then Nought else Cross
  }

  /** The whole state the controller owns: the cell contents, the phase and
      the player to move. */
  datatype Game = Game(cells: Grid, state: GameState, player: Player)

  /** initGame: an empty board, Playing, Cross to move. */
  function Init(): (s: Game) {
    Game(EmptyGrid(), Playing, Cross)
  }

  /** updateGame(thePlayer, row, col) on board g with current phase state: the
      phase after the move. A win goes to the mover; a full board without a win
      is a Draw only when the mover is Cross, otherwise the phase is left as it
      was; in every other case the game goes on. */
  function PhaseAfterMove(g: Grid, state: GameState, thePlayer: Player, row: int, col: int): (phase: GameState)
    requires WellFormed(g) && InBounds(row, col)
  {
    if HasWon(g, thePlayer, row, col) then
      if thePlayer == Cross then CrossWon
      else if thePlayer == Nought then NoughtWon
      else state
    else if IsDraw(g) then
      if thePlayer == Cross then Draw else state
    else
      Playing
  }

  /** mouseClicked at pixel (x, y). While Playing, a click on a free cell of
      the board places the mover's mark, re-evaluates the phase and toggles the
      mover (whatever the new phase); any other click while Playing is ignored.
      In any other phase the click restarts the game. */
  function Click(s: Game, x: int, y: int): (s': Game)
    requires WellFormed(s.cells)
    ensures WellFormed(s'.cells)
  {
    var row, col := CellIndex(y), CellIndex(x);
    if s.state == Playing then
      if InBounds(row, col) && s.cells[row][col] == Empty then
        var cells := Place(s.cells, row, col, s.player);
        Game(cells, PhaseAfterMove(cells, s.state, s.player, row, col), Toggle(s.player))
      else
        s
    else
      Init()
  }

  /** The state after a sequence of clicks. */
  function Run(s: Game, clicks: seq<(int, int)>): (s': Game)
    requires WellFormed(s.cells)
    ensures WellFormed(s'.cells)
    decreases |clicks|
  {
    if clicks == [] then s
    else Run(Click(s, clicks[0].0, clicks[0].1), clicks[1..])
  }

  /** Clicks compose: running a + b is running a, then b. */
  lemma {:induction false} RunConcat(s: Game, a: seq<(int, int)>, b: seq<(int, int)>)
    requires WellFormed(s.cells)
    ensures Run(s, a + b) == Run(Run(s, a), b)
    decreases |a|
  {
    if a != [] {
      assert (a + b)[0] == a[0] && (a + b)[1..] == a[1..] + b;
      assert Run(s, a + b) == Run(Click(s, a[0].0, a[0].1), a[1..] + b);
      RunConcat(Click(s, a[0].0, a[0].1), a[1..], b);
    } else {
      assert a + b == b;
    }
  }

  // ---------------------------------------------------------------------------
  // What holds of every game played from the start.
  // ---------------------------------------------------------------------------

  /** The invariant of reachable states: somebody is always to move, and while
      the game is on the board is not full and Cross is to move exactly when
      both players have made the same number of moves (otherwise Cross is one
      move ahead and Nought is to move). */
  ghost predicate Inv(s: Game) {
    WellFormed(s.cells) && s.player != Empty &&
    (s.state == Playing ==>
      !IsDraw(s.cells) &&
      if s.player == Cross then Count(s.cells, Cross) == Count(s.cells, Nought)
      else Count(s.cells, Cross) == Count(s.cells, Nought) + 1)
  }

  lemma InitInv()
    ensures Inv(Init())
  {
    var g := EmptyGrid();
    assert g[0][0] == Empty;
    CountZero(g, Cross);
    CountZero(g, Nought);
  }

  /** A valid move while Playing keeps the invariant. */
  lemma MovePreservesInv(s: Game, row: int, col: int)
    requires Inv(s) && s.state == Playing
    requires InBounds(row, col) && s.cells[row][col] == Empty
    ensures var cells := Place(s.cells, row, col, s.player);
            Inv(Game(cells, PhaseAfterMove(cells, s.state, s.player, row, col), Toggle(s.player)))
  {
    var cells := Place(s.cells, row, col, s.player);
    var p := s.player;
    CountPlace(s.cells, row, col, p, Cross);
    CountPlace(s.cells, row, col, p, Nought);
    CountPlace(s.cells, row, col, p, Empty);
    CountPartition(cells);
    DrawIffNoEmpty(cells);
  }

  /** Every click keeps the invariant. */
  lemma ClickPreservesInv(s: Game, x: int, y: int)
    requires Inv(s)
    ensures Inv(Click(s, x, y))
  {
    var row, col := CellIndex(y), CellIndex(x);
    if s.state != Playing {
      InitInv();
    } else if InBounds(row, col) && s.cells[row][col] == Empty {
      MovePreservesInv(s, row, col);
    }
  }

  /** Every state reachable by clicks from a state with the invariant has it. */
  lemma {:induction false} RunPreservesInv(s: Game, clicks: seq<(int, int)>)
    requires Inv(s)
    ensures Inv(Run(s, clicks))
    decreases |clicks|
  {
    if clicks != [] {
      ClickPreservesInv(s, clicks[0].0, clicks[0].1);
      RunPreservesInv(Click(s, clicks[0].0, clicks[0].1), clicks[1..]);
    }
  }

  /** A game started by initGame never gets stuck: whenever it is still
      Playing, some cell is free, so a click can move. */
  lemma NeverStuck(clicks: seq<(int, int)>)
    ensures var s := Run(Init(), clicks);
            s.player != Empty &&
            (s.state == Playing ==> exists r, c :: InBounds(r, c) && s.cells[r][c] == Empty)
  {
    InitInv();
    RunPreservesInv(Init(), clicks);
  }

  /** Nought never fills the board: Nought's move always leaves a free cell.
      So in a reachable state the case in which updateGame leaves a full
      board's phase unassigned (a board-filling move by Nought) cannot occur;
      it is Cross that makes the ninth move. */
  lemma NoughtNeverFills(s: Game, x: int, y: int)
    requires Inv(s) && s.state == Playing && s.player == Nought
    ensures !IsDraw(Click(s, x, y).cells)
  {
    var row, col := CellIndex(y), CellIndex(x);
    if InBounds(row, col) && s.cells[row][col] == Empty {
      var cells := Place(s.cells, row, col, Nought);
      CountPlace(s.cells, row, col, Nought, Cross);
      CountPlace(s.cells, row, col, Nought, Nought);
      CountPartition(cells);
      DrawIffNoEmpty(cells);
    }
  }

  // ---------------------------------------------------------------------------
  // Scenarios.
  // ---------------------------------------------------------------------------

  /** The pixel at the centre of cell (row, col). */
  function Centre(row: int, col: int): (xy: (int, int)) {
    (col * CELL_SIZE + CELL_SIZE / 2, row * CELL_SIZE + CELL_SIZE / 2)
  }

  /** Cross takes the top row while Nought plays (1,0) and (1,1): Cross wins,
      and the mover has still been toggled to Nought. */
  lemma CrossWinsTopRow()
    ensures var s := Run(Init(), [Centre(0, 0), Centre(1, 0), Centre(0, 1), Centre(1, 1), Centre(0, 2)]);
            s.state == CrossWon && s.player == Nought
  {
  }

  /** The next click after that win restarts the game, wherever it lands. */
  lemma ClickAfterWinRestarts(x: int, y: int)
    ensures Run(Init(), [Centre(0, 0), Centre(1, 0), Centre(0, 1), Centre(1, 1), Centre(0, 2), (x, y)]) == Init()
  {
    var moves := [Centre(0, 0), Centre(1, 0), Centre(0, 1), Centre(1, 1), Centre(0, 2)];
    CrossWinsTopRow();
    RunConcat(Init(), moves, [(x, y)]);
    assert moves + [(x, y)] == [Centre(0, 0), Centre(1, 0), Centre(0, 1), Centre(1, 1), Centre(0, 2), (x, y)];
  }

  /** A move by Cross that fills the board without a line: a Draw. */
  lemma CrossFillIsDraw()
    ensures PhaseAfterMove([[Cross, Cross, Nought], [Nought, Nought, Cross], [Cross, Nought, Cross]],
                       Playing, Cross, 2, 2) == Draw
  {
  }

  /** The branch that cannot be reached by play: on a full board without a
      line, a move by Nought leaves the phase Playing. */
  lemma NoughtFillLeavesPlaying()
    ensures PhaseAfterMove([[Cross, Cross, Nought], [Nought, Nought, Cross], [Cross, Nought, Cross]],
                       Playing, Nought, 2, 1) == Playing
  {
  }
}

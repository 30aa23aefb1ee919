/** The game controller as the program has it: an object holding the 3x3
    board in place, the current phase and the player to move, whose methods
    update them click by click. Each method is proved against the functions
    of module GameLogic. */
module GameMain {
  import opened Board
  import opened GameLogic

  class GameMain {
    /** board.cells[row][col].content of the program, one entry per cell. */
    const board: array2<Player>
    var currentState: GameState
    var currentPlayer: Player

    ghost predicate Valid()
      reads this
    {
      board.Length0 == ROWS && board.Length1 == COLS
    }

    /** The cell contents as a grid. */
    function Cells(): (g: Grid)
      requires Valid()
      reads this, board
      ensures WellFormed(g)
      ensures forall r, c :: InBounds(r, c) ==> g[r][c] == board[r, c]
    {
      [[board[0, 0], board[0, 1], board[0, 2]],
       [board[1, 0], board[1, 1], board[1, 2]],
       [board[2, 0], board[2, 1], board[2, 2]]]
    }

    /** The whole state of the controller as a value. */
    ghost function Model(): (s: Game)
      requires Valid()
      reads this, board
    {
      Game(Cells(), currentState, currentPlayer)
    }

    /** Sets up a new board and starts the first game. */
    constructor ()
      ensures Valid() && fresh(board)
      ensures Model() == Init() && Inv(Model())
    {
      board := new Player[ROWS, COLS];
      new;
      InitGame();
      InitInv();
    }

    /** initGame: every cell Empty, Playing, Cross to move. */
    method InitGame()
      requires Valid()
      modifies this, board
      ensures Valid()
      ensures forall r, c :: 0 <= r < ROWS && 0 <= c < COLS ==> board[r, c] == Empty
      ensures currentState == Playing && currentPlayer == Cross
      ensures Model() == Init()
    {
      for row := 0 to ROWS
        invariant forall r, c :: 0 <= r < row && 0 <= c < COLS ==> board[r, c] == Empty
      {
        for col := 0 to COLS
          invariant forall r, c :: 0 <= r < row && 0 <= c < COLS ==> board[r, c] == Empty
          invariant forall c :: 0 <= c < col ==> board[row, c] == Empty
        {
          board[row, col] := Empty;
        }
      }
      currentState := Playing;
      currentPlayer := Cross;
    }

    /** updateGame(thePlayer, row, col): only the phase changes. A win through
        (row, col) goes to thePlayer; a full board is a Draw when thePlayer is
        Cross and is left unassigned otherwise; any other board is Playing. */
    method UpdateGame(thePlayer: Player, row: int, col: int)
      requires Valid() && InBounds(row, col)
      modifies this`currentState
      ensures currentState == PhaseAfterMove(Cells(), old(currentState), thePlayer, row, col)
      ensures HasWon(Cells(), thePlayer, row, col) && thePlayer == Cross ==> currentState == CrossWon
      ensures HasWon(Cells(), thePlayer, row, col) && thePlayer == Nought ==> currentState == NoughtWon
      ensures !HasWon(Cells(), thePlayer, row, col) && IsDraw(Cells()) ==>
                currentState == if thePlayer == Cross then Draw else old(currentState)
      ensures !HasWon(Cells(), thePlayer, row, col) && !IsDraw(Cells()) ==> currentState == Playing
    {
      if HasWon(Cells(), thePlayer, row, col) {
        if thePlayer == Cross {
          currentState := CrossWon;
        } else if thePlayer == Nought {
          currentState := NoughtWon;
        }
      } else if IsDraw(Cells()) {
        if thePlayer == Cross {
          currentState := Draw;
        }
      } else {
        currentState := Playing;
      }
    }

    /** mouseClicked at pixel (x, y). */
    method MouseClicked(x: int, y: int)
      requires Valid()
      modifies this, board
      ensures Valid()
      ensures Model() == Click(old(Model()), x, y)
      ensures old(Inv(Model())) ==> Inv(Model())
      // A click after the game has ended restarts it, wherever it lands.
      ensures old(currentState) != Playing ==>
                currentState == Playing && currentPlayer == Cross &&
                forall r, c :: InBounds(r, c) ==> board[r, c] == Empty
      // A click while Playing off the board or on an occupied cell is ignored.
      ensures old(currentState) == Playing
              && !(InBounds(CellIndex(y), CellIndex(x)) && old(board[CellIndex(y), CellIndex(x)]) == Empty)
              ==> currentState == old(currentState) && currentPlayer == old(currentPlayer)
                  && Cells() == old(Cells())
      // A valid click writes the mover's mark into that cell and no other,
      // and toggles the mover whatever the new phase.
      ensures old(currentState) == Playing
              && InBounds(CellIndex(y), CellIndex(x)) && old(board[CellIndex(y), CellIndex(x)]) == Empty
              ==> board[CellIndex(y), CellIndex(x)] == old(currentPlayer)
                  && (forall r, c :: InBounds(r, c) && (r, c) != (CellIndex(y), CellIndex(x))
                                     ==> board[r, c] == old(board[r, c]))
                  && currentPlayer == Toggle(old(currentPlayer))
                  && currentState == PhaseAfterMove(Cells(), Playing, old(currentPlayer), CellIndex(y), CellIndex(x))
      // An occupied cell is never overwritten while Playing.
      ensures old(currentState) == Playing ==>
                forall r, c :: InBounds(r, c) && old(board[r, c]) != Empty ==> board[r, c] == old(board[r, c])
    {
      ghost var before := Model();
      var rowSelected := CellIndex(y);
      var colSelected := CellIndex(x);
      if currentState == Playing {
        if 0 <= rowSelected < ROWS && 0 <= colSelected < COLS
           && board[rowSelected, colSelected] == Empty {
          board[rowSelected, colSelected] := currentPlayer;
          GridEquality(Cells(), Place(before.cells, rowSelected, colSelected, currentPlayer));
          UpdateGame(currentPlayer, rowSelected, colSelected);
          if currentPlayer == Cross {
            currentPlayer := Nought;
          } else {
            currentPlayer := Cross;
          }
        }
      } else {
        InitGame();
      }
      if Inv(before) {
        ClickPreservesInv(before, x, y);
      }
    }
  }
}

# Tic-Tac-Toe game controller

A Dafny model of the game logic of a two-player Tic-Tac-Toe panel. The
controller (`GameMain`) owns a 3x3 board, the current game phase
(`Playing`, `Draw`, `CrossWon`, `NoughtWon`) and the player to move. Each
mouse click is turned into a cell by dividing the pixel coordinates by the
cell size (100). While the game is on, a click on a free cell places the
mover's mark, re-evaluates the phase, and hands the turn to the other player.
Any other click while Playing is ignored. After the game has ended, any
click restarts it.

Files:

- `board.dfy` (module `Board`): cell contents (`Player` = `Empty`, `Cross`,
  `Nought`), the 3x3 grid as `seq<seq<Player>>`, and writing one cell
  (`Place`). It also holds the two board checks `HasWon` and `IsDraw`, with
  cell counting used in the proofs.
- `game.dfy` (module `GameLogic`): the controller's decisions as pure
  functions, which serve as the specification:
  - `CellIndex`: the pixel-to-cell mapping, with truncating division.
  - `Init`: `initGame`.
  - `PhaseAfterMove`: the phase `updateGame` leaves, computed from the
    board, the old phase, the mover and the cell.
  - `Click`: `mouseClicked`.
  - `Run`: a sequence of clicks.

  It also holds the invariant of reachable states, with its lemmas and a few
  scenarios.
- `game_main.dfy` (module `GameMain`): class `GameMain`. It holds the board
  in place as an `array2<Player>` and the fields `currentState` and
  `currentPlayer`. `InitGame` resets the board with the source's nested
  loops. `UpdateGame` assigns only `currentState`. `MouseClicked` changes one
  cell and toggles the player. Each method's `ensures` states the new state
  outright and ties it to the function of `GameLogic`.

Behaviour kept as the code has it:

- The player is toggled after every valid move, including a move that wins or
  fills the board. A toggle only while the phase is still Playing would
  differ; the model follows the code.
- On a full board without a win, `updateGame` sets `Draw` only when the mover
  is Cross. For Nought, `currentState` is not assigned. `PhaseAfterMove` keeps
  this (see `NoughtFillLeavesPlaying`). `NoughtNeverFills` and the
  invariant `Inv` prove the branch is never reached in play. Cross moves
  first and the players alternate, so Cross always makes the ninth move, and
  a game in progress always has a free cell (`NeverStuck`).
- Cell mapping divides with truncation toward zero, as the source language
  does. So a click at a coordinate in (-100, 0) selects row or column 0
  (`ClickCellInBounds`).

The board's own code is not part of this model. `HasWon` and `IsDraw` are
given the usual definitions below, and those definitions are assumed:

- `HasWon`: the row, the column and whichever diagonals pass through the
  cell just played are checked, and the player has won if one of them holds
  three of the player's marks.
- `IsDraw`: no cell is `Empty`.

`HasWonSound` and `HasWonComplete` prove that, for a move that completes a
new line, this local check agrees with scanning all eight lines.

The transition contracts of the class refer to `HasWon` and `IsDraw` only by
name, so they hold for any definition of the two checks. These are
`InitGame`, `UpdateGame`, the equality of `MouseClicked` with `Click`, and
its restart, ignore, move and toggle clauses. The reachable-state results
rest on the assumed `IsDraw`, because `Inv` says a game in progress is not
full and its proofs use `DrawIffNoEmpty`. These are `Inv` itself,
`InitInv`, `MovePreservesInv`, `ClickPreservesInv`, `RunPreservesInv`,
`NeverStuck` and `NoughtNeverFills`. The constructor's `Inv` clause and the
`Inv` clause of `MouseClicked` rest on it too.

Names follow Dafny style: the source's `Cross_won` and `Nought_won` are
`CrossWon` and `NoughtWon`, and `initGame`, `updateGame` and `mouseClicked`
are `InitGame`, `UpdateGame` and `MouseClicked`.

## Model

| member | source | states |
|---|---|---|
| `Board.EmptyGrid` | BIT504_Assign2_PartAStudent/GameMain.java:118-123 | the reset board is 3x3 and every cell is Empty |
| `Board.Place` | BIT504_Assign2_PartAStudent/GameMain.java:176 | writing a move gives a 3x3 board holding the mark at that cell, with every other cell unchanged |
| `Board.HasWonSound` | BIT504_Assign2_PartAStudent/GameMain.java:137 | a win found through the cell just played is a complete row, column or diagonal of the board |
| `Board.HasWonComplete` | BIT504_Assign2_PartAStudent/GameMain.java:137 | if the player had no line before the move, the check through the played cell holds exactly when some line of the whole board is complete |
| `Board.DrawIffNoEmpty` | BIT504_Assign2_PartAStudent/GameMain.java:145 | the board is full exactly when no cell is counted Empty |
| `Board.CountPlace` | BIT504_Assign2_PartAStudent/GameMain.java:173-176 | a move on a free cell adds one of the mover's marks, removes one Empty, and leaves the other count as it was |
| `GameLogic.CellIndex` | BIT504_Assign2_PartAStudent/GameMain.java:170-171 | the selected row or column is the coordinate divided by CELL_SIZE, truncated toward zero, for non-negative and for negative coordinates |
| `GameLogic.ClickCellInBounds` | BIT504_Assign2_PartAStudent/GameMain.java:170-173 | the mapped cell is on the board if and only if both coordinates lie in (-CELL_SIZE, 3 * CELL_SIZE) |
| `GameLogic.CanvasClickInBounds` | BIT504_Assign2_PartAStudent/GameMain.java:14-17 | every click on the 300x300 canvas maps to a cell on the board |
| `GameLogic.Toggle` | BIT504_Assign2_PartAStudent/GameMain.java:180-184 | the next player is never Empty and always differs from the mover |
| `GameLogic.Click` | BIT504_Assign2_PartAStudent/GameMain.java:165-189 | the board stays 3x3 after any click |
| `GameLogic.InitInv` | BIT504_Assign2_PartAStudent/GameMain.java:117-126 | the state after initGame satisfies the game invariant |
| `GameLogic.MovePreservesInv` | BIT504_Assign2_PartAStudent/GameMain.java:173-184 | a valid move while Playing keeps the invariant: if the game goes on, the board is not full and the move counts match the player to move |
| `GameLogic.ClickPreservesInv` | BIT504_Assign2_PartAStudent/GameMain.java:165-189 | every click, whether a move, ignored or a restart, keeps the invariant |
| `GameLogic.RunPreservesInv` | BIT504_Assign2_PartAStudent/GameMain.java:165-189 | every sequence of clicks keeps the invariant |
| `GameLogic.NeverStuck` | BIT504_Assign2_PartAStudent/GameMain.java:172-178 | after any clicks from the start, somebody is to move, and while Playing some cell is free |
| `GameLogic.NoughtNeverFills` | BIT504_Assign2_PartAStudent/GameMain.java:145-148 | from a reachable state, Nought's click never fills the board, so the unassigned-phase branch for Nought is unreachable |
| `GameLogic.CrossWinsTopRow` | BIT504_Assign2_PartAStudent/GameMain.java:137-142 | Cross taking the top row against Nought at (1,0) and (1,1) gives CrossWon, with the mover already toggled to Nought |
| `GameLogic.ClickAfterWinRestarts` | BIT504_Assign2_PartAStudent/GameMain.java:186-189 | after that win, one more click anywhere gives exactly the initial state |
| `GameLogic.CrossFillIsDraw` | BIT504_Assign2_PartAStudent/GameMain.java:145-147 | Cross filling the board without a line gives Draw |
| `GameLogic.NoughtFillLeavesPlaying` | BIT504_Assign2_PartAStudent/GameMain.java:145-148 | Nought filling the board without a line leaves the phase Playing |
| `GameMain.GameMain.constructor` | BIT504_Assign2_PartAStudent/GameMain.java:53-55 | a fresh board is allocated and the first game is started in the initial state, which satisfies the invariant |
| `GameMain.GameMain.InitGame` | BIT504_Assign2_PartAStudent/GameMain.java:117-126 | all nine cells are Empty, the phase is Playing and Cross is to move |
| `GameMain.GameMain.UpdateGame` | BIT504_Assign2_PartAStudent/GameMain.java:135-154 | only the phase changes. A win makes it CrossWon or NoughtWon for the mover. A full board without a win makes it Draw for Cross and leaves it unassigned for Nought. Otherwise it is Playing |
| `GameMain.GameMain.MouseClicked` | BIT504_Assign2_PartAStudent/GameMain.java:165-189 | see below |

Members that model the program but have no contract of their own. Their
properties are carried by the members named:

- `Board.HasWon` (BIT504_Assign2_PartAStudent/GameMain.java:137): the
  assumed `board.hasWon` check. Its properties are in `Board.HasWonSound`
  and `Board.HasWonComplete`.
- `Board.IsDraw` (BIT504_Assign2_PartAStudent/GameMain.java:145): the
  assumed `board.isDraw` check. Its property is in `Board.DrawIffNoEmpty`.
- `GameLogic.Init` (BIT504_Assign2_PartAStudent/GameMain.java:117-126): the
  state `initGame` sets. Its properties are in `GameMain.GameMain.InitGame`,
  which is proved equal to it, and `GameLogic.InitInv`.
- `GameLogic.PhaseAfterMove`
  (BIT504_Assign2_PartAStudent/GameMain.java:135-154): the phase `updateGame`
  leaves. Its case-by-case properties are in `GameMain.GameMain.UpdateGame`.
  The unreachability of its Nought-on-a-full-board case is in
  `GameLogic.NoughtNeverFills`.

What `MouseClicked` states:

- The new state is `Click` of the old one, and the click keeps the invariant.
- After the game has ended, a click anywhere resets the game.
- While Playing, a click off the board or on an occupied cell changes
  nothing.
- While Playing, a valid click writes the old mover into exactly the cell
  (y/100, x/100). No other cell changes, and no occupied cell is ever
  overwritten.
- After a valid click, the player is toggled unconditionally and the phase
  is `PhaseAfterMove` of the new board.

## Left out

- Swing set-up: the panel and frame construction, `main`, `invokeLater`, the
  status bar and the mouse-listener registration. These do window layout
  and threading, not game logic.
- The unused listener callbacks `mousePressed`, `mouseReleased`,
  `mouseEntered` and `mouseExited`. Their bodies are empty.
- Rendering: `paintComponent`, status-bar colours and texts, `board.paint`
  and `repaint`, and the drawing constants `TITLE`, `CELL_PADDING`,
  `SYMBOL_SIZE` and `SYMBOL_STROKE_WIDTH`. These are presentation only.
- The internals of `Board`, `Cell`, `GameState` and `Player`: their source
  is not part of this model. The enums are modelled as datatypes.
  `board.cells[row][col].content`, an array of `Cell` objects, is modelled as
  one `array2<Player>`. `HasWon` and `IsDraw` are the assumed definitions
  above.
- `MouseEvent`: a click is modelled as its pixel coordinates `(x, y)`.
- Bounded integers: the coordinates of a click are unbounded `int`. Dividing
  by 100 cannot overflow, so nothing depends on 32-bit arithmetic.

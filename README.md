# N-in-a-row tic-tac-toe engine, modelled in Dafny

This project models the game engine of the `Map` panel of a Swing
tic-tac-toe game (`ru.gb.jdk.one.online.Map`). The board is a
`fieldSizeX` x `fieldSizeY` grid of cells, indexed `field[y][x]`. Each cell
holds one mark: `EMPTY`, `HUMAN` or `AI`. A player wins with `winLen` equal
marks in a row, in a column or on either diagonal. Two modes are modelled:
human against computer (HVA) and human against human (HVH). In HVA mode the
computer replies at once, using a one-ply heuristic: take a winning cell,
else block a human winning cell, else take any empty cell.

Files (one module each):

- `enums.dfy` (`Enums`): the cell mark `Dot`, `GameState` and `GameMode`,
  as datatypes. The source's integer tags 0/1/2 become constructors.
- `constants.dfy` (`Constants`): the board-size bounds 3 and 10.
- `board.dfy` (`Board`): the board as a value (`Grid`) and the win
  detector's meaning:
  - `Run`: `len` cells from a start cell in one direction. The end cell is
    in bounds and every cell holds the mark.
  - `WinAt`: a run in one of the directions (1,0), (0,1), (1,1), (1,-1).
  - `HasWin`: some start cell has `WinAt`.
  - `Full`: no cell is empty.
  - `WinningCell`, `FirstWinning`: the empty cells where one more mark
    wins, and the first of them in row-major order.
- `engine.dfy` (`Engine`): the rules as values:
  - `EndGame`: the end-of-game check.
  - `AiChoice`: the cells the computer may take.
  - `PlayerTurn` and `Click`: the effect of one move and of one click.
  - `Consistent`: the game-state invariant.
  - Lemmas about all of these.
- `map.dfy` (`TicTacToe`): class `Map`. It keeps the field as an
  `array2<Dot>` and the fields `mode`, `fieldSizeX`, `fieldSizeY`, `winLen`,
  `gameWork`, `gameState` and `currentPlayer`, which its methods update in
  place. A ghost `Grid` called `cells` mirrors the array. Each method is
  proved against the Board and Engine definitions.

Decisions:

- The source keeps the game in static fields of one panel. The model keeps
  it in the fields of one `Map` object.
- The source's constructor only sets up the widget, so every field is
  still unset until the first `startNewGame`. The Dafny constructor
  combines construction with that first `startNewGame`.
- `handlePlayerTurn` takes the cell `(x, y)` directly. The pixel-to-cell
  division is left out.
- The computer's random fallback becomes a nondeterministic choice (`:|`)
  of an empty cell.
- The model follows the source:
  - An invalid click (game over, cell off the board, cell taken) is a
    silent no-op, not an error.
  - Game settings are not validated inside the engine. `startNewGame`
    instead has preconditions: sizes from 3 to 10, which is what the
    settings window offers, and `1 <= winLen`.
  - The engine does not check `winLen <= size`. The model does not need
    it: with a longer `winLen` no run exists, and every game ends in a
    draw.

## Model

| member | source | states |
|---|---|---|
| `TicTacToe.Map.constructor` | src/main/java/ru/gb/jdk/one/online/Map.java:193-203 | a new panel whose first game has started: the given settings, an all-empty field of the given size, game running, human to move, and the state invariant holds |
| `TicTacToe.Map.StartNewGame` | src/main/java/ru/gb/jdk/one/online/Map.java:193-203 | stores mode, sizes and run length; the field is fresh and all empty; `gameWork` is true, the state is `GAME`, the human moves first; the state invariant `Consistent` holds afterwards |
| `TicTacToe.Map.InitMap` | src/main/java/ru/gb/jdk/one/online/Map.java:94-96 | the field becomes a newly allocated `fieldSizeY` x `fieldSizeX` array whose every cell is empty (Java's default 0 is EMPTY) |
| `TicTacToe.Map.IsValidCell` | src/main/java/ru/gb/jdk/one/online/Map.java:105-107 | true exactly when (x, y) is a cell of the board, which is exactly when `field[y, x]` is a legal array access |
| `TicTacToe.Map.IsEmptyCell` | src/main/java/ru/gb/jdk/one/online/Map.java:116-118 | for an in-bounds cell, true exactly when the cell holds no mark |
| `TicTacToe.Map.IsMapFull` | src/main/java/ru/gb/jdk/one/online/Map.java:251-258 | the nested scan returns true exactly when no cell of the board is empty (`Full`) |
| `TicTacToe.Map.CheckLine` | src/main/java/ru/gb/jdk/one/online/Map.java:174-183 | for an in-bounds start cell, true exactly when the end cell is in bounds and all `len` cells along the direction hold `dot` (`Run`); every array read is in bounds although only the end cell is tested |
| `TicTacToe.Map.CheckWin` | src/main/java/ru/gb/jdk/one/online/Map.java:149-161 | true exactly when some start cell and one of the four directions (1,0), (0,1), (1,1), (1,-1) give a run of `winLen` marks `dot` (`HasWin`); reads the field only |
| `TicTacToe.Map.CheckEndGame` | src/main/java/ru/gb/jdk/one/online/Map.java:127-141 | follows `EndGame`: a run of `dot` sets the winner state even on a full board, else a full board sets DRAW; both stop the game and return true; otherwise nothing changes and the result is false; the field is untouched |
| `TicTacToe.Map.TryWinMove` | src/main/java/ru/gb/jdk/one/online/Map.java:228-244 | when no empty cell wins for `dot`, returns false and the field is exactly as before (every tentative mark reverted); otherwise returns true and exactly one cell changed: the first winning empty cell in row-major order now holds `dot` if `apply`, else the computer's mark |
| `TicTacToe.Map.AiTurn` | src/main/java/ru/gb/jdk/one/online/Map.java:208-219 | on a board that is not full, exactly one previously empty cell gets the computer's mark, and it is a cell `AiChoice` allows (win first, then block, then any empty cell) |
| `TicTacToe.Map.HandlePlayerTurn` | src/main/java/ru/gb/jdk/one/online/Map.java:75-86 | the new field, flags and turn are as `PlayerTurn` prescribes for the old state and the clicked cell |
| `TicTacToe.Map.MouseReleased` | src/main/java/ru/gb/jdk/one/online/Map.java:59-63 | a move is made only while `gameWork` is true; a click when the game is over, or on a cell off the board or taken, changes nothing; the state invariant `Consistent` is kept |
| `Board.Place` | src/main/java/ru/gb/jdk/one/online/Map.java:82 | putting a mark changes the one cell named and no other |
| `Board.EmptyGrid` | src/main/java/ru/gb/jdk/one/online/Map.java:95 | a fresh grid of the given size with every cell empty |
| `Board.FirstWinningFromCorrect` | src/main/java/ru/gb/jdk/one/online/Map.java:229-243 | the row-major scan from (x, y) finds the first winning empty cell at or after (x, y), or none exists there |
| `Board.FirstWinningCorrect` | src/main/java/ru/gb/jdk/one/online/Map.java:228-244 | the scan finds nothing exactly when no empty cell wins; what it finds is a winning empty cell and no earlier cell wins |
| `Board.SegmentInBounds` | src/main/java/ru/gb/jdk/one/online/Map.java:175-180 | when the start and end cells of a line are in bounds, every cell between them is too |
| `Board.SameMarksSameWin` | src/main/java/ru/gb/jdk/one/online/Map.java:149-161 | whether a mark has a run depends only on the set of cells holding that mark |
| `Board.PlaceKeepsOtherWin` | src/main/java/ru/gb/jdk/one/online/Map.java:79-85 | putting a mark on an empty cell neither creates nor destroys a run of the other player, so it is enough to check only the mover's runs |
| `Board.EmptyGridNoWin` | src/main/java/ru/gb/jdk/one/online/Map.java:94-96 | a fresh field has no run for either player when `winLen >= 1`, and is not full when it has a cell |
| `Engine.EndGame` | src/main/java/ru/gb/jdk/one/online/Map.java:127-141 | a win is tested before fullness; both terminal outcomes clear `gameWork`; when the game goes on, nothing changes; never touches the board or the turn |
| `Engine.NewGameConsistent` | src/main/java/ru/gb/jdk/one/online/Map.java:198-201 | the state right after a start satisfies the game-state invariant |
| `Engine.AiChoiceIsEmpty` | src/main/java/ru/gb/jdk/one/online/Map.java:208-219 | any cell the computer chooses is in bounds and empty |
| `Engine.AiChoiceExists` | src/main/java/ru/gb/jdk/one/online/Map.java:212-218 | the computer has a move whenever the board is not full, so the random loop has a cell to find |
| `Engine.AiTakesWin` | src/main/java/ru/gb/jdk/one/online/Map.java:209 | win-now comes first: if some empty cell wins for the computer, it takes the first such cell and then has a run |
| `Engine.AiBlocks` | src/main/java/ru/gb/jdk/one/online/Map.java:210 | block comes second: if no cell wins for the computer but one would win for the human, it takes the first such cell |
| `Engine.ClickKeepsConsistent` | src/main/java/ru/gb/jdk/one/online/Map.java:60-86 | every click keeps the invariant: while playing, no run and an empty cell exist; a recorded winner is the only player with a run; a draw is a full board with no runs; a click on a decided game leaves the state unchanged, so it never returns to `GAME` |
| `Engine.HvhMove` | src/main/java/ru/gb/jdk/one/online/Map.java:77-80 | in HVH an accepted move puts the current player's mark on the clicked cell only, and the turn switches exactly when the game goes on |
| `Engine.HvaReply` | src/main/java/ru/gb/jdk/one/online/Map.java:81-85 | in HVA an accepted move that does not end the game is followed by exactly one computer mark, on another cell that was empty and that `AiChoice` allows |
| `Engine.NoMoveAfterEnd` | src/main/java/ru/gb/jdk/one/online/Map.java:60 | once the game is decided, a click changes nothing |
| `Engine.FullWithoutWinnerIsDraw` | src/main/java/ru/gb/jdk/one/online/Map.java:134-138 | a consistent state whose board is full with no run for anyone is a draw, and the game has stopped |

## Left out

- Drawing and Swing: `paintComponent`, `render`, `drawGrid`, `drawCells`,
  `drawCross`, `drawCircle`, `showMessage` and `repaint`. These are view
  code. The `RuntimeException` for a bad cell value cannot happen, because
  a cell is a `Dot` datatype.
- The mouse listener's pixel-to-cell division (`cellWidth`, `cellHeight`).
  `MouseReleased` and `HandlePlayerTurn` take the cell directly.
- The mode test in the mouse listener. `GameMode` has only the two
  constructors, so the test always holds.
- `java.util.Random`: the computer's fallback is any empty cell, chosen
  nondeterministically, not rejection sampling.
- The state before the first game. Until the first `startNewGame` the
  object fields (`mode`, `field`, `gameState`, `currentPlayer`) are null,
  the sizes and `winLen` are 0, and `gameWork` is `false`, so every click
  is ignored by the `gameWork` guard. The constructor here starts the
  first game at once.
- The settings window, the game window and the program entry point. Their
  one rule, that `winLen` must not exceed the size, is not needed by the
  model. The sizes they offer (3 to 10, square) are preconditions of
  `StartNewGame`, which accepts non-square boards too.
- The static sharing of the fields between panels. The model has one
  engine object.
- Java `int` overflow in `checkLine`'s index arithmetic. Model integers
  are unbounded. With sizes of at most 10 and run lengths of at most the
  size, no overflow can occur.
- The end-to-end 3x3 scenarios and the invariance of wins under
  reflection or rotation. The model covers the scenarios with the general
  lemmas `AiTakesWin`, `AiBlocks` and `ClickKeepsConsistent`, and does not
  state the symmetry.

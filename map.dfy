/** The game panel of Map.java without its drawing code: the field as a
    two-dimensional array indexed `field[y, x]`, the game's settings and
    flags, the board queries, the win detector, the end-of-game check, the
    computer's move and the handling of a click on a cell. Each method is
    proved to follow the value-level rules of the Board and Engine modules,
    through the ghost view `cells` of the array. */
module TicTacToe {
  import opened Enums
  import opened Board
  import opened Engine
  import Constants

  class Map {
    var mode: GameMode
    var fieldSizeX: nat
    var fieldSizeY: nat
    var winLen: int
    var field: array2<Dot>
    var gameWork: bool
    var gameState: GameState
    var currentPlayer: Dot

    /** The contents of `field` as a grid value. */
    ghost var cells: Grid

    /** `field` has `fieldSizeY` rows of `fieldSizeX` cells, and `cells` holds
        exactly what the array holds. */
    ghost predicate Valid()
      reads this, field
    {
      && field.Length0 == fieldSizeY && field.Length1 == fieldSizeX
      && cells.w == fieldSizeX && cells.h == fieldSizeY && Board.Valid(cells)
      && forall y, x :: 0 <= y < fieldSizeY && 0 <= x < fieldSizeX ==> field[y, x] == At(cells, x, y)
    }

    /** The engine state that moves change. */
    ghost function Snap(): State
      reads this
    {
      State(cells, gameWork, gameState, currentPlayer)
    }

    /** The panel as it is once the first game has been started. */
    constructor (mode: GameMode, sizeX: nat, sizeY: nat, winLen: int)
      requires Constants.FieldSizeMin <= sizeX <= Constants.FieldSizeMax
      requires Constants.FieldSizeMin <= sizeY <= Constants.FieldSizeMax
      requires 1 <= winLen
      ensures Valid() && Engine.Consistent(Snap(), this.winLen)
      ensures this.mode == mode && fieldSizeX == sizeX && fieldSizeY == sizeY && this.winLen == winLen
      ensures Snap() == NewGame(sizeX, sizeY)
    {
      this.mode := mode;
      fieldSizeX, fieldSizeY, this.winLen := sizeX, sizeY, winLen;
      field := new Dot[sizeY, sizeX]((_, _) => Empty);
      cells := EmptyGrid(sizeX, sizeY);
      gameWork, gameState, currentPlayer := true, Game, Human;
      NewGameConsistent(sizeX, sizeY, winLen);
    }

    /** A new game: the given settings, a fresh all-empty field, the game
        running and the human to move. */
    method StartNewGame(mode: GameMode, sizeX: nat, sizeY: nat, winLen: int)
      requires Constants.FieldSizeMin <= sizeX <= Constants.FieldSizeMax
      requires Constants.FieldSizeMin <= sizeY <= Constants.FieldSizeMax
      requires 1 <= winLen
      modifies this
      ensures Valid() && Engine.Consistent(Snap(), this.winLen)
      ensures fresh(field)
      ensures this.mode == mode && fieldSizeX == sizeX && fieldSizeY == sizeY && this.winLen == winLen
      ensures Snap() == NewGame(sizeX, sizeY)
    {
      this.mode := mode;
      fieldSizeX, fieldSizeY, this.winLen := sizeX, sizeY, winLen;
      InitMap();
      gameWork, gameState, currentPlayer := true, Game, Human;
      NewGameConsistent(sizeX, sizeY, winLen);
    }

    /** A fresh field of the current size with every cell empty. */
    method InitMap()
      modifies this`field, this`cells
      ensures Valid() && fresh(field)
      ensures cells == EmptyGrid(fieldSizeX, fieldSizeY)
    {
      field := new Dot[fieldSizeY, fieldSizeX]((_, _) => Empty);
      cells := EmptyGrid(fieldSizeX, fieldSizeY);
    }

    /** (x, y) is a cell of the field, so `field[y, x]` may be read. */
    function IsValidCell(x: int, y: int): (r: bool)
      reads this, field
      requires Valid()
      ensures r <==> 0 <= y < field.Length0 && 0 <= x < field.Length1
      ensures r <==> InBounds(cells, x, y)
    {
      x >= 0 && x < fieldSizeX && y >= 0 && y < fieldSizeY
    }

    /** Cell (x, y) holds no mark. */
    function IsEmptyCell(x: int, y: int): (r: bool)
      reads this, field
      requires Valid() && IsValidCell(x, y)
      ensures r <==> At(cells, x, y) == Empty
    {
      field[y, x] == Empty
    }

    /** Whether no cell of the field is empty. */
    method IsMapFull() returns (r: bool)
      requires Valid()
      ensures r == Full(cells)
    {
      var y := 0;
      while y < fieldSizeY
        invariant 0 <= y <= fieldSizeY
        invariant forall yy, xx :: 0 <= yy < y && 0 <= xx < fieldSizeX ==> At(cells, xx, yy) != Empty
      {
        var x := 0;
        while x < fieldSizeX
          invariant 0 <= x <= fieldSizeX
          invariant forall yy, xx :: 0 <= yy < y && 0 <= xx < fieldSizeX ==> At(cells, xx, yy) != Empty
          invariant forall xx :: 0 <= xx < x ==> At(cells, xx, y) != Empty
        {
          if field[y, x] == Empty {
            return false;
          }
          x := x + 1;
        }
        y := y + 1;
      }
      return true;
    }

    /** Whether the `len` cells from (x, y) in direction (vx, vy) form a run
        of `dot`. Only the end cell is tested against the bounds; the cells
        between two cells of the field are on the field too. */
    method CheckLine(x: int, y: int, vx: int, vy: int, len: int, dot: Dot) returns (r: bool)
      requires Valid() && IsValidCell(x, y)
      ensures r == Run(cells, x, y, vx, vy, len, dot)
    {
      var endX := x + (len - 1) * vx;
      var endY := y + (len - 1) * vy;
      if !IsValidCell(endX, endY) {
        return false;
      }
      var i := 0;
      while i < len
        invariant 0 <= i && (i <= len || i == 0)
        invariant forall k :: 0 <= k < i ==> StepIs(cells, x, y, vx, vy, k, dot)
      {
        SegmentInBounds(cells, x, y, vx, vy, len, i);
        if field[y + i * vy, x + i * vx] != dot {
          assert !StepIs(cells, x, y, vx, vy, i, dot);
          return false;
        }
        i := i + 1;
      }
      return true;
    }

    /** Whether `dot` has a run of `winLen` cells anywhere on the field. */
    method CheckWin(dot: Dot) returns (r: bool)
      requires Valid()
      ensures r == HasWin(cells, winLen, dot)
    {
      var y := 0;
      while y < fieldSizeY
        invariant 0 <= y <= fieldSizeY
        invariant forall yy, xx :: 0 <= yy < y && 0 <= xx < fieldSizeX ==> !WinAt(cells, xx, yy, winLen, dot)
      {
        var x := 0;
        while x < fieldSizeX
          invariant 0 <= x <= fieldSizeX
          invariant forall yy, xx :: 0 <= yy < y && 0 <= xx < fieldSizeX ==> !WinAt(cells, xx, yy, winLen, dot)
          invariant forall xx :: 0 <= xx < x ==> !WinAt(cells, xx, y, winLen, dot)
        {
          var won := CheckLine(x, y, 1, 0, winLen, dot);
          if !won { won := CheckLine(x, y, 0, 1, winLen, dot); }
          if !won { won := CheckLine(x, y, 1, 1, winLen, dot); }
          if !won { won := CheckLine(x, y, 1, -1, winLen, dot); }
          if won {
            assert InBounds(cells, x, y) && WinAt(cells, x, y, winLen, dot);
            return true;
          }
          x := x + 1;
        }
        y := y + 1;
      }
      return false;
    }

    /** The end-of-game check after `dot` has moved (see Engine.EndGame): a
        run of `dot` sets `state`, otherwise a full field sets `Draw`; in both
        cases the game stops and the result is true. */
    method CheckEndGame(dot: Dot, state: GameState) returns (ended: bool)
      requires Valid()
      modifies this`gameState, this`gameWork
      ensures Valid()
      ensures (ended, Snap()) == EndGame(old(Snap()), winLen, dot, state)
    {
      var won := CheckWin(dot);
      if won {
        gameState := state;
        gameWork := false;
        return true;
      }
      var full := IsMapFull();
      if full {
        gameState := Draw;
        gameWork := false;
        return true;
      }
      return false;
    }

    /** Looks for the first empty cell, in row-major order, where `dot`
        would complete a run: each candidate gets `dot` tentatively and loses
        it again if it does not win. At the first winning cell the mark stays
        (`apply`) or is replaced by the computer's mark (blocking); if no cell
        wins, the field is left exactly as it was. */
    method TryWinMove(dot: Dot, apply: bool) returns (found: bool)
      requires Valid()
      modifies field, this`cells
      ensures Valid()
      ensures match FirstWinning(old(cells), winLen, dot)
        case None => !found && cells == old(cells)
        case Some(c) =>
          (found && InBounds(old(cells), c.0, c.1)
           && cells == Place(old(cells), c.0, c.1, if apply then dot else AI))
    {
      ghost var b0 := cells;
      FirstWinningCorrect(b0, winLen, dot);
      var y := 0;
      while y < fieldSizeY
        invariant 0 <= y <= fieldSizeY
        invariant Valid() && cells == b0
        invariant FirstWinningFrom(b0, winLen, dot, 0, y) == FirstWinning(b0, winLen, dot)
      {
        var x := 0;
        while x < fieldSizeX
          invariant 0 <= x <= fieldSizeX
          invariant Valid() && cells == b0
          invariant FirstWinningFrom(b0, winLen, dot, x, y) == FirstWinning(b0, winLen, dot)
        {
          if IsEmptyCell(x, y) {
            field[y, x] := dot;
            cells := Place(b0, x, y, dot);
            var won := CheckWin(dot);
            if won {
              assert WinningCell(b0, winLen, dot, x, y);
              if !apply {
                field[y, x] := AI;
                cells := Place(b0, x, y, AI);
              }
              return true;
            }
            field[y, x] := Empty;
            cells := b0;
          }
          x := x + 1;
        }
        y := y + 1;
      }
      return false;
    }

    /** The computer's move: a winning cell if there is one, else a cell that
        blocks a human win, else any empty cell (see Engine.AiChoice). Exactly
        one cell changes, from empty to the computer's mark. */
    method AiTurn()
      requires Valid() && !Full(cells)
      modifies field, this`cells
      ensures Valid()
      ensures exists ax, ay ::
        && AiChoice(old(cells), winLen, ax, ay)
        && InBounds(old(cells), ax, ay) && At(old(cells), ax, ay) == Empty
        && cells == Place(old(cells), ax, ay, AI)
    {
      ghost var b0 := cells;
      var won := TryWinMove(AI, true);
      if won {
        ghost var c := FirstWinning(b0, winLen, AI).value;
        AiChoiceIsEmpty(b0, winLen, c.0, c.1);
        return;
      }
      var blocked := TryWinMove(Human, false);
      if blocked {
        ghost var c := FirstWinning(b0, winLen, Human).value;
        AiChoiceIsEmpty(b0, winLen, c.0, c.1);
        return;
      }
      ghost var ex, ey :| InBounds(b0, ex, ey) && At(b0, ex, ey) == Empty;
      assert field[ey, ex] == Empty;
      var x, y :| 0 <= x < fieldSizeX && 0 <= y < fieldSizeY && field[y, x] == Empty;
      field[y, x] := AI;
      cells := Place(b0, x, y, AI);
      assert AiChoice(b0, winLen, x, y);
    }

    /** A move at cell (x, y) (see Engine.PlayerTurn): a cell off the field
        or already taken changes nothing; otherwise the mover's mark goes on
        the cell and the game is checked for its end, and in HVA mode the
        computer replies at once and the game is checked again. */
    method HandlePlayerTurn(x: int, y: int)
      requires Valid()
      modifies field, this`cells, this`gameState, this`gameWork, this`currentPlayer
      ensures Valid()
      ensures PlayerTurn(mode, winLen, old(Snap()), x, y, Snap())
    {
      if !IsValidCell(x, y) || !IsEmptyCell(x, y) {
        return;
      }
      ghost var s0 := Snap();
      if mode == HVH {
        field[y, x] := currentPlayer;
        cells := Place(cells, x, y, currentPlayer);
        var ended := CheckEndGame(currentPlayer, if currentPlayer == Human then WinHuman else WinAI);
        if ended {
          return;
        }
        currentPlayer := if currentPlayer == Human then AI else Human;
      } else {
        field[y, x] := Human;
        cells := Place(cells, x, y, Human);
        var ended := CheckEndGame(Human, WinHuman);
        if ended {
          return;
        }
        ghost var s1 := Snap();
        AiTurn();
        ghost var ax, ay :| AiChoice(s1.board, winLen, ax, ay) && InBounds(s1.board, ax, ay)
          && cells == Place(s1.board, ax, ay, AI);
        ended := CheckEndGame(AI, WinAI);
        assert Snap() == EndGame(s1.(board := Place(s1.board, ax, ay, AI)), winLen, AI, WinAI).1;
      }
    }

    /** A click on cell (x, y): a move is made only while the game runs, so a
        decided game ignores every click. The state stays consistent with
        the field. */
    method MouseReleased(x: int, y: int)
      requires Valid() && Engine.Consistent(Snap(), winLen)
      modifies field, this`cells, this`gameState, this`gameWork, this`currentPlayer
      ensures Valid() && Engine.Consistent(Snap(), winLen)
      ensures Click(mode, winLen, old(Snap()), x, y, Snap())
      ensures !old(gameWork) || !InBounds(old(cells), x, y) || At(old(cells), x, y) != Empty
        ==> Snap() == old(Snap())
    {
      ghost var s0 := Snap();
      if gameWork {
        HandlePlayerTurn(x, y);
      }
      ClickKeepsConsistent(mode, winLen, s0, x, y, Snap());
    }
  }
}

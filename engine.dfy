/** The rules of one game as values: the state the engine keeps, the
    end-of-game check, the cell the computer picks, and the effect of one
    click on a cell. The class in TicTacToe (Map) is proved to follow these
    definitions; the lemmas here state what the rules guarantee. */
module Engine {
  import opened Enums
  import opened Board

  /** The part of the engine that a move changes: the field, whether the
      game is still being played, its state, and whose turn it is (used in
      HVH mode only). */
  datatype State = State(board: Grid, gameWork: bool, gameState: GameState, currentPlayer: Dot)

  /** The player who moves after `d` in HVH mode. */
  function Other(d: Dot): Dot {
    if d == Human then AI else Human
  }

  /** The state that records a win of `d`. */
  function WinStateOf(d: Dot): GameState {
    if d == Human then WinHuman else WinAI
  }

  /** The end-of-game check after `dot` has moved: a run of `dot` ends the
      game with state `win` (even on a full board), otherwise a full board
      ends it as a draw; otherwise nothing changes. The flag says whether
      the game ended. */
  ghost function EndGame(s: State, len: int, dot: Dot, win: GameState): (r: (bool, State))
    requires Valid(s.board)
    ensures r.1.board == s.board && r.1.currentPlayer == s.currentPlayer
    ensures r.0 <==> HasWin(s.board, len, dot) || Full(s.board)
    ensures r.0 ==> !r.1.gameWork
    ensures HasWin(s.board, len, dot) ==> r.1.gameState == win
    ensures !HasWin(s.board, len, dot) && Full(s.board) ==> r.1.gameState == Draw
    ensures !r.0 ==> r.1 == s
  {
    if HasWin(s.board, len, dot) then (true, s.(gameState := win, gameWork := false))
    else if Full(s.board) then (true, s.(gameState := Draw, gameWork := false))
    else (false, s)
  }

  /** The cell the computer may take on grid `g`: the first cell (row-major)
      where its own mark wins; failing that, the first cell where a human
      mark would win (the computer blocks it); failing that, any empty cell
      (the source picks one at random). */
  ghost predicate AiChoice(g: Grid, len: int, ax: int, ay: int)
    requires Valid(g)
  {
    match FirstWinning(g, len, AI)
    case Some(c) => c == (ax, ay)
    case None =>
      match FirstWinning(g, len, Human)
      case Some(c) => c == (ax, ay)
      case None => InBounds(g, ax, ay) && At(g, ax, ay) == Empty
  }

  /** The effect of a move at cell (x, y), once the game is being played:
      nothing for a cell off the board or taken; in HVH the current player's
      mark, the end-of-game check and, if the game goes on, the other
      player's turn; in HVA a human mark, the end-of-game check and, if the
      game goes on, one computer mark and its end-of-game check. */
  ghost predicate PlayerTurn(mode: GameMode, len: int, s: State, x: int, y: int, t: State)
    requires Valid(s.board)
  {
    if !InBounds(s.board, x, y) || At(s.board, x, y) != Empty then t == s
    else if mode == HVH then
      var placed := s.(board := Place(s.board, x, y, s.currentPlayer));
      var r := EndGame(placed, len, s.currentPlayer, WinStateOf(s.currentPlayer));
      t == if r.0 then r.1 else r.1.(currentPlayer := Other(s.currentPlayer))
    else
      var placed := s.(board := Place(s.board, x, y, Human));
      var r := EndGame(placed, len, Human, WinHuman);
      if r.0 then t == r.1
      else exists ax, ay ::
        && AiChoice(placed.board, len, ax, ay)
        && InBounds(placed.board, ax, ay)
        && t == EndGame(placed.(board := Place(placed.board, ax, ay, AI)), len, AI, WinAI).1
  }

  /** A click on cell (x, y): a move only while the game is being played. */
  ghost predicate Click(mode: GameMode, len: int, s: State, x: int, y: int, t: State)
    requires Valid(s.board)
  {
    if s.gameWork then PlayerTurn(mode, len, s, x, y, t) else t == s
  }

  /** The state agrees with the board: while the game is played nobody has
      a run and some cell is empty; a recorded winner is the one player
      with a run; a draw is a full board without any run; only `Game` goes
      with `gameWork`. */
  ghost predicate Consistent(s: State, len: int)
    requires Valid(s.board)
  {
    && s.currentPlayer != Empty
    && (s.gameWork <==> s.gameState == Game)
    && (s.gameState == Game ==>
          !HasWin(s.board, len, Human) && !HasWin(s.board, len, AI) && !Full(s.board))
    && (s.gameState == WinHuman ==> HasWin(s.board, len, Human) && !HasWin(s.board, len, AI))
    && (s.gameState == WinAI ==> HasWin(s.board, len, AI) && !HasWin(s.board, len, Human))
    && (s.gameState == Draw ==>
          Full(s.board) && !HasWin(s.board, len, Human) && !HasWin(s.board, len, AI))
  }

  /** The state of a new game. */
  ghost function NewGame(w: nat, h: nat): State {
    State(EmptyGrid(w, h), true, Game, Human)
  }

  // ---------------------------------------------------------------------
  // Lemmas

  /** A new game on a board with at least one cell and a run length of at
      least one is consistent. */
  lemma NewGameConsistent(w: nat, h: nat, len: int)
    requires 0 < w && 0 < h && 1 <= len
    ensures Valid(NewGame(w, h).board) && Consistent(NewGame(w, h), len)
  {
    EmptyGridNoWin(w, h, len, Human);
    EmptyGridNoWin(w, h, len, AI);
  }

  /** The computer always takes an empty cell of the board. */
  lemma AiChoiceIsEmpty(g: Grid, len: int, ax: int, ay: int)
    requires Valid(g) && AiChoice(g, len, ax, ay)
    ensures InBounds(g, ax, ay) && At(g, ax, ay) == Empty
  {
    FirstWinningCorrect(g, len, AI);
    FirstWinningCorrect(g, len, Human);
  }

  /** Whenever some cell is empty, the computer has a cell to take. */
  lemma AiChoiceExists(g: Grid, len: int)
    requires Valid(g) && !Full(g)
    ensures exists ax, ay :: AiChoice(g, len, ax, ay)
  {
    var ex, ey :| InBounds(g, ex, ey) && At(g, ex, ey) == Empty;
    match FirstWinning(g, len, AI)
    case Some(c) =>
      assert AiChoice(g, len, c.0, c.1);
    case None =>
      match FirstWinning(g, len, Human)
      case Some(c) =>
        assert AiChoice(g, len, c.0, c.1);
      case None =>
        assert AiChoice(g, len, ex, ey);
  }

  /** Win-now comes first: when some empty cell completes a computer run,
      the computer takes the first such cell and has a run afterwards. */
  lemma AiTakesWin(g: Grid, len: int, ax: int, ay: int, wx: int, wy: int)
    requires Valid(g) && AiChoice(g, len, ax, ay)
    requires InBounds(g, wx, wy) && WinningCell(g, len, AI, wx, wy)
    ensures WinningCell(g, len, AI, ax, ay)
    ensures HasWin(Place(g, ax, ay, AI), len, AI)
    ensures forall x, y :: InBounds(g, x, y) && RowMajorBefore(x, y, ax, ay) ==> !WinningCell(g, len, AI, x, y)
  {
    FirstWinningCorrect(g, len, AI);
  }

  /** Blocking comes second: when no cell wins for the computer but some
      empty cell would complete a human run, the computer takes the first
      such cell. */
  lemma AiBlocks(g: Grid, len: int, ax: int, ay: int, hx: int, hy: int)
    requires Valid(g) && AiChoice(g, len, ax, ay)
    requires forall x, y :: InBounds(g, x, y) ==> !WinningCell(g, len, AI, x, y)
    requires InBounds(g, hx, hy) && WinningCell(g, len, Human, hx, hy)
    ensures WinningCell(g, len, Human, ax, ay)
    ensures forall x, y :: InBounds(g, x, y) && RowMajorBefore(x, y, ax, ay) ==> !WinningCell(g, len, Human, x, y)
  {
    FirstWinningCorrect(g, len, AI);
    FirstWinningCorrect(g, len, Human);
  }

  /** Every click keeps the state consistent with the board. In particular a
      game never returns to `Game` once it is decided, and a full board with
      no run for either player is recorded as a draw. */
  lemma {:induction false} ClickKeepsConsistent(mode: GameMode, len: int, s: State, x: int, y: int, t: State)
    requires Valid(s.board) && Consistent(s, len) && Click(mode, len, s, x, y, t)
    ensures Valid(t.board) && Consistent(t, len)
    ensures s.gameState != Game ==> t == s
  {
    if !s.gameWork || !InBounds(s.board, x, y) || At(s.board, x, y) != Empty {
      return;
    }
    var d := if mode == HVH then s.currentPlayer else Human;
    var placed := s.(board := Place(s.board, x, y, d));
    PlaceKeepsOtherWin(s.board, x, y, d, len, Other(d));
    var r := EndGame(placed, len, d, WinStateOf(d));
    if r.0 {
      assert t == r.1;
    } else if mode == HVH {
      assert t == r.1.(currentPlayer := Other(s.currentPlayer));
    } else {
      var ax, ay :| AiChoice(placed.board, len, ax, ay) && InBounds(placed.board, ax, ay)
        && t == EndGame(placed.(board := Place(placed.board, ax, ay, AI)), len, AI, WinAI).1;
      AiChoiceIsEmpty(placed.board, len, ax, ay);
      PlaceKeepsOtherWin(placed.board, ax, ay, AI, len, Human);
    }
  }

  /** Once a game is decided, no click changes anything. */
  lemma NoMoveAfterEnd(mode: GameMode, len: int, s: State, x: int, y: int, t: State)
    requires Valid(s.board) && Consistent(s, len) && s.gameState != Game
    requires Click(mode, len, s, x, y, t)
    ensures t == s
  {
  }

  /** In HVH mode an accepted move puts the current player's mark on the
      clicked cell and nothing else, and the turn passes to the other
      player exactly when the game goes on. */
  lemma HvhMove(len: int, s: State, x: int, y: int, t: State)
    requires Valid(s.board) && Click(HVH, len, s, x, y, t)
    requires s.gameWork && InBounds(s.board, x, y) && At(s.board, x, y) == Empty
    ensures t.board == Place(s.board, x, y, s.currentPlayer)
    ensures t.currentPlayer == if t.gameWork then Other(s.currentPlayer) else s.currentPlayer
  {
  }

  /** In HVA mode an accepted move that does not end the game is followed by
      exactly one computer mark, on a cell that was empty and is not the
      clicked one, and it is a cell `AiChoice` allows. */
  lemma HvaReply(len: int, s: State, x: int, y: int, t: State)
    requires Valid(s.board) && Click(HVA, len, s, x, y, t)
    requires s.gameWork && InBounds(s.board, x, y) && At(s.board, x, y) == Empty
    requires !EndGame(s.(board := Place(s.board, x, y, Human)), len, Human, WinHuman).0
    ensures exists ax, ay ::
      && AiChoice(Place(s.board, x, y, Human), len, ax, ay)
      && InBounds(s.board, ax, ay) && (ax != x || ay != y) && At(s.board, ax, ay) == Empty
      && t.board == Place(Place(s.board, x, y, Human), ax, ay, AI)
  {
    var b1 := Place(s.board, x, y, Human);
    var ax, ay :| AiChoice(b1, len, ax, ay) && InBounds(b1, ax, ay)
      && t == EndGame(s.(board := Place(b1, ax, ay, AI)), len, AI, WinAI).1;
    AiChoiceIsEmpty(b1, len, ax, ay);
  }

  /** A consistent state with a full board and no run for either player is a draw. */
  lemma FullWithoutWinnerIsDraw(s: State, len: int)
    requires Valid(s.board) && Consistent(s, len)
    requires Full(s.board) && !HasWin(s.board, len, Human) && !HasWin(s.board, len, AI)
    ensures s.gameState == Draw && !s.gameWork
  {
  }
}

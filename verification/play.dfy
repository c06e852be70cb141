/** The move-application rules of the game: a human click (`handleClick`)
    and the computer's reply (the body of the delayed effect), as pure steps
    on the game state. Timers, rendering and the mode/restart buttons are
    outside this module. */
module Play {
  import opened Wrappers
  import opened Board
  import opened Search

  /** The state cells of the game component. */
  datatype Game = Game(board: Board, xTurn: bool, over: bool, twoPlayer: bool)

  /** `startGame(mode)`: an empty grid, 'X' to move, the game running. */
  function Start(twoPlayer: bool): Game {
    Game(EmptyBoard, true, false, twoPlayer)
  }

  /** The mark a click writes: 'X' on X's turn, 'O' otherwise. */
  function Mover(g: Game): Mark {
    if g.xTurn then X else O
  }

  function CountMark(b: Board, m: Mark): nat {
    Count(b, Filled(m))
  }

  /** `over` records exactly whether the grid has a winner or is full. */
  predicate Settled(g: Game) {
    g.over <==> Terminal(g.board)
  }

  /** While play goes on, 'X' has moved once more than 'O' exactly when it is
      'O''s turn, and as often as 'O' when it is 'X''s turn. */
  predicate Balanced(g: Game) {
    !g.over ==> CountMark(g.board, X) == CountMark(g.board, O) + (if g.xTurn then 0 else 1)
  }

  predicate Valid(g: Game) {
    Settled(g) && Balanced(g)
  }

  /** `handleClick(index)` as written: a click on a taken cell or after the
      game is over is ignored; otherwise the mover's mark is written at
      `index`, the game ends on a winner or a full grid, and else the turn
      passes (to the other player in two-player mode, to the computer in
      single-player mode). */
  function Click(g: Game, index: Index): (g': Game)
    ensures g'.twoPlayer == g.twoPlayer
    ensures g' == g <==> g.board[index] != Empty || g.over
    ensures g.board[index] == Empty && !g.over ==>
      && g'.board[index] == Filled(Mover(g))
      && (forall j :: 0 <= j < 9 && j != index ==> g'.board[j] == g.board[j])
      && (g'.over <==> Terminal(g'.board))
      && (g'.over ==> g'.xTurn == g.xTurn)
      && (!g'.over ==> g'.xTurn == (g.twoPlayer && !g.xTurn))
  {
    if g.board[index] != Empty || g.over then g
    else
      var nb := g.board[index := Filled(Mover(g))];
      assert nb[index] != g.board[index];
      if Terminal(nb) then g.(board := nb, over := true)
      else if g.twoPlayer then g.(board := nb, xTurn := !g.xTurn)
      else g.(board := nb, xTurn := false)
  }

  /** The computer is due to move: single-player mode, 'O''s turn, game on
      and no winner on the grid. */
  predicate AiToMove(g: Game) {
    !g.twoPlayer && !g.xTurn && !g.over && Winner(g.board).None?
  }

  /** The delayed effect of the game component: when the computer is due,
      write 'O' on the searched move; the game ends on a winner or a full
      grid, and otherwise it becomes 'X''s turn. No move leaves the state
      alone. */
  function AiStep(g: Game): (g': Game)
    ensures g'.twoPlayer == g.twoPlayer
    ensures g' == g <==> !AiToMove(g) || Full(g.board)
    ensures AiToMove(g) && !Full(g.board) ==>
      var m := GetBestMove(g.board).value;
      && g.board[m] == Empty
      && g'.board[m] == Filled(O)
      && (forall j :: 0 <= j < 9 && j != m ==> g'.board[j] == g.board[j])
      && (g'.over <==> Terminal(g'.board))
      && (g'.over ==> !g'.xTurn)
      && (!g'.over ==> g'.xTurn)
  {
    if !AiToMove(g) then g
    else match GetBestMove(g.board)
      case None => g
      case Some(m) =>
        var nb := g.board[m := Filled(O)];
        assert nb[m] != g.board[m];
        if Terminal(nb) then g.(board := nb, over := true)
        else g.(board := nb, xTurn := true)
  }

  /** Writing a mark on an empty cell adds one to that mark's count and
      leaves the other mark's count alone. */
  lemma PlaceCounts(b: Board, i: Index, m: Mark)
    requires b[i] == Empty
    ensures CountMark(b[i := Filled(m)], m) == CountMark(b, m) + 1
    ensures CountMark(b[i := Filled(m)], Opponent(m)) == CountMark(b, Opponent(m))
  {
    CountUpdate(b, i, Filled(m), Filled(m));
    CountUpdate(b, i, Filled(m), Filled(Opponent(m)));
  }

  /** Both modes start in a valid state. */
  lemma StartIsValid(twoPlayer: bool)
    ensures Valid(Start(twoPlayer))
  {
    assert EmptyBoard[0] == Empty;
    assert !Complete(EmptyBoard, 0);
  }

  /** A click keeps the state valid in two-player mode, and in
      single-player mode while it is 'X''s turn. */
  lemma ClickPreservesValid(g: Game, index: Index)
    requires Valid(g) && (g.twoPlayer || g.xTurn)
    ensures Valid(Click(g, index))
  {
    if g.board[index] == Empty && !g.over {
      PlaceCounts(g.board, index, Mover(g));
    }
  }

  /** A click that ends the game can only make the clicking side the winner. */
  lemma ClickWinnerIsMover(g: Game, index: Index)
    requires Valid(g) && !g.over && g.board[index] == Empty
    ensures Winner(Click(g, index).board) != Some(Opponent(Mover(g)))
  {
    MoveWinsOnlyForMover(g.board, index, Mover(g));
  }

  /** The computer's move keeps the state valid, and it never completes a
      line for 'X'. */
  lemma AiStepPreservesValid(g: Game)
    requires Valid(g)
    ensures Valid(AiStep(g))
    ensures AiToMove(g) ==> Winner(AiStep(g).board) != Some(X)
  {
    if AiToMove(g) && !Full(g.board) {
      var m := GetBestMove(g.board).value;
      PlaceCounts(g.board, m, O);
      MoveWinsOnlyForMover(g.board, m, O);
    }
  }

  /** In single-player mode nothing in `handleClick` checks whose turn it is:
      a click while the computer's move is pending writes 'O' for the human
      player, and unless that ends the game it stays the computer's turn with
      the mark counts no longer matching the turn. */
  lemma ClickOnComputersTurnBreaksBalance(g: Game, index: Index)
    requires Valid(g) && !g.twoPlayer && !g.xTurn && !g.over && g.board[index] == Empty
    ensures Click(g, index).board[index] == Filled(O)
    ensures !Click(g, index).over ==> AiToMove(Click(g, index)) && !Valid(Click(g, index))
  {
    PlaceCounts(g.board, index, O);
  }

  /** The grid after 'X' has taken the centre. */
  const CentreTaken: Board := [Empty, Empty, Empty, Empty, Filled(X), Empty, Empty, Empty, Empty]

  /** Neither the centre-only grid nor the one with 'O' added in the corner
      is decided. */
  lemma CentreOpeningUndecided()
    ensures CentreTaken == EmptyBoard[4 := Filled(X)]
    ensures !Terminal(CentreTaken)
    ensures !Terminal(CentreTaken[0 := Filled(O)])
  {
    assert CentreTaken[0] == Empty && CentreTaken[0 := Filled(O)][1] == Empty;
  }

  /** The situation is reached in the first move of a single-player game: the
      human takes the centre and clicks a corner before the computer replies. */
  lemma ComputersTurnClickIsReachable()
    ensures var g := Click(Start(false), 4);
      && Valid(g) && AiToMove(g)
      && Click(g, 0).board[0] == Filled(O)
      && !Valid(Click(g, 0))
  {
    StartIsValid(false);
    ClickPreservesValid(Start(false), 4);
    CentreOpeningUndecided();
    var g := Click(Start(false), 4);
    assert g.board == CentreTaken;
    ClickOnComputersTurnBreaksBalance(g, 0);
    assert Click(g, 0).board == CentreTaken[0 := Filled(O)];
  }

  /** `handleClick` with the missing turn check: in single-player mode a
      click on the computer's turn is ignored like a click after game over. */
  function ClickFixed(g: Game, index: Index): (g': Game)
    ensures !g.twoPlayer && !g.xTurn ==> g' == g
    ensures !g.twoPlayer ==> forall j :: 0 <= j < 9 && g'.board[j] != g.board[j] ==> g'.board[j] == Filled(X)
    ensures g.twoPlayer || g.xTurn ==> g' == Click(g, index)
  {
    if !g.twoPlayer && !g.xTurn then g else Click(g, index)
  }

  /** With the turn check, every click keeps the state valid. */
  lemma ClickFixedPreservesValid(g: Game, index: Index)
    requires Valid(g)
    ensures Valid(ClickFixed(g, index))
  {
    if g.twoPlayer || g.xTurn {
      ClickPreservesValid(g, index);
    }
  }

  /** One step of play in either mode: a (turn-checked) click or the
      computer's reply. */
  predicate Step(g: Game, g': Game) {
    (exists i: Index :: g' == ClickFixed(g, i)) || g' == AiStep(g)
  }

  /** Every step of play keeps the state valid. */
  lemma StepPreservesValid(g: Game, g': Game)
    requires Valid(g) && Step(g, g')
    ensures Valid(g')
  {
    if g' == AiStep(g) {
      AiStepPreservesValid(g);
    } else {
      var i: Index :| g' == ClickFixed(g, i);
      ClickFixedPreservesValid(g, i);
    }
  }
}

/** Consequences of the search contracts for positions the game is known to
    meet: taking an immediate win, blocking the opponent's open line, and
    the drawn full grid. None of them unfolds the game tree: each follows
    from the score bounds and the minimax equations. */
module Scenarios {
  import opened Wrappers
  import opened Board
  import opened Search

  /** A root score of 10 is reached exactly by a move after which
      `calculateWinner` reports 'O'; any other move scores at most 9. On a
      grid that already holds an 'X' line the scan reports 'X' first, so
      completing an 'O' line there does not score 10. */
  lemma RootScoreTenIffImmediateWin(b: Board, j: Index)
    requires b[j] == Empty
    ensures RootScore(b, j) == 10 <==> Winner(b[j := Filled(O)]) == Some(O)
  {
    FillDecreasesEmpty(b, j, O);
    MinimaxEquations(b[j := Filled(O)], 0, false);
  }

  /** After 'O' plays empty cell `j`, `calculateWinner` reports 'O'. */
  predicate WinsAt(b: Board, j: Index) {
    b[j] == Empty && Winner(b[j := Filled(O)]) == Some(O)
  }

  /** When some empty cell makes `calculateWinner` report 'O', the engine
      plays the lowest such cell. */
  lemma TakesFirstImmediateWin(b: Board, i: Index)
    requires WinsAt(b, i)
    requires forall j: Index :: j < i ==> !WinsAt(b, j)
    ensures GetBestMove(b) == Some(i)
  {
    var r := GetBestMove(b);
    assert !Full(b);
    var m := r.value;
    RootScoreTenIffImmediateWin(b, i);
    RootScoreTenIffImmediateWin(b, m);
    assert RootScore(b, i) <= RootScore(b, m);
    assert WinsAt(b, m);
    if m > i {
      assert false;
    }
    if m < i {
      assert false;
    }
  }

  /** The grid `O O . / . X . / . . .`: 'O' completes the top row at cell 2. */
  lemma CompletesTopRow()
    ensures GetBestMove([Filled(O), Filled(O), Empty, Empty, Filled(X), Empty, Empty, Empty, Empty]) == Some(2)
  {
    var b: Board := [Filled(O), Filled(O), Empty, Empty, Filled(X), Empty, Empty, Empty, Empty];
    assert Complete(b[2 := Filled(O)], 0);
    assert WinsAt(b, 2);
    forall j: Index | j < 2
      ensures !WinsAt(b, j)
    {
      assert b[j] != Empty;
    }
    TakesFirstImmediateWin(b, 2);
  }

  /** 'X' completes a line by playing empty cell `k` of `c`. */
  predicate ReplyWins(c: Board, k: Index) {
    c[k] == Empty && Winner(c[k := Filled(X)]) == Some(X)
  }

  /** No reply by 'X' on `c` wins at once. */
  predicate NoWinningReply(c: Board) {
    forall k: Index :: !ReplyWins(c, k)
  }

  /** If the reply `k` by 'X' wins at once, the root move scores at most -9. */
  lemma LosingReplyBoundsRoot(b: Board, j: Index, k: Index)
    requires b[j] == Empty && j != k && b[k] == Empty
    requires !Terminal(b[j := Filled(O)])
    requires Winner(b[j := Filled(O)][k := Filled(X)]) == Some(X)
    ensures RootScore(b, j) <= -9
  {
    var c := b[j := Filled(O)];
    MinimaxEquations(c, 0, false);
    MinimaxEquations(c[k := Filled(X)], 1, true);
    assert Child(c, 0, false, k) == -9;
  }

  /** If 'X' has no winning reply after 'O' plays `j`, the root move scores
      at least -8: every reply is answered at depth 2 or later. */
  lemma NoLosingReplyBoundsRoot(b: Board, j: Index)
    requires b[j] == Empty && !Terminal(b[j := Filled(O)])
    requires NoWinningReply(b[j := Filled(O)])
    ensures RootScore(b, j) >= -8
  {
    var c := b[j := Filled(O)];
    FillDecreasesEmpty(b, j, O);
    MinimaxEquations(c, 0, false);
    var k :| 0 <= k < 9 && c[k] == Empty && Minimax(c, 0, false) == Child(c, 0, false, k);
    assert !ReplyWins(c, k);
    var d := c[k := Filled(X)];
    FillDecreasesEmpty(c, k, X);
    MinimaxEquations(d, 1, true);
    if !Terminal(d) {
      var l :| 0 <= l < 9 && d[l] == Empty && Minimax(d, 1, true) == Child(d, 1, true, l);
      FillDecreasesEmpty(d, l, O);
    }
  }

  /** The grid `X X . / . O . / . . O`, where 'X' threatens the top row. */
  const BlockGrid: Board := [Filled(X), Filled(X), Empty, Empty, Filled(O), Empty, Empty, Empty, Filled(O)]

  /** On the blocking grid, 'O' on cell 2 leaves 'X' no winning reply. */
  lemma BlockKeepsRootAboveMinusNine()
    ensures RootScore(BlockGrid, 2) >= -8
  {
    var c := BlockGrid[2 := Filled(O)];
    assert Winner(c).None?;
    assert c[3] == Empty;
    forall k: Index
      ensures !ReplyWins(c, k)
    {
      if c[k] == Empty {
        assert k == 3 || k == 5 || k == 6 || k == 7;
      }
    }
    NoLosingReplyBoundsRoot(BlockGrid, 2);
  }

  /** On the blocking grid, any other empty cell lets 'X' win on cell 2. */
  lemma OtherMovesLose(j: Index)
    requires BlockGrid[j] == Empty && j != 2
    ensures RootScore(BlockGrid, j) <= -9
  {
    var c := BlockGrid[j := Filled(O)];
    assert j == 3 || j == 5 || j == 6 || j == 7;
    assert Winner(c).None?;
    assert c[2] == Empty;
    assert Complete(c[2 := Filled(X)], 0);
    LosingReplyBoundsRoot(BlockGrid, j, 2);
  }

  /** 'O' must block the top row at cell 2. */
  lemma BlocksTopRow()
    ensures GetBestMove(BlockGrid) == Some(2)
  {
    BlockKeepsRootAboveMinusNine();
    var r := GetBestMove(BlockGrid);
    assert BlockGrid[2] == Empty;
    if r.value != 2 {
      OtherMovesLose(r.value);
    }
  }

  /** The drawn grid `X O X / X O O / O X X`: no winner, full, and the
      engine reports no move. */
  lemma DrawnGridHasNoMove()
    ensures var b: Board := [Filled(X), Filled(O), Filled(X), Filled(X), Filled(O), Filled(O), Filled(O), Filled(X), Filled(X)];
      Winner(b).None? && Full(b) && GetBestMove(b).None?
  {
  }
}

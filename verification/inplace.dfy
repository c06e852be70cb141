/** The search as src/App.jsx runs it: one shared nine-cell array, each
    trial mark written into it, searched below, then erased. These methods
    are proved to leave the array as they found it and to compute the same
    scores and move as the pure definitions in module Search. */
module InPlace {
  import opened Wrappers
  import opened Board
  import opened Search

  /** `minimax(board, depth, isMaximizing)` on the shared array. */
  method MinimaxInPlace(a: array<Cell>, depth: nat, maximizing: bool) returns (score: int)
    requires a.Length == 9
    modifies a
    ensures a[..] == old(a[..])
    ensures score == Minimax(old(a[..]), depth, maximizing)
    decreases CountEmpty(a[..])
  {
    var w := Winner(a[..]);
    if w == Some(O) {
      return 10 - depth;
    }
    if w == Some(X) {
      return depth - 10;
    }
    if Full(a[..]) {
      return 0;
    }
    ghost var b: Board := a[..];
    var best: Option<int> := None;
    var idx := 0;
    while idx < 9
      invariant 0 <= idx <= 9
      invariant a[..] == b
      invariant BestFrom(b, depth, maximizing, idx, best) == BestFrom(b, depth, maximizing, 0, None)
    {
      if a[idx] == Empty {
        var m := SideMark(maximizing);
        a[idx] := Filled(m);
        assert a[..] == b[idx := Filled(m)];
        FillDecreasesEmpty(b, idx, m);
        var s := MinimaxInPlace(a, depth + 1, !maximizing);
        a[idx] := Empty;
        assert a[..] == b;
        best := Some(if best.None? then s else Pick(maximizing, best.value, s));
      }
      idx := idx + 1;
    }
    score := best.value;
  }

  /** `getBestMove(board)` on the caller's own grid array, which it
      writes trial marks into and erases again. */
  method GetBestMoveInPlace(a: array<Cell>) returns (move: Option<Index>)
    requires a.Length == 9
    modifies a
    ensures a[..] == old(a[..])
    ensures move == GetBestMove(old(a[..]))
  {
    ghost var b: Board := a[..];
    var best: Option<Candidate> := None;
    var idx := 0;
    while idx < 9
      invariant 0 <= idx <= 9
      invariant a[..] == b
      invariant BestSoFar(b, idx, best)
      invariant ScanMoves(b, idx, best) == ScanMoves(b, 0, None)
    {
      if a[idx] == Empty {
        a[idx] := Filled(O);
        var score := MinimaxInPlace(a, 0, false);
        a[idx] := Empty;
        assert a[..] == b;
        assert score == RootScore(b, idx);
        if best.None? || score > best.value.score {
          best := Some(Candidate(idx, score));
        }
      }
      idx := idx + 1;
    }
    move := if best.None? then None else Some(best.value.move);
  }
}

/** The decision engine of src/App.jsx: depth-weighted minimax (`minimax`)
    and the root move choice (`getBestMove`), as pure functions over the grid.
    'O' is the maximizing side and 'X' the minimizing side. The running best
    value starts as None, which stands for the search's `-Infinity` /
    `Infinity` sentinel. */
module Search {
  import opened Wrappers
  import opened Board

  /** The mark the side to move places: 'O' when maximizing, 'X' otherwise. */
  function SideMark(maximizing: bool): Mark {
    if maximizing then O else X
  }

  /** `Math.max` for the maximizer, `Math.min` for the minimizer. */
  function Pick(maximizing: bool, x: int, y: int): int {
    if maximizing then (if x >= y then x else y) else (if x <= y then x else y)
  }

  /** `x` is at least as good as `y` for the side to move. */
  predicate AtLeastAsGood(maximizing: bool, x: int, y: int) {
    if maximizing then x >= y else x <= y
  }

  /** Score of a node. Terminal nodes: an 'O' win is `10 - depth`, an 'X' win
      is `depth - 10`, a full grid is 0, the win checks coming first.
      Otherwise the extremum over one child per empty cell. */
  function Minimax(b: Board, depth: nat, maximizing: bool): (r: int)
    decreases CountEmpty(b), 1, 0
    ensures depth + CountEmpty(b) <= 9 ==> depth - 10 <= r <= 10 - depth
    ensures depth + CountEmpty(b) <= 9 && Winner(b).None? ==> depth - 9 <= r <= 9 - depth
  {
    var w := Winner(b);
    if w == Some(O) then 10 - depth
    else if w == Some(X) then depth - 10
    else if Full(b) then 0
    else
      var best := BestFrom(b, depth, maximizing, 0, None);
      best.value
  }

  /** The score of the child that fills empty cell `j` with the mover's mark. */
  function Child(b: Board, depth: nat, maximizing: bool, j: Index): (r: int)
    requires b[j] == Empty
    decreases CountEmpty(b), 0, 0
    ensures depth + CountEmpty(b) <= 9 ==> depth - 9 <= r <= 9 - depth
  {
    FillDecreasesEmpty(b, j, SideMark(maximizing));
    Minimax(b[j := Filled(SideMark(maximizing))], depth + 1, !maximizing)
  }

  /** The `forEach` over cells `i..8` of a non-terminal node: `acc` is the
      running best, folded with each empty cell's child score. */
  function BestFrom(b: Board, depth: nat, maximizing: bool, i: nat, acc: Option<int>): (r: Option<int>)
    requires i <= 9
    decreases CountEmpty(b), 0, 9 - i + 1
    ensures r.Some? <==> acc.Some? || exists j :: i <= j < 9 && b[j] == Empty
    ensures depth + CountEmpty(b) <= 9 && (acc.Some? ==> depth - 9 <= acc.value <= 9 - depth) ==>
      (r.Some? ==> depth - 9 <= r.value <= 9 - depth)
  {
    if i == 9 then acc
    else if b[i] != Empty then BestFrom(b, depth, maximizing, i + 1, acc)
    else
      var s := Child(b, depth, maximizing, i);
      var acc' := if acc.None? then s else Pick(maximizing, acc.value, s);
      BestFrom(b, depth, maximizing, i + 1, Some(acc'))
  }

  /** The fold over cells `i..8` yields the best of the accumulator and of
      every empty cell's child, and that best is attained. */
  lemma {:induction false} BestFromIsExtremum(b: Board, depth: nat, maximizing: bool, i: nat, acc: Option<int>)
    requires i <= 9
    ensures var r := BestFrom(b, depth, maximizing, i, acc);
      && (r.Some? ==>
            (acc.Some? && r.value == acc.value) ||
            exists j :: i <= j < 9 && b[j] == Empty && r.value == Child(b, depth, maximizing, j))
      && (acc.Some? ==> r.Some? && AtLeastAsGood(maximizing, r.value, acc.value))
      && (forall j :: i <= j < 9 && b[j] == Empty ==>
            r.Some? && AtLeastAsGood(maximizing, r.value, Child(b, depth, maximizing, j)))
    decreases 9 - i
  {
    if i < 9 {
      if b[i] != Empty {
        BestFromIsExtremum(b, depth, maximizing, i + 1, acc);
      } else {
        var s := Child(b, depth, maximizing, i);
        var acc' := if acc.None? then s else Pick(maximizing, acc.value, s);
        BestFromIsExtremum(b, depth, maximizing, i + 1, Some(acc'));
      }
    }
  }

  /** The minimax equations: terminal scores with wins before the full-grid
      check, and at any other node the maximum (for 'O') or minimum (for 'X')
      of the children, ranging over exactly the empty cells. */
  lemma MinimaxEquations(b: Board, depth: nat, maximizing: bool)
    ensures Winner(b) == Some(O) ==> Minimax(b, depth, maximizing) == 10 - depth
    ensures Winner(b) == Some(X) ==> Minimax(b, depth, maximizing) == depth - 10
    ensures Winner(b).None? && Full(b) ==> Minimax(b, depth, maximizing) == 0
    ensures !Terminal(b) ==>
      exists j :: 0 <= j < 9 && b[j] == Empty && Minimax(b, depth, maximizing) == Child(b, depth, maximizing, j)
    ensures !Terminal(b) ==>
      forall j :: 0 <= j < 9 && b[j] == Empty ==>
        AtLeastAsGood(maximizing, Minimax(b, depth, maximizing), Child(b, depth, maximizing, j))
  {
    BestFromIsExtremum(b, depth, maximizing, 0, None);
  }

  /** Score of playing 'O' on empty cell `j` at the root: `minimax(board, 0, false)`. */
  function RootScore(b: Board, j: Index): (r: int)
    requires b[j] == Empty
    ensures -10 <= r <= 10
  {
    FillDecreasesEmpty(b, j, O);
    Minimax(b[j := Filled(O)], 0, false)
  }

  /** The best root move found so far, with its score. */
  datatype Candidate = Candidate(move: Index, score: int)

  /** The state of `getBestMove`'s loop after cells `0..i-1`: no move when
      none of them is empty; otherwise an empty cell whose score is the
      maximum so far and beats every earlier cell strictly. */
  predicate BestSoFar(b: Board, i: nat, best: Option<Candidate>)
    requires i <= 9
  {
    match best
    case None => forall j :: 0 <= j < i ==> b[j] != Empty
    case Some(c) =>
      && c.move < i
      && b[c.move] == Empty
      && c.score == RootScore(b, c.move)
      && (forall j :: 0 <= j < i && b[j] == Empty ==> RootScore(b, j) <= c.score)
      && (forall j :: 0 <= j < c.move && b[j] == Empty ==> RootScore(b, j) < c.score)
  }

  /** The loop of `getBestMove` from cell `i` on: each empty cell is scored
      and replaces the candidate only when its score is strictly greater. */
  function ScanMoves(b: Board, i: nat, best: Option<Candidate>): (r: Option<Candidate>)
    requires i <= 9 && BestSoFar(b, i, best)
    decreases 9 - i
    ensures BestSoFar(b, 9, r)
  {
    if i == 9 then best
    else if b[i] != Empty then ScanMoves(b, i + 1, best)
    else
      var s := RootScore(b, i);
      if best.None? || s > best.value.score then ScanMoves(b, i + 1, Some(Candidate(i, s)))
      else ScanMoves(b, i + 1, best)
  }

  /** `getBestMove`: None exactly on a full grid; otherwise the lowest empty
      cell whose root score is maximal among the empty cells. */
  function GetBestMove(b: Board): (r: Option<Index>)
    ensures r.None? <==> Full(b)
    ensures r.Some? ==> b[r.value] == Empty
    ensures r.Some? ==> forall j :: 0 <= j < 9 && b[j] == Empty ==> RootScore(b, j) <= RootScore(b, r.value)
    ensures r.Some? ==> forall j :: 0 <= j < r.value && b[j] == Empty ==> RootScore(b, j) < RootScore(b, r.value)
  {
    match ScanMoves(b, 0, None)
    case None => None
    case Some(c) => Some(c.move)
  }
}

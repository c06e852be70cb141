/** The 3x3 grid of the game: cells, the eight winning lines and the
    outcome check `calculateWinner` of src/App.jsx. */
module Board {
  import opened Wrappers

  /** The two player symbols, 'X' and 'O'. */
  datatype Mark = X | O

  /** A cell is `null` (empty) or holds a mark. */
  datatype Cell = Empty | Filled(mark: Mark)

  /** A cell index, row-major: 0,1,2 / 3,4,5 / 6,7,8. */
  type Index = i: int | 0 <= i < 9

  /** The grid always holds exactly nine cells. */
  type Board = s: seq<Cell> | |s| == 9
    witness [Empty, Empty, Empty, Empty, Empty, Empty, Empty, Empty, Empty]

  const EmptyBoard: Board := [Empty, Empty, Empty, Empty, Empty, Empty, Empty, Empty, Empty]

  /** One of the eight index triples that wins when uniformly marked. */
  datatype Line = Line(a: Index, b: Index, c: Index)

  /** Rows, then columns, then the two diagonals, in the order the scan visits them. */
  const Lines: seq<Line> := [
    Line(0, 1, 2), Line(3, 4, 5), Line(6, 7, 8),
    Line(0, 3, 6), Line(1, 4, 7), Line(2, 5, 8),
    Line(0, 4, 8), Line(2, 4, 6)
  ]

  function Opponent(m: Mark): Mark {
    if m == X then O else X
  }

  /** Line `k` is complete: its first cell is non-empty and the other two equal it. */
  predicate Complete(b: Board, k: nat)
    requires k < |Lines|
  {
    var l := Lines[k];
    b[l.a] != Empty && b[l.a] == b[l.b] && b[l.a] == b[l.c]
  }

  /** The mark on the first cell of line `k`. */
  function LineOwner(b: Board, k: nat): Cell
    requires k < |Lines|
  {
    b[Lines[k].a]
  }

  /** Line `k` is complete and carries mark `m`. */
  predicate WonBy(b: Board, k: nat, m: Mark)
    requires k < |Lines|
  {
    Complete(b, k) && LineOwner(b, k) == Filled(m)
  }

  /** Every cell is taken (`board.every(Boolean)`). */
  predicate Full(b: Board) {
    forall i :: 0 <= i < 9 ==> b[i] != Empty
  }

  /** The scan of `calculateWinner` from line `k` on. */
  function WinnerFrom(b: Board, k: nat): Option<Mark>
    requires k <= |Lines|
    decreases |Lines| - k
  {
    if k == |Lines| then None
    else if Complete(b, k) then Some(LineOwner(b, k).mark)
    else WinnerFrom(b, k + 1)
  }

  /** `calculateWinner`: the scan over all eight lines. */
  function Winner(b: Board): Option<Mark> {
    WinnerFrom(b, 0)
  }

  /** The scan from line `k` returns None exactly when no line from `k` on is
      complete, and otherwise the mark of the first complete one. */
  lemma {:induction false} WinnerFromIsFirstComplete(b: Board, k: nat)
    requires k <= |Lines|
    decreases |Lines| - k
    ensures WinnerFrom(b, k).None? <==> forall j :: k <= j < |Lines| ==> !Complete(b, j)
    ensures WinnerFrom(b, k).Some? ==>
      exists j :: k <= j < |Lines| && WonBy(b, j, WinnerFrom(b, k).value) &&
        forall i :: k <= i < j ==> !Complete(b, i)
  {
    if k < |Lines| {
      if Complete(b, k) {
        assert WonBy(b, k, LineOwner(b, k).mark);
      } else {
        WinnerFromIsFirstComplete(b, k + 1);
      }
    }
  }

  /** `calculateWinner` returns null exactly when no line is complete, and
      otherwise the mark of the first complete line in scan order. */
  lemma WinnerIsFirstComplete(b: Board)
    ensures Winner(b).None? <==> forall j :: 0 <= j < |Lines| ==> !Complete(b, j)
    ensures Winner(b).Some? ==>
      exists j :: 0 <= j < |Lines| && WonBy(b, j, Winner(b).value) &&
        forall i :: 0 <= i < j ==> !Complete(b, i)
  {
    WinnerFromIsFirstComplete(b, 0);
  }

  /** A position where the game has stopped: a winner or a full grid. */
  predicate Terminal(b: Board) {
    Winner(b).Some? || Full(b)
  }

  /** Number of cells of `s` equal to `c`. */
  function Count(s: seq<Cell>, c: Cell): (n: nat)
    ensures n <= |s|
  {
    if |s| == 0 then 0 else (if s[0] == c then 1 else 0) + Count(s[1..], c)
  }

  function CountEmpty(b: Board): nat {
    Count(b, Empty)
  }

  /** Writing `c` at `i` moves one unit of count from the old cell's value to `c`. */
  lemma {:induction false} CountUpdate(s: seq<Cell>, i: nat, c: Cell, x: Cell)
    requires i < |s|
    ensures Count(s[i := c], x) ==
      Count(s, x) - (if s[i] == x then 1 else 0) + (if c == x then 1 else 0)
  {
    if i == 0 {
      assert s[i := c][1..] == s[1..];
    } else {
      assert s[i := c][1..] == s[1..][i - 1 := c];
      CountUpdate(s[1..], i - 1, c, x);
    }
  }

  /** Filling an empty cell removes exactly one empty cell. */
  lemma FillDecreasesEmpty(b: Board, i: Index, m: Mark)
    requires b[i] == Empty
    ensures CountEmpty(b[i := Filled(m)]) == CountEmpty(b) - 1
  {
    CountUpdate(b, i, Filled(m), Empty);
  }

  /** Placing `m` on an empty cell of an undecided board can only produce a
      win for `m`: every line complete afterwards passes through the new cell. */
  lemma {:induction false} MoveWinsOnlyForMover(b: Board, i: Index, m: Mark)
    requires Winner(b).None? && b[i] == Empty
    ensures Winner(b[i := Filled(m)]) != Some(Opponent(m))
  {
    var nb := b[i := Filled(m)];
    WinnerIsFirstComplete(b);
    WinnerIsFirstComplete(nb);
    if Winner(nb) == Some(Opponent(m)) {
      var j :| 0 <= j < |Lines| && WonBy(nb, j, Opponent(m)) &&
        forall k :: 0 <= k < j ==> !Complete(nb, k);
      var l := Lines[j];
      assert l.a != i && l.b != i && l.c != i;
      assert Complete(b, j);
      assert false;
    }
  }
}

# Tic-tac-toe decision engine in Dafny

This project models the game logic of a React tic-tac-toe app (`src/App.jsx`) and proves properties of it:

- the outcome check `calculateWinner`;
- the depth-weighted `minimax` search, with 'O' as the maximizer and 'X' as the minimizer;
- the root move choice `getBestMove`;
- the two state transitions of the game: a human click (`handleClick`) and the computer's delayed reply.

The grid is a nine-element `seq<Cell>` in row-major order. `null` is modelled as `Empty`.

Modules:

- `Wrappers`: `Option`. It stands for `null`/`undefined` results. It also stands for the search's `-Infinity`/`Infinity` starting values.
- `Board`: marks, cells, the eight lines in scan order, `Winner` (`calculateWinner`), `Full` (`board.every(Boolean)`) and cell counting.
- `Search`: the pure search.
  - `Minimax`, `Child` and `BestFrom` are mutually recursive. `BestFrom` is the `forEach` fold with a running best. Termination is on the number of empty cells.
  - `RootScore` and `ScanMoves` model `getBestMove`'s loop, with its strict `>` comparison. `GetBestMove` wraps them.
- `InPlace`: the search as the source runs it, on one shared array. Each trial mark is written, searched below and erased. These methods are proved to restore the array and to agree with the pure functions.
- `Scenarios`: consequences of the search contracts for concrete positions. These are the immediate win, the forced block and the drawn full grid. None of them unfolds the game tree.
- `Play`: the game state `(board, xTurn, over, twoPlayer)`. `Click` models `handleClick`. `AiStep` models the effect body that applies the computer's move. The module also proves the invariant these steps keep, and the turn-check defect under "## Findings".

Facts about the source that shape the model:

- `getBestMove` takes no side argument and always searches for 'O' (src/App.jsx:149).
- On a full grid `getBestMove` returns `undefined` (src/App.jsx:146, 158), modelled as `None`. The grid's length is never checked; here it is fixed by the `Board` type.
- 'O' is the maximizer and 'X' the minimizer (src/App.jsx:163-164, 167-188).

## Model

| member | source | states |
|---|---|---|
| Board.WinnerIsFirstComplete | src/App.jsx:130-142 | `calculateWinner` is null exactly when no line has three equal non-empty cells. Otherwise it returns mark `m` only if some line is complete with `m` and no earlier line in the fixed scan order is complete. |
| Board.WinnerFromIsFirstComplete | src/App.jsx:136-141 | The scan from any line position onward finds the first complete line at or after that position, or reports none exactly when there is none. |
| Board.MoveWinsOnlyForMover | src/App.jsx:136-139 | Suppose the grid has no winner and a mark is placed on an empty cell. Then the scan can only report that mark, never its opponent. |
| Board.FillDecreasesEmpty | src/App.jsx:171-173 | Writing a mark on an empty cell removes exactly one empty cell. This is the measure on which the recursion terminates. |
| Search.Minimax | src/App.jsx:161-190 | When depth plus the number of empty cells is at most 9, the score lies in `[depth-10, 10-depth]`. With no winner on the grid it lies in `[depth-9, 9-depth]`, so the root's children score within `[-10, 10]`. |
| Search.Child | src/App.jsx:171-173 | The score after the mover fills one empty cell and the search recurses one level deeper lies within `[depth-9, 9-depth]`. |
| Search.BestFrom | src/App.jsx:167-188 | The `forEach` fold has a value exactly when it started with one or some later cell is empty. It stays within the child score bounds. |
| Search.BestFromIsExtremum | src/App.jsx:167-189 | The fold's value is the starting value or some empty cell's child score. It is at least as good for the mover as the starting value and as every empty cell's child. |
| Search.MinimaxEquations | src/App.jsx:161-190 | An 'O' win scores `10-depth` and an 'X' win scores `depth-10`, even on a full grid. A full grid without a winner scores 0. Any other node scores the maximum ('O') or minimum ('X') over exactly the children of the empty cells, and that value is attained by some child. |
| Search.RootScore | src/App.jsx:149-151 | The score of playing 'O' on an empty cell at the root lies in `[-10, 10]`. |
| Search.ScanMoves | src/App.jsx:147-157 | If the loop state is correct after the cells before `i`, it is correct after all nine cells. Correct means: no candidate when no cell so far is empty; otherwise an empty cell with the maximal score so far that strictly beats every earlier empty cell. |
| Search.GetBestMove | src/App.jsx:144-159 | Returns no move exactly when the grid is full. Otherwise it returns an empty cell whose root score is maximal among empty cells and strictly greater than that of every lower empty cell, so it is the lowest maximizer. |
| InPlace.MinimaxInPlace | src/App.jsx:161-190 | The search that writes and erases trial marks in the shared array leaves the array as it found it. It returns the pure `Minimax` score. |
| InPlace.GetBestMoveInPlace | src/App.jsx:144-159 | The root loop, writing and erasing 'O' in the caller's own grid array, returns the same move as `GetBestMove` and leaves that array as it found it. |
| Scenarios.RootScoreTenIffImmediateWin | src/App.jsx:149-165 | A root move scores 10 exactly when `calculateWinner` reports 'O' after the move. On a grid that already has an 'X' line this differs from completing an 'O' line, since the scan reports 'X' first. |
| Scenarios.TakesFirstImmediateWin | src/App.jsx:144-159 | When some empty cell makes `calculateWinner` report 'O' after the move, the chosen move is the lowest such cell. |
| Scenarios.CompletesTopRow | src/App.jsx:144-159 | On `O O . / . X . / . . .` the move is cell 2. |
| Scenarios.LosingReplyBoundsRoot | src/App.jsx:178-188 | If 'X' has an immediately winning reply, the root move scores at most -9. |
| Scenarios.NoLosingReplyBoundsRoot | src/App.jsx:167-188 | If 'X' has no immediately winning reply after a non-terminal root move, that move scores at least -8. |
| Scenarios.BlockKeepsRootAboveMinusNine | src/App.jsx:149-151 | On `X X . / . O . / . . O`, playing cell 2 scores at least -8. |
| Scenarios.OtherMovesLose | src/App.jsx:149-151 | On the same grid, every other empty cell scores at most -9. |
| Scenarios.BlocksTopRow | src/App.jsx:144-159 | On `X X . / . O . / . . O` the move is cell 2, which blocks the top row. |
| Scenarios.DrawnGridHasNoMove | src/App.jsx:144-159 | `X O X / X O O / O X X` has no winner, is full, and yields no move. |
| Play.Click | src/App.jsx:43-61 | A click on a taken cell, or after game over, leaves the state unchanged, and only then. Otherwise the click writes the mover's mark at that index and leaves every other cell alone. The game ends exactly when the grid then has a winner or is full. If play continues, it is 'X''s turn only in two-player mode after an 'O' move. |
| Play.AiStep | src/App.jsx:17-35 | When the computer is due and the grid is not full, 'O' is written on the searched move, which was empty, and no other cell changes. The game ends exactly when the grid then has a winner or is full, and otherwise it becomes 'X''s turn. In every other case the state is unchanged. |
| Play.StartIsValid | src/App.jsx:70-76 | A freshly started game, in either mode, satisfies the invariant: game over exactly when decided, and mark counts matching the turn. |
| Play.ClickPreservesValid | src/App.jsx:43-61 | A click keeps the invariant in two-player mode, and in single-player mode while it is 'X''s turn. |
| Play.ClickWinnerIsMover | src/App.jsx:44-54 | On a valid running game, a click can never make the opponent of the clicking side the winner. |
| Play.AiStepPreservesValid | src/App.jsx:24-35 | The computer's move keeps the invariant and never completes a line for 'X'. |
| Play.ClickOnComputersTurnBreaksBalance | src/App.jsx:43-61 | In single-player mode on the computer's turn, a click writes 'O' for the human. Unless that ends the game, the computer is still due and the mark counts no longer match the turn. |
| Play.ComputersTurnClickIsReachable | src/App.jsx:43-61 | The defect is reached from a fresh single-player game: the human takes the centre, then clicks a corner before the computer replies. |
| Play.ClickFixed | src/App.jsx:43-61 | This is the corrected click. It ignores clicks while the computer is due, never writes 'O' in single-player mode, and otherwise behaves as `Click`. |
| Play.ClickFixedPreservesValid | src/App.jsx:43-61 | With the turn check, every click keeps the invariant. |
| Play.StepPreservesValid | src/App.jsx:17-61 | Every step of play keeps the invariant. A step is a corrected click or the computer's reply. |

## Left out

- Search.Minimax: the score bounds are stated only when depth plus the number of empty cells is at most 9. Every call the search makes meets that condition. For deeper depths the source's formulas `10 - depth` and `depth - 10` have no bound.
- Rendering, JSX, CSS and the status text are presentation only.
- `useState`/`useEffect` wiring and the 300 ms `setTimeout`/`clearTimeout` are scheduling, not logic. `AiStep` models only what the effect body does to the state once it fires.
- `resetGame` and the mode-select buttons are plain state resets. `startGame` appears only as the initial state `Start`.
- The `-Infinity`/`Infinity` starting values are floating-point sentinels. They are modelled as `None` in an `Option<int>` accumulator.
- The best move on an empty grid is not proved. That needs the whole game tree evaluated, which is far beyond what the verifier can unfold.
- Click indices outside 0..8 are excluded by the `Index` type. The rendered grid only produces indices 0..8.

## Findings

| source | as written | input that shows it | evidently intended | confidence | as-written member | corrected member |
|---|---|---|---|---|---|---|
| src/App.jsx:43-61 | `handleClick` checks only that the cell is free and the game is running. It does not check whose turn it is, so on the computer's turn it writes 'O' for the human. | Single-player game: 'X' takes cell 4, then cell 0 is clicked before the computer replies. Cell 0 gets 'O', it stays the computer's turn, and the counts are 1 'X' to 1 'O'. | In single-player mode, clicks are ignored while the computer is to move. | high, not executed | Play.ClickOnComputersTurnBreaksBalance | Play.ClickFixedPreservesValid |

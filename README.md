# Tic-tac-toe engine: a verified model

This project models the game engine of a tic-tac-toe game in which the computer plays X against a human playing O. The engine is the set of grid functions in `utils.py`:

- `find_available` finds the first empty cell.
- `check_tie` reports a full grid.
- `check_win` detects a win by rows, then columns, then the two diagonals, and then checks for a tie.
- `minimax` is an exhaustive search that mutates the grid. X minimises and O maximises.
- `get_ai_move` tries every empty cell for X. It plays the cell with the lowest minimax score, and the earliest such cell on equal scores.

The model has four modules, one per component:

- `Board` (board.dfy): the data model and the two read-only scans.
  - `Cell` is `Empty | X | O`. `Empty` stands for Python's `None`.
  - `Player` is a `Cell` other than `Empty`.
  - The 3×3 grid is a `Grid`, a nine-cell sequence in row-major order. The cell `grid[i][j]` is position `3 * i + j`.
- `Evaluator` (evaluator.dfy): `check_win`. Its result is the datatype `Status`:
  - `Won(p)` is the source's `(True, p)`.
  - `Tie` is `(False, 'tie')`.
  - `Open` is `(False, None)`.
- `Search` (minimax.dfy): `minimax`.
  - The pure functions `Value` and `Best` specify the score.
  - The method `Minimax` computes the score on an `array<Cell>` of length 9. It writes each speculative mark and erases it again, as the source does.
  - The method `TryMove` is the place–search–undo step the source writes inline.
- `MoveSelector` (move_selector.dfy): `get_ai_move`.
  - The pure function `Scan` is the selection loop's `(best_score, best_move)`.
  - `AiChoice` is the committed position, and `IsAiMove` states the tie-break rule independently.
  - The method `GetAiMove` mutates the caller's array in place.

Several parts of the source are modelled in a different form:

- The source's `math.inf` and `-math.inf` starting scores are the integers 2 and -2 (`Search.Sentinel`). Every score lies in {-1, 0, 1}, so both constants lie outside every score, as the infinities do.
- `minimax` has two copies of its search loop, one for X (utils.py:316-327) and one for O (utils.py:328-339). They differ in four places: the starting score, `min` versus `max`, the mark written into the cell (utils.py:322 and 334) and the player passed to the recursive call (utils.py:323 and 335). The model uses one loop for the player `p` to move. `Search.Sentinel` gives the starting score and `Search.Better` picks `min` for X and `max` for O. The mark written is `p` and the player passed on is `Opponent(p)`.
- The source walks the grid with nested `enumerate` loops over rows and then cells. Both methods walk the nine positions with one loop over `k`, in the same row-major order. Position `3 * i + j` is visited at the same point as `grid[i][j]`.
- `get_ai_move` makes a shallow `grid.copy()`, so it shares the row lists with its argument and mutates the caller's grid. The model therefore mutates the one array it is given.
- `get_ai_move` binds `best_move` only inside the loop, at utils.py:211, when some cell is `None`. On a full grid the read at utils.py:213 raises an error. A grid with an empty cell is therefore the function's own requirement, and the model makes it a precondition. app.py calls `get_ai_move` once before any check (app.py:45), and then only after `check_win` finds neither a winner nor a tie (app.py:61-69). That call pattern would meet the precondition if app.py used the `check_win` of utils.py; app.py imports its `check_win` and `get_ai_move` from the template utils/minimax.py instead (app.py:15-17).

## Model

| member | source | states |
|---|---|---|
| `Board.FirstEmptyFrom` | utils.py:112-115 | the first empty position at or after k: none exactly when every later cell is taken; otherwise an empty cell with every cell between k and it taken |
| `Board.FindAvailable` | utils.py:98-115 | `None` exactly when the grid is full; otherwise `(i, j)` in range with `grid[i][j]` empty and every cell before it in row-major order taken |
| `Board.NoEmptyFrom` | utils.py:232-237 | the scan from position k answers true exactly when no cell from k on is empty |
| `Board.CheckTie` | utils.py:218-237 | true exactly when no cell of the grid is empty |
| `Board.FindAvailableTopLeft` | utils.py:112-115 | on any grid whose top-left cell is empty, such as the all-empty grid of a new game, the result is `(0, 0)` |
| `Board.PlaceReducesEmptyCount` | utils.py:321-324 | writing a mark into an empty cell leaves exactly one empty cell fewer, so every recursive search call sees one empty cell fewer |
| `Evaluator.LineWinner` | utils.py:258-259 | the per-line test (three equal cells, the first not empty) succeeds exactly when one player holds the whole line, and then reports that player |
| `Evaluator.FirstLineFrom` | utils.py:256-270 | the first completed line at or after l in the order rows, columns, main diagonal, anti-diagonal: none exactly when no later line is completed |
| `Evaluator.CheckWin` | utils.py:240-276 | a win exactly when the line scan finds a completed line, and then a player who holds the first such line. Without a win, `Tie` exactly when the grid is full |
| `Evaluator.CheckWinCorrect` | utils.py:240-276 | `check_win` reports a win exactly when some line is completed, and then the mark of the first completed line in checking order. Otherwise it reports `Tie` exactly when the grid is full and `Open` exactly when it is not |
| `Evaluator.OpenHasEmptyCell` | utils.py:273-276 | a grid reported as in progress has an empty cell |
| `Evaluator.LoneLineWins` | utils.py:256-270 | a grid in which line l holds p and no cell holds the other mark is a win for p, for each of the eight lines and both marks |
| `Evaluator.EmptyGridIsOpen` | utils.py:256-276 | the all-empty grid of a new game is reported as `(False, None)` |
| `Search.Score` | utils.py:309-313 | the score of a finished grid: -1 exactly for a win of X, +1 exactly for a win of O, 0 exactly for a tie |
| `Search.Value` | utils.py:307-339 | the score of any grid with either player to move is -1, 0 or 1, so a `math.inf` sentinel is never returned |
| `Search.Best` | utils.py:316-337 | after the loop has visited positions 0 .. n-1, the aggregate is a score in {-1, 0, 1} if any of them was empty, and the starting sentinel otherwise |
| `Search.MoveValue` | utils.py:322-323 | the score a player obtains by moving at k, with the other player to move next, is -1, 0 or 1 |
| `Search.BestIsExtremum` | utils.py:316-337 | the loop aggregate is the least (X) or greatest (O) move value over the empty positions visited, and it is the move value of one of them |
| `Search.ValueIsMinimax` | utils.py:307-339 | the score is -1 for a win of X, +1 for a win of O and 0 for a tie. A grid still in progress scores the minimum over its empty cells of the child's score when X is to move, and the maximum when O is to move; some empty cell attains it |
| `Search.Minimax` | utils.py:307-339 | the in-place search returns the specified score of the grid it was given and leaves every cell as it found it |
| `Search.TryMove` | utils.py:321-326 | placing a mark in an empty cell, searching with the other player to move and emptying the cell returns that move's score and restores the grid |
| `MoveSelector.Scan` | utils.py:201-211 | after positions 0 .. n-1: if one was empty, `best_move` is an empty one among them and `best_score` is its score. The score is no higher than that of any empty position visited, and every empty position before `best_move` scores strictly higher. Otherwise the pair is still `(inf, unset)` |
| `MoveSelector.AiChoice` | utils.py:199-213 | on a grid with an empty cell, the committed position is empty, its score is minimal over all empty cells, and every earlier empty cell scores strictly higher |
| `MoveSelector.AiMoveIsUnique` | utils.py:209-211 | the strict-improvement tie-break singles out exactly one position: a position satisfies the rule if and only if it is the committed one |
| `MoveSelector.GetAiMove` | utils.py:185-215 | on a grid with an empty cell, exactly the committed position changes, from empty to X; every other cell keeps its value |

## Left out

- Rendering and text: `generate_text`, `display_text`, `draw_grid`, `draw_cross`, `draw_circle`, `draw_game` and `display_game_message` in utils.py, and utils/display.py. They are calls into pygame that only draw on the screen.
- `get_user_move` (utils.py:144-182) reads the mouse through pygame and maps pixels to a cell. It is input handling; its only effect on the grid is placing O in an empty cell.
- app.py (the event loop and turn sequencing), utils/setup.py (configuration lookup, window creation) and the configuration module: plumbing around the engine. The all-empty grid built by `setup_game` (utils/setup.py:81) appears as the precondition of `Board.FindAvailableTopLeft` and `Evaluator.EmptyGridIsOpen`.
- utils/minimax.py is a template whose functions are stubs, so it is not part of this model.
- The unused `depth` argument of `minimax` is dropped.
- The floating-point infinities are replaced by the integer sentinels ±2, as described above.
- Python's error when `get_ai_move` is called on a full grid is not modelled: a full grid is excluded by the precondition.
- The identity of the grid object `get_ai_move` returns is not modelled: it is a new outer list whose rows are the caller's rows. The model returns nothing, and the caller's array is the updated grid.
- `get_ai_move` only ever plays X, and the code has no move primitive that checks its cell or reports an error, so neither is modelled. O's moves come from `get_user_move`, described above.
- Facts about the whole game tree are not stated, such as "the first move on an empty grid is (0, 0)" and "self-play always ends in a tie". They need the value of every position, and the source does not promise them.

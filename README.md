# Tic-tac-toe engine and board rules

A Dafny model of the game logic of `tictactoe.js`. The page keeps one
9-cell array `gameBoard`, whose cells are `null`, `'X'` or `'O'`, together
with the globals `currentPlayer`, `isAITurn` and `playWithAI`. The model
has three modules:

- `Rules` (`rules.dfy`):
  - the marks, the cells and the 9-cell board, row-major on the 3x3 grid;
  - the `winningCombinations` table;
  - `checkWinner`, written as the `some`/`every` folds of the source;
  - the full-board test `gameBoard.every(cell => cell)`.

  `checkWinner` is proved equal to a geometric "three in a row" over rows,
  columns and diagonals.
- `Search` (`search.dfy`): the computer opponent.
  - `Value` is an unpruned minimax over the board. It is the reference.
  - `AlphaBeta` is the pruned search exactly as `minimax` runs it:
    `maxEval`/`minEval`, the node's own `alpha`/`beta`, and the
    `beta <= alpha` break.
  - `Minimax` is the imperative search on the shared array. Its two `for`
    loops are the methods `MaxNode` and `MinNode`, which write each
    hypothetical mark and undo it. It is proved to compute `AlphaBeta`
    and to return the array unchanged.
  - `AlphaBeta` is proved to keep the fail-soft window guarantee against
    `Value`. With the window (-Infinity, +Infinity) it equals `Value`.
  - `GetBestMove` is the `forEach` of `getBestMove`. It is proved to
    return `BestMove`: no move on a full board, otherwise the lowest-indexed
    empty cell of maximal score. On a board where the game goes on, that
    cell is proved to attain O's minimax value.
- `Game` (`game.dfy`): a `Session` class holds the four globals.
  - Its methods are `makeMove`, `switchPlayer` and `resetGame`, with the
    DOM writes removed.
  - `HandleCellClick` is the synchronous part of `handleCellClick`.
  - `AITurn` is the body of the 500 ms callback that plays the computer's
    move.

`minimax` reads the winner from the global `gameBoard` rather than from its
`board` parameter. Every call passes `gameBoard` itself, so the model uses
one array for both. The `depth` argument is passed along and never read. It
is kept as a parameter of `Minimax` and plays no part in any result.
`-Infinity` and `Infinity` are the integers `NegInf = -2` and `PosInf = 2`.
Every score lies in {-1, 0, 1}, so any comparison against the sentinels
comes out the same.

## Model

| member | source | states |
|---|---|---|
| Rules.LineComplete | tictactoe.js:103 | `combination.every(...)` holds exactly when every index of the combination holds the player's mark |
| Rules.SomeLineComplete | tictactoe.js:102-104 | `winningCombinations.some(...)` holds exactly when some combination of the table is complete for the player |
| Rules.CombinationsAreTheLines | tictactoe.js:14-23 | the eight triples are exactly the three rows, three columns and two diagonals: some triple is complete for `p` if and only if `p` has three in a row on the grid |
| Rules.CheckWinner | tictactoe.js:101-105 | `checkWinner(p)` holds if and only if `p` has three in a row on the grid |
| Rules.UniformLineWins | tictactoe.js:101-105 | filling any one of the eight combinations with a mark makes `checkWinner` true for that mark, whatever the other cells hold |
| Rules.Other | tictactoe.js:91 | the player after `p` is never `p` itself |
| Game.SwitchTwiceRestores | tictactoe.js:90-91 | `switchPlayer` swaps X and O, so two calls give the turn back to the same player |
| Search.WinScore | tictactoe.js:138-142 | the `scores` entry of a line is -1 exactly for X and +1 exactly for O |
| Search.TerminalScore | tictactoe.js:145-147 | a board has no terminal score exactly when neither mark has a line and some cell is empty; any terminal score lies in [-1, 1] |
| Search.NoEmptyCellIffZeroCount | tictactoe.js:147 | the full-board test `Rules.Full` holds exactly when the count of empty cells, which bounds the depth of the search, is zero |
| Search.Value | tictactoe.js:138-147 | the unpruned minimax value of every board lies in {-1, 0, 1} |
| Search.ChildrenValue | tictactoe.js:149-174 | the running `maxEval`/`minEval` over the empty cells visited so far lies in {-1, 0, 1} once some empty cell was visited, and stays at the `-Infinity`/`Infinity` sentinel otherwise |
| Search.ChildBoundsValue | tictactoe.js:149-174 | each move of a node bounds the node's value: a maximising node is worth at least, a minimising one at most, the value of any of its moves |
| Search.SomeChildAttainsValue | tictactoe.js:149-174 | the value of a node that has a move is the value of one of its moves |
| Search.MaxNodeLoopSound | tictactoe.js:149-161 | the maximising `for` loop, modelled by `Search.NodeLoop`, after the cells below `n`: the loop's `alpha` is max(entry `alpha`, `maxEval`) and `maxEval` is at most 1. Without a break, `alpha` is still below `beta`, and `maxEval` equals the unpruned running maximum over those cells when above the entry `alpha`, and bounds it from above otherwise. After the break, `beta <= maxEval` and `maxEval` is at most the node's unpruned value |
| Search.MinNodeLoopSound | tictactoe.js:162-175 | the same for the minimising loop of `Search.NodeLoop`, with `minEval`, `beta` and the bounds mirrored |
| Search.CutIsFinal | tictactoe.js:158 | once the `beta <= alpha` break is taken, the remaining cells leave `maxEval`/`minEval` unchanged (the same holds at line 171) |
| Search.AlphaBetaSound | tictactoe.js:144-176 | about `Search.AlphaBeta`, the value `minimax` computes with pruning: for any window `alpha < beta`, the pruned result lies in {-1, 0, 1}; it is the exact minimax value when inside the window, an upper bound at or below `alpha`, and a lower bound at or above `beta` |
| Search.PruningAgreesWithMinimax | tictactoe.js:144-176 | called with (-Infinity, +Infinity), the pruned search returns the unpruned minimax value, so the break never changes the result |
| Search.TerminalScores | tictactoe.js:138-147 | an X line scores -1 even when O also has a line; only an O line scores +1; a full board without a line scores 0, for both the pruned and the unpruned search and any window |
| Search.Minimax | tictactoe.js:144-176 | the imperative search on the array returns exactly the pruned value `Search.AlphaBeta` of the board, and the array is identical before and after the call |
| Search.MaxNode | tictactoe.js:149-161 | the maximising `for` loop places O in each empty cell, calls the search, and takes the mark back (lines 153-155); it returns the `maxEval` of `Search.NodeLoop` and leaves the array as it found it |
| Search.MinNode | tictactoe.js:162-175 | the minimising `for` loop does the same with X (lines 166-168), returning the `minEval` of `Search.NodeLoop` |
| Search.ScanSound | tictactoe.js:122-134 | the invariant of the `forEach`, whose state after each cell is `Search.Scan`: `move` is undefined exactly while no empty cell was seen, and otherwise it is the first seen empty cell of maximal score, with that score in `bestScore` |
| Search.BestMove | tictactoe.js:121-136 | there is no move exactly when the board is full; otherwise the move is an empty cell whose score is maximal, and every lower-indexed empty cell scores strictly less |
| Search.BestMoveCharacterized | tictactoe.js:129-132 | the move is `k` if and only if `k` is the lowest-indexed empty cell of maximal score (the strict `>` tie-break) |
| Search.SingleEmptyCellIsChosen | tictactoe.js:124-132 | with exactly one empty cell, that cell is the move |
| Search.BestMoveIsOptimal | tictactoe.js:121-136 | on a board where the game goes on, there is a move and it attains the minimax value of O to move |
| Search.ImmediateWinScoresOne | tictactoe.js:126-127 | a cell where O completes a line, on a board without an X line, scores +1 |
| Search.CompletingMoveIsChosen | tictactoe.js:121-136 | with O on 0 and 1, X on 3 and 4 and the rest empty, the move is 2, which completes O's top row |
| Search.GetBestMove | tictactoe.js:121-136 | the imperative `forEach`, calling `minimax` with O placed in each empty cell, returns `BestMove` of the board and leaves the array unchanged |
| Game.Session.constructor | tictactoe.js:9-12 | the page starts with an empty board, X to move, and both flags false |
| Game.Session.MakeMove | tictactoe.js:85-86 | cell `index` gets the player's mark and the other eight cells are unchanged |
| Game.Session.SwitchPlayer | tictactoe.js:90-91 | the turn passes to the other mark and nothing else changes |
| Game.Session.ResetGame | tictactoe.js:107-110 | all nine cells are emptied, X is to move and it is not the computer's turn; the mode is kept |
| Game.Session.HandleCellClick | tictactoe.js:44-65 | a click on an occupied cell, or while the computer is thinking, changes nothing. Otherwise the current player's mark is placed. A line of the mover ends in a win for the mover, a full board in a draw, and both reset the game. Otherwise the turn passes, and in single-player mode O's turn becomes the computer's turn |
| Game.Session.AITurn | tictactoe.js:66-81 | O takes the cell `BestMove` picks, which was empty. O's line ends in a win and a full board in a draw, both resetting the game. Otherwise the turn passes to the other mark (X, when the callback runs with O to move) and the computer's turn ends. On a full board nothing changes |
| Game.OpeningFirstClicks | tictactoe.js:44-63 | from a fresh page in two-player mode, the clicks 3, 0, 4 complete no line and fill no board, leaving X on 3 and 4, O on 0, and O to move |
| Game.TwoPlayerOpening | tictactoe.js:44-63 | from a fresh page in two-player mode, the clicks 3, 0, 4, 1, 8 complete no line and fill no board, leaving X on 3, 4 and 8, O on 0 and 1, and O to move |
| Game.OWinAnnouncedAsX | tictactoe.js:51-53 | after that opening, O's click on 2 ends in a win for O, but the scheduled alert, which reads `currentPlayer` when it fires, names X |

## Left out

- The DOM is not modelled: `createBoard`, the cell elements, `textContent` of the cells, the turn indicator and the status bar, and the element lookups (tictactoe.js:1-5, 33-42, 87, 92-98, 111-112). It is presentation only.
- Timers are not modelled. `setTimeout` is not modelled, and neither is the scheduling of the `alert` calls. `AITurn` is the body of the 500 ms callback, run as one step with no click in between. The win and draw alerts are represented by the returned `Step`; the text of the win alert is modelled only in `OWinAnnouncedAsX`, as the value of `currentPlayer` left when the timer fires.
- `textAIResponse`, the `aiResponses` phrases, `Math.random` and the `Swal.fire` toast (tictactoe.js:25-31, 178-187) are not modelled, and neither is all of `textai.js`. They are random flavour text shown by a third-party library.
- `toggleMode` and the button listeners (tictactoe.js:115-119, 189-190) are not modelled. `playWithAI` is a plain field that callers set. `toggleMode` only flips it and calls `resetGame`, which is modelled.
- The cell index in `handleCellClick` is a string read from the element's dataset. It is modelled as a number below 9, which is what the nine cells carry.
- `makeMove` writes without any check that the cell is free, and `MakeMove` follows the code; the occupied-cell test lives only in `handleCellClick`, which is modelled. `MakeMove` requires `index < 9`, which excludes only writes that never happen: every call passes a cell index or the index `getBestMove` picks, and an index of 9 or more would grow the JavaScript array and then fail at the DOM write.
- When no cell is empty, the source's computer callback calls `makeMove(undefined, 'O')`. The DOM write of that call throws, so the callback stops halfway. `AITurn` returns `NoMove` with nothing changed. In the game this cannot happen, because the callback only runs after a move that left a free cell.
- Search.AlphaBetaSound: requires `NegInf <= alpha < beta <= PosInf`. The top call passes (-Infinity, +Infinity), and a recursive call happens only when `beta <= alpha` did not break the loop, so every call made by the source meets it. `Minimax` itself takes any window.
- The opening move on an empty board is not proved. Evaluating the full game tree from the empty board is far beyond what the verifier can unfold. `BestMoveIsOptimal` states the general optimality instead, as the minimax value.
- The turn-alternation invariant (the number of X marks minus the number of O marks is 0 or 1) is not modelled as a class invariant. Clicks alternate through `SwitchPlayer`, but nothing in `makeMove` enforces it.

## Findings

| source | as written | input that shows it | evidently intended | confidence | as-written member | corrected member |
|---|---|---|---|---|---|---|
| tictactoe.js:51-53 | the win alert reads `currentPlayer` when its 10 ms timer fires, after `resetGame` has set it to X | two-player mode, clicks on 3, 0, 4, 1, 8, 2: O completes the top row and the alert says "X wins!" | the alert names the player who completed the line | high (not executed) | Game.OWinAnnouncedAsX | Game.Session.HandleCellClick |

/** Board rules of the tic-tac-toe game: the marks, the 9-cell board, the eight
    winning lines and the winner test that both the game loop and the
    computer opponent use. */
module Rules {

  /** The two marks, 'X' (the human, who moves first) and 'O' (the computer
      in single-player mode). */
  datatype Player = X | O

  /** A cell of `gameBoard`: `null` or one of the marks. */
  datatype Cell = Empty | Mark(player: Player)

  /** `gameBoard` viewed as a value: 9 cells, row-major on the 3x3 grid. */
  type Board = b: seq<Cell> | |b| == 9 witness seq(9, _ => Empty)

  const EmptyBoard: Board := seq(9, _ => Empty)

  /** The player whose turn comes after `p`. */
  function Other(p: Player): (q: Player)
    ensures q != p
  {
    if p == X then O else X
  }

  /** The eight index triples of `winningCombinations`: three rows, three
      columns and the two diagonals. */
  const WinningCombinations: seq<seq<nat>> := [
    [0, 1, 2],
    [3, 4, 5],
    [6, 7, 8],
    [0, 3, 6],
    [1, 4, 7],
    [2, 5, 8],
    [0, 4, 8],
    [2, 4, 6]
  ]

  /** Every index of every combination lies on the board. */
  predicate OnBoard(lines: seq<seq<nat>>) {
    forall i, k :: 0 <= i < |lines| && 0 <= k < |lines[i]| ==> lines[i][k] < 9
  }

  /** Every index of `line` holds `p`'s mark: the inner `every` of
      `checkWinner` (tictactoe.js:103), as a recursion over the list. */
  function LineComplete(b: Board, line: seq<nat>, p: Player): (r: bool)
    requires forall k :: 0 <= k < |line| ==> line[k] < 9
    ensures r <==> forall k :: 0 <= k < |line| ==> b[line[k]] == Mark(p)
  {
    |line| == 0 || (b[line[0]] == Mark(p) && LineComplete(b, line[1..], p))
  }

  /** Some combination of `lines` is complete for `p`: the outer `some` of
      `checkWinner` (tictactoe.js:102), as a recursion over the table. */
  function SomeLineComplete(b: Board, lines: seq<seq<nat>>, p: Player): (r: bool)
    requires OnBoard(lines)
    ensures r <==> exists i :: 0 <= i < |lines| && LineComplete(b, lines[i], p)
  {
    |lines| > 0 && (LineComplete(b, lines[0], p) || SomeLineComplete(b, lines[1..], p))
  }

  /** The cell in row `row` and column `col` of the grid. */
  function At(b: Board, row: nat, col: nat): Cell
    requires row < 3 && col < 3
  {
    b[3 * row + col]
  }

  /** Independent, geometric statement of "`p` has three in a row". */
  predicate ThreeInARow(b: Board, p: Player) {
    (exists row :: 0 <= row < 3 &&
          At(b, row, 0) == Mark(p) && At(b, row, 1) == Mark(p) && At(b, row, 2) == Mark(p))
    || (exists col :: 0 <= col < 3 &&
          At(b, 0, col) == Mark(p) && At(b, 1, col) == Mark(p) && At(b, 2, col) == Mark(p))
    || (At(b, 0, 0) == Mark(p) && At(b, 1, 1) == Mark(p) && At(b, 2, 2) == Mark(p))
    || (At(b, 0, 2) == Mark(p) && At(b, 1, 1) == Mark(p) && At(b, 2, 0) == Mark(p))
  }

  /** `checkWinner(player)`: some winning combination is filled with `p`'s
      mark, which is exactly three in a row on the grid. As a function it
      cannot change the board. */
  function CheckWinner(b: Board, p: Player): (r: bool)
    ensures r <==> ThreeInARow(b, p)
  {
    CombinationsAreTheLines(b, p);
    SomeLineComplete(b, WinningCombinations, p)
  }

  /** The table `winningCombinations` lists exactly the rows, columns and
      diagonals of the grid. */
  lemma CombinationsAreTheLines(b: Board, p: Player)
    ensures OnBoard(WinningCombinations)
    ensures SomeLineComplete(b, WinningCombinations, p) <==> ThreeInARow(b, p)
  {
    assert OnBoard(WinningCombinations);
    if SomeLineComplete(b, WinningCombinations, p) {
      var i :| 0 <= i < |WinningCombinations| && LineComplete(b, WinningCombinations[i], p);
      CombinationIsALine(b, i, p);
    }
    if ThreeInARow(b, p) {
      LineIsACombination(b, p);
    }
  }

  /** Each entry of the table is a row, a column or a diagonal. */
  lemma CombinationIsALine(b: Board, i: nat, p: Player)
    requires i < |WinningCombinations|
    requires forall k :: 0 <= k < 3 ==> b[WinningCombinations[i][k]] == Mark(p)
    ensures ThreeInARow(b, p)
  {
    var w := WinningCombinations;
    var m := Mark(p);
    assert b[w[i][0]] == m && b[w[i][1]] == m && b[w[i][2]] == m;
    if i < 3 {
      assert At(b, i, 0) == m && At(b, i, 1) == m && At(b, i, 2) == m;
    } else if i < 6 {
      assert At(b, 0, i - 3) == m && At(b, 1, i - 3) == m && At(b, 2, i - 3) == m;
    }
  }

  /** Each row, column and diagonal is an entry of the table. */
  lemma LineIsACombination(b: Board, p: Player)
    requires ThreeInARow(b, p)
    ensures OnBoard(WinningCombinations)
    ensures SomeLineComplete(b, WinningCombinations, p)
  {
    var m := Mark(p);
    if exists row :: 0 <= row < 3 && At(b, row, 0) == m && At(b, row, 1) == m && At(b, row, 2) == m {
      var row :| 0 <= row < 3 && At(b, row, 0) == m && At(b, row, 1) == m && At(b, row, 2) == m;
      assert WinningCombinations[row] == [3 * row, 3 * row + 1, 3 * row + 2];
      CombinationComplete(b, row, p);
    } else if exists col :: 0 <= col < 3 && At(b, 0, col) == m && At(b, 1, col) == m && At(b, 2, col) == m {
      var col :| 0 <= col < 3 && At(b, 0, col) == m && At(b, 1, col) == m && At(b, 2, col) == m;
      assert WinningCombinations[3 + col] == [col, col + 3, col + 6];
      CombinationComplete(b, 3 + col, p);
    } else if At(b, 0, 0) == m && At(b, 1, 1) == m && At(b, 2, 2) == m {
      CombinationComplete(b, 6, p);
    } else {
      CombinationComplete(b, 7, p);
    }
  }

  /** One completed entry of the table makes `SomeLineComplete` true. */
  lemma CombinationComplete(b: Board, i: nat, p: Player)
    requires i < |WinningCombinations|
    requires forall k :: 0 <= k < 3 ==> b[WinningCombinations[i][k]] == Mark(p)
    ensures OnBoard(WinningCombinations)
    ensures SomeLineComplete(b, WinningCombinations, p)
  {
    assert OnBoard(WinningCombinations);
    assert LineComplete(b, WinningCombinations[i], p);
  }

  /** A line of `p` on `b` is still a line on any board that keeps every
      `p` mark of `b`. */
  lemma LinesOfFewerMarks(b: Board, c: Board, p: Player)
    requires ThreeInARow(b, p)
    requires forall j :: 0 <= j < 9 && b[j] == Mark(p) ==> c[j] == Mark(p)
    ensures ThreeInARow(c, p)
  {
    var m := Mark(p);
    if exists row :: 0 <= row < 3 && At(b, row, 0) == m && At(b, row, 1) == m && At(b, row, 2) == m {
      var row :| 0 <= row < 3 && At(b, row, 0) == m && At(b, row, 1) == m && At(b, row, 2) == m;
      assert At(c, row, 0) == m && At(c, row, 1) == m && At(c, row, 2) == m;
    } else if exists col :: 0 <= col < 3 && At(b, 0, col) == m && At(b, 1, col) == m && At(b, 2, col) == m {
      var col :| 0 <= col < 3 && At(b, 0, col) == m && At(b, 1, col) == m && At(b, 2, col) == m;
      assert At(c, 0, col) == m && At(c, 1, col) == m && At(c, 2, col) == m;
    }
  }

  /** No cell is empty: the full-board test of `handleCellClick`, the
      computer's turn and `minimax` (tictactoe.js:57, 74, 147). */
  predicate Full(b: Board) {
    forall i :: 0 <= i < |b| ==> b[i] != Empty
  }

  /** Filling any one of the eight combinations with a mark makes that mark
      a winner, whatever the other cells hold. */
  lemma {:induction false} UniformLineWins(b: Board, i: nat, p: Player)
    requires i < |WinningCombinations|
    requires forall k :: 0 <= k < 3 ==> b[WinningCombinations[i][k]] == Mark(p)
    ensures CheckWinner(b, p)
  {
    CombinationIsALine(b, i, p);
  }
}

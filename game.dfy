/** The game state the page keeps in globals (`gameBoard`, `currentPlayer`,
    `isAITurn`, `playWithAI`) and the updates the click handler and the
    computer's turn apply to it, with every DOM write removed. */
module Game {
  import opened Rules
  import opened Search

  /** What one synchronous step of the game loop ends with. `Won` and
      `Drawn` are the two cases that schedule an alert and reset the game;
      `NoMove` is the computer's turn on a board without an empty cell. */
  datatype Step = Ignored | Won(winner: Player) | Drawn | Continues | NoMove

  class Session {
    /** `gameBoard`: allocated once and only ever written cell by cell. */
    const gameBoard: array<Cell>
    var currentPlayer: Player
    var isAITurn: bool
    var playWithAI: bool

    ghost predicate Valid()
      reads this
    {
      gameBoard.Length == 9
    }

    /** The state when the page loads. */
    constructor ()
      ensures Valid() && fresh(gameBoard)
      ensures gameBoard[..] == EmptyBoard
      ensures currentPlayer == X && !isAITurn && !playWithAI
    {
      gameBoard := new Cell[9](_ => Empty);
      currentPlayer := X;
      isAITurn := false;
      playWithAI := false;
    }

    /** `makeMove(index, player)`: writes the mark into one cell. */
    method MakeMove(index: nat, player: Player)
      requires Valid() && index < 9
      modifies gameBoard
      ensures Valid()
      ensures gameBoard[index] == Mark(player)
      ensures forall j :: 0 <= j < 9 && j != index ==> gameBoard[j] == old(gameBoard[j])
      ensures gameBoard[..] == old(gameBoard[..])[index := Mark(player)]
    {
      gameBoard[index] := Mark(player);
    }

    /** `switchPlayer()`: hands the turn to the other mark. */
    method SwitchPlayer()
      modifies this`currentPlayer
      ensures currentPlayer == Other(old(currentPlayer))
    {
      currentPlayer := Other(currentPlayer);
    }

    /** `resetGame()`: empties every cell and gives the first turn to X; the
        mode is kept. */
    method ResetGame()
      requires Valid()
      modifies gameBoard, this`currentPlayer, this`isAITurn
      ensures Valid()
      ensures gameBoard[..] == EmptyBoard
      ensures currentPlayer == X && !isAITurn
    {
      forall i | 0 <= i < gameBoard.Length {
        gameBoard[i] := Empty;
      }
      currentPlayer := X;
      isAITurn := false;
    }

    /** The synchronous part of `handleCellClick` for the cell `index`: the
        click is ignored on an occupied cell or while the computer is
        thinking; otherwise the current player's mark is placed, a win or a
        draw resets the game, and play passes to the other mark, which in
        single-player mode is the computer's turn. */
    method HandleCellClick(index: nat) returns (step: Step)
      requires Valid() && index < 9
      modifies gameBoard, this`currentPlayer, this`isAITurn
      ensures Valid()
      ensures old(gameBoard[index]) != Empty || (playWithAI && old(isAITurn)) ==>
                && step == Ignored
                && gameBoard[..] == old(gameBoard[..])
                && currentPlayer == old(currentPlayer) && isAITurn == old(isAITurn)
      ensures old(gameBoard[index]) == Empty && !(playWithAI && old(isAITurn)) ==>
                var moved := old(gameBoard[..])[index := Mark(old(currentPlayer))];
                if CheckWinner(moved, old(currentPlayer)) then
                  && step == Won(old(currentPlayer))
                  && gameBoard[..] == EmptyBoard && currentPlayer == X && !isAITurn
                else if Full(moved) then
                  && step == Drawn
                  && gameBoard[..] == EmptyBoard && currentPlayer == X && !isAITurn
                else
                  && step == Continues
                  && gameBoard[..] == moved
                  && currentPlayer == Other(old(currentPlayer))
                  && isAITurn == (if playWithAI && currentPlayer == O then true else old(isAITurn))
    {
      if gameBoard[index] != Empty || (playWithAI && isAITurn) {
        return Ignored;
      }
      var player := currentPlayer;
      MakeMove(index, player);
      if CheckWinner(gameBoard[..], player) {
        ResetGame();
        return Won(player);
      }
      if Full(gameBoard[..]) {
        ResetGame();
        return Drawn;
      }
      SwitchPlayer();
      if playWithAI && currentPlayer == O {
        isAITurn := true;
      }
      step := Continues;
    }

    /** The body of the delayed callback that plays the computer's turn: O
        takes the cell `getBestMove` picks, a win or a draw resets the game,
        and otherwise the turn returns to X. When no cell is empty,
        `makeMove(undefined, 'O')` marks no cell and the callback stops with
        an error before it changes anything else. */
    method AITurn() returns (step: Step)
      requires Valid()
      modifies gameBoard, this`currentPlayer, this`isAITurn
      ensures Valid()
      ensures BestMove(old(gameBoard[..])) == None ==>
                && step == NoMove
                && gameBoard[..] == old(gameBoard[..])
                && currentPlayer == old(currentPlayer) && isAITurn == old(isAITurn)
      ensures BestMove(old(gameBoard[..])).Some? ==>
                var k := BestMove(old(gameBoard[..])).value;
                var moved := old(gameBoard[..])[k := Mark(O)];
                && old(gameBoard[k]) == Empty
                && if CheckWinner(moved, O) then
                     && step == Won(O)
                     && gameBoard[..] == EmptyBoard && currentPlayer == X && !isAITurn
                   else if Full(moved) then
                     && step == Drawn
                     && gameBoard[..] == EmptyBoard && currentPlayer == X && !isAITurn
                   else
                     && step == Continues
                     && gameBoard[..] == moved
                     && currentPlayer == Other(old(currentPlayer)) && !isAITurn
    {
      var aiMove := GetBestMove(gameBoard);
      if aiMove.None? {
        return NoMove;
      }
      MakeMove(aiMove.value, O);
      if CheckWinner(gameBoard[..], O) {
        ResetGame();
        return Won(O);
      }
      if Full(gameBoard[..]) {
        ResetGame();
        return Drawn;
      }
      SwitchPlayer();
      isAITurn := false;
      step := Continues;
    }
  }

  /** The first clicks 3, 0, 4 of a two-player game from a fresh page:
      none of them completes a line or fills the board, so X holds 3 and 4,
      O holds 0, and O is to move. */
  method OpeningFirstClicks() returns (game: Session)
    ensures fresh(game) && fresh(game.gameBoard) && game.Valid()
    ensures game.gameBoard[..] ==
              [Mark(O), Empty, Empty, Mark(X), Mark(X), Empty, Empty, Empty, Empty]
    ensures game.currentPlayer == O && !game.playWithAI && !game.isAITurn
  {
    game := new Session();
    var step: Step;
    ghost var b3 := game.gameBoard[..][3 := Mark(X)];
    assert b3 == [Empty, Empty, Empty, Mark(X), Empty, Empty, Empty, Empty, Empty];
    NoLineYet(b3, X, 2);
    step := game.HandleCellClick(3);
    ghost var b0 := game.gameBoard[..][0 := Mark(O)];
    assert b0 == [Mark(O), Empty, Empty, Mark(X), Empty, Empty, Empty, Empty, Empty];
    NoLineYet(b0, O, 2);
    step := game.HandleCellClick(0);
    ghost var b4 := game.gameBoard[..][4 := Mark(X)];
    assert b4 == [Mark(O), Empty, Empty, Mark(X), Mark(X), Empty, Empty, Empty, Empty];
    NoLineYet(b4, X, 2);
    step := game.HandleCellClick(4);
  }

  /** The clicks 3, 0, 4, 1, 8 of a two-player game from a fresh page: none
      of them completes a line or fills the board, so X ends up on 3, 4 and
      8, O on 0 and 1, and O is to move. */
  method TwoPlayerOpening() returns (game: Session)
    ensures fresh(game) && fresh(game.gameBoard) && game.Valid()
    ensures game.gameBoard[..] ==
              [Mark(O), Mark(O), Empty, Mark(X), Mark(X), Empty, Empty, Empty, Mark(X)]
    ensures game.currentPlayer == O && !game.playWithAI && !game.isAITurn
  {
    game := OpeningFirstClicks();
    var step: Step;
    ghost var b1 := game.gameBoard[..][1 := Mark(O)];
    assert b1 == [Mark(O), Mark(O), Empty, Mark(X), Mark(X), Empty, Empty, Empty, Empty];
    NoLineYet(b1, O, 2);
    step := game.HandleCellClick(1);
    ghost var b8 := game.gameBoard[..][8 := Mark(X)];
    assert b8 == [Mark(O), Mark(O), Empty, Mark(X), Mark(X), Empty, Empty, Empty, Mark(X)];
    NoLineYet(b8, X, 2);
    step := game.HandleCellClick(8);
  }

  /** O's click on 2 then completes the top row and the step ends in
      `Won(O)`, but `resetGame` has already given the turn to X when the
      scheduled win alert reads `currentPlayer` to name the winner, so
      the message names X. */
  method OWinAnnouncedAsX() returns (step: Step, named: Player)
    ensures step == Won(O)
    ensures named == X
  {
    var game := TwoPlayerOpening();
    UniformLineWins([Mark(O), Mark(O), Mark(O), Mark(X), Mark(X), Empty, Empty, Empty, Mark(X)], 0, O);
    step := game.HandleCellClick(2);
    named := game.currentPlayer;
  }

  /** Every row, column and diagonal holds a cell without `p`'s mark. */
  predicate EveryLineBlocked(b: Board, p: Player) {
    && (At(b, 0, 0) != Mark(p) || At(b, 0, 1) != Mark(p) || At(b, 0, 2) != Mark(p))
    && (At(b, 1, 0) != Mark(p) || At(b, 1, 1) != Mark(p) || At(b, 1, 2) != Mark(p))
    && (At(b, 2, 0) != Mark(p) || At(b, 2, 1) != Mark(p) || At(b, 2, 2) != Mark(p))
    && (At(b, 0, 0) != Mark(p) || At(b, 1, 0) != Mark(p) || At(b, 2, 0) != Mark(p))
    && (At(b, 0, 1) != Mark(p) || At(b, 1, 1) != Mark(p) || At(b, 2, 1) != Mark(p))
    && (At(b, 0, 2) != Mark(p) || At(b, 1, 2) != Mark(p) || At(b, 2, 2) != Mark(p))
    && (At(b, 0, 0) != Mark(p) || At(b, 1, 1) != Mark(p) || At(b, 2, 2) != Mark(p))
    && (At(b, 0, 2) != Mark(p) || At(b, 1, 1) != Mark(p) || At(b, 2, 0) != Mark(p))
  }

  /** A board where every line of `p` is blocked and a cell is free lets
      the game go on after `p`'s move. */
  lemma NoLineYet(b: Board, p: Player, free: nat)
    requires EveryLineBlocked(b, p) && free < 9 && b[free] == Empty
    ensures !CheckWinner(b, p) && !Full(b)
  {
  }

  /** Two calls of `switchPlayer` give the turn back. */
  lemma SwitchTwiceRestores(p: Player)
    ensures Other(Other(p)) == p
  {
  }
}

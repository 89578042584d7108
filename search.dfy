/** The computer opponent: minimax search with alpha-beta pruning over the
    shared board array, scored from O's point of view, and the top-level
    move choice that runs it once per empty cell. */
module Search {
  import opened Rules

  datatype Option<T> = None | Some(value: T)

  /** The `-Infinity` and `Infinity` sentinels of the search. Every score
      lies strictly between them. */
  const NegInf: int := -2
  const PosInf: int := 2

  /** The `scores` table: an X line is a loss for O, an O line a win, a full
      board without a line a tie. */
  function WinScore(p: Player): (s: int)
    ensures s == -1 <==> p == X
    ensures s == 1 <==> p == O
  {
    match p
    case X => -1
    case O => 1
  }
  const TieScore: int := 0

  /** `Math.max` and `Math.min`. */
  function Max(a: int, b: int): int { if a >= b then a else b }
  function Min(a: int, b: int): int { if a <= b then a else b }

  /** The mark a node places: O at a maximising node, X at a minimising one. */
  function Mover(maximizing: bool): Player {
    if maximizing then O else X
  }

  /** The number of empty cells, which every hypothetical move lowers. */
  function CountEmpty(s: seq<Cell>): nat {
    if s == [] then 0 else (if s[0] == Empty then 1 else 0) + CountEmpty(s[1..])
  }

  /** The full-board test holds exactly when the count that bounds the
      search is zero. */
  lemma {:induction false} NoEmptyCellIffZeroCount(s: seq<Cell>)
    ensures CountEmpty(s) == 0 <==> forall i :: 0 <= i < |s| ==> s[i] != Empty
  {
    if s != [] {
      NoEmptyCellIffZeroCount(s[1..]);
      assert forall i :: 1 <= i < |s| ==> s[i] == s[1..][i - 1];
    }
  }

  lemma {:induction false} FillingLowersCount(s: seq<Cell>, k: nat, p: Player)
    requires k < |s| && s[k] == Empty
    ensures CountEmpty(s[k := Mark(p)]) == CountEmpty(s) - 1
  {
    if k > 0 {
      FillingLowersCount(s[1..], k - 1, p);
      assert s[k := Mark(p)][1..] == s[1..][k - 1 := Mark(p)];
    }
  }

  /** The score of a finished board, looked up in `scores`: X's line is
      tested before O's, and a full board without a line is a tie. `None`
      while the game goes on. */
  function TerminalScore(b: Board): (r: Option<int>)
    ensures r == None <==> !CheckWinner(b, X) && !CheckWinner(b, O) && !Full(b)
    ensures r.Some? ==> -1 <= r.value <= 1
  {
    if CheckWinner(b, X) then Some(WinScore(X))
    else if CheckWinner(b, O) then Some(WinScore(O))
    else if Full(b) then Some(TieScore)
    else None
  }

  /** Unpruned minimax: the reference the pruned search is proved against.
      Depth plays no part in it. */
  function Value(b: Board, maximizing: bool): (v: int)
    ensures -1 <= v <= 1
    decreases CountEmpty(b), 1
  {
    match TerminalScore(b)
    case Some(score) => score
    case None => ChildrenValue(b, maximizing, 9)
  }

  /** The best child value over the empty cells with index below `n`,
      starting from the sentinel of the side to move: the running
      `maxEval`/`minEval` of a search that never prunes. */
  function ChildrenValue(b: Board, maximizing: bool, n: nat): (v: int)
    requires n <= 9
    ensures (exists j :: 0 <= j < n && b[j] == Empty) ==> -1 <= v <= 1
    ensures (forall j :: 0 <= j < n ==> b[j] != Empty) ==>
              v == (if maximizing then NegInf else PosInf)
    decreases CountEmpty(b), 0, n
  {
    if n == 0 then (if maximizing then NegInf else PosInf)
    else
      var acc := ChildrenValue(b, maximizing, n - 1);
      if b[n - 1] != Empty then acc
      else
        FillingLowersCount(b, n - 1, Mover(maximizing));
        var child := Value(b[n - 1 := Mark(Mover(maximizing))], !maximizing);
        if maximizing then Max(acc, child) else Min(acc, child)
  }

  /** Each child reached so far bounds the best value from the side of its
      node: a maximising node's value is at least, a minimising node's at
      most, that of any empty cell below `n`. */
  lemma {:induction false} ChildBoundsValue(b: Board, maximizing: bool, j: nat, n: nat)
    requires j < n <= 9 && b[j] == Empty
    ensures var child := Value(b[j := Mark(Mover(maximizing))], !maximizing);
            if maximizing then child <= ChildrenValue(b, maximizing, n)
            else ChildrenValue(b, maximizing, n) <= child
  {
    if j < n - 1 {
      ChildBoundsValue(b, maximizing, j, n - 1);
    }
  }

  /** One cell more of the unpruned loop: an occupied cell leaves the
      running value, an empty one combines it with that move's value. */
  lemma ChildrenValueStep(b: Board, maximizing: bool, n: nat)
    requires 0 < n <= 9
    ensures var acc := ChildrenValue(b, maximizing, n - 1);
            var child := Value(b[n - 1 := Mark(Mover(maximizing))], !maximizing);
            ChildrenValue(b, maximizing, n) ==
              if b[n - 1] != Empty then acc
              else if maximizing then Max(acc, child) else Min(acc, child)
  {
  }

  /** The empty cell `j` below `n` is a move whose value is the running
      `maxEval`/`minEval` after the cells below `n`. */
  ghost predicate AttainedAt(b: Board, maximizing: bool, n: nat, j: nat)
    requires n <= 9
  {
    j < n && b[j] == Empty &&
    Value(b[j := Mark(Mover(maximizing))], !maximizing) == ChildrenValue(b, maximizing, n)
  }

  /** Some child reached so far attains the best value: the running
      `maxEval`/`minEval` is the value of one of the node's moves. */
  lemma {:induction false} SomeChildAttainsValue(b: Board, maximizing: bool, n: nat)
    requires n <= 9 && exists j :: 0 <= j < n && b[j] == Empty
    ensures exists j :: AttainedAt(b, maximizing, n, j)
  {
    var v := ChildrenValue(b, maximizing, n);
    var child := Value(b[n - 1 := Mark(Mover(maximizing))], !maximizing);
    ChildrenValueStep(b, maximizing, n);
    if b[n - 1] == Empty && v == child {
      assert AttainedAt(b, maximizing, n, n - 1);
    } else {
      assert exists j :: 0 <= j < n - 1 && b[j] == Empty;
      SomeChildAttainsValue(b, maximizing, n - 1);
      var j :| AttainedAt(b, maximizing, n - 1, j);
      assert AttainedAt(b, maximizing, n, j);
    }
  }




  /** The guarantee of fail-soft alpha-beta for a result `v` searched with
      the window (`alpha`, `beta`) against the exact value: inside the window
      it is exact; at or below `alpha` it is an upper bound; at or above
      `beta` it is a lower bound. */
  predicate WithinWindow(v: int, exact: int, alpha: int, beta: int) {
    && (v <= alpha ==> exact <= v)
    && (beta <= v ==> v <= exact)
    && (alpha < v < beta ==> v == exact)
  }

  /** The state of the `for` loop of a node after some cells: the running
      `maxEval` (or `minEval`), the node's own copy of `alpha` (or `beta`),
      and whether the loop has left by its `break`. */
  datatype LoopState = LoopState(best: int, bound: int, cut: bool)

  /** The value `minimax` computes, pruning included. Every argument is
      explicit, so this is the function the method is proved against. */
  function AlphaBeta(b: Board, maximizing: bool, alpha: int, beta: int): int
    decreases CountEmpty(b), 1
  {
    if TerminalScore(b).Some? then TerminalScore(b).value
    else NodeLoop(b, maximizing, alpha, beta, 9).best
  }

  /** The loop of a node once it has visited the cells below `n`. A
      maximising node raises its `alpha`, a minimising node lowers its
      `beta`, and either stops once `beta <= alpha`. */
  function NodeLoop(b: Board, maximizing: bool, alpha: int, beta: int, n: nat): LoopState
    requires n <= 9
    decreases CountEmpty(b), 0, n
  {
    if n == 0 then
      if maximizing then LoopState(NegInf, alpha, false) else LoopState(PosInf, beta, false)
    else
      var s := NodeLoop(b, maximizing, alpha, beta, n - 1);
      if s.cut || b[n - 1] != Empty then s
      else
        FillingLowersCount(b, n - 1, Mover(maximizing));
        var child := b[n - 1 := Mark(Mover(maximizing))];
        if maximizing then
          var eval := AlphaBeta(child, false, s.bound, beta);
          var bound := Max(s.bound, eval);
          LoopState(Max(s.best, eval), bound, beta <= bound)
        else
          var eval := AlphaBeta(child, true, alpha, s.bound);
          var bound := Min(s.bound, eval);
          LoopState(Min(s.best, eval), bound, bound <= alpha)
  }

  /** One more cell of a loop that has not cut: an occupied cell is
      skipped, an empty one is searched with the node's current window. */
  lemma LoopNext(b: Board, maximizing: bool, alpha: int, beta: int, i: nat)
    requires i < 9
    requires !NodeLoop(b, maximizing, alpha, beta, i).cut
    ensures var s := NodeLoop(b, maximizing, alpha, beta, i);
            var child := b[i := Mark(Mover(maximizing))];
            NodeLoop(b, maximizing, alpha, beta, i + 1) ==
              if b[i] != Empty then s
              else if maximizing then
                var eval := AlphaBeta(child, false, s.bound, beta);
                LoopState(Max(s.best, eval), Max(s.bound, eval), beta <= Max(s.bound, eval))
              else
                var eval := AlphaBeta(child, true, alpha, s.bound);
                LoopState(Min(s.best, eval), Min(s.bound, eval), Min(s.bound, eval) <= alpha)
  {
  }

  /** After a cut the loop visits no more cells. */
  lemma {:induction false} CutIsFinal(b: Board, maximizing: bool, alpha: int, beta: int, k: nat, n: nat)
    requires k <= n <= 9
    requires NodeLoop(b, maximizing, alpha, beta, k).cut
    ensures NodeLoop(b, maximizing, alpha, beta, n) == NodeLoop(b, maximizing, alpha, beta, k)
  {
    if k < n {
      CutIsFinal(b, maximizing, alpha, beta, k, n - 1);
    }
  }

  /** What the loop of a maximising node knows after the cells below `n`:
      its `alpha` is the larger of the entry `alpha` and `maxEval`; a cut
      has found a value at least `beta` that the exact value reaches;
      otherwise `maxEval` is exact above `alpha` and an upper bound of the
      exact value at or below it. */
  predicate MaxLoopInvariant(b: Board, alpha: int, beta: int, n: nat, s: LoopState)
    requires n <= 9
  {
    && s.bound == Max(alpha, s.best)
    && NegInf <= s.best <= 1
    && (s.cut ==> beta <= s.best <= ChildrenValue(b, true, 9))
    && (!s.cut ==>
          && s.bound < beta
          && (alpha < s.best ==> s.best == ChildrenValue(b, true, n))
          && (s.best <= alpha ==> ChildrenValue(b, true, n) <= s.best))
  }

  /** The mirror image of `MaxLoopInvariant` for a minimising node. */
  predicate MinLoopInvariant(b: Board, alpha: int, beta: int, n: nat, s: LoopState)
    requires n <= 9
  {
    && s.bound == Min(beta, s.best)
    && -1 <= s.best <= PosInf
    && (s.cut ==> ChildrenValue(b, false, 9) <= s.best <= alpha)
    && (!s.cut ==>
          && alpha < s.bound
          && (s.best < beta ==> s.best == ChildrenValue(b, false, n))
          && (beta <= s.best ==> s.best <= ChildrenValue(b, false, n)))
  }

  /** One visited cell keeps `MaxLoopInvariant`. */
  lemma MaxLoopStep(b: Board, alpha: int, beta: int, n: nat, s: LoopState, eval: int)
    requires n < 9 && b[n] == Empty && !s.cut
    requires MaxLoopInvariant(b, alpha, beta, n, s)
    requires -1 <= eval <= 1
    requires WithinWindow(eval, Value(b[n := Mark(O)], false), s.bound, beta)
    ensures MaxLoopInvariant(b, alpha, beta, n + 1,
              LoopState(Max(s.best, eval), Max(s.bound, eval), beta <= Max(s.bound, eval)))
  {
    assert ChildrenValue(b, true, n + 1)
        == Max(ChildrenValue(b, true, n), Value(b[n := Mark(O)], false));
    if beta <= Max(s.bound, eval) {
      ChildBoundsValue(b, true, n, 9);
    }
  }

  /** One visited cell keeps `MinLoopInvariant`. */
  lemma MinLoopStep(b: Board, alpha: int, beta: int, n: nat, s: LoopState, eval: int)
    requires n < 9 && b[n] == Empty && !s.cut
    requires MinLoopInvariant(b, alpha, beta, n, s)
    requires -1 <= eval <= 1
    requires WithinWindow(eval, Value(b[n := Mark(X)], true), alpha, s.bound)
    ensures MinLoopInvariant(b, alpha, beta, n + 1,
              LoopState(Min(s.best, eval), Min(s.bound, eval), Min(s.bound, eval) <= alpha))
  {
    assert ChildrenValue(b, false, n + 1)
        == Min(ChildrenValue(b, false, n), Value(b[n := Mark(X)], true));
    if Min(s.bound, eval) <= alpha {
      ChildBoundsValue(b, false, n, 9);
    }
  }

  /** A cell the loop does not search leaves either invariant as it was. */
  lemma LoopSkip(b: Board, maximizing: bool, alpha: int, beta: int, n: nat, s: LoopState)
    requires n < 9 && (s.cut || b[n] != Empty)
    requires maximizing ==> MaxLoopInvariant(b, alpha, beta, n, s)
    requires !maximizing ==> MinLoopInvariant(b, alpha, beta, n, s)
    ensures maximizing ==> MaxLoopInvariant(b, alpha, beta, n + 1, s)
    ensures !maximizing ==> MinLoopInvariant(b, alpha, beta, n + 1, s)
  {
    if !s.cut {
      assert ChildrenValue(b, maximizing, n + 1) == ChildrenValue(b, maximizing, n);
    }
  }

  /** The loop of a maximising node keeps its invariant over every cell. */
  lemma {:induction false} MaxNodeLoopSound(b: Board, alpha: int, beta: int, n: nat)
    requires n <= 9
    requires NegInf <= alpha < beta <= PosInf
    ensures MaxLoopInvariant(b, alpha, beta, n, NodeLoop(b, true, alpha, beta, n))
    decreases CountEmpty(b), 0, n
  {
    if n > 0 {
      MaxNodeLoopSound(b, alpha, beta, n - 1);
      var s := NodeLoop(b, true, alpha, beta, n - 1);
      if !s.cut {
        LoopNext(b, true, alpha, beta, n - 1);
      }
      if !s.cut && b[n - 1] == Empty {
        var child := b[n - 1 := Mark(O)];
        FillingLowersCount(b, n - 1, O);
        AlphaBetaSound(child, false, s.bound, beta);
        MaxLoopStep(b, alpha, beta, n - 1, s, AlphaBeta(child, false, s.bound, beta));
      } else {
        LoopSkip(b, true, alpha, beta, n - 1, s);
      }
    }
  }

  /** The loop of a minimising node keeps its invariant over every cell. */
  lemma {:induction false} MinNodeLoopSound(b: Board, alpha: int, beta: int, n: nat)
    requires n <= 9
    requires NegInf <= alpha < beta <= PosInf
    ensures MinLoopInvariant(b, alpha, beta, n, NodeLoop(b, false, alpha, beta, n))
    decreases CountEmpty(b), 0, n
  {
    if n > 0 {
      MinNodeLoopSound(b, alpha, beta, n - 1);
      var s := NodeLoop(b, false, alpha, beta, n - 1);
      if !s.cut {
        LoopNext(b, false, alpha, beta, n - 1);
      }
      if !s.cut && b[n - 1] == Empty {
        var child := b[n - 1 := Mark(X)];
        FillingLowersCount(b, n - 1, X);
        AlphaBetaSound(child, true, alpha, s.bound);
        MinLoopStep(b, alpha, beta, n - 1, s, AlphaBeta(child, true, alpha, s.bound));
      } else {
        LoopSkip(b, false, alpha, beta, n - 1, s);
      }
    }
  }

  /** The guarantee of alpha-beta pruning: searched with a window inside
      (-Infinity, Infinity), the pruned value is a score, exact inside the
      window and a bound on the unpruned value outside it. */
  lemma {:induction false} AlphaBetaSound(b: Board, maximizing: bool, alpha: int, beta: int)
    requires NegInf <= alpha < beta <= PosInf
    ensures -1 <= AlphaBeta(b, maximizing, alpha, beta) <= 1
    ensures WithinWindow(AlphaBeta(b, maximizing, alpha, beta), Value(b, maximizing), alpha, beta)
    decreases CountEmpty(b), 1
  {
    if TerminalScore(b) == None {
      if maximizing {
        MaxNodeLoopSound(b, alpha, beta, 9);
      } else {
        MinNodeLoopSound(b, alpha, beta, 9);
      }
      assert !Full(b);
    }
  }

  /** Called with the window (-Infinity, Infinity), pruning never changes
      the result: `minimax` agrees with plain minimax. */
  lemma PruningAgreesWithMinimax(b: Board, maximizing: bool)
    ensures AlphaBeta(b, maximizing, NegInf, PosInf) == Value(b, maximizing)
  {
    AlphaBetaSound(b, maximizing, NegInf, PosInf);
  }

  /** The `scores` lookup at a finished board: an X line scores -1 even when
      O also has one, an O line alone scores +1, and a full board with no
      line scores 0, whether or not the search prunes. */
  lemma TerminalScores(b: Board, maximizing: bool, alpha: int, beta: int)
    ensures ThreeInARow(b, X) ==>
              AlphaBeta(b, maximizing, alpha, beta) == -1 && Value(b, maximizing) == -1
    ensures !ThreeInARow(b, X) && ThreeInARow(b, O) ==>
              AlphaBeta(b, maximizing, alpha, beta) == 1 && Value(b, maximizing) == 1
    ensures !ThreeInARow(b, X) && !ThreeInARow(b, O) && Full(b) ==>
              AlphaBeta(b, maximizing, alpha, beta) == 0 && Value(b, maximizing) == 0
  {
  }

  /** `minimax(board, depth, isMaximizing, alpha, beta)`: the board array is
      the shared `gameBoard`, written and restored for every hypothetical
      move; `depth` is passed along and never read. */
  method Minimax(board: array<Cell>, depth: nat, isMaximizing: bool, alpha: int, beta: int)
    returns (r: int)
    requires board.Length == 9
    modifies board
    ensures board[..] == old(board[..])
    ensures r == AlphaBeta(board[..], isMaximizing, alpha, beta)
    decreases CountEmpty(board[..]), 1
  {
    var winner: Option<Player> :=
      if CheckWinner(board[..], X) then Some(X)
      else if CheckWinner(board[..], O) then Some(O)
      else None;
    if winner.Some? {
      return WinScore(winner.value);
    }
    if Full(board[..]) {
      return TieScore;
    }
    if isMaximizing {
      r := MaxNode(board, depth, alpha, beta);
    } else {
      r := MinNode(board, depth, alpha, beta);
    }
  }

  /** The `for` loop of a maximising node: O's mark goes into each empty
      cell in turn and is taken back after the recursive call. */
  method MaxNode(board: array<Cell>, depth: nat, alpha: int, beta: int) returns (r: int)
    requires board.Length == 9
    modifies board
    ensures board[..] == old(board[..])
    ensures r == NodeLoop(old(board[..]), true, alpha, beta, 9).best
    decreases CountEmpty(board[..]), 0
  {
    ghost var b: Board := board[..];
    var maxEval := NegInf;
    var a := alpha;
    var i := 0;
    while i < board.Length
      invariant 0 <= i <= 9
      invariant board[..] == b
      invariant NodeLoop(b, true, alpha, beta, i) == LoopState(maxEval, a, false)
    {
      LoopNext(b, true, alpha, beta, i);
      if board[i] == Empty {
        board[i] := Mark(O);
        assert board[..] == b[i := Mark(O)];
        FillingLowersCount(b, i, O);
        var eval := Minimax(board, depth + 1, false, a, beta);
        board[i] := Empty;
        assert board[..] == b;
        maxEval := Max(maxEval, eval);
        a := Max(a, eval);
        if beta <= a {
          CutIsFinal(b, true, alpha, beta, i + 1, 9);
          break;
        }
      }
      i := i + 1;
    }
    r := maxEval;
  }

  /** The `for` loop of a minimising node, placing X's mark. */
  method MinNode(board: array<Cell>, depth: nat, alpha: int, beta: int) returns (r: int)
    requires board.Length == 9
    modifies board
    ensures board[..] == old(board[..])
    ensures r == NodeLoop(old(board[..]), false, alpha, beta, 9).best
    decreases CountEmpty(board[..]), 0
  {
    ghost var b: Board := board[..];
    var minEval := PosInf;
    var bt := beta;
    var i := 0;
    while i < board.Length
      invariant 0 <= i <= 9
      invariant board[..] == b
      invariant NodeLoop(b, false, alpha, beta, i) == LoopState(minEval, bt, false)
    {
      LoopNext(b, false, alpha, beta, i);
      if board[i] == Empty {
        board[i] := Mark(X);
        assert board[..] == b[i := Mark(X)];
        FillingLowersCount(b, i, X);
        var eval := Minimax(board, depth + 1, true, alpha, bt);
        board[i] := Empty;
        assert board[..] == b;
        minEval := Min(minEval, eval);
        bt := Min(bt, eval);
        if bt <= alpha {
          CutIsFinal(b, false, alpha, beta, i + 1, 9);
          break;
        }
      }
      i := i + 1;
    }
    r := minEval;
  }


  /** The score `getBestMove` records for cell `k`: O's mark placed there,
      then X to move. */
  function MoveScore(b: Board, k: nat): (s: int)
    requires k < 9
    ensures -1 <= s <= 1
  {
    Value(b[k := Mark(O)], false)
  }

  /** `k` is an empty cell whose score is maximal and no lower-indexed empty
      cell reaches that score. */
  predicate FirstBestCell(b: Board, k: nat) {
    && k < 9 && b[k] == Empty
    && (forall j :: 0 <= j < 9 && b[j] == Empty ==> MoveScore(b, j) <= MoveScore(b, k))
    && (forall j :: 0 <= j < k && b[j] == Empty ==> MoveScore(b, j) < MoveScore(b, k))
  }

  /** The variables `bestScore` and `move` of `getBestMove`. */
  datatype ScanState = ScanState(bestScore: int, move: Option<nat>)

  /** The state of the `forEach` of `getBestMove` once it has visited the
      cells below `n`. */
  function Scan(b: Board, n: nat): ScanState
    requires n <= 9
  {
    if n == 0 then ScanState(NegInf, None)
    else
      var s := Scan(b, n - 1);
      if b[n - 1] == Empty && MoveScore(b, n - 1) > s.bestScore then
        ScanState(MoveScore(b, n - 1), Some(n - 1))
      else
        s
  }

  /** The score of every cell, as `getBestMove` would record it. */
  function Scores(b: Board): (s: seq<int>)
    ensures |s| == 9
    ensures forall k :: 0 <= k < 9 ==> s[k] == MoveScore(b, k) && -1 <= s[k] <= 1
  {
    seq(9, k requires 0 <= k < 9 => MoveScore(b, k))
  }

  /** The invariant of that `forEach` after the cells below `n`, for cell
      scores `scores`: no move yet exactly when no cell so far was empty,
      and otherwise `move` is the first visited empty cell of maximal score,
      with that score in `bestScore`. */
  ghost predicate ScanInvariant(b: Board, scores: seq<int>, n: nat, s: ScanState)
    requires n <= 9 && |scores| == 9
  {
    && (s.move == None <==> forall j :: 0 <= j < n ==> b[j] != Empty)
    && (s.move == None ==> s.bestScore == NegInf)
    && (s.move.Some? ==>
          && s.move.value < n && b[s.move.value] == Empty
          && s.bestScore == scores[s.move.value]
          && (forall j :: 0 <= j < n && b[j] == Empty ==> scores[j] <= s.bestScore)
          && (forall j :: 0 <= j < s.move.value && b[j] == Empty ==> scores[j] < s.bestScore))
  }

  /** One iteration of the `forEach` keeps its invariant. */
  lemma ScanStep(b: Board, scores: seq<int>, n: nat, s: ScanState)
    requires n < 9 && |scores| == 9 && ScanInvariant(b, scores, n, s)
    requires NegInf < scores[n]
    ensures ScanInvariant(b, scores, n + 1,
              if b[n] == Empty && scores[n] > s.bestScore then ScanState(scores[n], Some(n)) else s)
  {
  }

  lemma {:induction false} ScanSound(b: Board, n: nat)
    requires n <= 9
    ensures ScanInvariant(b, Scores(b), n, Scan(b, n))
  {
    if n > 0 {
      ScanSound(b, n - 1);
      ScanStep(b, Scores(b), n - 1, Scan(b, n - 1));
    }
  }

  /** The move `getBestMove` returns: none on a full board, otherwise the
      lowest-indexed empty cell of maximal score. */
  function BestMove(b: Board): (m: Option<nat>)
    ensures m == None <==> Full(b)
    ensures m.Some? ==> FirstBestCell(b, m.value)
  {
    ScanSound(b, 9);
    Scan(b, 9).move
  }

  /** The first-best cell is unique, so it characterises `BestMove`. */
  lemma BestMoveCharacterized(b: Board, k: nat)
    ensures BestMove(b) == Some(k) <==> FirstBestCell(b, k)
  {
    if FirstBestCell(b, k) {
      assert FirstBestCell(b, BestMove(b).value);
    }
  }

  /** On a board where the game goes on, the cell `getBestMove` picks for O
      attains the minimax value of O to move: no other move does better
      against best play by X. */
  lemma BestMoveIsOptimal(b: Board)
    requires TerminalScore(b) == None
    ensures BestMove(b).Some?
    ensures MoveScore(b, BestMove(b).value) == Value(b, true)
  {
    var k := BestMove(b).value;
    ChildBoundsValue(b, true, k, 9);
    SomeChildAttainsValue(b, true, 9);
  }

  /** With a single empty cell, that cell is the move. */
  lemma SingleEmptyCellIsChosen(b: Board, k: nat)
    requires k < 9 && b[k] == Empty
    requires forall j :: 0 <= j < 9 && j != k ==> b[j] != Empty
    ensures BestMove(b) == Some(k)
  {
  }

  /** Placing O's mark cannot give X a line, so a cell where O completes a
      line on a board where X has none scores the maximum, +1. */
  lemma ImmediateWinScoresOne(b: Board, k: nat)
    requires k < 9 && b[k] == Empty
    requires !ThreeInARow(b, X)
    requires ThreeInARow(b[k := Mark(O)], O)
    ensures MoveScore(b, k) == 1
  {
    var after := b[k := Mark(O)];
    if ThreeInARow(after, X) {
      LinesOfFewerMarks(after, b, X);
    }
  }

  /** O to move on `O O _ / X X _ / _ _ _`: `getBestMove` completes the top
      row at index 2 rather than blocking X. */
  lemma CompletingMoveIsChosen(b: Board)
    requires b == [Mark(O), Mark(O), Empty, Mark(X), Mark(X), Empty, Empty, Empty, Empty]
    ensures BestMove(b) == Some(2)
  {
    assert !ThreeInARow(b, X) by {
      assert At(b, 0, 0) == Mark(O) && At(b, 1, 1) == Mark(X) && At(b, 2, 0) == Empty;
      assert At(b, 2, 1) == Empty && At(b, 2, 2) == Empty;
    }
    assert At(b[2 := Mark(O)], 0, 0) == Mark(O) && At(b[2 := Mark(O)], 0, 1) == Mark(O);
    assert At(b[2 := Mark(O)], 0, 2) == Mark(O);
    ImmediateWinScoresOne(b, 2);
    assert FirstBestCell(b, BestMove(b).value);
  }

  /** `getBestMove()`: tries O's mark in each empty cell in ascending order,
      scores it with a full-window search for X to move, undoes it, and keeps
      the first cell of strictly greater score. */
  method GetBestMove(board: array<Cell>) returns (move: Option<nat>)
    requires board.Length == 9
    modifies board
    ensures board[..] == old(board[..])
    ensures move == BestMove(old(board[..]))
  {
    ghost var b: Board := board[..];
    var bestScore := NegInf;
    move := None;
    var index := 0;
    while index < board.Length
      invariant 0 <= index <= 9
      invariant board[..] == b
      invariant ScanState(bestScore, move) == Scan(b, index)
    {
      if board[index] == Empty {
        board[index] := Mark(O);
        assert board[..] == b[index := Mark(O)];
        var score := Minimax(board, 0, false, NegInf, PosInf);
        PruningAgreesWithMinimax(b[index := Mark(O)], false);
        board[index] := Empty;
        assert board[..] == b;
        if score > bestScore {
          bestScore := score;
          move := Some(index);
        }
      }
      index := index + 1;
    }
  }
}

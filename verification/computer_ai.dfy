/**
 The computer player (ComputerAI). It always plays Cross against Nought and
 picks its move in this order: a random opening move on an empty board, a
 random free cell of the region when no cell borders the play, a move that
 wins at once, a move that blocks an immediate win of the opponent, and
 finally the candidate with the highest EvaluateMove score.

 The game's board is a mutable dictionary in the program; here it is a value
 threaded through the simulations, so that the board handed back can be
 compared with the board received.
 */
module ComputerAI {
  import opened Board
  import opened RunLength
  import opened Candidates

  const ComputerMark: Mark := Cross
  const OpponentMark: Mark := Nought

  /** The starting value of the best score in the scoring loop (int.MinValue). */
  const IntMinValue: int := -0x8000_0000

  /** Errors GetComputerMove reports. */
  datatype AiError = NotComputersTurn

  datatype MoveResult = Chosen(move: Point) | Failed(error: AiError)

  /**
   TrySimulateMove: put `state` on `move`, ask the win check, then remove the
   key again. The board comes back unchanged exactly when `move` was free; an
   occupied cell would lose its mark, which is why only candidates are passed.
   */
  function TrySimulateMove(board: Board, move: Point, state: Mark, checkWin: WinCheck): (r: (bool, Board))
    ensures r.0 == WinsAt(board, move, state, checkWin)
    ensures move !in board ==> r.1 == board
    ensures move in board ==> r.1.Keys == board.Keys - {move}
    ensures forall q :: q in r.1 ==> q in board && r.1[q] == board[q]
  {
    var placed := board[move := state];
    var isWinning := checkWin(placed, move);
    (isWinning, placed - {move})
  }

  /** Some candidate lets side `s` win at once. */
  ghost predicate SomeCandidateWins(board: Board, s: Mark, checkWin: WinCheck)
  {
    exists c :: IsCandidate(board, c) && WinsAt(board, c, s, checkWin)
  }

  /**
   GetComputerMove. `currentPlayer` is the game's current player and
   `checkWin` its win check. The random choices of the program become
   arbitrary choices, and "the first" element of the candidate set becomes
   "some" element. `boardAfter` is the game's board once the call returns.
   The random fallback loop of the program only ends when the region still has
   a free cell, so that is demanded of the caller.
   */
  method GetComputerMove(board: Board, currentPlayer: Mark, checkWin: WinCheck)
    returns (result: MoveResult, boardAfter: Board)
    requires currentPlayer == ComputerMark ==> RegionHasFreeCell(board)
    ensures boardAfter == board
    ensures result.Failed? <==> currentPlayer != ComputerMark
    ensures result.Failed? ==> result.error == NotComputersTurn
    ensures result.Chosen? ==> InRegion(result.move)
    ensures result.Chosen? ==> result.move !in board
    // 1. a winning move is taken when there is one
    ensures result.Chosen? && SomeCandidateWins(board, ComputerMark, checkWin) ==>
      IsCandidate(board, result.move) && WinsAt(board, result.move, ComputerMark, checkWin)
    // 2. otherwise an immediate win of the opponent is blocked
    ensures result.Chosen? && !SomeCandidateWins(board, ComputerMark, checkWin)
                           && SomeCandidateWins(board, OpponentMark, checkWin) ==>
      IsCandidate(board, result.move) && WinsAt(board, result.move, OpponentMark, checkWin)
    // 3. otherwise the best-scoring candidate is played
    ensures result.Chosen? && (exists c :: IsCandidate(board, c))
                           && !SomeCandidateWins(board, ComputerMark, checkWin)
                           && !SomeCandidateWins(board, OpponentMark, checkWin) ==>
      && IsCandidate(board, result.move)
      && forall c :: IsCandidate(board, c) ==>
        EvaluateMove(board, c, ComputerMark) <= EvaluateMove(board, result.move, ComputerMark)
  {
    if currentPlayer != ComputerMark {
      return Failed(NotComputersTurn), board;
    }

    // Opening move: a random cell of the region.
    if |board| == 0 {
      var x :| MinX <= x <= MaxX;
      var y :| MinY <= y <= MaxY;
      return Chosen(Point(x, y)), board;
    }

    var candidates := GetCandidateMoves(board);
    // No cell borders the play: a random free cell of the region.
    if candidates == {} {
      var x, y :| MinX <= x <= MaxX && MinY <= y <= MaxY && Point(x, y) !in board;
      return Chosen(Point(x, y)), board;
    }

    var current := board;

    // 1. Win at once if possible.
    var todo := candidates;
    while todo != {}
      invariant todo <= candidates
      invariant current == board
      invariant forall c :: c in candidates - todo ==> !WinsAt(board, c, ComputerMark, checkWin)
      decreases |todo|
    {
      var move :| move in todo;
      var (isWinning, after) := TrySimulateMove(current, move, ComputerMark, checkWin);
      current := after;
      if isWinning {
        return Chosen(move), current;
      }
      todo := todo - {move};
    }

    // 2. Block the opponent's immediate win.
    todo := candidates;
    while todo != {}
      invariant todo <= candidates
      invariant current == board
      invariant forall c :: c in candidates - todo ==> !WinsAt(board, c, OpponentMark, checkWin)
      decreases |todo|
    {
      var move :| move in todo;
      var (isWinning, after) := TrySimulateMove(current, move, OpponentMark, checkWin);
      current := after;
      if isWinning {
        return Chosen(move), current;
      }
      todo := todo - {move};
    }

    // 3. The candidate with the highest score; the first one seen wins a tie.
    var chosen :| chosen in candidates;
    var bestScore := IntMinValue;
    todo := candidates;
    while todo != {}
      invariant todo <= candidates
      invariant chosen in candidates
      invariant bestScore == IntMinValue || bestScore == EvaluateMove(board, chosen, ComputerMark)
      invariant forall c :: c in candidates - todo ==> EvaluateMove(board, c, ComputerMark) <= bestScore
      decreases |todo|
    {
      var move :| move in todo;
      var score := EvaluateMove(current, move, ComputerMark);
      if score > bestScore {
        bestScore := score;
        chosen := move;
      }
      todo := todo - {move};
    }
    return Chosen(chosen), current;
  }
}

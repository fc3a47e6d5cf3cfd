# Computer player of the RGR-OOP tic-tac-toe game, in Dafny

This project models `ComputerAI`, the computer opponent of the RGR-OOP
WinForms game. Players place crosses and noughts on an unbounded board.
The computer always plays Cross. It picks its next move as follows:

- **Wrong turn:** if it is not Cross's turn, it reports an invalid-operation error.
- **Opening move:** on an empty board, it picks a random cell of the 30 x 10 region `0..29 x 0..9`.
- **Candidates:** otherwise it collects the free cells of the region that touch an occupied cell in one of the 8 directions. If there are none, it picks a random free cell of the region.
- **Win:** among the candidates, it takes a move that wins at once.
- **Block:** if there is none, it blocks a move that would let Nought win at once.
- **Score:** otherwise it plays the candidate with the highest score. The score is the longest run of crosses along one of the four axes that the move would make.

Files:

- `board.dfy` (module `Board`): cells, marks, and the sparse board `map<Point, Mark>`.
  It also holds the region constants and the abstract win check.
  The win check is `GameLogic.CheckWin`, passed in as a function-typed parameter.
  Nothing is assumed about the win length.
- `run_length.dfy` (module `RunLength`): `CountAdjacent` and `EvaluateMove`, with their lemmas.
- `candidates.dfy` (module `Candidates`): `GetCandidateMoves` and the declarative candidate predicate.
- `computer_ai.dfy` (module `ComputerAI`): `TrySimulateMove` and `GetComputerMove`.

The program mutates the game's board in place while it simulates moves.
The model threads the board through those simulations as a value instead.
`GetComputerMove` hands back the board it ends with, so the postcondition
`boardAfter == board` states that the simulate-and-remove steps leave no trace.
The calls to `Random` and the iteration order of `HashSet` become arbitrary
choices (`:|`). So "the first candidate that wins" becomes "some candidate that
wins", and a tie in the score may go to any of the tied candidates.

Two behaviours of the code that the model keeps:

- On a full region the random fallback (`ComputerAI.cs:48-54`) never ends: it keeps drawing occupied cells. The model therefore asks the caller for a free cell in the region whenever it is Cross's turn. With a full region there are no candidates (`Candidates.FullRegionHasNoCandidates`), and the board is not empty. So this is exactly the condition under which the code's loop ends.
- The opening move is any cell of `0..29 x 0..9`.

## Model

| member | source | states |
|---|---|---|
| `RunLength.CountAdjacent` | rgr_oop/rgr_oop/Logic/ComputerAI.cs:151-161 | the count `n` is the length of the run of the given mark that starts next to `start`: the cells 1..n steps away hold it and the cell n+1 steps away does not; the walk terminates for any non-zero direction and never counts more cells than lie beyond `start` |
| `RunLength.CountAdjacentUnique` | rgr_oop/rgr_oop/Logic/ComputerAI.cs:151-161 | a count has the run property if and only if it equals CountAdjacent, so the walk computes the one true run length |
| `RunLength.CountAdjacentBounded` | rgr_oop/rgr_oop/Logic/ComputerAI.cs:151-161 | a run never exceeds the number of occupied cells |
| `RunLength.CountAdjacentIgnoresBehind` | rgr_oop/rgr_oop/Logic/ComputerAI.cs:154-158 | the walk starts at the neighbour of `start` and only moves away, so changing `start` or any cell behind it leaves the count unchanged |
| `RunLength.AxisRunBounded` | rgr_oop/rgr_oop/Logic/ComputerAI.cs:139-143 | the two sides of an axis see disjoint cells, so the run through a move along one axis is between 1 and 1 + the number of occupied cells |
| `RunLength.ScoreFrom` | rgr_oop/rgr_oop/Logic/ComputerAI.cs:138-145 | the scoring loop over the remaining axes returns at least the running maximum, at least every remaining axis run, and either the running maximum or one of those runs |
| `RunLength.EvaluateMove` | rgr_oop/rgr_oop/Logic/ComputerAI.cs:136-146 | the score is the maximum of the four axis runs (it is one of them and at least each of them) and lies in 1 .. 1 + the number of occupied cells |
| `RunLength.AxisRunAfterPlaying` | rgr_oop/rgr_oop/Logic/ComputerAI.cs:141-143 | placing any mark on the move itself does not change the run through it along an axis |
| `RunLength.EvaluateMoveAfterPlaying` | rgr_oop/rgr_oop/Logic/ComputerAI.cs:133-146 | scoring a move on the current board equals scoring it with the move already played: it is the longest run the move would create |
| `Candidates.NeighboursAreAdjacent` | rgr_oop/rgr_oop/Logic/ComputerAI.cs:113-119 | the offsets -1..1 x -1..1 without (0, 0) give exactly the cells at Chebyshev distance 1 |
| `Candidates.GetCandidateMoves` | rgr_oop/rgr_oop/Logic/ComputerAI.cs:107-131 | a cell is returned if and only if it lies in the region, is not a board key and is at Chebyshev distance 1 from some occupied cell |
| `Candidates.FullRegionHasNoCandidates` | rgr_oop/rgr_oop/Logic/ComputerAI.cs:45-56 | when no cell of the region is free, no cell is a candidate |
| `ComputerAI.TrySimulateMove` | rgr_oop/rgr_oop/Logic/ComputerAI.cs:96-102 | the answer is the win check on the board with the mark placed; the board comes back identical when the cell was free, and when it was occupied it comes back with that one entry removed and nothing else changed |
| `ComputerAI.GetComputerMove` | rgr_oop/rgr_oop/Logic/ComputerAI.cs:27-91 | fails with NotComputersTurn exactly when the current player is not Cross; otherwise the move is in the region and is not a board key; a winning candidate is taken if one exists, else a candidate blocking Nought's immediate win, else a candidate whose score is at least every candidate's score; the board is returned unchanged |

## Left out

- `Forms/TicTacToeForm.cs`: the WinForms handlers, painting, the move-delay timer, the pixel-to-cell mapping and the turn flips. It is presentation code that calls this core.
- `GameLogic` is outside this model. `CheckWin` is a parameter of arbitrary behaviour, `CurrentPlayer` is an input, and `MakeMove` is never called by the computer player.
- `System.Random`: the two random draws become arbitrary choices. No distribution is modelled.
- `HashSet` and `Dictionary` iteration order: only membership and maximality are stated. Which winning, blocking or tied candidate is returned is left open.
- `ComputerAI.GetComputerMove`: the requirement of a free region cell replaces the code's unbounded retry loop. That loop never ends on a full region, and a terminating method cannot model it.
- `RunLength.CountAdjacent`: the requirement of a non-zero direction stands in for the code's behaviour with (0, 0), where `current` stays on `start`: the loop returns 0 at once when `start` is empty or holds the other mark, and never ends when `start` holds the counted mark. The code only passes the eight unit directions.
- 32-bit `int` arithmetic: the counters, scores and coordinates are unbounded integers. Counters and scores stay below the board's size plus one, far from `int.MaxValue`. The coordinate sums `p.X + dx` (`ComputerAI.cs:119`) and `current.X + dx` (`ComputerAI.cs:158`) could wrap only for cells next to `int.MaxValue` or `int.MinValue`, which the game's click-to-cell mapping never produces. Only `int.MinValue`, the score loop's starting value, appears as a constant.
- The exception message text of the invalid-operation error is not modelled, only its kind.

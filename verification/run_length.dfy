/**
 Run lengths along a direction (CountAdjacent) and the positional score of a
 move (EvaluateMove) of the computer player.
 */
module RunLength {
  import opened Board

  /** Position of `q` along direction (dx, dy); it grows by dx*dx + dy*dy per step. */
  function Proj(q: Point, dx: int, dy: int): int
  {
    q.x * dx + q.y * dy
  }

  /** The occupied cells lying strictly beyond `p` when looking along (dx, dy). */
  ghost function Beyond(board: Board, p: Point, dx: int, dy: int): set<Point>
  {
    set q | q in board && Proj(q, dx, dy) > Proj(p, dx, dy)
  }

  lemma StepAdvances(p: Point, dx: int, dy: int)
    requires dx != 0 || dy != 0
    ensures Proj(Step(p, dx, dy), dx, dy) > Proj(p, dx, dy)
  {
    assert Proj(Step(p, dx, dy), dx, dy) == Proj(p, dx, dy) + dx * dx + dy * dy;
    assert dx * dx > 0 || dy * dy > 0;
  }

  lemma ShiftStep(p: Point, dx: int, dy: int, k: int)
    ensures Shift(Step(p, dx, dy), dx, dy, k) == Shift(p, dx, dy, k + 1)
  {
    assert (k + 1) * dx == k * dx + dx;
    assert (k + 1) * dy == k * dy + dy;
  }

  /** A subset is never larger than its superset. */
  lemma SubsetSize<T>(a: set<T>, b: set<T>)
    requires a <= b
    ensures |a| <= |b|
  {
    assert b == a + (b - a);
  }

  /** Walking on from an occupied next cell leaves strictly fewer cells ahead. */
  lemma BeyondShrinks(board: Board, p: Point, dx: int, dy: int)
    requires dx != 0 || dy != 0
    requires Step(p, dx, dy) in board
    ensures |Beyond(board, Step(p, dx, dy), dx, dy)| < |Beyond(board, p, dx, dy)|
  {
    var n := Step(p, dx, dy);
    StepAdvances(p, dx, dy);
    var ahead := Beyond(board, n, dx, dy);
    assert ahead + {n} <= Beyond(board, p, dx, dy);
    assert n !in ahead;
    SubsetSize(ahead + {n}, Beyond(board, p, dx, dy));
  }

  lemma BeyondBounded(board: Board, p: Point, dx: int, dy: int)
    ensures |Beyond(board, p, dx, dy)| <= |board|
  {
    SubsetSize(Beyond(board, p, dx, dy), board.Keys);
  }

  /**
   The cells 1..n steps from `start` along (dx, dy) all hold `s`, and the cell
   n+1 steps away does not: `n` is the length of the run of `s` next to `start`.
   */
  ghost predicate IsRunLength(board: Board, start: Point, dx: int, dy: int, s: Mark, n: nat)
  {
    && (forall k :: 1 <= k <= n ==> Holds(board, Shift(start, dx, dy, k), s))
    && !Holds(board, Shift(start, dx, dy, n + 1), s)
  }

  /**
   CountAdjacent: the number of consecutive cells holding `s`, starting from the
   neighbour of `start` in direction (dx, dy). The start cell itself is not
   looked at. With a zero direction the walk would stay on `start` forever
   whenever `start` holds `s`, so that direction is excluded.
   */
  function CountAdjacent(board: Board, start: Point, dx: int, dy: int, s: Mark): (n: nat)
    requires dx != 0 || dy != 0
    ensures IsRunLength(board, start, dx, dy, s, n)
    ensures n <= |Beyond(board, start, dx, dy)|
    decreases |Beyond(board, start, dx, dy)|
  {
    var next := Step(start, dx, dy);
    assert next == Shift(start, dx, dy, 1);
    if Holds(board, next, s) then
      BeyondShrinks(board, start, dx, dy);
      var rest := CountAdjacent(board, next, dx, dy, s);
      RunExtends(board, start, dx, dy, s, rest);
      1 + rest
    else
      0
  }

  /** A run of length `rest` after the neighbour, which holds `s`, is a run of `rest + 1`. */
  lemma RunExtends(board: Board, start: Point, dx: int, dy: int, s: Mark, rest: nat)
    requires Holds(board, Step(start, dx, dy), s)
    requires IsRunLength(board, Step(start, dx, dy), dx, dy, s, rest)
    ensures IsRunLength(board, start, dx, dy, s, rest + 1)
  {
    forall k | 1 <= k <= rest + 1
      ensures Holds(board, Shift(start, dx, dy, k), s)
    {
      if k == 1 {
        assert Shift(start, dx, dy, 1) == Step(start, dx, dy);
      } else {
        ShiftStep(start, dx, dy, k - 1);
      }
    }
    ShiftStep(start, dx, dy, rest + 1);
  }

  /** The run length is unique: CountAdjacent is the only count with the run property. */
  lemma CountAdjacentUnique(board: Board, start: Point, dx: int, dy: int, s: Mark, n: nat)
    requires dx != 0 || dy != 0
    ensures IsRunLength(board, start, dx, dy, s, n) <==> n == CountAdjacent(board, start, dx, dy, s)
  {
  }

  /** A run never has more cells than the board. */
  lemma CountAdjacentBounded(board: Board, start: Point, dx: int, dy: int, s: Mark)
    requires dx != 0 || dy != 0
    ensures CountAdjacent(board, start, dx, dy, s) <= |board|
  {
    BeyondBounded(board, start, dx, dy);
  }

  /**
   The walk only visits cells strictly beyond `start`, so a change at a cell
   that is not beyond it (the start cell itself, in particular) never changes the count.
   */
  lemma {:induction false} CountAdjacentIgnoresBehind(board: Board, start: Point, dx: int, dy: int, s: Mark, c: Point, m: Mark)
    requires dx != 0 || dy != 0
    requires Proj(c, dx, dy) <= Proj(start, dx, dy)
    ensures CountAdjacent(board[c := m], start, dx, dy, s) == CountAdjacent(board, start, dx, dy, s)
    decreases |Beyond(board, start, dx, dy)|
  {
    var next := Step(start, dx, dy);
    StepAdvances(start, dx, dy);
    assert next != c;
    if Holds(board, next, s) {
      BeyondShrinks(board, start, dx, dy);
      CountAdjacentIgnoresBehind(board, next, dx, dy, s, c, m);
    }
  }

  /** The four axes scanned by EvaluateMove: horizontal, vertical and both diagonals. */
  const Axes: seq<(int, int)> := [(1, 0), (0, 1), (1, 1), (1, -1)]

  /** The run through `move` along one axis: both sides plus the move itself. */
  function AxisRun(board: Board, move: Point, axis: (int, int), s: Mark): nat
    requires axis.0 != 0 || axis.1 != 0
  {
    CountAdjacent(board, move, axis.0, axis.1, s) + CountAdjacent(board, move, -axis.0, -axis.1, s) + 1
  }

  lemma ProjOpposite(q: Point, dx: int, dy: int)
    ensures Proj(q, -dx, -dy) == -Proj(q, dx, dy)
  {
  }

  /** The two sides of an axis look at disjoint sets of cells. */
  lemma OppositeSidesDisjoint(board: Board, move: Point, dx: int, dy: int)
    ensures |Beyond(board, move, dx, dy)| + |Beyond(board, move, -dx, -dy)| <= |board|
  {
    var fwd := Beyond(board, move, dx, dy);
    var bwd := Beyond(board, move, -dx, -dy);
    ProjOpposite(move, dx, dy);
    forall q | q in bwd
      ensures q in board && q !in fwd
    {
      ProjOpposite(q, dx, dy);
    }
    assert fwd !! bwd;
    SubsetSize(fwd + bwd, board.Keys);
  }

  /** The run through a move along one axis is at most the move plus every occupied cell. */
  lemma AxisRunBounded(board: Board, move: Point, axis: (int, int), s: Mark)
    requires axis.0 != 0 || axis.1 != 0
    ensures 1 <= AxisRun(board, move, axis, s) <= 1 + |board|
  {
    OppositeSidesDisjoint(board, move, axis.0, axis.1);
  }

  /** The body of EvaluateMove's loop over Axes[i..], with `score` the maximum so far. */
  function ScoreFrom(board: Board, move: Point, s: Mark, i: nat, score: int): (r: int)
    requires i <= |Axes|
    ensures r >= score
    ensures forall j :: i <= j < |Axes| ==> AxisRun(board, move, Axes[j], s) <= r
    ensures r == score || exists j :: i <= j < |Axes| && r == AxisRun(board, move, Axes[j], s)
    decreases |Axes| - i
  {
    if i == |Axes| then
      score
    else
      var count := AxisRun(board, move, Axes[i], s);
      ScoreFrom(board, move, s, i + 1, if score < count then count else score)
  }

  /**
   EvaluateMove: the length of the longest run of `s` that playing `move` would
   make, i.e. the best of the four axes.
   */
  function EvaluateMove(board: Board, move: Point, s: Mark): (score: int)
    ensures forall j :: 0 <= j < |Axes| ==> AxisRun(board, move, Axes[j], s) <= score
    ensures exists j :: 0 <= j < |Axes| && score == AxisRun(board, move, Axes[j], s)
    ensures 1 <= score <= 1 + |board|
  {
    forall j | 0 <= j < |Axes|
      ensures 1 <= AxisRun(board, move, Axes[j], s) <= 1 + |board|
    {
      AxisRunBounded(board, move, Axes[j], s);
    }
    ScoreFrom(board, move, s, 0, 0)
  }

  /** Playing at `move` does not change the run through it along any axis. */
  lemma AxisRunAfterPlaying(board: Board, move: Point, axis: (int, int), s: Mark, m: Mark)
    requires axis.0 != 0 || axis.1 != 0
    ensures AxisRun(board[move := m], move, axis, s) == AxisRun(board, move, axis, s)
  {
    CountAdjacentIgnoresBehind(board, move, axis.0, axis.1, s, move, m);
    CountAdjacentIgnoresBehind(board, move, -axis.0, -axis.1, s, move, m);
  }

  /** Boards whose axis runs through `move` agree give `move` the same score. */
  lemma {:induction false} ScoreFromAgree(board: Board, other: Board, move: Point, s: Mark, i: nat, score: int)
    requires i <= |Axes|
    requires forall j :: i <= j < |Axes| ==> AxisRun(other, move, Axes[j], s) == AxisRun(board, move, Axes[j], s)
    ensures ScoreFrom(other, move, s, i, score) == ScoreFrom(board, move, s, i, score)
    decreases |Axes| - i
  {
    if i < |Axes| {
      var count := AxisRun(board, move, Axes[i], s);
      var best := if score < count then count else score;
      assert ScoreFrom(board, move, s, i, score) == ScoreFrom(board, move, s, i + 1, best);
      assert ScoreFrom(other, move, s, i, score) == ScoreFrom(other, move, s, i + 1, best);
      ScoreFromAgree(board, other, move, s, i + 1, best);
    }
  }

  /**
   Scoring a move on the current board gives the same value as scoring it with
   the move already played: the score is the longest run the move would create.
   */
  lemma EvaluateMoveAfterPlaying(board: Board, move: Point, s: Mark, m: Mark)
    ensures EvaluateMove(board[move := m], move, s) == EvaluateMove(board, move, s)
  {
    forall j | 0 <= j < |Axes|
      ensures AxisRun(board[move := m], move, Axes[j], s) == AxisRun(board, move, Axes[j], s)
    {
      AxisRunAfterPlaying(board, move, Axes[j], s, m);
    }
    ScoreFromAgree(board, board[move := m], move, s, 0, 0);
  }
}

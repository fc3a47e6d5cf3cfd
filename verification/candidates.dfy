/**
 The cells the computer player considers: free cells of the region next to an
 occupied cell (GetCandidateMoves).
 */
module Candidates {
  import opened Board

  /**
   A candidate move: inside the region, not yet occupied, and a king's move away
   from some occupied cell.
   */
  ghost predicate IsCandidate(board: Board, c: Point)
  {
    InRegion(c) && c !in board && exists q :: q in board && Adjacent(q, c)
  }

  /** Every offset (dx, dy) with dx and dy in -1..1, except (0, 0). */
  const Offsets: set<(int, int)> :=
    {(-1, -1), (-1, 0), (-1, 1), (0, -1), (0, 1), (1, -1), (1, 0), (1, 1)}

  /** The eight cells around `p`. */
  function Neighbours(p: Point): set<Point>
  {
    set d | d in Offsets :: Step(p, d.0, d.1)
  }

  /** The neighbour offsets enumerate exactly the cells at Chebyshev distance 1. */
  lemma NeighboursAreAdjacent(p: Point, c: Point)
    ensures c in Neighbours(p) <==> Adjacent(p, c)
  {
    if Adjacent(p, c) {
      var d := (c.x - p.x, c.y - p.y);
      assert d in Offsets;
      assert c == Step(p, d.0, d.1);
    }
  }

  /**
   GetCandidateMoves: for every occupied cell, add each of its eight neighbours
   that lies in the region and is free.
   */
  method GetCandidateMoves(board: Board) returns (candidates: set<Point>)
    ensures forall c :: c in candidates <==> IsCandidate(board, c)
  {
    candidates := {};
    var todo := board.Keys;
    while todo != {}
      invariant todo <= board.Keys
      invariant forall c :: c in candidates <==>
        InRegion(c) && c !in board && exists q :: q in board.Keys - todo && Adjacent(q, c)
      decreases |todo|
    {
      var p :| p in todo;
      var around := set n | n in Neighbours(p) && InRegion(n) && n !in board;
      forall c
        ensures c in around <==> InRegion(c) && c !in board && Adjacent(p, c)
      {
        NeighboursAreAdjacent(p, c);
      }
      candidates := candidates + around;
      todo := todo - {p};
    }
  }

  /** A full region leaves no candidates, whatever else is on the board. */
  lemma FullRegionHasNoCandidates(board: Board, c: Point)
    requires !RegionHasFreeCell(board)
    ensures !IsCandidate(board, c)
  {
  }
}

/**
  reconstructPath: following the cameFrom map back from the end cell and
  painting every cell met on the way as Path. Each redraw is a no-op.
 */
module Backtrack {
  import opened Matrix
  import opened Grid

  /**
    A ranking of the predecessor map: every predecessor ranks strictly
    lower than its cell, and no rank is negative, so chains are finite.
   */
  ghost predicate Ranked(cameFrom: map<Coord, Coord>, rank: Matrix<int>) {
    && Square(rank)
    && forall k :: k in cameFrom ==>
         && InBounds(k, |rank|)
         && InBounds(cameFrom[k], |rank|)
         && 0 <= At(rank, cameFrom[k]) < At(rank, k)
  }

  /** The grid with every cell of path painted Path. */
  function PaintPath(grid: Grid, path: seq<Coord>): (r: Grid)
    requires Square(grid)
    requires forall i :: 0 <= i < |path| ==> InBounds(path[i], |grid|)
    ensures Square(r) && |r| == |grid|
    ensures forall c :: InBounds(c, |grid|) ==> At(r, c) == (if c in path then Path else At(grid, c))
  {
    if |path| == 0 then grid
    else Set(PaintPath(grid, path[..|path| - 1]), path[|path| - 1], Path)
  }

  /** Ranks that fall at every step make a path without repeated cells. */
  lemma {:induction false} FallingRanksDistinct(rank: Matrix<int>, path: seq<Coord>)
    requires Square(rank)
    requires forall i :: 0 <= i < |path| ==> InBounds(path[i], |rank|)
    requires forall i :: 0 <= i < |path| - 1 ==> At(rank, path[i + 1]) < At(rank, path[i])
    ensures forall i, j :: 0 <= i < j < |path| ==> At(rank, path[j]) < At(rank, path[i])
    ensures forall i, j :: 0 <= i < j < |path| ==> path[i] != path[j]
  {
    if |path| > 1 {
      var tail := path[1..];
      FallingRanksDistinct(rank, tail);
      forall i, j | 0 <= i < j < |path|
        ensures At(rank, path[j]) < At(rank, path[i])
      {
        if i > 0 {
          assert path[i] == tail[i - 1] && path[j] == tail[j - 1];
        } else if j > 1 {
          assert path[1] == tail[0] && path[j] == tail[j - 1];
        }
      }
    }
  }

  /** The i-th cell of path is followed by its predecessor. */
  predicate Linked(cameFrom: map<Coord, Coord>, path: seq<Coord>, i: int)
    requires 0 <= i < |path| - 1
  {
    path[i] in cameFrom && cameFrom[path[i]] == path[i + 1]
  }

  /**
    reconstructPath: from end, paint each cell Path and move to its
    predecessor until a cell has none. The rank (the gScore table) falls
    strictly along the way, so the walk ends and visits no cell twice.
   */
  method ReconstructPath(grid: Grid, cameFrom: map<Coord, Coord>, ghost rank: Matrix<int>, end: Coord)
    returns (marked: Grid, path: seq<Coord>)
    requires Square(grid) && InBounds(end, |grid|)
    requires Ranked(cameFrom, rank) && |rank| == |grid|
    ensures |path| > 0 && path[0] == end && path[|path| - 1] !in cameFrom
    ensures forall i :: 0 <= i < |path| - 1 ==> Linked(cameFrom, path, i)
    ensures forall i, j :: 0 <= i < j < |path| ==> path[i] != path[j]
    ensures Square(marked) && |marked| == |grid|
    ensures forall c :: InBounds(c, |grid|) ==> At(marked, c) == (if c in path then Path else At(grid, c))
  {
    var current := end;
    marked := Set(grid, current, Path);
    path := [current];
    assert marked == PaintPath(grid, path);
    while current in cameFrom
      invariant InBounds(current, |grid|)
      invariant |path| > 0 && path[0] == end && path[|path| - 1] == current
      invariant forall i :: 0 <= i < |path| ==> InBounds(path[i], |grid|)
      invariant forall i :: 0 <= i < |path| - 1 ==> Linked(cameFrom, path, i)
      invariant marked == PaintPath(grid, path)
      decreases At(rank, current)
    {
      ghost var before := path;
      current := cameFrom[current];
      marked := Set(marked, current, Path);
      path := path + [current];
      assert path[..|path| - 1] == before;
      forall i | 0 <= i < |path| - 1
        ensures Linked(cameFrom, path, i)
      {
        if i < |before| - 1 {
          assert Linked(cameFrom, before, i);
        }
      }
    }
    forall i | 0 <= i < |path| - 1
      ensures At(rank, path[i + 1]) < At(rank, path[i])
    {
      assert Linked(cameFrom, path, i);
    }
    FallingRanksDistinct(rank, path);
  }
}

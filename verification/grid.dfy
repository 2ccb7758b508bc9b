/**
  The grid of Spots: cell states, construction, the 4-neighbourhood that
  UpdateNeighbours computes, the Manhattan heuristic h, and walks through
  the grid (what "a path exists" means for the search).
 */
module Grid {
  import opened Wrappers
  import opened Matrix

  /**
    The state of a Spot. The Go code encodes it as a colour and compares
    colours with reflect.DeepEqual: White = Empty, Black = Barrier,
    Orange = Start, Turquoise = End, Green = Open, Red = Closed,
    Purple = Path. Each IsX predicate is the discriminator `.X?` and each
    MakeX / Reset is `Set(grid, c, X)`.
   */
  datatype State = Empty | Barrier | Start | End | Open | Closed | Path

  type Grid = Matrix<State>

  /** makeGrid: a rows x rows grid of Empty cells; no grid for rows <= 0. */
  function MakeGrid(rows: int): (r: Option<Grid>)
    ensures r.Some? <==> rows > 0
    ensures r.Some? ==> Square(r.value) && |r.value| == rows
    ensures r.Some? ==> forall c :: InBounds(c, rows) ==> At(r.value, c) == Empty
  {
    if rows <= 0 then None else Some(Fill(rows, Empty))
  }

  // ---------------------------------------------------------------------
  // Neighbourhood

  /** a and b share a side. */
  predicate Adjacent(a: Coord, b: Coord) {
    || (a.row == b.row && (a.col == b.col + 1 || a.col + 1 == b.col))
    || (a.col == b.col && (a.row == b.row + 1 || a.row + 1 == b.row))
  }

  /**
    One move of the search: from a to an in-bounds, side-sharing b that is
    not a Barrier. Whether a itself is a Barrier is never looked at.
   */
  predicate Step(g: Grid, a: Coord, b: Coord) {
    && Square(g)
    && InBounds(a, |g|)
    && InBounds(b, |g|)
    && Adjacent(a, b)
    && !At(g, b).Barrier?
  }

  /** The position of b in the order UpdateNeighbours tries the four sides. */
  function Direction(a: Coord, b: Coord): int {
    if b.row == a.row + 1 then 0       // row + 1
    else if b.row + 1 == a.row then 1  // row - 1
    else if b.col == a.col + 1 then 2  // col + 1
    else 3                             // col - 1
  }

  /**
    UpdateNeighbours: the cells one Step away from c, in the order
    row + 1, row - 1, col + 1, col - 1.
   */
  function Neighbours(g: Grid, c: Coord): (r: seq<Coord>)
    requires Square(g) && InBounds(c, |g|)
    ensures |r| <= 4
    ensures forall x :: x in r <==> Step(g, c, x)
    ensures forall i, j :: 0 <= i < j < |r| ==> Direction(c, r[i]) < Direction(c, r[j])
  {
    var n := |g|;
    var down := Coord(c.row + 1, c.col);
    var up := Coord(c.row - 1, c.col);
    var right := Coord(c.row, c.col + 1);
    var left := Coord(c.row, c.col - 1);
    (if c.row < n - 1 && !At(g, down).Barrier? then [down] else [])
    + (if c.row > 0 && !At(g, up).Barrier? then [up] else [])
    + (if c.col < n - 1 && !At(g, right).Barrier? then [right] else [])
    + (if c.col > 0 && !At(g, left).Barrier? then [left] else [])
  }

  /**
    The neighbour lists depend on which cells are Barriers and on nothing
    else, so painting cells Open, Closed or Path (as the search does) leaves
    every list as it was, and recomputing without a change is idempotent.
   */
  lemma NeighboursSeeOnlyBarriers(g1: Grid, g2: Grid, c: Coord)
    requires Square(g1) && Square(g2) && |g1| == |g2| && InBounds(c, |g1|)
    requires forall d :: InBounds(d, |g1|) ==> (At(g1, d).Barrier? <==> At(g2, d).Barrier?)
    ensures Neighbours(g1, c) == Neighbours(g2, c)
  {
  }

  /** The neighbour cache of every Spot, as the space key rebuilds it. */
  function NeighbourTable(g: Grid): (t: Matrix<seq<Coord>>)
    requires Square(g)
    ensures Square(t) && |t| == |g|
    ensures forall c :: InBounds(c, |g|) ==> forall x :: x in At(t, c) <==> Step(g, c, x)
    ensures forall c :: InBounds(c, |g|) ==> At(t, c) == Neighbours(g, c)
  {
    seq(|g|, r requires 0 <= r < |g| => seq(|g|, k requires 0 <= k < |g| => Neighbours(g, Coord(r, k))))
  }

  // ---------------------------------------------------------------------
  // Heuristic

  function Abs(x: int): nat {
    if x < 0 then -x else x
  }

  /** h: the Manhattan distance between two cells. */
  function H(a: Coord, b: Coord): (d: nat)
    ensures d == 0 <==> a == b
  {
    Abs(a.row - b.row) + Abs(a.col - b.col)
  }

  lemma HSymmetric(a: Coord, b: Coord)
    ensures H(a, b) == H(b, a)
  {
  }

  /** Side-sharing cells are exactly the cells at distance 1. */
  lemma AdjacentIsUnitDistance(a: Coord, b: Coord)
    ensures Adjacent(a, b) <==> H(a, b) == 1
  {
  }

  /** Consistency: one move changes the estimate by at most one. */
  lemma HConsistent(a: Coord, b: Coord, e: Coord)
    requires Adjacent(a, b)
    ensures H(a, e) <= H(b, e) + 1
    ensures H(b, e) <= H(a, e) + 1
  {
  }

  // ---------------------------------------------------------------------
  // Walks

  /** w is a sequence of Steps through g from a to b. */
  ghost predicate Connects(g: Grid, w: seq<Coord>, a: Coord, b: Coord) {
    && Square(g)
    && |w| > 0
    && w[0] == a
    && w[|w| - 1] == b
    && InBounds(a, |g|)
    && forall i :: 0 <= i < |w| - 1 ==> Step(g, w[i], w[i + 1])
  }

  ghost predicate Reachable(g: Grid, a: Coord, b: Coord) {
    exists w :: Connects(g, w, a, b)
  }

  lemma ReachableSelf(g: Grid, a: Coord)
    requires Square(g) && InBounds(a, |g|)
    ensures Reachable(g, a, a)
  {
    assert Connects(g, [a], a, a);
  }

  lemma ReachableExtend(g: Grid, a: Coord, b: Coord, c: Coord)
    requires Reachable(g, a, b) && Step(g, b, c)
    ensures Reachable(g, a, c)
  {
    var w :| Connects(g, w, a, b);
    assert Connects(g, w + [c], a, c);
  }

  /** Every cell a walk enters is not a Barrier; only its first cell may be one. */
  lemma ReachedNotBarrier(g: Grid, a: Coord, b: Coord)
    requires Reachable(g, a, b) && b != a
    ensures InBounds(b, |g|) && !At(g, b).Barrier?
  {
    var w :| Connects(g, w, a, b);
    assert Step(g, w[|w| - 2], w[|w| - 1]);
  }

  /** A walk that leaves a set closed under Step never gets out of it. */
  lemma {:induction false} WalkStaysInside(g: Grid, s: set<Coord>, w: seq<Coord>, a: Coord, b: Coord)
    requires Connects(g, w, a, b) && a in s
    requires forall x, y :: x in s && Step(g, x, y) ==> y in s
    ensures b in s
  {
    if |w| > 1 {
      var prefix := w[..|w| - 1];
      assert Connects(g, prefix, a, w[|w| - 2]);
      WalkStaysInside(g, s, prefix, a, w[|w| - 2]);
      assert Step(g, w[|w| - 2], b);
    }
  }

  /**
    Admissibility: no walk from a to b makes fewer than H(a, b) moves, so
    the Manhattan estimate never overstates the remaining cost.
   */
  lemma {:induction false} HAdmissible(g: Grid, w: seq<Coord>, a: Coord, b: Coord)
    requires Connects(g, w, a, b)
    ensures H(a, b) <= |w| - 1
  {
    if |w| > 1 {
      var prefix := w[..|w| - 1];
      var mid := w[|w| - 2];
      assert Connects(g, prefix, a, mid);
      HAdmissible(g, prefix, a, mid);
      assert Step(g, mid, b);
      HConsistent(mid, b, a);
      HSymmetric(a, mid);
      HSymmetric(a, b);
    }
  }
}

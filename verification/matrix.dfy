/**
  Square matrices indexed by (row, col) coordinates.

  The grid of cells and the gScore/fScore tables of the search are all
  N x N; this module holds what they share: coordinates, bounds, reading
  and writing one entry, and the sum of an integer matrix (the measure that
  shows the search terminates).
 */
module Matrix {

  /** A cell is identified by its row and column, as a Spot is by (row, col). */
  datatype Coord = Coord(row: int, col: int)

  type Matrix<T> = seq<seq<T>>

  predicate InBounds(c: Coord, n: int) {
    0 <= c.row < n && 0 <= c.col < n
  }

  /** Every row is as long as there are rows. */
  predicate Square<T>(m: Matrix<T>) {
    forall r :: 0 <= r < |m| ==> |m[r]| == |m|
  }

  function At<T>(m: Matrix<T>, c: Coord): T
    requires Square(m) && InBounds(c, |m|)
  {
    m[c.row][c.col]
  }

  /** Overwrites one entry; every other entry is left as it was. */
  function Set<T>(m: Matrix<T>, c: Coord, v: T): (r: Matrix<T>)
    requires Square(m) && InBounds(c, |m|)
    ensures Square(r) && |r| == |m|
    ensures At(r, c) == v
    ensures forall d :: InBounds(d, |m|) && d != c ==> At(r, d) == At(m, d)
  {
    m[c.row := m[c.row][c.col := v]]
  }

  /** Two square matrices of one size that agree at every cell are equal. */
  lemma SameEntries<T>(a: Matrix<T>, b: Matrix<T>)
    requires Square(a) && Square(b) && |a| == |b|
    requires forall c :: InBounds(c, |a|) ==> At(a, c) == At(b, c)
    ensures a == b
  {
    forall r | 0 <= r < |a|
      ensures a[r] == b[r]
    {
      forall k | 0 <= k < |a|
        ensures a[r][k] == b[r][k]
      {
        assert At(a, Coord(r, k)) == At(b, Coord(r, k));
      }
    }
  }

  /** An n x n matrix holding v everywhere. */
  function Fill<T>(n: nat, v: T): (r: Matrix<T>)
    ensures Square(r) && |r| == n
    ensures forall c :: InBounds(c, n) ==> At(r, c) == v
  {
    seq(n, _ => seq(n, _ => v))
  }

  // ---------------------------------------------------------------------
  // Sum of an integer matrix

  function RowSum(s: seq<int>): int {
    if |s| == 0 then 0 else s[0] + RowSum(s[1..])
  }

  function Total(m: Matrix<int>): int {
    if |m| == 0 then 0 else RowSum(m[0]) + Total(m[1..])
  }

  lemma {:induction false} RowSumUpdate(s: seq<int>, i: nat, v: int)
    requires i < |s|
    ensures RowSum(s[i := v]) == RowSum(s) - s[i] + v
  {
    if i == 0 {
      assert s[i := v][1..] == s[1..];
    } else {
      assert s[i := v][1..] == s[1..][i - 1 := v];
      RowSumUpdate(s[1..], i - 1, v);
    }
  }

  lemma {:induction false} TotalUpdate(m: Matrix<int>, r: nat, row: seq<int>)
    requires r < |m|
    ensures Total(m[r := row]) == Total(m) - RowSum(m[r]) + RowSum(row)
  {
    if r == 0 {
      assert m[r := row][1..] == m[1..];
    } else {
      assert m[r := row][1..] == m[1..][r - 1 := row];
      TotalUpdate(m[1..], r - 1, row);
    }
  }

  /** Writing v at c changes the sum by exactly v - At(m, c). */
  lemma TotalSet(m: Matrix<int>, c: Coord, v: int)
    requires Square(m) && InBounds(c, |m|)
    ensures Total(Set(m, c, v)) == Total(m) - At(m, c) + v
  {
    RowSumUpdate(m[c.row], c.col, v);
    TotalUpdate(m, c.row, m[c.row][c.col := v]);
  }

  lemma {:induction false} RowSumNonNegative(s: seq<int>)
    requires forall i :: 0 <= i < |s| ==> 0 <= s[i]
    ensures 0 <= RowSum(s)
  {
    if |s| > 0 {
      RowSumNonNegative(s[1..]);
    }
  }

  lemma {:induction false} TotalNonNegativeRows(m: Matrix<int>)
    requires forall r, i :: 0 <= r < |m| && 0 <= i < |m[r]| ==> 0 <= m[r][i]
    ensures 0 <= Total(m)
  {
    if |m| > 0 {
      RowSumNonNegative(m[0]);
      TotalNonNegativeRows(m[1..]);
    }
  }

  /** A square matrix with no negative entry has a non-negative sum. */
  lemma TotalNonNegative(m: Matrix<int>)
    requires Square(m)
    requires forall c :: InBounds(c, |m|) ==> 0 <= At(m, c)
    ensures 0 <= Total(m)
  {
    forall r, i | 0 <= r < |m| && 0 <= i < |m[r]|
      ensures 0 <= m[r][i]
    {
      assert At(m, Coord(r, i)) == m[r][i];
    }
    TotalNonNegativeRows(m);
  }

  // ---------------------------------------------------------------------
  // Counting cells

  function Line(r: int, n: nat): set<Coord> {
    set c | 0 <= c < n :: Coord(r, c)
  }

  function Block(k: nat, n: nat): set<Coord> {
    set r, c | 0 <= r < k && 0 <= c < n :: Coord(r, c)
  }

  lemma {:induction false} LineCard(r: int, n: nat)
    ensures |Line(r, n)| == n
  {
    if n > 0 {
      assert Line(r, n) == Line(r, n - 1) + {Coord(r, n - 1)};
      LineCard(r, n - 1);
    }
  }

  /** The first k rows are the first k - 1 rows plus row k - 1, which they do not overlap. */
  lemma BlockSplit(k: nat, n: nat)
    requires k > 0
    ensures Block(k, n) == Block(k - 1, n) + Line(k - 1, n)
    ensures Block(k - 1, n) !! Line(k - 1, n)
  {
    forall c | c in Block(k, n)
      ensures c in Block(k - 1, n) + Line(k - 1, n)
    {
      assert c == Coord(c.row, c.col);
    }
  }

  lemma {:induction false} BlockCard(k: nat, n: nat)
    ensures |Block(k, n)| == k * n
  {
    if k > 0 {
      BlockSplit(k, n);
      BlockCard(k - 1, n);
      LineCard(k - 1, n);
      assert k * n == (k - 1) * n + n;
    }
  }

  /** A set of in-bounds coordinates of an n x n matrix has at most n * n members. */
  lemma InBoundsCard(s: set<Coord>, n: nat)
    requires forall c :: c in s ==> InBounds(c, n)
    ensures |s| <= n * n
  {
    forall c | c in s
      ensures c in Block(n, n)
    {
      assert c == Coord(c.row, c.col);
    }
    SubsetCard(s, Block(n, n));
    BlockCard(n, n);
  }

  lemma {:induction false} MulMonotone(a: int, b: int, c: nat)
    requires a <= b
    ensures a * c <= b * c
  {
    if c > 0 {
      MulMonotone(a, b, c - 1);
      assert a * c == a * (c - 1) + a;
      assert b * c == b * (c - 1) + b;
    }
  }

  lemma {:induction false} SubsetCard<T>(s: set<T>, t: set<T>)
    requires s <= t
    ensures |s| <= |t|
    decreases s
  {
    if s != {} {
      var x :| x in s;
      SubsetCard(s - {x}, t - {x});
    }
  }
}

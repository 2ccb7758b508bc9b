/**
  The A* search of `algorithm`.

  The search keeps gScore and fScore tables and a cameFrom map, and paints
  cells Open when they are queued and Closed when they have been expanded.
  Each redraw (`draw`) is a no-op here. The invariant of the main loop is
  split into named parts (ScoresOk, ChainOk, QueueOk, DisplayOk,
  ClosureOk), each a statement about every cell, key or item; one lemma
  per step of the loop shows that the step keeps it.
 */
module Search {
  import opened Matrix
  import opened Grid
  import opened Queue
  import opened Backtrack

  /** math.MaxInt32, the "not yet reached" cost. */
  const MaxInt32: int := 0x7fff_ffff

  /**
    The largest side for which the sentinel exceeds every real cost:
    46340 * 46340 <= MaxInt32 < 46341 * 46341.
   */
  const MaxSide: int := 46340

  datatype Scores = Scores(g: Matrix<int>, f: Matrix<int>, cameFrom: map<Coord, Coord>)

  /** The inputs of one search. */
  ghost predicate Setting(g0: Grid, start: Coord, end: Coord) {
    && Square(g0)
    && InBounds(start, |g0|)
    && InBounds(end, |g0|)
    && |g0| <= MaxSide
  }

  ghost predicate Sized(sc: Scores, n: int) {
    Square(sc.g) && |sc.g| == n && Square(sc.f) && |sc.f| == n
  }

  /**
    The score tables before the loop: every cost is the sentinel except the
    start's, which is 0 (its fScore is h(start, end)); no predecessors yet.
   */
  function InitScores(n: nat, start: Coord, end: Coord): (sc: Scores)
    requires InBounds(start, n)
    ensures Sized(sc, n)
    ensures sc.cameFrom == map[]
    ensures forall c :: InBounds(c, n) ==> At(sc.g, c) == (if c == start then 0 else MaxInt32)
    ensures forall c :: InBounds(c, n) ==> At(sc.f, c) == (if c == start then H(start, end) else MaxInt32)
  {
    Scores(Set(Fill(n, MaxInt32), start, 0), Set(Fill(n, MaxInt32), start, H(start, end)), map[])
  }

  /** The tables after a relaxation of nb through cur (astar.go:235-237). */
  function Relaxed(sc: Scores, cur: Coord, nb: Coord, end: Coord): (r: Scores)
    requires Sized(sc, |sc.g|) && InBounds(cur, |sc.g|) && InBounds(nb, |sc.g|)
    ensures Sized(r, |sc.g|)
    ensures At(r.g, nb) == At(sc.g, cur) + 1
    ensures At(r.f, nb) == At(r.g, nb) + H(nb, end)
    ensures nb in r.cameFrom && r.cameFrom[nb] == cur
    ensures forall c :: InBounds(c, |sc.g|) && c != nb ==> At(r.g, c) == At(sc.g, c) && At(r.f, c) == At(sc.f, c)
    ensures forall k :: k != nb ==> (k in r.cameFrom <==> k in sc.cameFrom)
    ensures forall k :: k in sc.cameFrom && k != nb ==> r.cameFrom[k] == sc.cameFrom[k]
  {
    var t := At(sc.g, cur) + 1;
    Scores(Set(sc.g, nb, t), Set(sc.f, nb, t + H(nb, end)), sc.cameFrom[nb := cur])
  }

  /** A cell the search has reached: the start, or a cell with a predecessor. */
  predicate Known(sc: Scores, start: Coord, c: Coord) {
    c == start || c in sc.cameFrom
  }

  // ---------------------------------------------------------------------
  // The loop invariant

  /** Costs of one cell: finite exactly when reached, bounded, and f = g + h. */
  ghost predicate CellOk(g0: Grid, start: Coord, end: Coord, sc: Scores, c: Coord)
    requires Square(g0) && Sized(sc, |g0|)
  {
    InBounds(c, |g0|) ==>
      && 0 <= At(sc.g, c)
      && (At(sc.g, c) < MaxInt32 <==> Known(sc, start, c))
      && (Known(sc, start, c) ==> At(sc.g, c) <= |sc.cameFrom|)
      && At(sc.f, c) == (if Known(sc, start, c) then At(sc.g, c) + H(c, end) else MaxInt32)
  }

  /** The start has cost 0 and no predecessor; every cell's costs are as CellOk says. */
  ghost predicate ScoresOk(g0: Grid, start: Coord, end: Coord, sc: Scores)
    requires Setting(g0, start, end) && Sized(sc, |g0|)
  {
    && start !in sc.cameFrom
    && At(sc.g, start) == 0
    && forall c :: CellOk(g0, start, end, sc, c)
  }

  /**
    The predecessor of k is one Step before k, was itself reached, and costs
    strictly less, so following predecessors cannot cycle.
   */
  ghost predicate KeyOk(g0: Grid, start: Coord, sc: Scores, k: Coord)
    requires Square(g0) && Sized(sc, |g0|)
  {
    k in sc.cameFrom ==>
      && Step(g0, sc.cameFrom[k], k)
      && Known(sc, start, sc.cameFrom[k])
      && At(sc.g, sc.cameFrom[k]) < At(sc.g, k)
  }

  ghost predicate ChainOk(g0: Grid, start: Coord, sc: Scores)
    requires Square(g0) && Sized(sc, |g0|)
  {
    forall k :: KeyOk(g0, start, sc, k)
  }

  /**
    A queued item holds a reached cell; the start waits with priority 0,
    any other cell with a priority no lower than its current fScore.
   */
  ghost predicate ItemOk(g0: Grid, start: Coord, sc: Scores, open: PriorityQueue, i: int)
    requires Square(g0) && Sized(sc, |g0|)
  {
    0 <= i < |open| ==>
      && InBounds(open[i].value, |g0|)
      && Known(sc, start, open[i].value)
      && (if open[i].value == start then open[i].priority == 0
          else At(sc.f, open[i].value) <= open[i].priority)
  }

  /** Indices are consistent, no cell is queued twice, and every item is as ItemOk says. */
  ghost predicate QueueOk(g0: Grid, start: Coord, sc: Scores, open: PriorityQueue)
    requires Square(g0) && Sized(sc, |g0|)
  {
    && IndexConsistent(open)
    && DistinctValues(open)
    && forall i :: ItemOk(g0, start, sc, open, i)
  }

  /**
    What one cell shows: a reached cell other than the start is Open while
    queued and Closed otherwise; any other cell is untouched. A cell in
    pending (the one being expanded) may show either.
   */
  ghost predicate ShownOk(g0: Grid, start: Coord, grid: Grid, sc: Scores, open: PriorityQueue,
                          pending: set<Coord>, c: Coord)
    requires Square(g0) && Square(grid) && |grid| == |g0|
  {
    InBounds(c, |g0|) ==>
      if c in sc.cameFrom then
        c !in pending ==> At(grid, c) == (if Queued(open, c) then Open else Closed)
      else
        At(grid, c) == At(g0, c)
  }

  ghost predicate DisplayOk(g0: Grid, start: Coord, grid: Grid, sc: Scores, open: PriorityQueue, pending: set<Coord>)
    requires Square(g0) && Square(grid) && |grid| == |g0|
  {
    forall c :: ShownOk(g0, start, grid, sc, open, pending, c)
  }

  /** A reached cell is still queued, or it is not the end and all its Steps lead to reached cells. */
  ghost predicate ExpandedOk(g0: Grid, start: Coord, end: Coord, sc: Scores, open: PriorityQueue,
                             pending: set<Coord>, c: Coord)
  {
    Known(sc, start, c) && c !in pending ==>
      Queued(open, c) || (c != end && forall x :: Step(g0, c, x) ==> Known(sc, start, x))
  }

  ghost predicate ClosureOk(g0: Grid, start: Coord, end: Coord, sc: Scores, open: PriorityQueue, pending: set<Coord>)
  {
    forall c :: ExpandedOk(g0, start, end, sc, open, pending, c)
  }

  ghost predicate Inv(g0: Grid, start: Coord, end: Coord, grid: Grid, sc: Scores, open: PriorityQueue, pending: set<Coord>)
  {
    && Setting(g0, start, end)
    && Sized(sc, |g0|)
    && Square(grid) && |grid| == |g0|
    && ScoresOk(g0, start, end, sc)
    && ChainOk(g0, start, sc)
    && QueueOk(g0, start, sc, open)
    && DisplayOk(g0, start, grid, sc, open, pending)
    && ClosureOk(g0, start, end, sc, open, pending)
  }

  /** The invariant while the neighbours of cur are processed; nbrs[..i] are done. */
  ghost predicate ExpandInv(g0: Grid, start: Coord, end: Coord, grid: Grid, sc: Scores, open: PriorityQueue,
                            cur: Coord, nbrs: seq<Coord>, i: int)
  {
    && Inv(g0, start, end, grid, sc, open, {cur})
    && InBounds(cur, |g0|)
    && Known(sc, start, cur)
    && !Queued(open, cur)
    && cur != end
    && nbrs == Neighbours(g0, cur)
    && 0 <= i <= |nbrs|
    && forall j :: 0 <= j < i ==> Known(sc, start, nbrs[j])
  }

  // ---------------------------------------------------------------------
  // Facts the steps rely on

  lemma SquareBound(n: nat)
    requires n <= MaxSide
    ensures n * n <= MaxInt32
  {
    MulMonotone(n, MaxSide, n);
    MulMonotone(n, MaxSide, MaxSide);
    assert n * MaxSide == MaxSide * n;
  }

  /** The cameFrom keys, the start and one more unreached cell fit in the grid. */
  lemma RoomForOneMore(g0: Grid, start: Coord, end: Coord, sc: Scores, x: Coord)
    requires Setting(g0, start, end) && Sized(sc, |g0|)
    requires ScoresOk(g0, start, end, sc) && ChainOk(g0, start, sc)
    requires InBounds(x, |g0|) && !Known(sc, start, x)
    ensures |sc.cameFrom| + 2 <= MaxInt32
  {
    var keys := sc.cameFrom.Keys;
    var withStart := keys + {start};
    assert |withStart| == |keys| + 1;
    var s := withStart + {x};
    assert x !in withStart;
    assert |s| == |withStart| + 1;
    forall c | c in s
      ensures InBounds(c, |g0|)
    {
      if c in keys {
        assert KeyOk(g0, start, sc, c);
      }
    }
    InBoundsCard(s, |g0|);
    SquareBound(|g0|);
  }

  /** Every reached cell can be reached from the start by a walk (induction on its cost). */
  lemma {:induction false} KnownReachable(g0: Grid, start: Coord, end: Coord, sc: Scores, c: Coord)
    requires Setting(g0, start, end) && Sized(sc, |g0|)
    requires ScoresOk(g0, start, end, sc) && ChainOk(g0, start, sc)
    requires InBounds(c, |g0|) && Known(sc, start, c)
    ensures Reachable(g0, start, c)
    decreases At(sc.g, c)
  {
    if c == start {
      ReachableSelf(g0, start);
    } else {
      assert KeyOk(g0, start, sc, c);
      var p := sc.cameFrom[c];
      assert CellOk(g0, start, end, sc, p);
      KnownReachable(g0, start, end, sc, p);
      ReachableExtend(g0, start, p, c);
    }
  }

  /** The gScore table ranks the predecessor map, as reconstructPath needs. */
  lemma ChainRanked(g0: Grid, start: Coord, end: Coord, sc: Scores)
    requires Setting(g0, start, end) && Sized(sc, |g0|)
    requires ScoresOk(g0, start, end, sc) && ChainOk(g0, start, sc)
    ensures Ranked(sc.cameFrom, sc.g)
  {
    forall k | k in sc.cameFrom
      ensures InBounds(k, |sc.g|) && InBounds(sc.cameFrom[k], |sc.g|)
      ensures 0 <= At(sc.g, sc.cameFrom[k]) < At(sc.g, k)
    {
      assert KeyOk(g0, start, sc, k);
      assert CellOk(g0, start, end, sc, sc.cameFrom[k]);
    }
  }

  // ---------------------------------------------------------------------
  // The steps of the loop keep the invariant

  /** Before the loop: only the start is reached, queued with priority 0. */
  lemma InitKeepsInvariant(g0: Grid, start: Coord, end: Coord)
    requires Setting(g0, start, end)
    ensures Inv(g0, start, end, g0, InitScores(|g0|, start, end), Push([], Item(start, 0, 0)), {})
  {
    var sc := InitScores(|g0|, start, end);
    var open := Push([], Item(start, 0, 0));
    assert open[0].value == start;
    assert Queued(open, start);
    forall c
      ensures CellOk(g0, start, end, sc, c)
    {
    }
    forall i
      ensures ItemOk(g0, start, sc, open, i)
    {
    }
    forall c
      ensures ExpandedOk(g0, start, end, sc, open, {}, c)
    {
    }
  }

  /** heap.Pop takes cur out of the open set; cur becomes the cell under expansion. */
  lemma PopKeepsInvariant(g0: Grid, start: Coord, end: Coord, grid: Grid, sc: Scores,
                          open: PriorityQueue, item: Item, rest: PriorityQueue, k: nat)
    requires Inv(g0, start, end, grid, sc, open, {})
    requires k < |open| && SameEntry(item, open[k])
    requires |rest| == |open| - 1 && IndexConsistent(rest)
    requires forall j :: 0 <= j < |rest| ==> SameEntry(rest[j], open[if j == k then |open| - 1 else j])
    ensures Inv(g0, start, end, grid, sc, rest, {item.value})
    ensures InBounds(item.value, |g0|) && Known(sc, start, item.value) && !Queued(rest, item.value)
  {
    var cur := item.value;
    assert ItemOk(g0, start, sc, open, k);
    forall c
      ensures Queued(rest, c) <==> Queued(open, c) && c != cur
    {
      PopMinQueued(open, rest, k, c);
    }
    PopMinDistinct(open, rest, k);
    forall j
      ensures ItemOk(g0, start, sc, rest, j)
    {
      if 0 <= j < |rest| {
        var j' := if j == k then |open| - 1 else j;
        assert SameEntry(rest[j], open[j']);
        assert ItemOk(g0, start, sc, open, j');
      }
    }
    forall c
      ensures ShownOk(g0, start, grid, sc, rest, {cur}, c)
    {
      assert ShownOk(g0, start, grid, sc, open, {}, c);
    }
    forall c
      ensures ExpandedOk(g0, start, end, sc, rest, {cur}, c)
    {
      assert ExpandedOk(g0, start, end, sc, open, {}, c);
    }
  }

  /** A relaxation keeps the costs consistent and lowers the sum of g. */
  lemma RelaxKeepsScores(g0: Grid, start: Coord, end: Coord, sc: Scores, cur: Coord, nb: Coord)
    requires Setting(g0, start, end) && Sized(sc, |g0|)
    requires ScoresOk(g0, start, end, sc) && ChainOk(g0, start, sc)
    requires InBounds(cur, |g0|) && Known(sc, start, cur) && Step(g0, cur, nb)
    requires At(sc.g, cur) + 1 < At(sc.g, nb)
    ensures nb != start && nb != cur
    ensures Sized(Relaxed(sc, cur, nb, end), |g0|)
    ensures ScoresOk(g0, start, end, Relaxed(sc, cur, nb, end))
    ensures Total(Relaxed(sc, cur, nb, end).g) < Total(sc.g)
  {
    var sc' := Relaxed(sc, cur, nb, end);
    var t := At(sc.g, cur) + 1;
    assert CellOk(g0, start, end, sc, nb);
    RelaxedCost(g0, start, end, sc, cur, nb);
    forall c
      ensures CellOk(g0, start, end, sc', c)
    {
      if c != nb {
        assert CellOk(g0, start, end, sc, c);
        RelaxKeepsOtherCell(g0, start, end, sc, cur, nb, c);
      }
    }
    TotalSet(sc.g, nb, t);
  }

  /** The new cost of a relaxed cell is real (below the sentinel) and bounded by the number of predecessors. */
  lemma RelaxedCost(g0: Grid, start: Coord, end: Coord, sc: Scores, cur: Coord, nb: Coord)
    requires Setting(g0, start, end) && Sized(sc, |g0|)
    requires ScoresOk(g0, start, end, sc) && ChainOk(g0, start, sc)
    requires InBounds(cur, |g0|) && Known(sc, start, cur) && InBounds(nb, |g0|)
    requires At(sc.g, cur) + 1 < At(sc.g, nb)
    ensures 0 < At(sc.g, cur) + 1 < MaxInt32
    ensures At(sc.g, cur) + 1 <= |Relaxed(sc, cur, nb, end).cameFrom|
    ensures |sc.cameFrom| <= |Relaxed(sc, cur, nb, end).cameFrom|
  {
    var sc' := Relaxed(sc, cur, nb, end);
    assert CellOk(g0, start, end, sc, cur);
    assert CellOk(g0, start, end, sc, nb);
    if !Known(sc, start, nb) {
      RoomForOneMore(g0, start, end, sc, nb);
      assert |sc'.cameFrom| == |sc.cameFrom| + 1;
    } else {
      assert sc'.cameFrom.Keys == sc.cameFrom.Keys;
    }
  }

  /** A relaxation leaves the costs of every cell but the relaxed one as CellOk had them. */
  lemma RelaxKeepsOtherCell(g0: Grid, start: Coord, end: Coord, sc: Scores, cur: Coord, nb: Coord, c: Coord)
    requires Square(g0) && Sized(sc, |g0|) && InBounds(cur, |g0|) && InBounds(nb, |g0|)
    requires c != nb && CellOk(g0, start, end, sc, c)
    requires |sc.cameFrom| <= |Relaxed(sc, cur, nb, end).cameFrom|
    ensures CellOk(g0, start, end, Relaxed(sc, cur, nb, end), c)
  {
    var sc' := Relaxed(sc, cur, nb, end);
    assert Known(sc', start, c) <==> Known(sc, start, c);
  }

  /** A relaxation keeps the predecessor chain made of Steps with falling costs. */
  lemma RelaxKeepsChain(g0: Grid, start: Coord, end: Coord, sc: Scores, cur: Coord, nb: Coord)
    requires Setting(g0, start, end) && Sized(sc, |g0|)
    requires ChainOk(g0, start, sc)
    requires InBounds(cur, |g0|) && Known(sc, start, cur) && Step(g0, cur, nb)
    requires At(sc.g, cur) + 1 < At(sc.g, nb)
    ensures Sized(Relaxed(sc, cur, nb, end), |g0|)
    ensures ChainOk(g0, start, Relaxed(sc, cur, nb, end))
  {
    var sc' := Relaxed(sc, cur, nb, end);
    forall k
      ensures KeyOk(g0, start, sc', k)
    {
      if k != nb && k in sc.cameFrom {
        assert KeyOk(g0, start, sc, k);
        var p := sc.cameFrom[k];
        assert At(sc'.g, k) == At(sc.g, k);
        assert p != nb ==> At(sc'.g, p) == At(sc.g, p);
      }
    }
  }

  /** Processing neighbour nbrs[i] when it is relaxed. */
  lemma RelaxKeepsInvariant(g0: Grid, start: Coord, end: Coord, grid: Grid, sc: Scores, open: PriorityQueue,
                            cur: Coord, nbrs: seq<Coord>, i: int)
    requires ExpandInv(g0, start, end, grid, sc, open, cur, nbrs, i) && i < |nbrs|
    requires At(sc.g, cur) + 1 < At(sc.g, nbrs[i])
    ensures var nb := nbrs[i];
            var sc' := Relaxed(sc, cur, nb, end);
            var open' := if Queued(open, nb) then open else Push(open, Item(nb, At(sc'.f, nb), 0));
            var grid' := if Queued(open, nb) then grid else Set(grid, nb, Open);
            && ExpandInv(g0, start, end, grid', sc', open', cur, nbrs, i + 1)
            && Total(sc'.g) < Total(sc.g)
  {
    var nb := nbrs[i];
    assert Step(g0, cur, nb);
    RelaxKeepsScores(g0, start, end, sc, cur, nb);
    RelaxKeepsChain(g0, start, end, sc, cur, nb);
    var sc' := Relaxed(sc, cur, nb, end);
    var queued := Queued(open, nb);
    var open' := if queued then open else Push(open, Item(nb, At(sc'.f, nb), 0));
    var grid' := if queued then grid else Set(grid, nb, Open);
    assert forall x :: Known(sc, start, x) ==> Known(sc', start, x);

    // The open set gains nb (if it lacked it) and nothing else.
    assert open'[..|open|] == open;
    forall c
      ensures Queued(open', c) <==> Queued(open, c) || c == nb
    {
      if !queued && c == nb {
        assert open'[|open|].value == nb;
      }
      if Queued(open', c) && c != nb {
        var m :| 0 <= m < |open'| && open'[m].value == c;
        assert open[m].value == c;
      }
    }
    if queued {
      var m :| 0 <= m < |open| && open[m].value == nb;
      assert ItemOk(g0, start, sc, open, m);
      assert CellOk(g0, start, end, sc, nb);
      assert nb in sc.cameFrom;
      assert ShownOk(g0, start, grid, sc, open, {cur}, nb);
    }

    forall j
      ensures ItemOk(g0, start, sc', open', j)
    {
      if 0 <= j < |open| {
        assert open'[j] == open[j];
        assert ItemOk(g0, start, sc, open, j);
        var v := open[j].value;
        if v == nb {
          assert CellOk(g0, start, end, sc, nb);
        } else {
          assert At(sc'.f, v) == At(sc.f, v);
        }
      }
    }
    forall a, b | 0 <= a < b < |open'|
      ensures open'[a].value != open'[b].value
    {
      if b == |open| {
        assert open[a].value != nb;
      } else {
        assert open'[a] == open[a] && open'[b] == open[b];
      }
    }
    forall c
      ensures ShownOk(g0, start, grid', sc', open', {cur}, c)
    {
      if c != nb {
        assert ShownOk(g0, start, grid, sc, open, {cur}, c);
      }
    }
    forall c
      ensures ExpandedOk(g0, start, end, sc', open', {cur}, c)
    {
      if c != nb {
        assert ExpandedOk(g0, start, end, sc, open, {cur}, c);
      }
    }
  }

  /** Processing neighbour nbrs[i] when it is not relaxed: it is already reached. */
  lemma SkipKeepsInvariant(g0: Grid, start: Coord, end: Coord, grid: Grid, sc: Scores, open: PriorityQueue,
                           cur: Coord, nbrs: seq<Coord>, i: int)
    requires ExpandInv(g0, start, end, grid, sc, open, cur, nbrs, i) && i < |nbrs|
    requires At(sc.g, nbrs[i]) <= At(sc.g, cur) + 1
    ensures ExpandInv(g0, start, end, grid, sc, open, cur, nbrs, i + 1)
  {
    var nb := nbrs[i];
    assert Step(g0, cur, nb);
    assert CellOk(g0, start, end, sc, cur);
    assert CellOk(g0, start, end, sc, nb);
    if !Known(sc, start, nb) {
      RoomForOneMore(g0, start, end, sc, nb);
      assert false;
    }
  }

  /** After all neighbours: cur is painted Closed unless it is the start. */
  lemma CloseKeepsInvariant(g0: Grid, start: Coord, end: Coord, grid: Grid, sc: Scores, open: PriorityQueue,
                            cur: Coord, nbrs: seq<Coord>)
    requires ExpandInv(g0, start, end, grid, sc, open, cur, nbrs, |nbrs|)
    ensures Inv(g0, start, end, if cur != start then Set(grid, cur, Closed) else grid, sc, open, {})
  {
    var grid' := if cur != start then Set(grid, cur, Closed) else grid;
    forall c
      ensures ShownOk(g0, start, grid', sc, open, {}, c)
    {
      assert ShownOk(g0, start, grid, sc, open, {cur}, c);
    }
    forall c
      ensures ExpandedOk(g0, start, end, sc, open, {}, c)
    {
      if c == cur {
        forall x | Step(g0, cur, x)
          ensures Known(sc, start, x)
        {
          var j :| 0 <= j < |nbrs| && nbrs[j] == x;
        }
      } else {
        assert ExpandedOk(g0, start, end, sc, open, {cur}, c);
      }
    }
  }

  // ---------------------------------------------------------------------
  // Outcomes

  /** path lists end back to start, each cell one Step after the next, no cell twice. */
  ghost predicate PathFound(g0: Grid, start: Coord, end: Coord, path: seq<Coord>) {
    && |path| > 0
    && path[0] == end
    && path[|path| - 1] == start
    && (forall i :: 0 <= i < |path| - 1 ==> Step(g0, path[i + 1], path[i]))
    && (forall i, j :: 0 <= i < j < |path| ==> path[i] != path[j])
  }

  /** end shows End, the rest of the path shows Path; any other change is Open or Closed. */
  ghost predicate PathPainted(g0: Grid, end: Coord, grid: Grid, path: seq<Coord>)
    requires Square(g0) && Square(grid) && |grid| == |g0| && InBounds(end, |g0|)
  {
    && At(grid, end) == End
    && forall c :: InBounds(c, |g0|) ==>
         && (c in path && c != end ==> At(grid, c) == Path)
         && (c !in path && At(grid, c) != At(g0, c) ==> At(grid, c) == Open || At(grid, c) == Closed)
  }

  /** The search repaints only cells reachable from the start. */
  ghost predicate Touched(g0: Grid, start: Coord, grid: Grid)
    requires Square(g0) && Square(grid) && |grid| == |g0|
  {
    forall c :: InBounds(c, |g0|) && At(grid, c) != At(g0, c) ==> Reachable(g0, start, c)
  }

  /** The search found end: the painted path is a chain of Steps from start to end. */
  lemma FoundOutcome(g0: Grid, start: Coord, end: Coord, grid: Grid, sc: Scores, open: PriorityQueue,
                     marked: Grid, path: seq<Coord>)
    requires Inv(g0, start, end, grid, sc, open, {end}) && Known(sc, start, end)
    requires |path| > 0 && path[0] == end && path[|path| - 1] !in sc.cameFrom
    requires forall i :: 0 <= i < |path| - 1 ==> Linked(sc.cameFrom, path, i)
    requires forall i, j :: 0 <= i < j < |path| ==> path[i] != path[j]
    requires Square(marked) && |marked| == |grid|
    requires forall c :: InBounds(c, |grid|) ==> At(marked, c) == (if c in path then Path else At(grid, c))
    ensures Reachable(g0, start, end)
    ensures PathFound(g0, start, end, path)
    ensures PathPainted(g0, end, Set(marked, end, End), path)
    ensures Touched(g0, start, Set(marked, end, End))
  {
    var painted := Set(marked, end, End);
    forall i | 0 <= i < |path|
      ensures InBounds(path[i], |g0|) && Known(sc, start, path[i])
    {
      if i > 0 {
        assert Linked(sc.cameFrom, path, i - 1);
        assert KeyOk(g0, start, sc, path[i - 1]);
      }
    }
    forall i | 0 <= i < |path| - 1
      ensures Step(g0, path[i + 1], path[i])
    {
      assert Linked(sc.cameFrom, path, i);
      assert KeyOk(g0, start, sc, path[i]);
    }
    KnownReachable(g0, start, end, sc, end);
    forall c | InBounds(c, |g0|)
      ensures c !in path && At(painted, c) != At(g0, c) ==> At(painted, c) == Open || At(painted, c) == Closed
      ensures At(painted, c) != At(g0, c) ==> Reachable(g0, start, c)
    {
      assert ShownOk(g0, start, grid, sc, open, {end}, c);
      if At(painted, c) != At(g0, c) {
        if c in path {
          KnownReachable(g0, start, end, sc, c);
        } else if c != end {
          KnownReachable(g0, start, end, sc, c);
        }
      }
    }
  }

  /**
    The open set ran dry: end is unreachable, every reachable cell other
    than the start shows Closed, and every other cell keeps its state.
   */
  lemma ExhaustedOutcome(g0: Grid, start: Coord, end: Coord, grid: Grid, sc: Scores)
    requires Inv(g0, start, end, grid, sc, [], {})
    ensures !Reachable(g0, start, end)
    ensures forall c :: InBounds(c, |g0|) ==>
              At(grid, c) == (if c != start && Reachable(g0, start, c) then Closed else At(g0, c))
    ensures Touched(g0, start, grid)
  {
    var reached := sc.cameFrom.Keys + {start};
    forall x, y | x in reached && Step(g0, x, y)
      ensures y in reached
    {
      assert ExpandedOk(g0, start, end, sc, [], {}, x);
      assert !Queued([], x);
    }
    forall c | Reachable(g0, start, c)
      ensures c in reached
    {
      var w :| Connects(g0, w, start, c);
      WalkStaysInside(g0, reached, w, start, c);
    }
    assert ExpandedOk(g0, start, end, sc, [], {}, end);
    forall c | InBounds(c, |g0|)
      ensures At(grid, c) == (if c != start && Reachable(g0, start, c) then Closed else At(g0, c))
    {
      assert ShownOk(g0, start, grid, sc, [], {}, c);
      if c in sc.cameFrom {
        KnownReachable(g0, start, end, sc, c);
        assert !Queued([], c);
      }
    }
  }

  /**
    One expansion of algorithm's main loop (astar.go:229-250): relax every
    neighbour of cur whose cost through cur is lower, queue and paint Open
    each relaxed neighbour not yet queued, then paint cur Closed unless it
    is the start. The invariant is kept, and the sum of all gScores falls
    unless nothing was relaxed, in which case the open set is unchanged.
   */
  method Expand(g0: Grid, adj: Matrix<seq<Coord>>, start: Coord, end: Coord,
                grid0: Grid, sc0: Scores, open0: PriorityQueue, cur: Coord)
    returns (grid: Grid, sc: Scores, open: PriorityQueue)
    requires Inv(g0, start, end, grid0, sc0, open0, {cur})
    requires InBounds(cur, |g0|) && Known(sc0, start, cur) && !Queued(open0, cur) && cur != end
    requires Square(adj) && |adj| == |g0| && At(adj, cur) == Neighbours(g0, cur)
    ensures Inv(g0, start, end, grid, sc, open, {})
    ensures Total(sc.g) <= Total(sc0.g)
    ensures Total(sc.g) == Total(sc0.g) ==> open == open0
    ensures 0 <= Total(sc.g)
  {
    grid, sc, open := grid0, sc0, open0;
    var nbrs := At(adj, cur);
    var i := 0;
    while i < |nbrs|
      invariant ExpandInv(g0, start, end, grid, sc, open, cur, nbrs, i)
      invariant Total(sc.g) <= Total(sc0.g)
      invariant Total(sc.g) == Total(sc0.g) ==> open == open0
    {
      var nb := nbrs[i];
      var tentative := At(sc.g, cur) + 1;
      if tentative < At(sc.g, nb) {
        RelaxKeepsInvariant(g0, start, end, grid, sc, open, cur, nbrs, i);
        sc := Relaxed(sc, cur, nb, end);
        var queued := Contains(open, nb);
        if !queued {
          open := Push(open, Item(nb, At(sc.f, nb), 0));
          grid := Set(grid, nb, Open);
        }
      } else {
        SkipKeepsInvariant(g0, start, end, grid, sc, open, cur, nbrs, i);
      }
      i := i + 1;
    }
    CloseKeepsInvariant(g0, start, end, grid, sc, open, cur, nbrs);
    if cur != start {
      grid := Set(grid, cur, Closed);
    }
    NonNegativeScores(g0, start, end, sc);
  }

  lemma NonNegativeScores(g0: Grid, start: Coord, end: Coord, sc: Scores)
    requires Setting(g0, start, end) && Sized(sc, |g0|) && ScoresOk(g0, start, end, sc)
    ensures 0 <= Total(sc.g)
  {
    forall c | InBounds(c, |sc.g|)
      ensures 0 <= At(sc.g, c)
    {
      assert CellOk(g0, start, end, sc, c);
    }
    TotalNonNegative(sc.g);
  }

  /**
    algorithm: A* from start to end over the neighbour table adj (which must
    be the current neighbour lists of g0). It reports true exactly when a
    walk from start to end exists; then path is the chain reconstructPath
    painted. Otherwise every cell reachable from start, except start,
    ends up Closed and nothing else changes.
   */
  method AStar(g0: Grid, adj: Matrix<seq<Coord>>, start: Coord, end: Coord)
    returns (found: bool, grid: Grid, path: seq<Coord>)
    requires Setting(g0, start, end)
    requires Square(adj) && |adj| == |g0|
    requires forall c :: InBounds(c, |g0|) ==> At(adj, c) == Neighbours(g0, c)
    ensures Square(grid) && |grid| == |g0|
    ensures found <==> Reachable(g0, start, end)
    ensures found ==> PathFound(g0, start, end, path) && PathPainted(g0, end, grid, path)
    ensures !found ==> path == []
    ensures !found ==> forall c :: InBounds(c, |g0|) ==>
              At(grid, c) == (if c != start && Reachable(g0, start, c) then Closed else At(g0, c))
    ensures Touched(g0, start, grid)
  {
    var sc := InitScores(|g0|, start, end);
    var open := Push([], Item(start, 0, 0));
    grid := g0;
    InitKeepsInvariant(g0, start, end);
    NonNegativeScores(g0, start, end, sc);
    while |open| > 0
      invariant Inv(g0, start, end, grid, sc, open, {})
      invariant 0 <= Total(sc.g)
      decreases Total(sc.g), |open|
    {
      var item, rest, k := PopMin(open);
      PopKeepsInvariant(g0, start, end, grid, sc, open, item, rest, k);
      var current := item.value;

      if current == end {
        ChainRanked(g0, start, end, sc);
        var marked;
        marked, path := ReconstructPath(grid, sc.cameFrom, sc.g, end);
        FoundOutcome(g0, start, end, grid, sc, rest, marked, path);
        grid := Set(marked, end, End);
        return true, grid, path;
      }

      grid, sc, open := Expand(g0, adj, start, end, grid, sc, rest, current);
    }
    ExhaustedOutcome(g0, start, end, grid, sc);
    return false, grid, [];
  }
}

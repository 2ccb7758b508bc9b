/**
  The interactive editing of run: a left click places the start, then the
  end, then barriers; a right click clears a cell (and forgets the start or
  end if it was one); the space key, once start and end are both placed,
  refreshes every Spot's neighbour list and runs the search to completion
  (the goroutine is awaited at once through the done channel, so the call
  is synchronous here). Mouse coordinates become the clicked cell directly.
 */
module Editor {
  import opened Wrappers
  import opened Matrix
  import opened Grid
  import opened Search

  /** ROWS in run. */
  const Rows: int := 50

  /** The state run keeps between events: the grid and the two marked cells. */
  datatype Editor = Editor(grid: Grid, start: Option<Coord>, end: Option<Coord>)

  /** A cell shows Start only if it is the start, and End only if it is the end. */
  ghost predicate MarkOk(e: Editor, c: Coord)
    requires Square(e.grid)
  {
    InBounds(c, |e.grid|) ==>
      && (At(e.grid, c) == Start ==> e.start == Some(c))
      && (At(e.grid, c) == End ==> e.end == Some(c))
  }

  /** The marked cell o lies on the grid and is not a Barrier. */
  ghost predicate Placed(g: Grid, o: Option<Coord>)
    requires Square(g)
  {
    o.Some? ==> InBounds(o.value, |g|) && !At(g, o.value).Barrier?
  }

  /**
    What every event keeps: the grid is square and small enough for the
    search, start and end are distinct non-Barrier cells of it, and no
    other cell shows Start or End.
   */
  ghost predicate Consistent(e: Editor) {
    && Square(e.grid)
    && 0 < |e.grid| <= MaxSide
    && Placed(e.grid, e.start)
    && Placed(e.grid, e.end)
    && (e.start.Some? && e.end.Some? ==> e.start.value != e.end.value)
    && forall c :: MarkOk(e, c)
  }

  /** The editor run starts with: an empty ROWS x ROWS grid, nothing placed. */
  function NewEditor(): (e: Editor)
    ensures Consistent(e)
    ensures |e.grid| == Rows && e.start == None && e.end == None
    ensures forall c :: InBounds(c, Rows) ==> At(e.grid, c) == Empty
  {
    var g := MakeGrid(Rows);
    Editor(g.value, None, None)
  }

  /**
    A left click on spot: it becomes the start if there is none (and spot
    is not the end), else the end if there is none (and spot is not the
    start), else a Barrier unless it is the start or the end.
   */
  function LeftClick(e: Editor, spot: Coord): (r: Editor)
    requires Square(e.grid) && InBounds(spot, |e.grid|)
    ensures Square(r.grid) && |r.grid| == |e.grid|
    ensures forall c :: InBounds(c, |e.grid|) && c != spot ==> At(r.grid, c) == At(e.grid, c)
    ensures e.start.Some? ==> r.start == e.start
    ensures e.end.Some? ==> r.end == e.end
    ensures r.start != e.start ==> r.start == Some(spot) && At(r.grid, spot) == Start
    ensures r.end != e.end ==> r.end == Some(spot) && At(r.grid, spot) == End
    ensures e.start == Some(spot) || e.end == Some(spot) ==> r == e
    ensures e.start.None? && Some(spot) != e.end ==> r.start == Some(spot)
    ensures e.start.Some? && e.end.None? && Some(spot) != e.start ==> r.end == Some(spot)
    ensures e.start.Some? && e.end.Some? && Some(spot) != e.start && Some(spot) != e.end ==>
              At(r.grid, spot) == Barrier && r.start == e.start && r.end == e.end
  {
    if e.start.None? && Some(spot) != e.end then
      e.(grid := Set(e.grid, spot, Start), start := Some(spot))
    else if e.end.None? && Some(spot) != e.start then
      e.(grid := Set(e.grid, spot, End), end := Some(spot))
    else if Some(spot) != e.end && Some(spot) != e.start then
      e.(grid := Set(e.grid, spot, Barrier))
    else
      e
  }

  /** A right click on spot: it is reset to Empty; if it was the start or the end, that is forgotten. */
  function RightClick(e: Editor, spot: Coord): (r: Editor)
    requires Square(e.grid) && InBounds(spot, |e.grid|)
    ensures Square(r.grid) && |r.grid| == |e.grid|
    ensures At(r.grid, spot) == Empty
    ensures forall c :: InBounds(c, |e.grid|) && c != spot ==> At(r.grid, c) == At(e.grid, c)
    ensures r.start == e.start || (e.start == Some(spot) && r.start == None)
    ensures r.end == e.end || (e.end == Some(spot) && r.end == None)
  {
    var cleared := e.(grid := Set(e.grid, spot, Empty));
    if e.start == Some(spot) then cleared.(start := None)
    else if e.end == Some(spot) then cleared.(end := None)
    else cleared
  }

  /** A left click keeps the editor consistent: the start and end never become Barriers. */
  lemma LeftClickKeepsConsistent(e: Editor, spot: Coord)
    requires Consistent(e) && InBounds(spot, |e.grid|)
    ensures Consistent(LeftClick(e, spot))
  {
    var r := LeftClick(e, spot);
    forall c
      ensures MarkOk(r, c)
    {
      assert MarkOk(e, c);
    }
  }

  /**
    A right click keeps the editor consistent, and afterwards spot is
    neither the start nor the end.
   */
  lemma RightClickKeepsConsistent(e: Editor, spot: Coord)
    requires Consistent(e) && InBounds(spot, |e.grid|)
    ensures Consistent(RightClick(e, spot))
    ensures RightClick(e, spot).start != Some(spot) && RightClick(e, spot).end != Some(spot)
  {
    var r := RightClick(e, spot);
    forall c
      ensures MarkOk(r, c)
    {
      assert MarkOk(e, c);
    }
  }

  /** Clicking the same cell twice with the left button does what one click does. */
  lemma LeftClickIdempotent(e: Editor, spot: Coord)
    requires Square(e.grid) && InBounds(spot, |e.grid|)
    ensures LeftClick(LeftClick(e, spot), spot) == LeftClick(e, spot)
  {
    var once := LeftClick(e, spot);
    var twice := LeftClick(once, spot);
    if once.start == Some(spot) || once.end == Some(spot) {
    } else {
      SameEntries(twice.grid, once.grid);
    }
  }

  /** On a consistent editor, a second right click on the same cell changes nothing. */
  lemma RightClickIdempotent(e: Editor, spot: Coord)
    requires Consistent(e) && InBounds(spot, |e.grid|)
    ensures RightClick(RightClick(e, spot), spot) == RightClick(e, spot)
  {
    var once := RightClick(e, spot);
    RightClickKeepsConsistent(e, spot);
    SameEntries(RightClick(once, spot).grid, once.grid);
  }

  /** A right click undoes whatever a left click on the same cell did to the start and end. */
  lemma RightClickUndoesLeftClick(e: Editor, spot: Coord)
    requires Square(e.grid) && InBounds(spot, |e.grid|)
    ensures RightClick(LeftClick(e, spot), spot) == RightClick(e, spot)
  {
    SameEntries(RightClick(LeftClick(e, spot), spot).grid, RightClick(e, spot).grid);
  }

  /**
    The space key: with both start and end placed, every Spot's neighbour
    list is recomputed and the search runs on the grid; found reports
    whether it reached the end. The grid is repainted as the search
    leaves it: the found path painted, or every reachable cell other than
    the start Closed. Otherwise nothing happens. The start and end stay, no
    Barrier appears or disappears, and the editor stays consistent.
   */
  method Space(e: Editor) returns (r: Editor, found: bool)
    requires Consistent(e)
    ensures Consistent(r)
    ensures r.start == e.start && r.end == e.end && |r.grid| == |e.grid|
    ensures found <==> e.start.Some? && e.end.Some? && Reachable(e.grid, e.start.value, e.end.value)
    ensures e.start.None? || e.end.None? ==> r == e
    ensures forall c :: InBounds(c, |e.grid|) ==> (At(r.grid, c).Barrier? <==> At(e.grid, c).Barrier?)
    ensures found ==> exists p :: PathFound(e.grid, e.start.value, e.end.value, p)
                                  && PathPainted(e.grid, e.end.value, r.grid, p)
    ensures e.start.Some? && e.end.Some? && !found ==> forall c :: InBounds(c, |e.grid|) ==>
              At(r.grid, c) == (if c != e.start.value && Reachable(e.grid, e.start.value, c) then Closed else At(e.grid, c))
    ensures e.start.Some? && e.end.Some? ==> Touched(e.grid, e.start.value, r.grid)
  {
    if e.start.None? || e.end.None? {
      return e, false;
    }
    var start, end := e.start.value, e.end.value;
    var adj := NeighbourTable(e.grid);
    var grid, path;
    found, grid, path := AStar(e.grid, adj, start, end);
    r := e.(grid := grid);
    forall c | InBounds(c, |e.grid|)
      ensures MarkOk(r, c)
      ensures At(r.grid, c).Barrier? <==> At(e.grid, c).Barrier?
    {
      assert MarkOk(e, c);
      if At(grid, c) != At(e.grid, c) {
        if c != start {
          ReachedNotBarrier(e.grid, start, c);
        }
      }
    }
    assert forall c :: MarkOk(r, c);
    if found {
      assert PathFound(e.grid, start, end, path) && PathPainted(e.grid, end, r.grid, path);
    }
  }
}

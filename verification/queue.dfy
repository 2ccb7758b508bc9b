/**
  The open set: a slice of Items with the user-supplied heap.Interface
  methods (Len, Less, Swap, Push, Pop) and the linear Contains.

  container/heap (which does the sift-up and sift-down) is not part of
  this model. PopMin stands in for heap.Pop by its observable contract: it
  removes an item of least priority, moving it to the last slot with Swap
  and taking it off with Pop. Which of several least-priority items it
  takes, and where the remaining items end up, differ from heap.Pop, which
  swaps the root with the last slot and then sifts down.
 */
module Queue {
  import opened Matrix

  datatype Item = Item(value: Coord, priority: int, index: int)

  type PriorityQueue = seq<Item>

  /** Every item records its own position in the slice. */
  predicate IndexConsistent(pq: PriorityQueue) {
    forall i :: 0 <= i < |pq| ==> pq[i].index == i
  }

  /** Same cell and same priority; the index field may differ. */
  predicate SameEntry(a: Item, b: Item) {
    a.value == b.value && a.priority == b.priority
  }

  /** Less: a lower priority is served first. */
  predicate Less(pq: PriorityQueue, i: int, j: int)
    requires 0 <= i < |pq| && 0 <= j < |pq|
  {
    pq[i].priority < pq[j].priority
  }

  /** Swap exchanges two slots and re-stamps their indices. */
  function Swap(pq: PriorityQueue, i: int, j: int): (r: PriorityQueue)
    requires 0 <= i < |pq| && 0 <= j < |pq|
    ensures |r| == |pq|
    ensures SameEntry(r[i], pq[j]) && SameEntry(r[j], pq[i])
    ensures r[i].index == i && r[j].index == j
    ensures forall k :: 0 <= k < |pq| && k != i && k != j ==> r[k] == pq[k]
    ensures IndexConsistent(pq) ==> IndexConsistent(r)
  {
    pq[i := pq[j].(index := i)][j := pq[i].(index := j)]
  }

  /** Swapping the same two slots twice gives back a consistent queue. */
  lemma SwapInvolution(pq: PriorityQueue, i: int, j: int)
    requires 0 <= i < |pq| && 0 <= j < |pq|
    requires IndexConsistent(pq)
    ensures Swap(Swap(pq, i, j), i, j) == pq
  {
    var r := Swap(Swap(pq, i, j), i, j);
    assert forall k :: 0 <= k < |pq| ==> r[k] == pq[k];
  }

  /** Push appends x at the end, stamped with its position. */
  function Push(pq: PriorityQueue, x: Item): (r: PriorityQueue)
    ensures |r| == |pq| + 1
    ensures r[..|pq|] == pq
    ensures SameEntry(r[|pq|], x) && r[|pq|].index == |pq|
    ensures IndexConsistent(pq) ==> IndexConsistent(r)
  {
    pq + [x.(index := |pq|)]
  }

  /** Pop takes off the last slot and marks the removed item with index -1. */
  function Pop(pq: PriorityQueue): (r: (Item, PriorityQueue))
    requires |pq| > 0
    ensures SameEntry(r.0, pq[|pq| - 1]) && r.0.index == -1
    ensures r.1 == pq[..|pq| - 1] && |r.1| == |pq| - 1
    ensures IndexConsistent(pq) ==> IndexConsistent(r.1)
  {
    (pq[|pq| - 1].(index := -1), pq[..|pq| - 1])
  }

  /** Pop undoes Push. */
  lemma PopAfterPush(pq: PriorityQueue, x: Item)
    ensures Pop(Push(pq, x)) == (x.(index := -1), pq)
  {
    assert Push(pq, x)[..|pq|] == pq;
  }

  /** Some live item holds the cell c. */
  predicate Queued(pq: PriorityQueue, c: Coord) {
    exists i :: 0 <= i < |pq| && pq[i].value == c
  }

  /** No cell is held by two items. */
  predicate DistinctValues(pq: PriorityQueue) {
    forall i, j :: 0 <= i < j < |pq| ==> pq[i].value != pq[j].value
  }

  /** Contains: a linear scan for an item holding spot. */
  method Contains(pq: PriorityQueue, spot: Coord) returns (b: bool)
    ensures b <==> Queued(pq, spot)
  {
    for i := 0 to |pq|
      invariant forall j :: 0 <= j < i ==> pq[j].value != spot
    {
      if pq[i].value == spot {
        return true;
      }
    }
    return false;
  }

  /** The first slot of least priority; no slot is Less than it. */
  method FindMin(pq: PriorityQueue) returns (k: nat)
    requires |pq| > 0
    ensures k < |pq|
    ensures forall j :: 0 <= j < |pq| ==> pq[k].priority <= pq[j].priority
    ensures forall j :: 0 <= j < k ==> pq[k].priority < pq[j].priority
  {
    k := 0;
    for i := 1 to |pq|
      invariant k < i
      invariant forall j :: 0 <= j < i ==> pq[k].priority <= pq[j].priority
      invariant forall j :: 0 <= j < k ==> pq[k].priority < pq[j].priority
    {
      if Less(pq, i, k) {
        k := i;
      }
    }
  }

  /**
    Stands in for heap.Pop: removes the first item of least priority. In
    PopMin the slot it came from is refilled with the last item and every
    other item keeps its slot; heap.Pop instead takes the heap root and
    sifts down, so its choice among equal priorities and its slot layout
    differ.
   */
  method PopMin(pq: PriorityQueue) returns (item: Item, rest: PriorityQueue, ghost k: nat)
    requires |pq| > 0
    ensures k < |pq| && SameEntry(item, pq[k]) && item.index == -1
    ensures forall j :: 0 <= j < |pq| ==> item.priority <= pq[j].priority
    ensures |rest| == |pq| - 1
    ensures forall j :: 0 <= j < |rest| ==> SameEntry(rest[j], pq[if j == k then |pq| - 1 else j])
    ensures IndexConsistent(pq) ==> IndexConsistent(rest)
  {
    var m := FindMin(pq);
    k := m;
    var swapped := Swap(pq, m, |pq| - 1);
    var popped := Pop(swapped);
    item, rest := popped.0, popped.1;
  }

  /** Removing the item of slot k takes exactly its cell out of the queue. */
  lemma PopMinQueued(pq: PriorityQueue, rest: PriorityQueue, k: nat, c: Coord)
    requires k < |pq| && |rest| == |pq| - 1 && DistinctValues(pq)
    requires forall j :: 0 <= j < |rest| ==> SameEntry(rest[j], pq[if j == k then |pq| - 1 else j])
    ensures Queued(rest, c) <==> Queued(pq, c) && c != pq[k].value
  {
    if Queued(pq, c) && c != pq[k].value {
      var m :| 0 <= m < |pq| && pq[m].value == c;
      if m == |pq| - 1 {
        assert rest[k].value == c;
      } else {
        assert rest[m].value == c;
      }
    }
  }

  /** The remaining items still hold distinct cells. */
  lemma PopMinDistinct(pq: PriorityQueue, rest: PriorityQueue, k: nat)
    requires k < |pq| && |rest| == |pq| - 1 && DistinctValues(pq)
    requires forall j :: 0 <= j < |rest| ==> SameEntry(rest[j], pq[if j == k then |pq| - 1 else j])
    ensures DistinctValues(rest)
  {
    forall i, j | 0 <= i < j < |rest|
      ensures rest[i].value != rest[j].value
    {
      var i' := if i == k then |pq| - 1 else i;
      var j' := if j == k then |pq| - 1 else j;
      assert SameEntry(rest[i], pq[i']) && SameEntry(rest[j], pq[j']);
    }
  }
}

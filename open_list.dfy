/** The open list of the search: a binary heap of (f, cell) pairs, modelled by its
    contents. Popping yields the least pair in tuple order, so equal f-scores are
    decided by the smaller (row, col). */
module OpenList {
  import opened Geometry

  datatype Entry = Entry(f: real, cell: Cell)

  /** Tuple order on (f, (row, col)). */
  predicate EntryLe(a: Entry, b: Entry) {
    a.f < b.f ||
    (a.f == b.f && (a.cell.row < b.cell.row ||
                    (a.cell.row == b.cell.row && a.cell.col <= b.cell.col)))
  }

  /** EntryLe is a total order on entries: ties in every component mean the same entry. */
  lemma EntryLeIsTotalOrder(a: Entry, b: Entry, c: Entry)
    ensures EntryLe(a, b) || EntryLe(b, a)
    ensures EntryLe(a, b) && EntryLe(b, a) ==> a == b
    ensures EntryLe(a, b) && EntryLe(b, c) ==> EntryLe(a, c)
  {
  }

  /** The position of a least entry. */
  function MinIndex(heap: seq<Entry>): (i: nat)
    requires heap != []
    ensures i < |heap|
    ensures forall j :: 0 <= j < |heap| ==> EntryLe(heap[i], heap[j])
  {
    if |heap| == 1 then 0
    else
      var k := MinIndex(heap[1..]) + 1;
      if EntryLe(heap[0], heap[k]) then 0 else k
  }

  /** heappop: the least entry and the remaining contents. */
  function Pop(heap: seq<Entry>): (r: (Entry, seq<Entry>))
    requires heap != []
    ensures r.0 in heap
    ensures forall e :: e in heap ==> EntryLe(r.0, e)
    ensures multiset(r.1) + multiset{r.0} == multiset(heap)
    ensures |r.1| == |heap| - 1
    ensures forall e :: e in r.1 ==> e in heap
  {
    var i := MinIndex(heap);
    assert heap == heap[..i] + [heap[i]] + heap[i + 1..];
    (heap[i], heap[..i] + heap[i + 1..])
  }
}

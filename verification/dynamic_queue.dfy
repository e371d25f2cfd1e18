/** `_DynamicQueue`: a null-terminated chain of nodes from `first` (the front) to `last`
    (the rear) plus a `size` counter, on the heap of the `Links` module. `_PriorityQueue`
    shares this state. */
module DynamicQueue {
  import opened Wrappers
  import opened Positions
  import opened Links
  import Text

  /** The queue's fields, the heap of nodes, and the spine listing the chain's nodes front
      to rear. */
  datatype Queue<T> = Queue(cells: seq<Cell<T>>, first: int, last: int, size: nat, spine: seq<int>)

  /** The chain from `first` ends at `last`, and `size` counts its nodes. */
  predicate Valid<T>(q: Queue<T>) {
    Linear(q.cells, q.first, q.last, q.spine) && q.size == |q.spine|
  }

  /** The rear of the chain from `first`, whatever `last` says: null for no nodes. */
  function Rear<T>(q: Queue<T>): int {
    if |q.spine| == 0 then NULL else q.spine[|q.spine| - 1]
  }

  /** The weaker invariant that `remove(e)` as written keeps: the chain from `first` is
      intact and counted by `size`, and `last` is its rear or null. `remove()`, `remove(e)`,
      `peek`, `contains`, `toArray` and `toString` only compare `last` or overwrite it, so
      they are defined on such states; `add` is the one operation that follows it. */
  predicate Chained<T>(q: Queue<T>) {
    Valid(q.(last := Rear(q))) && (q.last == NULL || q.last == Rear(q))
  }

  /** The elements, front to rear. */
  function Elems<T>(q: Queue<T>): seq<T>
    requires Chained(q)
  {
    Values(q.cells, q.spine)
  }

  /** The implicit constructor: no nodes. */
  function New<T>(): Queue<T>
  {
    Queue([], NULL, NULL, 0, [])
  }

  /** What `New` returns. */
  lemma NewIsEmpty<T>()
    ensures var q := New<T>(); Valid(q) && Elems(q) == []
  {
  }

  /** `add(e)`: a fresh node is linked after `last` when there is one, becomes `last`, and
      becomes `first` too when `first` is null. The source consults only the two fields,
      so this is defined on any state whose `last` is null or a node. */
  function Add<T>(q: Queue<T>, e: T): (r: Queue<T>)
    requires q.last == NULL || 0 <= q.last < |q.cells|
    ensures Valid(q) ==> Valid(r) && Elems(r) == Elems(q) + [e]
    ensures r.last == |q.cells| && r.size == q.size + 1
  {
    var n := |q.cells|;
    var cells := q.cells + [Cell(e, NULL)];
    var linked := if q.last != NULL then SetNext(cells, q.last, n) else cells;
    var r := Queue(linked, if q.first == NULL then n else q.first, n, q.size + 1, q.spine + [n]);
    if Valid(q) then
      if q.last != NULL then Snoc(q.cells, q.spine, e, NULL); r
      else assert r.spine == [n]; r
    else r
  }

  /** `peek()`: the front element, or null when the queue is empty. */
  function Peek<T>(q: Queue<T>): (r: Option<T>)
    requires Chained(q)
    ensures r.None? <==> Elems(q) == []
    ensures r.Some? ==> r.value == Elems(q)[0]
  {
    if q.size == 0 then None else Some(q.cells[q.first].element)
  }

  /** `remove()`: null on an empty queue; otherwise `first` moves to the next node, `last`
      is reset when that leaves the queue empty, and the old front element is returned. */
  function Remove<T>(q: Queue<T>): (r: (Queue<T>, Option<T>))
    requires Chained(q)
    ensures Chained(r.0) && r.1 == Peek(q)
    ensures Valid(q) ==> Valid(r.0)
    ensures r.1.None? ==> r.0 == q
    ensures r.1.Some? ==> Elems(r.0) == Elems(q)[1..]
  {
    if q.size == 0 then (q, None)
    else
      Tail(q.cells, q.spine);
      var next := q.cells[q.first].next;
      assert next == (if |q.spine| > 1 then q.spine[1] else NULL);
      var r := Queue(q.cells, next, if next == NULL then NULL else q.last, q.size - 1, q.spine[1..]);
      (r, Some(q.cells[q.first].element))
  }

  /** The loop of `remove(e)` past the front: `current` is the node at spine position `k`;
      stop at the first successor holding `e` and answer the position of its predecessor,
      or -1 when the chain ends first. */
  function ScanNext<T(==)>(q: Queue<T>, k: nat, e: T): (r: int)
    requires Chained(q) && k < q.size
    ensures -1 <= r && (r == -1 <==> e !in Elems(q)[k + 1..])
    ensures r >= 0 ==> r == k + FirstIndex(Elems(q)[k + 1..], e)
    decreases q.size - k
  {
    var next := q.cells[q.spine[k]].next;
    assert next == (if k + 1 < q.size then q.spine[k + 1] else NULL);
    if next == NULL then -1
    else if q.cells[next].element == e then
      FirstIndexUnique(Elems(q)[k + 1..], e, 0);
      k
    else
      var r := ScanNext(q, k + 1, e);
      assert Elems(q)[k + 1..] == [Elems(q)[k + 1]] + Elems(q)[k + 2..];
      r
  }

  /** Where `remove(e)` finds `e`: the front is checked first, then `ScanNext` from the
      front node. This is the first occurrence. */
  function MatchPosition<T(==)>(q: Queue<T>, e: T): (i: int)
    requires Chained(q)
    ensures i == FirstIndex(Elems(q), e)
  {
    if q.size == 0 then -1
    else
      var s := Elems(q);
      assert s[0] == q.cells[q.first].element;
      if s[0] == e then
        FirstIndexUnique(s, e, 0);
        0
      else
        var k := ScanNext(q, 0, e);
        FirstIndexPastHead(s, e);
        if k < 0 then -1 else k + 1
  }

  /** `remove(e)` as written: a front match is `remove()`; otherwise the successor of the
      scanned node is unlinked, but when that successor is `last`, `last` is set to null
      instead of to the scanned node (lines 69-71 and 89-91). The chain always loses
      exactly the first occurrence, so the weaker invariant `Chained` is kept; from a
      well-formed queue the result is well formed exactly unless the rear element is
      removed from a queue of two or more. */
  function RemoveElementAsWritten<T(==)>(q: Queue<T>, e: T): (r: (Queue<T>, bool))
    requires Chained(q)
    ensures Chained(r.0)
    ensures r.1 <==> e in Elems(q)
    ensures !r.1 ==> r.0 == q
    ensures r.0.size == (if r.1 then q.size - 1 else q.size)
    ensures r.1 ==> Elems(r.0) == Removed(Elems(q), FirstIndex(Elems(q), e))
    ensures Valid(q) ==> (Valid(r.0) <==> !(r.1 && 0 < FirstIndex(Elems(q), e) == q.size - 1))
  {
    var i := MatchPosition(q, e);
    if i < 0 then (q, false)
    else if i == 0 then (Remove(q).0, true)
    else
      var next := q.spine[i];
      assert next == Rear(q) <==> i == q.size - 1;
      (Unlinked(q, i - 1, if next == q.last then NULL else q.last), true)
  }

  /** The source's `remove(e)` and the corrected one differ in `last` alone: the same
      nodes are relinked, the same element is reported, and `size` drops the same way. */
  lemma AsWrittenAgrees<T>(q: Queue<T>, e: T)
    requires Valid(q)
    ensures RemoveElementAsWritten(q, e).1 == RemoveElement(q, e).1
    ensures RemoveElementAsWritten(q, e).0
         == RemoveElement(q, e).0.(last := RemoveElementAsWritten(q, e).0.last)
  {
  }

  /** `remove(e)` with the tail case relinking `last` to the scanned node, which keeps the
      chain's `last` and `size` right. */
  function RemoveElement<T(==)>(q: Queue<T>, e: T): (r: (Queue<T>, bool))
    requires Valid(q)
    ensures Valid(r.0)
    ensures r.1 <==> e in Elems(q)
    ensures !r.1 ==> r.0 == q
    ensures r.1 ==> Elems(r.0) == Removed(Elems(q), FirstIndex(Elems(q), e))
  {
    var i := MatchPosition(q, e);
    if i < 0 then (q, false)
    else if i == 0 then (Remove(q).0, true)
    else
      var next := q.spine[i];
      assert Rear(q) == q.last;
      assert next == q.last <==> i == q.size - 1;
      (Unlinked(q, i - 1, if next == q.last then q.spine[i - 1] else q.last), true)
  }

  /** `current.setNext(next.getNext())` on the node at spine position `k`, with `last`
      set to `newLast`. The chain is intact; whether `last` is its rear, or at least null,
      depends on `newLast`. */
  function Unlinked<T>(q: Queue<T>, k: nat, newLast: int): (r: Queue<T>)
    requires Chained(q) && k + 1 < q.size
    ensures r.size == q.size - 1 && r.first == q.first && r.last == newLast
    ensures Rear(r) == (if k + 1 == q.size - 1 then q.spine[k] else Rear(q))
    ensures Valid(r) <==> newLast == Rear(r)
    ensures Chained(r) <==> newLast == NULL || newLast == Rear(r)
    ensures Chained(r) ==> Elems(r) == Removed(Elems(q), k + 1)
  {
    Unlink(q.cells, q.spine, k);
    UnlinkLinear(q.cells, q.first, Rear(q), q.spine, k);
    var cells := SetNext(q.cells, q.spine[k], q.cells[q.spine[k + 1]].next);
    var spine := Removed(q.spine, k + 1);
    assert spine[|spine| - 1] == if k + 1 == q.size - 1 then q.spine[k] else Rear(q);
    Queue(cells, q.first, newLast, q.size - 1, spine)
  }

  /** `contains(e)`: walk from `first` until a null link. */
  method Contains<T(==)>(q: Queue<T>, e: T) returns (r: bool)
    requires Chained(q)
    ensures r <==> e in Elems(q)
  {
    var current := q.first;
    var i := 0;
    while current != NULL
      invariant 0 <= i <= q.size
      invariant current == (if i < q.size then q.spine[i] else NULL)
      invariant e !in Elems(q)[..i]
      decreases q.size - i
    {
      if q.cells[current].element == e {
        return true;
      }
      assert Elems(q)[..i + 1] == Elems(q)[..i] + [Elems(q)[i]];
      current := q.cells[current].next;
      i := i + 1;
    }
    assert Elems(q)[..i] == Elems(q);
    return false;
  }

  /** `clear`: no nodes and size 0. */
  function Clear<T>(q: Queue<T>): (r: Queue<T>)
    ensures Valid(r) && Elems(r) == []
  {
    Queue(q.cells, NULL, NULL, 0, [])
  }

  /** `toArray`: `size` steps from `first`, front to rear. */
  method ToArray<T>(q: Queue<T>) returns (a: seq<T>)
    requires Chained(q)
    ensures a == Elems(q)
  {
    a := [];
    var current := q.first;
    var i := 0;
    while i < q.size
      invariant 0 <= i <= q.size
      invariant current == (if i < q.size then q.spine[i] else NULL)
      invariant a == Elems(q)[..i]
    {
      assert Elems(q)[..i + 1] == Elems(q)[..i] + [Elems(q)[i]];
      a := a + [q.cells[current].element];
      current := q.cells[current].next;
      i := i + 1;
    }
    assert Elems(q)[..i] == Elems(q);
  }

  /** `_Node.toString` on the node at spine position `k`: its element, then ", " and the
      rest of the chain when its link is not null. */
  function QueueTextFrom<T>(q: Queue<T>, k: nat, show: T -> string): (str: string)
    requires Chained(q) && k < q.size
    ensures str == Text.Join(Text.Shown(Elems(q)[k..], show))
    decreases q.size - k
  {
    var next := q.cells[q.spine[k]].next;
    assert next == (if k + 1 < q.size then q.spine[k + 1] else NULL);
    assert Text.Shown(Elems(q)[k..], show)[1..] == Text.Shown(Elems(q)[k + 1..], show);
    if next == NULL then show(q.cells[q.spine[k]].element)
    else show(q.cells[q.spine[k]].element) + ", " + QueueTextFrom(q, k + 1, show)
  }

  /** `toString`: `[` + the rendering of `first`'s node chain + `]`. */
  function ToString<T>(q: Queue<T>, show: T -> string): (str: string)
    requires Chained(q)
    ensures str == Text.Render(Elems(q), show)
  {
    assert Elems(q)[0..] == Elems(q);
    "[" + (if q.size == 0 then "" else QueueTextFrom(q, 0, show)) + "]"
  }

  /** FIFO: what is added to an empty queue comes back out of `remove()`. */
  lemma FifoOrder<T>(q: Queue<T>, e: T)
    requires Valid(q)
    ensures Remove(Add(q, e)).1 == Some(if Elems(q) == [] then e else Elems(q)[0])
  {
  }

  /** The heap reached by `add(1)`, `add(2)`, `remove(2)` and `add(3)` from an empty
      queue with the source's `remove(e)`: `first`'s node has a null link although `size`
      is 2, and the node holding 3 is `last` but is linked from nothing. */
  const Lost: Queue<int> :=
    Queue([Cell(1, NULL), Cell(2, NULL), Cell(3, NULL)], 0, 2, 2, [0, 2])

  lemma LostReached()
    ensures Add(RemoveElementAsWritten(Add(Add(New(), 1), 2), 2).0, 3) == Lost
  {
    TwoRemoved();
    ThreeAdded();
  }

  /** `add(3)` with `last` null but `first` not null: the new node becomes `last` and is
      linked from no node. */
  lemma ThreeAdded()
    ensures Add(Queue([Cell(1, NULL), Cell(2, NULL)], 0, NULL, 1, [0]), 3) == Lost
  {
  }

  /** `remove(2)` as written on the queue 1, 2: `last` is left null. */
  lemma TwoRemoved()
    ensures RemoveElementAsWritten(Add(Add(New(), 1), 2), 2).0
         == Queue([Cell(1, NULL), Cell(2, NULL)], 0, NULL, 1, [0])
  {
    OneTwo();
    var q2 := Add(Add(New<int>(), 1), 2);
    assert MatchPosition(q2, 2) == 1;
  }

  /** `add(1)` then `add(2)` on an empty queue. */
  lemma OneTwo()
    ensures Add(Add(New(), 1), 2) == Queue([Cell(1, 1), Cell(2, NULL)], 0, 1, 2, [0, 1])
    ensures Elems(Add(Add(New(), 1), 2)) == [1, 2]
  {
  }

  /** In `Lost` no chain from `first` ends at `last`: the element 3 has left the queue,
      yet `size` still counts it. */
  lemma LostIsBroken(s: seq<int>)
    ensures !Linear(Lost.cells, Lost.first, Lost.last, s)
    ensures Lost.size == 2 && Lost.cells[Lost.first].next == NULL
    ensures Lost.cells[Lost.last].element == 3 && Lost.last != Lost.first
  {
    if |s| > 1 && Linear(Lost.cells, Lost.first, Lost.last, s) {
      SecondNode(Lost.cells, s);
    }
  }

  /** The same steps with the corrected `remove(e)` keep 1 and 3 queued. */
  lemma CorrectedKeepsAll()
    ensures Valid(Add(RemoveElement(Add(Add(New(), 1), 2), 2).0, 3))
    ensures Elems(Add(RemoveElement(Add(Add(New(), 1), 2), 2).0, 3)) == [1, 3]
  {
    NewIsEmpty<int>();
    RemoveTwoAddThree(Add(Add(New<int>(), 1), 2));
  }

  /** On any queue holding 1, 2, the corrected `remove(2)` then `add(3)` leaves 1, 3. */
  lemma RemoveTwoAddThree(q: Queue<int>)
    requires Valid(q) && Elems(q) == [1, 2]
    ensures Valid(Add(RemoveElement(q, 2).0, 3))
    ensures Elems(Add(RemoveElement(q, 2).0, 3)) == [1, 3]
  {
    assert FirstIndex(Elems(q), 2) == 1;
    assert Removed([1, 2], 1) == [1];
  }
}

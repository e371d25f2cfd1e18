/** `_CircularQueue`: a ring of nodes from `front` round to `rear`, whose link leads back to
    `front`, plus a `size` counter, on the heap of the `Links` module. */
module CircularQueue {
  import opened Wrappers
  import opened Positions
  import opened Links
  import Text

  /** The queue's fields, the heap of nodes, and the spine listing the ring's nodes front
      to rear. */
  datatype Queue<T> = Queue(cells: seq<Cell<T>>, front: int, rear: int, size: nat, spine: seq<int>)

  /** The ring from `front` closes at `rear`, and `size` counts its nodes. */
  predicate Valid<T>(q: Queue<T>) {
    Ring(q.cells, q.front, q.rear, q.spine) && q.size == |q.spine|
  }

  /** The elements, front to rear. */
  function Elems<T>(q: Queue<T>): seq<T>
    requires Valid(q)
  {
    Values(q.cells, q.spine)
  }

  /** `new _CircularQueue()`: no nodes. */
  function New<T>(): Queue<T>
  {
    Queue([], NULL, NULL, 0, [])
  }

  /** What `New` returns. */
  lemma NewIsEmpty<T>()
    ensures var q := New<T>(); Valid(q) && Elems(q) == []
  {
  }

  /** `add(e)`: a fresh node becomes the rear (and the front too when there is none), and
      the rear is linked back to the front. */
  function Add<T>(q: Queue<T>, e: T): (r: Queue<T>)
    requires Valid(q)
    ensures Valid(r) && Elems(r) == Elems(q) + [e]
    ensures r.rear == |q.cells| && r.cells[r.rear] == Cell(e, r.front)
  {
    var n := |q.cells|;
    var cells := q.cells + [Cell(e, NULL)];
    if q.front == NULL then
      Queue(SetNext(cells, n, n), n, n, 1, [n])
    else
      Snoc(q.cells, q.spine, e, NULL);
      RelinkLast(SetNext(cells, q.rear, n), q.spine + [n], q.front);
      Queue(SetNext(SetNext(cells, q.rear, n), n, q.front), q.front, n, q.size + 1, q.spine + [n])
  }

  /** `remove()`: null on an empty queue; a lone node empties the ring; otherwise `front`
      moves on and the rear is relinked to the new front. */
  function Remove<T>(q: Queue<T>): (r: (Queue<T>, Option<T>))
    requires Valid(q)
    ensures Valid(r.0)
    ensures r.1.None? <==> Elems(q) == []
    ensures r.1.None? ==> r.0 == q
    ensures r.1.Some? ==> r.1.value == Elems(q)[0] && Elems(r.0) == Elems(q)[1..]
  {
    if q.size == 0 then (q, None)
    else if q.front == q.rear then
      assert q.spine[0] == q.spine[q.size - 1];
      (Queue(q.cells, NULL, NULL, 0, []), Some(q.cells[q.front].element))
    else
      var next := q.cells[q.front].next;
      assert next == q.spine[1];
      Tail(q.cells, q.spine);
      RelinkLast(q.cells, q.spine[1..], next);
      (Queue(SetNext(q.cells, q.rear, next), next, q.rear, q.size - 1, q.spine[1..]),
       Some(q.cells[q.front].element))
  }

  /** `peek()` as written: the front's element, read through `front` with no emptiness
      check, so an empty queue dereferences null (lines 128-130). */
  function PeekAsWritten<T>(q: Queue<T>): (r: Result<T>)
    requires Valid(q)
    ensures r.Fail? <==> Elems(q) == []
    ensures r.Fail? ==> r.error == NullPointer
    ensures r.Ok? ==> r.value == Elems(q)[0]
  {
    if q.front == NULL then Fail(NullPointer) else Ok(q.cells[q.front].element)
  }

  /** `peek()` as every other queue of the library defines it: the front element, or null
      when the queue is empty. */
  function Peek<T>(q: Queue<T>): (r: Option<T>)
    requires Valid(q)
    ensures r.None? <==> Elems(q) == []
    ensures r.Some? ==> r.value == Elems(q)[0]
  {
    if q.size == 0 then None else Some(q.cells[q.front].element)
  }

  /** The source's `peek` throws on an empty queue where `remove()` answers null. */
  lemma PeekAsWrittenThrows<T>()
    ensures PeekAsWritten(New<T>()) == Fail(NullPointer)
    ensures Remove(New<T>()).1 == None && Peek(New<T>()) == None
  {
  }

  /** The corrected `peek` previews `remove()` on every queue, and agrees with the source
      whenever the queue is not empty. */
  lemma PeekPreviewsRemove<T>(q: Queue<T>)
    requires Valid(q)
    ensures Peek(q) == Remove(q).1
    ensures Elems(q) != [] ==> PeekAsWritten(q) == Ok(Peek(q).value)
  {
  }

  /** The do-while loop of `remove(e)` past the front: `current` is the node at spine
      position `k`; test its successor, stop when the successor holds `e` (answering `k`) or
      when the walk is back at `front` (answering -1). */
  function ScanRing<T(==)>(q: Queue<T>, k: nat, e: T): (r: int)
    requires Valid(q) && k < q.size && Elems(q)[0] != e
    ensures -1 <= r < q.size - 1
    ensures r == -1 <==> e !in Elems(q)[k + 1..]
    ensures r >= 0 ==> r == k + FirstIndex(Elems(q)[k + 1..], e)
    decreases q.size - k
  {
    var next := q.cells[q.spine[k]].next;
    RingNext(q, k);
    if q.cells[next].element == e then
      FirstIndexUnique(Elems(q)[k + 1..], e, 0);
      k
    else if next == q.front then -1
    else
      var r := ScanRing(q, k + 1, e);
      assert Elems(q)[k + 1..][1..] == Elems(q)[k + 2..];
      FirstIndexPastHead(Elems(q)[k + 1..], e);
      r
  }

  /** The node after spine position `k` is the next one on the spine, or `front` again
      after the rear; it is `front` only there. */
  lemma RingNext<T>(q: Queue<T>, k: nat)
    requires Valid(q) && k < q.size
    ensures q.cells[q.spine[k]].next == if k + 1 < q.size then q.spine[k + 1] else q.front
    ensures 0 <= q.cells[q.spine[k]].next < |q.cells|
    ensures q.cells[q.spine[k]].next == q.front <==> k + 1 == q.size
    ensures k + 1 < q.size ==> q.cells[q.cells[q.spine[k]].next].element == Elems(q)[k + 1]
  {
    if k + 1 < q.size {
      assert q.spine[k + 1] != q.spine[0];
    }
  }

  /** `current.setNext(next.getNext())` on the node at spine position `k`, moving `rear`
      back to `current` when `next` was the rear. */
  function UnlinkNext<T>(q: Queue<T>, k: nat): (r: Queue<T>)
    requires Valid(q) && k + 1 < q.size
    ensures Valid(r) && Elems(r) == Removed(Elems(q), k + 1)
    ensures r.rear == (if k + 1 == q.size - 1 then q.spine[k] else q.rear)
  {
    RingUnlink(q.cells, q.front, q.rear, q.spine, k);
    Unlink(q.cells, q.spine, k);
    var current := q.spine[k];
    var next := q.cells[current].next;
    Queue(SetNext(q.cells, current, q.cells[next].next), q.front,
          if next == q.rear then current else q.rear, q.size - 1, Removed(q.spine, k + 1))
  }

  /** `remove(e)`: a front match is `remove()`; otherwise the first successor holding `e`
      found going round the ring is unlinked. */
  function RemoveElement<T(==)>(q: Queue<T>, e: T): (r: (Queue<T>, bool))
    requires Valid(q)
    ensures Valid(r.0)
    ensures r.1 <==> e in Elems(q)
    ensures !r.1 ==> r.0 == q
    ensures r.1 ==> Elems(r.0) == Removed(Elems(q), FirstIndex(Elems(q), e))
  {
    if q.size == 0 then (q, false)
    else
      var s := Elems(q);
      assert s[0] == q.cells[q.front].element;
      if s[0] == e then
        FirstIndexUnique(s, e, 0);
        (Remove(q).0, true)
      else
        var k := ScanRing(q, 0, e);
        FirstIndexPastHead(s, e);
        if k < 0 then (q, false) else (UnlinkNext(q, k), true)
  }

  /** `contains(e)`: a do-while walk from `front` that stops at a match or when it is back
      at `front`. */
  method Contains<T(==)>(q: Queue<T>, e: T) returns (r: bool)
    requires Valid(q)
    ensures r <==> e in Elems(q)
  {
    if q.size == 0 {
      return false;
    }
    var current := q.front;
    var i := 0;
    while true
      invariant 0 <= i < q.size && current == q.spine[i]
      invariant e !in Elems(q)[..i]
      decreases q.size - i
    {
      if q.cells[current].element == e {
        return true;
      }
      assert Elems(q)[..i + 1] == Elems(q)[..i] + [Elems(q)[i]];
      assert q.cells[current].next == if i + 1 < q.size then q.spine[i + 1] else q.front;
      current := q.cells[current].next;
      if current == q.front {
        assert Elems(q)[..i + 1] == Elems(q);
        return false;
      }
      i := i + 1;
    }
  }

  /** `clear`: walk from `front` nulling each link until a null link is met, then reset the
      fields. The walk goes once round the ring and then meets the front's link it nulled
      first, so it ends after `size + 1` steps with every node of the ring unlinked. */
  method Clear<T>(q: Queue<T>) returns (r: Queue<T>)
    requires Valid(q)
    ensures Valid(r) && Elems(r) == []
    ensures |r.cells| == |q.cells|
    ensures forall j :: 0 <= j < |q.spine| ==> r.cells[q.spine[j]].next == NULL
  {
    var cells := q.cells;
    var current := q.front;
    var i := 0;
    while current != NULL
      invariant 0 <= i <= q.size + 1 && |cells| == |q.cells|
      invariant current == if i < q.size then q.spine[i]
                           else if i == q.size && q.size > 0 then q.front else NULL
      invariant forall j :: 0 <= j < q.size && j < i ==> cells[q.spine[j]].next == NULL
      invariant forall j :: i <= j < q.size ==> cells[q.spine[j]] == q.cells[q.spine[j]]
      decreases q.size + 1 - i
    {
      var next := cells[current].next;
      cells := SetNext(cells, current, NULL);
      current := next;
      i := i + 1;
    }
    r := Queue(cells, NULL, NULL, 0, []);
  }

  /** `toArray`: `size` steps from `front`, front to rear. */
  method ToArray<T>(q: Queue<T>) returns (a: seq<T>)
    requires Valid(q)
    ensures a == Elems(q)
  {
    a := [];
    var current := q.front;
    var i := 0;
    while i < q.size
      invariant 0 <= i <= q.size
      invariant i < q.size ==> current == q.spine[i]
      invariant a == Elems(q)[..i]
    {
      assert Elems(q)[..i + 1] == Elems(q)[..i] + [Elems(q)[i]];
      a := a + [q.cells[current].element];
      current := q.cells[current].next;
      i := i + 1;
    }
    assert Elems(q)[..i] == Elems(q);
  }

  /** `toString`: each node before the rear followed by ", ", then the rear's element. */
  method ToString<T>(q: Queue<T>, show: T -> string) returns (str: string)
    requires Valid(q)
    ensures str == Text.Render(Elems(q), show)
  {
    var s := Elems(q);
    str := "[";
    var current := q.front;
    var i := 0;
    while current != q.rear
      invariant q.size > 0 ==> 0 <= i < q.size && current == q.spine[i]
      invariant q.size == 0 ==> i == 0 && current == NULL
      invariant str == "[" + Text.Terminated(Text.Shown(s[..i], show))
      decreases q.size - i
    {
      assert i != q.size - 1 && q.cells[current].next == q.spine[i + 1];
      assert s[i] == q.cells[current].element;
      Text.RenderStep(s, i, show);
      str := str + show(q.cells[current].element) + ", ";
      current := q.cells[current].next;
      i := i + 1;
    }
    if q.size != 0 {
      assert q.spine[i] == q.spine[q.size - 1];
      assert s[i] == q.cells[current].element;
      Text.RenderLast(s, show);
      str := str + show(q.cells[current].element);
    } else {
      assert s[..i] == [];
    }
    str := str + "]";
  }

  /** FIFO: `remove()` answers the front, which is the element just added to an empty
      queue. */
  lemma FifoOrder<T>(q: Queue<T>, e: T)
    requires Valid(q)
    ensures Remove(Add(q, e)).1 == Some(if Elems(q) == [] then e else Elems(q)[0])
  {
  }
}

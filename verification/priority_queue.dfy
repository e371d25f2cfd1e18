/** `_PriorityQueue`: a `_DynamicQueue` whose `add` links the new element in front of the
    first element that is strictly greater, so the front is always a least element. `peek`,
    `remove()`, `remove(e)` and the rest are `_DynamicQueue`'s, `remove(e)` as the source
    writes it. That `remove(e)` can leave `last` null, and this `add` never reads `last`, so
    the invariant here is `DynamicQueue.Chained` rather than `DynamicQueue.Valid`. */
module PriorityQueue {
  import opened Wrappers
  import opened Positions
  import opened Order
  import opened Links
  import DynamicQueue

  /** Where `add(e)` puts `e`: in front of the first element it is strictly less than, or
      at the end when there is none, so after every element that is at most `e`. */
  function InsertionPoint<T>(le: (T, T) -> bool, s: seq<T>, e: T): (p: nat)
    ensures p <= |s|
    ensures forall j :: 0 <= j < p ==> le(s[j], e)
    ensures p < |s| ==> Less(le, e, s[p])
  {
    if |s| == 0 || Less(le, e, s[0]) then 0
    else 1 + InsertionPoint(le, s[1..], e)
  }

  /** The properties of `InsertionPoint` single it out. */
  lemma InsertionPointUnique<T>(le: (T, T) -> bool, s: seq<T>, e: T, p: int)
    requires 0 <= p <= |s|
    requires forall j :: 0 <= j < p ==> le(s[j], e)
    requires p < |s| ==> Less(le, e, s[p])
    ensures p == InsertionPoint(le, s, e)
  {
  }

  /** The loop of `add(e)` past the front: from the node at spine position `k`, advance
      while there is a next node and `e` is not strictly less than its element. The answer is
      the spine position of the node the new one is linked after. */
  function ScanInsert<T>(le: (T, T) -> bool, q: DynamicQueue.Queue<T>, k: nat, e: T): (r: int)
    requires DynamicQueue.Chained(q) && k < q.size
    ensures k <= r < q.size
    ensures forall j :: k < j <= r ==> le(DynamicQueue.Elems(q)[j], e)
    ensures r + 1 < q.size ==> Less(le, e, DynamicQueue.Elems(q)[r + 1])
    decreases q.size - k
  {
    var next := q.cells[q.spine[k]].next;
    assert next == (if k + 1 < q.size then q.spine[k + 1] else NULL);
    if next == NULL || Less(le, e, q.cells[next].element) then k
    else ScanInsert(le, q, k + 1, e)
  }

  /** `first = new _Node<>(e, first)` on a non-empty queue; `last` stays. */
  function LinkFront<T>(q: DynamicQueue.Queue<T>, e: T): (r: DynamicQueue.Queue<T>)
    requires DynamicQueue.Chained(q) && q.size > 0
    ensures DynamicQueue.Chained(r) && r.size == q.size + 1
    ensures DynamicQueue.Valid(q) ==> DynamicQueue.Valid(r)
    ensures DynamicQueue.Elems(r) == [e] + DynamicQueue.Elems(q)
  {
    ConsLinear(q.cells, q.first, DynamicQueue.Rear(q), q.spine, e);
    DynamicQueue.Queue(q.cells + [Cell(e, q.first)], |q.cells|, q.last, q.size + 1,
                       [|q.cells|] + q.spine)
  }

  /** `current.setNext(new _Node<>(e, current.getNext()))` on the node at spine position
      `k`, and `last = current.getNext()` when the new node has no successor. */
  function LinkBehind<T>(q: DynamicQueue.Queue<T>, k: nat, e: T): (r: DynamicQueue.Queue<T>)
    requires DynamicQueue.Chained(q) && k < q.size
    ensures DynamicQueue.Chained(r) && r.size == q.size + 1
    ensures DynamicQueue.Valid(q) ==> DynamicQueue.Valid(r)
    ensures DynamicQueue.Elems(r) == Inserted(DynamicQueue.Elems(q), k + 1, e)
  {
    LinkInLinear(q.cells, q.first, DynamicQueue.Rear(q), q.spine, k, e);
    var n := |q.cells|;
    assert q.cells[q.spine[k]].next == (if k + 1 < q.size then q.spine[k + 1] else NULL);
    var cells := SetNext(q.cells + [Cell(e, q.cells[q.spine[k]].next)], q.spine[k], n);
    assert cells[n].next == NULL <==> k + 1 == q.size;
    DynamicQueue.Queue(cells, q.first, if cells[n].next == NULL then n else q.last,
                       q.size + 1, Inserted(q.spine, k + 1, n))
  }

  /** `add(e)`: null is rejected; an empty queue takes `e` as `_DynamicQueue.add` does; an
      element strictly less than the front becomes the new front; otherwise the new node is
      linked after the last node whose element `e` is not strictly less than, and becomes
      `last` when nothing follows it. */
  function Add<T>(le: (T, T) -> bool, q: DynamicQueue.Queue<T>, x: Option<T>): (r: Result<DynamicQueue.Queue<T>>)
    requires DynamicQueue.Chained(q)
    ensures x.None? <==> r.Fail?
    ensures r.Fail? ==> r.error == NullPointer
    ensures r.Ok? ==> DynamicQueue.Chained(r.value) && r.value.size == q.size + 1
    ensures r.Ok? && DynamicQueue.Valid(q) ==> DynamicQueue.Valid(r.value)
    ensures r.Ok? ==>
      DynamicQueue.Elems(r.value)
      == Inserted(DynamicQueue.Elems(q), InsertionPoint(le, DynamicQueue.Elems(q), x.value), x.value)
  {
    match x
    case None => Fail(NullPointer)
    case Some(e) =>
      if q.size == 0 then
        assert DynamicQueue.Valid(q);
        assert Inserted(DynamicQueue.Elems(q), 0, e) == [e];
        Ok(DynamicQueue.Add(q, e))
      else if Less(le, e, q.cells[q.first].element) then
        assert DynamicQueue.Elems(q)[0] == q.cells[q.first].element;
        assert Inserted(DynamicQueue.Elems(q), 0, e) == [e] + DynamicQueue.Elems(q);
        Ok(LinkFront(q, e))
      else
        var k := ScanInsert(le, q, 0, e);
        assert DynamicQueue.Elems(q)[0] == q.cells[q.first].element;
        InsertionPointUnique(le, DynamicQueue.Elems(q), e, k + 1);
        Ok(LinkBehind(q, k, e))
  }

  /** Inserting at the insertion point keeps a sorted sequence sorted. */
  lemma InsertedSorted<T(!new)>(le: (T, T) -> bool, s: seq<T>, e: T)
    requires TotalOrder(le) && Sorted(le, s)
    ensures Sorted(le, Inserted(s, InsertionPoint(le, s, e), e))
  {
    var p := InsertionPoint(le, s, e);
    var r := Inserted(s, p, e);
    forall i, j | 0 <= i < j < |r|
      ensures le(r[i], r[j])
    {
      if i == p {
        assert le(e, s[p]) && le(s[p], s[j - 1]);
        Transitive(le, e, s[p], s[j - 1]);
      } else if j == p {
        assert r[i] == s[i];
      } else {
        var i2, j2 := if i < p then i else i - 1, if j < p then j else j - 1;
        assert r[i] == s[i2] && r[j] == s[j2] && i2 < j2;
      }
    }
  }

  /** `add` keeps the queue in order, so the front stays a least element. */
  lemma AddKeepsSorted<T(!new)>(le: (T, T) -> bool, q: DynamicQueue.Queue<T>, e: T)
    requires DynamicQueue.Chained(q) && TotalOrder(le) && Sorted(le, DynamicQueue.Elems(q))
    ensures Sorted(le, DynamicQueue.Elems(Add(le, q, Some(e)).value))
  {
    InsertedSorted(le, DynamicQueue.Elems(q), e);
  }

  /** In an ordered queue `peek` answers a least element. */
  lemma PeekIsLeast<T(!new)>(le: (T, T) -> bool, q: DynamicQueue.Queue<T>)
    requires DynamicQueue.Chained(q) && Sorted(le, DynamicQueue.Elems(q)) && TotalOrder(le)
    ensures DynamicQueue.Peek(q).Some? ==>
              forall y :: y in DynamicQueue.Elems(q) ==> le(DynamicQueue.Peek(q).value, y)
  {
    forall y | y in DynamicQueue.Elems(q)
      ensures le(DynamicQueue.Elems(q)[0], y)
    {
      var j :| 0 <= j < |DynamicQueue.Elems(q)| && DynamicQueue.Elems(q)[j] == y;
      if j > 0 {
        assert le(DynamicQueue.Elems(q)[0], DynamicQueue.Elems(q)[j]);
      }
    }
  }

  /** Removing one position keeps a sorted sequence sorted. */
  lemma RemovedSorted<T>(le: (T, T) -> bool, s: seq<T>, f: int)
    requires 0 <= f < |s| && Sorted(le, s)
    ensures Sorted(le, Removed(s, f))
  {
    var r := Removed(s, f);
    forall i, j | 0 <= i < j < |r|
      ensures le(r[i], r[j])
    {
      var i2, j2 := if i < f then i else i + 1, if j < f then j else j + 1;
      assert r[i] == s[i2] && r[j] == s[j2];
    }
  }

  /** `remove()` and the inherited `remove(e)`, as written, keep the queue in order, on
      every state they can reach; so does the corrected `remove(e)`. */
  lemma RemovalsKeepSorted<T(!new)>(le: (T, T) -> bool, q: DynamicQueue.Queue<T>, e: T)
    requires DynamicQueue.Chained(q) && Sorted(le, DynamicQueue.Elems(q))
    ensures Sorted(le, DynamicQueue.Elems(DynamicQueue.Remove(q).0))
    ensures Sorted(le, DynamicQueue.Elems(DynamicQueue.RemoveElementAsWritten(q, e).0))
    ensures DynamicQueue.Valid(q) ==>
              Sorted(le, DynamicQueue.Elems(DynamicQueue.RemoveElement(q, e).0))
  {
    var s := DynamicQueue.Elems(q);
    if |s| > 0 {
      RemovedSorted(le, s, 0);
      assert Removed(s, 0) == s[1..];
    }
    if e in s {
      RemovedSorted(le, s, FirstIndex(s, e));
    }
  }

  /** The natural order on integers. */
  predicate IntLe(a: int, b: int) {
    a <= b
  }

  /** The steps that lose an element from a `_DynamicQueue` (`DynamicQueue.LostIsBroken`)
      are harmless here: `remove(2)` as written on a queue holding 1, 2 leaves `last` null,
      yet `add(3)` walks from `first` and leaves 1, 3 queued. */
  lemma LossIsHarmless(q: DynamicQueue.Queue<int>)
    requires DynamicQueue.Valid(q) && DynamicQueue.Elems(q) == [1, 2]
    ensures !DynamicQueue.Valid(DynamicQueue.RemoveElementAsWritten(q, 2).0)
    ensures var r := DynamicQueue.RemoveElementAsWritten(q, 2).0;
            DynamicQueue.Chained(Add(IntLe, r, Some(3)).value)
            && DynamicQueue.Elems(Add(IntLe, r, Some(3)).value) == [1, 3]
  {
    assert FirstIndex([1, 2], 2) == 1;
    assert Removed([1, 2], 1) == [1];
    assert InsertionPoint(IntLe, [1], 3) == 1;
    assert Inserted([1], 1, 3) == [1, 3];
  }

  /** `add(1)` then `add(2)` on a new priority queue, which `LossIsHarmless` starts from. */
  lemma OneTwoQueued()
    ensures var q := Add(IntLe, Add(IntLe, DynamicQueue.New(), Some(1)).value, Some(2)).value;
            DynamicQueue.Valid(q) && DynamicQueue.Elems(q) == [1, 2]
  {
    DynamicQueue.NewIsEmpty<int>();
    assert Inserted([], 0, 1) == [1];
    assert InsertionPoint(IntLe, [1], 2) == 1;
    assert Inserted([1], 1, 2) == [1, 2];
  }

  /** After `add(5)`, a strictly smaller `add(3)` becomes the front, while an equal
      `add(5)` queues behind the first 5. */
  lemma SmallerGoesFirst()
    ensures var q := Add(IntLe, DynamicQueue.New(), Some(5)).value;
            DynamicQueue.Elems(Add(IntLe, q, Some(3)).value) == [3, 5]
    ensures var q := Add(IntLe, DynamicQueue.New(), Some(5)).value;
            DynamicQueue.Elems(Add(IntLe, q, Some(5)).value) == [5, 5]
  {
    OneFive();
    AfterFive(Add(IntLe, DynamicQueue.New(), Some(5)).value);
  }

  /** On any queue holding just 5, `add(3)` goes in front and `add(5)` behind. */
  lemma AfterFive(q: DynamicQueue.Queue<int>)
    requires DynamicQueue.Valid(q) && DynamicQueue.Elems(q) == [5]
    ensures DynamicQueue.Elems(Add(IntLe, q, Some(3)).value) == [3, 5]
    ensures DynamicQueue.Elems(Add(IntLe, q, Some(5)).value) == [5, 5]
  {
    assert InsertionPoint(IntLe, [5], 3) == 0;
    assert InsertionPoint(IntLe, [5], 5) == 1;
    assert Inserted([5], 0, 3) == [3, 5];
    assert Inserted([5], 1, 5) == [5, 5];
  }

  lemma OneFive()
    ensures DynamicQueue.Valid(Add(IntLe, DynamicQueue.New(), Some(5)).value)
    ensures DynamicQueue.Elems(Add(IntLe, DynamicQueue.New(), Some(5)).value) == [5]
  {
    DynamicQueue.NewIsEmpty<int>();
    assert Inserted([], 0, 5) == [5];
  }
}

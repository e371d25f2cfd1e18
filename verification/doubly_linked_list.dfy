/** `_DoublyLinkedList`: nodes linked both ways from `first` to `last` plus a `size`
    counter, on the heap of the `DoubleLinks` module. `getNode` walks from whichever end is
    nearer. */
module DoublyLinkedList {
  import opened Wrappers
  import opened Positions
  import opened DoubleLinks
  import Text

  /** The list's fields, the heap of nodes, and the spine listing its nodes first to
      last. */
  datatype List<T> = List(cells: seq<DCell<T>>, first: int, last: int, size: nat, spine: seq<int>)

  /** The links agree both ways along the spine, `first` and `last` are its ends, and
      `size` counts its nodes. */
  predicate Valid<T>(l: List<T>) {
    && Chained(l.cells, l.spine)
    && l.first == Head(l.spine) && l.last == Rear(l.spine)
    && l.size == |l.spine|
  }

  /** The elements, first to last. */
  function Elems<T>(l: List<T>): seq<T>
    requires Valid(l)
  {
    Values(l.cells, l.spine)
  }

  /** `new _DoublyLinkedList()`: no nodes. */
  function New<T>(): List<T>
  {
    List([], NULL, NULL, 0, [])
  }

  /** What `New` returns. */
  lemma NewIsEmpty<T>()
    ensures var l := New<T>(); Valid(l) && Elems(l) == []
  {
  }

  /** `add(e)`: a fresh node whose `previous` is the old `last` becomes `last`; it is linked
      from the old `last`, or becomes `first` when there was none. */
  function Add<T>(l: List<T>, e: T): (r: List<T>)
    requires Valid(l)
    ensures Valid(r) && Elems(r) == Elems(l) + [e]
  {
    var n := |l.cells|;
    var c := l.cells + [DCell(l.last, e, NULL)];
    Append(l.cells, l.spine, e);
    if l.last == NULL then
      List(c, n, n, l.size + 1, l.spine + [n])
    else
      List(SetNext(c, l.last, n), l.first, n, l.size + 1, l.spine + [n])
  }

  /** `indexCheck`: valid indices are `[0, size)`. */
  function IndexCheck<T>(l: List<T>, index: int): (r: Result<()>)
    ensures r.Ok? <==> 0 <= index < l.size
    ensures r.Fail? ==> r.error == IllegalArgument
  {
    if index < 0 || index >= l.size then Fail(IllegalArgument) else Ok(())
  }

  /** The forward loop of `getNode`: from the node at position `i`, follow `next` links up
      to position `index`. */
  function Forward<T>(l: List<T>, current: int, i: nat, index: nat): (r: int)
    requires Valid(l) && i <= index < l.size && current == l.spine[i]
    ensures r == l.spine[index]
    decreases index - i
  {
    if i == index then current
    else
      assert LinkedAt(l.cells, l.spine, i);
      Forward(l, l.cells[current].next, i + 1, index)
  }

  /** The backward loop of `getNode`: from the node at position `i`, follow `previous`
      links down to position `index`. */
  function Backward<T>(l: List<T>, current: int, i: nat, index: nat): (r: int)
    requires Valid(l) && index <= i < l.size && current == l.spine[i]
    ensures r == l.spine[index]
    decreases i - index
  {
    if i == index then current
    else
      assert LinkedAt(l.cells, l.spine, i);
      Backward(l, l.cells[current].previous, i - 1, index)
  }

  /** `getNode(index)`: bounds check, then walk from `first` when `index` is in the first
      half (`index <= (size - 1) / 2`) and from `last` otherwise. */
  function GetNode<T>(l: List<T>, index: int): (r: Result<int>)
    requires Valid(l)
    ensures r.Ok? <==> 0 <= index < l.size
    ensures r.Fail? ==> r.error == IllegalArgument
    ensures r.Ok? ==> r.value == l.spine[index]
  {
    var _ :- IndexCheck(l, index);
    if index <= (l.size - 1) / 2 then Ok(Forward(l, l.first, 0, index))
    else Ok(Backward(l, l.last, l.size - 1, index))
  }

  /** `add(index, e)`: an index outside `0..size` is rejected; index `size` is `add(e)`;
      otherwise a fresh node goes between `getNode(index)` and its `previous`, and becomes
      `first` when that is null. */
  function AddAt<T>(l: List<T>, index: int, e: T): (r: Result<List<T>>)
    requires Valid(l)
    ensures r.Fail? <==> index < 0 || index > l.size
    ensures r.Fail? ==> r.error == IllegalArgument
    ensures r.Ok? ==> Valid(r.value) && Elems(r.value) == Inserted(Elems(l), index, e)
  {
    if index < 0 || index > l.size then Fail(IllegalArgument)
    else if index == l.size then
      assert Inserted(Elems(l), index, e) == Elems(l) + [e];
      Ok(Add(l, e))
    else Ok(LinkBefore(l, GetNode(l, index).value, index, e))
  }

  /** The linking of `add(index, e)` before `next`, the node at position `k`. */
  function LinkBefore<T>(l: List<T>, next: int, k: nat, e: T): (r: List<T>)
    requires Valid(l) && k < l.size && next == l.spine[k]
    ensures Valid(r) && Elems(r) == Inserted(Elems(l), k, e)
  {
    assert LinkedAt(l.cells, l.spine, k);
    var previous := l.cells[next].previous;
    var n := |l.cells|;
    var c := SetPrevious(l.cells + [DCell(previous, e, next)], next, n);
    InsertBefore(l.cells, l.spine, k, e);
    InsertedEnds(l.cells, l.spine, k, n);
    assert InsertedBefore(l.cells, l.spine, k, e) == if previous == NULL then c else SetNext(c, previous, n);
    if previous == NULL then
      List(c, n, l.last, l.size + 1, Inserted(l.spine, k, n))
    else
      List(SetNext(c, previous, n), l.first, l.last, l.size + 1, Inserted(l.spine, k, n))
  }

  /** `unlink(node)` for the node at position `k`: its `previous` (or `first`) is linked to
      its `next`, and its `next` (or `last`) back to its `previous`. The element is
      returned. Only the spine uses `k`. */
  function Unlink<T>(l: List<T>, node: int, k: nat): (r: (List<T>, T))
    requires Valid(l) && k < l.size && node == l.spine[k]
    ensures Valid(r.0) && r.1 == Elems(l)[k]
    ensures Elems(r.0) == Removed(Elems(l), k)
  {
    assert LinkedAt(l.cells, l.spine, k);
    var previous := l.cells[node].previous;
    var next := l.cells[node].next;
    DoubleLinks.Unlink(l.cells, l.spine, k);
    RemovedEnds(l.cells, l.spine, k);
    var c := if previous == NULL then l.cells else SetNext(l.cells, previous, next);
    var cells := if next == NULL then c else SetPrevious(c, next, previous);
    assert cells == Unlinked(l.cells, l.spine, k);
    (List(cells, if previous == NULL then next else l.first, if next == NULL then previous else l.last,
          l.size - 1, Removed(l.spine, k)),
     l.cells[node].element)
  }

  /** `remove(index)`: bounds check, then `unlink(getNode(index))`. */
  function RemoveAt<T>(l: List<T>, index: int): (r: Result<(List<T>, T)>)
    requires Valid(l)
    ensures r.Ok? <==> 0 <= index < l.size
    ensures r.Fail? ==> r.error == IllegalArgument
    ensures r.Ok? ==> Valid(r.value.0) && r.value.1 == Elems(l)[index]
                      && Elems(r.value.0) == Removed(Elems(l), index)
  {
    var _ :- IndexCheck(l, index);
    var node := GetNode(l, index).value;
    Ok(Unlink(l, node, index))
  }

  /** `get(index)`: the element of `getNode(index)`. */
  function Get<T>(l: List<T>, index: int): (r: Result<T>)
    requires Valid(l)
    ensures r.Ok? <==> 0 <= index < l.size
    ensures r.Fail? ==> r.error == IllegalArgument
    ensures r.Ok? ==> r.value == Elems(l)[index]
  {
    var node :- GetNode(l, index);
    Ok(l.cells[node].element)
  }

  /** `set(index, e)`: overwrites the element of `getNode(index)` and returns the old one. */
  function Set<T>(l: List<T>, index: int, e: T): (r: Result<(List<T>, T)>)
    requires Valid(l)
    ensures r.Ok? <==> 0 <= index < l.size
    ensures r.Fail? ==> r.error == IllegalArgument
    ensures r.Ok? ==> Valid(r.value.0) && r.value.1 == Elems(l)[index]
                      && Elems(r.value.0) == Elems(l)[index := e]
  {
    var node :- GetNode(l, index);
    Overwrite(l.cells, l.spine, index, e);
    Ok((List(SetElement(l.cells, node, e), l.first, l.last, l.size, l.spine), l.cells[node].element))
  }

  /** The loop of `remove(e)`: from the node at position `i` (null past the end), follow
      `next` links to the first node holding `e` and answer its position, or -1. */
  function ScanForward<T(==)>(l: List<T>, current: int, i: nat, e: T): (r: int)
    requires Valid(l) && i <= l.size && current == (if i < l.size then l.spine[i] else NULL)
    ensures -1 <= r < l.size
    ensures r == -1 <==> e !in Elems(l)[i..]
    ensures r >= 0 ==> i <= r && Elems(l)[r] == e && e !in Elems(l)[i .. r]
    decreases l.size - i
  {
    if i == l.size then
      assert Elems(l)[i..] == [];
      -1
    else
      assert current != NULL && Elems(l)[i] == l.cells[current].element;
      assert Elems(l)[i..] == [Elems(l)[i]] + Elems(l)[i + 1..];
      if l.cells[current].element == e then i
      else
        assert LinkedAt(l.cells, l.spine, i);
        ScanForward(l, l.cells[current].next, i + 1, e)
  }

  /** `remove(e)`: unlinks the first node holding `e` and answers whether there was one. */
  function RemoveElement<T(==)>(l: List<T>, e: T): (r: (List<T>, bool))
    requires Valid(l)
    ensures Valid(r.0)
    ensures r.1 <==> e in Elems(l)
    ensures !r.1 ==> r.0 == l
    ensures r.1 ==> Elems(r.0) == Removed(Elems(l), FirstIndex(Elems(l), e))
  {
    var k := ScanForward(l, l.first, 0, e);
    assert Elems(l)[0..] == Elems(l);
    if k < 0 then (l, false)
    else
      assert Elems(l)[0..k] == Elems(l)[..k];
      FirstIndexUnique(Elems(l), e, k);
      (Unlink(l, l.spine[k], k).0, true)
  }

  /** `indexOf(e)`: `size` steps from `first`, stopping at the first node holding `e`. */
  method IndexOf<T(==)>(l: List<T>, e: T) returns (r: int)
    requires Valid(l)
    ensures r == FirstIndex(Elems(l), e)
  {
    var s := Elems(l);
    var current := l.first;
    var i := 0;
    while i < l.size
      invariant 0 <= i <= l.size
      invariant i < l.size ==> current == l.spine[i]
      invariant e !in s[..i]
    {
      if l.cells[current].element == e {
        FirstIndexUnique(s, e, i);
        return i;
      }
      assert LinkedAt(l.cells, l.spine, i);
      assert s[..i + 1] == s[..i] + [s[i]];
      current := l.cells[current].next;
      i := i + 1;
    }
    assert s[..i] == s;
    return -1;
  }

  /** `contains(e)`: `indexOf(e) >= 0`. */
  method Contains<T(==)>(l: List<T>, e: T) returns (r: bool)
    requires Valid(l)
    ensures r <==> e in Elems(l)
  {
    var i := IndexOf(l, e);
    r := i >= 0;
  }

  /** The loop of `lastIndexOf`: from the node at position `i`, follow `previous` links
      down while `i >= low`, stopping at a node holding `e`. */
  function ScanBack<T(==)>(l: List<T>, current: int, i: int, e: T, low: nat): (r: int)
    requires Valid(l) && -1 <= i < l.size && (low <= i ==> current == l.spine[i])
    ensures -1 <= r <= i
    ensures r == -1 <==> forall j :: low <= j <= i ==> Elems(l)[j] != e
    ensures r >= 0 ==> low <= r && Elems(l)[r] == e
    ensures r >= 0 ==> forall j :: r < j <= i ==> Elems(l)[j] != e
    decreases i + 1 - low
  {
    if i < low then -1
    else
      assert Elems(l)[i] == l.cells[current].element;
      if l.cells[current].element == e then i
      else
        assert LinkedAt(l.cells, l.spine, i);
        ScanBack(l, l.cells[current].previous, i - 1, e, low)
  }

  /** `lastIndexOf(e)` as written: the loop runs while `i > 0` (lines 151 and 159), so the
      node at index 0 is never looked at. */
  function LastIndexOfAsWritten<T(==)>(l: List<T>, e: T): (r: int)
    requires Valid(l)
    ensures r == (if LastIndex(Elems(l), e) >= 1 then LastIndex(Elems(l), e) else -1)
  {
    var r := ScanBack(l, l.last, l.size - 1, e, 1);
    ScanBackIsLast(Elems(l), e, r, 1);
    r
  }

  /** `lastIndexOf(e)` with the loop running while `i >= 0`: the last index holding `e`. */
  function LastIndexOf<T(==)>(l: List<T>, e: T): (r: int)
    requires Valid(l)
    ensures r == LastIndex(Elems(l), e)
  {
    var r := ScanBack(l, l.last, l.size - 1, e, 0);
    ScanBackIsLast(Elems(l), e, r, 0);
    r
  }

  /** What a backward scan down to index `low` finds is the last index, when that is at
      least `low`. */
  lemma ScanBackIsLast<T>(s: seq<T>, e: T, r: int, low: nat)
    requires -1 <= r < |s|
    requires r == -1 <==> forall j :: low <= j <= |s| - 1 ==> s[j] != e
    requires r >= 0 ==> low <= r && s[r] == e
    requires r >= 0 ==> forall j :: r < j <= |s| - 1 ==> s[j] != e
    ensures r == (if LastIndex(s, e) >= low then LastIndex(s, e) else -1)
  {
    if r >= 0 {
      LastIndexUnique(s, e, r);
    } else {
      assert LastIndex(s, e) >= 0 ==> s[LastIndex(s, e)] == e;
    }
  }

  /** The source's `lastIndexOf` differs from the last index exactly when the last
      occurrence is at index 0. */
  lemma LastIndexOfMissesOnlyFront<T>(l: List<T>, e: T)
    requires Valid(l)
    ensures LastIndexOfAsWritten(l, e) != LastIndexOf(l, e) <==> LastIndex(Elems(l), e) == 0
  {
  }

  /** On the one-element list `[7]`, the source's `lastIndexOf(7)` answers -1 although
      `indexOf(7)` is 0. */
  lemma LastIndexOfMissesSingleton()
    ensures Elems(Add(New<int>(), 7)) == [7]
    ensures LastIndexOfAsWritten(Add(New<int>(), 7), 7) == -1
    ensures LastIndexOf(Add(New<int>(), 7), 7) == 0
    ensures FirstIndex(Elems(Add(New<int>(), 7)), 7) == 0
  {
    assert LastIndex([7], 7) == 0;
  }

  /** `clear`: no nodes and size 0. */
  function Clear<T>(l: List<T>): (r: List<T>)
    ensures Valid(r) && Elems(r) == []
  {
    List(l.cells, NULL, NULL, 0, [])
  }

  /** `toArray`: `size` steps from `first`, first to last. */
  method ToArray<T>(l: List<T>) returns (a: seq<T>)
    requires Valid(l)
    ensures a == Elems(l)
  {
    a := [];
    var current := l.first;
    var i := 0;
    while i < l.size
      invariant 0 <= i <= l.size
      invariant i < l.size ==> current == l.spine[i]
      invariant a == Elems(l)[..i]
    {
      assert LinkedAt(l.cells, l.spine, i);
      assert Elems(l)[..i + 1] == Elems(l)[..i] + [Elems(l)[i]];
      a := a + [l.cells[current].element];
      current := l.cells[current].next;
      i := i + 1;
    }
    assert Elems(l)[..i] == Elems(l);
  }

  /** `_Node.toString` on the node at position `k`: its element, then ", " and the rest of
      the chain when its `next` is not null. */
  function ListTextFrom<T>(l: List<T>, k: nat, show: T -> string): (str: string)
    requires Valid(l) && k < l.size
    ensures str == Text.Join(Text.Shown(Elems(l)[k..], show))
    decreases l.size - k
  {
    assert LinkedAt(l.cells, l.spine, k);
    var next := l.cells[l.spine[k]].next;
    assert Text.Shown(Elems(l)[k..], show)[1..] == Text.Shown(Elems(l)[k + 1..], show);
    if next == NULL then show(l.cells[l.spine[k]].element)
    else show(l.cells[l.spine[k]].element) + ", " + ListTextFrom(l, k + 1, show)
  }

  /** `toString`: `[` + the rendering of `first`'s node chain + `]`. */
  function ToString<T>(l: List<T>, show: T -> string): (str: string)
    requires Valid(l)
    ensures str == Text.Render(Elems(l), show)
  {
    assert Elems(l)[0..] == Elems(l);
    "[" + (if l.size == 0 then "" else ListTextFrom(l, 0, show)) + "]"
  }

  /** `remove(index)` undoes `add(index, e)`. */
  lemma RemoveAtUndoesAddAt<T>(l: List<T>, index: int, e: T)
    requires Valid(l) && 0 <= index <= l.size
    ensures AddAt(l, index, e).Ok?
    ensures RemoveAt(AddAt(l, index, e).value, index).Ok?
    ensures RemoveAt(AddAt(l, index, e).value, index).value.1 == e
    ensures Elems(RemoveAt(AddAt(l, index, e).value, index).value.0) == Elems(l)
  {
    RemovedInserted(Elems(l), index, e);
  }

  /** `get` after `set` at the same index yields the value written; other indices keep
      theirs. */
  lemma GetAfterSet<T>(l: List<T>, i: int, j: int, e: T)
    requires Valid(l) && 0 <= i < l.size && 0 <= j < l.size
    ensures Get(Set(l, i, e).value.0, j) == Ok(if i == j then e else Get(l, j).value)
  {
  }

  /** `getNode` reaches the same node from either end. */
  lemma WalksAgree<T>(l: List<T>, index: nat)
    requires Valid(l) && index < l.size
    ensures Forward(l, l.first, 0, index) == Backward(l, l.last, l.size - 1, index)
  {
  }
}

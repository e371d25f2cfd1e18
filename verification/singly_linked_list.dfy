/** `_SinglyLinkedList`: a chain of nodes from `first` plus a `size` counter. Every index
    operation walks the chain from `first` with `getNode`. */
module SinglyLinkedList {
  import opened Wrappers
  import opened Positions
  import opened Chains
  import Text

  datatype List<T> = List(first: Chain<T>, size: nat)

  /** The elements, first to last. */
  function Contents<T>(l: List<T>): seq<T> {
    Elems(l.first)
  }

  /** `size` counts the nodes reachable from `first`. */
  predicate Valid<T>(l: List<T>) {
    l.size == |Contents(l)|
  }

  /** `new _SinglyLinkedList()`. */
  function New<T>(): List<T>
  {
    List(Nil, 0)
  }

  /** What `New` returns. */
  lemma NewIsEmpty<T>()
    ensures var l := New<T>(); Valid(l) && Contents(l) == []
  {
  }

  /** `add(e)`: a new node after the last one (`getNode(size - 1)`), or as `first` when the
      list is empty. */
  function Add<T>(l: List<T>, e: T): (r: List<T>)
    requires Valid(l)
    ensures Valid(r) && Contents(r) == Contents(l) + [e]
  {
    if l.size == 0 then List(Node(e, Nil), 1)
    else
      assert Inserted(Contents(l), l.size, e) == Contents(l) + [e];
      List(LinkAfter(l.first, l.size - 1, e), l.size + 1)
  }

  /** `add(index, e)`: an index outside `0..size` is rejected; index 0 makes a new `first`,
      any other index links the new node after `getNode(index - 1)`. */
  function AddAt<T>(l: List<T>, index: int, e: T): (r: Result<List<T>>)
    requires Valid(l)
    ensures r.Fail? <==> index < 0 || index > l.size
    ensures r.Fail? ==> r.error == IllegalArgument
    ensures r.Ok? ==> Valid(r.value) && Contents(r.value) == Inserted(Contents(l), index, e)
  {
    if index < 0 || index > l.size then Fail(IllegalArgument)
    else if index == 0 then Ok(List(Node(e, l.first), l.size + 1))
    else Ok(List(LinkAfter(l.first, index - 1, e), l.size + 1))
  }

  /** `indexCheck`: valid indices are `[0, size)`. */
  function IndexCheck<T>(l: List<T>, index: int): (r: Result<()>)
    ensures r.Ok? <==> 0 <= index < l.size
    ensures r.Fail? ==> r.error == IllegalArgument
  {
    if index < 0 || index >= l.size then Fail(IllegalArgument) else Ok(())
  }

  /** `getNode(index)`: bounds check, then `index` steps from `first`. */
  function GetNode<T>(l: List<T>, index: int): (r: Result<Chain<T>>)
    requires Valid(l)
    ensures r.Ok? <==> 0 <= index < l.size
    ensures r.Fail? ==> r.error == IllegalArgument
    ensures r.Ok? ==> r.value.Node? && Elems(r.value) == Contents(l)[index..]
  {
    var _ :- IndexCheck(l, index);
    Ok(Walk(l.first, index))
  }

  /** `get(index)`: the element `index` steps from `first`. */
  function Get<T>(l: List<T>, index: int): (r: Result<T>)
    requires Valid(l)
    ensures r.Ok? <==> 0 <= index < l.size
    ensures r.Fail? ==> r.error == IllegalArgument
    ensures r.Ok? ==> r.value == Contents(l)[index]
  {
    var node :- GetNode(l, index);
    Ok(node.element)
  }

  /** `set(index, e)`: overwrites the element at `index` and returns the old one. */
  function Set<T>(l: List<T>, index: int, e: T): (r: Result<(List<T>, T)>)
    requires Valid(l)
    ensures r.Ok? <==> 0 <= index < l.size
    ensures r.Fail? ==> r.error == IllegalArgument
    ensures r.Ok? ==> Valid(r.value.0) && r.value.1 == Contents(l)[index]
                      && Contents(r.value.0) == Contents(l)[index := e]
  {
    var previous :- Get(l, index);
    Ok((List(SetAt(l.first, index, e), l.size), previous))
  }

  /** `remove(index)`: bounds check; index 0 moves `first` on, any other index unlinks the
      successor of `getNode(index - 1)`. The removed element is returned. */
  function RemoveAt<T>(l: List<T>, index: int): (r: Result<(List<T>, T)>)
    requires Valid(l)
    ensures r.Ok? <==> 0 <= index < l.size
    ensures r.Fail? ==> r.error == IllegalArgument
    ensures r.Ok? ==> Valid(r.value.0) && r.value.1 == Contents(l)[index]
                      && Contents(r.value.0) == Removed(Contents(l), index)
  {
    var _ :- IndexCheck(l, index);
    if index == 0 then Ok((List(l.first.next, l.size - 1), l.first.element))
    else
      var e := Walk(l.first, index).element;
      Ok((List(UnlinkAfter(l.first, index - 1), l.size - 1), e))
  }

  /** `remove(e)`: unlinks the first node holding `e` and answers whether there was one. */
  function RemoveElement<T(==)>(l: List<T>, e: T): (r: (List<T>, bool))
    requires Valid(l)
    ensures Valid(r.0)
    ensures r.1 <==> e in Contents(l)
    ensures !r.1 ==> r.0 == l
    ensures r.1 ==> Contents(r.0) == Removed(Contents(l), FirstIndex(Contents(l), e))
  {
    if l.size == 0 then (l, false)
    else
      var (c, found) := UnlinkFirstMatch(l.first, e);
      if found then (List(c, l.size - 1), true) else (l, false)
  }

  /** `indexOf(e)`: the position of the first node holding `e`, or -1. */
  method IndexOf<T(==)>(l: List<T>, e: T) returns (r: int)
    requires Valid(l)
    ensures r == FirstIndex(Contents(l), e)
  {
    r := FirstPosition(l.first, e);
  }

  /** `lastIndexOf(e)`: a forward walk that remembers the latest match. */
  method LastIndexOf<T(==)>(l: List<T>, e: T) returns (r: int)
    requires Valid(l)
    ensures r == LastIndex(Contents(l), e)
  {
    r := LastPosition(l.first, e);
  }

  /** `contains(e)`: `indexOf(e) >= 0`. */
  method Contains<T(==)>(l: List<T>, e: T) returns (r: bool)
    requires Valid(l)
    ensures r <==> e in Contents(l)
  {
    var i := IndexOf(l, e);
    r := i >= 0;
  }

  /** `clear`: no nodes and size 0. */
  function Clear<T>(l: List<T>): (r: List<T>)
    ensures Valid(r) && Contents(r) == []
  {
    List(Nil, 0)
  }

  /** `toArray`: the elements in chain order. */
  method ToArray<T>(l: List<T>) returns (a: seq<T>)
    requires Valid(l)
    ensures a == Contents(l)
  {
    a := ToSeq(l.first);
  }

  /** `toString`: `[` + the rendering of `first`'s node chain + `]`. */
  function ToString<T>(l: List<T>, show: T -> string): (str: string)
    requires Valid(l)
    ensures str == Text.Render(Contents(l), show)
  {
    "[" + (if l.size == 0 then "" else NodeText(l.first, show)) + "]"
  }

  /** `remove(index)` undoes `add(index, e)`. */
  lemma RemoveAtUndoesAddAt<T>(l: List<T>, index: int, e: T)
    requires Valid(l) && 0 <= index <= l.size
    ensures AddAt(l, index, e).Ok?
    ensures RemoveAt(AddAt(l, index, e).value, index)
         == Ok((RemoveAt(AddAt(l, index, e).value, index).value.0, e))
    ensures Contents(RemoveAt(AddAt(l, index, e).value, index).value.0) == Contents(l)
  {
    RemovedInserted(Contents(l), index, e);
  }

  /** `get` after `set` at the same index yields the value written; other indices keep
      theirs. */
  lemma GetAfterSet<T>(l: List<T>, i: int, j: int, e: T)
    requires Valid(l) && 0 <= i < l.size && 0 <= j < l.size
    ensures Get(Set(l, i, e).value.0, j) == Ok(if i == j then e else Get(l, j).value)
  {
  }

  /** Adding at index `size` is appending. */
  lemma AddAtEndIsAdd<T>(l: List<T>, e: T)
    requires Valid(l)
    ensures Contents(AddAt(l, l.size, e).value) == Contents(Add(l, e))
  {
    assert Inserted(Contents(l), l.size, e) == Contents(l) + [e];
  }
}

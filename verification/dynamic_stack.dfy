/** `_DynamicStack`: a chain of nodes linked downward from `top`, plus a `size` counter.
    Index 0 is the bottom and `size - 1` the top, so stack index `i` is the node
    `size - 1 - i` links below `top`, and the chain holds the stack's contents reversed. */
module DynamicStack {
  import opened Wrappers
  import opened Positions
  import opened Chains
  import Text

  datatype Stack<T> = Stack(top: Chain<T>, size: nat)

  /** The elements, bottom to top. */
  function Contents<T>(s: Stack<T>): seq<T> {
    Reversed(Elems(s.top))
  }

  /** `size` counts the nodes reachable from `top`. */
  predicate Valid<T>(s: Stack<T>) {
    s.size == |Elems(s.top)|
  }

  /** `new _DynamicStack()`. */
  function New<T>(): Stack<T>
  {
    Stack(Nil, 0)
  }

  /** What `New` returns. */
  lemma NewIsEmpty<T>()
    ensures var s := New<T>(); Valid(s) && Contents(s) == []
  {
  }

  /** `add(e)`: a new `top` linked to the old one. */
  function Add<T>(s: Stack<T>, e: T): (r: Stack<T>)
    requires Valid(s)
    ensures Valid(r) && Contents(r) == Contents(s) + [e]
  {
    ReversedCons(e, Elems(s.top));
    Stack(Node(e, s.top), s.size + 1)
  }

  /** `push(e)`: `add(e)`, returning `e`. */
  function Push<T>(s: Stack<T>, e: T): (r: (Stack<T>, T))
    requires Valid(s)
    ensures r.1 == e && Valid(r.0) && Contents(r.0) == Contents(s) + [e]
  {
    (Add(s, e), e)
  }

  /** `add(index, e)`: an index outside `0..size` is rejected; index `size` pushes; any
      other index links the new node just below `getNode(index)`, so `e` takes stack index
      `index` and everything from there up moves up by one. */
  function AddAt<T>(s: Stack<T>, index: int, e: T): (r: Result<Stack<T>>)
    requires Valid(s)
    ensures r.Fail? <==> index < 0 || index > s.size
    ensures r.Fail? ==> r.error == IllegalArgument
    ensures r.Ok? ==> Valid(r.value) && Contents(r.value) == Inserted(Contents(s), index, e)
  {
    if index < 0 || index > s.size then Fail(IllegalArgument)
    else if index == s.size then
      assert Inserted(Contents(s), index, e) == Contents(s) + [e];
      Ok(Add(s, e))
    else
      LinkBelow(s, index, e);
      Ok(Stack(LinkAfter(s.top, s.size - index - 1, e), s.size + 1))
  }

  /** Linking a node below stack index `index` inserts at `index`. */
  lemma LinkBelow<T>(s: Stack<T>, index: int, e: T)
    requires Valid(s) && 0 <= index < s.size
    ensures Reversed(Elems(LinkAfter(s.top, s.size - index - 1, e)))
         == Inserted(Contents(s), index, e)
  {
    ReversedInserted(Elems(s.top), s.size - index, e);
  }

  /** `indexCheck`: valid indices are `[0, size)`. */
  function IndexCheck<T>(s: Stack<T>, index: int): (r: Result<()>)
    ensures r.Ok? <==> 0 <= index < s.size
    ensures r.Fail? ==> r.error == IllegalArgument
  {
    if index < 0 || index >= s.size then Fail(IllegalArgument) else Ok(())
  }

  /** `getNode(index)`: bounds check, then `size - index - 1` steps down from `top`. */
  function GetNode<T>(s: Stack<T>, index: int): (r: Result<Chain<T>>)
    requires Valid(s)
    ensures r.Ok? <==> 0 <= index < s.size
    ensures r.Fail? ==> r.error == IllegalArgument
    ensures r.Ok? ==> r.value.Node? && r.value.element == Contents(s)[index]
                      && Reversed(Elems(r.value)) == Contents(s)[..index + 1]
  {
    var _ :- IndexCheck(s, index);
    var node := Walk(s.top, s.size - index - 1);
    ReversedSuffix(Elems(s.top), s.size - index - 1);
    Ok(node)
  }

  /** `get(index)`. */
  function Get<T>(s: Stack<T>, index: int): (r: Result<T>)
    requires Valid(s)
    ensures r.Ok? <==> 0 <= index < s.size
    ensures r.Fail? ==> r.error == IllegalArgument
    ensures r.Ok? ==> r.value == Contents(s)[index]
  {
    var node :- GetNode(s, index);
    Ok(node.element)
  }

  /** `set(index, e)`: overwrites stack index `index`, returning the old element. */
  function Set<T>(s: Stack<T>, index: int, e: T): (r: Result<(Stack<T>, T)>)
    requires Valid(s)
    ensures r.Ok? <==> 0 <= index < s.size
    ensures r.Fail? ==> r.error == IllegalArgument
    ensures r.Ok? ==> Valid(r.value.0) && r.value.1 == Contents(s)[index]
                      && Contents(r.value.0) == Contents(s)[index := e]
  {
    var previous :- Get(s, index);
    ReversedUpdate(Elems(s.top), s.size - index - 1, e);
    Ok((Stack(SetAt(s.top, s.size - index - 1, e), s.size), previous))
  }

  /** `remove(index)`: bounds check; the top index moves `top` down, any other index
      unlinks the node below `getNode(index + 1)`. The removed element is returned. */
  function RemoveAt<T>(s: Stack<T>, index: int): (r: Result<(Stack<T>, T)>)
    requires Valid(s)
    ensures r.Ok? <==> 0 <= index < s.size
    ensures r.Fail? ==> r.error == IllegalArgument
    ensures r.Ok? ==> Valid(r.value.0) && r.value.1 == Contents(s)[index]
                      && Contents(r.value.0) == Removed(Contents(s), index)
  {
    var removed :- Get(s, index);
    if index == s.size - 1 then
      DropTop(s);
      Ok((Stack(s.top.next, s.size - 1), removed))
    else
      UnlinkBelow(s, index);
      Ok((Stack(UnlinkAfter(s.top, s.size - index - 2), s.size - 1), removed))
  }

  /** Moving `top` down removes the top index. */
  lemma DropTop<T>(s: Stack<T>)
    requires Valid(s) && s.size > 0
    ensures s.top.Node?
    ensures var t := Stack(s.top.next, s.size - 1);
            Valid(t) && Contents(t) == Removed(Contents(s), s.size - 1)
  {
    ReversedCons(s.top.element, Elems(s.top.next));
  }

  /** Unlinking the node below stack index `index + 1` removes stack index `index`. */
  lemma UnlinkBelow<T>(s: Stack<T>, index: int)
    requires Valid(s) && 0 <= index < s.size - 1
    ensures var t := Stack(UnlinkAfter(s.top, s.size - index - 2), s.size - 1);
            Valid(t) && Contents(t) == Removed(Contents(s), index)
  {
    ReversedRemoved(Elems(s.top), s.size - index - 1);
  }

  /** `pop()`: an empty stack throws `EmptyStackException`; otherwise `remove(size - 1)`. */
  function Pop<T>(s: Stack<T>): (r: Result<(Stack<T>, T)>)
    requires Valid(s)
    ensures r.Fail? <==> Contents(s) == []
    ensures r.Fail? ==> r.error == EmptyStack
    ensures r.Ok? ==> Valid(r.value.0) && r.value.1 == Contents(s)[s.size - 1]
                      && Contents(r.value.0) == Contents(s)[..s.size - 1]
  {
    if s.size == 0 then Fail(EmptyStack)
    else RemoveAt(s, s.size - 1)
  }

  /** `peek()`: an empty stack throws `EmptyStackException`; otherwise `top`'s element. */
  function Peek<T>(s: Stack<T>): (r: Result<T>)
    requires Valid(s)
    ensures r.Fail? <==> Contents(s) == []
    ensures r.Fail? ==> r.error == EmptyStack
    ensures r.Ok? ==> r.value == Contents(s)[s.size - 1]
  {
    if s.size == 0 then Fail(EmptyStack) else Ok(s.top.element)
  }

  /** `remove(e)`: unlinks the first node from `top` holding `e`, which is the topmost
      occurrence, and answers whether there was one. */
  function RemoveElement<T(==)>(s: Stack<T>, e: T): (r: (Stack<T>, bool))
    requires Valid(s)
    ensures Valid(r.0)
    ensures r.1 <==> e in Contents(s)
    ensures !r.1 ==> r.0 == s
    ensures r.1 ==> Contents(r.0) == Removed(Contents(s), LastIndex(Contents(s), e))
  {
    var (c, found) := UnlinkFirstMatch(s.top, e);
    if found then
      var chainIndex := FirstIndex(Elems(s.top), e);
      LastIndexReversed(Elems(s.top), e);
      ReversedRemoved(Elems(s.top), chainIndex);
      assert Elems(c) == Removed(Elems(s.top), chainIndex);
      (Stack(c, s.size - 1), true)
    else (s, false)
  }

  /** `indexOf(e)`: a walk down from `top` that keeps the stack index `size - i - 1` of
      the latest match, which is the lowest one. */
  method IndexOf<T(==)>(s: Stack<T>, e: T) returns (r: int)
    requires Valid(s)
    ensures r == FirstIndex(Contents(s), e)
  {
    var p := LastPosition(s.top, e);
    FirstIndexReversed(Elems(s.top), e);
    r := if p >= 0 then s.size - p - 1 else -1;
  }

  /** `lastIndexOf(e)`: a walk down from `top` that returns at the first match. */
  method LastIndexOf<T(==)>(s: Stack<T>, e: T) returns (r: int)
    requires Valid(s)
    ensures r == LastIndex(Contents(s), e)
  {
    var p := FirstPosition(s.top, e);
    LastIndexReversed(Elems(s.top), e);
    r := if p >= 0 then s.size - p - 1 else -1;
  }

  /** `contains(e)`: `indexOf(e) >= 0`. */
  method Contains<T(==)>(s: Stack<T>, e: T) returns (r: bool)
    requires Valid(s)
    ensures r <==> e in Contents(s)
  {
    var i := IndexOf(s, e);
    r := i >= 0;
  }

  /** `search(e)`: `size - lastIndexOf(e)`, the 1-based distance of the topmost occurrence
      from the top, or -1. */
  method Search<T(==)>(s: Stack<T>, e: T) returns (r: int)
    requires Valid(s)
    ensures r == -1 <==> e !in Contents(s)
    ensures r != -1 ==> 1 <= r <= s.size && Contents(s)[s.size - r] == e
                        && e !in Contents(s)[s.size - r + 1..]
  {
    var index := LastIndexOf(s, e);
    r := if index >= 0 then s.size - index else -1;
  }

  /** `clear`: no nodes and size 0. */
  function Clear<T>(s: Stack<T>): (r: Stack<T>)
    ensures Valid(r) && Contents(r) == []
  {
    Stack(Nil, 0)
  }

  /** `copyToArray(array, index, current)`: fill the slots below `index` from the nodes
      below `current` first, then write `current`'s element at `index`. The nodes from
      `current` down land, bottom first, in the slots ending at `index`; the other slots
      are untouched. */
  function CopyToArray<T>(a: seq<Option<T>>, index: int, c: Chain<T>): (r: seq<Option<T>>)
    requires |Elems(c)| <= index + 1 <= |a|
    ensures |r| == |a|
    ensures forall k :: 0 <= k < |Elems(c)| ==>
              r[index + 1 - |Elems(c)| + k] == Some(Reversed(Elems(c))[k])
    ensures forall k :: 0 <= k < |a| && !(index + 1 - |Elems(c)| <= k <= index) ==>
              r[k] == a[k]
    decreases c
  {
    if c.Nil? then a
    else
      ReversedCons(c.element, Elems(c.next));
      CopyToArray(a, index - 1, c.next)[index := Some(c.element)]
  }

  /** `toArray`: a fresh array of `size` empty slots filled by `copyToArray` from the
      top down; it lists the stack bottom to top. */
  function ToArray<T>(s: Stack<T>): (a: seq<Option<T>>)
    requires Valid(s)
    ensures |a| == s.size
    ensures forall k :: 0 <= k < s.size ==> a[k] == Some(Contents(s)[k])
  {
    CopyToArray(seq(s.size, _ => None), s.size - 1, s.top)
  }

  /** `stringBuilderAppend` on a node below `top`: the nodes below it first, then its
      element and a separator. */
  function BelowText<T>(c: Chain<T>, show: T -> string): (str: string)
    ensures str == Text.Terminated(Text.Shown(Reversed(Elems(c)), show))
  {
    if c.Nil? then ""
    else
      ReversedCons(c.element, Elems(c.next));
      Text.ShownAppend(Reversed(Elems(c.next)), [c.element], show);
      assert Text.Shown([c.element], show) == [show(c.element)];
      Text.TerminatedSnoc(Text.Shown(Reversed(Elems(c.next)), show), show(c.element));
      BelowText(c.next, show) + show(c.element) + ", "
  }

  /** `toString`: `[`, then `stringBuilderAppend` from `top` (which omits the separator
      after the top element), then `]`: the contents bottom to top. */
  function ToString<T>(s: Stack<T>, show: T -> string): (str: string)
    requires Valid(s)
    ensures str == Text.Render(Contents(s), show)
  {
    if s.size == 0 then "[]"
    else
      ReversedCons(s.top.element, Elems(s.top.next));
      Text.ShownAppend(Reversed(Elems(s.top.next)), [s.top.element], show);
      assert Text.Shown([s.top.element], show) == [show(s.top.element)];
      Text.TerminatedThenLast(Text.Shown(Reversed(Elems(s.top.next)), show), show(s.top.element));
      "[" + BelowText(s.top.next, show) + show(s.top.element) + "]"
  }

  /** `pop` undoes `push`: LIFO order. */
  lemma PopUndoesPush<T>(s: Stack<T>, e: T)
    requires Valid(s)
    ensures Pop(Push(s, e).0).Ok?
    ensures Pop(Push(s, e).0).value.1 == e
    ensures Contents(Pop(Push(s, e).0).value.0) == Contents(s)
  {
    assert (Contents(s) + [e])[..s.size] == Contents(s);
  }

  /** `remove(index)` undoes `add(index, e)`. */
  lemma RemoveAtUndoesAddAt<T>(s: Stack<T>, index: int, e: T)
    requires Valid(s) && 0 <= index <= s.size
    ensures AddAt(s, index, e).Ok?
    ensures RemoveAt(AddAt(s, index, e).value, index).Ok?
    ensures RemoveAt(AddAt(s, index, e).value, index).value.1 == e
    ensures Contents(RemoveAt(AddAt(s, index, e).value, index).value.0) == Contents(s)
  {
    RemovedInserted(Contents(s), index, e);
  }

  /** The pushed element is what `peek` then sees. */
  lemma PushedIsOnTop<T>(s: Stack<T>, e: T)
    requires Valid(s)
    ensures Peek(Push(s, e).0) == Ok(e)
  {
  }
}

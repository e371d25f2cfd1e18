/** The null-terminated chain of `_Node`s behind `_SinglyLinkedList` (linked from `first`)
    and `_DynamicStack` (linked from `top`). A chain is a value: relinking a node deep in the
    chain rebuilds the nodes in front of it, which is observationally the same as the
    in-place `setNext` of the source because no node is shared with anything else. */
module Chains {
  import opened Positions
  import Text

  datatype Chain<T> = Nil | Node(element: T, next: Chain<T>)

  /** The elements met walking the links from `c`. */
  function Elems<T>(c: Chain<T>): seq<T> {
    match c
    case Nil => []
    case Node(x, n) => [x] + Elems(n)
  }

  /** The walk of `getNode`: follow `steps` links from `c`. */
  function Walk<T>(c: Chain<T>, steps: nat): (r: Chain<T>)
    requires steps < |Elems(c)|
    ensures r.Node? && Elems(r) == Elems(c)[steps..]
    ensures r.element == Elems(c)[steps]
  {
    if steps == 0 then c
    else
      assert Elems(c)[steps..] == Elems(c.next)[steps - 1..];
      Walk(c.next, steps - 1)
  }

  /** `node.setNext(new _Node<>(e, node.getNext()))` on the node `k` links from `c`. */
  function LinkAfter<T>(c: Chain<T>, k: nat, e: T): (r: Chain<T>)
    requires k < |Elems(c)|
    ensures Elems(r) == Inserted(Elems(c), k + 1, e)
  {
    if k == 0 then Node(c.element, Node(e, c.next))
    else Node(c.element, LinkAfter(c.next, k - 1, e))
  }

  /** `node.setNext(node.getNext().getNext())` on the node `k` links from `c`: the node
      after it drops out of the chain. */
  function UnlinkAfter<T>(c: Chain<T>, k: nat): (r: Chain<T>)
    requires k + 1 < |Elems(c)|
    ensures Elems(r) == Removed(Elems(c), k + 1)
  {
    assert |Elems(c.next)| == |Elems(c)| - 1;
    if k == 0 then Node(c.element, c.next.next)
    else Node(c.element, UnlinkAfter(c.next, k - 1))
  }

  /** `node.setElement(e)` on the node `k` links from `c`. */
  function SetAt<T>(c: Chain<T>, k: nat, e: T): (r: Chain<T>)
    requires k < |Elems(c)|
    ensures Elems(r) == Elems(c)[k := e]
  {
    if k == 0 then Node(e, c.next) else Node(c.element, SetAt(c.next, k - 1, e))
  }

  /** The loop of `remove(e)` once the head has been ruled out: look at each node's
      successor and unlink the first one holding `e`. */
  function UnlinkNextMatch<T(==)>(c: Chain<T>, e: T): (r: (Chain<T>, bool))
    requires c.Node?
    ensures r.1 <==> e in Elems(c)[1..]
    ensures !r.1 ==> r.0 == c
    ensures r.1 ==> Elems(r.0) == Removed(Elems(c), FirstIndex(Elems(c)[1..], e) + 1)
  {
    assert Elems(c)[1..] == Elems(c.next);
    if c.next.Nil? then (c, false)
    else if c.next.element == e then (Node(c.element, c.next.next), true)
    else
      var (n, found) := UnlinkNextMatch(c.next, e);
      assert Elems(c.next)[0] != e;
      (Node(c.element, n), found)
  }

  /** `remove(e)` on a chain: unlink the first node holding `e`, if any. */
  function UnlinkFirstMatch<T(==)>(c: Chain<T>, e: T): (r: (Chain<T>, bool))
    ensures r.1 <==> e in Elems(c)
    ensures !r.1 ==> r.0 == c
    ensures r.1 ==> Elems(r.0) == Removed(Elems(c), FirstIndex(Elems(c), e))
  {
    if c.Nil? then (c, false)
    else if c.element == e then (c.next, true)
    else UnlinkNextMatch(c, e)
  }

  /** `_Node.toString`: the element, then ", " and the rest of the chain when there is
      one. It is the joined form of the chain's elements. */
  function NodeText<T>(c: Chain<T>, show: T -> string): (r: string)
    requires c.Node?
    ensures r == Text.Join(Text.Shown(Elems(c), show))
  {
    assert Text.Shown(Elems(c), show)[1..] == Text.Shown(Elems(c.next), show);
    if c.next.Nil? then show(c.element)
    else show(c.element) + ", " + NodeText(c.next, show)
  }

  /** The scan of `indexOf`: walk the chain counting positions and stop at the first node
      holding `e`. */
  method FirstPosition<T(==)>(c: Chain<T>, e: T) returns (r: int)
    ensures r == FirstIndex(Elems(c), e)
  {
    var s := Elems(c);
    var current := c;
    var i := 0;
    while i < |s|
      invariant 0 <= i <= |s| && Elems(current) == s[i..]
      invariant e !in s[..i]
    {
      assert s[i..][0] == current.element;
      if current.element == e {
        FirstIndexUnique(s, e, i);
        return i;
      }
      assert s[..i + 1] == s[..i] + [s[i]];
      current := current.next;
      i := i + 1;
    }
    assert s[..i] == s;
    return -1;
  }

  /** The scan of `lastIndexOf`: walk the whole chain, remembering the position of the
      latest node holding `e`. */
  method LastPosition<T(==)>(c: Chain<T>, e: T) returns (r: int)
    ensures r == LastIndex(Elems(c), e)
  {
    var s := Elems(c);
    var current := c;
    r := -1;
    var i := 0;
    while i < |s|
      invariant 0 <= i <= |s| && Elems(current) == s[i..]
      invariant r == LastIndex(s[..i], e)
    {
      assert s[i..][0] == current.element;
      assert s[..i + 1][..i] == s[..i];
      if current.element == e {
        r := i;
      }
      current := current.next;
      i := i + 1;
    }
    assert s[..i] == s;
  }

  /** The copy loop of `toArray`: the elements in chain order. */
  method ToSeq<T>(c: Chain<T>) returns (a: seq<T>)
    ensures a == Elems(c)
  {
    var s := Elems(c);
    var current := c;
    a := [];
    var i := 0;
    while i < |s|
      invariant 0 <= i <= |s| && Elems(current) == s[i..]
      invariant a == s[..i]
    {
      assert s[i..][0] == current.element;
      assert s[..i + 1] == s[..i] + [s[i]];
      a := a + [current.element];
      current := current.next;
      i := i + 1;
    }
    assert s[..i] == s;
  }
}

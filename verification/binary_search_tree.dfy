/** The unbalanced binary search tree: ordered insert (ties go right), delete (the two-child
    case copies the in-order successor), min, max and search. */
module BinarySearchTree {
  import opened Wrappers
  import opened Order
  import opened BinaryTree

  /** The ordering invariant, non-strict on both sides: everything in the left subtree is at
      most the node's value, which is at most everything in the right subtree. */
  ghost predicate Ordered<T>(le: (T, T) -> bool, t: Tree<T>) {
    match t
    case Nil => true
    case Node(l, v, r, _) =>
      && Ordered(le, l) && Ordered(le, r)
      && (forall y :: y in Elems(l) ==> le(y, v))
      && (forall y :: y in Elems(r) ==> le(v, y))
  }

  lemma {:induction false} OrderedSortsInorder<T(!new)>(le: (T, T) -> bool, t: Tree<T>)
    requires TotalOrder(le) && Ordered(le, t)
    ensures Sorted(le, Inorder(t))
  {
    match t
    case Nil =>
    case Node(l, v, r, _) =>
      OrderedSortsInorder(le, l);
      OrderedSortsInorder(le, r);
      InorderIsPermutation(l);
      InorderIsPermutation(r);
      SortedAroundPivot(le, Inorder(l), v, Inorder(r));
  }

  lemma {:induction false} SortedInorderIsOrdered<T(!new)>(le: (T, T) -> bool, t: Tree<T>)
    requires Sorted(le, Inorder(t))
    ensures Ordered(le, t)
  {
    match t
    case Nil =>
    case Node(l, v, r, _) =>
      InorderIsPermutation(l);
      InorderIsPermutation(r);
      var il, ir := Inorder(l), Inorder(r);
      assert Inorder(t) == il + ([v] + ir);
      SortedSplit(le, il, [v] + ir);
      SortedSplit(le, [v], ir);
      SortedInorderIsOrdered(le, l);
      SortedInorderIsOrdered(le, r);
      forall y | y in Elems(l)
        ensures le(y, v)
      {
        assert y in multiset(il);
        var i :| 0 <= i < |il| && il[i] == y;
        assert ([v] + ir)[0] == v;
      }
      forall y | y in Elems(r)
        ensures le(v, y)
      {
        assert y in multiset(ir);
        var j :| 0 <= j < |ir| && ir[j] == y;
        assert [v][0] == v;
      }
  }

  /** The ordering invariant holds exactly when the inorder traversal is sorted. */
  lemma OrderedIffInorderSorted<T(!new)>(le: (T, T) -> bool, t: Tree<T>)
    requires TotalOrder(le)
    ensures Ordered(le, t) <==> Sorted(le, Inorder(t))
  {
    if Ordered(le, t) {
      OrderedSortsInorder(le, t);
    }
    if Sorted(le, Inorder(t)) {
      SortedInorderIsOrdered(le, t);
    }
  }

  lemma OrderedGivesSortedInorder<T(!new)>(le: (T, T) -> bool, t: Tree<T>)
    ensures TotalOrder(le) && Ordered(le, t) ==> Sorted(le, Inorder(t))
  {
    if TotalOrder(le) {
      OrderedIffInorderSorted(le, t);
    }
  }

  /** The recursive `add(element, node)`: smaller values go left, equal-or-greater go right. */
  function Insert<T(!new)>(le: (T, T) -> bool, t: Tree<T>, x: T): (r: Tree<T>)
    ensures r.Node?
    ensures Elems(r) == Elems(t) + multiset{x}
    ensures Size(r) == Size(t) + 1
  {
    match t
    case Nil => NewNode(x)
    case Node(l, v, rt, h) =>
      if Less(le, x, v) then Node(Insert(le, l, x), v, rt, h)
      else Node(l, v, Insert(le, rt, x), h)
  }

  /** Insertion keeps the ordering invariant: at every level the new value goes left only
      when it is smaller than the node's value, and right otherwise. */
  lemma {:induction false} InsertKeepsOrder<T(!new)>(le: (T, T) -> bool, t: Tree<T>, x: T)
    requires TotalOrder(le) && Ordered(le, t)
    ensures Ordered(le, Insert(le, t, x))
  {
    match t
    case Nil =>
    case Node(l, v, rt, h) =>
      if Less(le, x, v) {
        InsertKeepsOrder(le, l, x);
        forall y | y in Elems(Insert(le, l, x)) ensures le(y, v) {
          if y != x {
            assert y in Elems(l);
          }
        }
      } else {
        InsertKeepsOrder(le, rt, x);
        forall y | y in Elems(Insert(le, rt, x)) ensures le(v, y) {
          if y != x {
            assert y in Elems(rt);
          }
        }
      }
  }

  /** `InsertKeepsOrder` in the implication form that `Add` calls on any tree. */
  lemma InsertSound<T(!new)>(le: (T, T) -> bool, t: Tree<T>, x: T)
    ensures TotalOrder(le) && Ordered(le, t) ==> Ordered(le, Insert(le, t, x))
  {
    if TotalOrder(le) && Ordered(le, t) {
      InsertKeepsOrder(le, t, x);
    }
  }

  /** `add(element)`: a null element throws; otherwise the element is inserted and `true`
      returned. */
  function Add<T(!new)>(le: (T, T) -> bool, t: Tree<T>, x: Option<T>): (r: Result<(bool, Tree<T>)>)
    ensures x.None? <==> r.Fail?
    ensures r.Fail? ==> r.error == NullPointer
    ensures r.Ok? ==> r.value.0 && Elems(r.value.1) == Elems(t) + multiset{x.value}
    ensures r.Ok? && TotalOrder(le) && Ordered(le, t) ==>
      Ordered(le, r.value.1) && Sorted(le, Inorder(r.value.1))
  {
    match x
    case None => Fail(NullPointer)
    case Some(e) =>
      var t2 := Insert(le, t, e);
      InsertSound(le, t, e);
      OrderedGivesSortedInorder(le, t2);
      Ok((true, t2))
  }

  /** The leftmost value: the loop of `min(node)` following left links to the end. */
  function Leftmost<T(!new)>(le: (T, T) -> bool, t: Tree<T>): (m: T)
    requires t.Node?
    ensures m in Elems(t)
    ensures TotalOrder(le) && Ordered(le, t) ==> forall y :: y in Elems(t) ==> le(m, y)
  {
    if t.left.Nil? then t.value else Leftmost(le, t.left)
  }

  /** The rightmost value: the loop of `max(node)`. */
  function Rightmost<T(!new)>(le: (T, T) -> bool, t: Tree<T>): (m: T)
    requires t.Node?
    ensures m in Elems(t)
    ensures TotalOrder(le) && Ordered(le, t) ==> forall y :: y in Elems(t) ==> le(y, m)
  {
    if t.right.Nil? then t.value else Rightmost(le, t.right)
  }

  /** `min()`: EmptyTreeException on an empty tree, else the least stored value. */
  function Min<T(!new)>(le: (T, T) -> bool, t: Tree<T>): (r: Result<T>)
    ensures r.Fail? <==> IsEmpty(t)
    ensures r.Fail? ==> r.error == EmptyTree
    ensures r.Ok? ==> r.value in Elems(t)
    ensures r.Ok? && TotalOrder(le) && Ordered(le, t) ==> forall y :: y in Elems(t) ==> le(r.value, y)
  {
    if IsEmpty(t) then Fail(EmptyTree) else Ok(Leftmost(le, t))
  }

  /** `max()`: EmptyTreeException on an empty tree, else the greatest stored value. */
  function MaxValue<T(!new)>(le: (T, T) -> bool, t: Tree<T>): (r: Result<T>)
    ensures r.Fail? <==> IsEmpty(t)
    ensures r.Fail? ==> r.error == EmptyTree
    ensures r.Ok? ==> r.value in Elems(t)
    ensures r.Ok? && TotalOrder(le) && Ordered(le, t) ==> forall y :: y in Elems(t) ==> le(y, r.value)
  {
    if IsEmpty(t) then Fail(EmptyTree) else Ok(Rightmost(le, t))
  }

  /** The recursive `remove(element, node)`. `None` is the ElementNotFoundException that an
      absent value raises before any link is reassigned. */
  function RemoveRec<T(!new)>(le: (T, T) -> bool, t: Tree<T>, x: T): (r: Option<Tree<T>>)
  {
    match t
    case Nil => None
    case Node(l, v, rt, h) =>
      if Less(le, x, v) then
        match RemoveRec(le, l, x)
        case None => None
        case Some(l2) => Some(Node(l2, v, rt, h))
      else if Less(le, v, x) then
        match RemoveRec(le, rt, x)
        case None => None
        case Some(r2) => Some(Node(l, v, r2, h))
      else if l.Nil? then Some(rt)
      else if rt.Nil? then Some(l)
      else
        var m := Leftmost(le, rt);
        match RemoveRec(le, rt, m)
        case None => None
        case Some(r2) => Some(Node(l, m, r2, h))
  }

  /** What a correct removal of `x` from `t` delivers: failure exactly when no stored value
      equals the target, and otherwise one occurrence fewer with the ordering invariant
      intact. */
  ghost predicate RemovesOne<T(!new)>(le: (T, T) -> bool, t: Tree<T>, x: T) {
    && (RemoveRec(le, t, x).None? <==> x !in Elems(t))
    && (RemoveRec(le, t, x).Some? ==>
          var t2 := RemoveRec(le, t, x).value;
          Elems(t2) == Elems(t) - multiset{x} && Ordered(le, t2))
  }

  lemma {:induction false} RemoveRecCorrect<T(!new)>(le: (T, T) -> bool, t: Tree<T>, x: T)
    requires TotalOrder(le) && Ordered(le, t)
    ensures RemovesOne(le, t, x)
    decreases t, 1
  {
    match t
    case Nil =>
    case Node(l, v, rt, h) =>
      if Less(le, x, v) {
        RemoveLeftCase(le, t, x);
      } else if Less(le, v, x) {
        RemoveRightCase(le, t, x);
      } else if l.Nil? || rt.Nil? {
        SplicedRemoved(le, t, x);
      } else {
        RemoveTwoChildCase(le, t, x);
      }
  }

  /** A matched node with at most one child is replaced by that child. */
  lemma SplicedRemoved<T(!new)>(le: (T, T) -> bool, t: Tree<T>, x: T)
    requires TotalOrder(le) && Ordered(le, t) && t.Node? && (t.left.Nil? || t.right.Nil?)
    requires !Less(le, x, t.value) && !Less(le, t.value, x)
    ensures RemovesOne(le, t, x)
  {
    assert x == t.value;
    assert RemoveRec(le, t, x) == Some(if t.left.Nil? then t.right else t.left);
    var Node(l, v, rt, _) := t;
    if l.Nil? {
      assert Elems(t) - multiset{x} == Elems(rt);
    } else {
      assert Elems(t) - multiset{x} == Elems(l);
    }
  }

  lemma {:induction false} RemoveLeftCase<T(!new)>(le: (T, T) -> bool, t: Tree<T>, x: T)
    requires TotalOrder(le) && Ordered(le, t) && t.Node? && Less(le, x, t.value)
    ensures RemovesOne(le, t, x)
    decreases t, 0
  {
    RemoveRecCorrect(le, t.left, x);
    if RemoveRec(le, t.left, x).Some? {
      LeftRemoved(le, t, x);
    } else {
      assert x !in Elems(t.right);
    }
  }

  /** The left subtree gave up one occurrence: so does the node. */
  lemma LeftRemoved<T(!new)>(le: (T, T) -> bool, t: Tree<T>, x: T)
    requires TotalOrder(le) && Ordered(le, t) && t.Node? && Less(le, x, t.value)
    requires RemovesOne(le, t.left, x) && RemoveRec(le, t.left, x).Some?
    ensures RemovesOne(le, t, x)
  {
    var Node(l, v, rt, h) := t;
    var l2 := RemoveRec(le, l, x).value;
    assert RemoveRec(le, t, x) == Some(Node(l2, v, rt, h));
    ShrinkLeftKeepsOrder(le, t, l2, h);
    MinusLeft(Elems(l), v, Elems(rt), x);
  }

  lemma {:induction false} RemoveRightCase<T(!new)>(le: (T, T) -> bool, t: Tree<T>, x: T)
    requires TotalOrder(le) && Ordered(le, t) && t.Node?
    requires !Less(le, x, t.value) && Less(le, t.value, x)
    ensures RemovesOne(le, t, x)
    decreases t, 0
  {
    RemoveRecCorrect(le, t.right, x);
    if RemoveRec(le, t.right, x).Some? {
      RightRemoved(le, t, x);
    } else {
      assert x !in Elems(t.left);
    }
  }

  /** The right subtree gave up one occurrence: so does the node. */
  lemma RightRemoved<T(!new)>(le: (T, T) -> bool, t: Tree<T>, x: T)
    requires TotalOrder(le) && Ordered(le, t) && t.Node?
    requires !Less(le, x, t.value) && Less(le, t.value, x)
    requires RemovesOne(le, t.right, x) && RemoveRec(le, t.right, x).Some?
    ensures RemovesOne(le, t, x)
  {
    var Node(l, v, rt, h) := t;
    assert x != v && x !in Elems(l);
    var r2 := RemoveRec(le, rt, x).value;
    assert RemoveRec(le, t, x) == Some(Node(l, v, r2, h));
    ShrinkRightKeepsOrder(le, t, r2, h);
    MinusRight(Elems(l), v, Elems(rt), x);
  }

  lemma {:induction false} RemoveTwoChildCase<T(!new)>(le: (T, T) -> bool, t: Tree<T>, x: T)
    requires TotalOrder(le) && Ordered(le, t) && t.Node? && t.left.Node? && t.right.Node?
    requires !Less(le, x, t.value) && !Less(le, t.value, x)
    ensures RemovesOne(le, t, x)
    decreases t, 0
  {
    RemoveRecCorrect(le, t.right, Leftmost(le, t.right));
    SuccessorRemoved(le, t, x);
  }

  /** The in-order successor, removed from the right subtree, takes the matched node's
      place. */
  lemma SuccessorRemoved<T(!new)>(le: (T, T) -> bool, t: Tree<T>, x: T)
    requires TotalOrder(le) && Ordered(le, t) && t.Node? && t.left.Node? && t.right.Node?
    requires !Less(le, x, t.value) && !Less(le, t.value, x)
    requires RemovesOne(le, t.right, Leftmost(le, t.right))
    ensures RemovesOne(le, t, x)
  {
    var Node(l, v, rt, h) := t;
    assert x == v;
    var m := Leftmost(le, rt);
    var r2 := RemoveRec(le, rt, m).value;
    assert RemoveRec(le, t, x) == Some(Node(l, m, r2, h));
    SuccessorCopyKeepsOrder(le, t, r2, h);
    SuccessorCopyElems(Elems(l), v, Elems(rt), m);
  }

  lemma MinusLeft<T>(a: multiset<T>, v: T, b: multiset<T>, x: T)
    requires x in a
    ensures (a - multiset{x}) + multiset{v} + b == (a + multiset{v} + b) - multiset{x}
  {
  }

  lemma MinusRight<T>(a: multiset<T>, v: T, b: multiset<T>, x: T)
    requires x in b
    ensures a + multiset{v} + (b - multiset{x}) == (a + multiset{v} + b) - multiset{x}
  {
  }

  lemma SuccessorCopyElems<T>(a: multiset<T>, v: T, b: multiset<T>, m: T)
    requires m in b
    ensures a + multiset{m} + (b - multiset{m}) == (a + multiset{v} + b) - multiset{v}
  {
  }

  /** Replacing the left subtree by an ordered tree holding a sub-multiset of its values
      keeps the ordering invariant. */
  lemma ShrinkLeftKeepsOrder<T(!new)>(le: (T, T) -> bool, t: Tree<T>, l2: Tree<T>, h: int)
    requires Ordered(le, t) && t.Node? && Ordered(le, l2) && Elems(l2) <= Elems(t.left)
    ensures Ordered(le, Node(l2, t.value, t.right, h))
  {
    forall y | y in Elems(l2)
      ensures le(y, t.value)
    {
      assert y in Elems(t.left);
    }
  }

  lemma ShrinkRightKeepsOrder<T(!new)>(le: (T, T) -> bool, t: Tree<T>, r2: Tree<T>, h: int)
    requires Ordered(le, t) && t.Node? && Ordered(le, r2) && Elems(r2) <= Elems(t.right)
    ensures Ordered(le, Node(t.left, t.value, r2, h))
  {
    forall y | y in Elems(r2)
      ensures le(t.value, y)
    {
      assert y in Elems(t.right);
    }
  }

  /** The two-child case: the least value of the right subtree moves up and the right subtree
      shrinks to an ordered tree holding a sub-multiset of its values. */
  lemma SuccessorCopyKeepsOrder<T(!new)>(le: (T, T) -> bool, t: Tree<T>, r2: Tree<T>, h: int)
    requires TotalOrder(le) && Ordered(le, t) && t.Node? && t.right.Node?
    requires Ordered(le, r2) && Elems(r2) <= Elems(t.right)
    ensures Ordered(le, Node(t.left, Leftmost(le, t.right), r2, h))
  {
    var m := Leftmost(le, t.right);
    assert le(t.value, m);
    forall y | y in Elems(t.left)
      ensures le(y, m)
    {
      assert le(y, t.value);
      Transitive(le, y, t.value, m);
    }
    forall y | y in Elems(r2)
      ensures le(m, y)
    {
      assert y in Elems(t.right);
    }
  }

  /** `RemoveRecCorrect` in the implication form that `Remove` calls on any tree. */
  lemma RemoveRecSound<T(!new)>(le: (T, T) -> bool, t: Tree<T>, x: T)
    ensures TotalOrder(le) && Ordered(le, t) ==>
      && (RemoveRec(le, t, x).None? <==> x !in Elems(t))
      && (RemoveRec(le, t, x).Some? ==>
            Elems(RemoveRec(le, t, x).value) == Elems(t) - multiset{x}
            && Ordered(le, RemoveRec(le, t, x).value))
  {
    if TotalOrder(le) && Ordered(le, t) {
      RemoveRecCorrect(le, t, x);
      assert RemovesOne(le, t, x);
    }
  }

  /** `remove(element)`: null throws; an empty tree or an absent value gives `false` and the
      tree unchanged; otherwise exactly one occurrence is removed and `true` returned. */
  function Remove<T(!new)>(le: (T, T) -> bool, t: Tree<T>, x: Option<T>): (r: Result<(bool, Tree<T>)>)
    ensures x.None? <==> r.Fail?
    ensures r.Fail? ==> r.error == NullPointer
    ensures r.Ok? && !r.value.0 ==> r.value.1 == t
    ensures r.Ok? && TotalOrder(le) && Ordered(le, t) ==>
      && (r.value.0 <==> x.value in Elems(t))
      && Elems(r.value.1) == Elems(t) - multiset{x.value}
      && Ordered(le, r.value.1)
  {
    match x
    case None => Fail(NullPointer)
    case Some(e) =>
      if IsEmpty(t) then Ok((false, t))
      else
        RemoveRecSound(le, t, e);
        match RemoveRec(le, t, e)
        case None => Ok((false, t))
        case Some(t2) => Ok((true, t2))
  }

  /** `s` is `t` or a subtree hanging somewhere below it. */
  predicate IsSubtree<T(==)>(s: Tree<T>, t: Tree<T>) {
    s == t || (t.Node? && (IsSubtree(s, t.left) || IsSubtree(s, t.right)))
  }

  /** The recursive `search(element, node)`: stops at a null link or a node comparing equal. */
  function SearchRec<T(!new)>(le: (T, T) -> bool, t: Tree<T>, x: T): (r: Tree<T>)
    ensures IsSubtree(r, t)
    ensures r.Node? ==> le(x, r.value) && le(r.value, x)
    ensures TotalOrder(le) && Ordered(le, t) ==> (r.Nil? <==> x !in Elems(t))
  {
    match t
    case Nil => Nil
    case Node(l, v, rt, _) =>
      if le(x, v) && le(v, x) then t
      else if Less(le, x, v) then SearchRec(le, l, x)
      else SearchRec(le, rt, x)
  }

  /** `search(element)`: null throws; otherwise the subtree rooted at a node equal to the
      target, or the empty tree when no stored value equals it. */
  function Search<T(!new)>(le: (T, T) -> bool, t: Tree<T>, x: Option<T>): (r: Result<Tree<T>>)
    ensures x.None? <==> r.Fail?
    ensures r.Fail? ==> r.error == NullPointer
    ensures r.Ok? ==> IsSubtree(r.value, t)
    ensures r.Ok? && TotalOrder(le) && r.value.Node? ==> r.value.value == x.value
    ensures r.Ok? && TotalOrder(le) && Ordered(le, t) ==> (r.value.Nil? <==> x.value !in Elems(t))
  {
    match x
    case None => Fail(NullPointer)
    case Some(e) => Ok(SearchRec(le, t, e))
  }
}

/** The self-balancing search tree: every node caches its height, and each insert or delete
    rebalances the nodes on the way back up with one of four rotations. */
module AvlTree {
  import opened Wrappers
  import opened Order
  import opened BinaryTree
  import BinarySearchTree

  /** Every node's cached height equals its real edge-count height. */
  predicate Cached<T>(t: Tree<T>) {
    match t
    case Nil => true
    case Node(l, _, r, h) => h == Depth(t) && Cached(l) && Cached(r)
  }

  /** Every node's balance factor lies in [-1, 1]. */
  predicate Balanced<T>(t: Tree<T>) {
    match t
    case Nil => true
    case Node(l, _, r, _) => -1 <= Depth(r) - Depth(l) <= 1 && Balanced(l) && Balanced(r)
  }

  /** The shape invariant the balanced tree keeps between operations. */
  predicate Avl<T>(t: Tree<T>) {
    Cached(t) && Balanced(t)
  }

  /** `height(node)`: the cached height, -1 for an absent node. */
  function CachedHeight<T>(t: Tree<T>): (h: int)
    ensures t.Nil? ==> h == -1
    ensures Cached(t) ==> h == Depth(t)
  {
    if t.Nil? then -1 else t.height
  }

  /** `updateHeight(node)`: a null node is left alone; otherwise only the cached height changes,
      and it is correct once both children's caches are. */
  function UpdateHeight<T>(t: Tree<T>): (r: Tree<T>)
    ensures t.Nil? ==> r.Nil?
    ensures t.Node? ==> r.Node? && r.left == t.left && r.value == t.value && r.right == t.right
    ensures t.Node? && Cached(t.left) && Cached(t.right) ==> Cached(r) && CachedHeight(r) == Depth(t)
    ensures Inorder(r) == Inorder(t) && Elems(r) == Elems(t) && Depth(r) == Depth(t)
  {
    if t.Nil? then t
    else t.(height := Max(CachedHeight(t.left), CachedHeight(t.right)) + 1)
  }

  /** `balanceFactor(node)`: right height minus left height, read from the caches. */
  function BalanceFactor<T>(t: Tree<T>): (b: int)
    requires t.Node?
    ensures Cached(t.left) && Cached(t.right) ==> b == Depth(t.right) - Depth(t.left)
  {
    CachedHeight(t.right) - CachedHeight(t.left)
  }

  /** `rotateLeft(root)`: the right child becomes the root and the old root its left child,
      adopting the right child's former left subtree; the old root's height is recomputed
      first, then the new root's. */
  function RotateLeft<T>(t: Tree<T>): (r: Tree<T>)
    requires t.Node? && t.right.Node?
    ensures r.Node? && r.left.Node?
    ensures r.left.left == t.left && r.left.value == t.value && r.left.right == t.right.left
    ensures r.value == t.right.value && r.right == t.right.right
    ensures Inorder(r) == Inorder(t) && Elems(r) == Elems(t)
    ensures Cached(t.left) && Cached(t.right) ==> Cached(r)
  {
    var Node(l, v, rt, h) := t;
    var root := UpdateHeight(Node(l, v, rt.left, h));
    UpdateHeight(Node(root, rt.value, rt.right, rt.height))
  }

  /** `rotateRight(root)`: the mirror image of `RotateLeft`. */
  function RotateRight<T>(t: Tree<T>): (r: Tree<T>)
    requires t.Node? && t.left.Node?
    ensures r.Node? && r.right.Node?
    ensures r.right.right == t.right && r.right.value == t.value && r.right.left == t.left.right
    ensures r.value == t.left.value && r.left == t.left.left
    ensures Inorder(r) == Inorder(t) && Elems(r) == Elems(t)
    ensures Cached(t.left) && Cached(t.right) ==> Cached(r)
  {
    var Node(l, v, rt, h) := t;
    var root := UpdateHeight(Node(l.right, v, rt, h));
    UpdateHeight(Node(l.left, l.value, root, l.height))
  }

  /** `rotateLeftRight(root)`: rotate the left child left, then the root right; the left
      child's right child ends up on top. */
  function RotateLeftRight<T>(t: Tree<T>): (r: Tree<T>)
    requires t.Node? && t.left.Node? && t.left.right.Node?
    ensures r.Node? && r.left.Node? && r.right.Node?
    ensures r.value == t.left.right.value
    ensures r.left.left == t.left.left && r.left.value == t.left.value
    ensures r.left.right == t.left.right.left
    ensures r.right.left == t.left.right.right && r.right.value == t.value
    ensures r.right.right == t.right
    ensures Inorder(r) == Inorder(t) && Elems(r) == Elems(t)
    ensures Cached(t.left) && Cached(t.right) ==> Cached(r)
  {
    var newLeft := RotateLeft(t.left);
    InorderOfNode(newLeft, t.left, t.value, t.right);
    RotateRight(t.(left := newLeft))
  }

  /** `rotateRightLeft(root)`: the mirror image of `RotateLeftRight`. */
  function RotateRightLeft<T>(t: Tree<T>): (r: Tree<T>)
    requires t.Node? && t.right.Node? && t.right.left.Node?
    ensures r.Node? && r.left.Node? && r.right.Node?
    ensures r.value == t.right.left.value
    ensures r.right.right == t.right.right && r.right.value == t.right.value
    ensures r.right.left == t.right.left.right
    ensures r.left.right == t.right.left.left && r.left.value == t.value
    ensures r.left.left == t.left
    ensures Inorder(r) == Inorder(t) && Elems(r) == Elems(t)
    ensures Cached(t.left) && Cached(t.right) ==> Cached(r)
  {
    var newRight := RotateRight(t.right);
    InorderOfNodeRight(t.left, t.value, newRight, t.right);
    RotateLeft(t.(right := newRight))
  }

  /** Replacing a child by one with the same traversal keeps the node's traversal. */
  lemma InorderOfNode<T>(a: Tree<T>, b: Tree<T>, v: T, r: Tree<T>)
    requires Inorder(a) == Inorder(b) && Elems(a) == Elems(b)
    ensures forall h :: Inorder(Node(a, v, r, h)) == Inorder(Node(b, v, r, h))
    ensures forall h :: Elems(Node(a, v, r, h)) == Elems(Node(b, v, r, h))
  {
  }

  lemma InorderOfNodeRight<T>(l: Tree<T>, v: T, a: Tree<T>, b: Tree<T>)
    requires Inorder(a) == Inorder(b) && Elems(a) == Elems(b)
    ensures forall h :: Inorder(Node(l, v, a, h)) == Inorder(Node(l, v, b, h))
    ensures forall h :: Elems(Node(l, v, a, h)) == Elems(Node(l, v, b, h))
  {
  }

  /** `rebalance(node)`: refresh the node's height, then rotate when its balance factor leaves
      [-1, 1]: right (or left-right) when the left side is too tall, left (or right-left) when
      the right side is. */
  function Rebalance<T>(t: Tree<T>): (r: Tree<T>)
    requires t.Node? && Cached(t.left) && Cached(t.right)
    ensures r.Node? && Cached(r)
    ensures Inorder(r) == Inorder(t) && Elems(r) == Elems(t)
  {
    DepthBounds(t.left);
    DepthBounds(t.right);
    var n := UpdateHeight(t);
    var bf := BalanceFactor(n);
    if bf < -1 then
      DepthBounds(n.left.left);
      if BalanceFactor(n.left) <= 0 then RotateRight(n) else RotateLeftRight(n)
    else if bf > 1 then
      DepthBounds(n.right.right);
      if BalanceFactor(n.right) >= 0 then RotateLeft(n) else RotateRightLeft(n)
    else n
  }

  /** With balanced children whose heights differ by at most two, `rebalance` yields a
      balanced node whose height is at least the taller child's plus zero and at most plus
      one; a node that was already in balance only has its height refreshed. */
  lemma RebalanceRestoresBalance<T>(t: Tree<T>)
    requires t.Node? && Avl(t.left) && Avl(t.right)
    requires -2 <= Depth(t.right) - Depth(t.left) <= 2
    ensures Avl(Rebalance(t))
    ensures Max(Depth(t.left), Depth(t.right)) <= Depth(Rebalance(t))
              <= Max(Depth(t.left), Depth(t.right)) + 1
    ensures -1 <= Depth(t.right) - Depth(t.left) <= 1 ==> Rebalance(t) == UpdateHeight(t)
  {
    DepthBounds(t.left);
    DepthBounds(t.right);
    var bf := Depth(t.right) - Depth(t.left);
    if bf < -1 {
      LeftHeavyRebalances(t);
    } else if bf > 1 {
      RightHeavyRebalances(t);
    } else {
      var n := UpdateHeight(t);
      assert BalanceFactor(n) == bf;
      assert Rebalance(t) == n;
    }
  }

  /** A left side two taller is fixed by a right rotation, or a left-right one when the left
      child leans right. */
  lemma LeftHeavyRebalances<T>(t: Tree<T>)
    requires t.Node? && Avl(t.left) && Avl(t.right)
    requires Depth(t.left) == Depth(t.right) + 2
    ensures Avl(Rebalance(t))
    ensures Depth(t.left) <= Depth(Rebalance(t)) <= Depth(t.left) + 1
  {
    var n := UpdateHeight(t);
    DepthBounds(t.left);
    DepthBounds(t.right);
    DepthBounds(t.left.left);
    assert BalanceFactor(n) < -1;
    if Depth(t.left.right) - Depth(t.left.left) <= 0 {
      assert Rebalance(t) == RotateRight(n);
      RightRotationBalances(n);
    } else {
      assert Rebalance(t) == RotateLeftRight(n);
      LeftRightRotationBalances(n);
    }
  }

  /** The mirror image of `LeftHeavyRebalances`. */
  lemma RightHeavyRebalances<T>(t: Tree<T>)
    requires t.Node? && Avl(t.left) && Avl(t.right)
    requires Depth(t.right) == Depth(t.left) + 2
    ensures Avl(Rebalance(t))
    ensures Depth(t.right) <= Depth(Rebalance(t)) <= Depth(t.right) + 1
  {
    var n := UpdateHeight(t);
    DepthBounds(t.left);
    DepthBounds(t.right);
    DepthBounds(t.right.right);
    assert BalanceFactor(n) > 1;
    if Depth(t.right.right) - Depth(t.right.left) >= 0 {
      assert Rebalance(t) == RotateLeft(n);
      LeftRotationBalances(n);
    } else {
      assert Rebalance(t) == RotateRightLeft(n);
      RightLeftRotationBalances(n);
    }
  }

  lemma RightRotationBalances<T>(t: Tree<T>)
    requires t.Node? && t.left.Node? && Avl(t.left) && Avl(t.right)
    requires Depth(t.left) == Depth(t.right) + 2
    requires Depth(t.left.right) <= Depth(t.left.left)
    ensures Avl(RotateRight(t))
    ensures Depth(t.left) <= Depth(RotateRight(t)) <= Depth(t.left) + 1
  {
    var r := RotateRight(t);
    assert r == Node(t.left.left, t.left.value, r.right, r.height);
    assert r.right == Node(t.left.right, t.value, t.right, r.right.height);
  }

  lemma LeftRotationBalances<T>(t: Tree<T>)
    requires t.Node? && t.right.Node? && Avl(t.left) && Avl(t.right)
    requires Depth(t.right) == Depth(t.left) + 2
    requires Depth(t.right.left) <= Depth(t.right.right)
    ensures Avl(RotateLeft(t))
    ensures Depth(t.right) <= Depth(RotateLeft(t)) <= Depth(t.right) + 1
  {
    var r := RotateLeft(t);
    assert r == Node(r.left, t.right.value, t.right.right, r.height);
    assert r.left == Node(t.left, t.value, t.right.left, r.left.height);
  }

  lemma LeftRightRotationBalances<T>(t: Tree<T>)
    requires t.Node? && t.left.Node? && t.left.right.Node? && Avl(t.left) && Avl(t.right)
    requires Depth(t.left) == Depth(t.right) + 2
    requires Depth(t.left.right) > Depth(t.left.left)
    ensures Avl(RotateLeftRight(t))
    ensures Depth(RotateLeftRight(t)) == Depth(t.left)
  {
    var r := RotateLeftRight(t);
    var lr := t.left.right;
    DepthBounds(t.left.left);
    assert Depth(lr) == Depth(t.right) + 1 && Depth(t.left.left) == Depth(t.right);
    assert Balanced(lr) && Balanced(lr.left) && Balanced(lr.right);
    assert Depth(t.right) - 1 <= Depth(lr.left) <= Depth(t.right);
    assert Depth(t.right) - 1 <= Depth(lr.right) <= Depth(t.right);
    assert r == Node(r.left, lr.value, r.right, r.height);
    assert r.left == Node(t.left.left, t.left.value, lr.left, r.left.height);
    assert r.right == Node(lr.right, t.value, t.right, r.right.height);
  }

  lemma RightLeftRotationBalances<T>(t: Tree<T>)
    requires t.Node? && t.right.Node? && t.right.left.Node? && Avl(t.left) && Avl(t.right)
    requires Depth(t.right) == Depth(t.left) + 2
    requires Depth(t.right.left) > Depth(t.right.right)
    ensures Avl(RotateRightLeft(t))
    ensures Depth(RotateRightLeft(t)) == Depth(t.right)
  {
    var r := RotateRightLeft(t);
    var rl := t.right.left;
    DepthBounds(t.right.right);
    assert Depth(rl) == Depth(t.left) + 1 && Depth(t.right.right) == Depth(t.left);
    assert Balanced(rl) && Balanced(rl.left) && Balanced(rl.right);
    assert Depth(t.left) - 1 <= Depth(rl.left) <= Depth(t.left);
    assert Depth(t.left) - 1 <= Depth(rl.right) <= Depth(t.left);
    assert r == Node(r.left, rl.value, r.right, r.height);
    assert r.left == Node(t.left, t.value, rl.left, r.left.height);
    assert r.right == Node(rl.right, t.right.value, t.right.right, r.right.height);
  }

  /** The recursive `add(element, node)`: descend as the unbalanced tree does (ties go right),
      then rebalance every node on the way back up. */
  function AvlInsert<T(!new)>(le: (T, T) -> bool, t: Tree<T>, x: T): (r: Tree<T>)
    requires Cached(t)
    ensures r.Node? && Cached(r)
    ensures Elems(r) == Elems(t) + multiset{x}
  {
    match t
    case Nil => NewNode(x)
    case Node(l, v, rt, h) =>
      if Less(le, x, v) then Rebalance(Node(AvlInsert(le, l, x), v, rt, h))
      else Rebalance(Node(l, v, AvlInsert(le, rt, x), h))
  }

  /** A tree with the same inorder sequence as an ordered tree is ordered too. */
  lemma SameInorderKeepsOrder<T(!new)>(le: (T, T) -> bool, a: Tree<T>, b: Tree<T>)
    requires TotalOrder(le) && Inorder(a) == Inorder(b) && BinarySearchTree.Ordered(le, a)
    ensures BinarySearchTree.Ordered(le, b)
  {
    BinarySearchTree.OrderedIffInorderSorted(le, a);
    BinarySearchTree.OrderedIffInorderSorted(le, b);
  }

  /** Insertion keeps the AVL shape and raises the height by zero or one. */
  lemma {:induction false} InsertKeepsBalance<T(!new)>(le: (T, T) -> bool, t: Tree<T>, x: T)
    requires Avl(t)
    ensures Avl(AvlInsert(le, t, x))
    ensures Depth(t) <= Depth(AvlInsert(le, t, x)) <= Depth(t) + 1
  {
    match t
    case Nil =>
    case Node(l, v, rt, h) =>
      if Less(le, x, v) {
        InsertKeepsBalance(le, l, x);
        LeftGrowthRebalances(t, AvlInsert(le, l, x));
      } else {
        InsertKeepsBalance(le, rt, x);
        RightGrowthRebalances(t, AvlInsert(le, rt, x));
      }
  }

  /** A left subtree that grew by at most one level, under a balanced node, rebalances into a
      balanced node at most one level higher. */
  lemma LeftGrowthRebalances<T>(t: Tree<T>, l2: Tree<T>)
    requires t.Node? && Avl(t) && Avl(l2) && Depth(t.left) <= Depth(l2) <= Depth(t.left) + 1
    ensures var r := Rebalance(Node(l2, t.value, t.right, t.height));
      Avl(r) && Depth(t) <= Depth(r) <= Depth(t) + 1
  {
    DepthBounds(t.left);
    DepthBounds(t.right);
    var n := Node(l2, t.value, t.right, t.height);
    RebalanceRestoresBalance(n);
    if -1 <= Depth(t.right) - Depth(l2) <= 1 {
      assert Depth(Rebalance(n)) == Depth(n);
    }
  }

  lemma RightGrowthRebalances<T>(t: Tree<T>, r2: Tree<T>)
    requires t.Node? && Avl(t) && Avl(r2) && Depth(t.right) <= Depth(r2) <= Depth(t.right) + 1
    ensures var r := Rebalance(Node(t.left, t.value, r2, t.height));
      Avl(r) && Depth(t) <= Depth(r) <= Depth(t) + 1
  {
    DepthBounds(t.left);
    DepthBounds(t.right);
    var n := Node(t.left, t.value, r2, t.height);
    RebalanceRestoresBalance(n);
    if -1 <= Depth(r2) - Depth(t.left) <= 1 {
      assert Depth(Rebalance(n)) == Depth(n);
    }
  }

  /** Insertion keeps the ordering invariant: the new value lands on the correct side at
      every level, and rebalancing leaves the inorder sequence alone. */
  lemma {:induction false} InsertKeepsOrder<T(!new)>(le: (T, T) -> bool, t: Tree<T>, x: T)
    requires TotalOrder(le) && BinarySearchTree.Ordered(le, t) && Cached(t)
    ensures BinarySearchTree.Ordered(le, AvlInsert(le, t, x))
  {
    match t
    case Nil =>
    case Node(l, v, rt, h) =>
      if Less(le, x, v) {
        var l2 := AvlInsert(le, l, x);
        InsertKeepsOrder(le, l, x);
        var n := Node(l2, v, rt, h);
        forall y | y in Elems(l2) ensures le(y, v) {
          if y != x {
            assert y in Elems(l);
          }
        }
        assert BinarySearchTree.Ordered(le, n);
        SameInorderKeepsOrder(le, n, Rebalance(n));
      } else {
        var r2 := AvlInsert(le, rt, x);
        InsertKeepsOrder(le, rt, x);
        var n := Node(l, v, r2, h);
        forall y | y in Elems(r2) ensures le(v, y) {
          if y != x {
            assert y in Elems(rt);
          }
        }
        assert BinarySearchTree.Ordered(le, n);
        SameInorderKeepsOrder(le, n, Rebalance(n));
      }
  }

  /** `InsertKeepsOrder` and `InsertKeepsBalance` together, in the implication form that
      `Add` calls on any tree. */
  lemma InsertSound<T(!new)>(le: (T, T) -> bool, t: Tree<T>, x: T)
    requires Cached(t)
    ensures TotalOrder(le) && BinarySearchTree.Ordered(le, t) && Avl(t) ==>
      BinarySearchTree.Ordered(le, AvlInsert(le, t, x)) && Avl(AvlInsert(le, t, x))
  {
    if TotalOrder(le) && BinarySearchTree.Ordered(le, t) && Avl(t) {
      InsertKeepsOrder(le, t, x);
      InsertKeepsBalance(le, t, x);
    }
  }

  /** `add(element)`: null throws; otherwise the element is inserted and `true` returned. */
  function Add<T(!new)>(le: (T, T) -> bool, t: Tree<T>, x: Option<T>): (r: Result<(bool, Tree<T>)>)
    requires Cached(t)
    ensures x.None? <==> r.Fail?
    ensures r.Fail? ==> r.error == NullPointer
    ensures r.Ok? ==> r.value.0 && Elems(r.value.1) == Elems(t) + multiset{x.value}
    ensures r.Ok? && TotalOrder(le) && BinarySearchTree.Ordered(le, t) && Avl(t) ==>
      BinarySearchTree.Ordered(le, r.value.1) && Avl(r.value.1)
  {
    match x
    case None => Fail(NullPointer)
    case Some(e) =>
      InsertSound(le, t, e);
      Ok((true, AvlInsert(le, t, e)))
  }

  /** The recursive `remove(element, node)`: locate as the unbalanced tree does, splice out a
      node with at most one child by returning that child as it is, copy the right subtree's
      least value into a node with two children and delete it from the right, and rebalance
      every node on the way back up. `None` is the ElementNotFoundException, raised before any
      node is changed. */
  function AvlRemoveRec<T(!new)>(le: (T, T) -> bool, t: Tree<T>, x: T): (r: Option<Tree<T>>)
    requires Cached(t)
    ensures r.Some? ==> Cached(r.value)
  {
    match t
    case Nil => None
    case Node(l, v, rt, h) =>
      if Less(le, x, v) then
        match AvlRemoveRec(le, l, x)
        case None => None
        case Some(l2) => Some(Rebalance(Node(l2, v, rt, h)))
      else if Less(le, v, x) then
        match AvlRemoveRec(le, rt, x)
        case None => None
        case Some(r2) => Some(Rebalance(Node(l, v, r2, h)))
      else if l.Nil? then Some(rt)
      else if rt.Nil? then Some(l)
      else
        var m := BinarySearchTree.Leftmost(le, rt);
        match AvlRemoveRec(le, rt, m)
        case None => None
        case Some(r2) => Some(Rebalance(Node(l, m, r2, h)))
  }

  /** A matched node with at most one child is replaced by that child as it stands, without
      rebalancing it. */
  lemma SplicedChildUnchanged<T(!new)>(le: (T, T) -> bool, t: Tree<T>, x: T)
    requires Cached(t) && t.Node? && le(x, t.value) && le(t.value, x)
    requires t.left.Nil? || t.right.Nil?
    ensures AvlRemoveRec(le, t, x) == Some(if t.left.Nil? then t.right else t.left)
  {
  }

  /** Deletion keeps the AVL shape and lowers the height by zero or one. */
  lemma {:induction false} RemoveKeepsBalance<T(!new)>(le: (T, T) -> bool, t: Tree<T>, x: T)
    requires Avl(t)
    ensures AvlRemoveRec(le, t, x).Some? ==>
      var smaller := AvlRemoveRec(le, t, x).value;
      Avl(smaller) && Depth(t) - 1 <= Depth(smaller) <= Depth(t)
  {
    match t
    case Nil =>
    case Node(l, v, rt, h) =>
      if Less(le, x, v) {
        RemoveKeepsBalance(le, l, x);
        if AvlRemoveRec(le, l, x).Some? {
          LeftShrinkRebalances(t, AvlRemoveRec(le, l, x).value, v);
        }
      } else if Less(le, v, x) {
        RemoveKeepsBalance(le, rt, x);
        if AvlRemoveRec(le, rt, x).Some? {
          RightShrinkRebalances(t, AvlRemoveRec(le, rt, x).value, v);
        }
      } else if l.Nil? || rt.Nil? {
        DepthBounds(l);
        DepthBounds(rt);
      } else {
        var m := BinarySearchTree.Leftmost(le, rt);
        RemoveKeepsBalance(le, rt, m);
        if AvlRemoveRec(le, rt, m).Some? {
          RightShrinkRebalances(t, AvlRemoveRec(le, rt, m).value, m);
        }
      }
  }

  /** A left subtree that lost at most one level, under a balanced node, rebalances into a
      balanced node at most one level lower. */
  lemma LeftShrinkRebalances<T>(t: Tree<T>, l2: Tree<T>, v: T)
    requires t.Node? && Avl(t) && Avl(l2) && Depth(t.left) - 1 <= Depth(l2) <= Depth(t.left)
    ensures var r := Rebalance(Node(l2, v, t.right, t.height));
      Avl(r) && Depth(t) - 1 <= Depth(r) <= Depth(t)
  {
    DepthBounds(t.left);
    DepthBounds(t.right);
    var n := Node(l2, v, t.right, t.height);
    RebalanceRestoresBalance(n);
    if -1 <= Depth(t.right) - Depth(l2) <= 1 {
      assert Depth(Rebalance(n)) == Depth(n);
    }
  }

  lemma RightShrinkRebalances<T>(t: Tree<T>, r2: Tree<T>, v: T)
    requires t.Node? && Avl(t) && Avl(r2) && Depth(t.right) - 1 <= Depth(r2) <= Depth(t.right)
    ensures var r := Rebalance(Node(t.left, v, r2, t.height));
      Avl(r) && Depth(t) - 1 <= Depth(r) <= Depth(t)
  {
    DepthBounds(t.left);
    DepthBounds(t.right);
    var n := Node(t.left, v, r2, t.height);
    RebalanceRestoresBalance(n);
    if -1 <= Depth(r2) - Depth(t.left) <= 1 {
      assert Depth(Rebalance(n)) == Depth(n);
    }
  }

  /** What a correct removal of `x` from `t` delivers: failure exactly when no stored value
      equals `x`, and otherwise one occurrence fewer with the ordering invariant intact. */
  ghost predicate RemovesOne<T(!new)>(le: (T, T) -> bool, t: Tree<T>, x: T)
    requires Cached(t)
  {
    && (AvlRemoveRec(le, t, x).None? <==> x !in Elems(t))
    && (AvlRemoveRec(le, t, x).Some? ==>
          var smaller := AvlRemoveRec(le, t, x).value;
          Elems(smaller) == Elems(t) - multiset{x} && BinarySearchTree.Ordered(le, smaller))
  }

  lemma {:induction false} RemoveKeepsOrder<T(!new)>(le: (T, T) -> bool, t: Tree<T>, x: T)
    requires TotalOrder(le) && BinarySearchTree.Ordered(le, t) && Cached(t)
    ensures RemovesOne(le, t, x)
    decreases t, 1
  {
    match t
    case Nil =>
    case Node(l, v, rt, h) =>
      if Less(le, x, v) {
        RemoveLeftCase(le, t, x);
      } else if Less(le, v, x) {
        RemoveRightCase(le, t, x);
      } else if l.Nil? || rt.Nil? {
        SplicedRemoved(le, t, x);
      } else {
        RemoveTwoChildCase(le, t, x);
      }
  }

  /** A matched node with at most one child is replaced by that child. */
  lemma SplicedRemoved<T(!new)>(le: (T, T) -> bool, t: Tree<T>, x: T)
    requires TotalOrder(le) && BinarySearchTree.Ordered(le, t) && Cached(t)
    requires t.Node? && (t.left.Nil? || t.right.Nil?)
    requires !Less(le, x, t.value) && !Less(le, t.value, x)
    ensures RemovesOne(le, t, x)
  {
    assert x == t.value;
    SplicedChildUnchanged(le, t, x);
    var Node(l, v, rt, _) := t;
    if l.Nil? {
      assert Elems(t) - multiset{x} == Elems(rt);
    } else {
      assert Elems(t) - multiset{x} == Elems(l);
    }
  }

  lemma {:induction false} RemoveLeftCase<T(!new)>(le: (T, T) -> bool, t: Tree<T>, x: T)
    requires TotalOrder(le) && BinarySearchTree.Ordered(le, t) && Cached(t)
    requires t.Node? && Less(le, x, t.value)
    ensures RemovesOne(le, t, x)
    decreases t, 0
  {
    RemoveKeepsOrder(le, t.left, x);
    if AvlRemoveRec(le, t.left, x).Some? {
      LeftRemoved(le, t, x);
    } else {
      assert x !in Elems(t.right);
    }
  }

  /** The left subtree gave up one occurrence: so does the node, once rebalanced. */
  lemma LeftRemoved<T(!new)>(le: (T, T) -> bool, t: Tree<T>, x: T)
    requires TotalOrder(le) && BinarySearchTree.Ordered(le, t) && Cached(t)
    requires t.Node? && Less(le, x, t.value)
    requires RemovesOne(le, t.left, x) && AvlRemoveRec(le, t.left, x).Some?
    ensures RemovesOne(le, t, x)
  {
    var Node(l, v, rt, h) := t;
    var l2 := AvlRemoveRec(le, l, x).value;
    var n := Node(l2, v, rt, h);
    assert AvlRemoveRec(le, t, x) == Some(Rebalance(n));
    BinarySearchTree.ShrinkLeftKeepsOrder(le, t, l2, h);
    SameInorderKeepsOrder(le, n, Rebalance(n));
    BinarySearchTree.MinusLeft(Elems(l), v, Elems(rt), x);
  }

  lemma {:induction false} RemoveRightCase<T(!new)>(le: (T, T) -> bool, t: Tree<T>, x: T)
    requires TotalOrder(le) && BinarySearchTree.Ordered(le, t) && Cached(t)
    requires t.Node? && !Less(le, x, t.value) && Less(le, t.value, x)
    ensures RemovesOne(le, t, x)
    decreases t, 0
  {
    RemoveKeepsOrder(le, t.right, x);
    if AvlRemoveRec(le, t.right, x).Some? {
      RightRemoved(le, t, x);
    } else {
      assert x !in Elems(t.left);
    }
  }

  /** The right subtree gave up one occurrence: so does the node, once rebalanced. */
  lemma RightRemoved<T(!new)>(le: (T, T) -> bool, t: Tree<T>, x: T)
    requires TotalOrder(le) && BinarySearchTree.Ordered(le, t) && Cached(t)
    requires t.Node? && !Less(le, x, t.value) && Less(le, t.value, x)
    requires RemovesOne(le, t.right, x) && AvlRemoveRec(le, t.right, x).Some?
    ensures RemovesOne(le, t, x)
  {
    var Node(l, v, rt, h) := t;
    assert x != v && x !in Elems(l);
    var r2 := AvlRemoveRec(le, rt, x).value;
    var n := Node(l, v, r2, h);
    assert AvlRemoveRec(le, t, x) == Some(Rebalance(n));
    BinarySearchTree.ShrinkRightKeepsOrder(le, t, r2, h);
    SameInorderKeepsOrder(le, n, Rebalance(n));
    BinarySearchTree.MinusRight(Elems(l), v, Elems(rt), x);
  }

  lemma {:induction false} RemoveTwoChildCase<T(!new)>(le: (T, T) -> bool, t: Tree<T>, x: T)
    requires TotalOrder(le) && BinarySearchTree.Ordered(le, t) && Cached(t)
    requires t.Node? && t.left.Node? && t.right.Node?
    requires !Less(le, x, t.value) && !Less(le, t.value, x)
    ensures RemovesOne(le, t, x)
    decreases t, 0
  {
    var m := BinarySearchTree.Leftmost(le, t.right);
    RemoveKeepsOrder(le, t.right, m);
    SuccessorRemoved(le, t, x);
  }

  /** The in-order successor, removed from the right subtree, takes the matched node's
      place. */
  lemma SuccessorRemoved<T(!new)>(le: (T, T) -> bool, t: Tree<T>, x: T)
    requires TotalOrder(le) && BinarySearchTree.Ordered(le, t) && Cached(t)
    requires t.Node? && t.left.Node? && t.right.Node?
    requires !Less(le, x, t.value) && !Less(le, t.value, x)
    requires RemovesOne(le, t.right, BinarySearchTree.Leftmost(le, t.right))
    ensures RemovesOne(le, t, x)
  {
    var Node(l, v, rt, h) := t;
    assert x == v;
    var m := BinarySearchTree.Leftmost(le, rt);
    var r2 := AvlRemoveRec(le, rt, m).value;
    var n := Node(l, m, r2, h);
    assert AvlRemoveRec(le, t, x) == Some(Rebalance(n));
    BinarySearchTree.SuccessorCopyKeepsOrder(le, t, r2, h);
    SameInorderKeepsOrder(le, n, Rebalance(n));
    BinarySearchTree.SuccessorCopyElems(Elems(l), v, Elems(rt), m);
  }

  /** `RemoveKeepsOrder` and `RemoveKeepsBalance` together, in the implication form that
      `Remove` calls on any tree. */
  lemma RemoveSound<T(!new)>(le: (T, T) -> bool, t: Tree<T>, x: T)
    requires Cached(t)
    ensures TotalOrder(le) && BinarySearchTree.Ordered(le, t) ==> RemovesOne(le, t, x)
    ensures Avl(t) && AvlRemoveRec(le, t, x).Some? ==> Avl(AvlRemoveRec(le, t, x).value)
  {
    if TotalOrder(le) && BinarySearchTree.Ordered(le, t) {
      RemoveKeepsOrder(le, t, x);
    }
    if Avl(t) {
      RemoveKeepsBalance(le, t, x);
    }
  }

  /** `remove(element)`: null throws; an empty tree or an absent value gives `false` and the
      tree unchanged; otherwise one occurrence is removed, the shape restored, and `true`
      returned. */
  function Remove<T(!new)>(le: (T, T) -> bool, t: Tree<T>, x: Option<T>): (r: Result<(bool, Tree<T>)>)
    requires Cached(t)
    ensures x.None? <==> r.Fail?
    ensures r.Fail? ==> r.error == NullPointer
    ensures r.Ok? && !r.value.0 ==> r.value.1 == t
    ensures r.Ok? && Avl(t) ==> Avl(r.value.1)
    ensures r.Ok? && TotalOrder(le) && BinarySearchTree.Ordered(le, t) ==>
      && (r.value.0 <==> x.value in Elems(t))
      && Elems(r.value.1) == Elems(t) - multiset{x.value}
      && BinarySearchTree.Ordered(le, r.value.1)
  {
    match x
    case None => Fail(NullPointer)
    case Some(e) =>
      if IsEmpty(t) then Ok((false, t))
      else
        RemoveSound(le, t, e);
        match AvlRemoveRec(le, t, e)
        case None => Ok((false, t))
        case Some(smaller) => Ok((true, smaller))
  }

  /** The natural order on integers, for the concrete runs below. */
  predicate IntLe(a: int, b: int) {
    a <= b
  }

  function Leaf(x: int): (t: Tree<int>)
    ensures t == NewNode(x) && Avl(t)
  {
    Node(Nil, x, Nil, 0)
  }

  lemma InsertIntoEmpty(x: int)
    ensures AvlInsert(IntLe, Nil, x) == Leaf(x)
  {
  }

  lemma InsertRightOfLeaf(v: int, x: int)
    requires v <= x
    ensures AvlInsert(IntLe, Leaf(v), x) == Node(Nil, v, Leaf(x), 1)
  {
    InsertIntoEmpty(x);
    assert AvlInsert(IntLe, Leaf(v), x) == Rebalance(Node(Nil, v, Leaf(x), 0));
  }

  lemma InsertRightOfChain(a: int, b: int, x: int)
    requires a <= b <= x
    ensures AvlInsert(IntLe, Node(Nil, a, Leaf(b), 1), x)
      == Rebalance(Node(Nil, a, Node(Nil, b, Leaf(x), 1), 1))
  {
    InsertRightOfLeaf(b, x);
  }

  /** A right-leaning chain of three rebalances by one left rotation. */
  lemma RightChainRotates(a: int, b: int, c: int)
    ensures Rebalance(Node(Nil, a, Node(Nil, b, Leaf(c), 1), 1))
      == Node(Leaf(a), b, Leaf(c), 1)
  {
    var n := Node(Nil, a, Node(Nil, b, Leaf(c), 1), 1);
    assert UpdateHeight(n) == n.(height := 2);
    assert Rebalance(n) == RotateLeft(n.(height := 2));
  }

  /** Ties go right on insertion, yet a rotation can carry an equal value to the left: after
      inserting 1 three times the root's left child also holds 1. A strict "left is smaller"
      invariant therefore does not hold for this tree; the non-strict one does. */
  lemma RepeatedValueLandsLeft()
    ensures var t := AvlInsert(IntLe, AvlInsert(IntLe, AvlInsert(IntLe, Nil, 1), 1), 1);
      && t == Node(Leaf(1), 1, Leaf(1), 1)
      && t.left.value == t.value
  {
    InsertIntoEmpty(1);
    var t1 := AvlInsert(IntLe, Nil, 1);
    InsertRightOfLeaf(1, 1);
    var t2 := AvlInsert(IntLe, t1, 1);
    assert t2 == Node(Nil, 1, Leaf(1), 1);
    InsertRightOfChain(1, 1, 1);
    RightChainRotates(1, 1, 1);
  }

  /** Inserting 1, 2, 3 in order triggers a single left rotation that makes 2 the root. */
  lemma AscendingTripleRotates()
    ensures AvlInsert(IntLe, AvlInsert(IntLe, AvlInsert(IntLe, Nil, 1), 2), 3)
      == Node(Leaf(1), 2, Leaf(3), 1)
  {
    InsertIntoEmpty(1);
    var t1 := AvlInsert(IntLe, Nil, 1);
    InsertRightOfLeaf(1, 2);
    var t2 := AvlInsert(IntLe, t1, 2);
    assert t2 == Node(Nil, 1, Leaf(2), 1);
    InsertRightOfChain(1, 2, 3);
    RightChainRotates(1, 2, 3);
  }
}

/** The shared base of the search trees: nodes, height, emptiness, clearing and the three
    traversal orders with their bracketed renderings. */
module BinaryTree {
  import Text

  /** A node owns its value and its two children; `height` is the cached edge-count height
      the balanced variant maintains (a fresh node caches 0, and the unbalanced variant never
      updates it). `Nil` is Java's null child. */
  datatype Tree<T> = Nil | Node(left: Tree<T>, value: T, right: Tree<T>, height: int)

  /** A freshly built node. */
  function NewNode<T>(x: T): (t: Tree<T>)
    ensures t.Node? && t.value == x && t.height == 0
    ensures t.left == Nil && t.right == Nil
    ensures Depth(t) == 0 && Elems(t) == multiset{x}
  {
    Node(Nil, x, Nil, 0)
  }

  function Size<T>(t: Tree<T>): nat {
    match t
    case Nil => 0
    case Node(l, _, r, _) => Size(l) + 1 + Size(r)
  }

  /** The values stored in the tree, with multiplicity. */
  function Elems<T>(t: Tree<T>): multiset<T> {
    match t
    case Nil => multiset{}
    case Node(l, v, r, _) => Elems(l) + multiset{v} + Elems(r)
  }

  function Max(a: int, b: int): int {
    if a >= b then a else b
  }

  /** The recursive edge-count height of a subtree, an absent child counting -1. */
  function Depth<T>(t: Tree<T>): int {
    match t
    case Nil => -1
    case Node(l, _, r, _) => 1 + Max(Depth(l), Depth(r))
  }

  /** The public `height()`: 0 for the empty tree, else the edge-count height of the root. */
  function Height<T>(t: Tree<T>): (h: int)
    ensures h >= 0
    ensures t.Nil? ==> h == 0
    ensures t.Node? && t.left.Nil? && t.right.Nil? ==> h == 0
    ensures t.Node? ==> h == Depth(t) && h + 1 <= Size(t) <= Pow2(h + 1) - 1
  {
    if IsEmpty(t) then 0 else DepthBounds(t); Depth(t)
  }

  predicate IsEmpty<T>(t: Tree<T>)
    ensures IsEmpty(t) <==> Size(t) == 0
  {
    t.Nil?
  }

  function Pow2(n: nat): nat {
    if n == 0 then 1 else 2 * Pow2(n - 1)
  }

  /** A tree of edge-count height h has between h + 1 and 2^(h+1) - 1 nodes. */
  lemma {:induction false} DepthBounds<T>(t: Tree<T>)
    ensures Depth(t) >= -1
    ensures Depth(t) + 1 <= Size(t) <= Pow2(Depth(t) + 1) - 1
  {
    match t
    case Nil =>
    case Node(l, _, r, _) =>
      DepthBounds(l);
      DepthBounds(r);
      var d := Depth(t);
      PowMonotone(Depth(l) + 1, d);
      PowMonotone(Depth(r) + 1, d);
      assert Pow2(d + 1) == 2 * Pow2(d);
      assert Size(l) <= Pow2(d) - 1 && Size(r) <= Pow2(d) - 1;
      assert Size(t) == Size(l) + 1 + Size(r);
  }

  lemma {:induction false} PowMonotone(a: nat, b: nat)
    requires a <= b
    ensures Pow2(a) <= Pow2(b)
    decreases b
  {
    if a < b {
      PowMonotone(a, b - 1);
    }
  }

  /** `clear()`: no root is left. The source's recursion also detaches every child
      bottom-up, which only helps the garbage collector. */
  function Clear<T>(t: Tree<T>): (r: Tree<T>)
    ensures IsEmpty(r) && Elems(r) == multiset{} && Height(r) == 0
  {
    Nil
  }

  /** Reference traversal orders. */
  function Preorder<T>(t: Tree<T>): seq<T> {
    match t
    case Nil => []
    case Node(l, v, r, _) => [v] + Preorder(l) + Preorder(r)
  }

  function Inorder<T>(t: Tree<T>): seq<T> {
    match t
    case Nil => []
    case Node(l, v, r, _) => Inorder(l) + [v] + Inorder(r)
  }

  function Postorder<T>(t: Tree<T>): seq<T> {
    match t
    case Nil => []
    case Node(l, v, r, _) => Postorder(l) + Postorder(r) + [v]
  }

  /** Every traversal visits each node exactly once: each lists the tree's multiset of
      values, one entry per node. */
  lemma {:induction false} PreorderIsPermutation<T>(t: Tree<T>)
    ensures multiset(Preorder(t)) == Elems(t) && |Preorder(t)| == Size(t)
  {
    match t
    case Nil =>
    case Node(l, v, r, _) =>
      PreorderIsPermutation(l);
      PreorderIsPermutation(r);
      assert Preorder(t) == [v] + Preorder(l) + Preorder(r);
  }

  lemma {:induction false} InorderIsPermutation<T>(t: Tree<T>)
    ensures multiset(Inorder(t)) == Elems(t) && |Inorder(t)| == Size(t)
  {
    match t
    case Nil =>
    case Node(l, v, r, _) =>
      InorderIsPermutation(l);
      InorderIsPermutation(r);
      assert Inorder(t) == Inorder(l) + [v] + Inorder(r);
  }

  lemma {:induction false} PostorderIsPermutation<T>(t: Tree<T>)
    ensures multiset(Postorder(t)) == Elems(t) && |Postorder(t)| == Size(t)
  {
    match t
    case Nil =>
    case Node(l, v, r, _) =>
      PostorderIsPermutation(l);
      PostorderIsPermutation(r);
      assert Postorder(t) == Postorder(l) + Postorder(r) + [v];
  }

  /** The three orders are permutations of one another. */
  lemma TraversalsArePermutations<T>(t: Tree<T>)
    ensures multiset(Preorder(t)) == multiset(Inorder(t)) == multiset(Postorder(t)) == Elems(t)
  {
    PreorderIsPermutation(t);
    InorderIsPermutation(t);
    PostorderIsPermutation(t);
  }

  /** The three orders used by the StringBuilder walks. */
  datatype Walk = Pre | In | Post

  function Order<T>(w: Walk, t: Tree<T>): seq<T> {
    match w
    case Pre => Preorder(t)
    case In => Inorder(t)
    case Post => Postorder(t)
  }

  /** The recursive StringBuilder walk: each visited value is appended followed by ", ",
      the node's own value before, between or after its children's walks. */
  function AppendWalk<T>(w: Walk, t: Tree<T>, sb: string, show: T -> string): string {
    match t
    case Nil => sb
    case Node(l, v, r, _) =>
      match w
      case Pre => AppendWalk(w, r, AppendWalk(w, l, sb + show(v) + ", ", show), show)
      case In => AppendWalk(w, r, AppendWalk(w, l, sb, show) + show(v) + ", ", show)
      case Post => AppendWalk(w, r, AppendWalk(w, l, sb, show), show) + show(v) + ", "
  }

  lemma TerminatedShown3<T>(a: seq<T>, b: seq<T>, c: seq<T>, show: T -> string)
    ensures Text.Terminated(Text.Shown(a + b + c, show))
         == Text.Terminated(Text.Shown(a, show)) + Text.Terminated(Text.Shown(b, show))
            + Text.Terminated(Text.Shown(c, show))
  {
    Text.ShownAppend(a + b, c, show);
    Text.ShownAppend(a, b, show);
    Text.TerminatedAppend(Text.Shown(a, show) + Text.Shown(b, show), Text.Shown(c, show));
    Text.TerminatedAppend(Text.Shown(a, show), Text.Shown(b, show));
  }

  lemma TerminatedOne<T>(v: T, show: T -> string)
    ensures Text.Terminated(Text.Shown([v], show)) == show(v) + ", "
  {
    assert Text.Shown([v], show) == [show(v)];
    assert Text.Terminated([show(v)]) == show(v) + ", " + Text.Terminated([]);
  }

  lemma {:induction false} PreWalk<T>(t: Tree<T>, sb: string, show: T -> string)
    ensures AppendWalk(Pre, t, sb, show) == sb + Text.Terminated(Text.Shown(Preorder(t), show))
  {
    match t
    case Nil =>
    case Node(l, v, r, _) =>
      var sb1 := sb + show(v) + ", ";
      PreWalk(l, sb1, show);
      PreWalk(r, AppendWalk(Pre, l, sb1, show), show);
      TerminatedOne(v, show);
      TerminatedShown3([v], Preorder(l), Preorder(r), show);
  }

  lemma {:induction false} InWalk<T>(t: Tree<T>, sb: string, show: T -> string)
    ensures AppendWalk(In, t, sb, show) == sb + Text.Terminated(Text.Shown(Inorder(t), show))
  {
    match t
    case Nil =>
    case Node(l, v, r, _) =>
      InWalk(l, sb, show);
      InWalk(r, AppendWalk(In, l, sb, show) + show(v) + ", ", show);
      TerminatedOne(v, show);
      TerminatedShown3(Inorder(l), [v], Inorder(r), show);
  }

  /** String concatenation regrouped. */
  lemma Regroup(a: string, b: string, c: string, d: string)
    ensures (a + b) + c + d == a + (b + c + d)
  {
  }

  lemma {:induction false} PostWalk<T>(t: Tree<T>, sb: string, show: T -> string)
    ensures AppendWalk(Post, t, sb, show) == sb + Text.Terminated(Text.Shown(Postorder(t), show))
  {
    match t
    case Nil =>
    case Node(l, v, r, _) =>
      var tl := Text.Terminated(Text.Shown(Postorder(l), show));
      var tr := Text.Terminated(Text.Shown(Postorder(r), show));
      var sl := AppendWalk(Post, l, sb, show);
      PostWalk(l, sb, show);
      PostWalk(r, sl, show);
      TerminatedOne(v, show);
      TerminatedShown3(Postorder(l), Postorder(r), [v], show);
      Regroup(sb, tl, tr, show(v) + ", ");
  }

  /** The StringBuilder walk appends exactly the reference order, each value followed by ", ". */
  lemma AppendWalkTerminated<T>(w: Walk, t: Tree<T>, sb: string, show: T -> string)
    ensures AppendWalk(w, t, sb, show) == sb + Text.Terminated(Text.Shown(Order(w, t), show))
  {
    match w
    case Pre => PreWalk(t, sb, show);
    case In => InWalk(t, sb, show);
    case Post => PostWalk(t, sb, show);
  }

  lemma WalkRendering<T>(w: Walk, t: Tree<T>, show: T -> string)
    requires t.Node?
    ensures var sb := AppendWalk(w, t, "[", show);
      |sb| >= 2 && sb[..|sb| - 2] + "]" == Text.Render(Order(w, t), show)
  {
    var parts := Text.Shown(Order(w, t), show);
    assert |Order(w, t)| > 0 by {
      match w
      case Pre => assert Preorder(t) == [t.value] + Preorder(t.left) + Preorder(t.right);
      case In => assert Inorder(t) == Inorder(t.left) + [t.value] + Inorder(t.right);
      case Post => assert Postorder(t) == Postorder(t.left) + Postorder(t.right) + [t.value];
    }
    AppendWalkTerminated(w, t, "[", show);
    Text.TerminatedIsJoinPlusSeparator(parts);
    var sb := AppendWalk(w, t, "[", show);
    assert sb == "[" + Text.Join(parts) + ", ";
    assert sb[..|sb| - 2] == "[" + Text.Join(parts);
  }

  /** `preorderTraversal()`, `inorderTraversal()`, `postorderTraversal()`: `[]` for an empty
      tree, else the walk's output with its trailing ", " deleted and a closing bracket. */
  function Traversal<T>(w: Walk, t: Tree<T>, show: T -> string): (s: string)
    ensures s == Text.Render(Order(w, t), show)
  {
    if IsEmpty(t) then
      "[]"
    else
      WalkRendering(w, t, show);
      var sb := AppendWalk(w, t, "[", show);
      sb[..|sb| - 2] + "]"
  }

  /** `toString()` is the inorder rendering. */
  function ToString<T>(t: Tree<T>, show: T -> string): (s: string)
    ensures s == Text.Render(Inorder(t), show)
    ensures IsEmpty(t) ==> s == "[]"
  {
    Traversal(In, t, show)
  }
}

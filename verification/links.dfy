/** Singly linked `_Node`s as a heap: `cells[r]` is the node named `r`, and a `next` of
    `NULL` is a null link. A `spine` lists the nodes of a structure in link order; it is the
    abstraction that connects a heap to the sequence of elements it represents. `new _Node`
    appends a cell, so a fresh node's name is the old number of cells. */
module Links {
  import opened Positions

  const NULL: int := -1

  datatype Cell<T> = Cell(element: T, next: int)

  /** Every name in `spine` is an allocated cell. */
  predicate Allocated<T>(cells: seq<Cell<T>>, spine: seq<int>) {
    forall i :: 0 <= i < |spine| ==> 0 <= spine[i] < |cells|
  }

  /** No node occurs twice in `spine`. */
  predicate Distinct(spine: seq<int>) {
    forall i, j :: 0 <= i < j < |spine| ==> spine[i] != spine[j]
  }

  /** `spine` names distinct allocated cells, each linked to the next one. */
  predicate Linked<T>(cells: seq<Cell<T>>, spine: seq<int>) {
    && Allocated(cells, spine)
    && Distinct(spine)
    && (forall i :: 0 <= i < |spine| - 1 ==> cells[spine[i]].next == spine[i + 1])
  }

  /** The null-terminated chain from `first` to `last` visits exactly `spine`. */
  predicate Linear<T>(cells: seq<Cell<T>>, first: int, last: int, spine: seq<int>) {
    && Linked(cells, spine)
    && (|spine| == 0 ==> first == NULL && last == NULL)
    && (|spine| > 0 ==> first == spine[0] && last == spine[|spine| - 1]
                        && cells[last].next == NULL)
  }

  /** The ring from `front` round to `rear`, whose `next` is `front` again, visits exactly
      `spine`. */
  predicate Ring<T>(cells: seq<Cell<T>>, front: int, rear: int, spine: seq<int>) {
    && Linked(cells, spine)
    && (|spine| == 0 ==> front == NULL && rear == NULL)
    && (|spine| > 0 ==> front == spine[0] && rear == spine[|spine| - 1]
                        && cells[rear].next == front)
  }

  /** The elements along `spine`. */
  function Values<T>(cells: seq<Cell<T>>, spine: seq<int>): (vs: seq<T>)
    requires Allocated(cells, spine)
    ensures |vs| == |spine|
    ensures forall i :: 0 <= i < |spine| ==> vs[i] == cells[spine[i]].element
  {
    seq(|spine|, i requires 0 <= i < |spine| => cells[spine[i]].element)
  }

  /** `node.setNext(n)`. */
  function SetNext<T>(cells: seq<Cell<T>>, node: int, n: int): (r: seq<Cell<T>>)
    requires 0 <= node < |cells|
    ensures |r| == |cells| && r[node] == Cell(cells[node].element, n)
    ensures forall x :: 0 <= x < |cells| && x != node ==> r[x] == cells[x]
  {
    cells[node := cells[node].(next := n)]
  }

  /** The first link of a spine of two or more nodes leads to an allocated node. */
  lemma SecondNode<T>(cells: seq<Cell<T>>, spine: seq<int>)
    requires Linked(cells, spine) && |spine| > 1
    ensures cells[spine[0]].next == spine[1] && 0 <= spine[1] < |cells|
  {
  }

  /** The abstraction is determined by the heap: two spines of the same chain agree. */
  lemma {:induction false} LinkedPrefixUnique<T>(cells: seq<Cell<T>>, s: seq<int>, t: seq<int>, k: nat)
    requires Linked(cells, s) && Linked(cells, t) && |s| > 0 && |t| > 0 && s[0] == t[0]
    requires k < |s| && k < |t|
    ensures s[..k + 1] == t[..k + 1]
  {
    if k > 0 {
      LinkedPrefixUnique(cells, s, t, k - 1);
      assert s[k] == cells[s[k - 1]].next == cells[t[k - 1]].next == t[k];
      assert s[..k + 1] == s[..k] + [s[k]] && t[..k + 1] == t[..k] + [t[k]];
    }
  }

  /** A null-terminated chain has exactly one spine. */
  lemma LinearUnique<T>(cells: seq<Cell<T>>, first: int, last: int, s: seq<int>, t: seq<int>)
    requires Linear(cells, first, last, s) && Linear(cells, first, last, t)
    ensures s == t
  {
    if |s| > 0 && |t| > 0 {
      if |s| < |t| {
        LinkedPrefixUnique(cells, s, t, |s| - 1);
      } else if |t| < |s| {
        LinkedPrefixUnique(cells, s, t, |t| - 1);
      } else {
        LinkedPrefixUnique(cells, s, t, |s| - 1);
        assert s == s[..|s|] && t == t[..|t|];
      }
    }
  }

  /** Appending a fresh cell after the last node (`last.setNext(newNode)`) extends the
      spine by the fresh name and the elements by its element. */
  lemma Snoc<T>(cells: seq<Cell<T>>, spine: seq<int>, e: T, next: int)
    requires Linked(cells, spine) && |spine| > 0
    ensures Linked(SetNext(cells + [Cell(e, next)], spine[|spine| - 1], |cells|),
                   spine + [|cells|])
    ensures Values(SetNext(cells + [Cell(e, next)], spine[|spine| - 1], |cells|),
                   spine + [|cells|])
         == Values(cells, spine) + [e]
  {
    var c := SetNext(cells + [Cell(e, next)], spine[|spine| - 1], |cells|);
    var s := spine + [|cells|];
    forall i | 0 <= i < |s| - 1
      ensures c[s[i]].next == s[i + 1]
    {
      if i < |spine| - 1 {
        assert s[i] != spine[|spine| - 1];
      }
    }
    forall i | 0 <= i < |s|
      ensures c[s[i]].element == (Values(cells, spine) + [e])[i]
    {
    }
  }

  /** A fresh cell linked to the first node (`new _Node<>(e, first)`) heads a spine one
      longer. */
  lemma Cons<T>(cells: seq<Cell<T>>, spine: seq<int>, e: T)
    requires Linked(cells, spine)
    ensures Linked(cells + [Cell(e, if |spine| == 0 then NULL else spine[0])], [|cells|] + spine)
    ensures Values(cells + [Cell(e, if |spine| == 0 then NULL else spine[0])], [|cells|] + spine)
         == [e] + Values(cells, spine)
  {
    var c := cells + [Cell(e, if |spine| == 0 then NULL else spine[0])];
    var s := [|cells|] + spine;
    forall i | 0 <= i < |s| - 1
      ensures c[s[i]].next == s[i + 1]
    {
      if i > 0 {
        assert s[i] == spine[i - 1] && s[i + 1] == spine[i];
      }
    }
  }

  /** Dropping the first node leaves a spine of the rest. */
  lemma Tail<T>(cells: seq<Cell<T>>, spine: seq<int>)
    requires Linked(cells, spine) && |spine| > 0
    ensures Linked(cells, spine[1..])
    ensures Values(cells, spine[1..]) == Values(cells, spine)[1..]
  {
    forall i | 0 <= i < |spine[1..]| - 1
      ensures cells[spine[1..][i]].next == spine[1..][i + 1]
    {
      assert spine[1..][i] == spine[i + 1];
    }
  }

  /** `node.setNext(node.getNext().getNext())` on the node at spine position `k` takes its
      successor out of the spine. */
  lemma Unlink<T>(cells: seq<Cell<T>>, spine: seq<int>, k: int)
    requires Linked(cells, spine) && 0 <= k && k + 1 < |spine|
    ensures Linked(SetNext(cells, spine[k], cells[spine[k + 1]].next), Removed(spine, k + 1))
    ensures Values(SetNext(cells, spine[k], cells[spine[k + 1]].next), Removed(spine, k + 1))
         == Removed(Values(cells, spine), k + 1)
  {
    var c := SetNext(cells, spine[k], cells[spine[k + 1]].next);
    var s := Removed(spine, k + 1);
    forall i | 0 <= i < |s| - 1
      ensures c[s[i]].next == s[i + 1]
    {
      if i < k {
        assert s[i] == spine[i] != spine[k] && s[i + 1] == spine[i + 1];
      } else if i == k {
        assert s[i + 1] == spine[k + 2] == cells[spine[k + 1]].next;
      } else {
        assert s[i] == spine[i + 1] != spine[k] && s[i + 1] == spine[i + 2];
      }
    }
    forall i, j | 0 <= i < j < |s|
      ensures s[i] != s[j]
    {
      var i2, j2 := if i <= k then i else i + 1, if j <= k then j else j + 1;
      assert s[i] == spine[i2] && s[j] == spine[j2];
    }
    forall i | 0 <= i < |s|
      ensures c[s[i]].element == Removed(Values(cells, spine), k + 1)[i]
    {
    }
  }

  /** Unlinking in a null-terminated chain keeps it null-terminated; its last node is the
      unlinking node when the successor was the last one. */
  lemma UnlinkLinear<T>(cells: seq<Cell<T>>, first: int, last: int, spine: seq<int>, k: int)
    requires Linear(cells, first, last, spine) && 0 <= k && k + 1 < |spine|
    ensures Linear(SetNext(cells, spine[k], cells[spine[k + 1]].next), first,
                   if k + 1 == |spine| - 1 then spine[k] else last, Removed(spine, k + 1))
  {
    Unlink(cells, spine, k);
    var s := Removed(spine, k + 1);
    assert s[0] == spine[0];
    assert s[|s| - 1] == if k + 1 == |spine| - 1 then spine[k] else last;
  }

  /** `node.setNext(new _Node<>(e, node.getNext()))` on the node at spine position `k`
      puts a fresh node right after it. */
  lemma LinkIn<T>(cells: seq<Cell<T>>, spine: seq<int>, k: int, e: T)
    requires Linked(cells, spine) && 0 <= k < |spine|
    ensures Linked(SetNext(cells + [Cell(e, cells[spine[k]].next)], spine[k], |cells|),
                   Inserted(spine, k + 1, |cells|))
    ensures Values(SetNext(cells + [Cell(e, cells[spine[k]].next)], spine[k], |cells|),
                   Inserted(spine, k + 1, |cells|))
         == Inserted(Values(cells, spine), k + 1, e)
  {
    var c := SetNext(cells + [Cell(e, cells[spine[k]].next)], spine[k], |cells|);
    var s := Inserted(spine, k + 1, |cells|);
    forall i | 0 <= i < |s| - 1
      ensures c[s[i]].next == s[i + 1]
    {
      if i < k {
        assert s[i] == spine[i] != spine[k] && s[i + 1] == spine[i + 1];
      } else if i == k {
        assert s[i] == spine[k] && s[i + 1] == |cells|;
      } else if i == k + 1 {
        assert s[i] == |cells| && s[i + 1] == spine[k + 1] == cells[spine[k]].next;
      } else {
        assert s[i] == spine[i - 1] != spine[k] && s[i + 1] == spine[i];
      }
    }
    forall i, j | 0 <= i < j < |s|
      ensures s[i] != s[j]
    {
      if i != k + 1 && j != k + 1 {
        var i2, j2 := if i <= k then i else i - 1, if j <= k then j else j - 1;
        assert s[i] == spine[i2] && s[j] == spine[j2];
      }
    }
    forall i | 0 <= i < |s|
      ensures c[s[i]].element == Inserted(Values(cells, spine), k + 1, e)[i]
    {
      if i != k + 1 {
        var i2 := if i <= k then i else i - 1;
        assert s[i] == spine[i2] && s[i] != |cells|;
      }
    }
  }

  /** A fresh node put in front of a null-terminated chain (`first = new _Node<>(e, first)`)
      heads a null-terminated chain with the same last node. */
  lemma ConsLinear<T>(cells: seq<Cell<T>>, first: int, last: int, spine: seq<int>, e: T)
    requires Linear(cells, first, last, spine) && |spine| > 0
    ensures Linear(cells + [Cell(e, first)], |cells|, last, [|cells|] + spine)
    ensures Values(cells + [Cell(e, first)], [|cells|] + spine) == [e] + Values(cells, spine)
  {
    Cons(cells, spine, e);
  }

  /** A fresh node linked in after spine position `k` of a null-terminated chain; it is the
      new last node exactly when it was linked after the old one. */
  lemma LinkInLinear<T>(cells: seq<Cell<T>>, first: int, last: int, spine: seq<int>, k: int, e: T)
    requires Linear(cells, first, last, spine) && 0 <= k < |spine|
    ensures Linear(SetNext(cells + [Cell(e, cells[spine[k]].next)], spine[k], |cells|), first,
                   if k + 1 == |spine| then |cells| else last, Inserted(spine, k + 1, |cells|))
    ensures Values(SetNext(cells + [Cell(e, cells[spine[k]].next)], spine[k], |cells|),
                   Inserted(spine, k + 1, |cells|))
         == Inserted(Values(cells, spine), k + 1, e)
  {
    LinkIn(cells, spine, k, e);
    var s := Inserted(spine, k + 1, |cells|);
    assert s[0] == spine[0] || k + 1 == 0;
    assert s[|s| - 1] == if k + 1 == |spine| then |cells| else last;
  }

  /** Unlinking in a ring keeps it a ring; the unlinking node becomes the rear when its
      successor was the rear. */
  lemma RingUnlink<T>(cells: seq<Cell<T>>, front: int, rear: int, spine: seq<int>, k: int)
    requires Ring(cells, front, rear, spine) && 0 <= k && k + 1 < |spine|
    ensures spine[k + 1] == rear <==> k + 1 == |spine| - 1
    ensures Ring(SetNext(cells, spine[k], cells[spine[k + 1]].next), front,
                 if spine[k + 1] == rear then spine[k] else rear, Removed(spine, k + 1))
  {
    Unlink(cells, spine, k);
    var s := Removed(spine, k + 1);
    assert s[0] == spine[0];
    assert s[|s| - 1] == if k + 1 == |spine| - 1 then spine[k] else rear;
  }

  /** Relinking the last node of a spine (`rear.setNext(front)`) keeps the spine. */
  lemma RelinkLast<T>(cells: seq<Cell<T>>, spine: seq<int>, n: int)
    requires Linked(cells, spine) && |spine| > 0
    ensures Linked(SetNext(cells, spine[|spine| - 1], n), spine)
    ensures Values(SetNext(cells, spine[|spine| - 1], n), spine) == Values(cells, spine)
  {
    var c := SetNext(cells, spine[|spine| - 1], n);
    forall i | 0 <= i < |spine| - 1
      ensures c[spine[i]].next == spine[i + 1]
    {
      assert spine[i] != spine[|spine| - 1];
    }
  }

  /** A freshly allocated cell changes no spine. */
  lemma Alloc<T>(cells: seq<Cell<T>>, spine: seq<int>, c: Cell<T>)
    requires Linked(cells, spine)
    ensures Linked(cells + [c], spine)
    ensures Values(cells + [c], spine) == Values(cells, spine)
  {
    forall i | 0 <= i < |spine| - 1
      ensures (cells + [c])[spine[i]].next == spine[i + 1]
    {
    }
  }
}

/** Doubly linked `_Node`s as a heap, as in `Links` but with a `previous` link as well.
    A spine lists the nodes of a list in link order; a node's `previous` and `next` are its
    neighbours on the spine, or `NULL` at the two ends. */
module DoubleLinks {
  import opened Positions
  import Links

  const NULL: int := Links.NULL

  datatype DCell<T> = DCell(previous: int, element: T, next: int)

  /** The node before position `i` of `spine`, or `NULL` at the front. */
  function Before(spine: seq<int>, i: int): int
    requires 0 <= i < |spine|
  {
    if i == 0 then NULL else spine[i - 1]
  }

  /** The node after position `i` of `spine`, or `NULL` at the end. */
  function After(spine: seq<int>, i: int): int
    requires 0 <= i < |spine|
  {
    if i == |spine| - 1 then NULL else spine[i + 1]
  }

  /** The first node of `spine`, or `NULL`. */
  function Head(spine: seq<int>): int {
    if |spine| == 0 then NULL else spine[0]
  }

  /** The last node of `spine`, or `NULL`. */
  function Rear(spine: seq<int>): int {
    if |spine| == 0 then NULL else spine[|spine| - 1]
  }

  /** Every name in `spine` is an allocated cell. */
  predicate Allocated<T>(cells: seq<DCell<T>>, spine: seq<int>) {
    forall i :: 0 <= i < |spine| ==> 0 <= spine[i] < |cells|
  }

  /** The node at position `i` links back to its predecessor and on to its successor. */
  predicate LinkedAt<T>(cells: seq<DCell<T>>, spine: seq<int>, i: int)
    requires Allocated(cells, spine) && 0 <= i < |spine|
  {
    cells[spine[i]].previous == Before(spine, i) && cells[spine[i]].next == After(spine, i)
  }

  /** `spine` names distinct allocated cells whose `previous` and `next` links agree with
      their neighbours on the spine. */
  predicate Chained<T>(cells: seq<DCell<T>>, spine: seq<int>) {
    && Allocated(cells, spine)
    && Links.Distinct(spine)
    && (forall i :: 0 <= i < |spine| ==> LinkedAt(cells, spine, i))
  }

  /** The elements along `spine`. */
  function Values<T>(cells: seq<DCell<T>>, spine: seq<int>): (vs: seq<T>)
    requires Allocated(cells, spine)
    ensures |vs| == |spine|
    ensures forall i :: 0 <= i < |spine| ==> vs[i] == cells[spine[i]].element
  {
    seq(|spine|, i requires 0 <= i < |spine| => cells[spine[i]].element)
  }

  /** `node.setNext(n)`. */
  function SetNext<T>(cells: seq<DCell<T>>, node: int, n: int): (r: seq<DCell<T>>)
    requires 0 <= node < |cells|
    ensures |r| == |cells| && r[node] == cells[node].(next := n)
    ensures forall x :: 0 <= x < |cells| && x != node ==> r[x] == cells[x]
  {
    cells[node := cells[node].(next := n)]
  }

  /** `node.setPrevious(p)`. */
  function SetPrevious<T>(cells: seq<DCell<T>>, node: int, p: int): (r: seq<DCell<T>>)
    requires 0 <= node < |cells|
    ensures |r| == |cells| && r[node] == cells[node].(previous := p)
    ensures forall x :: 0 <= x < |cells| && x != node ==> r[x] == cells[x]
  {
    cells[node := cells[node].(previous := p)]
  }

  /** `node.setElement(e)`. */
  function SetElement<T>(cells: seq<DCell<T>>, node: int, e: T): (r: seq<DCell<T>>)
    requires 0 <= node < |cells|
    ensures |r| == |cells| && r[node] == cells[node].(element := e)
    ensures forall x :: 0 <= x < |cells| && x != node ==> r[x] == cells[x]
  {
    cells[node := cells[node].(element := e)]
  }

  /** The links of `add(e)`: a fresh node whose `previous` is the old rear, linked from the
      old rear when there is one. */
  function Appended<T>(cells: seq<DCell<T>>, spine: seq<int>, e: T): (r: seq<DCell<T>>)
    requires Allocated(cells, spine)
  {
    var c := cells + [DCell(Rear(spine), e, NULL)];
    if |spine| == 0 then c else SetNext(c, Rear(spine), |cells|)
  }

  lemma Append<T>(cells: seq<DCell<T>>, spine: seq<int>, e: T)
    requires Chained(cells, spine)
    ensures Chained(Appended(cells, spine, e), spine + [|cells|])
    ensures Values(Appended(cells, spine, e), spine + [|cells|]) == Values(cells, spine) + [e]
  {
    var n := |cells|;
    var s := spine + [n];
    forall i, j | 0 <= i < j < |s|
      ensures s[i] != s[j]
    {
      if j < |spine| {
        assert s[i] == spine[i] && s[j] == spine[j];
      }
    }
    forall i | 0 <= i < |s|
      ensures LinkedAt(Appended(cells, spine, e), s, i)
    {
      AppendAt(cells, spine, e, i);
    }
  }

  lemma AppendAt<T>(cells: seq<DCell<T>>, spine: seq<int>, e: T, i: int)
    requires Chained(cells, spine) && 0 <= i <= |spine|
    ensures Allocated(Appended(cells, spine, e), spine + [|cells|])
    ensures LinkedAt(Appended(cells, spine, e), spine + [|cells|], i)
  {
    var n := |cells|;
    var c := Appended(cells, spine, e);
    var s := spine + [n];
    if i < |spine| - 1 {
      assert LinkedAt(cells, spine, i);
      assert s[i] == spine[i] != spine[|spine| - 1] && s[i + 1] == spine[i + 1];
      assert c[s[i]] == cells[spine[i]];
      assert i > 0 ==> s[i - 1] == spine[i - 1];
    } else if i == |spine| - 1 {
      assert LinkedAt(cells, spine, i);
      assert s[i] == spine[i] && s[i + 1] == n;
      assert c[s[i]] == cells[spine[i]].(next := n);
      assert i > 0 ==> s[i - 1] == spine[i - 1];
    } else {
      assert s[i] == n && c[n] == DCell(Rear(spine), e, NULL);
    }
  }

  /** The links of `add(index, e)` before the node at position `k`: a fresh node between
      that node and its predecessor, linked from both. */
  function InsertedBefore<T>(cells: seq<DCell<T>>, spine: seq<int>, k: int, e: T): (r: seq<DCell<T>>)
    requires Allocated(cells, spine) && 0 <= k < |spine|
  {
    var next := spine[k];
    var previous := Before(spine, k);
    var c := SetPrevious(cells + [DCell(previous, e, next)], next, |cells|);
    if previous == NULL then c else SetNext(c, previous, |cells|)
  }

  lemma InsertBefore<T>(cells: seq<DCell<T>>, spine: seq<int>, k: int, e: T)
    requires Chained(cells, spine) && 0 <= k < |spine|
    ensures Chained(InsertedBefore(cells, spine, k, e), Inserted(spine, k, |cells|))
    ensures Values(InsertedBefore(cells, spine, k, e), Inserted(spine, k, |cells|))
         == Inserted(Values(cells, spine), k, e)
  {
    InsertedDistinct(cells, spine, k);
    InsertBeforeLinks(cells, spine, k, e);
    InsertBeforeValues(cells, spine, k, e);
  }

  /** A fresh cell inserted into a spine of distinct allocated cells keeps it distinct. */
  lemma InsertedDistinct<T>(cells: seq<DCell<T>>, spine: seq<int>, k: int)
    requires Allocated(cells, spine) && Links.Distinct(spine) && 0 <= k <= |spine|
    ensures Links.Distinct(Inserted(spine, k, |cells|))
  {
    var s := Inserted(spine, k, |cells|);
    forall i, j | 0 <= i < j < |s|
      ensures s[i] != s[j]
    {
      if i != k && j != k {
        var i2, j2 := if i < k then i else i - 1, if j < k then j else j - 1;
        assert s[i] == spine[i2] && s[j] == spine[j2];
      }
    }
  }

  /** After the insertion every position of the longer spine is linked to its neighbours. */
  lemma InsertBeforeLinks<T>(cells: seq<DCell<T>>, spine: seq<int>, k: int, e: T)
    requires Chained(cells, spine) && 0 <= k < |spine|
    ensures Allocated(InsertedBefore(cells, spine, k, e), Inserted(spine, k, |cells|))
    ensures forall i :: 0 <= i < |spine| + 1 ==>
      LinkedAt(InsertedBefore(cells, spine, k, e), Inserted(spine, k, |cells|), i)
  {
    InsertBeforeAt(cells, spine, k, e, 0);
    forall i | 0 <= i < |spine| + 1
      ensures LinkedAt(InsertedBefore(cells, spine, k, e), Inserted(spine, k, |cells|), i)
    {
      InsertBeforeAt(cells, spine, k, e, i);
    }
  }

  /** After the insertion the spine reads the old elements with `e` at position `k`. */
  lemma InsertBeforeValues<T>(cells: seq<DCell<T>>, spine: seq<int>, k: int, e: T)
    requires Chained(cells, spine) && 0 <= k < |spine|
    ensures Allocated(InsertedBefore(cells, spine, k, e), Inserted(spine, k, |cells|))
    ensures Values(InsertedBefore(cells, spine, k, e), Inserted(spine, k, |cells|))
         == Inserted(Values(cells, spine), k, e)
  {
    var c := InsertedBefore(cells, spine, k, e);
    var s := Inserted(spine, k, |cells|);
    InsertBeforeAt(cells, spine, k, e, 0);
    forall i | 0 <= i < |s|
      ensures c[s[i]].element == Inserted(Values(cells, spine), k, e)[i]
    {
      InsertBeforeAt(cells, spine, k, e, i);
      if i != k {
        var i2 := if i < k then i else i - 1;
        assert s[i] == spine[i2];
      }
    }
  }

  lemma InsertBeforeAt<T>(cells: seq<DCell<T>>, spine: seq<int>, k: int, e: T, i: int)
    requires Chained(cells, spine) && 0 <= k < |spine| && 0 <= i <= |spine|
    ensures Allocated(InsertedBefore(cells, spine, k, e), Inserted(spine, k, |cells|))
    ensures LinkedAt(InsertedBefore(cells, spine, k, e), Inserted(spine, k, |cells|), i)
    ensures i != k ==> InsertedBefore(cells, spine, k, e)[Inserted(spine, k, |cells|)[i]].element
                       == cells[Inserted(spine, k, |cells|)[i]].element
  {
    var n := |cells|;
    var c := InsertedBefore(cells, spine, k, e);
    var s := Inserted(spine, k, n);
    assert LinkedAt(cells, spine, k);
    assert k > 0 ==> Before(spine, k) == spine[k - 1] != spine[k];
    if i < k - 1 {
      assert LinkedAt(cells, spine, i);
      assert s[i] == spine[i] != spine[k - 1] && s[i] != spine[k] && s[i + 1] == spine[i + 1];
      assert c[s[i]] == cells[spine[i]];
      assert i > 0 ==> s[i - 1] == spine[i - 1];
    } else if i == k - 1 {
      assert LinkedAt(cells, spine, i);
      assert s[i] == spine[k - 1] != spine[k] && s[i + 1] == n;
      assert c[s[i]] == cells[spine[i]].(next := n);
      assert i > 0 ==> s[i - 1] == spine[i - 1];
    } else if i == k {
      assert s[i] == n && s[i + 1] == spine[k];
      assert c[n] == DCell(Before(spine, k), e, spine[k]);
      assert k > 0 ==> s[i - 1] == spine[k - 1];
    } else if i == k + 1 {
      assert s[i] == spine[k] && s[i - 1] == n;
      assert c[s[i]] == cells[spine[k]].(previous := n);
      assert i < |spine| ==> s[i + 1] == spine[i];
    } else {
      assert LinkedAt(cells, spine, i - 1);
      assert s[i] == spine[i - 1] != spine[k] && s[i - 1] == spine[i - 2];
      assert k > 0 ==> s[i] != spine[k - 1];
      assert c[s[i]] == cells[spine[i - 1]];
      assert i < |spine| ==> s[i + 1] == spine[i];
    }
  }

  /** The links of `unlink(node)` for the node at position `k`: its predecessor (or
      `first`) is linked to its successor and its successor (or `last`) back to its
      predecessor. */
  function Unlinked<T>(cells: seq<DCell<T>>, spine: seq<int>, k: int): (r: seq<DCell<T>>)
    requires Allocated(cells, spine) && 0 <= k < |spine|
  {
    var previous := Before(spine, k);
    var next := After(spine, k);
    var c := if previous == NULL then cells else SetNext(cells, previous, next);
    if next == NULL then c else SetPrevious(c, next, previous)
  }

  lemma Unlink<T>(cells: seq<DCell<T>>, spine: seq<int>, k: int)
    requires Chained(cells, spine) && 0 <= k < |spine|
    ensures Chained(Unlinked(cells, spine, k), Removed(spine, k))
    ensures Values(Unlinked(cells, spine, k), Removed(spine, k)) == Removed(Values(cells, spine), k)
  {
    var c := Unlinked(cells, spine, k);
    var s := Removed(spine, k);
    forall i, j | 0 <= i < j < |s|
      ensures s[i] != s[j]
    {
      var i2, j2 := if i < k then i else i + 1, if j < k then j else j + 1;
      assert s[i] == spine[i2] && s[j] == spine[j2];
    }
    forall i | 0 <= i < |s|
      ensures LinkedAt(c, s, i)
    {
      UnlinkAt(cells, spine, k, i);
    }
    forall i | 0 <= i < |s|
      ensures c[s[i]].element == Removed(Values(cells, spine), k)[i]
    {
      UnlinkAt(cells, spine, k, i);
      var i2 := if i < k then i else i + 1;
      assert s[i] == spine[i2];
    }
  }

  lemma UnlinkAt<T>(cells: seq<DCell<T>>, spine: seq<int>, k: int, i: int)
    requires Chained(cells, spine) && 0 <= k < |spine| && 0 <= i < |spine| - 1
    ensures Allocated(Unlinked(cells, spine, k), Removed(spine, k))
    ensures LinkedAt(Unlinked(cells, spine, k), Removed(spine, k), i)
    ensures Unlinked(cells, spine, k)[Removed(spine, k)[i]].element
         == cells[Removed(spine, k)[i]].element
  {
    var c := Unlinked(cells, spine, k);
    var s := Removed(spine, k);
    if i < k - 1 {
      assert LinkedAt(cells, spine, i);
      assert s[i] == spine[i] != spine[k - 1] && s[i + 1] == spine[i + 1];
      assert k + 1 < |spine| ==> s[i] != spine[k + 1];
      assert c[s[i]] == cells[spine[i]];
      assert i > 0 ==> s[i - 1] == spine[i - 1];
    } else if i == k - 1 {
      assert LinkedAt(cells, spine, i);
      assert s[i] == spine[k - 1] && s[i] != spine[k];
      assert k + 1 < |spine| ==> s[i] != spine[k + 1] && s[i + 1] == spine[k + 1];
      assert c[s[i]] == cells[spine[i]].(next := After(spine, k));
      assert i > 0 ==> s[i - 1] == spine[i - 1];
    } else if i == k {
      assert LinkedAt(cells, spine, k + 1);
      assert s[i] == spine[k + 1] && s[i] != spine[k];
      assert k > 0 ==> s[i] != spine[k - 1] && s[i - 1] == spine[k - 1];
      assert c[s[i]] == cells[spine[k + 1]].(previous := Before(spine, k));
      assert i < |s| - 1 ==> s[i + 1] == spine[k + 2];
    } else {
      assert LinkedAt(cells, spine, i + 1);
      assert s[i] == spine[i + 1] != spine[k + 1] && s[i - 1] == spine[i];
      assert k > 0 ==> s[i] != spine[k - 1];
      assert c[s[i]] == cells[spine[i + 1]];
      assert i < |s| - 1 ==> s[i + 1] == spine[i + 2];
    }
  }

  /** Where `first` and `last` end up after inserting a node before position `k`. */
  lemma InsertedEnds<T>(cells: seq<DCell<T>>, spine: seq<int>, k: int, n: int)
    requires Allocated(cells, spine) && 0 <= k < |spine|
    ensures Before(spine, k) == NULL <==> k == 0
    ensures Head(Inserted(spine, k, n)) == if k == 0 then n else Head(spine)
    ensures Rear(Inserted(spine, k, n)) == Rear(spine)
  {
  }

  /** Where `first` and `last` end up after unlinking the node at position `k`. */
  lemma RemovedEnds<T>(cells: seq<DCell<T>>, spine: seq<int>, k: int)
    requires Allocated(cells, spine) && 0 <= k < |spine|
    ensures Before(spine, k) == NULL <==> k == 0
    ensures After(spine, k) == NULL <==> k == |spine| - 1
    ensures Head(Removed(spine, k)) == if k == 0 then After(spine, k) else Head(spine)
    ensures Rear(Removed(spine, k)) == if k == |spine| - 1 then Before(spine, k) else Rear(spine)
  {
  }

  /** Overwriting the element of the node at position `k` keeps the links. */
  lemma Overwrite<T>(cells: seq<DCell<T>>, spine: seq<int>, k: int, e: T)
    requires Chained(cells, spine) && 0 <= k < |spine|
    ensures Chained(SetElement(cells, spine[k], e), spine)
    ensures Values(SetElement(cells, spine[k], e), spine) == Values(cells, spine)[k := e]
  {
    var c := SetElement(cells, spine[k], e);
    forall i | 0 <= i < |spine|
      ensures LinkedAt(c, spine, i)
    {
      assert LinkedAt(cells, spine, i);
      assert i != k ==> spine[i] != spine[k];
    }
    forall i | 0 <= i < |spine|
      ensures c[spine[i]].element == Values(cells, spine)[k := e][i]
    {
      if i != k {
        assert spine[i] != spine[k];
      }
    }
  }
}

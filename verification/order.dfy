/** The ordering a `Comparable<T>` provides, as a relation `le(a, b)` meaning
    `a.compareTo(b) <= 0`. */
module Order {

  /** `le` is a total order: what `compareTo` promises when it is consistent with `equals`. */
  ghost predicate TotalOrder<T(!new)>(le: (T, T) -> bool) {
    && (forall x :: le(x, x))
    && (forall x, y :: le(x, y) && le(y, x) ==> x == y)
    && (forall x, y, z :: le(x, y) && le(y, z) ==> le(x, z))
    && (forall x, y :: le(x, y) || le(y, x))
  }

  /** `a.compareTo(b) < 0`. */
  predicate Less<T>(le: (T, T) -> bool, a: T, b: T) {
    !le(b, a)
  }

  /** Non-decreasing order, every pair compared. */
  ghost predicate Sorted<T>(le: (T, T) -> bool, s: seq<T>) {
    forall i, j :: 0 <= i < j < |s| ==> le(s[i], s[j])
  }

  /** Every element of `a` is at most every element of `b`. */
  ghost predicate AllLe<T>(le: (T, T) -> bool, a: seq<T>, b: seq<T>) {
    forall i, j :: 0 <= i < |a| && 0 <= j < |b| ==> le(a[i], b[j])
  }

  lemma Transitive<T(!new)>(le: (T, T) -> bool, x: T, y: T, z: T)
    requires TotalOrder(le) && le(x, y) && le(y, z)
    ensures le(x, z)
  {
  }

  lemma SortedConcat<T(!new)>(le: (T, T) -> bool, a: seq<T>, b: seq<T>)
    requires Sorted(le, a) && Sorted(le, b) && AllLe(le, a, b)
    ensures Sorted(le, a + b)
  {
    forall i, j | 0 <= i < j < |a + b|
      ensures le((a + b)[i], (a + b)[j])
    {
      if j < |a| {
      } else if i >= |a| {
        assert (a + b)[i] == b[i - |a|] && (a + b)[j] == b[j - |a|];
      } else {
        assert (a + b)[i] == a[i] && (a + b)[j] == b[j - |a|];
      }
    }
  }

  lemma SortedSplit<T(!new)>(le: (T, T) -> bool, a: seq<T>, b: seq<T>)
    requires Sorted(le, a + b)
    ensures Sorted(le, a) && Sorted(le, b) && AllLe(le, a, b)
  {
    forall i, j | 0 <= i < j < |a|
      ensures le(a[i], a[j])
    {
      assert a[i] == (a + b)[i] && a[j] == (a + b)[j];
    }
    forall i, j | 0 <= i < j < |b|
      ensures le(b[i], b[j])
    {
      assert b[i] == (a + b)[|a| + i] && b[j] == (a + b)[|a| + j];
    }
    forall i, j | 0 <= i < |a| && 0 <= j < |b|
      ensures le(a[i], b[j])
    {
      assert a[i] == (a + b)[i] && b[j] == (a + b)[|a| + j];
    }
  }

  /** Neighbours in order make the whole sequence sorted. */
  lemma AdjacentSorted<T(!new)>(le: (T, T) -> bool, s: seq<T>)
    requires TotalOrder(le)
    requires forall i :: 0 <= i < |s| - 1 ==> le(s[i], s[i + 1])
    ensures Sorted(le, s)
  {
    forall i, j | 0 <= i < j < |s|
      ensures le(s[i], s[j])
    {
      AdjacentChain(le, s, i, j);
    }
  }

  lemma {:induction false} AdjacentChain<T(!new)>(le: (T, T) -> bool, s: seq<T>, i: int, j: int)
    requires TotalOrder(le) && 0 <= i <= j < |s|
    requires forall k :: 0 <= k < |s| - 1 ==> le(s[k], s[k + 1])
    ensures le(s[i], s[j])
    decreases j - i
  {
    if i < j {
      AdjacentChain(le, s, i, j - 1);
      Transitive(le, s[i], s[j - 1], s[j]);
    }
  }

  /** A sorted left part, a pivot, and a sorted right part on the right sides of it form a
      sorted sequence. */
  lemma SortedAroundPivot<T(!new)>(le: (T, T) -> bool, a: seq<T>, v: T, b: seq<T>)
    requires TotalOrder(le) && Sorted(le, a) && Sorted(le, b)
    requires forall y :: y in multiset(a) ==> le(y, v)
    requires forall y :: y in multiset(b) ==> le(v, y)
    ensures Sorted(le, a + [v] + b)
  {
    forall i, j | 0 <= i < |a| && 0 <= j < |[v] + b|
      ensures le(a[i], ([v] + b)[j])
    {
      assert a[i] in multiset(a);
      if j > 0 {
        var y := b[j - 1];
        assert ([v] + b)[j] == y && y in multiset(b);
        Transitive(le, a[i], v, y);
      }
    }
    forall i, j | 0 <= i < |[v]| && 0 <= j < |b|
      ensures le([v][i], b[j])
    {
      assert b[j] in multiset(b);
    }
    SortedConcat(le, [v], b);
    SortedConcat(le, a, [v] + b);
    assert a + ([v] + b) == a + [v] + b;
  }
}

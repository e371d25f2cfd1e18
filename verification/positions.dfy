/** Index-addressed list semantics shared by every list-like collection: where an element
    first and last occurs, and what inserting or removing at an index does to the rest.
    Element matching is value equality; a Java `null` element is a value of an element type
    that has one, so the null-aware branches of the source coincide with the others. */
module Positions {

  /** The least index holding `x`, or -1 when `x` does not occur (`indexOf`). */
  function FirstIndex<T(==)>(s: seq<T>, x: T): (r: int)
    ensures -1 <= r < |s|
    ensures r >= 0 ==> s[r] == x && x !in s[.. r]
    ensures r == -1 <==> x !in s
    decreases |s|
  {
    if |s| == 0 then -1
    else if s[0] == x then 0
    else
      var k := FirstIndex(s[1..], x);
      if k < 0 then -1 else k + 1
  }

  /** The greatest index holding `x`, or -1 when `x` does not occur (`lastIndexOf`). */
  function LastIndex<T(==)>(s: seq<T>, x: T): (r: int)
    ensures -1 <= r < |s|
    ensures r >= 0 ==> s[r] == x && x !in s[r + 1..]
    ensures r == -1 <==> x !in s
    decreases |s|
  {
    if |s| == 0 then -1
    else if s[|s| - 1] == x then |s| - 1
    else
      assert s == s[..|s| - 1] + [s[|s| - 1]];
      LastIndex(s[..|s| - 1], x)
  }

  /** Past a head that is not `x`, the first index is one more than in the tail. */
  lemma FirstIndexPastHead<T>(s: seq<T>, x: T)
    requires |s| > 0 && s[0] != x
    ensures FirstIndex(s, x) == (if x in s[1..] then FirstIndex(s[1..], x) + 1 else -1)
  {
  }

  /** An index that holds `x` with no `x` before it is the first index. */
  lemma FirstIndexUnique<T>(s: seq<T>, x: T, i: int)
    requires 0 <= i < |s| && s[i] == x && x !in s[..i]
    ensures FirstIndex(s, x) == i
  {
  }

  /** An index that holds `x` with no `x` after it is the last index. */
  lemma LastIndexUnique<T>(s: seq<T>, x: T, i: int)
    requires 0 <= i < |s| && s[i] == x && x !in s[i + 1..]
    ensures LastIndex(s, x) == i
  {
  }

  /** The elements of `s` are those before `f`, the one at `f` and those after it. */
  lemma MultisetSplit<T>(s: seq<T>, f: int)
    requires 0 <= f < |s|
    ensures multiset(s) == multiset(s[..f]) + multiset{s[f]} + multiset(s[f + 1..])
  {
    assert s == s[..f] + [s[f]] + s[f + 1..];
  }

  /** Both searches find the same index exactly when `x` occurs at most once. */
  lemma FirstIsLastIffUnique<T>(s: seq<T>, x: T)
    ensures FirstIndex(s, x) == LastIndex(s, x)
        <==> multiset(s)[x] <= 1
  {
    var f, l := FirstIndex(s, x), LastIndex(s, x);
    if f >= 0 {
      var after := s[f + 1..];
      MultisetSplit(s, f);
      assert multiset(s)[x] == multiset(after)[x] + 1;
      if f == l {
        assert x !in multiset(after);
      } else {
        assert after[l - f - 1] == x;
      }
    }
  }

  /** `lastIndexOf`: scan downward from the top index. */
  method LastIndexOf<T(==)>(s: seq<T>, x: T) returns (r: int)
    ensures r == LastIndex(s, x)
  {
    var i := |s| - 1;
    while i >= 0
      invariant -1 <= i < |s|
      invariant x !in s[i + 1..]
    {
      if s[i] == x {
        LastIndexUnique(s, x, i);
        return i;
      }
      i := i - 1;
    }
    return -1;
  }

  /** `s` with `x` placed at `i` and the tail shifted up by one. */
  function Inserted<T>(s: seq<T>, i: int, x: T): (r: seq<T>)
    requires 0 <= i <= |s|
    ensures |r| == |s| + 1 && r[i] == x
    ensures forall k :: 0 <= k < i ==> r[k] == s[k]
    ensures forall k :: i < k < |r| ==> r[k] == s[k - 1]
    ensures multiset(r) == multiset(s) + multiset{x}
  {
    assert s == s[..i] + s[i..];
    s[..i] + [x] + s[i..]
  }

  /** `s` without its element at `i`, the tail shifted down by one. */
  function Removed<T>(s: seq<T>, i: int): (r: seq<T>)
    requires 0 <= i < |s|
    ensures |r| == |s| - 1
    ensures forall k :: 0 <= k < i ==> r[k] == s[k]
    ensures forall k :: i <= k < |r| ==> r[k] == s[k + 1]
    ensures multiset(r) + multiset{s[i]} == multiset(s)
  {
    assert s == s[..i] + [s[i]] + s[i + 1..];
    s[..i] + s[i + 1..]
  }

  /** Removing what was just inserted gives the list back. */
  lemma RemovedInserted<T>(s: seq<T>, i: int, x: T)
    requires 0 <= i <= |s|
    ensures Removed(Inserted(s, i, x), i) == s
  {
  }

  /** Re-inserting what was just removed gives the list back. */
  lemma InsertedRemoved<T>(s: seq<T>, i: int)
    requires 0 <= i < |s|
    ensures Inserted(Removed(s, i), i, s[i]) == s
  {
  }

  /** The shifting loop of `add(index, e)` on an array with one spare slot at `size`: copy
      each slot from its lower neighbour, top down to `index`, then write `x` at `index`. */
  method ShiftInsert<T>(s: seq<T>, index: int, x: T) returns (a: seq<T>)
    requires 0 <= index <= |s|
    ensures a == Inserted(s, index, x)
  {
    a := s + [x];  // the spare slot; its old content is overwritten below
    var i := |s|;
    while i > index
      invariant index <= i <= |s| && |a| == |s| + 1
      invariant a == s[..i] + [a[i]] + s[i..]
    {
      a := a[i := a[i - 1]];
      i := i - 1;
      assert a == s[..i] + [a[i]] + s[i..];
    }
    a := a[index := x];
  }

  /** The shifting loop of `remove(index)`: copy each slot from its upper neighbour, from
      `index` up, then drop the last slot. */
  method ShiftRemove<T>(s: seq<T>, index: int) returns (a: seq<T>)
    requires 0 <= index < |s|
    ensures a == Removed(s, index)
  {
    a := s;
    var i := index;
    while i < |s| - 1
      invariant index <= i <= |s| - 1 && |a| == |s|
      invariant a == s[..index] + s[index + 1..i + 1] + s[i..]
    {
      a := a[i := a[i + 1]];
      i := i + 1;
    }
    a := a[..|s| - 1];
  }

  /** `s` back to front: the order in which a chain linked from the top of a stack holds
      the stack's elements. */
  function Reversed<T>(s: seq<T>): (r: seq<T>)
    ensures |r| == |s|
    ensures forall i :: 0 <= i < |s| ==> r[i] == s[|s| - 1 - i]
  {
    seq(|s|, i requires 0 <= i < |s| => s[|s| - 1 - i])
  }

  /** A new head becomes the new tail of the reversed order. */
  lemma ReversedCons<T>(x: T, s: seq<T>)
    ensures Reversed([x] + s) == Reversed(s) + [x]
  {
  }

  /** Inserting at chain position `k` is inserting at `|s| - k` of the reversed order. */
  lemma ReversedInserted<T>(s: seq<T>, k: int, x: T)
    requires 0 <= k <= |s|
    ensures Reversed(Inserted(s, k, x)) == Inserted(Reversed(s), |s| - k, x)
  {
  }

  /** Removing chain position `k` is removing `|s| - 1 - k` of the reversed order. */
  lemma ReversedRemoved<T>(s: seq<T>, k: int)
    requires 0 <= k < |s|
    ensures Reversed(Removed(s, k)) == Removed(Reversed(s), |s| - 1 - k)
  {
  }

  /** Overwriting chain position `k` overwrites `|s| - 1 - k` of the reversed order. */
  lemma ReversedUpdate<T>(s: seq<T>, k: int, x: T)
    requires 0 <= k < |s|
    ensures Reversed(s[k := x]) == Reversed(s)[|s| - 1 - k := x]
  {
  }

  /** The reversed order of a suffix is a prefix of the reversed order. */
  lemma ReversedSuffix<T>(s: seq<T>, k: int)
    requires 0 <= k <= |s|
    ensures Reversed(s[k..]) == Reversed(s)[..|s| - k]
  {
  }

  /** The first occurrence in the reversed order is the mirror of the last one. */
  lemma FirstIndexReversed<T>(s: seq<T>, x: T)
    ensures FirstIndex(Reversed(s), x)
         == (if LastIndex(s, x) < 0 then -1 else |s| - 1 - LastIndex(s, x))
  {
    var r, l := Reversed(s), LastIndex(s, x);
    if l >= 0 {
      forall j | 0 <= j < |s| - 1 - l
        ensures r[j] != x
      {
        assert r[j] == s[l + 1..][|s| - 2 - l - j];
      }
      FirstIndexUnique(r, x, |s| - 1 - l);
    } else {
      forall j | 0 <= j < |s|
        ensures r[j] != x
      {
        assert r[j] == s[|s| - 1 - j];
      }
    }
  }

  /** The last occurrence in the reversed order is the mirror of the first one. */
  lemma LastIndexReversed<T>(s: seq<T>, x: T)
    ensures LastIndex(Reversed(s), x)
         == (if FirstIndex(s, x) < 0 then -1 else |s| - 1 - FirstIndex(s, x))
  {
    var r, f := Reversed(s), FirstIndex(s, x);
    if f >= 0 {
      forall j | |s| - f <= j < |s|
        ensures r[j] != x
      {
        assert r[j] == s[..f][|s| - 1 - j];
      }
      LastIndexUnique(r, x, |s| - 1 - f);
    } else {
      forall j | 0 <= j < |s|
        ensures r[j] != x
      {
        assert r[j] == s[|s| - 1 - j];
      }
    }
  }
}

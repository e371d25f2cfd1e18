/** The static array utilities: sequential and binary search, five sorts (the general `sort`
    is quick sort), merging, partitioning, swapping and rendering. An array argument is a
    sequence; an algorithm that rearranges the array in place returns the rearranged
    sequence. */
module Arrays {
  import opened Order
  import opened Wrappers
  import opened Positions
  import Text

  /** `sequentialSearch`. Each slot is compared by calling `equals` on the slot itself, so a
      `null` slot (`None`) reached before a match throws; a `null` target matches no
      non-null slot. The result is the first index holding the target, -1 when the scan
      finishes without meeting the target or a `null` slot. */
  method SequentialSearch<T(==)>(a: seq<Option<T>>, x: Option<T>) returns (r: Result<int>)
    ensures r.Fail? <==> None in a && (x.None? || x !in a || FirstIndex(a, None) < FirstIndex(a, x))
    ensures r.Fail? ==> r.error == NullPointer
    ensures r.Ok? ==> r.value == FirstIndex(a, x)
  {
    var i := 0;
    while i < |a|
      invariant 0 <= i <= |a|
      invariant forall k :: 0 <= k < i ==> a[k].Some? && a[k] != x
    {
      if a[i].None? {
        FirstIndexUnique(a, None, i);
        return Fail(NullPointer);
      }
      if a[i] == x {
        FirstIndexUnique(a, x, i);
        return Ok(i);
      }
      i := i + 1;
    }
    return Ok(-1);
  }

  /** `binarySearch` on a sorted array: an index whose element compares equal to the target,
      or -1 exactly when no element does. */
  method BinarySearch<T(!new)>(le: (T, T) -> bool, a: seq<T>, x: T) returns (r: int)
    requires TotalOrder(le) && Sorted(le, a)
    ensures -1 <= r < |a|
    ensures r >= 0 ==> a[r] == x
    ensures r == -1 <==> x !in a
  {
    var beginning, end := 0, |a| - 1;
    while beginning <= end
      invariant 0 <= beginning <= |a| && -1 <= end < |a|
      invariant forall k :: 0 <= k < beginning ==> Less(le, a[k], x)
      invariant forall k :: end < k < |a| ==> Less(le, x, a[k])
    {
      var middle := (end + beginning) / 2;
      if le(a[middle], x) && le(x, a[middle]) {
        return middle;
      } else if Less(le, a[middle], x) {
        beginning := middle + 1;
      } else {
        end := middle - 1;
      }
    }
    return -1;
  }

  /** `swap`: the two positions exchange their elements and nothing else moves. */
  function Swap<T>(a: seq<T>, i: int, j: int): (r: seq<T>)
    requires 0 <= i < |a| && 0 <= j < |a|
    ensures |r| == |a| && r[i] == a[j] && r[j] == a[i]
    ensures forall k :: 0 <= k < |a| && k != i && k != j ==> r[k] == a[k]
    ensures multiset(r) == multiset(a)
  {
    a[i := a[j]][j := a[i]]
  }

  /** `isEmpty`: the array has no slots. */
  predicate IsEmpty<T>(a: seq<T>) {
    |a| == 0
  }

  /** `selectionSort`: for each position, every later element that is smaller is swapped in,
      so the position ends up holding the least remaining element. */
  method SelectionSort<T(!new)>(le: (T, T) -> bool, s: seq<T>) returns (a: seq<T>)
    requires TotalOrder(le)
    ensures Sorted(le, a) && multiset(a) == multiset(s)
  {
    a := s;
    var n := |a|;
    var i := 0;
    while i < n - 1
      invariant |a| == n && multiset(a) == multiset(s)
      invariant 0 <= i <= n
      invariant forall p, q :: 0 <= p < q < i ==> le(a[p], a[q])
      invariant forall p, q :: 0 <= p < i <= q < n ==> le(a[p], a[q])
    {
      var j := i + 1;
      while j < n
        invariant i + 1 <= j <= n
        invariant |a| == n && multiset(a) == multiset(s)
        invariant forall p, q :: 0 <= p < q < i ==> le(a[p], a[q])
        invariant forall p, q :: 0 <= p < i <= q < n ==> le(a[p], a[q])
        invariant forall q :: i < q < j ==> le(a[i], a[q])
      {
        if Less(le, a[j], a[i]) {
          a := Swap(a, i, j);
        }
        j := j + 1;
      }
      i := i + 1;
    }
  }

  /** The last `k` positions hold their final values: they are sorted and no earlier element
      exceeds any of them. */
  ghost predicate SettledTail<T>(le: (T, T) -> bool, a: seq<T>, k: int) {
    && 0 <= k <= |a|
    && (forall p, q :: |a| - k <= p < q < |a| ==> le(a[p], a[q]))
    && (forall p, q :: 0 <= p < |a| - k <= q < |a| ==> le(a[p], a[q]))
  }

  /** `bubbleSort`: passes that swap out-of-order neighbours, repeated until a pass swaps
      nothing. Every pass settles one more element at the end, so at most |s| + 1 passes
      run. */
  method BubbleSort<T(!new)>(le: (T, T) -> bool, s: seq<T>) returns (a: seq<T>)
    requires TotalOrder(le)
    ensures Sorted(le, a) && multiset(a) == multiset(s)
  {
    a := s;
    var n := |a|;
    var passes := 0;
    var swappedSomething := true;
    while swappedSomething
      invariant |a| == n && multiset(a) == multiset(s)
      invariant 0 <= passes
      invariant swappedSomething ==> passes <= n
      invariant SettledTail(le, a, if passes < n then passes else n)
      invariant !swappedSomething ==> Sorted(le, a)
      decreases n + 1 - passes
    {
      a, swappedSomething := BubblePass(le, a, if passes < n then passes else n);
      passes := passes + 1;
    }
  }

  /** One pass of `bubbleSort`: neighbours out of order are swapped from the front to the end.
      The largest unsettled element is carried to the end of the unsettled part, and a pass
      that swaps nothing finds the array sorted. */
  method BubblePass<T(!new)>(le: (T, T) -> bool, a0: seq<T>, k: int) returns (a: seq<T>, swapped: bool)
    requires TotalOrder(le) && SettledTail(le, a0, k)
    ensures |a| == |a0| && multiset(a) == multiset(a0)
    ensures SettledTail(le, a, if k < |a0| then k + 1 else k)
    ensures !swapped ==> a == a0 && Sorted(le, a)
    ensures k == |a0| ==> !swapped
  {
    a := a0;
    var n := |a|;
    swapped := false;
    var i := 0;
    while i < n - 1
      invariant Bubbling(le, a0, a, k, i, swapped)
    {
      BubbleStep(le, a0, a, k, i, swapped);
      if Less(le, a[i + 1], a[i]) {
        a := Swap(a, i, i + 1);
        swapped := true;
      }
      i := i + 1;
    }
    if !swapped {
      AdjacentSorted(le, a);
    }
  }

  /** The state within a pass after `i` comparisons: the settled tail is untouched, the
      greatest element met so far sits at the comparison point, and a pass that has not
      swapped has seen only neighbours in order. */
  ghost predicate Bubbling<T>(le: (T, T) -> bool, a0: seq<T>, a: seq<T>, k: int, i: int, swapped: bool) {
    var n := |a0|;
    && |a| == n && multiset(a) == multiset(a0)
    && 0 <= i <= (if n == 0 then 0 else n - 1)
    && SettledTail(le, a, k)
    && (k < n ==> MaxAt(le, a, if i < n - k - 1 then i else n - k - 1))
    && (!swapped ==> a == a0 && forall q :: 0 <= q < i ==> le(a[q], a[q + 1]))
    && (k == n ==> !swapped)
  }

  /** One comparison of a pass, with the swap when the neighbours are out of order. */
  lemma BubbleStep<T(!new)>(le: (T, T) -> bool, a0: seq<T>, a: seq<T>, k: int, i: int, swapped: bool)
    requires TotalOrder(le) && Bubbling(le, a0, a, k, i, swapped) && i < |a0| - 1
    ensures var out := Less(le, a[i + 1], a[i]);
      Bubbling(le, a0, if out then Swap(a, i, i + 1) else a, k, i + 1, swapped || out)
  {
    if Less(le, a[i + 1], a[i]) {
      SwappedStep(le, a0, a, k, i, swapped);
    } else {
      KeptStep(le, a0, a, k, i, swapped);
    }
  }

  lemma SwappedStep<T(!new)>(le: (T, T) -> bool, a0: seq<T>, a: seq<T>, k: int, i: int, swapped: bool)
    requires TotalOrder(le) && Bubbling(le, a0, a, k, i, swapped) && i < |a0| - 1
    requires Less(le, a[i + 1], a[i])
    ensures Bubbling(le, a0, Swap(a, i, i + 1), k, i + 1, true)
  {
    SwapUnsettled(le, a, k, i);
    CarryMax(le, a, k, i);
  }

  lemma KeptStep<T(!new)>(le: (T, T) -> bool, a0: seq<T>, a: seq<T>, k: int, i: int, swapped: bool)
    requires TotalOrder(le) && Bubbling(le, a0, a, k, i, swapped) && i < |a0| - 1
    requires !Less(le, a[i + 1], a[i])
    ensures Bubbling(le, a0, a, k, i + 1, swapped)
  {
    if k < |a0| {
      CarryMax(le, a, k, i);
    }
  }

  /** Slot `t` holds the greatest of `a[..t + 1]`. */
  ghost predicate MaxAt<T>(le: (T, T) -> bool, a: seq<T>, t: int) {
    0 <= t < |a| && forall q :: 0 <= q <= t ==> le(a[q], a[t])
  }

  /** A bubble step carries the greatest element seen so far one slot on, up to the start of
      the settled tail. */
  lemma CarryMax<T(!new)>(le: (T, T) -> bool, a: seq<T>, k: int, i: int)
    requires TotalOrder(le) && SettledTail(le, a, k) && k < |a| && 0 <= i < |a| - 1
    requires MaxAt(le, a, if i < |a| - k - 1 then i else |a| - k - 1)
    ensures var b := if Less(le, a[i + 1], a[i]) then Swap(a, i, i + 1) else a;
      MaxAt(le, b, if i + 1 < |a| - k - 1 then i + 1 else |a| - k - 1)
  {
    var n := |a|;
    if i < n - k - 1 {
      var b := if Less(le, a[i + 1], a[i]) then Swap(a, i, i + 1) else a;
      forall q | 0 <= q <= i + 1
        ensures le(b[q], b[i + 1])
      {
        if q <= i && !Less(le, a[i + 1], a[i]) {
          Transitive(le, a[q], a[i], a[i + 1]);
        }
      }
    } else {
      assert !Less(le, a[i + 1], a[i]);
    }
  }

  /** Neighbours out of order lie in the unsettled part, and swapping them keeps the settled
      tail and the elements. */
  lemma SwapUnsettled<T(!new)>(le: (T, T) -> bool, a: seq<T>, k: int, i: int)
    requires TotalOrder(le) && SettledTail(le, a, k) && 0 <= i < |a| - 1
    requires Less(le, a[i + 1], a[i])
    ensures i + 1 < |a| - k
    ensures SettledTail(le, Swap(a, i, i + 1), k)
    ensures multiset(Swap(a, i, i + 1)) == multiset(a)
  {
  }

  /** `insertionSort`: each element in turn is carried left past every larger element of the
      sorted prefix, which shifts one slot right. */
  method InsertionSort<T(!new)>(le: (T, T) -> bool, s: seq<T>) returns (a: seq<T>)
    requires TotalOrder(le)
    ensures Sorted(le, a) && multiset(a) == multiset(s)
  {
    a := s;
    var n := |a|;
    var i := 1;
    while i < n
      invariant |a| == n && multiset(a) == multiset(s)
      invariant 1 <= i && (n == 0 || i <= n)
      invariant forall p, q :: 0 <= p < q < i && q < n ==> le(a[p], a[q])
    {
      ghost var a0 := a;
      var h;
      a, h := CarryLeft(le, a, i);
      MovedIsPermutation(a0, i, h);
      InsertedInOrder(le, a0, i, h);
      i := i + 1;
    }
  }

  /** The inner loop of `insertionSort`: `a0[i]` is carried left past every element of
      `a0[..i]` that is greater than it, each of which moves one slot right; it lands in
      slot `h`, after the nearest element that is not greater. */
  method CarryLeft<T>(le: (T, T) -> bool, a0: seq<T>, i: int) returns (a: seq<T>, h: int)
    requires 0 <= i < |a0|
    ensures 0 <= h <= i
    ensures a == a0[..h] + [a0[i]] + a0[h..i] + a0[i + 1..]
    ensures forall k :: h <= k < i ==> Less(le, a0[i], a0[k])
    ensures h > 0 ==> le(a0[h - 1], a0[i])
  {
    a := a0;
    var currentValue := a[i];
    var j := i - 1;
    assert a0[..j + 2] + a0[j + 1..i] + a0[i + 1..] == a0;
    while j >= 0 && Less(le, currentValue, a[j])
      invariant -1 <= j <= i - 1
      invariant a == a0[..j + 2] + a0[j + 1..i] + a0[i + 1..]
      invariant forall k :: j < k < i ==> Less(le, currentValue, a0[k])
    {
      assert a[j] == a0[j];
      ShiftStep(a0, i, j);
      a := a[j + 1 := a[j]];
      j := j - 1;
    }
    assert j >= 0 ==> a[j] == a0[j];
    h := j + 1;
    ghost var hole := a0[..h + 1] + a0[h..i] + a0[i + 1..];
    assert a == hole;
    FillHole(a0, i, h);
    a := a[h := currentValue];
    assert a == hole[h := a0[i]];
  }

  /** One shift of the inner loop: copying slot `j` over the hole at `j + 1` moves the hole
      one slot left. */
  lemma ShiftStep<T>(a0: seq<T>, i: int, j: int)
    requires 0 <= j < i < |a0|
    ensures (a0[..j + 2] + a0[j + 1..i] + a0[i + 1..])[j + 1 := a0[j]]
         == a0[..j + 1] + a0[j..i] + a0[i + 1..]
  {
  }

  /** Filling the hole at `h` with the carried value gives the inserted arrangement. */
  lemma FillHole<T>(a0: seq<T>, i: int, h: int)
    requires 0 <= h <= i < |a0|
    ensures (a0[..h + 1] + a0[h..i] + a0[i + 1..])[h := a0[i]]
         == a0[..h] + [a0[i]] + a0[h..i] + a0[i + 1..]
  {
  }

  /** Moving one element to another slot keeps the same elements. */
  lemma MovedIsPermutation<T>(a0: seq<T>, i: int, h: int)
    requires 0 <= h <= i < |a0|
    ensures multiset(a0[..h] + [a0[i]] + a0[h..i] + a0[i + 1..]) == multiset(a0)
  {
    assert a0 == a0[..h] + a0[h..i] + [a0[i]] + a0[i + 1..];
  }

  /** After the inner loop of insertion sort: the sorted prefix `a0[..i]` with `a0[i]` moved
      down to slot `h` is sorted through `i`. */
  lemma InsertedInOrder<T(!new)>(le: (T, T) -> bool, a0: seq<T>, i: int, h: int)
    requires TotalOrder(le) && 0 <= h <= i < |a0|
    requires forall p, q :: 0 <= p < q < i ==> le(a0[p], a0[q])
    requires forall k :: h <= k < i ==> Less(le, a0[i], a0[k])
    requires h > 0 ==> le(a0[h - 1], a0[i])
    ensures var a := a0[..h] + [a0[i]] + a0[h..i] + a0[i + 1..];
      forall p, q :: 0 <= p < q <= i ==> le(a[p], a[q])
  {
    var a := a0[..h] + [a0[i]] + a0[h..i] + a0[i + 1..];
    forall p, q | 0 <= p < q <= i
      ensures le(a[p], a[q])
    {
      if q < h {
        assert a[p] == a0[p] && a[q] == a0[q];
      } else if q == h {
        assert a[p] == a0[p] && a[q] == a0[i];
        if p < h - 1 {
          Transitive(le, a0[p], a0[h - 1], a0[i]);
        }
      } else if p < h {
        assert a[p] == a0[p] && a[q] == a0[q - 1];
      } else if p == h {
        assert a[p] == a0[i] && a[q] == a0[q - 1];
      } else {
        assert a[p] == a0[p - 1] && a[q] == a0[q - 1];
      }
    }
  }

  /** The reference merge of `l[i..]` and `r[j..]`: repeatedly take the smaller front, the
      left one on ties, and the rest of whichever side remains once the other is used up. */
  function MergeFrom<T>(le: (T, T) -> bool, l: seq<T>, r: seq<T>, i: int, j: int): seq<T>
    requires 0 <= i <= |l| && 0 <= j <= |r|
    decreases |l| - i + |r| - j
  {
    if i == |l| then r[j..]
    else if j == |r| then l[i..]
    else if le(l[i], r[j]) then [l[i]] + MergeFrom(le, l, r, i + 1, j)
    else [r[j]] + MergeFrom(le, l, r, i, j + 1)
  }

  /** A head no greater than anything after it extends a sorted sequence. */
  lemma SortedCons<T(!new)>(le: (T, T) -> bool, h: T, t: seq<T>)
    requires Sorted(le, t) && forall y :: y in multiset(t) ==> le(h, y)
    ensures Sorted(le, [h] + t)
  {
    forall i, j | 0 <= i < j < |[h] + t|
      ensures le(([h] + t)[i], ([h] + t)[j])
    {
      assert ([h] + t)[j] == t[j - 1];
      assert t[j - 1] in multiset(t);
    }
  }

  /** A value no greater than the front of a sorted suffix is no greater than all of it. */
  lemma BelowSortedSuffix<T(!new)>(le: (T, T) -> bool, x: T, s: seq<T>, i: int)
    requires TotalOrder(le) && Sorted(le, s) && 0 <= i <= |s|
    requires i < |s| ==> le(x, s[i])
    ensures forall y :: y in multiset(s[i..]) ==> le(x, y)
  {
    forall y | y in multiset(s[i..])
      ensures le(x, y)
    {
      var k :| 0 <= k < |s[i..]| && s[i..][k] == y;
      if k > 0 {
        Transitive(le, x, s[i], s[i + k]);
      }
    }
  }

  lemma SortedSuffix<T>(le: (T, T) -> bool, s: seq<T>, i: int)
    requires Sorted(le, s) && 0 <= i <= |s|
    ensures Sorted(le, s[i..])
  {
    forall p, q | 0 <= p < q < |s[i..]|
      ensures le(s[i..][p], s[i..][q])
    {
      assert s[i..][p] == s[i + p] && s[i..][q] == s[i + q];
    }
  }

  /** What merging `l[i..]` with `r[j..]` delivers: their combined elements, sorted. */
  ghost predicate MergesSorted<T>(le: (T, T) -> bool, l: seq<T>, r: seq<T>, i: int, j: int)
    requires 0 <= i <= |l| && 0 <= j <= |r|
  {
    && multiset(MergeFrom(le, l, r, i, j)) == multiset(l[i..]) + multiset(r[j..])
    && Sorted(le, MergeFrom(le, l, r, i, j))
  }

  /** Merging two sorted sequences gives a sorted sequence of their combined elements. */
  lemma {:induction false} MergeFromSorted<T(!new)>(le: (T, T) -> bool, l: seq<T>, r: seq<T>, i: int, j: int)
    requires TotalOrder(le) && Sorted(le, l) && Sorted(le, r)
    requires 0 <= i <= |l| && 0 <= j <= |r|
    ensures multiset(MergeFrom(le, l, r, i, j)) == multiset(l[i..]) + multiset(r[j..])
    ensures Sorted(le, MergeFrom(le, l, r, i, j))
    decreases |l| - i + |r| - j
  {
    if i == |l| {
      SortedSuffix(le, r, j);
    } else if j == |r| {
      SortedSuffix(le, l, i);
    } else if le(l[i], r[j]) {
      MergeFromSorted(le, l, r, i + 1, j);
      TakeLeftSorted(le, l, r, i, j);
    } else {
      MergeFromSorted(le, l, r, i, j + 1);
      TakeRightSorted(le, l, r, i, j);
    }
  }

  lemma TakeLeftSorted<T(!new)>(le: (T, T) -> bool, l: seq<T>, r: seq<T>, i: int, j: int)
    requires TotalOrder(le) && Sorted(le, l) && Sorted(le, r)
    requires 0 <= i < |l| && 0 <= j < |r| && le(l[i], r[j])
    requires MergesSorted(le, l, r, i + 1, j)
    ensures MergesSorted(le, l, r, i, j)
  {
    assert l[i..] == [l[i]] + l[i + 1..];
    BelowSortedSuffix(le, l[i], l, i + 1);
    BelowSortedSuffix(le, l[i], r, j);
    SortedCons(le, l[i], MergeFrom(le, l, r, i + 1, j));
  }

  lemma TakeRightSorted<T(!new)>(le: (T, T) -> bool, l: seq<T>, r: seq<T>, i: int, j: int)
    requires TotalOrder(le) && Sorted(le, l) && Sorted(le, r)
    requires 0 <= i < |l| && 0 <= j < |r| && !le(l[i], r[j])
    requires MergesSorted(le, l, r, i, j + 1)
    ensures MergesSorted(le, l, r, i, j)
  {
    assert r[j..] == [r[j]] + r[j + 1..];
    BelowSortedSuffix(le, r[j], l, i);
    BelowSortedSuffix(le, r[j], r, j + 1);
    SortedCons(le, r[j], MergeFrom(le, l, r, i, j + 1));
  }

  /** `merge`: fills the target from the two halves' fronts, taking from the left half while
      its front is no greater than the right one's. */
  method Merge<T>(le: (T, T) -> bool, leftHalf: seq<T>, rightHalf: seq<T>) returns (m: seq<T>)
    ensures m == MergeFrom(le, leftHalf, rightHalf, 0, 0)
  {
    m := [];
    var topLeft, topRight := 0, 0;
    var i := 0;
    while i < |leftHalf| + |rightHalf|
      invariant 0 <= topLeft <= |leftHalf| && 0 <= topRight <= |rightHalf|
      invariant i == topLeft + topRight
      invariant m + MergeFrom(le, leftHalf, rightHalf, topLeft, topRight)
        == MergeFrom(le, leftHalf, rightHalf, 0, 0)
    {
      ghost var rest := MergeFrom(le, leftHalf, rightHalf, topLeft, topRight);
      var next;
      if topLeft >= |leftHalf| {
        next := rightHalf[topRight];
        topRight := topRight + 1;
        assert rightHalf[topRight - 1..] == [next] + rightHalf[topRight..];
      } else if topRight >= |rightHalf| {
        next := leftHalf[topLeft];
        topLeft := topLeft + 1;
        assert leftHalf[topLeft - 1..] == [next] + leftHalf[topLeft..];
      } else if le(leftHalf[topLeft], rightHalf[topRight]) {
        next := leftHalf[topLeft];
        topLeft := topLeft + 1;
      } else {
        next := rightHalf[topRight];
        topRight := topRight + 1;
      }
      assert rest == [next] + MergeFrom(le, leftHalf, rightHalf, topLeft, topRight);
      m := m + [next];
      i := i + 1;
    }
  }

  /** `mergeSort`: an array of fewer than two elements is left alone; otherwise both halves
      are sorted and merged back. */
  method MergeSort<T(!new)>(le: (T, T) -> bool, s: seq<T>) returns (a: seq<T>)
    requires TotalOrder(le)
    ensures Sorted(le, a) && multiset(a) == multiset(s)
    decreases |s|
  {
    if |s| < 2 {
      return s;
    }
    var middleIndex := |s| / 2;
    var leftHalf := MergeSort(le, s[..middleIndex]);
    var rightHalf := MergeSort(le, s[middleIndex..]);
    a := Merge(le, leftHalf, rightHalf);
    MergeFromSorted(le, leftHalf, rightHalf, 0, 0);
    assert s == s[..middleIndex] + s[middleIndex..];
  }

  /** `quickSort`: sorts the whole array in place. */
  method QuickSort<T(!new)>(le: (T, T) -> bool, s: seq<T>) returns (a: seq<T>)
    requires TotalOrder(le)
    ensures Sorted(le, a) && multiset(a) == multiset(s)
  {
    a := QuickSortRange(le, s, 0, |s| - 1);
    assert a[0..|s|] == a && s[0..|s|] == s;
  }

  /** `sort`: the general-purpose sort is quick sort. */
  method Sort<T(!new)>(le: (T, T) -> bool, s: seq<T>) returns (a: seq<T>)
    requires TotalOrder(le)
    ensures Sorted(le, a) && multiset(a) == multiset(s)
  {
    a := QuickSort(le, s);
  }

  /** The recursive `quickSort` over `lowIndex..highIndex` (inclusive): a range of fewer than
      two slots is left alone; otherwise the last slot's element is the pivot, the range is
      partitioned around it and both sides are sorted. Only the range is rearranged. */
  method QuickSortRange<T(!new)>(le: (T, T) -> bool, s: seq<T>, lo: int, hi: int) returns (a: seq<T>)
    requires TotalOrder(le) && 0 <= lo <= hi + 1 <= |s|
    ensures |a| == |s|
    ensures forall k :: 0 <= k < |s| && !(lo <= k <= hi) ==> a[k] == s[k]
    ensures multiset(a[lo..hi + 1]) == multiset(s[lo..hi + 1])
    ensures Sorted(le, a[lo..hi + 1])
    decreases hi - lo
  {
    if lo >= hi {
      return s;
    }
    var a1, p := Partition(le, s, lo, hi);
    var a2 := QuickSortRange(le, a1, lo, p - 1);
    a := QuickSortRange(le, a2, p + 1, hi);
    SortedSides(le, a1, a2, a, lo, p, hi);
  }

  /** The range after both recursive calls is the sorted left side, the pivot and the sorted
      right side, with the range's elements unchanged. */
  lemma SortedSides<T(!new)>(le: (T, T) -> bool, a1: seq<T>, a2: seq<T>, a: seq<T>, lo: int, p: int, hi: int)
    requires TotalOrder(le) && 0 <= lo <= p <= hi < |a1| == |a2| == |a|
    requires forall k :: lo <= k < p ==> le(a1[k], a1[p])
    requires forall k :: p < k <= hi ==> le(a1[p], a1[k])
    requires forall k :: 0 <= k < |a1| && !(lo <= k <= p - 1) ==> a2[k] == a1[k]
    requires multiset(a2[lo..p]) == multiset(a1[lo..p]) && Sorted(le, a2[lo..p])
    requires forall k :: 0 <= k < |a2| && !(p + 1 <= k <= hi) ==> a[k] == a2[k]
    requires multiset(a[p + 1..hi + 1]) == multiset(a2[p + 1..hi + 1]) && Sorted(le, a[p + 1..hi + 1])
    ensures multiset(a[lo..hi + 1]) == multiset(a1[lo..hi + 1])
    ensures Sorted(le, a[lo..hi + 1])
  {
    var v := a1[p];
    var left, right := a1[lo..p], a1[p + 1..hi + 1];
    assert a[lo..p] == a2[lo..p];
    assert a2[p + 1..hi + 1] == right;
    assert a[lo..hi + 1] == a[lo..p] + [v] + a[p + 1..hi + 1];
    assert a1[lo..hi + 1] == left + [v] + right;
    assert forall k :: 0 <= k < |left| ==> left[k] == a1[lo + k];
    assert forall k :: 0 <= k < |right| ==> right[k] == a1[p + 1 + k];
    AllBelow(le, a[lo..p], left, v);
    AllAbove(le, a[p + 1..hi + 1], right, v);
    SortedAroundPivot(le, a[lo..p], v, a[p + 1..hi + 1]);
  }

  /** Every element of a rearrangement of `y` is at most `v` when every slot of `y` is. */
  lemma AllBelow<T>(le: (T, T) -> bool, x: seq<T>, y: seq<T>, v: T)
    requires multiset(x) == multiset(y) && forall k :: 0 <= k < |y| ==> le(y[k], v)
    ensures forall z :: z in multiset(x) ==> le(z, v)
  {
    forall z | z in multiset(x)
      ensures le(z, v)
    {
      assert z in y;
    }
  }

  /** Every element of a rearrangement of `y` is at least `v` when every slot of `y` is. */
  lemma AllAbove<T>(le: (T, T) -> bool, x: seq<T>, y: seq<T>, v: T)
    requires multiset(x) == multiset(y) && forall k :: 0 <= k < |y| ==> le(v, y[k])
    ensures forall z :: z in multiset(x) ==> le(v, z)
  {
    forall z | z in multiset(x)
      ensures le(v, z)
    {
      assert z in y;
    }
  }

  /** `partition` with the range's last element as pivot: a left pointer skips elements no
      greater than the pivot, a right pointer skips elements no less than it, and the two
      stopped elements are swapped until the pointers meet; the pivot is then swapped into
      the meeting slot, whose index is returned. */
  method Partition<T(!new)>(le: (T, T) -> bool, s: seq<T>, lo: int, hi: int) returns (a: seq<T>, p: int)
    requires TotalOrder(le) && 0 <= lo <= hi < |s|
    ensures |a| == |s| && lo <= p <= hi && a[p] == s[hi]
    ensures forall k :: lo <= k < p ==> le(a[k], a[p])
    ensures forall k :: p < k <= hi ==> le(a[p], a[k])
    ensures forall k :: 0 <= k < |s| && !(lo <= k <= hi) ==> a[k] == s[k]
    ensures multiset(a[lo..hi + 1]) == multiset(s[lo..hi + 1])
  {
    var pivot := s[hi];
    a := s;
    var l, r := lo, hi;
    while l < r
      invariant Partitioning(le, s, a, lo, hi, l, r, pivot)
      decreases r - l
    {
      l := SkipNotGreater(le, a, lo, l, r, pivot);
      r := SkipNotLess(le, a, l, r, hi, pivot);
      SwapStopped(le, s, a, lo, hi, l, r, pivot);
      a := Swap(a, l, r);
    }
    PivotPlaced(le, s, a, lo, hi, l, pivot);
    a := Swap(a, hi, l);
    p := l;
  }

  /** The state between rounds of `partition`: the pivot is still last, everything left of
      the left pointer is at most the pivot, everything from the right pointer on is at
      least the pivot, and only the range has been rearranged. */
  ghost predicate Partitioning<T>(le: (T, T) -> bool, s: seq<T>, a: seq<T>, lo: int, hi: int, l: int, r: int, pivot: T) {
    && 0 <= lo <= l <= r <= hi < |s| == |a| && a[hi] == pivot
    && (forall k :: lo <= k < l ==> le(a[k], pivot))
    && (forall k :: r <= k <= hi ==> le(pivot, a[k]))
    && (forall k :: 0 <= k < |s| && !(lo <= k <= hi) ==> a[k] == s[k])
    && multiset(a[lo..hi + 1]) == multiset(s[lo..hi + 1])
  }

  /** Swapping the two stopped elements (or nothing, once the pointers meet) restores the
      state between rounds. */
  lemma SwapStopped<T(!new)>(le: (T, T) -> bool, s: seq<T>, a: seq<T>, lo: int, hi: int, l: int, r: int, pivot: T)
    requires TotalOrder(le) && 0 <= lo <= l <= r <= hi < |s| == |a| && a[hi] == pivot
    requires forall k :: lo <= k < l ==> le(a[k], pivot)
    requires forall k :: r < k <= hi ==> le(pivot, a[k])
    requires l < r ==> !le(a[l], pivot) && !le(pivot, a[r])
    requires l == r ==> le(pivot, a[r])
    requires forall k :: 0 <= k < |s| && !(lo <= k <= hi) ==> a[k] == s[k]
    requires multiset(a[lo..hi + 1]) == multiset(s[lo..hi + 1])
    ensures Partitioning(le, s, Swap(a, l, r), lo, hi, l, r, pivot)
  {
    SwapInRange(a, lo, hi, l, r);
    if l < r {
      assert r < hi;
    }
  }

  /** Once the pointers meet, swapping the pivot into the meeting slot partitions the range
      around it. */
  lemma PivotPlaced<T(!new)>(le: (T, T) -> bool, s: seq<T>, a: seq<T>, lo: int, hi: int, l: int, pivot: T)
    requires TotalOrder(le) && Partitioning(le, s, a, lo, hi, l, l, pivot)
    ensures var b := Swap(a, hi, l);
      && b[l] == pivot
      && (forall k :: lo <= k < l ==> le(b[k], b[l]))
      && (forall k :: l < k <= hi ==> le(b[l], b[k]))
      && (forall k :: 0 <= k < |s| && !(lo <= k <= hi) ==> b[k] == s[k])
      && multiset(b[lo..hi + 1]) == multiset(s[lo..hi + 1])
  {
    SwapInRange(a, lo, hi, hi, l);
  }

  /** The left pointer's inner loop: moves right past elements no greater than the pivot,
      stopping at the right pointer. */
  method SkipNotGreater<T>(le: (T, T) -> bool, a: seq<T>, lo: int, l0: int, r: int, pivot: T) returns (l: int)
    requires 0 <= lo <= l0 <= r < |a|
    requires forall k :: lo <= k < l0 ==> le(a[k], pivot)
    ensures l0 <= l <= r
    ensures forall k :: lo <= k < l ==> le(a[k], pivot)
    ensures l < r ==> !le(a[l], pivot)
  {
    l := l0;
    while le(a[l], pivot) && l < r
      invariant l0 <= l <= r
      invariant forall k :: lo <= k < l ==> le(a[k], pivot)
    {
      l := l + 1;
    }
  }

  /** The right pointer's inner loop: moves left past elements no less than the pivot,
      stopping at the left pointer. */
  method SkipNotLess<T(!new)>(le: (T, T) -> bool, a: seq<T>, l: int, r0: int, hi: int, pivot: T) returns (r: int)
    requires TotalOrder(le) && 0 <= l <= r0 <= hi < |a|
    requires forall k :: r0 <= k <= hi ==> le(pivot, a[k])
    requires l < r0 ==> !le(a[l], pivot)
    ensures l <= r <= r0
    ensures forall k :: r < k <= hi ==> le(pivot, a[k])
    ensures l < r ==> !le(pivot, a[r])
    ensures l == r ==> le(pivot, a[r])
    ensures l < r0 ==> r < r0
  {
    r := r0;
    while le(pivot, a[r]) && l < r
      invariant l <= r <= r0
      invariant forall k :: r < k <= hi ==> le(pivot, a[k])
      invariant l < r0 ==> r < r0 || le(pivot, a[r])
    {
      r := r - 1;
    }
  }

  /** Swapping two slots of a range keeps the range's elements. */
  lemma SwapInRange<T>(a: seq<T>, lo: int, hi: int, i: int, j: int)
    requires 0 <= lo <= i <= hi < |a| && lo <= j <= hi
    ensures multiset(Swap(a, i, j)[lo..hi + 1]) == multiset(a[lo..hi + 1])
  {
    assert Swap(a, i, j)[lo..hi + 1] == Swap(a[lo..hi + 1], i - lo, j - lo);
  }

  /** `toString`: each element but the last followed by ", ", then the last, in brackets. */
  method ToString<T>(a: seq<T>, show: T -> string) returns (str: string)
    ensures str == Text.Render(a, show)
  {
    var sb := "[";
    var i := 0;
    while i < |a| - 1
      invariant 0 <= i <= (if |a| == 0 then 0 else |a| - 1)
      invariant sb == "[" + Text.Terminated(Text.Shown(a[..i], show))
    {
      Text.RenderStep(a, i, show);
      sb := sb + show(a[i]) + ", ";
      i := i + 1;
    }
    if !IsEmpty(a) {
      Text.RenderLast(a, show);
      sb := sb + show(a[|a| - 1]);
    } else {
      assert a[..i] == a;
    }
    str := sb + "]";
  }
}

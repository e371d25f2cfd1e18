/** `_StaticQueue2`: a FIFO queue in a ring buffer. `first` and `last` only ever grow (until
    a resize or `clear` resets them); the queue holds `last - first` elements, the k-th of
    them in slot `(first + k) % array.length` (the field `slots` is the array). A slot is
    `None` when it holds the `null` left by construction or removal; the slots of the
    window always hold an element. */
module StaticQueue2 {
  import opened Wrappers
  import opened Positions
  import opened Modular
  import Resize
  import Text

  datatype Ring<T> = Ring(slots: seq<Option<T>>, first: nat, last: nat, initial: nat)

  /** The `n` slots read from `first` on, wrapping around the end of `a`. */
  function Window<T>(a: seq<Option<T>>, first: nat, n: nat): (w: seq<Option<T>>)
    requires n <= |a|
    ensures |w| == n
    ensures forall k :: 0 <= k < n ==> w[k] == a[Wrap(first + k, |a|)]
  {
    seq(n, k requires 0 <= k < n => a[Wrap(first + k, |a|)])
  }

  predicate AllPresent<T>(w: seq<Option<T>>) {
    forall k :: 0 <= k < |w| ==> w[k].Some?
  }

  /** The elements of a window whose slots are all occupied. */
  function Values<T>(w: seq<Option<T>>): (r: seq<T>)
    requires AllPresent(w)
    ensures |r| == |w|
    ensures forall k :: 0 <= k < |w| ==> r[k] == w[k].value
  {
    seq(|w|, k requires 0 <= k < |w| => w[k].value)
  }

  /** `size()`, which is `last - first`. */
  function Size<T>(q: Ring<T>): int {
    q.last - q.first
  }

  /** `0 <= size <= array.length`, and the window of `size` slots from `first` holds the
      queue, front first. */
  predicate Valid<T>(q: Ring<T>) {
    q.first <= q.last && Size(q) <= |q.slots|
    && AllPresent(Window(q.slots, q.first, Size(q)))
  }

  /** The queue's contents, front to rear. */
  function Elems<T>(q: Ring<T>): seq<T>
    requires Valid(q)
  {
    Values(Window(q.slots, q.first, Size(q)))
  }

  /** Slot `i % length`, for `first <= i < last`, holds logical element `i - first`. */
  lemma SlotHolds<T>(q: Ring<T>, i: nat)
    requires Valid(q) && q.first <= i < q.last
    ensures q.slots[Wrap(i, |q.slots|)] == Some(Elems(q)[i - q.first])
  {
    assert Window(q.slots, q.first, Size(q))[i - q.first].Some?;
  }

  /** Writing the slot of the k-th window position changes that position only. */
  lemma WindowUpdate<T>(a: seq<Option<T>>, first: nat, n: nat, k: nat, v: Option<T>)
    requires n <= |a| && k < n
    ensures Window(a[Wrap(first + k, |a|) := v], first, n) == Window(a, first, n)[k := v]
  {
    var b := a[Wrap(first + k, |a|) := v];
    forall k2 | 0 <= k2 < n
      ensures Window(b, first, n)[k2] == Window(a, first, n)[k := v][k2]
    {
      if k2 < k {
        WrapDistinct(first + k2, first + k, |a|);
      } else if k2 > k {
        WrapDistinct(first + k, first + k2, |a|);
      }
    }
  }

  /** A window copied into a fresh array from index 0 is read back unchanged. */
  lemma WindowOfLinear<T>(a: seq<Option<T>>, first: nat, m: nat, n: nat, pad: nat)
    requires n <= m <= |a|
    ensures Window(Window(a, first, m) + seq(pad, _ => None), 0, n) == Window(a, first, n)
  {
    var w := Window(a, first, m) + seq(pad, _ => None);
    forall k | 0 <= k < n
      ensures w[Wrap(k, |w|)] == a[Wrap(first + k, |a|)]
    {
      assert Wrap(k, |w|) == k;
    }
  }

  /** `new _StaticQueue2(size)`: a negative capacity is rejected; otherwise an empty ring of
      `size` null slots. */
  function New<T>(size: int): Result<Ring<T>>
  {
    if size < 0 then Fail(IllegalArgument)
    else Ok(Ring(seq(size, _ => None), 0, 0, size))
  }

  /** What `New` returns. */
  lemma NewIsEmpty<T>(size: int)
    ensures var r := New<T>(size); r.Fail? <==> size < 0
    ensures var r := New<T>(size); r.Fail? ==> r.error == IllegalArgument
    ensures var r := New<T>(size); r.Ok? ==> Valid(r.value) && Elems(r.value) == [] && |r.value.slots| == size == r.value.initial
  {
  }

  /** `expandSize`: when full, the queue is copied front first into an array of the grown
      length, with `first = 0` and `last` the old length. The contents are kept and there is
      room for one more. */
  function Expand<T>(q: Ring<T>): (r: Ring<T>)
    requires Valid(q)
    ensures Valid(r) && Elems(r) == Elems(q) && r.initial == q.initial
    ensures Size(r) < |r.slots| == Resize.Grown(|q.slots|, Size(q))
    ensures Size(q) < |q.slots| ==> r == q
  {
    if Size(q) != |q.slots| then q
    else
      var full := |q.slots|;
      var pad := Resize.Grown(full, full) - full;
      WindowOfLinear(q.slots, q.first, full, full, pad);
      Ring(Window(q.slots, q.first, full) + seq(pad, _ => None), 0, full, q.initial)
  }

  /** `decreaseSize`: when the policy fires, the queue is copied front first into half the
      length, with `first = 0`. The contents are kept. */
  function Shrink<T>(q: Ring<T>): (r: Ring<T>)
    requires Valid(q)
    ensures Valid(r) && Elems(r) == Elems(q) && r.initial == q.initial
    ensures |r.slots| == Resize.Shrunk(|q.slots|, Size(q), q.initial)
  {
    var n := Size(q);
    if !Resize.ShouldShrink(|q.slots|, n, q.initial) then q
    else
      var half := |q.slots| / 2;
      WindowOfLinear(q.slots, q.first, half, n, 0);
      assert Window(q.slots, q.first, half) + seq(0, _ => None) == Window(q.slots, q.first, half);
      Ring(Window(q.slots, q.first, half), 0, n, q.initial)
  }

  /** `add(e)`: grow if full, then write `e` at slot `last % length`: `e` joins the rear. */
  function Add<T>(q: Ring<T>, e: T): (r: Ring<T>)
    requires Valid(q)
    ensures Valid(r) && r.initial == q.initial
    ensures Elems(r) == Elems(q) + [e]
  {
    var g := Expand(q);
    var n := Size(g);
    var r := Ring(g.slots[Wrap(g.last, |g.slots|) := Some(e)], g.first, g.last + 1, g.initial);
    WindowUpdate(g.slots, g.first, n + 1, n, Some(e));
    assert Window(g.slots, g.first, n + 1)[..n] == Window(g.slots, g.first, n);
    assert Window(r.slots, r.first, n + 1)[..n] == Window(g.slots, g.first, n);
    r
  }

  /** `peek()`: the front element, or `null` (here `None`) when the queue is empty. */
  function Peek<T>(q: Ring<T>): (r: Option<T>)
    requires Valid(q)
    ensures r.None? <==> Elems(q) == []
    ensures r.Some? ==> r.value == Elems(q)[0]
  {
    if Size(q) == 0 then None
    else
      SlotHolds(q, q.first);
      q.slots[Wrap(q.first, |q.slots|)]
  }

  /** `remove()` with the slot index reduced modulo the length: `null` and no change when
      empty; otherwise the front is returned and the rest of the queue stays in order. */
  function Remove<T>(q: Ring<T>): (r: (Ring<T>, Option<T>))
    requires Valid(q)
    ensures r.1 == Peek(q) && Valid(r.0) && r.0.initial == q.initial
    ensures r.1.None? ==> r.0 == q
    ensures r.1.Some? ==> Elems(r.0) == Elems(q)[1..]
  {
    if Size(q) == 0 then (q, None)
    else (Shrink(Cleared(q, Wrap(q.first, |q.slots|))), Peek(q))
  }

  /** The front slot `index` nulled out and `first` advanced past it. */
  function Cleared<T>(q: Ring<T>, index: nat): (r: Ring<T>)
    requires Valid(q) && Size(q) > 0 && index == Wrap(q.first, |q.slots|)
    ensures Valid(r) && r.initial == q.initial && Elems(r) == Elems(q)[1..]
  {
    var n := Size(q);
    var cleared := q.slots[index := None];
    WindowUpdate(q.slots, q.first, n, 0, None);
    assert Window(cleared, q.first + 1, n - 1) == Window(cleared, q.first, n)[1..];
    Ring(cleared, q.first + 1, q.last, q.initial)
  }

  /** `remove()` as written, giving the ring after the call and what the call returns or
      throws. It clears `array[first++]` without reducing `first` modulo the length, so
      once `first` has walked past the end of the array the call throws
      `ArrayIndexOutOfBoundsException` although the queue is not empty. The index
      expression has already advanced `first` when the store fails, so the front element
      leaves the queue without being returned, its slot is not cleared and no shrink
      follows. Whenever it does not throw, it agrees with the corrected `Remove`. */
  function RemoveAsWritten<T>(q: Ring<T>): (r: (Ring<T>, Result<Option<T>>))
    requires Valid(q)
    ensures Valid(r.0)
    ensures r.1.Fail? <==> Size(q) > 0 && q.first >= |q.slots|
    ensures r.1.Fail? ==> r.1.error == IndexOutOfBounds
    ensures r.1.Fail? ==> r.0 == q.(first := q.first + 1) && Elems(r.0) == Elems(q)[1..]
    ensures r.1.Ok? ==> (r.0, r.1.value) == Remove(q)
  {
    if Size(q) == 0 then (q, Ok(None))
    else if q.first >= |q.slots| then
      var n := Size(q);
      assert Window(q.slots, q.first + 1, n - 1) == Window(q.slots, q.first, n)[1..];
      (q.(first := q.first + 1), Fail(IndexOutOfBounds))
    else (Shrink(Cleared(q, q.first)), Ok(Peek(q)))
  }

  /** The shifting loop of `remove(e)`: with the match at window position `index`, each
      later slot's content moves one slot toward the front, wrapping around the array. */
  method ShiftDown<T>(a: seq<Option<T>>, first: nat, n: nat, index: nat) returns (b: seq<Option<T>>)
    requires n <= |a| && index < n
    ensures |b| == |a|
    ensures Window(b, first, n - 1) == Removed(Window(a, first, n), index)
  {
    ghost var w := Window(a, first, n);
    b := a;
    var k := index;  // the source's slot counter, less `first`
    while k < n - 1
      invariant index <= k <= n - 1 && |b| == |a|
      invariant Window(b, first, n) == w[..index] + w[index + 1..k + 1] + w[k..]
    {
      ShiftStep(b, first, n, index, k, w);
      b := b[Wrap(first + k, |b|) := b[Wrap(first + k + 1, |b|)]];
      k := k + 1;
    }
    assert Window(b, first, n - 1) == Window(b, first, n)[..n - 1];
  }

  /** One step of the shifting loop: window position `k` takes the content of `k + 1`. */
  lemma ShiftStep<T>(b: seq<Option<T>>, first: nat, n: nat, index: nat, k: nat, w: seq<Option<T>>)
    requires n <= |b| && index <= k < n - 1 && |w| == n
    requires Window(b, first, n) == w[..index] + w[index + 1..k + 1] + w[k..]
    ensures Window(b[Wrap(first + k, |b|) := b[Wrap(first + k + 1, |b|)]], first, n)
         == w[..index] + w[index + 1..k + 2] + w[k + 1..]
  {
    var v := b[Wrap(first + k + 1, |b|)];
    WindowUpdate(b, first, n, k, v);
    var before := w[..index] + w[index + 1..k + 1] + w[k..];
    assert v == before[k + 1] == w[k + 1];
    assert before[k := v] == w[..index] + w[index + 1..k + 2] + w[k + 1..];
  }

  /** Slots whose window is the old one with position `index` taken out hold the queue
      with its `index`-th element taken out. */
  lemma ShiftedRing<T>(q: Ring<T>, shifted: seq<Option<T>>, index: nat)
    requires Valid(q) && index < Size(q) && |shifted| == |q.slots|
    requires Window(shifted, q.first, Size(q) - 1) == Removed(Window(q.slots, q.first, Size(q)), index)
    ensures Valid(Ring(shifted, q.first, q.last - 1, q.initial))
    ensures Elems(Ring(shifted, q.first, q.last - 1, q.initial)) == Removed(Elems(q), index)
  {
    var w := Window(q.slots, q.first, Size(q));
    var w2 := Window(shifted, q.first, Size(q) - 1);
    forall k | 0 <= k < |w2| ensures w2[k].Some? && w2[k].value == Removed(Elems(q), index)[k] {
      if k < index {
        assert w2[k] == w[k];
      } else {
        assert w2[k] == w[k + 1];
      }
    }
  }

  /** Nulling the slot just past a window leaves the window as it was. */
  lemma ClearPastWindow<T>(a: seq<Option<T>>, first: nat, m: nat)
    requires m < |a|
    ensures Window(a[Wrap(first + m, |a|) := None], first, m) == Window(a, first, m)
  {
    forall k | 0 <= k < m
      ensures Window(a[Wrap(first + m, |a|) := None], first, m)[k] == Window(a, first, m)[k]
    {
      WrapDistinct(first + k, first + m, |a|);
    }
  }

  /** The match branch of `remove(e)`: the later elements shift toward the front over
      window position `index`, `last` steps back, the slot it now names is nulled, and the
      array may shrink. */
  method CloseGap<T>(q: Ring<T>, index: nat) returns (r: Ring<T>)
    requires Valid(q) && index < Size(q)
    ensures Valid(r) && r.initial == q.initial
    ensures Elems(r) == Removed(Elems(q), index)
  {
    var shifted := ShiftDown(q.slots, q.first, Size(q), index);
    ShiftedRing(q, shifted, index);
    var last := q.last - 1;
    var cleared := shifted[Wrap(last, |shifted|) := None];
    ClearPastWindow(shifted, q.first, Size(q) - 1);
    assert q.first + (Size(q) - 1) == last;
    r := Shrink(Ring(cleared, q.first, last, q.initial));
  }

  /** `remove(e)`: the first element equal to `e`, in FIFO order, is removed, the later ones
      move toward the front, and the array may shrink; without a match nothing changes. */
  method RemoveElement<T(==)>(q: Ring<T>, e: T) returns (r: Ring<T>, removed: bool)
    requires Valid(q)
    ensures Valid(r) && r.initial == q.initial
    ensures removed <==> e in Elems(q)
    ensures !removed ==> r == q
    ensures removed ==> Elems(r) == Removed(Elems(q), FirstIndex(Elems(q), e))
  {
    ghost var s := Elems(q);
    var i := q.first;
    while i < q.last
      invariant q.first <= i <= q.last
      invariant e !in s[..i - q.first]
    {
      SlotHolds(q, i);
      if q.slots[Wrap(i, |q.slots|)].value == e {
        FirstIndexUnique(s, e, i - q.first);
        r := CloseGap(q, i - q.first);
        return r, true;
      }
      assert s[..i + 1 - q.first] == s[..i - q.first] + [s[i - q.first]];
      i := i + 1;
    }
    assert s[..i - q.first] == s;
    return q, false;
  }

  /** `contains(e)`: a scan of the window. */
  method Contains<T(==)>(q: Ring<T>, e: T) returns (found: bool)
    requires Valid(q)
    ensures found <==> e in Elems(q)
  {
    ghost var s := Elems(q);
    var i := q.first;
    while i < q.last
      invariant q.first <= i <= q.last
      invariant e !in s[..i - q.first]
    {
      SlotHolds(q, i);
      if q.slots[Wrap(i, |q.slots|)].value == e {
        return true;
      }
      assert s[..i + 1 - q.first] == s[..i - q.first] + [s[i - q.first]];
      i := i + 1;
    }
    assert s[..i - q.first] == s;
    return false;
  }

  /** `clear`: empty, with a fresh array of the initial capacity and both indices at 0. */
  function Clear<T>(q: Ring<T>): (r: Ring<T>)
    ensures Valid(r) && Elems(r) == [] && |r.slots| == q.initial == r.initial
  {
    Ring(seq(q.initial, _ => None), 0, 0, q.initial)
  }

  /** `toArray`: the window copied out front first. */
  method ToArray<T>(q: Ring<T>) returns (a: seq<T>)
    requires Valid(q)
    ensures a == Elems(q)
  {
    a := [];
    var i, j := 0, q.first;
    while i < q.last - q.first
      invariant 0 <= i <= q.last - q.first && j == q.first + i
      invariant a == Elems(q)[..i]
    {
      SlotHolds(q, j);
      a := a + [q.slots[Wrap(j, |q.slots|)].value];
      i, j := i + 1, j + 1;
    }
  }

  /** `toString` with the last slot also read modulo the length: `[]`, or the elements
      front to rear joined by `, ` inside brackets. */
  function ToString<T>(q: Ring<T>, show: T -> string): (r: string)
    requires Valid(q)
    ensures r == Text.Render(Elems(q), show)
  {
    if Size(q) == 0 then "[]"
    else
      SlotHolds(q, q.last - 1);
      WithLast(q, show, q.slots[Wrap(q.last - 1, |q.slots|)].value)
  }

  /** `toString` as written: every element but the last is read modulo the length, but the
      last one from `array[last - 1]` directly, which throws once `last` has passed the end
      of the array. Whenever it does not throw, the rendering is right. */
  function ToStringAsWritten<T>(q: Ring<T>, show: T -> string): (r: Result<string>)
    requires Valid(q)
    ensures r.Fail? <==> Size(q) > 0 && q.last > |q.slots|
    ensures r.Fail? ==> r.error == IndexOutOfBounds
    ensures r.Ok? ==> r.value == Text.Render(Elems(q), show)
  {
    if Size(q) == 0 then Ok("[]")
    else if q.last - 1 >= |q.slots| then Fail(IndexOutOfBounds)
    else
      SlotHolds(q, q.last - 1);
      Ok(WithLast(q, show, q.slots[q.last - 1].value))
  }

  /** Every element but the last with its separator, then `last` bare, in brackets. */
  function WithLast<T>(q: Ring<T>, show: T -> string, last: T): (r: string)
    requires Valid(q) && Size(q) > 0 && last == Elems(q)[Size(q) - 1]
    ensures r == Text.Render(Elems(q), show)
  {
    var s := Elems(q);
    var n := |s| - 1;
    assert Text.Shown(s, show) == Text.Shown(s[..n], show) + [show(s[n])];
    Text.TerminatedThenLast(Text.Shown(s[..n], show), show(s[n]));
    "[" + Text.Terminated(Text.Shown(s[..n], show)) + show(last) + "]"
  }

  /** The steps from capacity 1 through add, remove, add: the queue holds one element,
      but `first` is 1, past the end of the one-slot array. */
  lemma OverrunReached()
    ensures New<int>(1) == Ok(Ring([None], 0, 0, 1))
    ensures Add(Ring([None], 0, 0, 1), 7) == Ring([Some(7)], 0, 1, 1)
    ensures RemoveAsWritten(Ring([Some(7)], 0, 1, 1)) == (Ring([None], 1, 1, 1), Ok(Some(7)))
    ensures Add(Ring([None], 1, 1, 1), 8) == Overrun
  {
    NewOneSlot();
    AddToOneSlot(Ring([None], 0, 0, 1), 7);
    AddToOneSlot(Ring([None], 1, 1, 1), 8);
    RemoveFromOneSlot(7);
  }

  /** `remove()` on a one-slot ring holding one element at slot 0 empties it. */
  lemma RemoveFromOneSlot(e: int)
    ensures RemoveAsWritten(Ring([Some(e)], 0, 1, 1)) == (Ring([None], 1, 1, 1), Ok(Some(e)))
  {
    var q := Ring([Some(e)], 0, 1, 1);
    assert Wrap(0, 1) == 0;
    assert Window(q.slots, 0, 1) == [Some(e)];
    assert Peek(q) == Some(e);
    var q2: Ring<int> := Ring([None], 1, 1, 1);
    assert q.slots[0 := None] == [None];
    assert Cleared(q, 0) == q2;
    assert !Resize.ShouldShrink(1, 0, 1);
    assert Shrink(q2) == q2;
  }

  lemma NewOneSlot()
    ensures New<int>(1) == Ok(Ring([None], 0, 0, 1))
  {
    var q0 := New<int>(1).value;
    assert |q0.slots| == 1 && q0.slots[0] == None;
    assert q0.slots == [None];
  }

  /** `add` on an empty one-slot ring writes the only slot. */
  lemma AddToOneSlot(q: Ring<int>, e: int)
    requires q.slots == [None] && q.first == q.last
    ensures Add(q, e) == Ring([Some(e)], q.first, q.last + 1, q.initial)
  {
    assert Expand(q) == q;
    assert Wrap(q.last, 1) == 0 by {
      WrapIsMod(q.last, 1);
    }
  }

  /** The queue `[8]` that `OverrunReached` arrives at. */
  const Overrun: Ring<int> := Ring([Some(8)], 1, 2, 1)

  /** Both defects on that queue: `remove()` and `toString` as written throw although the
      queue holds one element, and the failed `remove()` leaves the queue empty with 8
      lost; the corrected versions return 8 and render `[8]`. */
  lemma OverrunDefects(show: int -> string)
    ensures Valid(Overrun) && Elems(Overrun) == [8]
    ensures RemoveAsWritten(Overrun) == (Ring([Some(8)], 2, 2, 1), Fail(IndexOutOfBounds))
    ensures Elems(RemoveAsWritten(Overrun).0) == []
    ensures Remove(Overrun).1 == Some(8)
    ensures ToStringAsWritten(Overrun, show) == Fail(IndexOutOfBounds)
    ensures ToString(Overrun, show) == "[" + show(8) + "]"
  {
    assert Wrap(1, 1) == 0;
    assert Window(Overrun.slots, 1, 1) == [Some(8)];
  }

  /** FIFO order: after `add(e)` on a non-empty queue, `remove()` returns the old front and
      leaves the rest followed by `e`. */
  lemma FifoOrder<T>(q: Ring<T>, e: T)
    requires Valid(q) && Elems(q) != []
    ensures Remove(Add(q, e)).1 == Some(Elems(q)[0])
    ensures Elems(Remove(Add(q, e)).0) == Elems(q)[1..] + [e]
  {
    assert (Elems(q) + [e])[1..] == Elems(q)[1..] + [e];
  }
}

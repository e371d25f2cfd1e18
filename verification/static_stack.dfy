/** `_StaticStack`: a stack on the array list of `_ArrayList` (the list operations, the
    resize policy and `clear` are those of the `ArrayList` module). Index 0 is the bottom
    and index `size - 1` the top. */
module StaticStack {
  import opened Wrappers
  import opened Positions
  import ArrayList

  /** `push(e)`: `e` goes on top, and is returned. */
  function Push<T>(s: ArrayList.List<T>, e: T): (r: (ArrayList.List<T>, T))
    requires ArrayList.Valid(s)
    ensures r.1 == e && ArrayList.Valid(r.0) && r.0.initial == s.initial
    ensures r.0.elems == s.elems + [e]
  {
    var pushed := ArrayList.Add(s, e);
    assert pushed.elems == pushed.elems[..|s.elems|] + [e];
    (pushed, e)
  }

  /** `pop()`: an empty stack throws `EmptyStackException`; otherwise the top element is
      removed and returned. */
  function Pop<T>(s: ArrayList.List<T>): (r: Result<(ArrayList.List<T>, T)>)
    requires ArrayList.Valid(s)
    ensures r.Fail? <==> s.elems == []
    ensures r.Fail? ==> r.error == EmptyStack
    ensures r.Ok? ==> r.value.1 == s.elems[|s.elems| - 1] && ArrayList.Valid(r.value.0)
                      && r.value.0.elems == s.elems[..|s.elems| - 1]
  {
    if |s.elems| == 0 then Fail(EmptyStack)
    else ArrayList.RemoveAt(s, |s.elems| - 1)
  }

  /** `peek()`: an empty stack throws `EmptyStackException`; otherwise the top element. */
  function Peek<T>(s: ArrayList.List<T>): (r: Result<T>)
    ensures r.Fail? <==> s.elems == []
    ensures r.Fail? ==> r.error == EmptyStack
    ensures r.Ok? ==> r.value == s.elems[|s.elems| - 1]
  {
    if |s.elems| == 0 then Fail(EmptyStack) else Ok(s.elems[|s.elems| - 1])
  }

  /** `search(e)`: the 1-based distance of the topmost occurrence from the top, or -1 when
      `e` is not on the stack. */
  function Search<T(==)>(s: ArrayList.List<T>, e: T): (r: int)
    ensures r == -1 <==> e !in s.elems
    ensures r != -1 ==> 1 <= r <= |s.elems| && s.elems[|s.elems| - r] == e
                        && e !in s.elems[|s.elems| - r + 1..]
  {
    var index := LastIndex(s.elems, e);
    if index >= 0 then |s.elems| - index else -1
  }

  /** `pop` undoes `push`: LIFO order. */
  lemma PopUndoesPush<T>(s: ArrayList.List<T>, e: T)
    requires ArrayList.Valid(s)
    ensures Pop(Push(s, e).0).Ok?
    ensures Pop(Push(s, e).0).value.1 == e
    ensures Pop(Push(s, e).0).value.0.elems == s.elems
  {
    assert (s.elems + [e])[..|s.elems|] == s.elems;
  }

  /** After `push(e)`, `peek` sees `e` and `search(e)` finds it at distance 1. */
  lemma PushedIsOnTop<T>(s: ArrayList.List<T>, e: T)
    requires ArrayList.Valid(s)
    ensures Peek(Push(s, e).0) == Ok(e)
    ensures Search(Push(s, e).0, e) == 1
  {
    var t := Push(s, e).0;
    LastIndexUnique(t.elems, e, |s.elems|);
  }
}

/** `_ArrayList`: a list stored in the first `size` slots of an array that grows when full
    and shrinks when mostly empty. The state is the list's contents (`array[0..size)`), the
    array's length and the capacity it was built with (`INITIAL_SIZE`). Slots at and above
    `size` hold nothing observable. The same state and operations serve `_StaticStack` and
    `_StaticQueue`, whose list code is the same line for line. */
module ArrayList {
  import opened Wrappers
  import opened Positions
  import Resize
  import Text
  import Arrays

  datatype List<T> = List(elems: seq<T>, length: nat, initial: nat)

  /** `size <= array.length`, the invariant every operation keeps. */
  predicate Valid<T>(l: List<T>) {
    |l.elems| <= l.length
  }

  /** `new _ArrayList(size)`: a negative capacity is rejected; otherwise an empty list whose
      array, and whose `INITIAL_SIZE`, is `size`. */
  function New<T>(size: int): Result<List<T>>
  {
    if size < 0 then Fail(IllegalArgument) else Ok(List([], size, size))
  }

  /** What `New` returns. */
  lemma NewIsEmpty<T>(size: int)
    ensures var r := New<T>(size); r.Fail? <==> size < 0
    ensures var r := New<T>(size); r.Fail? ==> r.error == IllegalArgument
    ensures var r := New<T>(size); r.Ok? ==> Valid(r.value) && r.value.elems == [] && r.value.length == size == r.value.initial
  {
  }

  /** `new _ArrayList()`: capacity `DEFAULT_SIZE`. */
  function Default<T>(): List<T>
  {
    List([], Resize.DEFAULT_SIZE, Resize.DEFAULT_SIZE)
  }

  /** What `Default` returns. */
  lemma DefaultIsEmpty<T>()
    ensures var l := Default<T>(); Valid(l) && l.elems == [] && l.length == l.initial == Resize.DEFAULT_SIZE
  {
  }

  /** `expandSize`: the contents are kept and there is room for one more. */
  function Expand<T>(l: List<T>): (r: List<T>)
    requires Valid(l)
    ensures Valid(r) && |r.elems| < r.length
    ensures r.elems == l.elems && r.initial == l.initial
    ensures r.length == Resize.Grown(l.length, |l.elems|)
  {
    l.(length := Resize.Grown(l.length, |l.elems|))
  }

  /** `decreaseSize`: the contents are kept and the length follows the shrink policy. */
  function Shrink<T>(l: List<T>): (r: List<T>)
    requires Valid(l)
    ensures Valid(r)
    ensures r.elems == l.elems && r.initial == l.initial
    ensures r.length == Resize.Shrunk(l.length, |l.elems|, l.initial)
  {
    l.(length := Resize.Shrunk(l.length, |l.elems|, l.initial))
  }

  /** `add(e)`: `e` is appended (and the call returns true). */
  function Add<T>(l: List<T>, e: T): (r: List<T>)
    requires Valid(l)
    ensures Valid(r) && r.initial == l.initial
    ensures |r.elems| == |l.elems| + 1 && r.elems[|l.elems|] == e
    ensures r.elems[..|l.elems|] == l.elems
    ensures r.length == Resize.Grown(l.length, |l.elems|)
  {
    var g := Expand(l);
    g.(elems := g.elems + [e])
  }

  /** `add(index, e)`: an index outside `0..size` is rejected; otherwise `e` lands at
      `index` and the elements from `index` on move up by one. */
  function AddAt<T>(l: List<T>, index: int, e: T): (r: Result<List<T>>)
    requires Valid(l)
    ensures r.Fail? <==> index < 0 || index > |l.elems|
    ensures r.Fail? ==> r.error == IllegalArgument
    ensures r.Ok? ==> Valid(r.value) && r.value.initial == l.initial
                      && r.value.elems == Inserted(l.elems, index, e)
                      && r.value.length == Resize.Grown(l.length, |l.elems|)
  {
    if index < 0 || index > |l.elems| then Fail(IllegalArgument)
    else
      var g := Expand(l);
      Ok(g.(elems := Inserted(g.elems, index, e)))
  }

  /** `get(index)`: the element at `index`, or a rejection outside `[0, size)`. */
  function Get<T>(l: List<T>, index: int): (r: Result<T>)
    ensures r.Fail? <==> !(0 <= index < |l.elems|)
    ensures r.Fail? ==> r.error == IllegalArgument
    ensures r.Ok? ==> r.value in l.elems && r.value == l.elems[index]
  {
    if 0 <= index < |l.elems| then Ok(l.elems[index]) else Fail(IllegalArgument)
  }

  /** `set(index, e)`: returns the old element; only slot `index` changes. */
  function Set<T>(l: List<T>, index: int, e: T): (r: Result<(List<T>, T)>)
    requires Valid(l)
    ensures r.Fail? <==> Get(l, index).Fail?
    ensures r.Fail? ==> r.error == IllegalArgument
    ensures r.Ok? ==> r.value.1 == Get(l, index).value && Valid(r.value.0)
                      && r.value.0.length == l.length && r.value.0.initial == l.initial
                      && |r.value.0.elems| == |l.elems| && r.value.0.elems[index] == e
                      && forall k :: 0 <= k < |l.elems| && k != index ==>
                           r.value.0.elems[k] == l.elems[k]
  {
    var previous :- Get(l, index);
    Ok((l.(elems := l.elems[index := e]), previous))
  }

  /** `remove(index)`: an index outside `[0, size)` is rejected; otherwise the element there
      is returned, the elements above it move down by one, and the array may shrink. */
  function RemoveAt<T>(l: List<T>, index: int): (r: Result<(List<T>, T)>)
    requires Valid(l)
    ensures r.Fail? <==> Get(l, index).Fail?
    ensures r.Fail? ==> r.error == IllegalArgument
    ensures r.Ok? ==> r.value.1 == l.elems[index] && Valid(r.value.0)
                      && r.value.0.initial == l.initial
                      && r.value.0.elems == Removed(l.elems, index)
                      && r.value.0.length == Resize.Shrunk(l.length, |l.elems| - 1, l.initial)
  {
    var removed :- Get(l, index);
    Ok((Shrink(l.(elems := Removed(l.elems, index))), removed))
  }

  /** `remove(e)`: removes the first occurrence and answers whether there was one; with no
      occurrence the list is untouched. */
  function RemoveElement<T(==)>(l: List<T>, e: T): (r: (List<T>, bool))
    requires Valid(l)
    ensures Valid(r.0) && r.0.initial == l.initial
    ensures r.1 <==> e in l.elems
    ensures !r.1 ==> r.0 == l
    ensures r.1 ==> |r.0.elems| == |l.elems| - 1
                    && multiset(r.0.elems) + multiset{e} == multiset(l.elems)
                    && r.0.elems == Removed(l.elems, FirstIndex(l.elems, e))
  {
    var index := FirstIndex(l.elems, e);
    if index < 0 then (l, false)
    else (RemoveAt(l, index).value.0, true)
  }

  /** `contains(e)`: `indexOf(e) >= 0`. */
  function Contains<T(==)>(l: List<T>, e: T): (r: bool)
    ensures r <==> exists k :: 0 <= k < |l.elems| && l.elems[k] == e
  {
    FirstIndex(l.elems, e) >= 0
  }

  /** `clear`: empty, with a fresh array of the initial capacity. */
  function Clear<T>(l: List<T>): (r: List<T>)
    ensures Valid(r) && r.elems == [] && r.length == l.initial && r.initial == l.initial
  {
    List([], l.initial, l.initial)
  }

  /** `toArray`: a copy of the first `size` slots, in order. */
  method ToArray<T>(l: List<T>) returns (a: seq<T>)
    ensures a == l.elems
  {
    a := [];
    var i := 0;
    while i < |l.elems|
      invariant 0 <= i <= |l.elems|
      invariant a == l.elems[..i]
    {
      a := a + [l.elems[i]];
      i := i + 1;
    }
  }

  /** `toString`: the first `size` slots rendered exactly as `_Arrays.toString` renders an
      array holding them. */
  method ToString<T>(l: List<T>, show: T -> string) returns (str: string)
    ensures str == Text.Render(l.elems, show)
    ensures l.elems == [] ==> str == "[]"
  {
    str := Arrays.ToString(l.elems, show);
  }

  /** `set` followed by `get` at the same index yields the value written, and any other
      index is unaffected. */
  lemma GetAfterSet<T>(l: List<T>, i: int, j: int, e: T)
    requires Valid(l) && 0 <= i < |l.elems| && 0 <= j < |l.elems|
    ensures Get(Set(l, i, e).value.0, j) == Ok(if i == j then e else l.elems[j])
  {
  }

  /** `remove(index)` undoes `add(index, e)`: the same contents come back, along with `e`. */
  lemma RemoveAtUndoesAddAt<T>(l: List<T>, index: int, e: T)
    requires Valid(l) && 0 <= index <= |l.elems|
    ensures AddAt(l, index, e).Ok?
    ensures RemoveAt(AddAt(l, index, e).value, index).Ok?
    ensures RemoveAt(AddAt(l, index, e).value, index).value.0.elems == l.elems
    ensures RemoveAt(AddAt(l, index, e).value, index).value.1 == e
  {
    RemovedInserted(l.elems, index, e);
  }

  /** Adding at index `size` is the same as appending. */
  lemma AddAtEndIsAdd<T>(l: List<T>, e: T)
    requires Valid(l)
    ensures AddAt(l, |l.elems|, e) == Ok(Add(l, e))
  {
    assert Inserted(l.elems, |l.elems|, e) == l.elems + [e];
  }
}

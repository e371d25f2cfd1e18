/** `_Hashtable`: separate chaining over a fixed number of buckets.

    `table[i]`'s chain of `_Entry` nodes, followed through `next`, is `buckets[i]`, first
    entry first; `CAPACITY` is the number of buckets. Java's `key.hashCode()` is the parameter
    `code`, and a `null` key or value passed in is `None`. What the table means is
    `Lookup`: the value of the first entry holding a key, searching every bucket in order,
    with no hashing involved. `Valid` is the invariant the operations keep: each key sits only
    in the bucket its hash code selects, at most once, and `size` counts the entries. */
module Hashtable {
  import opened Wrappers
  import opened Positions

  /** One `_Entry`: a key and its value; the `next` link is the order of the bucket. */
  datatype Entry<K, V> = Entry(key: K, value: V)

  datatype Table<K, V> = Table(buckets: seq<seq<Entry<K, V>>>, size: int)

  /** Java's `c % m` for `m > 0`: the remainder truncated toward zero, so it carries the sign
      of `c`. */
  function JavaRem(c: int, m: int): (r: int)
    requires m > 0
    ensures -m < r < m
    ensures c >= 0 ==> r >= 0
    ensures c <= 0 ==> r <= 0
  {
    if c >= 0 then c % m else -((-c) % m)
  }

  /** The bucket a hash code belongs in: the remainder of its magnitude. */
  function Slot(c: int, m: nat): (r: nat)
    requires m > 0
    ensures r < m
  {
    (if c < 0 then -c else c) % m
  }

  /** `hash` (lines 259-265) of a key whose hash code is `c`, in a table of `m` buckets: the
      remainder is flipped to non-negative, and a table of no buckets divides by zero. */
  function Hash(c: int, m: nat): (r: Result<nat>)
    ensures r.Fail? <==> m == 0
    ensures r.Fail? ==> r.error == Arithmetic
    ensures r.Ok? ==> r.value == Slot(c, m)
  {
    if m == 0 then Fail(Arithmetic)
    else
      var h := JavaRem(c, m);
      Ok(if h < 0 then -h else h)
  }

  /** `hash(key)` on a key that may be null: `key.hashCode()` throws first. */
  function HashOf<K(==, !new), V>(t: Table<K, V>, code: K -> int, key: Option<K>): (r: Result<nat>)
    ensures r.Fail? <==> key.None? || |t.buckets| == 0
    ensures r.Fail? ==> r.error == (if key.None? then NullPointer else Arithmetic)
    ensures r.Ok? ==> r.value < |t.buckets| && r.value == Slot(code(key.value), |t.buckets|)
  {
    if key.None? then Fail(NullPointer) else Hash(code(key.value), |t.buckets|)
  }

  /** The scan of one chain (`getEntryByKey`, lines 225-234): the value next to `k`. */
  function Find<K(==, !new), V>(b: seq<Entry<K, V>>, k: K): (r: Option<V>)
    ensures r.None? <==> forall j :: 0 <= j < |b| ==> b[j].key != k
    ensures r.Some? ==> exists j :: 0 <= j < |b| && b[j] == Entry(k, r.value)
  {
    if b == [] then None
    else if b[0].key == k then Some(b[0].value)
    else
      var r := Find(b[1..], k);
      assert forall j :: 1 <= j < |b| ==> b[j] == b[1..][j - 1];
      r
  }

  /** The scan of one chain in `put` and `remove` (lines 82-87, 98-115): how many entries
      come before the one holding `k`, or the chain's length when none does. */
  function Position<K(==, !new), V>(b: seq<Entry<K, V>>, k: K): (j: nat)
    ensures j <= |b|
    ensures forall i :: 0 <= i < j ==> b[i].key != k
    ensures j < |b| ==> b[j].key == k
  {
    if b == [] then 0
    else if b[0].key == k then 0
    else 1 + Position(b[1..], k)
  }

  /** What the table maps `k` to: the first bucket holding `k` decides. */
  function Lookup<K(==, !new), V>(bs: seq<seq<Entry<K, V>>>, k: K): (r: Option<V>)
    ensures r.None? <==> forall i, j :: 0 <= i < |bs| && 0 <= j < |bs[i]| ==> bs[i][j].key != k
    ensures r.Some? ==> exists i, j :: 0 <= i < |bs| && 0 <= j < |bs[i]| && bs[i][j] == Entry(k, r.value)
  {
    if bs == [] then None
    else
      assert forall i :: 1 <= i < |bs| ==> bs[i] == bs[1..][i - 1];
      match Find(bs[0], k)
      case Some(v) => Some(v)
      case None => Lookup(bs[1..], k)
  }

  /** The number of entries in all the chains. */
  function Count<K(==, !new), V>(bs: seq<seq<Entry<K, V>>>): nat {
    if bs == [] then 0 else |bs[0]| + Count(bs[1..])
  }

  predicate UniqueKeys<K(==, !new), V>(b: seq<Entry<K, V>>) {
    forall i, j :: 0 <= i < j < |b| ==> b[i].key != b[j].key
  }

  /** Every key of chain `b` hashes to bucket `h` of `m`. */
  predicate Homed<K(==, !new), V>(b: seq<Entry<K, V>>, code: K -> int, m: nat, h: nat) {
    m > 0 && forall j :: 0 <= j < |b| ==> Slot(code(b[j].key), m) == h
  }

  predicate Valid<K(==, !new), V>(t: Table<K, V>, code: K -> int) {
    && (forall i :: 0 <= i < |t.buckets| ==> Homed(t.buckets[i], code, |t.buckets|, i))
    && (forall i :: 0 <= i < |t.buckets| ==> UniqueKeys(t.buckets[i]))
    && t.size == Count(t.buckets)
  }

  /** Two entries holding the same key are one entry. */
  lemma SameKeySamePlace<K(!new), V>(t: Table<K, V>, code: K -> int, i1: int, j1: int, i2: int, j2: int)
    requires Valid(t, code)
    requires 0 <= i1 < |t.buckets| && 0 <= j1 < |t.buckets[i1]|
    requires 0 <= i2 < |t.buckets| && 0 <= j2 < |t.buckets[i2]|
    requires t.buckets[i1][j1].key == t.buckets[i2][j2].key
    ensures i1 == i2 && j1 == j2
  {
    assert Homed(t.buckets[i1], code, |t.buckets|, i1) && Homed(t.buckets[i2], code, |t.buckets|, i2);
    assert UniqueKeys(t.buckets[i1]);
  }

  /** Every entry of a valid table is what its key is bound to. */
  lemma EntryBound<K(!new), V>(t: Table<K, V>, code: K -> int, i: int, j: int)
    requires Valid(t, code) && 0 <= i < |t.buckets| && 0 <= j < |t.buckets[i]|
    ensures Lookup(t.buckets, t.buckets[i][j].key) == Some(t.buckets[i][j].value)
  {
    var e := t.buckets[i][j];
    var r := Lookup(t.buckets, e.key);
    assert r.Some?;
    var i2, j2 :| 0 <= i2 < |t.buckets| && 0 <= j2 < |t.buckets[i2]| && t.buckets[i2][j2] == Entry(e.key, r.value);
    SameKeySamePlace(t, code, i, j, i2, j2);
  }

  /** Searching only the bucket a key hashes to finds what searching every bucket finds. */
  lemma HomeFind<K(!new), V>(t: Table<K, V>, code: K -> int, k: K)
    requires Valid(t, code) && |t.buckets| > 0
    ensures Lookup(t.buckets, k) == Find(t.buckets[Slot(code(k), |t.buckets|)], k)
  {
    var h := Slot(code(k), |t.buckets|);
    var f := Find(t.buckets[h], k);
    if f.Some? {
      var j :| 0 <= j < |t.buckets[h]| && t.buckets[h][j] == Entry(k, f.value);
      EntryBound(t, code, h, j);
    } else {
      forall i, j | 0 <= i < |t.buckets| && 0 <= j < |t.buckets[i]|
        ensures t.buckets[i][j].key != k
      {
        assert Homed(t.buckets[i], code, |t.buckets|, i);
      }
    }
  }

  lemma {:induction false} CountUpdate<K(!new), V>(bs: seq<seq<Entry<K, V>>>, h: int, b: seq<Entry<K, V>>)
    requires 0 <= h < |bs|
    ensures Count(bs[h := b]) == Count(bs) - |bs[h]| + |b|
  {
    if h > 0 {
      assert bs[h := b][1..] == bs[1..][h - 1 := b];
      CountUpdate(bs[1..], h - 1, b);
    } else {
      assert bs[h := b][1..] == bs[1..];
    }
  }

  /** Replacing one chain by another that keeps the invariant keeps the table valid. */
  lemma Rechained<K(!new), V>(t: Table<K, V>, code: K -> int, h: int, b: seq<Entry<K, V>>)
    requires Valid(t, code) && 0 <= h < |t.buckets|
    requires Homed(b, code, |t.buckets|, h) && UniqueKeys(b)
    ensures Valid(Table(t.buckets[h := b], t.size - |t.buckets[h]| + |b|), code)
  {
    CountUpdate(t.buckets, h, b);
  }

  /** After one chain is replaced, keys of other buckets are bound as before. */
  lemma Rebucket<K(!new), V>(t: Table<K, V>, r: Table<K, V>, code: K -> int, h: int, k: K)
    requires Valid(t, code) && Valid(r, code) && 0 <= h < |t.buckets|
    requires |r.buckets| == |t.buckets| && r.buckets == t.buckets[h := r.buckets[h]]
    ensures Lookup(r.buckets, k) == if Slot(code(k), |t.buckets|) == h then Find(r.buckets[h], k) else Lookup(t.buckets, k)
  {
    HomeFind(t, code, k);
    HomeFind(r, code, k);
  }

  /** `setValue` on the `j`th entry of a chain rebinds only its key. */
  lemma FindSet<K(!new), V>(b: seq<Entry<K, V>>, j: int, v: V, k: K)
    requires UniqueKeys(b) && 0 <= j < |b|
    ensures UniqueKeys(b[j := b[j].(value := v)])
    ensures Find(b[j := b[j].(value := v)], k) == if k == b[j].key then Some(v) else Find(b, k)
  {
    var b2 := b[j := b[j].(value := v)];
    var f := Find(b2, k);
    if f.Some? {
      var i :| 0 <= i < |b2| && b2[i] == Entry(k, f.value);
      if i != j {
        assert b[i] == Entry(k, f.value);
        var g := Find(b, k);
        var i2 :| 0 <= i2 < |b| && b[i2] == Entry(k, g.value);
      }
    } else {
      assert forall i :: 0 <= i < |b| ==> b[i].key == b2[i].key;
    }
  }

  /** In a chain of distinct keys, each entry is what the scan finds for its key. */
  lemma {:induction false} FindAt<K(!new), V>(b: seq<Entry<K, V>>, i: int)
    requires UniqueKeys(b) && 0 <= i < |b|
    ensures Find(b, b[i].key) == Some(b[i].value)
  {
    if b[0].key != b[i].key {
      assert UniqueKeys(b[1..]) && b[1..][i - 1] == b[i];
      FindAt(b[1..], i - 1);
    }
  }

  /** Unlinking an entry keeps the keys of a chain distinct. */
  lemma RemovedUnique<K(!new), V>(b: seq<Entry<K, V>>, j: int)
    requires UniqueKeys(b) && 0 <= j < |b|
    ensures UniqueKeys(Removed(b, j))
  {
    var b2 := Removed(b, j);
    forall i1, i2 | 0 <= i1 < i2 < |b2| ensures b2[i1].key != b2[i2].key {
      var x1 := if i1 < j then i1 else i1 + 1;
      var x2 := if i2 < j then i2 else i2 + 1;
      assert b2[i1] == b[x1] && b2[i2] == b[x2] && x1 < x2;
    }
  }

  /** Unlinking the `j`th entry of a chain unbinds only its key. */
  lemma FindRemoved<K(!new), V>(b: seq<Entry<K, V>>, j: int, k: K)
    requires UniqueKeys(b) && 0 <= j < |b|
    ensures UniqueKeys(Removed(b, j))
    ensures Find(Removed(b, j), k) == if k == b[j].key then None else Find(b, k)
  {
    RemovedUnique(b, j);
    var b2 := Removed(b, j);
    var f := Find(b2, k);
    if f.Some? {
      var i :| 0 <= i < |b2| && b2[i] == Entry(k, f.value);
      var i1 := if i < j then i else i + 1;
      assert b[i1] == Entry(k, f.value);
      FindAt(b, i1);
    } else if k != b[j].key {
      forall i | 0 <= i < |b| ensures b[i].key != k {
        if i < j {
          assert b2[i] == b[i];
        } else if i > j {
          assert b2[i - 1] == b[i];
        }
      }
    }
  }

  /** A new entry in front of a chain binds its key. */
  lemma FindPrepended<K(!new), V>(b: seq<Entry<K, V>>, e: Entry<K, V>, k: K)
    ensures Find([e] + b, k) == if k == e.key then Some(e.value) else Find(b, k)
  {
    assert ([e] + b)[1..] == b;
  }

  /** The table after `j`th entry of bucket `h` takes the value `v`. */
  lemma Assigned<K(!new), V>(t: Table<K, V>, r: Table<K, V>, code: K -> int, h: int, j: int, v: V)
    requires Valid(t, code) && 0 <= h < |t.buckets| && 0 <= j < |t.buckets[h]|
    requires r == Table(t.buckets[h := t.buckets[h][j := t.buckets[h][j].(value := v)]], t.size)
    ensures Valid(r, code)
    ensures forall k :: Lookup(r.buckets, k) == if k == t.buckets[h][j].key then Some(v) else Lookup(t.buckets, k)
  {
    var b := t.buckets[h];
    FindSet(b, j, v, b[j].key);
    assert forall i :: 0 <= i < |b| ==> b[j := b[j].(value := v)][i].key == b[i].key;
    assert Homed(b, code, |t.buckets|, h);
    Rechained(t, code, h, b[j := b[j].(value := v)]);
    forall k ensures Lookup(r.buckets, k) == if k == b[j].key then Some(v) else Lookup(t.buckets, k) {
      Rebucket(t, r, code, h, k);
      FindSet(b, j, v, k);
      HomeFind(t, code, k);
    }
  }

  /** The table after a new entry `(k, v)` heads bucket `h`. */
  lemma Prepended<K(!new), V>(t: Table<K, V>, r: Table<K, V>, code: K -> int, h: int, k: K, v: V)
    requires Valid(t, code) && 0 <= h < |t.buckets| && h == Slot(code(k), |t.buckets|)
    requires Find(t.buckets[h], k).None?
    requires r == Table(t.buckets[h := [Entry(k, v)] + t.buckets[h]], t.size + 1)
    ensures Valid(r, code)
    ensures forall k2 :: Lookup(r.buckets, k2) == if k2 == k then Some(v) else Lookup(t.buckets, k2)
  {
    var b := t.buckets[h];
    var b2 := [Entry(k, v)] + b;
    assert Homed(b, code, |t.buckets|, h);
    assert forall i :: 1 <= i < |b2| ==> b2[i] == b[i - 1];
    Rechained(t, code, h, b2);
    forall k2 ensures Lookup(r.buckets, k2) == if k2 == k then Some(v) else Lookup(t.buckets, k2) {
      Rebucket(t, r, code, h, k2);
      FindPrepended(b, Entry(k, v), k2);
      HomeFind(t, code, k2);
    }
  }

  /** The table after the `j`th entry of bucket `h` is unlinked. */
  lemma Dropped<K(!new), V>(t: Table<K, V>, r: Table<K, V>, code: K -> int, h: int, j: int)
    requires Valid(t, code) && 0 <= h < |t.buckets| && 0 <= j < |t.buckets[h]|
    requires r == Table(t.buckets[h := Removed(t.buckets[h], j)], t.size - 1)
    ensures Valid(r, code)
    ensures forall k :: Lookup(r.buckets, k) == if k == t.buckets[h][j].key then None else Lookup(t.buckets, k)
  {
    var b := t.buckets[h];
    FindRemoved(b, j, b[j].key);
    assert Homed(b, code, |t.buckets|, h);
    Rechained(t, code, h, Removed(b, j));
    forall k ensures Lookup(r.buckets, k) == if k == b[j].key then None else Lookup(t.buckets, k) {
      Rebucket(t, r, code, h, k);
      FindRemoved(b, j, k);
      HomeFind(t, code, k);
    }
  }

  /** The constructor `_Hashtable(initialCapacity)` (lines 31-38): a negative capacity is
      rejected, and every other one, 0 included, gives that many empty buckets. */
  function New<K(==, !new), V>(capacity: int): Result<Table<K, V>>
  {
    if capacity < 0 then Fail(IllegalArgument)
    else
      var t := Table(seq(capacity, _ => []), 0);
      EmptyCount(t.buckets);
      Ok(t)
  }

  /** What `New` returns. */
  lemma NewIsEmpty<K(!new), V>(capacity: int)
    ensures var r := New<K, V>(capacity); r.Fail? <==> capacity < 0
    ensures var r := New<K, V>(capacity); r.Fail? ==> r.error == IllegalArgument
    ensures var r := New<K, V>(capacity); r.Ok? ==> |r.value.buckets| == capacity && r.value.size == 0
    ensures var r := New<K, V>(capacity); r.Ok? ==> forall code :: Valid(r.value, code)
    ensures var r := New<K, V>(capacity); r.Ok? ==> forall k :: Lookup(r.value.buckets, k).None?
  {
    if New<K, V>(capacity).Ok? {
      EmptyCount(New<K, V>(capacity).value.buckets);
    }
  }

  /** The constructor with capacity 0 gives a table on which every key operation divides by
      zero. */
  lemma ZeroCapacityFailsEveryKey<K(!new), V>(code: K -> int, k: K, v: V)
    ensures New<K, V>(0).Ok?
    ensures Put(New<K, V>(0).value, code, Some(k), Some(v)) == Fail(Arithmetic)
    ensures Get(New<K, V>(0).value, code, Some(k)) == Fail(Arithmetic)
  {
    NewIsEmpty<K, V>(0);
    assert Valid(New<K, V>(0).value, code);
  }

  /** The constructor rejecting a capacity below 1, so that `hash` never divides by zero. */
  function NewChecked<K(==, !new), V>(capacity: int): Result<Table<K, V>>
  {
    if capacity < 1 then Fail(IllegalArgument)
    else
      var t := Table(seq(capacity, _ => []), 0);
      EmptyCount(t.buckets);
      Ok(t)
  }

  /** What `NewChecked` returns. */
  lemma NewCheckedIsEmpty<K(!new), V>(capacity: int)
    ensures var r := NewChecked<K, V>(capacity); r.Fail? <==> capacity < 1
    ensures var r := NewChecked<K, V>(capacity); r.Fail? ==> r.error == IllegalArgument
    ensures var r := NewChecked<K, V>(capacity); r.Ok? ==> |r.value.buckets| == capacity && r.value.size == 0
    ensures var r := NewChecked<K, V>(capacity); r.Ok? ==> forall code :: Valid(r.value, code)
    ensures var r := NewChecked<K, V>(capacity); r.Ok? ==> forall k :: Lookup(r.value.buckets, k).None?
  {
    if NewChecked<K, V>(capacity).Ok? {
      EmptyCount(NewChecked<K, V>(capacity).value.buckets);
    }
  }

  /** A table the checked constructor gives accepts every non-null key and value. */
  lemma CheckedTakesEveryKey<K(!new), V>(capacity: int, code: K -> int, k: K, v: V)
    requires capacity >= 1
    ensures NewChecked<K, V>(capacity).Ok? && Valid(NewChecked<K, V>(capacity).value, code)
    ensures Put(NewChecked<K, V>(capacity).value, code, Some(k), Some(v)).Ok?
    ensures Get(NewChecked<K, V>(capacity).value, code, Some(k)) == Ok(None)
  {
    NewCheckedIsEmpty<K, V>(capacity);
    assert Valid(NewChecked<K, V>(capacity).value, code);
  }

  /** The default constructor (lines 40-44): ten empty buckets. */
  function Default<K(==, !new), V>(): Table<K, V>
  {
    NewChecked(10).value
  }

  /** What `Default` returns. */
  lemma DefaultIsEmpty<K(!new), V>()
    ensures var r := Default<K, V>(); |r.buckets| == 10 && forall code :: Valid(r, code)
    ensures var r := Default<K, V>(); forall k :: Lookup(r.buckets, k).None?
  {
    NewCheckedIsEmpty<K, V>(10);
  }

  /** `isEmpty()` (lines 51-54): the size is 0 exactly when no key is bound. */
  function IsEmpty<K(==, !new), V>(t: Table<K, V>, code: K -> int): (r: bool)
    requires Valid(t, code)
    ensures r <==> forall k :: Lookup(t.buckets, k).None?
  {
    if t.size == 0 then
      NoEntries(t.buckets);
      true
    else
      var i := NonEmptyBucket(t.buckets);
      assert Lookup(t.buckets, t.buckets[i][0].key).Some?;
      false
  }

  lemma {:induction false} NoEntries<K(!new), V>(bs: seq<seq<Entry<K, V>>>)
    requires Count(bs) == 0
    ensures forall i :: 0 <= i < |bs| ==> bs[i] == []
  {
    if bs != [] {
      NoEntries(bs[1..]);
      assert forall i :: 1 <= i < |bs| ==> bs[i] == bs[1..][i - 1];
    }
  }

  function NonEmptyBucket<K(==, !new), V>(bs: seq<seq<Entry<K, V>>>): (i: nat)
    requires Count(bs) > 0
    ensures i < |bs| && bs[i] != []
  {
    if bs[0] != [] then 0 else 1 + NonEmptyBucket(bs[1..])
  }

  /** `get(key)` (lines 69-73): the value bound to the key, found in its own bucket only. */
  function Get<K(==, !new), V>(t: Table<K, V>, code: K -> int, key: Option<K>): (r: Result<Option<V>>)
    requires Valid(t, code)
    ensures r.Fail? <==> key.None? || |t.buckets| == 0
    ensures r.Fail? ==> r.error == (if key.None? then NullPointer else Arithmetic)
    ensures r.Ok? ==> r.value == Lookup(t.buckets, key.value)
  {
    var h :- HashOf(t, code, key);
    HomeFind(t, code, key.value);
    Ok(Find(t.buckets[h], key.value))
  }

  /** `containsKey(key)` (lines 56-59): whether the key is bound. */
  function ContainsKey<K(==, !new), V>(t: Table<K, V>, code: K -> int, key: Option<K>): (r: Result<bool>)
    requires Valid(t, code)
    ensures r.Fail? <==> key.None? || |t.buckets| == 0
    ensures r.Fail? ==> r.error == (if key.None? then NullPointer else Arithmetic)
    ensures r.Ok? ==> (r.value <==> exists i, j :: 0 <= i < |t.buckets| && 0 <= j < |t.buckets[i]| && t.buckets[i][j].key == key.value)
  {
    var v :- Get(t, code, key);
    Ok(v.Some?)
  }

  /** `put(key, value)` (lines 75-92): a null value throws before the key is hashed; a bound
      key takes the new value in place, and an unbound one heads its bucket's chain. */
  function Put<K(==, !new), V>(t: Table<K, V>, code: K -> int, key: Option<K>, value: Option<V>): (r: Result<(Table<K, V>, V)>)
    requires Valid(t, code)
    ensures r.Fail? <==> value.None? || key.None? || |t.buckets| == 0
    ensures r.Fail? ==> r.error == (if value.None? || key.None? then NullPointer else Arithmetic)
    ensures r.Ok? ==> Valid(r.value.0, code) && r.value.1 == value.value
    ensures r.Ok? ==> |r.value.0.buckets| == |t.buckets|
    ensures r.Ok? ==> r.value.0.size == t.size + (if Lookup(t.buckets, key.value).None? then 1 else 0)
    ensures r.Ok? ==> forall k :: Lookup(r.value.0.buckets, k) == if k == key.value then value else Lookup(t.buckets, k)
  {
    if value.None? then Fail(NullPointer)
    else
      var h :- HashOf(t, code, key);
      var b := t.buckets[h];
      var j := Position(b, key.value);
      HomeFind(t, code, key.value);
      if j < |b| then
        var r := Table(t.buckets[h := b[j := b[j].(value := value.value)]], t.size);
        Assigned(t, r, code, h, j, value.value);
        Ok((r, value.value))
      else
        var r := Table(t.buckets[h := [Entry(key.value, value.value)] + b], t.size + 1);
        Prepended(t, r, code, h, key.value, value.value);
        Ok((r, value.value))
  }

  /** `remove(key)` (lines 94-117): unlinks the key's entry and answers its value, or null
      and no change when the key is unbound. */
  function Remove<K(==, !new), V>(t: Table<K, V>, code: K -> int, key: Option<K>): (r: Result<(Table<K, V>, Option<V>)>)
    requires Valid(t, code)
    ensures r.Fail? <==> key.None? || |t.buckets| == 0
    ensures r.Fail? ==> r.error == (if key.None? then NullPointer else Arithmetic)
    ensures r.Ok? ==> Valid(r.value.0, code) && r.value.1 == Lookup(t.buckets, key.value)
    ensures r.Ok? ==> r.value.0.size == t.size - (if r.value.1.Some? then 1 else 0)
    ensures r.Ok? ==> forall k :: Lookup(r.value.0.buckets, k) == if k == key.value then None else Lookup(t.buckets, k)
    ensures r.Ok? && r.value.1.None? ==> r.value.0 == t
  {
    var h :- HashOf(t, code, key);
    var b := t.buckets[h];
    var j := Position(b, key.value);
    HomeFind(t, code, key.value);
    if j == |b| then Ok((t, None))
    else
      var r := Table(t.buckets[h := Removed(b, j)], t.size - 1);
      Dropped(t, r, code, h, j);
      Ok((r, Some(b[j].value)))
  }

  /** `remove(key, value)` (lines 137-159): unlinks the key's entry only when it holds
      `value`. A null `value` throws only once the key's entry is reached; keys are unique in
      a chain, so the scan past that entry finds nothing. */
  function RemovePair<K(==, !new), V(==)>(t: Table<K, V>, code: K -> int, key: Option<K>, value: Option<V>): (r: Result<(Table<K, V>, bool)>)
    requires Valid(t, code)
    ensures r.Fail? <==> key.None? || |t.buckets| == 0 || (value.None? && Lookup(t.buckets, key.value).Some?)
    ensures r.Fail? ==> r.error == (if key.None? || |t.buckets| > 0 then NullPointer else Arithmetic)
    ensures r.Ok? ==> Valid(r.value.0, code)
    ensures r.Ok? ==> (r.value.1 <==> value.Some? && Lookup(t.buckets, key.value) == value)
    ensures r.Ok? && r.value.1 ==> r.value.0.size == t.size - 1
    ensures r.Ok? && r.value.1 ==> forall k :: Lookup(r.value.0.buckets, k) == if k == key.value then None else Lookup(t.buckets, k)
    ensures r.Ok? && !r.value.1 ==> r.value.0 == t
  {
    var h :- HashOf(t, code, key);
    var b := t.buckets[h];
    var j := Position(b, key.value);
    HomeFind(t, code, key.value);
    if j == |b| then Ok((t, false))
    else
      EntryBound(t, code, h, j);
      if value.None? then Fail(NullPointer)
      else if b[j].value == value.value then
        var r := Table(t.buckets[h := Removed(b, j)], t.size - 1);
        Dropped(t, r, code, h, j);
        Ok((r, true))
      else Ok((t, false))
  }

  /** `replace(key, newValue)` (lines 174-186): a bound key takes the new value and the old
      one is answered; an unbound key changes nothing and answers null. */
  function Replace<K(==, !new), V>(t: Table<K, V>, code: K -> int, key: Option<K>, newValue: Option<V>): (r: Result<(Table<K, V>, Option<V>)>)
    requires Valid(t, code)
    ensures r.Fail? <==> newValue.None? || key.None? || |t.buckets| == 0
    ensures r.Fail? ==> r.error == (if newValue.None? || key.None? then NullPointer else Arithmetic)
    ensures r.Ok? ==> Valid(r.value.0, code) && r.value.0.size == t.size
    ensures r.Ok? ==> r.value.1 == Lookup(t.buckets, key.value)
    ensures r.Ok? ==> forall k :: Lookup(r.value.0.buckets, k) == if k == key.value && r.value.1.Some? then newValue else Lookup(t.buckets, k)
  {
    if newValue.None? then Fail(NullPointer)
    else
      var h :- HashOf(t, code, key);
      var b := t.buckets[h];
      var j := Position(b, key.value);
      HomeFind(t, code, key.value);
      if j == |b| then Ok((t, None))
      else
        var r := Table(t.buckets[h := b[j := b[j].(value := newValue.value)]], t.size);
        Assigned(t, r, code, h, j, newValue.value);
        Ok((r, Some(b[j].value)))
  }

  /** `replace(key, oldValue, newValue)` (lines 161-172, with `getEntry`, lines 208-216): the
      key takes the new value only when it is bound to `oldValue`. A null `oldValue` throws
      only once the key's entry is reached. */
  function ReplacePair<K(==, !new), V(==)>(t: Table<K, V>, code: K -> int, key: Option<K>, oldValue: Option<V>, newValue: Option<V>): (r: Result<(Table<K, V>, bool)>)
    requires Valid(t, code)
    ensures r.Fail? <==> newValue.None? || key.None? || |t.buckets| == 0 || (oldValue.None? && Lookup(t.buckets, key.value).Some?)
    ensures r.Fail? ==> r.error == (if newValue.None? || key.None? || |t.buckets| > 0 then NullPointer else Arithmetic)
    ensures r.Ok? ==> Valid(r.value.0, code) && r.value.0.size == t.size
    ensures r.Ok? ==> (r.value.1 <==> oldValue.Some? && Lookup(t.buckets, key.value) == oldValue)
    ensures r.Ok? && r.value.1 ==> forall k :: Lookup(r.value.0.buckets, k) == if k == key.value then newValue else Lookup(t.buckets, k)
    ensures r.Ok? && !r.value.1 ==> r.value.0 == t
  {
    if newValue.None? then Fail(NullPointer)
    else
      var h :- HashOf(t, code, key);
      var b := t.buckets[h];
      var j := Position(b, key.value);
      HomeFind(t, code, key.value);
      if j == |b| then Ok((t, false))
      else
        EntryBound(t, code, h, j);
        if oldValue.None? then Fail(NullPointer)
        else if b[j].value == oldValue.value then
          var r := Table(t.buckets[h := b[j := b[j].(value := newValue.value)]], t.size);
          Assigned(t, r, code, h, j, newValue.value);
          Ok((r, true))
        else Ok((t, false))
  }

  /** `containsValue(value)` (lines 61-67, with `getEntryByValue`, lines 243-252): every
      chain is scanned, so a table of no buckets answers false rather than throwing. */
  method ContainsValue<K(==, !new), V(==)>(t: Table<K, V>, code: K -> int, value: Option<V>) returns (r: Result<bool>)
    requires Valid(t, code)
    ensures r.Fail? <==> value.None?
    ensures r.Fail? ==> r.error == NullPointer
    ensures r.Ok? ==> (r.value <==> exists k :: Lookup(t.buckets, k) == value)
  {
    if value.None? {
      return Fail(NullPointer);
    }
    var v := value.value;
    var i := 0;
    while i < |t.buckets|
      invariant 0 <= i <= |t.buckets|
      invariant forall row, j :: 0 <= row < i && 0 <= j < |t.buckets[row]| ==> t.buckets[row][j].value != v
    {
      var b := t.buckets[i];
      var j := 0;
      while j < |b|
        invariant 0 <= j <= |b|
        invariant forall col :: 0 <= col < j ==> b[col].value != v
      {
        if b[j].value == v {
          EntryBound(t, code, i, j);
          return Ok(true);
        }
        j := j + 1;
      }
      i := i + 1;
    }
    forall k ensures Lookup(t.buckets, k) != value {
      var l := Lookup(t.buckets, k);
      if l.Some? {
        var row, j :| 0 <= row < |t.buckets| && 0 <= j < |t.buckets[row]| && t.buckets[row][j] == Entry(k, l.value);
      }
    }
    return Ok(false);
  }

  /** `clear()` (lines 119-135): every chain is emptied, `size` dropping by one per entry. */
  function Clear<K(==, !new), V>(t: Table<K, V>, code: K -> int): (r: Table<K, V>)
    requires Valid(t, code)
    ensures Valid(r, code) && r.size == 0 && |r.buckets| == |t.buckets|
    ensures forall k :: Lookup(r.buckets, k).None?
  {
    var r := Table(seq(|t.buckets|, _ => []), t.size - Count(t.buckets));
    EmptyCount(r.buckets);
    r
  }

  lemma {:induction false} EmptyCount<K(!new), V>(bs: seq<seq<Entry<K, V>>>)
    requires forall i :: 0 <= i < |bs| ==> bs[i] == []
    ensures Count(bs) == 0
  {
    if bs != [] {
      EmptyCount(bs[1..]);
    }
  }
}

/** `_AdjacencyMatrix`: a simple undirected graph over a bounded vertex array.

    `vertices` is the filled prefix of the Java array, `numVertices` being its length, and
    `capacity` is the array's length; a vertex slot may hold `null` (`None`), since
    `addVertex` does not check. `matrix` is the `capacity` by `capacity` 0/1 matrix. An edge is
    only ever set between the first slots holding its end points, so `Valid` records that
    every non-zero entry joins two such slots and that the matrix is symmetric. */
module AdjacencyMatrix {
  import opened Wrappers
  import opened Positions
  import Text
  import Arrays

  datatype Graph<T> = Graph(matrix: seq<seq<int>>, vertices: seq<Option<T>>, capacity: nat)

  /** Slot `i` holds a vertex and is the first slot holding it. */
  predicate Named<T(==)>(vertices: seq<Option<T>>, i: int) {
    0 <= i < |vertices| && vertices[i].Some? && FirstIndex(vertices, vertices[i]) == i
  }

  predicate Valid<T(==)>(g: Graph<T>) {
    && |g.vertices| <= g.capacity
    && |g.matrix| == g.capacity
    && (forall i :: 0 <= i < g.capacity ==> |g.matrix[i]| == g.capacity)
    && (forall i, j :: 0 <= i < g.capacity && 0 <= j < g.capacity ==> g.matrix[i][j] == g.matrix[j][i])
    && (forall i, j :: 0 <= i < g.capacity && 0 <= j < g.capacity ==> Edge(g, i, j))
  }

  /** Entry `[i][j]` is 0, or 1 between two named slots. */
  predicate Edge<T(==)>(g: Graph<T>, i: int, j: int)
    requires 0 <= i < |g.matrix| && 0 <= j < |g.matrix[i]|
  {
    g.matrix[i][j] == 0 || (g.matrix[i][j] == 1 && Named(g.vertices, i) && Named(g.vertices, j))
  }

  /** The slot of vertex `e`: the first one holding it, or -1. */
  function Index<T(==)>(g: Graph<T>, e: T): int {
    FirstIndex(g.vertices, Some(e))
  }

  /** Slots `i` and `j` are joined by an edge. */
  predicate Adjacent<T>(g: Graph<T>, i: int, j: int) {
    0 <= i < |g.matrix| && 0 <= j < |g.matrix[i]| && g.matrix[i][j] != 0
  }

  /** A sequence of slots, each joined to the next. */
  ghost predicate Walk<T>(g: Graph<T>, p: seq<int>) {
    |p| > 0 && forall k :: 0 <= k < |p| - 1 ==> Adjacent(g, p[k], p[k + 1])
  }

  /** Slot `d` can be reached from slot `s` along edges; every slot reaches itself. */
  ghost predicate Reachable<T>(g: Graph<T>, s: int, d: int) {
    exists p :: Walk(g, p) && p[0] == s && p[|p| - 1] == d
  }

  /** The slots joined to slot `i`. */
  function Neighbours<T>(g: Graph<T>, i: int): set<int> {
    set c | 0 <= c < g.capacity && Adjacent(g, i, c)
  }

  /** The constructor (lines 31-38): a negative capacity is rejected. */
  function New<T(==)>(size: int): Result<Graph<T>>
  {
    if size < 0 then Fail(IllegalArgument)
    else Ok(Graph(seq(size, _ => seq(size, _ => 0)), [], size))
  }

  /** What `New` returns. */
  lemma NewIsEmpty<T>(size: int)
    ensures var r := New<T>(size); r.Fail? <==> size < 0
    ensures var r := New<T>(size); r.Fail? ==> r.error == IllegalArgument
    ensures var r := New<T>(size); r.Ok? ==> Valid(r.value) && r.value.capacity == size && r.value.vertices == []
    ensures var r := New<T>(size); r.Ok? ==> forall i, j :: !Adjacent(r.value, i, j)
  {
  }

  /** `isFull()` (lines 45-48). */
  predicate IsFull<T>(g: Graph<T>) {
    |g.vertices| == g.capacity
  }

  /** `addVertex(element)` (lines 50-58): the vertex takes the next slot, unless every slot
      is taken; `null` is stored like any other vertex. */
  function AddVertex<T(==)>(g: Graph<T>, e: Option<T>): (r: (Graph<T>, bool))
    requires Valid(g)
    ensures Valid(r.0) && r.0.capacity == g.capacity && r.0.matrix == g.matrix
    ensures r.1 <==> |g.vertices| < g.capacity
    ensures r.1 ==> r.0.vertices == g.vertices + [e]
    ensures !r.1 ==> r.0 == g
  {
    if IsFull(g) then (g, false)
    else
      var h := g.(vertices := g.vertices + [e]);
      forall i, j | 0 <= i < h.capacity && 0 <= j < h.capacity ensures Edge(h, i, j) {
        assert Edge(g, i, j);
        if g.matrix[i][j] != 0 {
          NameKept(g.vertices, e, i);
          NameKept(g.vertices, e, j);
        }
      }
      (h, true)
  }

  /** A slot that is the first to hold its vertex stays so when a vertex is appended. */
  lemma NameKept<T>(s: seq<Option<T>>, e: Option<T>, i: int)
    requires 0 <= i < |s| && FirstIndex(s, s[i]) == i
    ensures (s + [e])[i] == s[i] && FirstIndex(s + [e], s[i]) == i
  {
    FirstIndexSnoc(s, e, s[i]);
  }

  /** Appending keeps the first slot of everything already present. */
  lemma FirstIndexSnoc<T>(s: seq<T>, y: T, x: T)
    ensures FirstIndex(s + [y], x) == if x in s then FirstIndex(s, x) else if x == y then |s| else -1
  {
    var i := FirstIndex(s, x);
    if i >= 0 {
      assert (s + [y])[..i] == s[..i];
      FirstIndexUnique(s + [y], x, i);
    } else if x == y {
      assert (s + [y])[..|s|] == s;
      FirstIndexUnique(s + [y], x, |s|);
    } else {
      assert x !in s + [y];
    }
  }

  /** A vertex added to a graph with room gets the next slot, unless it was already there. */
  lemma IndexAfterAddVertex<T>(g: Graph<T>, e: Option<T>, x: T)
    requires Valid(g) && |g.vertices| < g.capacity
    ensures Index(AddVertex(g, e).0, x) ==
      if Index(g, x) >= 0 then Index(g, x) else if e == Some(x) then |g.vertices| else -1
  {
    FirstIndexSnoc(g.vertices, e, Some(x));
  }

  /** `indexOf(element)` (lines 93-104): the first of the filled slots holding the vertex. */
  method IndexOf<T(==)>(g: Graph<T>, e: Option<T>) returns (r: Result<int>)
    ensures r.Fail? <==> e.None?
    ensures r.Fail? ==> r.error == NullPointer
    ensures r.Ok? ==> r.value == Index(g, e.value)
  {
    if e.None? {
      return Fail(NullPointer);
    }
    var i := 0;
    while i < |g.vertices|
      invariant 0 <= i <= |g.vertices|
      invariant e !in g.vertices[..i]
    {
      if g.vertices[i] == e {
        FirstIndexUnique(g.vertices, e, i);
        return Ok(i);
      }
      i := i + 1;
    }
    assert g.vertices[..i] == g.vertices;
    return Ok(-1);
  }

  /** `contains(element)` (lines 106-109). */
  method Contains<T(==)>(g: Graph<T>, e: Option<T>) returns (r: Result<bool>)
    ensures r.Fail? <==> e.None?
    ensures r.Fail? ==> r.error == NullPointer
    ensures r.Ok? ==> (r.value <==> e in g.vertices)
  {
    var i :- IndexOf(g, e);
    return Ok(i >= 0);
  }

  /** `addEdge(src, dest)` (lines 60-73): both directions of the edge between the two
      vertices' slots are set, unless one of them is missing. */
  function AddEdge<T(==)>(g: Graph<T>, src: Option<T>, dest: Option<T>): (r: Result<(Graph<T>, bool)>)
    requires Valid(g)
    ensures r.Fail? <==> src.None? || dest.None?
    ensures r.Fail? ==> r.error == NullPointer
    ensures r.Ok? ==> Valid(r.value.0) && r.value.0.vertices == g.vertices && r.value.0.capacity == g.capacity
    ensures r.Ok? ==> (r.value.1 <==> src in g.vertices && dest in g.vertices)
    ensures r.Ok? && !r.value.1 ==> r.value.0 == g
    ensures r.Ok? && r.value.1 ==> forall i, j ::
      Adjacent(r.value.0, i, j) <==>
        Adjacent(g, i, j) || (i == Index(g, src.value) && j == Index(g, dest.value))
                          || (i == Index(g, dest.value) && j == Index(g, src.value))
  {
    if src.None? || dest.None? then Fail(NullPointer)
    else
      var s := Index(g, src.value);
      var d := Index(g, dest.value);
      if s == -1 || d == -1 then Ok((g, false))
      else
        Ok((Joined(g, s, d), true))
  }

  /** The graph with both `[s][d]` and `[d][s]` set to 1 (lines 70-71). */
  function Joined<T(==)>(g: Graph<T>, s: int, d: int): (h: Graph<T>)
    requires Valid(g) && Named(g.vertices, s) && Named(g.vertices, d)
    ensures Valid(h) && h.vertices == g.vertices && h.capacity == g.capacity
    ensures forall i, j :: Adjacent(h, i, j) <==> Adjacent(g, i, j) || (i == s && j == d) || (i == d && j == s)
  {
    var h := Graph(SetBoth(g.matrix, s, d), g.vertices, g.capacity);
    JoinedValid(g, s, d);
    h
  }

  lemma JoinedValid<T>(g: Graph<T>, s: int, d: int)
    requires Valid(g) && Named(g.vertices, s) && Named(g.vertices, d)
    ensures Valid(Graph(SetBoth(g.matrix, s, d), g.vertices, g.capacity))
  {
    var m := SetBoth(g.matrix, s, d);
    var n := g.capacity;
    forall i, j | 0 <= i < n && 0 <= j < n ensures m[i][j] == m[j][i] {
      assert g.matrix[i][j] == g.matrix[j][i];
    }
    var h := Graph(m, g.vertices, g.capacity);
    forall i, j | 0 <= i < n && 0 <= j < n ensures Edge(h, i, j) {
      assert Edge(g, i, j);
    }
  }

  /** Both ends of an edge of a valid graph are named slots. */
  lemma EdgeNamed<T>(g: Graph<T>, i: int, j: int)
    requires Valid(g) && Adjacent(g, i, j)
    ensures g.matrix[i][j] == 1 && Named(g.vertices, i) && Named(g.vertices, j)
  {
    assert Edge(g, i, j);
  }

  /** `m` with the entries `[s][d]` and `[d][s]` set to 1. */
  function SetBoth(m: seq<seq<int>>, s: int, d: int): (m2: seq<seq<int>>)
    requires 0 <= s < |m| && 0 <= d < |m| && |m[s]| == |m| && |m[d]| == |m|
    ensures |m2| == |m| && forall i :: 0 <= i < |m| ==> |m2[i]| == |m[i]|
    ensures forall i, j :: 0 <= i < |m| && 0 <= j < |m[i]| ==>
      m2[i][j] == if (i == s && j == d) || (i == d && j == s) then 1 else m[i][j]
  {
    var m1 := m[s := m[s][d := 1]];
    m1[d := m1[d][s := 1]]
  }

  /** A new edge between two distinct vertices adds each to the other's neighbours and
      leaves every other slot's neighbours alone. */
  lemma EdgeJoinsNeighbours<T>(g: Graph<T>, a: T, b: T, i: int)
    requires Valid(g) && Some(a) in g.vertices && Some(b) in g.vertices
    ensures AddEdge(g, Some(a), Some(b)).Ok?
    ensures Neighbours(AddEdge(g, Some(a), Some(b)).value.0, i) ==
      Neighbours(g, i) + (if i == Index(g, a) then {Index(g, b)} else {})
                       + (if i == Index(g, b) then {Index(g, a)} else {})
  {
  }

  /** `degree(element)` (lines 75-91): the non-zero entries of the vertex's row. */
  method Degree<T(==)>(g: Graph<T>, e: Option<T>) returns (r: Result<int>)
    requires Valid(g)
    ensures r.Fail? <==> e.None? || e !in g.vertices
    ensures r.Fail? ==> r.error == (if e.None? then NullPointer else IllegalArgument)
    ensures r.Ok? ==> r.value == |Neighbours(g, Index(g, e.value))|
  {
    var index :- IndexOf(g, e);
    if index == -1 {
      return Fail(IllegalArgument);
    }
    var degree := 0;
    var c := 0;
    while c < |g.matrix[index]|
      invariant 0 <= c <= g.capacity
      invariant degree == |set c2 | 0 <= c2 < c && Adjacent(g, index, c2)|
    {
      ghost var before := set c2 | 0 <= c2 < c && Adjacent(g, index, c2);
      if g.matrix[index][c] != 0 {
        degree := degree + 1;
        assert (set c2 | 0 <= c2 < c + 1 && Adjacent(g, index, c2)) == before + {c};
      } else {
        assert (set c2 | 0 <= c2 < c + 1 && Adjacent(g, index, c2)) == before;
      }
      c := c + 1;
    }
    assert Neighbours(g, index) == set c2 | 0 <= c2 < c && Adjacent(g, index, c2);
    return Ok(degree);
  }

  /** Along a walk out of a set of slots closed under edges, every slot stays in the set. */
  lemma {:induction false} WalkStays<T>(g: Graph<T>, p: seq<int>, closed: set<int>)
    requires Walk(g, p) && p[0] in closed
    requires forall u, c :: u in closed && Adjacent(g, u, c) ==> c in closed
    ensures p[|p| - 1] in closed
    decreases |p|
  {
    if |p| > 1 {
      var q := p[..|p| - 1];
      assert Walk(g, q) by {
        forall k | 0 <= k < |q| - 1 ensures Adjacent(g, q[k], q[k + 1]) {
          assert q[k] == p[k] && q[k + 1] == p[k + 1];
        }
      }
      WalkStays(g, q, closed);
      assert Adjacent(g, p[|p| - 2], p[|p| - 1]);
    }
  }

  /** No slot outside a set closed under edges is reachable from inside it. */
  lemma Unreachable<T>(g: Graph<T>, s: int, d: int, closed: set<int>)
    requires s in closed && d !in closed
    requires forall u, c :: u in closed && Adjacent(g, u, c) ==> c in closed
    ensures !Reachable(g, s, d)
  {
    if Reachable(g, s, d) {
      var p :| Walk(g, p) && p[0] == s && p[|p| - 1] == d;
      WalkStays(g, p, closed);
    }
  }

  lemma ReachSelf<T>(g: Graph<T>, s: int)
    ensures Reachable(g, s, s)
  {
    assert Walk(g, [s]);
  }

  lemma ReachStep<T>(g: Graph<T>, s: int, u: int, c: int)
    requires Reachable(g, s, u) && Adjacent(g, u, c)
    ensures Reachable(g, s, c)
  {
    var p :| Walk(g, p) && p[0] == s && p[|p| - 1] == u;
    var q := p + [c];
    assert forall k :: 0 <= k < |p| ==> q[k] == p[k];
    assert Walk(g, q);
  }

  /** The number of slots not yet visited. */
  function Unvisited(visited: seq<bool>): nat {
    if visited == [] then 0 else (if visited[0] then 0 else 1) + Unvisited(visited[1..])
  }

  lemma {:induction false} MarkVisited(visited: seq<bool>, c: int)
    requires 0 <= c < |visited| && !visited[c]
    ensures Unvisited(visited[c := true]) == Unvisited(visited) - 1
  {
    if c > 0 {
      assert visited[c := true][1..] == visited[1..][c - 1 := true];
      MarkVisited(visited[1..], c - 1);
    } else {
      assert visited[c := true][1..] == visited[1..];
    }
  }

  /** The vertices waiting in the stack or queue, with the slots `ids` they sit in: each
      slot is the first one holding its vertex, and is reachable from `s`. */
  ghost predicate Tracked<T>(g: Graph<T>, s: int, pending: seq<T>, ids: seq<int>) {
    && |ids| == |pending|
    && forall k :: 0 <= k < |ids| ==>
         Named(g.vertices, ids[k]) && g.vertices[ids[k]] == Some(pending[k]) && Reachable(g, s, ids[k])
  }

  /** `pending'`, `ids'` and `visited'` extend `pending`, `ids` and `visited` by marking
      slots and adding their vertices, every added slot reachable from `s`. */
  ghost predicate Grown<T>(g: Graph<T>, s: int, pending: seq<T>, ids: seq<int>, visited: seq<bool>,
                           pending2: seq<T>, ids2: seq<int>, visited2: seq<bool>) {
    && Tracked(g, s, pending2, ids2)
    && |visited2| == |visited| && |pending| <= |pending2| && |ids| <= |ids2|
    && pending2[..|pending|] == pending && ids2[..|ids|] == ids
    && (forall c :: 0 <= c < |visited| && visited[c] ==> visited2[c])
    && (forall c :: 0 <= c < |visited| && visited2[c] && !visited[c] ==> c in ids2)
    && |pending2| + 2 * Unvisited(visited2) <= |pending| + 2 * Unvisited(visited)
  }

  /** Marking one more neighbour `c` of a reachable slot `u` and adding its vertex. */
  lemma Push<T>(g: Graph<T>, s: int, u: int, c: int, pending: seq<T>, ids: seq<int>, visited: seq<bool>,
                pending2: seq<T>, ids2: seq<int>, visited2: seq<bool>)
    requires Valid(g) && Reachable(g, s, u) && Adjacent(g, u, c) && 0 <= c < |g.vertices| <= |visited|
    requires Grown(g, s, pending, ids, visited, pending2, ids2, visited2) && !visited2[c]
    ensures Named(g.vertices, c)
    ensures Grown(g, s, pending, ids, visited, pending2 + [g.vertices[c].value], ids2 + [c], visited2[c := true])
  {
    EdgeNamed(g, u, c);
    ReachStep(g, s, u, c);
    MarkVisited(visited2, c);
    assert (pending2 + [g.vertices[c].value])[..|pending|] == pending2[..|pending|];
    assert (ids2 + [c])[..|ids|] == ids2[..|ids|];
  }

  /** The inner loop of both searches (lines 129-134, 159-164): every neighbour of slot `u`
      not yet visited is marked and its vertex added at the end of `pending`. */
  method Expand<T(==)>(g: Graph<T>, u: int, pending: seq<T>, visited: seq<bool>, ghost s: int, ghost ids: seq<int>)
    returns (pending2: seq<T>, visited2: seq<bool>, ghost ids2: seq<int>)
    requires Valid(g) && 0 <= u < |g.vertices| && |g.vertices| <= |visited|
    requires Reachable(g, s, u) && Tracked(g, s, pending, ids)
    ensures Grown(g, s, pending, ids, visited, pending2, ids2, visited2)
    ensures forall c :: 0 <= c < |visited| && Adjacent(g, u, c) ==> visited2[c]
  {
    pending2, visited2, ids2 := pending, visited, ids;
    assert pending2[..|pending|] == pending && ids2[..|ids|] == ids;
    var c := 0;
    while c < |g.vertices|
      invariant 0 <= c <= |g.vertices|
      invariant Grown(g, s, pending, ids, visited, pending2, ids2, visited2)
      invariant forall c2 :: 0 <= c2 < c && Adjacent(g, u, c2) ==> visited2[c2]
    {
      if g.matrix[u][c] != 0 && !visited2[c] {
        Push(g, s, u, c, pending, ids, visited, pending2, ids2, visited2);
        pending2 := pending2 + [g.vertices[c].value];
        ids2 := ids2 + [c];
        visited2 := visited2[c := true];
      }
      c := c + 1;
    }
    forall c2 | 0 <= c2 < |visited| && Adjacent(g, u, c2) ensures visited2[c2] {
      EdgeNamed(g, u, c2);
    }
  }

  /** What both searches keep between iterations: `done` holds the slots already expanded,
      all reachable from `s`, none of them `d`, with all their neighbours visited; a visited
      slot is expanded or still pending, and so is `s`. */
  ghost predicate Searching<T>(g: Graph<T>, s: int, d: int, pending: seq<T>, ids: seq<int>, visited: seq<bool>, done: set<int>) {
    && |g.vertices| <= |visited|
    && Tracked(g, s, pending, ids)
    && (forall u :: u in done ==> 0 <= u < |g.vertices| && u != d && Reachable(g, s, u))
    && (forall u, c :: u in done && 0 <= c < |visited| && Adjacent(g, u, c) ==> visited[c])
    && (forall c :: 0 <= c < |visited| && visited[c] ==> c in done || c in ids)
    && (s in done || s in ids)
  }

  /** One expansion of slot `u`, taken out of `ids` (`rest` is what remains), keeps the
      search invariant with `u` added to `done`. */
  lemma Expanded<T>(g: Graph<T>, s: int, d: int, ids: seq<int>, pending: seq<T>, rest: seq<int>, u: int,
                    visited: seq<bool>, done: set<int>,
                    pending2: seq<T>, ids2: seq<int>, visited2: seq<bool>)
    requires Valid(g) && 0 <= u < |g.vertices| && u != d && Reachable(g, s, u)
    requires |g.vertices| <= |visited|
    requires (forall u2, c :: u2 in done && 0 <= c < |visited| && Adjacent(g, u2, c) ==> visited[c])
    requires (forall u2 :: u2 in done ==> 0 <= u2 < |g.vertices| && u2 != d && Reachable(g, s, u2))
    requires (forall c :: 0 <= c < |visited| && visited[c] ==> c in done || c in ids)
    requires s in done || s in ids
    requires forall c :: c in ids ==> c == u || c in rest
    requires Grown(g, s, pending, rest, visited, pending2, ids2, visited2)
    requires forall c :: 0 <= c < |visited| && Adjacent(g, u, c) ==> visited2[c]
    ensures Searching(g, s, d, pending2, ids2, visited2, done + {u})
  {
    forall c | c in rest ensures c in ids2 {
      var k :| 0 <= k < |rest| && rest[k] == c;
      assert ids2[k] == c;
    }
  }

  /** When nothing is pending, the expanded slots are closed under edges and `d` is not
      reachable. */
  lemma Exhausted<T>(g: Graph<T>, s: int, d: int, visited: seq<bool>, done: set<int>)
    requires Valid(g) && Searching(g, s, d, [], [], visited, done)
    ensures !Reachable(g, s, d)
  {
    forall u, c | u in done && Adjacent(g, u, c) ensures c in done {
      EdgeNamed(g, u, c);
    }
    Unreachable(g, s, d, done);
  }

  /** `depthSearch(src, dest)` (lines 111-139): a stack of vertices, starting from `src`;
      each popped vertex is compared with `dest`, then its unvisited neighbours are pushed.
      `src` itself is not marked visited at the start. */
  method DepthSearch<T(==)>(g: Graph<T>, src: Option<T>, dest: Option<T>) returns (r: Result<bool>)
    requires Valid(g)
    ensures r.Fail? <==> src.None? || dest.None?
    ensures r.Fail? ==> r.error == NullPointer
    ensures r.Ok? ==> (r.value <==> Index(g, src.value) >= 0 && Index(g, dest.value) >= 0
                                    && Reachable(g, Index(g, src.value), Index(g, dest.value)))
  {
    if src.None? || dest.None? {
      return Fail(NullPointer);
    }
    var si := IndexOf(g, src);
    var di := IndexOf(g, dest);
    if si.value < 0 || di.value < 0 {
      return Ok(false);
    }
    ghost var s, d := si.value, di.value;
    var stack := [src.value];
    ghost var ids := [s];
    var visited := seq(|g.vertices|, _ => false);
    ghost var done: set<int> := {};
    ReachSelf(g, s);
    while true
      invariant Searching(g, s, d, stack, ids, visited, done) && |stack| > 0
      decreases |stack| + 2 * Unvisited(visited)
    {
      var current := stack[|stack| - 1];
      ghost var u := ids[|ids| - 1];
      ghost var rest := ids[..|ids| - 1];
      ghost var ids0, visited0 := ids, visited;
      assert forall c :: c in ids ==> c == u || c in rest;
      stack := stack[..|stack| - 1];
      ghost var stack0 := stack;
      if dest.value == current {
        return Ok(true);
      }
      var index := IndexOf(g, Some(current));
      stack, visited, ids := Expand(g, index.value, stack, visited, s, rest);
      Expanded(g, s, d, ids0, stack0, rest, u, visited0, done, stack, ids, visited);
      done := done + {u};
      if |stack| == 0 {
        Exhausted(g, s, d, visited, done);
        return Ok(false);
      }
    }
  }

  /** `breadthSearch(src, dest)` (lines 141-169): as `DepthSearch`, but with a queue, so the
      vertex taken each round is the oldest one added; `visited` has one flag per slot of
      the whole matrix rather than per filled slot. */
  method BreadthSearch<T(==)>(g: Graph<T>, src: Option<T>, dest: Option<T>) returns (r: Result<bool>)
    requires Valid(g)
    ensures r.Fail? <==> src.None? || dest.None?
    ensures r.Fail? ==> r.error == NullPointer
    ensures r.Ok? ==> (r.value <==> Index(g, src.value) >= 0 && Index(g, dest.value) >= 0
                                    && Reachable(g, Index(g, src.value), Index(g, dest.value)))
  {
    if src.None? || dest.None? {
      return Fail(NullPointer);
    }
    var si := IndexOf(g, src);
    var di := IndexOf(g, dest);
    if si.value < 0 || di.value < 0 {
      return Ok(false);
    }
    ghost var s, d := si.value, di.value;
    var queue := [src.value];
    ghost var ids := [s];
    var visited := seq(|g.matrix|, _ => false);
    ghost var done: set<int> := {};
    ReachSelf(g, s);
    while true
      invariant Searching(g, s, d, queue, ids, visited, done) && |queue| > 0
      decreases |queue| + 2 * Unvisited(visited)
    {
      var current := queue[0];
      ghost var u := ids[0];
      ghost var rest := ids[1..];
      ghost var ids0, visited0 := ids, visited;
      assert forall c :: c in ids ==> c == u || c in rest;
      queue := queue[1..];
      ghost var queue0 := queue;
      if dest.value == current {
        return Ok(true);
      }
      var index := IndexOf(g, Some(current));
      queue, visited, ids := Expand(g, index.value, queue, visited, s, rest);
      Expanded(g, s, d, ids0, queue0, rest, u, visited0, done, queue, ids, visited);
      done := done + {u};
      if |queue| == 0 {
        Exhausted(g, s, d, visited, done);
        return Ok(false);
      }
    }
  }

  /** How `StringBuilder.append` writes a vertex slot: `null` for an empty one. */
  function SlotText<T>(show: T -> string): Option<T> -> string
  {
    (v: Option<T>) => if v.None? then "null" else show(v.value)
  }

  /** `vertices()` (lines 171-181): the filled slots, in order, between brackets and
      separated by ", ". */
  method Vertices<T>(g: Graph<T>, show: T -> string) returns (str: string)
    ensures str == Text.Render(g.vertices, SlotText(show))
    ensures |g.vertices| == 0 ==> str == "[]"
  {
    str := Arrays.ToString(g.vertices, SlotText(show));
  }
}

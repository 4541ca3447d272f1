/**
 Leak analysis: distances from the anchor points, in a store that widens itself, by a breadth-first walk
 through the used allocations.
 */
module Marking {
  import opened GraphEdges
  import opened EdgeSearch

  /** Allocation indices, and hence distances, have 32 bits. */
  const MAX_INDEX: nat := 0xFFFF_FFFF

  // ---------------------------------------------------------------------------------------------
  // Distances
  // ---------------------------------------------------------------------------------------------

  ghost predicate Fits(s: seq<nat>, max: nat) {
    forall i :: 0 <= i < |s| ==> s[i] <= max
  }

  /** Copies the distances, one by one, to a store with wider elements. */
  method Widen(narrow: seq<nat>) returns (wide: seq<nat>)
    ensures wide == narrow
  {
    wide := seq(|narrow|, _ => 0);
    for i := 0 to |narrow|
      invariant |wide| == |narrow| && wide[..i] == narrow[..i]
    {
      wide := wide[i := narrow[i]];
    }
  }

  /** One distance per allocation, in 8 bits each until a larger one is stored, then 16, then 32. */
  class IndexedDistances {
    const numIndices: nat
    var distanceBits: nat
    var maxDistance: nat
    var distances8: seq<nat>
    var distances16: seq<nat>
    var distances32: seq<nat>

    ghost predicate Valid()
      reads this
    {
      && distanceBits in {8, 16, 32}
      && maxDistance == (if distanceBits == 8 then 0xFF else if distanceBits == 16 then 0xFFFF else 0xFFFF_FFFF)
      && |Contents()| == numIndices && Fits(Contents(), maxDistance)
    }

    ghost function Contents(): seq<nat>
      reads this
    {
      if distanceBits == 8 then distances8 else if distanceBits == 16 then distances16 else distances32
    }

    constructor (numIndices: nat)
      ensures Valid() && Contents() == seq(numIndices, _ => 0)
    {
      this.numIndices := numIndices;
      distanceBits, maxDistance := 8, 0xFF;
      distances8, distances16, distances32 := seq(numIndices, _ => 0), [], [];
    }

    /** Aborts for a distance of more than 32 bits. */
    method SetDistance(index: nat, distance: nat)
      requires Valid() && index < numIndices && distance <= MAX_INDEX
      modifies this
      ensures Valid() && Contents() == old(Contents())[index := distance]
    {
      while distance > maxDistance
        invariant Valid() && Contents() == old(Contents())
        decreases 32 - distanceBits
      {
        if distanceBits == 8 {
          distances16 := Widen(distances8);
          distances8 := [];
          distanceBits, maxDistance := 16, 0xFFFF;
        } else {
          distances32 := Widen(distances16);
          distances16 := [];
          distanceBits, maxDistance := 32, 0xFFFF_FFFF;
        }
      }
      if distanceBits == 8 {
        distances8 := distances8[index := distance % 0x100];
      } else if distanceBits == 16 {
        distances16 := distances16[index := distance % 0x1_0000];
      } else {
        distances32 := distances32[index := distance % 0x1_0000_0000];
      }
    }

    method GetDistance(index: nat) returns (distance: nat)
      requires Valid() && index < numIndices
      ensures distance == Contents()[index]
    {
      if distanceBits == 8 {
        distance := distances8[index];
      } else if distanceBits == 16 {
        distance := distances16[index];
      } else {
        distance := distances32[index];
      }
    }
  }

  // ---------------------------------------------------------------------------------------------
  // Reachability through used allocations
  // ---------------------------------------------------------------------------------------------

  /** The graph, with the allocations that are used. */
  datatype Heap = Heap(refs: References, used: seq<bool>) {
    ghost predicate Valid() { WellResolved(refs) && |used| == |refs| }

    predicate Used(v: int) { 0 <= v < |used| && used[v] }

    /** An edge between used allocations. */
    predicate Link(u: int, v: int) { Edge(refs, u, v) && Used(u) && Used(v) }
  }

  /** v is reached from an anchor point along at most k edges between used allocations. */
  ghost predicate Reach(h: Heap, anchors: seq<nat>, k: nat, v: int)
    decreases k
  {
    if k == 0 then v in anchors && h.Used(v)
    else Reach(h, anchors, k - 1, v) || ReachedFromBefore(h, anchors, k, v)
  }

  ghost predicate ReachedFromBefore(h: Heap, anchors: seq<nat>, k: nat, v: int)
    requires k > 0
    decreases k, 0
  {
    exists u :: h.Link(u, v) && Reach(h, anchors, k - 1, u)
  }

  lemma {:induction false} ReachGrows(h: Heap, anchors: seq<nat>, k: nat, m: nat, v: int)
    requires k <= m && Reach(h, anchors, k, v)
    ensures Reach(h, anchors, m, v)
    decreases m
  {
    if k < m { ReachGrows(h, anchors, k, m - 1, v); }
  }

  /** A path along links from an anchor point. */
  ghost predicate IsPath(h: Heap, anchors: seq<nat>, path: seq<int>) {
    && path != [] && path[0] in anchors && h.Used(path[0])
    && forall i :: 0 <= i < |path| - 1 ==> h.Link(path[i], path[i + 1])
  }

  ghost predicate HasPath(h: Heap, anchors: seq<nat>, k: nat, v: int) {
    exists path :: IsPath(h, anchors, path) && |path| <= k + 1 && path[|path| - 1] == v
  }

  /** Reachability within k edges is the existence of a path of at most k edges. */
  lemma {:induction false} ReachIsPath(h: Heap, anchors: seq<nat>, k: nat, v: int)
    ensures Reach(h, anchors, k, v) <==> HasPath(h, anchors, k, v)
    decreases k
  {
    if Reach(h, anchors, k, v) {
      if k == 0 {
        assert IsPath(h, anchors, [v]) && [v][|[v]| - 1] == v;
      } else if Reach(h, anchors, k - 1, v) {
        ReachIsPath(h, anchors, k - 1, v);
        var path :| IsPath(h, anchors, path) && |path| <= k && path[|path| - 1] == v;
      } else {
        assert ReachedFromBefore(h, anchors, k, v);
        var u :| h.Link(u, v) && Reach(h, anchors, k - 1, u);
        ReachIsPath(h, anchors, k - 1, u);
        var path :| IsPath(h, anchors, path) && |path| <= k && path[|path| - 1] == u;
        var longer := path + [v];
        assert IsPath(h, anchors, longer) && longer[|longer| - 1] == v;
      }
    }
    if HasPath(h, anchors, k, v) {
      var path :| IsPath(h, anchors, path) && |path| <= k + 1 && path[|path| - 1] == v;
      if |path| > 1 {
        var shorter := path[..|path| - 1];
        var u := shorter[|shorter| - 1];
        assert h.Link(path[|path| - 2], path[|path| - 1]);
        assert IsPath(h, anchors, shorter) && |shorter| <= k;
        ReachIsPath(h, anchors, k - 1, u);
        assert ReachedFromBefore(h, anchors, k, v);
      } else {
        ReachGrows(h, anchors, 0, k, v);
      }
    }
  }

  /** The stored distance is one more than the length of a shortest path, or 0 if there is no path. */
  ghost predicate IsDistance(h: Heap, anchors: seq<nat>, d: nat, v: int) {
    && (d > 0 ==> Reach(h, anchors, d - 1, v))
    && forall k: nat :: Reach(h, anchors, k, v) ==> 0 < d <= k + 1
  }

  // ---------------------------------------------------------------------------------------------
  // The walk
  // ---------------------------------------------------------------------------------------------

  ghost predicate SoundAt(h: Heap, anchors: seq<nat>, d: seq<nat>, v: int) {
    0 <= v < |d| && d[v] > 0 ==> Reach(h, anchors, d[v] - 1, v) && h.Used(v)
  }

  /** Free allocations count as visited from the start, used ones when they get a distance. */
  ghost predicate VisitedAt(h: Heap, d: seq<nat>, visited: seq<bool>, v: int) {
    0 <= v < |d| && v < |visited| ==> (visited[v] <==> d[v] > 0 || !h.Used(v))
  }

  ghost predicate LevelAt(d: seq<nat>, limit: nat, v: int) {
    0 <= v < |d| ==> d[v] <= limit
  }

  ghost predicate LevelsWithin(d: seq<nat>, limit: nat) {
    forall v :: LevelAt(d, limit, v)
  }

  /** A link from an allocation that was dealt with, entirely or as far as row says, ends at one with a distance. */
  ghost predicate DoneAt(h: Heap, d: seq<nat>, queue: seq<nat>, current: int, row: seq<nat>, u: int, v: int) {
    h.Link(u, v) && u < |d| && v < |d| && d[u] > 0 && u !in queue && (u == current ==> v in row) ==>
      0 < d[v] <= d[u] + 1
  }

  /** The queue holds allocations of the current level and then of the next. */
  ghost predicate QueueOk(d: seq<nat>, queue: seq<nat>, level: nat) {
    && (forall i :: 0 <= i < |queue| ==> queue[i] < |d| && level <= d[queue[i]] <= level + 1)
    && (forall i, j :: 0 <= i < j < |queue| ==> queue[i] < |d| && queue[j] < |d| && d[queue[i]] <= d[queue[j]])
  }

  function Unvisited(visited: seq<bool>): nat {
    if visited == [] then 0 else Unvisited(visited[1..]) + if visited[0] then 0 else 1
  }

  lemma {:induction false} VisitOne(visited: seq<bool>, v: nat)
    requires v < |visited| && !visited[v]
    ensures Unvisited(visited[v := true]) == Unvisited(visited) - 1
    decreases |visited|
  {
    if v > 0 {
      assert visited[v := true][1..] == visited[1..][v - 1 := true];
      VisitOne(visited[1..], v - 1);
    } else {
      assert visited[0 := true][1..] == visited[1..];
    }
  }

  lemma {:induction false} UnvisitedBound(visited: seq<bool>)
    ensures Unvisited(visited) <= |visited|
    decreases |visited|
  {
    if visited != [] { UnvisitedBound(visited[1..]); }
  }

  ghost predicate WalkOk(h: Heap, anchors: seq<nat>, d: seq<nat>, visited: seq<bool>, queue: seq<nat>,
                         level: nat, current: int, row: seq<nat>)
  {
    && |d| == |visited| == |h.refs| && level > 0
    && (forall v :: SoundAt(h, anchors, d, v))
    && (forall v :: VisitedAt(h, d, visited, v))
    && LevelsWithin(d, level + 1)
    && QueueOk(d, queue, level)
    && (forall u, v :: DoneAt(h, d, queue, current, row, u, v))
    && (forall i :: 0 <= i < |anchors| ==> anchors[i] < |d| && d[anchors[i]] == 1)
  }

  /** No distance exceeds the number of allocations that have one. */
  ghost predicate Counted(d: seq<nat>, visited: seq<bool>, marks: nat) {
    LevelsWithin(d, marks) && marks + Unvisited(visited) <= |visited|
  }

  lemma CountOne(d: seq<nat>, visited: seq<bool>, marks: nat, t: nat, distance: nat)
    requires Counted(d, visited, marks) && t < |d| == |visited| && !visited[t] && distance <= marks + 1
    ensures Counted(d[t := distance], visited[t := true], marks + 1)
    ensures distance <= |visited|
  {
    VisitOne(visited, t);
    var more, d' := marks + 1, d[t := distance];
    forall v ensures LevelAt(d', more, v) {
      assert LevelAt(d, marks, v);
    }
  }

  /** Taking u from the front of the queue. */
  lemma Dequeue(h: Heap, anchors: seq<nat>, d: seq<nat>, visited: seq<bool>, queue: seq<nat>, level: nat)
    requires queue != [] && WalkOk(h, anchors, d, visited, queue, level, -1, [])
    ensures WalkOk(h, anchors, d, visited, queue[1..], d[queue[0]], queue[0], [])
  {
    var u, rest := queue[0], queue[1..];
    var more := d[u] + 1;
    assert level <= d[u];
    forall v ensures LevelAt(d, more, v) {
      assert LevelAt(d, level + 1, v);
    }
    forall x, y ensures DoneAt(h, d, rest, u, [], x, y) {
      assert DoneAt(h, d, queue, -1, [], x, y);
      assert x in queue <==> x == u || x in rest;
    }
  }

  /** Giving a distance to a target of u that was not visited before. */
  lemma Enqueue(h: Heap, anchors: seq<nat>, d: seq<nat>, visited: seq<bool>, queue: seq<nat>, u: nat, row: seq<nat>,
                t: nat)
    requires u < |d| && d[u] > 0 && WalkOk(h, anchors, d, visited, queue, d[u], u, row)
    requires Edge(h.refs, u, t) && !visited[t]
    ensures h.Used(t) && d[t] == 0
    ensures WalkOk(h, anchors, d[t := d[u] + 1], visited[t := true], queue + [t], d[u], u, row + [t])
  {
    var d', visited', queue', row' := d[t := d[u] + 1], visited[t := true], queue + [t], row + [t];
    assert VisitedAt(h, d, visited, t) && SoundAt(h, anchors, d, u);
    assert h.Link(u, t);
    assert ReachedFromBefore(h, anchors, d[u], t);
    var more := d[u] + 1;
    forall v ensures SoundAt(h, anchors, d', v) { assert SoundAt(h, anchors, d, v); }
    forall v ensures VisitedAt(h, d', visited', v) { assert VisitedAt(h, d, visited, v); }
    forall v ensures LevelAt(d', more, v) { assert LevelAt(d, more, v); }
    forall x, y ensures DoneAt(h, d', queue', u, row', x, y) {
      assert DoneAt(h, d, queue, u, row, x, y);
      assert x in queue' <==> x in queue || x == t;
      assert y in row' <==> y in row || y == t;
    }
    QueueGrows(d, queue, u, t);
  }

  lemma QueueGrows(d: seq<nat>, queue: seq<nat>, u: nat, t: nat)
    requires u < |d| && t < |d| && d[t] == 0 && d[u] > 0 && QueueOk(d, queue, d[u])
    ensures QueueOk(d[t := d[u] + 1], queue + [t], d[u])
  {
    forall i | 0 <= i < |queue| ensures queue[i] != t {
      assert d[queue[i]] >= d[u];
    }
  }

  /** Passing over a target of u that was visited before. */
  lemma PassOver(h: Heap, anchors: seq<nat>, d: seq<nat>, visited: seq<bool>, queue: seq<nat>, u: nat, row: seq<nat>,
                 t: nat)
    requires u < |d| && d[u] > 0 && WalkOk(h, anchors, d, visited, queue, d[u], u, row)
    requires t < |d| && visited[t]
    ensures WalkOk(h, anchors, d, visited, queue, d[u], u, row + [t])
  {
    var row' := row + [t];
    assert VisitedAt(h, d, visited, t) && LevelAt(d, d[u] + 1, t);
    forall x, y ensures DoneAt(h, d, queue, u, row', x, y) {
      assert DoneAt(h, d, queue, u, row, x, y);
      assert y in row' <==> y in row || y == t;
    }
  }

  /** All targets of u were dealt with. */
  lemma RowDone(h: Heap, anchors: seq<nat>, d: seq<nat>, visited: seq<bool>, queue: seq<nat>, u: nat, row: seq<nat>)
    requires u < |d| && WalkOk(h, anchors, d, visited, queue, d[u], u, row)
    requires forall t :: Edge(h.refs, u, t) ==> t in row
    ensures WalkOk(h, anchors, d, visited, queue, d[u], -1, [])
  {
    forall x, y ensures DoneAt(h, d, queue, -1, [], x, y) {
      assert DoneAt(h, d, queue, u, row, x, y);
    }
  }

  /** When the queue is empty the distances are those of shortest paths. */
  lemma {:induction false} WalkFinds(h: Heap, anchors: seq<nat>, d: seq<nat>, visited: seq<bool>, level: nat, k: nat,
                                     v: int)
    requires h.Valid() && WalkOk(h, anchors, d, visited, [], level, -1, []) && Reach(h, anchors, k, v)
    ensures 0 <= v < |d| && 0 < d[v] <= k + 1
    decreases k
  {
    if k > 0 {
      if Reach(h, anchors, k - 1, v) {
        WalkFinds(h, anchors, d, visited, level, k - 1, v);
      } else {
        assert ReachedFromBefore(h, anchors, k, v);
        var u :| h.Link(u, v) && Reach(h, anchors, k - 1, u);
        WalkFinds(h, anchors, d, visited, level, k - 1, u);
        assert DoneAt(h, d, [], -1, [], u, v);
      }
    }
  }

  lemma WalkMeasures(h: Heap, anchors: seq<nat>, d: seq<nat>, visited: seq<bool>, level: nat)
    requires h.Valid() && WalkOk(h, anchors, d, visited, [], level, -1, [])
    ensures forall v :: 0 <= v < |d| ==> IsDistance(h, anchors, d[v], v)
  {
    forall v | 0 <= v < |d| ensures IsDistance(h, anchors, d[v], v) {
      assert SoundAt(h, anchors, d, v);
      forall k: nat | Reach(h, anchors, k, v) ensures 0 < d[v] <= k + 1 {
        WalkFinds(h, anchors, d, visited, level, k, v);
      }
    }
  }

  /** Anchor points are used allocations, listed in order of their index. */
  ghost predicate Anchors(h: Heap, anchors: seq<nat>) {
    Increasing(anchors) && forall i :: 0 <= i < |anchors| ==> h.Used(anchors[i])
  }

  /** The state when the first k anchor points were marked. */
  ghost predicate Seeded(h: Heap, anchors: seq<nat>, d: seq<nat>, visited: seq<bool>, k: nat) {
    && k <= |anchors| && |d| == |visited| == |h.refs|
    && (forall v :: 0 <= v < |d| ==> d[v] == if v in anchors[..k] then 1 else 0)
    && (forall v :: 0 <= v < |d| ==> (visited[v] <==> v in anchors[..k] || !h.Used(v)))
  }

  lemma SeedOne(h: Heap, anchors: seq<nat>, d: seq<nat>, visited: seq<bool>, k: nat)
    requires h.Valid() && Anchors(h, anchors) && Seeded(h, anchors, d, visited, k) && k < |anchors|
    ensures anchors[k] < |d| && !visited[anchors[k]] && anchors[..k + 1] == anchors[..k] + [anchors[k]]
    ensures Seeded(h, anchors, d[anchors[k] := 1], visited[anchors[k] := true], k + 1)
  {
    assert anchors[k] !in anchors[..k];
  }

  lemma SeededWalks(h: Heap, anchors: seq<nat>, d: seq<nat>, visited: seq<bool>)
    requires h.Valid() && Anchors(h, anchors) && Seeded(h, anchors, d, visited, |anchors|)
    ensures WalkOk(h, anchors, d, visited, anchors, 1, -1, [])
  {
    assert anchors[..|anchors|] == anchors;
    forall v ensures SoundAt(h, anchors, d, v) {}
    forall v ensures VisitedAt(h, d, visited, v) {}
    forall v ensures LevelAt(d, 2, v) {}
    forall x, y ensures DoneAt(h, d, anchors, -1, [], x, y) {}
  }

  /** An allocation stays leaked as long as it has no distance. */
  ghost predicate Unleaked(leaked0: seq<bool>, d: seq<nat>, leaked: seq<bool>) {
    && |leaked| == |leaked0| == |d|
    && forall v :: 0 <= v < |d| ==> (leaked[v] <==> leaked0[v] && d[v] == 0)
  }

  ghost predicate Countable(d: seq<nat>, visited: seq<bool>) {
    exists n: nat :: Counted(d, visited, n)
  }

  lemma CountLevel(d: seq<nat>, visited: seq<bool>, u: nat, t: nat, d': seq<nat>, visited': seq<bool>)
    requires u < |d| == |visited| && t < |d| && !visited[t] && Countable(d, visited)
    requires d' == d[t := d[u] + 1] && visited' == visited[t := true]
    ensures d[u] + 1 <= |visited| && Countable(d', visited')
    ensures Unvisited(visited') < Unvisited(visited)
  {
    var n: nat :| Counted(d, visited, n);
    assert LevelAt(d, n, u);
    CountOne(d, visited, n, t, d[u] + 1);
    assert Counted(d', visited', n + 1);
    VisitOne(visited, t);
  }

  method FreeIsVisited(h: Heap) returns (visited: seq<bool>)
    requires h.Valid()
    ensures |visited| == |h.refs| && forall v :: 0 <= v < |visited| ==> (visited[v] <==> !h.Used(v))
  {
    visited := seq(|h.refs|, _ => false);
    for i := 0 to |h.refs|
      invariant |visited| == |h.refs|
      invariant forall v :: 0 <= v < |visited| ==> (visited[v] <==> v < i && !h.Used(v))
    {
      if !h.used[i] {
        visited := visited[i := true];
      }
    }
  }

  /** Gives distance 1 to the anchor points. */
  method MarkAnchorPoints(h: Heap, anchors: seq<nat>, distances: IndexedDistances, visited0: seq<bool>,
                          leaked0: seq<bool>)
    returns (visited: seq<bool>, leaked: seq<bool>)
    requires h.Valid() && |h.refs| <= MAX_INDEX && Anchors(h, anchors)
    requires distances.Valid() && distances.Contents() == seq(|h.refs|, _ => 0) && |leaked0| == |h.refs|
    requires |visited0| == |h.refs| && forall v :: 0 <= v < |visited0| ==> (visited0[v] <==> !h.Used(v))
    modifies distances
    ensures distances.Valid() && |distances.Contents()| == |h.refs|
    ensures WalkOk(h, anchors, distances.Contents(), visited, anchors, 1, -1, [])
    ensures Unleaked(leaked0, distances.Contents(), leaked) && Countable(distances.Contents(), visited)
  {
    visited, leaked := visited0, leaked0;
    var k := 0;
    UnvisitedBound(visited);
    forall v ensures LevelAt(distances.Contents(), 0, v) {}
    while k < |anchors|
      invariant distances.Valid() && distances.numIndices == |h.refs|
      invariant Seeded(h, anchors, distances.Contents(), visited, k)
      invariant Unleaked(leaked0, distances.Contents(), leaked)
      invariant Counted(distances.Contents(), visited, k)
    {
      var v := anchors[k];
      SeedOne(h, anchors, distances.Contents(), visited, k);
      CountOne(distances.Contents(), visited, k, v, 1);
      visited := visited[v := true];
      leaked := leaked[v := false];
      distances.SetDistance(v, 1);
      k := k + 1;
    }
    SeededWalks(h, anchors, distances.Contents(), visited);
  }

  /** Everything that the walk keeps while the targets of u are being marked. */
  ghost predicate Walking(h: Heap, anchors: seq<nat>, d: seq<nat>, visited: seq<bool>, queue: seq<nat>,
                          level: nat, current: int, row: seq<nat>, leaked0: seq<bool>, leaked: seq<bool>)
  {
    && WalkOk(h, anchors, d, visited, queue, level, current, row)
    && Unleaked(leaked0, d, leaked) && Countable(d, visited)
  }

  lemma MarkOne(h: Heap, anchors: seq<nat>, d: seq<nat>, visited: seq<bool>, queue: seq<nat>, u: nat, row: seq<nat>,
                leaked0: seq<bool>, leaked: seq<bool>, t: nat)
    requires u < |d| && d[u] > 0 && Walking(h, anchors, d, visited, queue, d[u], u, row, leaked0, leaked)
    requires Edge(h.refs, u, t) && !visited[t]
    ensures d[u] + 1 <= |d| == |leaked| && t != u && Unvisited(visited[t := true]) < Unvisited(visited)
    ensures Walking(h, anchors, d[t := d[u] + 1], visited[t := true], queue + [t], d[u], u, row + [t],
                    leaked0, leaked[t := false])
  {
    Enqueue(h, anchors, d, visited, queue, u, row, t);
    CountLevel(d, visited, u, t, d[t := d[u] + 1], visited[t := true]);
  }

  /** Gives a distance to the target t of u unless it has been visited. */
  method MarkTarget(h: Heap, ghost anchors: seq<nat>, u: nat, t: nat, newDistance: nat, distances: IndexedDistances,
                    visited0: seq<bool>, queue0: seq<nat>, ghost row: seq<nat>, ghost leaked0: seq<bool>,
                    leakedBefore: seq<bool>)
    returns (visited: seq<bool>, queue: seq<nat>, leaked: seq<bool>)
    requires |h.refs| <= MAX_INDEX && u < |h.refs| && Edge(h.refs, u, t)
    requires distances.Valid() && distances.numIndices == |h.refs| && newDistance == distances.Contents()[u] + 1 > 1
    requires Walking(h, anchors, distances.Contents(), visited0, queue0, newDistance - 1, u, row, leaked0, leakedBefore)
    modifies distances
    ensures distances.Valid() && distances.Contents()[u] == newDistance - 1
    ensures Walking(h, anchors, distances.Contents(), visited, queue, newDistance - 1, u, row + [t], leaked0, leaked)
    ensures Unvisited(visited) < Unvisited(visited0) || (visited == visited0 && queue == queue0)
  {
    visited, queue, leaked := visited0, queue0, leakedBefore;
    if !visited[t] {
      MarkOne(h, anchors, distances.Contents(), visited, queue, u, row, leaked0, leaked, t);
      visited := visited[t := true];
      leaked := leaked[t := false];
      distances.SetDistance(t, newDistance);
      queue := queue + [t];
    } else {
      PassOver(h, anchors, distances.Contents(), visited, queue, u, row, t);
    }
  }

  /** Gives a distance to each target of u that has not been visited. */
  method MarkTargets(h: Heap, g: Edges, ghost anchors: seq<nat>, u: nat, distances: IndexedDistances,
                     visited0: seq<bool>, queue0: seq<nat>, ghost leaked0: seq<bool>, leakedBefore: seq<bool>)
    returns (visited: seq<bool>, queue: seq<nat>, leaked: seq<bool>)
    requires Represents(h.refs, g) && |h.refs| <= MAX_INDEX && u < |h.refs|
    requires distances.Valid() && distances.numIndices == |h.refs| && distances.Contents()[u] > 0
    requires Walking(h, anchors, distances.Contents(), visited0, queue0, distances.Contents()[u], u, [], leaked0,
                     leakedBefore)
    modifies distances
    ensures distances.Valid() && distances.Contents()[u] == old(distances.Contents()[u])
    ensures Walking(h, anchors, distances.Contents(), visited, queue, distances.Contents()[u], -1, [], leaked0, leaked)
    ensures Unvisited(visited) < Unvisited(visited0) || (visited == visited0 && queue == queue0)
  {
    visited, queue, leaked := visited0, queue0, leakedBefore;
    var newDistance := distances.GetDistance(u);
    newDistance := newDistance + 1;
    RowsAreWhole(h.refs, g, u);
    ghost var row := g.OutgoingOf(u);
    var edge := g.firstOutgoing[u];
    while edge < g.firstOutgoing[u + 1]
      invariant g.firstOutgoing[u] <= edge <= g.firstOutgoing[u + 1]
      invariant distances.Valid() && distances.Contents()[u] == newDistance - 1
      invariant Walking(h, anchors, distances.Contents(), visited, queue, newDistance - 1, u,
                        row[..edge - g.firstOutgoing[u]], leaked0, leaked)
      invariant Unvisited(visited) < Unvisited(visited0) || (visited == visited0 && queue == queue0)
    {
      OutgoingEntry(h.refs, g, u, edge);
      visited, queue, leaked := MarkTarget(h, anchors, u, g.outgoing[edge], newDistance, distances, visited, queue,
                                           row[..edge - g.firstOutgoing[u]], leaked0, leaked);
      edge := edge + 1;
    }
    RowDone(h, anchors, distances.Contents(), visited, queue, u, row);
  }

  /** A breadth-first walk from the anchor points through the used allocations. */
  method MarkAnchoredChunks(h: Heap, g: Edges, anchors: seq<nat>, distances: IndexedDistances, leaked0: seq<bool>)
    returns (leaked: seq<bool>)
    requires h.Valid() && Represents(h.refs, g) && |h.refs| <= MAX_INDEX && Anchors(h, anchors)
    requires distances.Valid() && distances.Contents() == seq(|h.refs|, _ => 0) && |leaked0| == |h.refs|
    modifies distances
    ensures distances.Valid() && Measured(h, anchors, distances.Contents())
    ensures Unleaked(leaked0, distances.Contents(), leaked)
  {
    var visited := FreeIsVisited(h);
    visited, leaked := MarkAnchorPoints(h, anchors, distances, visited, leaked0);
    var queue := anchors;
    ghost var level := 1;
    while queue != []
      invariant distances.Valid() && |distances.Contents()| == |h.refs|
      invariant WalkOk(h, anchors, distances.Contents(), visited, queue, level, -1, [])
      invariant Unleaked(leaked0, distances.Contents(), leaked) && Countable(distances.Contents(), visited)
      decreases Unvisited(visited), |queue|
    {
      var u := queue[0];
      Dequeue(h, anchors, distances.Contents(), visited, queue, level);
      visited, queue, leaked := MarkTargets(h, g, anchors, u, distances, visited, queue[1..], leaked0, leaked);
      level := distances.Contents()[u];
    }
    WalkMeasures(h, anchors, distances.Contents(), visited, level);
  }

  // ---------------------------------------------------------------------------------------------
  // Leaks
  // ---------------------------------------------------------------------------------------------

  ghost predicate Reachable(h: Heap, anchors: seq<nat>, v: int) {
    exists k: nat :: Reach(h, anchors, k, v)
  }

  lemma DistanceDecides(h: Heap, anchors: seq<nat>, d: nat, v: int)
    requires IsDistance(h, anchors, d, v)
    ensures d > 0 <==> Reachable(h, anchors, v)
    ensures d == 1 <==> v in anchors && h.Used(v)
  {
    if d == 1 { assert Reach(h, anchors, 0, v); }
    if v in anchors && h.Used(v) { assert Reach(h, anchors, 0, v); }
  }

  /** Where references from outside of allocations lead to, by where they are. */
  datatype AnchorPoints = AnchorPoints(static_: seq<nat>, stack: seq<nat>, register: seq<nat>, external: seq<nat>) {
    ghost predicate Valid(h: Heap) {
      Anchors(h, static_) && Anchors(h, stack) && Anchors(h, register) && Anchors(h, external)
    }

    ghost predicate Reaches(h: Heap, v: int) {
      Reachable(h, static_, v) || Reachable(h, stack, v) || Reachable(h, register, v) || Reachable(h, external, v)
    }
  }

  /** What is reached from an anchor point leads on to whatever it links to. */
  lemma ReachesOnward(h: Heap, points: AnchorPoints, u: int, v: int)
    requires points.Reaches(h, u) && h.Link(u, v)
    ensures points.Reaches(h, v)
  {
    forall anchors, k: nat | Reach(h, anchors, k, u)
      ensures Reachable(h, anchors, v)
    {
      var m := k + 1;
      assert ReachedFromBefore(h, anchors, m, v);
      assert Reach(h, anchors, m, v);
    }
  }

  ghost predicate Measured(h: Heap, anchors: seq<nat>, d: seq<nat>) {
    |d| == |h.refs| && forall v :: 0 <= v < |d| ==> IsDistance(h, anchors, d[v], v)
  }

  lemma LeakedExactly(h: Heap, points: AnchorPoints, d0: seq<nat>, d1: seq<nat>, d2: seq<nat>, d3: seq<nat>,
                      leaked: seq<bool>)
    requires h.Valid() && |leaked| == |h.refs|
    requires Measured(h, points.static_, d0) && Measured(h, points.stack, d1)
    requires Measured(h, points.register, d2) && Measured(h, points.external, d3)
    requires forall v :: 0 <= v < |h.refs| ==> (leaked[v] <==> h.used[v] && d0[v] == d1[v] == d2[v] == d3[v] == 0)
    ensures forall v :: 0 <= v < |h.refs| ==> (leaked[v] <==> h.Used(v) && !points.Reaches(h, v))
  {
    forall v | 0 <= v < |h.refs| ensures leaked[v] <==> h.Used(v) && !points.Reaches(h, v) {
      DistanceDecides(h, points.static_, d0[v], v);
      DistanceDecides(h, points.stack, d1[v], v);
      DistanceDecides(h, points.register, d2[v], v);
      DistanceDecides(h, points.external, d3[v], v);
    }
  }

  /** The distances from one kind of anchor points, and what they leave leaked. */
  method MarkOneKind(h: Heap, g: Edges, anchors: seq<nat>, leaked0: seq<bool>)
    returns (distances: IndexedDistances, leaked: seq<bool>)
    requires h.Valid() && Represents(h.refs, g) && |h.refs| <= MAX_INDEX && Anchors(h, anchors) && |leaked0| == |h.refs|
    ensures fresh(distances) && distances.Valid() && Measured(h, anchors, distances.Contents())
    ensures Unleaked(leaked0, distances.Contents(), leaked)
  {
    distances := new IndexedDistances(|h.refs|);
    leaked := MarkAnchoredChunks(h, g, anchors, distances, leaked0);
  }

  class LeakAnalysis {
    const h: Heap
    const g: Edges
    const points: AnchorPoints
    const staticDistances: IndexedDistances
    const stackDistances: IndexedDistances
    const registerDistances: IndexedDistances
    const externalDistances: IndexedDistances
    var leaked: seq<bool>

    ghost predicate Measures(distances: IndexedDistances, anchors: seq<nat>)
      reads distances
    {
      distances.Valid() && Measured(h, anchors, distances.Contents())
    }

    ghost predicate Valid()
      reads this, staticDistances, stackDistances, registerDistances, externalDistances
    {
      && h.Valid() && Represents(h.refs, g) && points.Valid(h)
      && Measures(staticDistances, points.static_) && Measures(stackDistances, points.stack)
      && Measures(registerDistances, points.register) && Measures(externalDistances, points.external)
      && |leaked| == |h.refs|
      && forall v :: 0 <= v < |h.refs| ==> (leaked[v] <==> h.Used(v) && !points.Reaches(h, v))
    }

    constructor (h: Heap, g: Edges, points: AnchorPoints)
      requires h.Valid() && Represents(h.refs, g) && |h.refs| <= MAX_INDEX && points.Valid(h)
      ensures Valid() && this.h == h && this.g == g && this.points == points
    {
      var d0, marked := MarkOneKind(h, g, points.static_, h.used);
      var d1, d2, d3;
      d1, marked := MarkOneKind(h, g, points.stack, marked);
      d2, marked := MarkOneKind(h, g, points.register, marked);
      d3, marked := MarkOneKind(h, g, points.external, marked);
      LeakedExactly(h, points, d0.Contents(), d1.Contents(), d2.Contents(), d3.Contents(), marked);
      this.h, this.g, this.points, leaked := h, g, points, marked;
      staticDistances, stackDistances, registerDistances, externalDistances := d0, d1, d2, d3;
    }

    method IsLeaked(i: nat) returns (r: bool)
      requires Valid()
      ensures r <==> h.Used(i) && !points.Reaches(h, i)
    {
      r := i < |h.refs| && leaked[i];
    }

    method IsAnchored(i: nat) returns (r: bool)
      requires Valid()
      ensures r <==> h.Used(i) && points.Reaches(h, i)
    {
      r := i < |h.refs| && h.used[i] && !leaked[i];
    }

    /** A leaked allocation is unreferenced when no leaked one refers to it, although the test is for used ones. */
    method IsUnreferenced(i: nat) returns (r: bool)
      requires Valid()
      ensures r <==> i < |h.refs| && leaked[i] && forall s :: Edge(h.refs, s, i) ==> !leaked[s]
    {
      r := false;
      if i < |h.refs| && leaked[i] {
        RowsAreWhole(h.refs, g, i);
        ghost var row := g.IncomingOf(i);
        r := true;
        var e := g.firstIncoming[i];
        while e != g.firstIncoming[i + 1]
          invariant g.firstIncoming[i] <= e <= g.firstIncoming[i + 1]
          invariant forall s :: s in row[..e - g.firstIncoming[i]] ==> !h.Used(s)
          decreases g.firstIncoming[i + 1] - e
        {
          var s := g.incoming[e];
          ghost var k := e - g.firstIncoming[i];
          IncomingEntry(h.refs, g, i, e);
          if h.used[s] {
            if !leaked[s] { ReachesOnward(h, points, s, i); }
            return false;
          }
          e := e + 1;
        }
      }
    }
  }
}

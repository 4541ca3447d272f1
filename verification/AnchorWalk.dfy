/** What the backward walk over incoming edges keeps: its stack, what it followed, and which edges it inspected. */
module AnchorWalk {
  import opened AnchorReports
  import opened EdgeSearch
  import opened GraphEdges
  import opened Marking

  /** The walk does not follow a source that is not anchored or that is no closer to an anchor point. */
  predicate Rejects(sourceDistance: nat, targetDistance: nat) {
    sourceDistance == 0 || sourceDistance > targetDistance ||
    (sourceDistance == targetDistance && targetDistance != 0xFF)
  }

  // ---------------------------------------------------------------------------------------------
  // What the walk keeps
  // ---------------------------------------------------------------------------------------------

  ghost predicate IsSourceEntry(g: Edges, t: int, e: int) {
    g.HasSlice(g.firstIncoming, |g.incoming|, t) && g.firstIncoming[t] <= e < g.firstIncoming[t + 1]
  }

  ghost predicate FrameOk(h: Heap, g: Edges, d: seq<nat>, visited: seq<bool>, stack: seq<Frame>, i: int) {
    0 <= i < |stack| ==>
      && h.Used(stack[i].node) && stack[i].node < |d| && d[stack[i].node] > 0
      && stack[i].node < |visited| && visited[stack[i].node]
      && g.HasSlice(g.firstIncoming, |g.incoming|, stack[i].node) && g.firstIncoming[stack[i].node] <= stack[i].next
      && (i > 0 ==> h.Link(stack[i].node, stack[i - 1].node) && stack[i - 1].node < |d|
                    && Closer(d[stack[i].node], d[stack[i - 1].node]))
  }

  /** The part of the incoming edges of t before the entry e has been inspected, as far as the stack tells. */
  ghost predicate Passed(stack: seq<Frame>, t: int, e: int) {
    forall i :: 0 <= i < |stack| && stack[i].node == t ==> e < stack[i].next
  }

  /** The sources that were inspected are visited. */
  ghost predicate Scanned(g: Edges, visited: seq<bool>, stack: seq<Frame>, pushed: set<nat>, t: nat, e: nat) {
    t in pushed && IsSourceEntry(g, t, e) && Passed(stack, t, e) ==>
      g.incoming[e] < |visited| && visited[g.incoming[e]]
  }

  /** The target was followed, and the source refers to it without being closer to an anchor point. */
  ghost predicate NoCloserThan(h: Heap, d: seq<nat>, followed: set<nat>, s: nat, t: nat) {
    && t in followed && t < |d| && s < |d| && h.Link(s, t)
    && (d[t] < d[s] || (d[t] == d[s] && d[t] != 0xFF))
  }

  /**
   A visited used allocation, unless still to be decided on, was followed, or is no closer than some allocation
   that it refers to and that was followed.
   */
  ghost predicate Accounted(h: Heap, d: seq<nat>, visited: seq<bool>, pushed: set<nat>, pending: int, v: int) {
    v != pending && 0 <= v < |visited| && v < |d| && visited[v] && h.Used(v) && d[v] > 0 ==>
      v in pushed || exists t: nat :: NoCloserThan(h, d, pushed, v, t)
  }

  /** An inspected edge belongs to an allocation that was followed, and was passed there. */
  ghost predicate Once(g: Edges, pushed: set<nat>, stack: seq<Frame>, e: nat) {
    exists t :: t in pushed && IsSourceEntry(g, t, e) && Passed(stack, t, e)
  }

  /** What was followed is the allocation to explain, or refers to something that was, closer to an anchor point. */
  ghost predicate FollowedOk(h: Heap, d: seq<nat>, index: nat, followed: set<nat>, t: nat) {
    t in followed ==>
      && t < |d| && d[t] > 0 && index < |d| && (t == index || Closer(d[t], d[index]))
      && (t == index || exists u: nat :: LeadsOn(h, d, followed, t, u))
  }

  ghost predicate LeadsOn(h: Heap, d: seq<nat>, followed: set<nat>, t: nat, u: nat) {
    u in followed && h.Link(t, u) && t < |d| && u < |d| && Closer(d[t], d[u])
  }

  ghost predicate NodesDiffer(stack: seq<Frame>, i: int, j: int) {
    0 <= i < j < |stack| ==> stack[i].node != stack[j].node
  }

  ghost predicate WalkKeeps(h: Heap, g: Edges, d: seq<nat>, index: nat, visited: seq<bool>, stack: seq<Frame>,
                            pushed: set<nat>, pending: int)
  {
    && |d| == |visited| == |h.refs|
    && (forall i :: FrameOk(h, g, d, visited, stack, i))
    && (forall i, j :: NodesDiffer(stack, i, j))
    && (stack != [] ==> stack[0].node == index)
    && (forall t: nat, e: nat :: Scanned(g, visited, stack, pushed, t, e))
    && (forall v :: Accounted(h, d, visited, pushed, pending, v))
    && index in pushed && (forall t :: t in pushed ==> t < |d| && d[t] > 0 && visited[t])
    && (forall t: nat :: FollowedOk(h, d, index, pushed, t))
    && (forall v :: 0 <= v < |visited| && !h.Used(v) ==> visited[v])
  }

  ghost predicate NoRepeats(s: seq<nat>) {
    forall i, j :: 0 <= i < j < |s| ==> s[i] != s[j]
  }

  ghost predicate AllOnce(g: Edges, pushed: set<nat>, stack: seq<Frame>, inspected: seq<nat>) {
    NoRepeats(inspected) && forall k :: 0 <= k < |inspected| ==> Once(g, pushed, stack, inspected[k])
  }

  lemma StackIsChain(h: Heap, g: Edges, anchors: seq<nat>, d: seq<nat>, index: nat, visited: seq<bool>,
                     stack: seq<Frame>, s: nat)
    requires stack != [] && stack[0].node == index && forall i :: FrameOk(h, g, d, visited, stack, i)
    requires s in anchors && h.Link(s, stack[|stack| - 1].node)
    requires s < |d| && stack[|stack| - 1].node < |d| && d[s] == 1 && Closer(d[s], d[stack[|stack| - 1].node])
    ensures IsChain(h, anchors, index, [s] + Nodes(stack)) && Approaches(d, [s] + Nodes(stack))
  {
    var c := [s] + Nodes(stack);
    forall i | 0 <= i < |c| ensures c[i] < |d| {
      assert i > 0 ==> FrameOk(h, g, d, visited, stack, |stack| - i);
    }
    forall i | 0 <= i < |c| - 1 ensures h.Link(c[i], c[i + 1]) && Closer(d[c[i]], d[c[i + 1]]) {
      if i > 0 {
        var j := |stack| - i;
        assert c[i] == stack[j].node && c[i + 1] == stack[j - 1].node;
        assert FrameOk(h, g, d, visited, stack, j);
      }
    }
  }

  // ---------------------------------------------------------------------------------------------
  // Steps of the walk
  // ---------------------------------------------------------------------------------------------

  lemma PopKeeps(h: Heap, g: Edges, d: seq<nat>, index: nat, visited: seq<bool>, stack: seq<Frame>, pushed: set<nat>)
    requires WalkKeeps(h, g, d, index, visited, stack, pushed, -1) && stack != []
    requires g.HasSlice(g.firstIncoming, |g.incoming|, stack[|stack| - 1].node)
    requires stack[|stack| - 1].next >= g.firstIncoming[stack[|stack| - 1].node + 1]
    ensures WalkKeeps(h, g, d, index, visited, stack[..|stack| - 1], pushed, -1)
  {
    var rest, top := stack[..|stack| - 1], stack[|stack| - 1];
    forall i ensures FrameOk(h, g, d, visited, rest, i) { assert FrameOk(h, g, d, visited, stack, i); }
    forall i, j ensures NodesDiffer(rest, i, j) { assert NodesDiffer(stack, i, j); }
    forall t: nat, e: nat ensures Scanned(g, visited, rest, pushed, t, e) {
      assert Scanned(g, visited, stack, pushed, t, e);
      if IsSourceEntry(g, t, e) && Passed(rest, t, e) {
        forall i | 0 <= i < |stack| && stack[i].node == t ensures e < stack[i].next {
          if i < |rest| { assert rest[i] == stack[i]; }
        }
      }
    }
  }

  lemma PopOnce(g: Edges, pushed: set<nat>, stack: seq<Frame>, inspected: seq<nat>)
    requires stack != [] && AllOnce(g, pushed, stack, inspected)
    ensures AllOnce(g, pushed, stack[..|stack| - 1], inspected)
  {
    var rest := stack[..|stack| - 1];
    forall k | 0 <= k < |inspected| ensures Once(g, pushed, rest, inspected[k]) {
      assert Once(g, pushed, stack, inspected[k]);
      var t :| t in pushed && IsSourceEntry(g, t, inspected[k]) && Passed(stack, t, inspected[k]);
      assert Passed(rest, t, inspected[k]);
    }
  }

  /** The stack and the visited allocations after the next incoming edge of the allocation on top was inspected. */
  ghost predicate Inspects(g: Edges, visited: seq<bool>, stack: seq<Frame>, visited': seq<bool>, stack': seq<Frame>)
    requires stack != []
  {
    var top := stack[|stack| - 1];
    && IsSourceEntry(g, top.node, top.next) && g.incoming[top.next] < |visited|
    && stack' == stack[|stack| - 1 := top.(next := top.next + 1)]
    && visited' == visited[g.incoming[top.next] := true]
  }

  lemma InspectKeeps(h: Heap, g: Edges, d: seq<nat>, index: nat, visited: seq<bool>, stack: seq<Frame>,
                     pushed: set<nat>, visited': seq<bool>, stack': seq<Frame>)
    requires WalkKeeps(h, g, d, index, visited, stack, pushed, -1) && stack != []
    requires Inspects(g, visited, stack, visited', stack')
    ensures WalkKeeps(h, g, d, index, visited', stack', pushed, g.incoming[stack[|stack| - 1].next])
  {
    var top := stack[|stack| - 1];
    forall i ensures FrameOk(h, g, d, visited', stack', i) {
      assert FrameOk(h, g, d, visited, stack, i) && FrameOk(h, g, d, visited, stack, i - 1);
    }
    forall i, j ensures NodesDiffer(stack', i, j) { assert NodesDiffer(stack, i, j); }
    var s := g.incoming[top.next];
    forall v ensures Accounted(h, d, visited', pushed, s, v) {
      assert Accounted(h, d, visited, pushed, -1, v);
    }
    forall t: nat, e: nat ensures Scanned(g, visited', stack', pushed, t, e) {
      assert Scanned(g, visited, stack, pushed, t, e);
      if IsSourceEntry(g, t, e) && Passed(stack', t, e) && !(t == top.node && e == top.next) {
        forall i | 0 <= i < |stack| && stack[i].node == t ensures e < stack[i].next {
          assert stack'[i].node == t;
        }
      }
    }
  }

  /** An entry belongs to the slice of one allocation only. */
  lemma OneOwner(refs: References, g: Edges, t: nat, u: nat, e: nat)
    requires Represents(refs, g) && t < |refs| && u < |refs| && IsSourceEntry(g, t, e) && IsSourceEntry(g, u, e)
    ensures t == u
  {
    if t < u { FirstsOrdered(g, g.firstIncoming, |g.incoming|, |refs|, t + 1, u); }
    if u < t { FirstsOrdered(g, g.firstIncoming, |g.incoming|, |refs|, u + 1, t); }
  }

  lemma InspectOnce(refs: References, g: Edges, pushed: set<nat>, visited: seq<bool>, stack: seq<Frame>,
                    inspected: seq<nat>, visited': seq<bool>, stack': seq<Frame>)
    requires Represents(refs, g) && AllOnce(g, pushed, stack, inspected) && stack != []
    requires Inspects(g, visited, stack, visited', stack') && forall i, j :: NodesDiffer(stack, i, j)
    requires stack[|stack| - 1].node in pushed && forall t :: t in pushed ==> t < |refs|
    ensures AllOnce(g, pushed, stack', inspected + [stack[|stack| - 1].next])
  {
    var top := stack[|stack| - 1];
    forall k | 0 <= k < |inspected|
      ensures inspected[k] != top.next && Once(g, pushed, stack', inspected[k])
    {
      assert Once(g, pushed, stack, inspected[k]);
      var t :| t in pushed && IsSourceEntry(g, t, inspected[k]) && Passed(stack, t, inspected[k]);
      if inspected[k] == top.next { OneOwner(refs, g, t, top.node, top.next); }
      assert Passed(stack', t, inspected[k]);
    }
    forall i | 0 <= i < |stack'| && stack'[i].node == top.node ensures top.next < stack'[i].next {
      assert NodesDiffer(stack, i, |stack| - 1);
    }
    assert Once(g, pushed, stack', top.next);
  }

  /** Not following a source, because it is not closer to an anchor point than the allocation on top. */
  lemma RejectKeeps(h: Heap, g: Edges, d: seq<nat>, index: nat, visited: seq<bool>, stack: seq<Frame>,
                    pushed: set<nat>, s: nat)
    requires WalkKeeps(h, g, d, index, visited, stack, pushed, s) && stack != []
    requires stack[|stack| - 1].node in pushed && s < |d|
    requires h.Used(s) ==> h.Link(s, stack[|stack| - 1].node) && Rejects(d[s], d[stack[|stack| - 1].node])
    ensures WalkKeeps(h, g, d, index, visited, stack, pushed, -1)
  {
    var top := stack[|stack| - 1].node;
    forall v ensures Accounted(h, d, visited, pushed, -1, v) {
      assert Accounted(h, d, visited, pushed, s, v);
      if v == s && h.Used(s) && d[s] > 0 { assert NoCloserThan(h, d, pushed, s, top); }
    }
  }

  lemma MoreFollowed(h: Heap, d: seq<nat>, index: nat, pushed: set<nat>, s: nat, top: nat)
    requires top in pushed && h.Link(s, top) && s < |d| && top < |d| && Closer(d[s], d[top])
    requires forall t: nat :: FollowedOk(h, d, index, pushed, t)
    ensures forall t: nat :: FollowedOk(h, d, index, pushed + {s}, t)
  {
    var pushed' := pushed + {s};
    forall t: nat ensures FollowedOk(h, d, index, pushed', t) {
      assert FollowedOk(h, d, index, pushed, t);
      if t in pushed && t != index {
        var u: nat :| LeadsOn(h, d, pushed, t, u);
        assert LeadsOn(h, d, pushed', t, u);
      } else if t == s {
        assert FollowedOk(h, d, index, pushed, top) && LeadsOn(h, d, pushed', s, top);
        if top != index { CloserIsTransitive(d[s], d[top], d[index]); }
      }
    }
  }

  /** Following a source. */
  lemma PushKeeps(h: Heap, g: Edges, d: seq<nat>, index: nat, visited: seq<bool>, stack: seq<Frame>, pushed: set<nat>,
                  s: nat)
    requires WalkKeeps(h, g, d, index, visited, stack, pushed, s) && stack != []
    requires s < |d| && h.Link(s, stack[|stack| - 1].node) && visited[s] && s !in pushed
    requires !Rejects(d[s], d[stack[|stack| - 1].node])
    requires forall i :: 0 <= i < |stack| ==> stack[i].node in pushed
    requires g.HasSlice(g.firstIncoming, |g.incoming|, s)
    ensures WalkKeeps(h, g, d, index, visited, stack + [Frame(s, g.firstIncoming[s])], pushed + {s}, -1)
  {
    var stack', pushed' := stack + [Frame(s, g.firstIncoming[s])], pushed + {s};
    forall i ensures FrameOk(h, g, d, visited, stack', i) { assert FrameOk(h, g, d, visited, stack, i); }
    forall i, j ensures NodesDiffer(stack', i, j) { assert NodesDiffer(stack, i, j); }
    forall v ensures Accounted(h, d, visited, pushed', -1, v) {
      assert Accounted(h, d, visited, pushed, s, v);
      if v >= 0 {
        if t: nat :| NoCloserThan(h, d, pushed, v, t) { assert NoCloserThan(h, d, pushed', v, t); }
      }
    }
    MoreFollowed(h, d, index, pushed, s, stack[|stack| - 1].node);
    forall t: nat, e: nat ensures Scanned(g, visited, stack', pushed', t, e) {
      assert Scanned(g, visited, stack, pushed, t, e);
      if t == s {
        assert stack'[|stack|].node == s;
      } else if Passed(stack', t, e) {
        forall i | 0 <= i < |stack| && stack[i].node == t ensures e < stack[i].next {
          assert stack'[i] == stack[i];
        }
      }
    }
  }

  lemma PushOnce(refs: References, g: Edges, pushed: set<nat>, stack: seq<Frame>, inspected: seq<nat>, s: nat,
                 next: nat)
    requires AllOnce(g, pushed, stack, inspected) && s !in pushed
    ensures AllOnce(g, pushed + {s}, stack + [Frame(s, next)], inspected)
  {
    var stack' := stack + [Frame(s, next)];
    forall k | 0 <= k < |inspected| ensures Once(g, pushed + {s}, stack', inspected[k]) {
      assert Once(g, pushed, stack, inspected[k]);
      var t :| t in pushed && IsSourceEntry(g, t, inspected[k]) && Passed(stack, t, inspected[k]);
      assert Passed(stack', t, inspected[k]);
    }
  }

  // ---------------------------------------------------------------------------------------------
  // At least one anchor point is found
  // ---------------------------------------------------------------------------------------------

  /** One of the allocations followed that has the least distance. */
  lemma {:induction false} Least(d: seq<nat>, pushed: set<nat>) returns (m: nat)
    requires pushed != {} && forall t :: t in pushed ==> t < |d|
    ensures m in pushed && forall t :: t in pushed ==> d[m] <= d[t]
    decreases |pushed|
  {
    var x :| x in pushed;
    if pushed == {x} {
      m := x;
    } else {
      var rest := pushed - {x};
      assert pushed == rest + {x};
      assert rest != {};
      m := Least(d, rest);
      if d[x] < d[m] { m := x; }
    }
  }

  /** An allocation that is no anchor point has a source one step closer to one. */
  lemma CloserSource(h: Heap, anchors: seq<nat>, d: seq<nat>, v: nat) returns (u: int)
    requires Measured(h, anchors, d) && h.Valid() && v < |d| && d[v] > 1
    ensures h.Link(u, v) && 0 <= u < |d| && 0 < d[u] < d[v]
  {
    assert IsDistance(h, anchors, d[v], v);
    var k: nat := d[v] - 2;
    var more := k + 1;
    assert Reach(h, anchors, more, v) && !Reach(h, anchors, k, v);
    assert ReachedFromBefore(h, anchors, more, v);
    u :| h.Link(u, v) && Reach(h, anchors, k, u);
    assert IsDistance(h, anchors, d[u], u);
  }

  lemma NotCloser(h: Heap, d: seq<nat>, visited: seq<bool>, pushed: set<nat>, u: nat, m: nat)
    requires (forall v :: Accounted(h, d, visited, pushed, -1, v)) && |visited| == |d| && u < |d| && m < |d|
    requires visited[u] && h.Used(u) && d[u] > 0
    requires forall t :: t in pushed ==> t < |d| && d[m] <= d[t]
    ensures d[m] <= d[u]
  {
    assert Accounted(h, d, visited, pushed, -1, u);
  }

  /** A walk that ends with an empty stack has followed an anchor point. */
  lemma EndsAtAnchorPoint(h: Heap, g: Edges, anchors: seq<nat>, d: seq<nat>, index: nat, visited: seq<bool>,
                          pushed: set<nat>)
    returns (m: nat)
    requires h.Valid() && Represents(h.refs, g) && Measured(h, anchors, d)
    requires WalkKeeps(h, g, d, index, visited, [], pushed, -1)
    ensures m in pushed && d[m] == 1
  {
    m := Least(d, pushed);
    if d[m] != 1 {
      var u := CloserSource(h, anchors, d, m);
      EntriesAreEdges(h.refs, g, u, m);
      var e :| IsIncoming(g, e, u, m);
      assert Scanned(g, visited, [], pushed, m, e);
      assert Passed([], m, e);
      NotCloser(h, d, visited, pushed, u, m);
    }
  }
}

/**
 Explaining why an allocation is anchored: a backward walk over incoming edges, guided by the distances,
 that reports chains of references from anchor points to the allocation.
 */
module AnchorChains {
  import opened AnchorReports
  import opened AnchorWalk
  import opened EdgeSearch
  import opened GraphEdges
  import opened Marking

  // ---------------------------------------------------------------------------------------------
  // What the whole search promises
  // ---------------------------------------------------------------------------------------------

  /** A chain that was reported begins with an allocation that was followed and is at distance 1. */
  ghost predicate HeadOk(d: seq<nat>, followed: set<nat>, full: Chains, k: nat) {
    k < |full| ==> full[k] != [] && full[k][0] in followed && full[k][0] < |d| && d[full[k][0]] == 1
  }

  ghost predicate HeadsDiffer(full: Chains, i: nat, j: nat) {
    i < j < |full| && full[i] != [] && full[j] != [] ==> full[i][0] != full[j][0]
  }

  ghost predicate IsHead(full: Chains, t: nat, k: nat) {
    k < |full| && full[k] != [] && full[k][0] == t
  }

  ghost predicate Headed(d: seq<nat>, followed: set<nat>, full: Chains, t: nat) {
    t in followed && t < |d| && d[t] == 1 ==> exists k: nat :: IsHead(full, t, k)
  }

  /** A used source of what was followed was followed as well, or is no closer than something followed it refers to. */
  ghost predicate Settled(h: Heap, d: seq<nat>, followed: set<nat>, s: nat, t: nat) {
    t in followed && h.Link(s, t) && s < |d| && d[s] > 0 ==>
      s in followed || exists u: nat :: NoCloserThan(h, d, followed, s, u)
  }

  /** The chains reported so far begin with different allocations that were followed and are at distance 1. */
  ghost predicate Heads(d: seq<nat>, followed: set<nat>, full: Chains) {
    (forall k: nat :: HeadOk(d, followed, full, k)) && forall i: nat, j: nat :: HeadsDiffer(full, i, j)
  }

  /**
   The report has different chains from allocations at distance 1 that were followed and, unless it was stopped, one
   from each of these; and unless it was stopped, nothing that should have been followed was left out.
   */
  ghost predicate Explained(h: Heap, anchors: seq<nat>, d: seq<nat>, mapped: seq<bool>, index: nat,
                            stop: Chains -> bool, followed: set<nat>, full: Chains, chains: Chains, stopped: bool)
  {
    && Reports(h, anchors, d, mapped, index, stop, full, chains, stopped)
    && Heads(d, followed, full)
    && index in followed && (forall t: nat :: FollowedOk(h, d, index, followed, t))
    && (!stopped ==> (forall t: nat :: Headed(d, followed, full, t))
                     && forall s: nat, t: nat :: Settled(h, d, followed, s, t))
  }

  /**
   If nothing stops the search and what is used is mapped, each used anchor point that refers to the allocation, and
   to no other anchor point, begins a chain that is reported in full.
   */
  lemma SourceIsReported(h: Heap, anchors: seq<nat>, d: seq<nat>, mapped: seq<bool>, index: nat,
                         stop: Chains -> bool, followed: set<nat>, full: Chains, chains: Chains, a: nat)
    returns (k: nat)
    requires h.Valid() && Measured(h, anchors, d) && AllMapped(h, mapped) && |mapped| == |h.refs| && index < |d|
    requires Explained(h, anchors, d, mapped, index, stop, followed, full, chains, false)
    requires a in anchors && h.Link(a, index) && forall b :: b in anchors ==> !h.Link(a, b)
    ensures k < |chains| && IsChain(h, anchors, index, chains[k]) && chains[k][0] == a
  {
    assert IsDistance(h, anchors, d[a], a) && Reach(h, anchors, 0, a);
    assert Settled(h, d, followed, a, index);
    forall u: nat ensures !NoCloserThan(h, d, followed, a, u) {
      assert FollowedOk(h, d, index, followed, u);
      if u < |d| { assert IsDistance(h, anchors, d[u], u); }
    }
    assert Headed(d, followed, full, a);
    k :| IsHead(full, a, k);
    assert ReportOk(h, anchors, d, mapped, index, full, chains, false, k);
    CompleteIsWhole(h, mapped, full[k], chains[k]);
  }

  lemma {:induction false} ApproachesFromOne(d: seq<nat>, c: seq<nat>, i: nat)
    requires Approaches(d, c) && 0 < i < |c|
    ensures d[c[i]] > 1
    decreases i
  {
    assert Closer(d[c[i - 1]], d[c[i]]);
    if i > 1 { ApproachesFromOne(d, c, i - 1); }
  }

  /** An anchor point is explained by itself alone. */
  lemma AnchorPointIsAlone(h: Heap, anchors: seq<nat>, d: seq<nat>, mapped: seq<bool>, index: nat,
                           stop: Chains -> bool, followed: set<nat>, full: Chains, chains: Chains)
    requires AllMapped(h, mapped) && index < |d| && d[index] == 1
    requires Explained(h, anchors, d, mapped, index, stop, followed, full, chains, false)
    ensures chains == [[index]]
  {
    forall t: nat | t in followed ensures t == index { assert FollowedOk(h, d, index, followed, t); }
    assert Headed(d, followed, full, index);
    var k: nat :| IsHead(full, index, k);
    assert HeadOk(d, followed, full, 0) && HeadOk(d, followed, full, 1) && HeadsDiffer(full, 0, 1);
    assert |full| == 1 && ReportOk(h, anchors, d, mapped, index, full, chains, false, 0);
    var c := full[0];
    if |c| > 1 { ApproachesFromOne(d, c, |c| - 1); }
    CompleteIsWhole(h, mapped, c, chains[0]);
    assert c == [index] && chains == [chains[0]];
  }

  // ---------------------------------------------------------------------------------------------
  // The search
  // ---------------------------------------------------------------------------------------------

  /** What is left to do: edges of the allocation on top, then frames, for as long as nothing new is visited. */
  function EdgesLeft(g: Edges, stack: seq<Frame>): nat {
    if stack == [] then 0
    else
      var top := stack[|stack| - 1];
      if top.node + 1 < |g.firstIncoming| && top.next <= g.firstIncoming[top.node + 1]
      then g.firstIncoming[top.node + 1] - top.next else 0
  }

  /** Everything that the walk keeps, together with what was inspected and reported. */
  ghost predicate Walks(h: Heap, g: Edges, anchors: seq<nat>, d: seq<nat>, index: nat, visited: seq<bool>,
                        stack: seq<Frame>, pushed: set<nat>, inspected: seq<nat>, full: Chains)
  {
    && WalkKeeps(h, g, d, index, visited, stack, pushed, -1)
    && (forall i :: 0 <= i < |stack| ==> stack[i].node in pushed)
    && AllOnce(g, pushed, stack, inspected)
    && Heads(d, pushed, full) && forall t: nat :: Headed(d, pushed, full, t)
  }

  lemma WalkStarts(h: Heap, g: Edges, anchors: seq<nat>, d: seq<nat>, index: nat, visited: seq<bool>, full: Chains)
    requires |d| == |visited| == |h.refs| && index < |d| && h.Used(index) && d[index] > 0
    requires g.HasSlice(g.firstIncoming, |g.incoming|, index)
    requires full == if d[index] == 1 then [[index]] else []
    requires forall v :: 0 <= v < |visited| ==> (visited[v] <==> !h.Used(v) || v == index)
    ensures Walks(h, g, anchors, d, index, visited, [Frame(index, g.firstIncoming[index])], {index}, [], full)
  {
    var stack := [Frame(index, g.firstIncoming[index])];
    forall i ensures FrameOk(h, g, d, visited, stack, i) {}
    forall i, j ensures NodesDiffer(stack, i, j) {}
    forall t: nat, e: nat ensures Scanned(g, visited, stack, {index}, t, e) {
      assert stack[0].node == index;
    }
    forall v ensures Accounted(h, d, visited, {index}, -1, v) {}
    forall t: nat ensures FollowedOk(h, d, index, {index}, t) {}
    forall t: nat ensures Headed(d, {index}, full, t) {
      if t == index && d[t] == 1 { assert IsHead(full, t, 0); }
    }
  }

  lemma WalkPops(h: Heap, g: Edges, anchors: seq<nat>, d: seq<nat>, index: nat, visited: seq<bool>,
                 stack: seq<Frame>, pushed: set<nat>, inspected: seq<nat>, full: Chains)
    requires Walks(h, g, anchors, d, index, visited, stack, pushed, inspected, full) && stack != []
    requires g.HasSlice(g.firstIncoming, |g.incoming|, stack[|stack| - 1].node)
    requires stack[|stack| - 1].next >= g.firstIncoming[stack[|stack| - 1].node + 1]
    ensures Walks(h, g, anchors, d, index, visited, stack[..|stack| - 1], pushed, inspected, full)
  {
    PopKeeps(h, g, d, index, visited, stack, pushed);
    PopOnce(g, pushed, stack, inspected);
  }

  /** The source of the next edge was visited before. */
  lemma WalkSkips(h: Heap, g: Edges, anchors: seq<nat>, d: seq<nat>, index: nat, visited: seq<bool>, stack: seq<Frame>,
                  pushed: set<nat>, inspected: seq<nat>, full: Chains, stack': seq<Frame>)
    requires Represents(h.refs, g) && Walks(h, g, anchors, d, index, visited, stack, pushed, inspected, full)
    requires stack != [] && Inspects(g, visited, stack, visited, stack')
    requires visited[g.incoming[stack[|stack| - 1].next]]
    ensures Walks(h, g, anchors, d, index, visited, stack', pushed, inspected + [stack[|stack| - 1].next], full)
  {
    var s := g.incoming[stack[|stack| - 1].next];
    InspectKeeps(h, g, d, index, visited, stack, pushed, visited, stack');
    InspectOnce(h.refs, g, pushed, visited, stack, inspected, visited, stack');
    forall v ensures Accounted(h, d, visited, pushed, -1, v) { assert Accounted(h, d, visited, pushed, -1, v); }
  }

  /** The source of the next edge is not followed. */
  lemma WalkRejects(h: Heap, g: Edges, anchors: seq<nat>, d: seq<nat>, index: nat, visited: seq<bool>,
                    stack: seq<Frame>, pushed: set<nat>, inspected: seq<nat>, full: Chains, visited': seq<bool>,
                    stack': seq<Frame>)
    requires Represents(h.refs, g) && Walks(h, g, anchors, d, index, visited, stack, pushed, inspected, full)
    requires stack != [] && Inspects(g, visited, stack, visited', stack')
    requires var top := stack[|stack| - 1];
             var s := g.incoming[top.next];
             top.node < |d| && (h.Used(s) ==> h.Link(s, top.node) && Rejects(d[s], d[top.node]))
    ensures Walks(h, g, anchors, d, index, visited', stack', pushed, inspected + [stack[|stack| - 1].next], full)
  {
    InspectKeeps(h, g, d, index, visited, stack, pushed, visited', stack');
    InspectOnce(h.refs, g, pushed, visited, stack, inspected, visited', stack');
    RejectKeeps(h, g, d, index, visited', stack', pushed, g.incoming[stack[|stack| - 1].next]);
  }

  /** One more allocation was followed, and a chain was reported from it if it is at distance 1. */
  lemma HeadsGrow(d: seq<nat>, pushed: set<nat>, full: Chains, s: nat, c: seq<nat>, full': Chains)
    requires Heads(d, pushed, full) && (forall t: nat :: Headed(d, pushed, full, t)) && s !in pushed && s < |d|
    requires c != [] && c[0] == s && full' == if d[s] == 1 then full + [c] else full
    ensures Heads(d, pushed + {s}, full') && forall t: nat :: Headed(d, pushed + {s}, full', t)
  {
    var pushed' := pushed + {s};
    forall k: nat ensures HeadOk(d, pushed', full', k) { assert HeadOk(d, pushed, full, k); }
    forall i: nat, j: nat ensures HeadsDiffer(full', i, j) {
      assert HeadsDiffer(full, i, j) && HeadOk(d, pushed, full, i);
    }
    forall t: nat ensures Headed(d, pushed', full', t) {
      assert Headed(d, pushed, full, t);
      if t in pushed && t < |d| && d[t] == 1 {
        var k: nat :| IsHead(full, t, k);
        assert IsHead(full', t, k);
      } else if t == s && d[s] == 1 {
        assert IsHead(full', s, |full|);
      }
    }
  }

  /** The source of the next edge is followed, after it was reported if it is an anchor point. */
  lemma WalkFollows(h: Heap, g: Edges, anchors: seq<nat>, d: seq<nat>, index: nat, visited: seq<bool>,
                    stack: seq<Frame>, pushed: set<nat>, inspected: seq<nat>, full: Chains, visited': seq<bool>,
                    stack': seq<Frame>, full': Chains)
    requires Represents(h.refs, g) && Walks(h, g, anchors, d, index, visited, stack, pushed, inspected, full)
    requires stack != [] && Inspects(g, visited, stack, visited', stack')
    requires var top := stack[|stack| - 1];
             var s := g.incoming[top.next];
             && s < |d| && top.node < |d| && !visited[s] && h.Link(s, top.node) && !Rejects(d[s], d[top.node])
             && full' == if d[s] == 1 then full + [[s] + Nodes(stack)] else full
    ensures var s := g.incoming[stack[|stack| - 1].next];
            && g.HasSlice(g.firstIncoming, |g.incoming|, s)
            && Walks(h, g, anchors, d, index, visited', stack' + [Frame(s, g.firstIncoming[s])], pushed + {s},
                     inspected + [stack[|stack| - 1].next], full')
  {
    var top := stack[|stack| - 1];
    var s := g.incoming[top.next];
    RowsAreSlices(h.refs, g, s);
    InspectKeeps(h, g, d, index, visited, stack, pushed, visited', stack');
    InspectOnce(h.refs, g, pushed, visited, stack, inspected, visited', stack');
    forall i | 0 <= i < |stack'| ensures stack'[i].node in pushed {
      assert stack'[i].node == stack[i].node;
    }
    PushKeeps(h, g, d, index, visited', stack', pushed, s);
    PushOnce(h.refs, g, pushed, stack', inspected + [top.next], s, g.firstIncoming[s]);
    HeadsGrow(d, pushed, full, s, [s] + Nodes(stack), full');
  }

  /** A search that ends has left nothing out. */
  lemma EndsSettled(h: Heap, g: Edges, d: seq<nat>, index: nat, visited: seq<bool>, pushed: set<nat>)
    requires h.Valid() && Represents(h.refs, g) && WalkKeeps(h, g, d, index, visited, [], pushed, -1)
    ensures forall s: nat, t: nat :: Settled(h, d, pushed, s, t)
  {
    forall s: nat, t: nat ensures Settled(h, d, pushed, s, t) {
      if t in pushed && h.Link(s, t) {
        EntriesAreEdges(h.refs, g, s, t);
        var e: nat :| IsIncoming(g, e, s, t);
        assert Scanned(g, visited, [], pushed, t, e) && Passed([], t, e);
        assert Accounted(h, d, visited, pushed, -1, s);
      }
    }
  }

  /** The allocations that are not to be visited: the free ones and the one to explain. */
  method StartVisited(h: Heap, index: nat) returns (visited: seq<bool>)
    requires h.Valid() && index < |h.refs|
    ensures |visited| == |h.refs| && forall v :: 0 <= v < |visited| ==> (visited[v] <==> !h.Used(v) || v == index)
  {
    visited := FreeIsVisited(h);
    visited := visited[index := true];
  }

  /** The source of an entry of the allocation on top, as a link if it is used. */
  lemma NextSource(h: Heap, g: Edges, d: seq<nat>, index: nat, visited: seq<bool>, stack: seq<Frame>, pushed: set<nat>)
    requires h.Valid() && Represents(h.refs, g) && WalkKeeps(h, g, d, index, visited, stack, pushed, -1) && stack != []
    ensures var top := stack[|stack| - 1];
            && h.Used(top.node) && top.node < |d| && d[top.node] > 0
            && g.HasSlice(g.firstIncoming, |g.incoming|, top.node)
            && (top.next < g.firstIncoming[top.node + 1] ==>
                  IsSourceEntry(g, top.node, top.next) && Edge(h.refs, g.incoming[top.next], top.node))
  {
    var top := stack[|stack| - 1];
    assert FrameOk(h, g, d, visited, stack, |stack| - 1);
    if top.next < g.firstIncoming[top.node + 1] {
      IncomingEntry(h.refs, g, top.node, top.next);
    }
  }

  lemma StackUsed(h: Heap, g: Edges, d: seq<nat>, index: nat, visited: seq<bool>, stack: seq<Frame>, pushed: set<nat>)
    requires WalkKeeps(h, g, d, index, visited, stack, pushed, -1)
    ensures forall i :: 0 <= i < |stack| ==> h.Used(stack[i].node) && stack[i].node < |h.refs|
  {
    forall i | 0 <= i < |stack| ensures h.Used(stack[i].node) && stack[i].node < |h.refs| {
      assert FrameOk(h, g, d, visited, stack, i);
    }
  }

  lemma InspectedInRange(g: Edges, pushed: set<nat>, stack: seq<Frame>, inspected: seq<nat>)
    requires AllOnce(g, pushed, stack, inspected)
    ensures forall k :: 0 <= k < |inspected| ==> inspected[k] < |g.incoming|
  {
    forall k | 0 <= k < |inspected| ensures inspected[k] < |g.incoming| {
      assert Once(g, pushed, stack, inspected[k]);
    }
  }

  lemma AnchoredIsUsed(h: Heap, anchors: seq<nat>, d: seq<nat>, index: nat)
    requires h.Valid() && Measured(h, anchors, d) && index < |d| && d[index] > 0
    ensures h.Used(index)
  {
    assert IsDistance(h, anchors, d[index], index);
    ReachedIsUsed(h, anchors, d[index] - 1, index);
  }

  lemma {:induction false} ReachedIsUsed(h: Heap, anchors: seq<nat>, k: nat, v: int)
    requires Reach(h, anchors, k, v)
    ensures h.Used(v)
    decreases k
  {
    if k > 0 && Reach(h, anchors, k - 1, v) { ReachedIsUsed(h, anchors, k - 1, v); }
  }

  /** An allocation at distance 1 is an anchor point. */
  lemma DirectChain(h: Heap, anchors: seq<nat>, d: seq<nat>, index: nat)
    requires Measured(h, anchors, d) && index < |d| && d[index] == 1
    ensures index in anchors && IsChain(h, anchors, index, [index]) && Approaches(d, [index])
  {
    assert IsDistance(h, anchors, d[index], index);
  }

  /** The chain from a source at distance 1 through the stack. */
  lemma ChainThroughStack(h: Heap, g: Edges, anchors: seq<nat>, d: seq<nat>, mapped: seq<bool>, index: nat,
                          visited: seq<bool>, stack: seq<Frame>, pushed: set<nat>, s: nat)
    requires h.Valid() && Measured(h, anchors, d) && |mapped| == |h.refs|
    requires WalkKeeps(h, g, d, index, visited, stack, pushed, -1) && stack != []
    requires s < |d| && d[s] == 1 && h.Link(s, stack[|stack| - 1].node) && stack[|stack| - 1].node < |d|
    requires Closer(d[s], d[stack[|stack| - 1].node])
    ensures var c := [s] + Nodes(stack);
            IsChain(h, anchors, index, c) && Approaches(d, c) && AllUsed(h, mapped, c)
  {
    StackUsed(h, g, d, index, visited, stack, pushed);
    DirectChain(h, anchors, d, s);
    StackIsChain(h, g, anchors, d, index, visited, stack, s);
    var c := [s] + Nodes(stack);
    forall i | 0 <= i < |c| ensures c[i] < |mapped| && h.Used(c[i]) {
      if i > 0 { assert c[i] == stack[|stack| - i].node; }
    }
  }

  /** Reports the chain from s through the allocations on the stack if s is an anchor point. */
  method ReportIfAnchorPoint(h: Heap, ghost g: Edges, ghost anchors: seq<nat>, d: seq<nat>, mapped: seq<bool>,
                             ghost index: nat, ghost visited: seq<bool>, stack: seq<Frame>, ghost pushed: set<nat>,
                             s: nat, chains0: Chains, ghost full0: Chains, stop: Chains -> bool)
    returns (chains: Chains, stopped: bool, ghost full: Chains)
    requires h.Valid() && Measured(h, anchors, d) && |mapped| == |h.refs|
    requires WalkKeeps(h, g, d, index, visited, stack, pushed, -1) && stack != []
    requires s < |d| && h.Link(s, stack[|stack| - 1].node) && stack[|stack| - 1].node < |d|
    requires Closer(d[s], d[stack[|stack| - 1].node])
    requires Reports(h, anchors, d, mapped, index, stop, full0, chains0, false)
    ensures full == if d[s] == 1 then full0 + [[s] + Nodes(stack)] else full0
    ensures Reports(h, anchors, d, mapped, index, stop, full, chains, stopped)
  {
    chains, stopped, full := chains0, false, full0;
    if d[s] == 1 {
      StackUsed(h, g, d, index, visited, stack, pushed);
      ChainThroughStack(h, g, anchors, d, mapped, index, visited, stack, pushed, s);
      chains, stopped := ReportChain(h, mapped, s, stack, chains0, stop);
      full := full0 + [[s] + Nodes(stack)];
      ReportAdded(h, anchors, d, mapped, index, stop, full0, chains0, [s] + Nodes(stack), chains, stopped);
    }
  }

  /** Inspects the next incoming edge of the allocation on top. */
  method InspectEdge(h: Heap, g: Edges, ghost anchors: seq<nat>, d: seq<nat>, mapped: seq<bool>, ghost index: nat,
                     visited0: seq<bool>, stack0: seq<Frame>, ghost pushed0: set<nat>, ghost inspected: seq<nat>,
                     chains0: Chains, ghost full0: Chains, stop: Chains -> bool)
    returns (visited: seq<bool>, stack: seq<Frame>, ghost pushed: set<nat>, chains: Chains, stopped: bool,
             ghost full: Chains)
    requires h.Valid() && Represents(h.refs, g) && Measured(h, anchors, d) && |mapped| == |h.refs|
    requires Walks(h, g, anchors, d, index, visited0, stack0, pushed0, inspected, full0) && stack0 != []
    requires var top := stack0[|stack0| - 1];
             g.HasSlice(g.firstIncoming, |g.incoming|, top.node) && top.next < g.firstIncoming[top.node + 1]
    requires Reports(h, anchors, d, mapped, index, stop, full0, chains0, false)
    ensures Reports(h, anchors, d, mapped, index, stop, full, chains, stopped)
    ensures Walks(h, g, anchors, d, index, visited, stack, pushed, inspected + [stack0[|stack0| - 1].next], full)
    ensures Unvisited(visited) < Unvisited(visited0) ||
            (visited == visited0 && |stack| == |stack0| && EdgesLeft(g, stack) < EdgesLeft(g, stack0))
  {
    NextSource(h, g, d, index, visited0, stack0, pushed0);
    var top := stack0[|stack0| - 1];
    var s := g.incoming[top.next];
    stack := stack0[|stack0| - 1 := Frame(top.node, top.next + 1)];
    visited, pushed, chains, stopped, full := visited0, pushed0, chains0, false, full0;
    if visited[s] {
      assert visited == visited[s := true];
      WalkSkips(h, g, anchors, d, index, visited0, stack0, pushed0, inspected, full0, stack);
      return;
    }
    VisitOne(visited, s);
    visited := visited[s := true];
    if !h.used[s] || Rejects(d[s], d[top.node]) {
      WalkRejects(h, g, anchors, d, index, visited0, stack0, pushed0, inspected, full0, visited, stack);
      return;
    }
    chains, stopped, full :=
      ReportIfAnchorPoint(h, g, anchors, d, mapped, index, visited0, stack0, pushed0, s, chains0, full0, stop);
    WalkFollows(h, g, anchors, d, index, visited0, stack0, pushed0, inspected, full0, visited, stack, full);
    stack := stack + [Frame(s, g.firstIncoming[s])];
    pushed := pushed0 + {s};
  }

  /** Walks back from the allocation to explain, over edges from used allocations that are closer to anchor points. */
  method WalkBack(h: Heap, g: Edges, ghost anchors: seq<nat>, d: seq<nat>, mapped: seq<bool>, index: nat,
                  chains0: Chains, ghost full0: Chains, stop: Chains -> bool)
    returns (chains: Chains, stopped: bool, inspected: seq<nat>, ghost followed: set<nat>, ghost full: Chains)
    requires h.Valid() && Represents(h.refs, g) && Measured(h, anchors, d) && |mapped| == |h.refs|
    requires index < |h.refs| && h.Used(index) && d[index] > 0
    requires full0 == if d[index] == 1 then [[index]] else []
    requires Reports(h, anchors, d, mapped, index, stop, full0, chains0, false)
    ensures Explained(h, anchors, d, mapped, index, stop, followed, full, chains, stopped) && chains != []
    ensures NoRepeats(inspected) && forall k :: 0 <= k < |inspected| ==> inspected[k] < |g.incoming|
  {
    chains, stopped, inspected, full := chains0, false, [], full0;
    var visited := StartVisited(h, index);
    RowsAreSlices(h.refs, g, index);
    var stack := [Frame(index, g.firstIncoming[index])];
    followed := {index};
    WalkStarts(h, g, anchors, d, index, visited, full);
    while stack != []
      invariant Walks(h, g, anchors, d, index, visited, stack, followed, inspected, full)
      invariant Reports(h, anchors, d, mapped, index, stop, full, chains, false)
      decreases Unvisited(visited), |stack|, EdgesLeft(g, stack)
    {
      var top := stack[|stack| - 1];
      NextSource(h, g, d, index, visited, stack, followed);
      if top.next >= g.firstIncoming[top.node + 1] {
        WalkPops(h, g, anchors, d, index, visited, stack, followed, inspected, full);
        stack := stack[..|stack| - 1];
      } else {
        visited, stack, followed, chains, stopped, full :=
          InspectEdge(h, g, anchors, d, mapped, index, visited, stack, followed, inspected, chains, full, stop);
        inspected := inspected + [top.next];
        InspectedInRange(g, followed, stack, inspected);
        if stopped {
          return;
        }
      }
    }
    ghost var m := EndsAtAnchorPoint(h, g, anchors, d, index, visited, followed);
    assert Headed(d, followed, full, m);
    EndsSettled(h, g, d, index, visited, followed);
    InspectedInRange(g, followed, stack, inspected);
  }

  /** Reports chains of references that lead from anchor points of one kind to an allocation. */
  method VisitAnchorChains(h: Heap, g: Edges, ghost anchors: seq<nat>, d: seq<nat>, leaked: seq<bool>,
                           mapped: seq<bool>, index: nat, stop: Chains -> bool)
    returns (chains: Chains, stopped: bool, inspected: seq<nat>, ghost followed: set<nat>, ghost full: Chains)
    requires h.Valid() && Represents(h.refs, g) && Measured(h, anchors, d)
    requires |leaked| == |mapped| == |h.refs| && forall v :: 0 <= v < |leaked| && d[v] > 0 ==> !leaked[v]
    ensures index >= |h.refs| || d[index] == 0 ==> chains == [] && !stopped
    ensures index < |h.refs| && d[index] > 0 ==>
              chains != [] && Explained(h, anchors, d, mapped, index, stop, followed, full, chains, stopped)
    ensures NoRepeats(inspected) && forall k :: 0 <= k < |inspected| ==> inspected[k] < |g.incoming|
  {
    chains, stopped, inspected, followed, full := [], false, [], {index}, [];
    if index >= |h.refs| || leaked[index] || d[index] == 0 {
      return;
    }
    AnchoredIsUsed(h, anchors, d, index);
    if d[index] == 1 {
      DirectChain(h, anchors, d, index);
      chains, stopped := ReportChain(h, mapped, index, [], chains, stop);
      full := [[index]];
      assert [index] + Nodes([]) == [index];
      ReportAdded(h, anchors, d, mapped, index, stop, [], [], [index], chains, stopped);
      if stopped {
        return;
      }
    }
    chains, stopped, inspected, followed, full := WalkBack(h, g, anchors, d, mapped, index, chains, full, stop);
  }
}

/**
 What is reported about why an allocation is anchored: chains of references from anchor points to it, told to a visitor
 one allocation at a time until it asks to stop.
 */
module AnchorReports {
  import opened GraphEdges
  import opened Marking

  /** An allocation of which the incoming edges from next on remain to be inspected. */
  datatype Frame = Frame(node: nat, next: nat)

  /** What the visitor was told: one list per chain, from its anchor point towards the allocation to explain. */
  type Chains = seq<seq<nat>>

  /** From the top of the stack down, the frames are a path along links to the allocation to explain. */
  function Nodes(stack: seq<Frame>): seq<nat> {
    seq(|stack|, i requires 0 <= i < |stack| => stack[|stack| - 1 - i].node)
  }

  // ---------------------------------------------------------------------------------------------
  // Chains
  // ---------------------------------------------------------------------------------------------

  /** A complete chain: from an anchor point along links to the allocation. */
  ghost predicate IsChain(h: Heap, anchors: seq<nat>, index: nat, c: seq<nat>) {
    && c != [] && c[0] in anchors && c[|c| - 1] == index
    && forall i :: 0 <= i < |c| - 1 ==> h.Link(c[i], c[i + 1])
  }

  /** A source is closer to an anchor point than a target; at a distance of 255, as close is close enough. */
  predicate Closer(sourceDistance: nat, targetDistance: nat) {
    0 < sourceDistance &&
    (sourceDistance < targetDistance || (sourceDistance == targetDistance && targetDistance == 0xFF))
  }

  lemma CloserIsTransitive(a: nat, b: nat, c: nat)
    requires Closer(a, b) && Closer(b, c)
    ensures Closer(a, c)
  {
  }

  /** The chain begins at distance 1, and each of its allocations is closer to an anchor point than the next. */
  ghost predicate Approaches(d: seq<nat>, c: seq<nat>) {
    && (forall i :: 0 <= i < |c| ==> c[i] < |d|) && (c != [] ==> d[c[0]] == 1)
    && forall i :: 0 <= i < |c| - 1 ==> Closer(d[c[i]], d[c[i + 1]])
  }

  // ---------------------------------------------------------------------------------------------
  // What a visitor is told
  // ---------------------------------------------------------------------------------------------

  /** What a visitor is told next, given what it was told so far. */
  function Told(chains: Chains, node: nat): Chains
    requires chains != []
  {
    chains[|chains| - 1 := chains[|chains| - 1] + [node]]
  }

  predicate Tellable(h: Heap, mapped: seq<bool>, v: nat) {
    v < |mapped| && h.Used(v) && mapped[v]
  }

  /** Of the first n allocations of the chain, all were told, except the first one if it could not be. */
  ghost predicate TellsTo(h: Heap, mapped: seq<bool>, c: seq<nat>, n: nat, told: seq<nat>) {
    && 1 <= n <= |c| && (forall i :: 1 <= i < n ==> Tellable(h, mapped, c[i]))
    && told == if Tellable(h, mapped, c[0]) then c[..n] else c[1..n]
  }

  /** The chain was told up to the first allocation after the anchor point that could not be told. */
  ghost predicate Complete(h: Heap, mapped: seq<bool>, c: seq<nat>, told: seq<nat>) {
    exists n: nat :: TellsTo(h, mapped, c, n, told) && (n == |c| || !Tellable(h, mapped, c[n]))
  }

  /** Something of the chain was told. */
  ghost predicate Begun(h: Heap, mapped: seq<bool>, c: seq<nat>, told: seq<nat>) {
    told != [] && exists n: nat :: TellsTo(h, mapped, c, n, told)
  }

  ghost predicate AllMapped(h: Heap, mapped: seq<bool>) {
    forall v :: 0 <= v < |mapped| && h.Used(v) ==> mapped[v]
  }

  ghost predicate AllUsed(h: Heap, mapped: seq<bool>, c: seq<nat>) {
    forall i :: 0 <= i < |c| ==> c[i] < |mapped| && h.Used(c[i])
  }

  /** If what is used is mapped, a complete report has the whole chain. */
  lemma CompleteIsWhole(h: Heap, mapped: seq<bool>, c: seq<nat>, told: seq<nat>)
    requires AllMapped(h, mapped) && AllUsed(h, mapped, c) && c != []
    ensures Complete(h, mapped, c, told) ==> told == c
    ensures Begun(h, mapped, c, told) ==> told <= c
  {
    assert forall i :: 0 <= i < |c| ==> Tellable(h, mapped, c[i]);
    if Complete(h, mapped, c, told) {
      var n: nat :| TellsTo(h, mapped, c, n, told) && (n == |c| || !Tellable(h, mapped, c[n]));
      assert c[..|c|] == c;
    }
  }

  // ---------------------------------------------------------------------------------------------
  // When the visitor stops
  // ---------------------------------------------------------------------------------------------

  /** What the visitor had been told when the j-th allocation of chain k was the last one. */
  function SoFar(chains: Chains, k: nat, j: nat): Chains
    requires k < |chains| && j <= |chains[k]|
  {
    chains[..k] + [chains[k][..j]]
  }

  ghost predicate StopsAt(stop: Chains -> bool, chains: Chains, stopped: bool, k: nat, j: nat) {
    k < |chains| && 0 < j <= |chains[k]| ==>
      (stop(SoFar(chains, k, j)) <==> stopped && k == |chains| - 1 && j == |chains[k]|)
  }

  /** The visitor asked to stop after the last thing it was told exactly if the report was stopped, and never before. */
  ghost predicate StopsExactly(stop: Chains -> bool, chains: Chains, stopped: bool) {
    && (stopped ==> chains != [] && chains[|chains| - 1] != [])
    && forall k: nat, j: nat :: StopsAt(stop, chains, stopped, k, j)
  }

  lemma ToldMore(stop: Chains -> bool, chains: Chains, node: nat)
    requires chains != [] && StopsExactly(stop, chains, false)
    ensures StopsExactly(stop, Told(chains, node), stop(Told(chains, node)))
  {
    var more, last := Told(chains, node), |chains| - 1;
    forall k: nat, j: nat ensures StopsAt(stop, more, stop(more), k, j) {
      if k < |more| && 0 < j <= |more[k]| {
        if k == last && j == |more[k]| {
          assert more[k][..j] == more[k] && more == more[..k] + [more[k]];
        } else {
          assert more[..k] == chains[..k] && more[k][..j] == chains[k][..j];
          assert StopsAt(stop, chains, false, k, j);
        }
      }
    }
  }

  lemma OneMoreChain(stop: Chains -> bool, chains: Chains)
    requires StopsExactly(stop, chains, false)
    ensures StopsExactly(stop, chains + [[]], false)
  {
    var more := chains + [[]];
    forall k: nat, j: nat ensures StopsAt(stop, more, false, k, j) {
      if k < |more| && 0 < j <= |more[k]| {
        assert SoFar(more, k, j) == SoFar(chains, k, j);
        assert StopsAt(stop, chains, false, k, j);
      }
    }
  }

  lemma TellsOneMore(h: Heap, mapped: seq<bool>, c: seq<nat>, n: nat, told: seq<nat>)
    requires TellsTo(h, mapped, c, n, told) && n < |c| && Tellable(h, mapped, c[n])
    ensures TellsTo(h, mapped, c, n + 1, told + [c[n]])
  {
    assert c[..n + 1] == c[..n] + [c[n]] && c[1..n + 1] == c[1..n] + [c[n]];
  }

  /** Reports an anchor point and then the allocations on the stack, from the top down, until told to stop. */
  method ReportChain(h: Heap, mapped: seq<bool>, s: nat, stack: seq<Frame>, chains0: Chains, stop: Chains -> bool)
    returns (chains: Chains, stopped: bool)
    requires |h.used| == |mapped| && s < |mapped| && forall i :: 0 <= i < |stack| ==> stack[i].node < |mapped|
    requires StopsExactly(stop, chains0, false)
    ensures |chains| == |chains0| + 1 && chains[..|chains0|] == chains0 && StopsExactly(stop, chains, stopped)
    ensures stopped ==> Begun(h, mapped, [s] + Nodes(stack), chains[|chains0|])
    ensures !stopped ==> Complete(h, mapped, [s] + Nodes(stack), chains[|chains0|])
  {
    ghost var c := [s] + Nodes(stack);
    chains, stopped := chains0 + [[]], false;
    OneMoreChain(stop, chains0);
    if h.used[s] && mapped[s] {
      ToldMore(stop, chains, s);
      chains := Told(chains, s);
      assert TellsTo(h, mapped, c, 1, chains[|chains0|]);
      if stop(chains) {
        return chains, true;
      }
    }
    var k: nat := |stack|;
    while k > 0
      invariant k <= |stack| && |chains| == |chains0| + 1 && chains[..|chains0|] == chains0
      invariant TellsTo(h, mapped, c, 1 + |stack| - k, chains[|chains0|]) && StopsExactly(stop, chains, false)
    {
      k := k - 1;
      var link := stack[k].node;
      assert c[|stack| - k] == link;
      if !h.used[link] || !mapped[link] {
        assert TellsTo(h, mapped, c, |stack| - k, chains[|chains0|]);
        return;
      }
      TellsOneMore(h, mapped, c, |stack| - k, chains[|chains0|]);
      ToldMore(stop, chains, link);
      chains := Told(chains, link);
      if stop(chains) {
        return chains, true;
      }
    }
    assert TellsTo(h, mapped, c, |c|, chains[|chains0|]);
  }

  // ---------------------------------------------------------------------------------------------
  // The whole report
  // ---------------------------------------------------------------------------------------------

  ghost predicate ReportOk(h: Heap, anchors: seq<nat>, d: seq<nat>, mapped: seq<bool>, index: nat, full: Chains,
                           chains: Chains, stopped: bool, k: nat)
  {
    k < |full| && k < |chains| ==>
      && IsChain(h, anchors, index, full[k]) && Approaches(d, full[k]) && AllUsed(h, mapped, full[k])
      && if stopped && k == |chains| - 1 then Begun(h, mapped, full[k], chains[k])
         else Complete(h, mapped, full[k], chains[k])
  }

  /** Each list told is a chain, given in full, except that the visitor may have stopped within the last one. */
  ghost predicate Reports(h: Heap, anchors: seq<nat>, d: seq<nat>, mapped: seq<bool>, index: nat,
                          stop: Chains -> bool, full: Chains, chains: Chains, stopped: bool)
  {
    && |full| == |chains| && StopsExactly(stop, chains, stopped)
    && forall k: nat :: ReportOk(h, anchors, d, mapped, index, full, chains, stopped, k)
  }

  /** One more chain was reported, in full or in part. */
  lemma ReportAdded(h: Heap, anchors: seq<nat>, d: seq<nat>, mapped: seq<bool>, index: nat, stop: Chains -> bool,
                    full: Chains, before: Chains, c: seq<nat>, chains: Chains, stopped: bool)
    requires Reports(h, anchors, d, mapped, index, stop, full, before, false)
    requires IsChain(h, anchors, index, c) && Approaches(d, c) && AllUsed(h, mapped, c)
    requires |chains| == |before| + 1 && chains[..|before|] == before && StopsExactly(stop, chains, stopped)
    requires stopped ==> Begun(h, mapped, c, chains[|before|])
    requires !stopped ==> Complete(h, mapped, c, chains[|before|])
    ensures Reports(h, anchors, d, mapped, index, stop, full + [c], chains, stopped)
  {
    forall k: nat ensures ReportOk(h, anchors, d, mapped, index, full + [c], chains, stopped, k) {
      assert ReportOk(h, anchors, d, mapped, index, full, before, false, k);
      if k < |before| { assert chains[..|before|][k] == chains[k]; }
    }
  }
}

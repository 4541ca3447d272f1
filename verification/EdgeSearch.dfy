/**
 Queries on the reference graph: the place of an edge in either table, and the edge whose other end
 contains a given address.
 */
module EdgeSearch {
  import opened AllocationDirectory
  import opened DirectorySteps
  import opened DirectoryLookup
  import opened GraphEdges

  /** Entry e of the incoming table is the edge from s to t. */
  predicate IsIncoming(g: Edges, e: int, s: int, t: int) {
    && g.HasSlice(g.firstIncoming, |g.incoming|, t)
    && g.firstIncoming[t] <= e < g.firstIncoming[t + 1] && g.incoming[e] == s
  }

  /** Entry e of the outgoing table is the edge from s to t. */
  predicate IsOutgoing(g: Edges, e: int, s: int, t: int) {
    && g.HasSlice(g.firstOutgoing, |g.outgoing|, s)
    && g.firstOutgoing[s] <= e < g.firstOutgoing[s + 1] && g.outgoing[e] == t
  }

  /** Binary search of an increasing slice for x; the length of the table if it is not there. */
  method SearchSlice(table: seq<nat>, first: nat, past: nat, x: nat) returns (e: nat)
    requires first <= past <= |table| && Increasing(table[first..past])
    ensures e < |table| ==> first <= e < past && table[e] == x
    ensures e >= |table| ==> e == |table| && forall i :: first <= i < past ==> table[i] != x
  {
    var base, limit := first, past;
    while base < limit
      invariant first <= base <= limit <= past
      invariant forall i :: first <= i < base || limit <= i < past ==> table[i] != x
    {
      var mid := (base + limit) / 2;
      forall i | first <= i < past && i != mid
        ensures i < mid ==> table[i] < table[mid]
        ensures mid < i ==> table[mid] < table[i]
      {
        var slice := table[first..past];
        assert slice[i - first] == table[i] && slice[mid - first] == table[mid];
      }
      if table[mid] <= x {
        if table[mid] == x {
          return mid;
        }
        base := mid + 1;
      } else {
        limit := mid;
      }
    }
    e := |table|;
  }

  lemma {:induction false} FirstsOrdered(g: Edges, first: seq<nat>, total: nat, n: nat, i: nat, j: nat)
    requires Sliced(g, first, total, n) && i <= j <= n && n > 0
    ensures first[i] <= first[j]
    decreases j
  {
    if i < j {
      FirstsOrdered(g, first, total, n, i, j - 1);
      assert g.HasSlice(first, total, j - 1);
    }
  }

  lemma RowsAreSlices(refs: References, g: Edges, i: nat)
    requires Represents(refs, g) && i < |refs|
    ensures g.HasSlice(g.firstOutgoing, |g.outgoing|, i) && g.HasSlice(g.firstIncoming, |g.incoming|, i)
    ensures Increasing(g.outgoing[g.firstOutgoing[i]..g.firstOutgoing[i + 1]])
    ensures Increasing(g.incoming[g.firstIncoming[i]..g.firstIncoming[i + 1]])
  {
    TablesAreTransposed(refs, g, i, i);
  }

  /** The rows are whole slices, and hold all edges. */
  lemma RowsAreWhole(refs: References, g: Edges, i: nat)
    requires Represents(refs, g) && i < |refs|
    ensures g.HasSlice(g.firstOutgoing, |g.outgoing|, i) && g.HasSlice(g.firstIncoming, |g.incoming|, i)
    ensures |g.OutgoingOf(i)| == g.firstOutgoing[i + 1] - g.firstOutgoing[i]
    ensures |g.IncomingOf(i)| == g.firstIncoming[i + 1] - g.firstIncoming[i]
    ensures g.OutgoingOf(i)[..|g.OutgoingOf(i)|] == g.OutgoingOf(i)
    ensures g.IncomingOf(i)[..|g.IncomingOf(i)|] == g.IncomingOf(i)
    ensures forall t :: t in g.OutgoingOf(i) <==> Edge(refs, i, t)
    ensures forall s :: s in g.IncomingOf(i) <==> Edge(refs, s, i)
  {
    assert RowsMatch(refs, g, i);
    TargetsAreEdges(refs, i, 0);
    SourcesAreEdges(refs, i, 0);
  }

  /** An entry of a slice of one table names an edge, and every edge has an entry. */
  lemma EntriesAreEdges(refs: References, g: Edges, s: nat, t: nat)
    requires Represents(refs, g) && s < |refs| && t < |refs|
    ensures Edge(refs, s, t) <==> exists e :: IsIncoming(g, e, s, t)
    ensures Edge(refs, s, t) <==> exists e :: IsOutgoing(g, e, s, t)
  {
    TablesAreTransposed(refs, g, s, t);
    RowsAreSlices(refs, g, s);
    RowsAreSlices(refs, g, t);
    if Edge(refs, s, t) {
      var i :| 0 <= i < |g.IncomingOf(t)| && g.IncomingOf(t)[i] == s;
      assert IsIncoming(g, g.firstIncoming[t] + i, s, t);
      var o :| 0 <= o < |g.OutgoingOf(s)| && g.OutgoingOf(s)[o] == t;
      assert IsOutgoing(g, g.firstOutgoing[s] + o, s, t);
    }
    if e :| IsIncoming(g, e, s, t) {
      assert g.IncomingOf(t)[e - g.firstIncoming[t]] == s;
    }
    if e :| IsOutgoing(g, e, s, t) {
      assert g.OutgoingOf(s)[e - g.firstOutgoing[s]] == t;
    }
  }

  /** One entry of the outgoing table, as the next element of its row. */
  lemma OutgoingEntry(refs: References, g: Edges, u: nat, e: nat)
    requires Represents(refs, g) && u < |refs| && g.HasSlice(g.firstOutgoing, |g.outgoing|, u)
    requires g.firstOutgoing[u] <= e < g.firstOutgoing[u + 1]
    ensures var row, k := g.OutgoingOf(u), e - g.firstOutgoing[u];
            k < |row| && row[k] == g.outgoing[e] && row[..k + 1] == row[..k] + [row[k]] && Edge(refs, u, row[k])
  {
    assert RowsMatch(refs, g, u);
    TargetsAreEdges(refs, u, 0);
    assert g.OutgoingOf(u)[e - g.firstOutgoing[u]] in g.OutgoingOf(u);
  }

  lemma IncomingEntry(refs: References, g: Edges, t: nat, e: nat)
    requires Represents(refs, g) && t < |refs| && g.HasSlice(g.firstIncoming, |g.incoming|, t)
    requires g.firstIncoming[t] <= e < g.firstIncoming[t + 1]
    ensures var row, k := g.IncomingOf(t), e - g.firstIncoming[t];
            k < |row| && row[k] == g.incoming[e] && row[..k + 1] == row[..k] + [row[k]] && Edge(refs, row[k], t)
  {
    assert RowsMatch(refs, g, t);
    SourcesAreEdges(refs, t, 0);
    assert g.IncomingOf(t)[e - g.firstIncoming[t]] in g.IncomingOf(t);
  }

  method GetIncomingEdgeIndex(refs: References, g: Edges, s: nat, t: nat) returns (e: nat)
    requires Represents(refs, g)
    ensures if Edge(refs, s, t) then e < |g.incoming| && IsIncoming(g, e, s, t) else e == |g.incoming|
  {
    if s >= |refs| || t >= |refs| {
      return |g.incoming|;
    }
    RowsAreSlices(refs, g, t);
    EntriesAreEdges(refs, g, s, t);
    e := SearchSlice(g.incoming, g.firstIncoming[t], g.firstIncoming[t + 1], s);
    assert e < |g.incoming| ==> IsIncoming(g, e, s, t);
  }

  method GetOutgoingEdgeIndex(refs: References, g: Edges, s: nat, t: nat) returns (e: nat)
    requires Represents(refs, g)
    ensures if Edge(refs, s, t) then e < |g.outgoing| && IsOutgoing(g, e, s, t) else e == |g.outgoing|
  {
    if s >= |refs| || t >= |refs| {
      return |g.outgoing|;
    }
    RowsAreSlices(refs, g, s);
    EntriesAreEdges(refs, g, s, t);
    e := SearchSlice(g.outgoing, g.firstOutgoing[s], g.firstOutgoing[s + 1], t);
    assert e < |g.outgoing| ==> IsOutgoing(g, e, s, t);
  }

  // ---------------------------------------------------------------------------------------------
  // Searching a row by address
  // ---------------------------------------------------------------------------------------------

  /** No accepted allocation lies in another. */
  ghost predicate Flat(al: seq<Allocation>) {
    forall i, j :: 0 <= i < j < |al| ==> al[i].Limit() <= al[j].address
  }

  /** Directories without wrappers are flat, provided that allocations are not empty. */
  lemma WithoutWrappersIsFlat(offers: seq<Offer>)
    requires InAddressOrder(offers) && AllPositive(Built(offers).allocations)
    requires forall i :: 0 <= i < |Built(offers).allocations| ==> !Built(offers).allocations[i].wrapper
    ensures Flat(Built(offers).allocations)
  {
    var al := Built(offers).allocations;
    BuiltKeeps(offers);
    forall i, j | 0 <= i < j < |al| ensures al[i].Limit() <= al[j].address {
      assert MarkedIfInside(al, i, j);
    }
  }

  /** Binary search of a row of allocations for the one that contains a; the end of the table if there is none. */
  method SearchByAddress(al: seq<Allocation>, table: seq<nat>, first: nat, past: nat, a: nat) returns (e: nat)
    requires Flat(al) && first <= past <= |table| && Within(table[first..past], 0, |al|)
    ensures e < |table| ==> first <= e < past && table[e] < |al| && al[table[e]].Contains(a)
    ensures e >= |table| ==>
              e == |table| && forall i :: first <= i < past ==> table[i] < |al| && !al[table[i]].Contains(a)
  {
    var base, limit := first, past;
    ghost var slice := table[first..past];
    forall i | first <= i < past ensures table[i] < |al| {
      assert slice[i - first] == table[i];
    }
    while base < limit
      invariant first <= base <= limit <= past
      invariant forall i :: first <= i < base || limit <= i < past ==> !al[table[i]].Contains(a)
    {
      var mid := (base + limit) / 2;
      forall i | first <= i < past && i != mid
        ensures i < mid ==> al[table[i]].Limit() <= al[table[mid]].address
        ensures mid < i ==> al[table[mid]].Limit() <= al[table[i]].address
      {
        assert slice[i - first] == table[i] && slice[mid - first] == table[mid];
      }
      if al[table[mid]].address <= a {
        if a < al[table[mid]].Limit() {
          return mid;
        }
        base := mid + 1;
      } else {
        limit := mid;
      }
    }
    e := |table|;
  }

  /** The target of s that contains a is found exactly if s has an edge to the allocation that contains a. */
  method TargetAllocationIndex(al: seq<Allocation>, refs: References, g: Edges, s: nat, a: nat) returns (r: nat)
    requires Flat(al) && Represents(refs, g) && |refs| == |al|
    ensures r < |al| ==> al[r].Contains(a) && Edge(refs, s, r)
    ensures r >= |al| ==> r == |al| && forall t :: Edge(refs, s, t) ==> !al[t].Contains(a)
  {
    r := |al|;
    if s < |al| {
      RowsAreSlices(refs, g, s);
      TablesAreTransposed(refs, g, s, s);
      var e := SearchByAddress(al, g.outgoing, g.firstOutgoing[s], g.firstOutgoing[s + 1], a);
      forall t | Edge(refs, s, t)
        ensures e >= |g.outgoing| ==> !al[t].Contains(a)
      {
        EntriesAreEdges(refs, g, s, t);
        var o :| IsOutgoing(g, o, s, t);
      }
      if e < |g.outgoing| {
        r := g.outgoing[e];
        EntriesAreEdges(refs, g, s, r);
        assert IsOutgoing(g, e, s, r);
      }
    }
  }

  /** The same search, giving the place of the edge. */
  method TargetEdgeIndex(al: seq<Allocation>, refs: References, g: Edges, s: nat, a: nat) returns (e: nat)
    requires Flat(al) && Represents(refs, g) && |refs| == |al|
    ensures e < |g.outgoing| ==>
              IsOutgoing(g, e, s, g.outgoing[e]) && g.outgoing[e] < |al| && al[g.outgoing[e]].Contains(a)
    ensures e >= |g.outgoing| ==> e == |g.outgoing| && forall t :: Edge(refs, s, t) ==> !al[t].Contains(a)
  {
    e := |g.outgoing|;
    if s < |al| {
      RowsAreSlices(refs, g, s);
      TablesAreTransposed(refs, g, s, s);
      e := SearchByAddress(al, g.outgoing, g.firstOutgoing[s], g.firstOutgoing[s + 1], a);
      forall t | Edge(refs, s, t)
        ensures e >= |g.outgoing| ==> !al[t].Contains(a)
      {
        EntriesAreEdges(refs, g, s, t);
        var o :| IsOutgoing(g, o, s, t);
      }
    }
  }

  /** The source of t that contains a is found exactly if the allocation that contains a has an edge to t. */
  method SourceAllocationIndex(al: seq<Allocation>, refs: References, g: Edges, t: nat, a: nat) returns (r: nat)
    requires Flat(al) && Represents(refs, g) && |refs| == |al|
    ensures r < |al| ==> al[r].Contains(a) && Edge(refs, r, t)
    ensures r >= |al| ==> r == |al| && forall s :: Edge(refs, s, t) ==> !al[s].Contains(a)
  {
    r := |al|;
    if t < |al| {
      RowsAreSlices(refs, g, t);
      TablesAreTransposed(refs, g, t, t);
      var e := SearchByAddress(al, g.incoming, g.firstIncoming[t], g.firstIncoming[t + 1], a);
      forall s | Edge(refs, s, t)
        ensures e >= |g.incoming| ==> !al[s].Contains(a)
      {
        EntriesAreEdges(refs, g, s, t);
        var i :| IsIncoming(g, i, s, t);
      }
      if e < |g.incoming| {
        r := g.incoming[e];
        EntriesAreEdges(refs, g, r, t);
        assert IsIncoming(g, e, r, t);
      }
    }
  }

  /** A word of s that the directory resolves to another allocation is found again through the edges of s. */
  lemma ResolvedWordsAreFound(al: seq<Allocation>, refs: References, s: nat, w: nat, a: int, r: nat)
    requires Flat(al) && |refs| == |al| && s < |refs| && w < |refs[s]|
    requires IsInnermost(al, a, refs[s][w]) && refs[s][w] < |al| && refs[s][w] != s
    requires r < |al| ==> al[r].Contains(a) && Edge(refs, s, r)
    requires r >= |al| ==> r == |al| && forall t :: Edge(refs, s, t) ==> !al[t].Contains(a)
    ensures r == refs[s][w]
  {
    var t := refs[s][w];
    assert Edge(refs, s, t);
    assert r < |al|;
  }
}

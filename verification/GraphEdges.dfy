/**
 Building the reference graph: the outgoing and the incoming edges of all allocations, each kept in one
 flat table with the places where the edges of an allocation start.
 */
module GraphEdges {

  /** For each allocation, what each word of its image resolves to: an allocation, or their number. */
  type References = seq<seq<nat>>

  predicate WellResolved(refs: References) {
    forall s, w :: 0 <= s < |refs| && 0 <= w < |refs[s]| ==> refs[s][w] <= |refs|
  }

  /** Some word of s refers to the other allocation t. */
  predicate Edge(refs: References, s: int, t: int) {
    0 <= s < |refs| && 0 <= t < |refs| && s != t && t in refs[s]
  }

  function Prepend(wanted: bool, x: nat, rest: seq<nat>): seq<nat> {
    if wanted then [x] + rest else rest
  }

  /** The targets of s from t on, in increasing order. */
  function TargetsFrom(refs: References, s: nat, t: nat): seq<nat>
    decreases |refs| - t
  {
    if t >= |refs| then []
    else Prepend(Edge(refs, s, t), t, TargetsFrom(refs, s, t + 1))
  }

  /** The sources of t from s on, in increasing order. */
  function SourcesFrom(refs: References, t: nat, s: nat): seq<nat>
    decreases |refs| - s
  {
    if s >= |refs| then []
    else Prepend(Edge(refs, s, t), s, SourcesFrom(refs, t, s + 1))
  }

  /** How many allocations before s refer to t. */
  function SourceCount(refs: References, t: nat, s: nat): nat {
    if s == 0 then 0
    else SourceCount(refs, t, s - 1) + (if Edge(refs, s - 1, t) then 1 else 0)
  }

  ghost predicate Increasing(s: seq<nat>) {
    forall i, j :: 0 <= i < j < |s| ==> s[i] < s[j]
  }

  ghost predicate Sorted(s: seq<nat>) {
    forall i, j :: 0 <= i < j < |s| ==> s[i] <= s[j]
  }

  ghost predicate Within(s: seq<nat>, low: nat, high: nat) {
    Increasing(s) && forall i :: 0 <= i < |s| ==> low <= s[i] < high
  }

  lemma PrependWithin(wanted: bool, x: nat, rest: seq<nat>, high: nat)
    requires x < high && Within(rest, x + 1, high)
    ensures Within(Prepend(wanted, x, rest), x, high)
  {
  }

  lemma {:induction false} TargetsIncrease(refs: References, s: nat, t: nat)
    ensures Within(TargetsFrom(refs, s, t), t, |refs|)
    decreases |refs| - t
  {
    if t < |refs| {
      TargetsIncrease(refs, s, t + 1);
      PrependWithin(Edge(refs, s, t), t, TargetsFrom(refs, s, t + 1), |refs|);
    }
  }

  lemma {:induction false} TargetsAreEdges(refs: References, s: nat, t: nat)
    ensures forall x :: x in TargetsFrom(refs, s, t) <==> t <= x && Edge(refs, s, x)
    decreases |refs| - t
  {
    if t < |refs| {
      TargetsAreEdges(refs, s, t + 1);
    }
  }

  lemma {:induction false} SourcesIncrease(refs: References, t: nat, s: nat)
    ensures Within(SourcesFrom(refs, t, s), s, |refs|)
    decreases |refs| - s
  {
    if s < |refs| {
      SourcesIncrease(refs, t, s + 1);
      PrependWithin(Edge(refs, s, t), s, SourcesFrom(refs, t, s + 1), |refs|);
    }
  }

  lemma {:induction false} SourcesAreEdges(refs: References, t: nat, s: nat)
    ensures forall x :: x in SourcesFrom(refs, t, s) <==> s <= x && Edge(refs, x, t)
    decreases |refs| - s
  {
    if s < |refs| {
      SourcesAreEdges(refs, t, s + 1);
    }
  }

  lemma {:induction false} SourcesCounted(refs: References, t: nat, s: nat)
    requires s <= |refs|
    ensures |SourcesFrom(refs, t, s)| + SourceCount(refs, t, s) == SourceCount(refs, t, |refs|)
    decreases |refs| - s
  {
    if s < |refs| { SourcesCounted(refs, t, s + 1); }
  }

  /** Two increasing lists with the same elements are the same. */
  lemma {:induction false} IncreasingUnique(a: seq<nat>, b: seq<nat>)
    requires Increasing(a) && Increasing(b) && forall x :: x in a <==> x in b
    ensures a == b
    decreases |a|
  {
    if a == [] {
      assert forall i :: 0 <= i < |b| ==> b[i] in a;
    } else {
      assert a[|a| - 1] in b;
      assert b[|b| - 1] in a;
      var a', b', last := a[..|a| - 1], b[..|b| - 1], a[|a| - 1];
      assert a == a' + [last] && b == b' + [last];
      forall x ensures x in a' <==> x in a && x != last {}
      forall x ensures x in b' <==> x in b && x != last {}
      IncreasingUnique(a', b');
    }
  }

  // ---------------------------------------------------------------------------------------------
  // The targets of one allocation, as collected from its words
  // ---------------------------------------------------------------------------------------------

  function Insert(x: nat, s: seq<nat>): seq<nat> {
    if s == [] || x <= s[0] then [x] + s else [s[0]] + Insert(x, s[1..])
  }

  function Sort(s: seq<nat>): seq<nat> {
    if s == [] then [] else Insert(s[0], Sort(s[1..]))
  }

  lemma {:induction false} InsertPermutes(x: nat, s: seq<nat>)
    ensures multiset(Insert(x, s)) == multiset(s) + multiset{x}
    decreases |s|
  {
    if s != [] && s[0] < x {
      InsertPermutes(x, s[1..]);
      assert s == [s[0]] + s[1..];
    }
  }

  lemma SortedCons(x: nat, s: seq<nat>)
    requires Sorted(s) && (s != [] ==> x <= s[0])
    ensures Sorted([x] + s)
  {
    forall i | 0 <= i < |s| ensures x <= s[i] {
      assert s[0] <= s[i];
    }
  }

  lemma {:induction false} InsertSorts(x: nat, s: seq<nat>)
    requires Sorted(s)
    ensures Insert(x, s) != [] && Sorted(Insert(x, s))
    ensures Insert(x, s)[0] == x || (s != [] && Insert(x, s)[0] == s[0])
    decreases |s|
  {
    if s == [] || x <= s[0] {
      SortedCons(x, s);
    } else {
      InsertSorts(x, s[1..]);
      SortedCons(s[0], Insert(x, s[1..]));
    }
  }

  /** What std::sort promises. */
  lemma {:induction false} SortSorts(s: seq<nat>)
    ensures Sorted(Sort(s)) && multiset(Sort(s)) == multiset(s)
    decreases |s|
  {
    if s != [] {
      SortSorts(s[1..]);
      InsertSorts(s[0], Sort(s[1..]));
      InsertPermutes(s[0], Sort(s[1..]));
      assert s == [s[0]] + s[1..];
    }
  }

  /** The elements of a sorted list without repetitions. */
  function Distinct(s: seq<nat>): seq<nat>
    decreases |s|
  {
    if s == [] then []
    else if |s| > 1 && s[|s| - 1] == s[|s| - 2] then Distinct(s[..|s| - 1])
    else Distinct(s[..|s| - 1]) + [s[|s| - 1]]
  }

  lemma {:induction false} DistinctIncreases(s: seq<nat>)
    requires Sorted(s)
    ensures Increasing(Distinct(s)) && forall x :: x in Distinct(s) <==> x in s
    decreases |s|
  {
    if s != [] {
      var init, last := s[..|s| - 1], s[|s| - 1];
      var d := Distinct(init);
      DistinctIncreases(init);
      assert s == init + [last];
      forall i | 0 <= i < |d| ensures d[i] <= last && (|s| > 1 && last != s[|s| - 2] ==> d[i] < last) {
        assert d[i] in init;
      }
      if |s| > 1 && last == s[|s| - 2] {
        assert last == init[|s| - 2];
      }
    }
  }

  /** The targets of the words of s in sorted order, skipping a target that equals the one before. */
  method CollectTargets(refs: References, s: nat) returns (targets: seq<nat>)
    requires WellResolved(refs) && s < |refs|
    ensures Sorted(targets) && Distinct(targets) == TargetsFrom(refs, s, 0)
    ensures forall t :: t in targets <==> Edge(refs, s, t)
  {
    targets := [];
    var prevTarget := |refs|;
    for w := 0 to |refs[s]|
      invariant forall t :: t in targets <==> t != s && t < |refs| && t in refs[s][..w]
      invariant prevTarget == |refs| || prevTarget in targets
    {
      var target := refs[s][w];
      assert refs[s][..w + 1] == refs[s][..w] + [target];
      if target != |refs| && target != s && target != prevTarget {
        targets := targets + [target];
        prevTarget := target;
      }
    }
    assert refs[s][..|refs[s]|] == refs[s];
    var unsorted := targets;
    targets := Sort(unsorted);
    SortSorts(unsorted);
    forall t ensures t in targets <==> Edge(refs, s, t) {
      assert t in targets <==> t in multiset(targets);
      assert t in unsorted <==> t in multiset(unsorted);
    }
    DistinctIncreases(targets);
    TargetsAreEdges(refs, s, 0);
    TargetsIncrease(refs, s, 0);
    IncreasingUnique(Distinct(targets), TargetsFrom(refs, s, 0));
  }

  // ---------------------------------------------------------------------------------------------
  // First pass: counting
  // ---------------------------------------------------------------------------------------------

  /** The sum of the first k counts. */
  function SumTo(counts: seq<nat>, k: nat): nat
    requires k <= |counts|
  {
    if k == 0 then 0 else SumTo(counts, k - 1) + counts[k - 1]
  }

  lemma {:induction false} SumBump(counts: seq<nat>, t: nat, k: nat)
    requires t < |counts| && k <= |counts|
    ensures SumTo(counts[t := counts[t] + 1], k) == SumTo(counts, k) + if t < k then 1 else 0
    decreases k
  {
    if k > 0 { SumBump(counts, t, k - 1); }
  }

  lemma {:induction false} SumZero(counts: seq<nat>, k: nat)
    requires k <= |counts| && forall i :: 0 <= i < |counts| ==> counts[i] == 0
    ensures SumTo(counts, k) == 0
    decreases k
  {
    if k > 0 { SumZero(counts, k - 1); }
  }

  lemma SortedSplit(targets: seq<nat>, k: nat)
    requires Sorted(targets) && k < |targets|
    ensures targets[..k + 1] == targets[..k] + [targets[k]]
    ensures targets[k] in targets[..k] <==> k > 0 && targets[k - 1] == targets[k]
    ensures Distinct(targets[..k + 1]) ==
            if targets[k] in targets[..k] then Distinct(targets[..k]) else Distinct(targets[..k]) + [targets[k]]
  {
    var upTo := targets[..k + 1];
    assert upTo[..|upTo| - 1] == targets[..k];
    if k > 0 {
      assert targets[..k][k - 1] == targets[k - 1];
      forall x | x in targets[..k] ensures x <= targets[k - 1] {
        var i :| 0 <= i < k && targets[i] == x;
      }
    }
  }

  /** Counts each different target once. */
  method CountTargets(targets: seq<nat>, counts0: seq<nat>) returns (counts: seq<nat>, added: nat)
    requires Sorted(targets) && forall t :: t in targets ==> t < |counts0|
    ensures |counts| == |counts0| && added == |Distinct(targets)|
    ensures forall t :: 0 <= t < |counts| ==> counts[t] == counts0[t] + if t in targets then 1 else 0
    ensures SumTo(counts, |counts|) == SumTo(counts0, |counts0|) + added
  {
    counts, added := counts0, 0;
    var k := 0;
    while k < |targets|
      invariant k <= |targets| && |counts| == |counts0| && added == |Distinct(targets[..k])|
      invariant forall t :: 0 <= t < |counts| ==> counts[t] == counts0[t] + if t in targets[..k] then 1 else 0
      invariant SumTo(counts, |counts|) == SumTo(counts0, |counts0|) + added
    {
      SortedSplit(targets, k);
      var target := targets[k];
      assert target in targets && target < |counts|;
      if k == 0 || target != targets[k - 1] {
        SumBump(counts, target, |counts|);
        counts := counts[target := counts[target] + 1];
        added := added + 1;
      }
      k := k + 1;
    }
    assert targets[..k] == targets;
  }

  /** Where the outgoing edges of each allocation start, and how many incoming edges each one has. */
  method CountEdges(refs: References) returns (counts: seq<nat>, firstOutgoing: seq<nat>, total: nat)
    requires WellResolved(refs)
    ensures |counts| == |refs| + 1 && counts[|refs|] == 0
    ensures forall t :: 0 <= t < |refs| ==> counts[t] == SourceCount(refs, t, |refs|)
    ensures SumTo(counts, |counts|) == total
    ensures |firstOutgoing| == |refs| + 1 && StartsAdd(refs, firstOutgoing) && firstOutgoing[|refs|] == total
  {
    counts := seq(|refs| + 1, _ => 0);
    SumZero(counts, |counts|);
    firstOutgoing, total := [], 0;
    for i := 0 to |refs|
      invariant |counts| == |refs| + 1 && counts[|refs|] == 0 && |firstOutgoing| == i
      invariant forall t :: 0 <= t < |refs| ==> counts[t] == SourceCount(refs, t, i)
      invariant SumTo(counts, |counts|) == total
      invariant StartsAdd(refs, firstOutgoing + [total])
    {
      ghost var starts := firstOutgoing + [total];
      firstOutgoing := firstOutgoing + [total];
      var targets := CollectTargets(refs, i);
      var added;
      counts, added := CountTargets(targets, counts);
      total := total + added;
      assert StartsAdd(refs, firstOutgoing + [total]);
    }
    firstOutgoing := firstOutgoing + [total];
  }

  /** Each start follows the previous one by the number of targets between them. */
  ghost predicate StartsAdd(refs: References, starts: seq<nat>) {
    && 0 < |starts| <= |refs| + 1 && starts[0] == 0
    && forall s :: 0 <= s < |starts| - 1 ==> starts[s + 1] == starts[s] + |TargetsFrom(refs, s, 0)|
  }

  /** Turns the counts into the places just after the incoming edges. */
  method Accumulate(counts: seq<nat>) returns (ends: seq<nat>)
    ensures |ends| == |counts| && forall t :: 0 <= t < |counts| ==> ends[t] == SumTo(counts, t + 1)
  {
    ends := counts;
    var i := 0;
    while i + 1 < |counts|
      invariant |ends| == |counts| && (counts != [] ==> i < |counts|)
      invariant forall t :: 0 <= t <= i && t < |counts| ==> ends[t] == SumTo(counts, t + 1)
      invariant forall t :: i < t < |counts| ==> ends[t] == counts[t]
    {
      ends := ends[i + 1 := ends[i] + ends[i + 1]];
      i := i + 1;
    }
  }

  // ---------------------------------------------------------------------------------------------
  // Second pass: filling in, from the last allocation to the first
  // ---------------------------------------------------------------------------------------------

  /** Where the incoming edges of t start, given where those of each allocation end. */
  function StartOf(ends: seq<nat>, t: nat): nat
    requires t <= |ends|
  {
    if t == 0 then 0 else ends[t - 1]
  }

  ghost predicate EndAdds(refs: References, ends: seq<nat>, t: int) {
    0 <= t < |refs| && t < |ends| ==> ends[t] == StartOf(ends, t) + SourceCount(refs, t, |refs|)
  }

  ghost predicate EndsAdd(refs: References, ends: seq<nat>) {
    |ends| == |refs| + 1 && forall t :: EndAdds(refs, ends, t)
  }

  /** The sources of t from s on are in place, just before the end of the incoming edges of t. */
  ghost predicate InTable(refs: References, ends: seq<nat>, first: seq<nat>, incoming: seq<nat>, t: int, s: nat) {
    0 <= t < |refs| && t < |first| && t < |ends| && s <= |refs| ==>
      && ends[t] <= |incoming|
      && first[t] + |SourcesFrom(refs, t, s)| == ends[t]
      && incoming[first[t]..ends[t]] == SourcesFrom(refs, t, s)
  }

  ghost predicate OutTable(refs: References, first: seq<nat>, outgoing: seq<nat>, s: int) {
    0 <= s < |refs| && s + 1 < |first| ==>
      first[s] <= first[s + 1] <= |outgoing| && outgoing[first[s]..first[s + 1]] == TargetsFrom(refs, s, 0)
  }

  lemma {:induction false} EndsOrdered(refs: References, ends: seq<nat>, t: nat, u: nat)
    requires EndsAdd(refs, ends) && t < u <= |refs|
    ensures ends[t] <= StartOf(ends, u)
    decreases u
  {
    if t + 1 < u {
      EndsOrdered(refs, ends, t, u - 1);
      assert EndAdds(refs, ends, u - 1);
    }
  }

  /** There is room for one more source of t before those already in place. */
  lemma RoomForSource(refs: References, ends: seq<nat>, first: seq<nat>, incoming: seq<nat>, t: nat, s: nat)
    requires EndsAdd(refs, ends) && |first| == |ends| && t < |refs| && s < |refs| && Edge(refs, s, t)
    requires InTable(refs, ends, first, incoming, t, s + 1)
    ensures StartOf(ends, t) < first[t] <= ends[t] <= |incoming|
  {
    SourcesCounted(refs, t, s + 1);
    assert EndAdds(refs, ends, t);
  }

  lemma SourceEntered(refs: References, ends: seq<nat>, first: seq<nat>, incoming: seq<nat>, t: nat, s: nat)
    requires EndsAdd(refs, ends) && |first| == |ends| && t < |refs| && s < |refs| && Edge(refs, s, t)
    requires InTable(refs, ends, first, incoming, t, s + 1)
    requires 0 < first[t] <= ends[t] <= |incoming|
    ensures InTable(refs, ends, first[t := first[t] - 1], incoming[first[t] - 1 := s], t, s)
  {
    var p := first[t] - 1;
    var incoming' := incoming[p := s];
    assert incoming'[p..ends[t]] == [s] + incoming[first[t]..ends[t]];
    assert SourcesFrom(refs, t, s) == [s] + SourcesFrom(refs, t, s + 1);
  }

  /** Entering a source of t does not disturb the incoming edges of u. */
  lemma OthersUndisturbed(refs: References, ends: seq<nat>, first: seq<nat>, incoming: seq<nat>, t: nat, s: nat,
                          u: nat, r: nat)
    requires EndsAdd(refs, ends) && |first| == |ends| && t < |refs| && u < |refs| && t != u && r <= |refs|
    requires StartOf(ends, t) < first[t] <= ends[t] <= |incoming|
    requires InTable(refs, ends, first, incoming, u, r)
    ensures InTable(refs, ends, first[t := first[t] - 1], incoming[first[t] - 1 := s], u, r)
  {
    SourcesCounted(refs, u, r);
    assert EndAdds(refs, ends, u);
    if t < u { EndsOrdered(refs, ends, t, u); } else { EndsOrdered(refs, ends, u, t); }
    var incoming' := incoming[first[t] - 1 := s];
    assert incoming'[first[u]..ends[u]] == incoming[first[u]..ends[u]];
  }

  /** The incoming edges of t while source s is being entered: done lists the targets already dealt with. */
  ghost predicate Entered(refs: References, ends: seq<nat>, first: seq<nat>, incoming: seq<nat>, t: int, s: nat,
                          done: seq<nat>)
  {
    InTable(refs, ends, first, incoming, t, if t in done then s else s + 1)
  }

  ghost predicate AllEntered(refs: References, ends: seq<nat>, first: seq<nat>, incoming: seq<nat>, s: nat,
                             done: seq<nat>)
  {
    forall t :: Entered(refs, ends, first, incoming, t, s, done)
  }

  lemma EnteredOneMore(refs: References, ends: seq<nat>, first: seq<nat>, incoming: seq<nat>, t: nat, s: nat,
                       done: seq<nat>, done': seq<nat>)
    requires EndsAdd(refs, ends) && |first| == |ends| && t < |refs| && s < |refs| && Edge(refs, s, t)
    requires t !in done && done' == done + [t]
    requires AllEntered(refs, ends, first, incoming, s, done)
    ensures StartOf(ends, t) < first[t] <= |incoming|
    ensures AllEntered(refs, ends, first[t := first[t] - 1], incoming[first[t] - 1 := s], s, done')
  {
    assert Entered(refs, ends, first, incoming, t, s, done);
    RoomForSource(refs, ends, first, incoming, t, s);
    SourceEntered(refs, ends, first, incoming, t, s);
    var first', incoming' := first[t := first[t] - 1], incoming[first[t] - 1 := s];
    forall u ensures Entered(refs, ends, first', incoming', u, s, done') {
      if u != t && 0 <= u < |refs| {
        assert Entered(refs, ends, first, incoming, u, s, done);
        assert u in done' <==> u in done;
        OthersUndisturbed(refs, ends, first, incoming, t, s, u, if u in done then s else s + 1);
      }
    }
  }

  ghost predicate AllInTable(refs: References, ends: seq<nat>, first: seq<nat>, incoming: seq<nat>, s: nat) {
    forall t :: InTable(refs, ends, first, incoming, t, s)
  }

  /** The table as it was, except for what was written from start on. */
  ghost predicate Written(table0: seq<nat>, start: nat, written: seq<nat>, table: seq<nat>) {
    start + |written| <= |table0| && table == table0[..start] + written + table0[start + |written|..]
  }

  lemma WritesOneMore(table0: seq<nat>, start: nat, written: seq<nat>, table: seq<nat>, t: nat)
    requires Written(table0, start, written, table) && start + |written| < |table0|
    ensures Written(table0, start, written + [t], table[start + |written| := t])
  {
    var at := start + |written|;
    assert table[at := t] == table0[..start] + (written + [t]) + table0[at + 1..];
  }

  /** Enters one edge of source s into both tables. */
  method EnterEdge(refs: References, ghost ends: seq<nat>, s: nat, t: nat, ghost done: seq<nat>, first0: seq<nat>,
                   incoming0: seq<nat>, outgoing0: seq<nat>, next: nat, ghost table0: seq<nat>, ghost start: nat,
                   ghost written: seq<nat>)
    returns (first: seq<nat>, incoming: seq<nat>, outgoing: seq<nat>)
    requires EndsAdd(refs, ends) && |first0| == |ends| && s < |refs| && t < |refs| && Edge(refs, s, t)
    requires t !in done && AllEntered(refs, ends, first0, incoming0, s, done)
    requires Written(table0, start, written, outgoing0) && next == start + |written| < |table0|
    ensures |first| == |first0| && |incoming| == |incoming0| && first[|refs|] == first0[|refs|]
    ensures AllEntered(refs, ends, first, incoming, s, done + [t])
    ensures Written(table0, start, written + [t], outgoing)
  {
    EnteredOneMore(refs, ends, first0, incoming0, t, s, done, done + [t]);
    WritesOneMore(table0, start, written, outgoing0, t);
    incoming := incoming0[first0[t] - 1 := s];
    first := first0[t := first0[t] - 1];
    outgoing := outgoing0[next := t];
  }

  /** Enters the edges of source s into both tables. */
  method FillSource(refs: References, ghost ends: seq<nat>, s: nat, targets: seq<nat>, first0: seq<nat>,
                    incoming0: seq<nat>, outgoing0: seq<nat>, start: nat)
    returns (first: seq<nat>, incoming: seq<nat>, outgoing: seq<nat>)
    requires EndsAdd(refs, ends) && |first0| == |ends| && s < |refs|
    requires Sorted(targets) && forall t :: t in targets <==> Edge(refs, s, t)
    requires AllInTable(refs, ends, first0, incoming0, s + 1)
    requires start + |Distinct(targets)| <= |outgoing0|
    ensures |first| == |first0| && first[|refs|] == first0[|refs|] && |incoming| == |incoming0|
    ensures AllInTable(refs, ends, first, incoming, s)
    ensures Written(outgoing0, start, Distinct(targets), outgoing)
  {
    first, incoming, outgoing := first0, incoming0, outgoing0;
    var next, k := start, 0;
    ghost var done, written: seq<nat> := [], [];
    EnteredStarts(refs, ends, first, incoming, s);
    while k < |targets|
      invariant k <= |targets| && |first| == |first0| && first[|refs|] == first0[|refs|] && |incoming| == |incoming0|
      invariant done == targets[..k] && written == Distinct(done) && AllEntered(refs, ends, first, incoming, s, done)
      invariant next == start + |written| <= start + |Distinct(targets)| && Written(outgoing0, start, written, outgoing)
    {
      SortedSplit(targets, k);
      DistinctGrows(targets, k);
      var target := targets[k];
      assert target in targets && Edge(refs, s, target);
      if k == 0 || target != targets[k - 1] {
        first, incoming, outgoing :=
          EnterEdge(refs, ends, s, target, done, first, incoming, outgoing, next, outgoing0, start, written);
        next := next + 1;
        written := written + [target];
      } else {
        EnteredAgain(refs, ends, first, incoming, s, done, done + [target]);
      }
      done := done + [target];
      k := k + 1;
    }
    assert done == targets;
    EnteredAll(refs, ends, first, incoming, s, targets);
  }

  lemma EnteredStarts(refs: References, ends: seq<nat>, first: seq<nat>, incoming: seq<nat>, s: nat)
    requires AllInTable(refs, ends, first, incoming, s + 1)
    ensures AllEntered(refs, ends, first, incoming, s, [])
  {
    var next := s + 1;
    forall t ensures Entered(refs, ends, first, incoming, t, s, []) {
      assert InTable(refs, ends, first, incoming, t, next);
    }
  }

  lemma EnteredAgain(refs: References, ends: seq<nat>, first: seq<nat>, incoming: seq<nat>, s: nat,
                     done: seq<nat>, done': seq<nat>)
    requires AllEntered(refs, ends, first, incoming, s, done)
    requires forall t :: t in done <==> t in done'
    ensures AllEntered(refs, ends, first, incoming, s, done')
  {
    forall t ensures Entered(refs, ends, first, incoming, t, s, done') {
      assert Entered(refs, ends, first, incoming, t, s, done);
    }
  }

  lemma EnteredAll(refs: References, ends: seq<nat>, first: seq<nat>, incoming: seq<nat>, s: nat, targets: seq<nat>)
    requires s < |refs| && forall t :: t in targets <==> Edge(refs, s, t)
    requires AllEntered(refs, ends, first, incoming, s, targets)
    ensures AllInTable(refs, ends, first, incoming, s)
  {
    forall t ensures InTable(refs, ends, first, incoming, t, s) {
      assert Entered(refs, ends, first, incoming, t, s, targets);
    }
  }

  lemma {:induction false} DistinctGrows(targets: seq<nat>, k: nat)
    requires k < |targets|
    ensures |Distinct(targets[..k + 1])| <= |Distinct(targets)|
    decreases |targets| - k
  {
    if k + 1 < |targets| {
      DistinctGrows(targets, k + 1);
      assert targets[..k + 2][..k + 1] == targets[..k + 1];
    } else {
      assert targets[..k + 1] == targets;
    }
  }

  // ---------------------------------------------------------------------------------------------
  // The whole graph
  // ---------------------------------------------------------------------------------------------

  /** The flat tables; with no allocations all of them are empty. */
  datatype Edges = Edges(outgoing: seq<nat>, incoming: seq<nat>, firstOutgoing: seq<nat>, firstIncoming: seq<nat>) {
    /** Whether the edges of allocation i are a slice of a flat table of length total. */
    predicate HasSlice(first: seq<nat>, total: nat, i: int) {
      0 <= i && i + 1 < |first| && first[i] <= first[i + 1] <= total
    }

    /** The targets recorded for s. */
    function OutgoingOf(s: int): seq<nat> {
      if HasSlice(firstOutgoing, |outgoing|, s) then outgoing[firstOutgoing[s]..firstOutgoing[s + 1]] else []
    }

    /** The sources recorded for t. */
    function IncomingOf(t: int): seq<nat> {
      if HasSlice(firstIncoming, |incoming|, t) then incoming[firstIncoming[t]..firstIncoming[t + 1]] else []
    }
  }

  /** The slices cover a flat table of length total from its start to its end, one after the other. */
  ghost predicate Sliced(g: Edges, first: seq<nat>, total: nat, n: nat) {
    if n == 0 then first == [] && total == 0
    else
      && |first| == n + 1 && first[0] == 0 && first[n] == total
      && forall i :: 0 <= i < n ==> g.HasSlice(first, total, i)
  }

  ghost predicate RowsMatch(refs: References, g: Edges, i: int) {
    0 <= i < |refs| ==> g.OutgoingOf(i) == TargetsFrom(refs, i, 0) && g.IncomingOf(i) == SourcesFrom(refs, i, 0)
  }

  /** The tables hold exactly the edges of the references, in order, by source and by target. */
  ghost predicate Represents(refs: References, g: Edges) {
    && |g.outgoing| == |g.incoming|
    && Sliced(g, g.firstOutgoing, |g.outgoing|, |refs|)
    && Sliced(g, g.firstIncoming, |g.incoming|, |refs|)
    && forall i :: RowsMatch(refs, g, i)
  }

  lemma {:induction false} StartsOrdered(refs: References, starts: seq<nat>, s: nat, u: nat)
    requires StartsAdd(refs, starts) && s <= u < |starts|
    ensures starts[s] <= starts[u]
    decreases u
  {
    if s < u { StartsOrdered(refs, starts, s, u - 1); }
  }

  lemma {:induction false} SumOfEnds(refs: References, counts: seq<nat>, ends: seq<nat>)
    requires |counts| == |ends| == |refs| + 1 && counts[|refs|] == 0
    requires forall t :: 0 <= t < |refs| ==> counts[t] == SourceCount(refs, t, |refs|)
    requires forall t :: 0 <= t < |ends| ==> ends[t] == SumTo(counts, t + 1)
    ensures EndsAdd(refs, ends) && ends[|refs|] == StartOf(ends, |refs|) == SumTo(counts, |counts|)
  {
    forall t ensures EndAdds(refs, ends, t) {
      if 0 <= t < |refs| {
        assert SumTo(counts, t + 1) == SumTo(counts, t) + counts[t];
      }
    }
    assert SumTo(counts, |counts|) == SumTo(counts, |refs|) + counts[|refs|];
  }

  lemma NothingEntered(refs: References, ends: seq<nat>, incoming: seq<nat>)
    requires EndsAdd(refs, ends) && ends[|refs|] == StartOf(ends, |refs|) == |incoming|
    ensures AllInTable(refs, ends, ends, incoming, |refs|)
  {
    var n := |refs|;
    forall t ensures InTable(refs, ends, ends, incoming, t, n) {
      if 0 <= t < n { EndsOrdered(refs, ends, t, n); }
    }
  }

  /** After the last source was entered each start is where the incoming edges of the previous one end. */
  lemma InSlices(refs: References, ends: seq<nat>, g: Edges)
    requires EndsAdd(refs, ends) && |refs| > 0 && |g.firstIncoming| == |ends|
    requires ends[|refs|] == StartOf(ends, |refs|) == g.firstIncoming[|refs|] == |g.incoming|
    requires AllInTable(refs, ends, g.firstIncoming, g.incoming, 0)
    ensures Sliced(g, g.firstIncoming, |g.incoming|, |refs|)
    ensures forall t :: 0 <= t < |refs| ==> g.IncomingOf(t) == SourcesFrom(refs, t, 0)
  {
    forall t | 0 <= t < |refs|
      ensures g.firstIncoming[t] == StartOf(ends, t) && g.firstIncoming[t + 1] == ends[t] <= |g.incoming|
      ensures g.firstIncoming[t] <= ends[t] && g.incoming[g.firstIncoming[t]..ends[t]] == SourcesFrom(refs, t, 0)
    {
      StartReached(refs, ends, g.firstIncoming, g.incoming, t);
      if t + 1 < |refs| { StartReached(refs, ends, g.firstIncoming, g.incoming, t + 1); }
    }
  }

  lemma StartReached(refs: References, ends: seq<nat>, first: seq<nat>, incoming: seq<nat>, t: nat)
    requires EndsAdd(refs, ends) && t < |refs| && |first| == |ends| && AllInTable(refs, ends, first, incoming, 0)
    ensures first[t] == StartOf(ends, t) && first[t] <= ends[t] <= |incoming|
    ensures incoming[first[t]..ends[t]] == SourcesFrom(refs, t, 0)
  {
    assert InTable(refs, ends, first, incoming, t, 0) && EndAdds(refs, ends, t);
    SourcesCounted(refs, t, 0);
  }

  lemma OutSlices(refs: References, g: Edges)
    requires |refs| > 0 && |g.firstOutgoing| == |refs| + 1 && StartsAdd(refs, g.firstOutgoing)
    requires g.firstOutgoing[|refs|] == |g.outgoing|
    requires forall s :: OutTable(refs, g.firstOutgoing, g.outgoing, s)
    ensures Sliced(g, g.firstOutgoing, |g.outgoing|, |refs|)
    ensures forall s :: 0 <= s < |refs| ==> g.OutgoingOf(s) == TargetsFrom(refs, s, 0)
  {
    forall s | 0 <= s < |refs|
      ensures g.HasSlice(g.firstOutgoing, |g.outgoing|, s) && g.OutgoingOf(s) == TargetsFrom(refs, s, 0)
    {
      assert OutTable(refs, g.firstOutgoing, g.outgoing, s);
    }
  }

  /** The slices of the later sources are behind those of an earlier one. */
  lemma SliceEntered(refs: References, first: seq<nat>, before: seq<nat>, after: seq<nat>, s: nat, u: nat)
    requires |first| == |refs| + 1 && StartsAdd(refs, first) && first[|refs|] == |before|
    requires s <= u < |refs| && (s < u ==> OutTable(refs, first, before, u))
    requires first[s + 1] <= |before|
    requires after == before[..first[s]] + TargetsFrom(refs, s, 0) + before[first[s + 1]..]
    ensures OutTable(refs, first, after, u)
  {
    StartsOrdered(refs, first, u + 1, |refs|);
    if s < u {
      StartsOrdered(refs, first, s + 1, u);
      assert after[first[u]..first[u + 1]] == before[first[u]..first[u + 1]];
    } else {
      assert after[first[s]..first[s + 1]] == TargetsFrom(refs, s, 0);
    }
  }

  /** Counts the edges in a first pass over the allocations and enters them in a second, backward pass. */
  method FindEdges(refs: References) returns (g: Edges)
    requires WellResolved(refs)
    ensures Represents(refs, g)
  {
    if |refs| == 0 {
      return Edges([], [], [], []);
    }
    var counts, firstOutgoing, total := CountEdges(refs);
    var firstIncoming := Accumulate(counts);
    ghost var ends := firstIncoming;
    SumOfEnds(refs, counts, ends);
    var outgoing, incoming := seq(total, _ => 0), seq(total, _ => 0);
    NothingEntered(refs, ends, incoming);
    var i: nat := |refs|;
    while i > 0
      invariant i <= |refs| && |incoming| == |outgoing| == total
      invariant |firstIncoming| == |ends| && firstIncoming[|refs|] == total
      invariant AllInTable(refs, ends, firstIncoming, incoming, i)
      invariant forall s :: i <= s ==> OutTable(refs, firstOutgoing, outgoing, s)
    {
      i := i - 1;
      var targets := CollectTargets(refs, i);
      StartsOrdered(refs, firstOutgoing, i + 1, |refs|);
      ghost var before := outgoing;
      firstIncoming, incoming, outgoing :=
        FillSource(refs, ends, i, targets, firstIncoming, incoming, outgoing, firstOutgoing[i]);
      forall s | i <= s ensures OutTable(refs, firstOutgoing, outgoing, s) {
        if s < |refs| { SliceEntered(refs, firstOutgoing, before, outgoing, i, s); }
      }
    }
    g := Edges(outgoing, incoming, firstOutgoing, firstIncoming);
    forall s ensures OutTable(refs, firstOutgoing, outgoing, s) {}
    OutSlices(refs, g);
    InSlices(refs, ends, g);
  }

  /** The two tables are transposes of each other, and every row is strictly increasing. */
  lemma TablesAreTransposed(refs: References, g: Edges, s: nat, t: nat)
    requires Represents(refs, g) && s < |refs| && t < |refs|
    ensures t in g.OutgoingOf(s) <==> s in g.IncomingOf(t)
    ensures t in g.OutgoingOf(s) <==> Edge(refs, s, t)
    ensures Within(g.OutgoingOf(s), 0, |refs|) && Within(g.IncomingOf(t), 0, |refs|)
  {
    assert RowsMatch(refs, g, s) && RowsMatch(refs, g, t);
    TargetsAreEdges(refs, s, 0);
    SourcesAreEdges(refs, t, 0);
    TargetsIncrease(refs, s, 0);
    SourcesIncrease(refs, t, 0);
  }
}

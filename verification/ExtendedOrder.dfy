/** The order of visits: depth first, by rules in their order and by references in increasing order. */
module ExtendedOrder {
  import opened Basics
  import opened EdgeSearch
  import opened ExtendedVisitor
  import opened GraphEdges

  /** w is the first visit that u leads to by rule q, when what was seen so far is passed over. */
  ghost predicate First(x: Extension, seen: set<nat>, u: Visiting, w: Visiting, q: nat) {
    && LeadsBy(x, u, w, q) && w.member !in seen
    && ClosedBetween(x, seen, u.member, x.stateToBase[u.state], q)
    && forall c: nat :: c < w.member ==> Led(x, seen, u.member, q, c)
  }

  /** Unless all that u leads to was seen, the first visit that it leads to comes next. */
  ghost predicate NextIs(x: Extension, seen: set<nat>, u: Visiting, rest: seq<Visiting>) {
    Closed(x, seen, u.member, u.state) || (rest != [] && exists q: nat :: First(x, seen, u, rest[0], q))
  }

  function Members(visits: seq<Visiting>): set<nat> {
    if visits == [] then {} else {visits[0].member} + Members(visits[1..])
  }

  /** Each visit is followed by the first one that it leads to, if any was not made before. */
  ghost predicate DepthFirst(x: Extension, seen: set<nat>, visits: seq<Visiting>)
    decreases |visits|
  {
    visits == [] ||
    var now := seen + {visits[0].member};
    NextIs(x, now, visits[0], visits[1..]) && DepthFirst(x, now, visits[1..])
  }

  // ---------------------------------------------------------------------------------------------
  // What comes next
  // ---------------------------------------------------------------------------------------------

  ghost predicate Increasing(cands: seq<nat>) {
    forall i, j :: 0 <= i < j < |cands| ==> cands[i] < cands[j]
  }

  /** The remaining candidates of rule r are all that it may still lead to, and earlier rules lead to nothing more. */
  ghost predicate RemainsFor(x: Extension, m: nat, r: nat, cands: seq<nat>, visited: set<nat>) {
    && x.Valid() && r < |x.rules| && InRange(x, cands) && Increasing(cands)
    && (forall c :: c in cands ==> RefersTo(x, r, m, c))
    && (forall c: nat :: c !in cands ==> Led(x, visited, m, r, c))
    && ClosedBetween(x, visited, m, x.stateToBase[x.rules[r].baseState], r)
  }

  /** All candidates of a rule remain when it is new. */
  lemma AllRemain(x: Extension, m: nat, r: nat, visited: set<nat>)
    requires x.Valid() && r < |x.rules|
    requires ClosedBetween(x, visited, m, x.stateToBase[x.rules[r].baseState], r)
    ensures RemainsFor(x, m, r, x.Candidates(r, m), visited)
  {
    CandidatesInRange(x, r, m);
    CandidatesAreReferences(x, r, m);
  }

  lemma OneLessRemains(x: Extension, m: nat, r: nat, cands: seq<nat>, visited: set<nat>)
    requires RemainsFor(x, m, r, cands, visited) && cands != []
    requires cands[0] in visited || !x.accepts(r, m, cands[0])
    ensures RemainsFor(x, m, r, cands[1..], visited)
  {
    assert cands == [cands[0]] + cands[1..];
  }

  lemma RuleExhausted(x: Extension, m: nat, r: nat, visited: set<nat>)
    requires RemainsFor(x, m, r, [], visited)
    ensures r + 1 == x.Limit(r) ==> Closed(x, visited, m, x.rules[r].baseState)
    ensures r + 1 != x.Limit(r) ==> r + 1 < |x.rules| && x.rules[r + 1].baseState == x.rules[r].baseState
                                    && RemainsFor(x, m, r + 1, x.Candidates(r + 1, m), visited)
  {
    var base, more := x.stateToBase[x.rules[r].baseState], r + 1;
    forall q: nat, c: nat | base <= q < more ensures Led(x, visited, m, q, c) {}
    if more != x.Limit(r) {
      AllRemain(x, m, more, visited);
    }
  }

  lemma FirstRemaining(x: Extension, m: nat, r: nat, cands: seq<nat>, visited: set<nat>)
    requires RemainsFor(x, m, r, cands, visited) && cands != []
    requires cands[0] !in visited && x.accepts(r, m, cands[0])
    ensures First(x, visited, Visiting(m, x.rules[r].baseState), Visiting(cands[0], x.rules[r].newState), r)
  {
    assert RefersTo(x, r, m, cands[0]);
    forall c: nat | c < cands[0] ensures Led(x, visited, m, r, c) {
      assert c !in cands;
    }
  }

  lemma {:induction false} ExtendNext(x: Extension, m: nat, r: nat, cands: seq<nat>, visited: set<nat>)
    requires RemainsFor(x, m, r, cands, visited)
    ensures NextIs(x, visited, Visiting(m, x.rules[r].baseState), Extend(x, m, r, cands, visited).visits)
    decreases x.Limit(r) - r, |cands|
  {
    if cands == [] {
      RuleExhausted(x, m, r, visited);
      if r + 1 != x.Limit(r) { ExtendNext(x, m, r + 1, x.Candidates(r + 1, m), visited); }
    } else if cands[0] in visited || !x.accepts(r, m, cands[0]) {
      OneLessRemains(x, m, r, cands, visited);
      ExtendNext(x, m, r, cands[1..], visited);
    } else {
      FirstRemaining(x, m, r, cands, visited);
      assert Extend(x, m, r, cands, visited).visits[0] == Visiting(cands[0], x.rules[r].newState);
    }
  }

  lemma EnterNext(x: Extension, m: nat, state: nat, visited: set<nat>)
    requires x.Valid() && state + 1 < |x.stateToBase|
    ensures NextIs(x, visited, Visiting(m, state), Enter(x, m, state, visited).visits)
  {
    var r := x.stateToBase[state];
    if r != x.stateToBase[state + 1] {
      AllRemain(x, m, r, visited);
      ExtendNext(x, m, r, x.Candidates(r, m), visited);
    }
  }

  // ---------------------------------------------------------------------------------------------
  // All visits
  // ---------------------------------------------------------------------------------------------

  lemma {:induction false} MembersOf(visits: seq<Visiting>, v: nat)
    ensures v in Members(visits) <==> Visits(visits, v)
    decreases |visits|
  {
    if visits != [] {
      MembersOf(visits[1..], v);
      if k :| 0 <= k < |visits[1..]| && visits[1..][k].member == v { assert visits[k + 1].member == v; }
      if k :| 0 <= k < |visits| && visits[k].member == v { assert k > 0 ==> visits[1..][k - 1].member == v; }
    }
  }

  lemma FreshMembers(visited: set<nat>, o: Outcome)
    requires Fresh(visited, o)
    ensures o.visited == visited + Members(o.visits)
  {
    forall v: nat ensures v in o.visited <==> v in visited || v in Members(o.visits) { MembersOf(o.visits, v); }
  }

  lemma {:induction false} DepthFirstAppend(x: Extension, seen: set<nat>, first: seq<Visiting>, rest: seq<Visiting>)
    requires DepthFirst(x, seen, first) && DepthFirst(x, seen + Members(first), rest)
    ensures DepthFirst(x, seen, first + rest)
    decreases |first|
  {
    if first == [] {
      assert first + rest == rest && seen + {} == seen;
    } else {
      var now, tail := seen + {first[0].member}, first[1..];
      assert now + Members(tail) == seen + Members(first);
      DepthFirstAppend(x, now, tail, rest);
      assert (first + rest)[1..] == tail + rest;
      assert tail != [] ==> (tail + rest)[0] == tail[0];
    }
  }

  lemma DepthFirstChain(x: Extension, seen: set<nat>, v: Visiting, inner: Outcome, outer: Outcome)
    requires v.member !in seen && Fresh(seen + {v.member}, inner)
    requires NextIs(x, seen + {v.member}, v, inner.visits) && DepthFirst(x, seen + {v.member}, inner.visits)
    requires DepthFirst(x, inner.visited, outer.visits)
    ensures DepthFirst(x, seen, [v] + inner.visits + outer.visits)
  {
    var first := [v] + inner.visits;
    assert first[1..] == inner.visits;
    FreshMembers(seen + {v.member}, inner);
    assert seen + Members(first) == inner.visited;
    DepthFirstAppend(x, seen, first, outer.visits);
  }

  lemma {:induction false} ExtendDepthFirst(x: Extension, m: nat, r: nat, cands: seq<nat>, visited: set<nat>)
    requires x.Valid() && r < |x.rules| && InRange(x, cands)
    ensures DepthFirst(x, visited, Extend(x, m, r, cands, visited).visits)
    decreases Left(x, visited), 1, x.Limit(r) - r, |cands|
  {
    if cands == [] {
      if r + 1 != x.Limit(r) {
        CandidatesInRange(x, r + 1, m);
        ExtendDepthFirst(x, m, r + 1, x.Candidates(r + 1, m), visited);
      }
    } else {
      var c, state := cands[0], x.rules[r].newState;
      if c in visited || !x.accepts(r, m, c) {
        ExtendDepthFirst(x, m, r, cands[1..], visited);
      } else {
        VisitLeavesLess(x, visited, c, visited + {c});
        EnterDepthFirst(x, c, state, visited + {c});
        var inner := Enter(x, c, state, visited + {c});
        VisitLeavesLess(x, visited, c, inner.visited);
        ExtendDepthFirst(x, m, r, cands[1..], inner.visited);
        EnterIsFresh(x, c, state, visited + {c});
        EnterNext(x, c, state, visited + {c});
        DepthFirstChain(x, visited, Visiting(c, state), inner, Extend(x, m, r, cands[1..], inner.visited));
      }
    }
  }

  lemma {:induction false} EnterDepthFirst(x: Extension, m: nat, state: nat, visited: set<nat>)
    requires x.Valid() && state + 1 < |x.stateToBase|
    ensures DepthFirst(x, visited, Enter(x, m, state, visited).visits)
    decreases Left(x, visited), 2
  {
    var r := x.stateToBase[state];
    if r != x.stateToBase[state + 1] {
      CandidatesInRange(x, r, m);
      ExtendDepthFirst(x, m, r, x.Candidates(r, m), visited);
    }
  }

  lemma VisitMemberDepthFirst(x: Extension, m: nat, visited: set<nat>)
    requires x.Valid()
    ensures DepthFirst(x, visited, VisitMember(x, m, visited).visits)
  {
    if m !in visited {
      var inner := Enter(x, m, 0, visited + {m});
      EnterDepthFirst(x, m, 0, visited + {m});
      EnterNext(x, m, 0, visited + {m});
      assert ([Visiting(m, 0)] + inner.visits)[1..] == inner.visits;
    }
  }

  /** Over any sequence of calls with one record, each visit is followed by the first that it leads to. */
  lemma {:induction false} VisitAllDepthFirst(x: Extension, members: seq<nat>, visited: set<nat>)
    requires x.Valid()
    ensures DepthFirst(x, visited, VisitAll(x, members, visited).visits)
    decreases |members|
  {
    if members != [] {
      var first := VisitMember(x, members[0], visited);
      VisitMemberDepthFirst(x, members[0], visited);
      VisitMemberIsFresh(x, members[0], visited);
      FreshMembers(visited, first);
      VisitAllDepthFirst(x, members[1..], first.visited);
      DepthFirstAppend(x, visited, first.visits, VisitAll(x, members[1..], first.visited).visits);
    }
  }
}

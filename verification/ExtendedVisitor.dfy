/**
 Visiting allocations together with those that extension rules lead to, by recursion: which visits are made,
 in which order and in which state.
 */
module ExtendedVisitor {
  import opened Basics
  import opened GraphEdges
  import opened EdgeSearch

  /** A rule applies to members visited in its base state; what it leads to is visited in its new state. */
  datatype Rule = Rule(baseState: nat, newState: nat, referenceIsOutgoing: bool, useOffsetInMember: bool)

  /**
   The rules, grouped by base state, and the graph.  What depends on the contents of memory is uninterpreted:
   whether a rule applies to a member at all, the one candidate at a given offset, and whether a candidate is
   accepted.
   */
  datatype Extension = Extension(
    refs: References, g: Edges, rules: seq<Rule>, stateToBase: seq<nat>,
    memberMatches: (nat, nat) -> bool, atOffset: (nat, nat) -> Option<nat>, accepts: (nat, nat, nat) -> bool)
  {
    ghost predicate Valid() {
      && Represents(refs, g)
      && (forall r, m :: atOffset(r, m).Some? ==> atOffset(r, m).value < |refs|)
      && Grouped(rules, stateToBase)
    }

    function Count(): nat { |refs| }

    /** Where the rules for the base state of rule r end. */
    function Limit(r: nat): nat
      requires Grouped(rules, stateToBase) && r < |rules|
    {
      stateToBase[rules[r].baseState + 1]
    }

    /** The candidates of rule r for member m, in order. */
    function Candidates(r: nat, m: nat): seq<nat>
      requires r < |rules|
    {
      if !memberMatches(r, m) then []
      else if rules[r].referenceIsOutgoing && rules[r].useOffsetInMember then
        match atOffset(r, m) case None => [] case Some(c) => [c]
      else if rules[r].referenceIsOutgoing then g.OutgoingOf(m)
      else g.IncomingOf(m)
    }
  }

  /** The rules of each state are a slice of all rules, and the states form the whole range of the rules. */
  predicate Grouped(rules: seq<Rule>, stateToBase: seq<nat>) {
    && 1 < |stateToBase| && stateToBase[0] == 0 && stateToBase[|stateToBase| - 1] == |rules|
    && (forall s, t :: 0 <= s < t < |stateToBase| ==> stateToBase[s] <= stateToBase[t])
    && (forall r :: 0 <= r < |rules| ==>
          && rules[r].baseState + 1 < |stateToBase| && rules[r].newState + 1 < |stateToBase|
          && stateToBase[rules[r].baseState] <= r < stateToBase[rules[r].baseState + 1])
    && (forall s, r :: 0 <= s < |stateToBase| - 1 && stateToBase[s] <= r < stateToBase[s + 1] && r < |rules| ==>
          rules[r].baseState == s)
  }

  // ---------------------------------------------------------------------------------------------
  // The recursive definition
  // ---------------------------------------------------------------------------------------------

  /** A visit of a member, with the state in which it is visited. */
  datatype Visiting = Visiting(member: nat, state: nat)

  /** The allocations visited so far, and the visits in order. */
  datatype Outcome = Outcome(visited: set<nat>, visits: seq<Visiting>)

  ghost function Left(x: Extension, visited: set<nat>): nat {
    |Numbers(x.Count()) - visited|
  }

  predicate InRange(x: Extension, cands: seq<nat>) {
    forall k :: 0 <= k < |cands| ==> cands[k] < x.Count()
  }

  /**
   What a rule refers to, by the references alone: for an outgoing rule with an offset in the member, the allocation
   that the word at the offset resolves to, for other outgoing rules what the member refers to, and for an incoming
   rule what refers to the member.
   */
  ghost predicate RefersTo(x: Extension, r: nat, m: nat, c: nat)
    requires r < |x.rules|
  {
    && x.memberMatches(r, m)
    && if !x.rules[r].referenceIsOutgoing then Edge(x.refs, c, m)
       else if x.rules[r].useOffsetInMember then x.atOffset(r, m) == Some(c)
       else Edge(x.refs, m, c)
  }

  /** The candidates of a rule are exactly what it refers to, each once and in increasing order. */
  lemma CandidatesAreReferences(x: Extension, r: nat, m: nat)
    requires x.Valid() && r < |x.rules|
    ensures forall c: nat :: c in x.Candidates(r, m) <==> RefersTo(x, r, m, c)
    ensures forall i, j :: 0 <= i < j < |x.Candidates(r, m)| ==> x.Candidates(r, m)[i] < x.Candidates(r, m)[j]
  {
    if m < |x.refs| {
      forall c: nat ensures c in x.Candidates(r, m) <==> RefersTo(x, r, m, c) {
        RowsAreReferences(x, m, c);
      }
      TablesAreTransposed(x.refs, x.g, m, m);
    }
  }

  lemma RowsAreReferences(x: Extension, m: nat, c: nat)
    requires x.Valid() && m < |x.refs|
    ensures c in x.g.OutgoingOf(m) <==> Edge(x.refs, m, c)
    ensures c in x.g.IncomingOf(m) <==> Edge(x.refs, c, m)
  {
    TablesAreTransposed(x.refs, x.g, m, m);
    if c < |x.refs| {
      TablesAreTransposed(x.refs, x.g, m, c);
      TablesAreTransposed(x.refs, x.g, c, m);
    }
  }

  lemma CandidatesInRange(x: Extension, r: nat, m: nat)
    requires x.Valid() && r < |x.rules|
    ensures InRange(x, x.Candidates(r, m))
  {
    if m < |x.refs| {
      TablesAreTransposed(x.refs, x.g, m, m);
    }
  }

  lemma VisitLeavesLess(x: Extension, visited: set<nat>, c: nat, more: set<nat>)
    requires c < x.Count() && c !in visited && visited + {c} <= more
    ensures Left(x, more) < Left(x, visited)
  {
    var a, b := Numbers(x.Count()) - more, Numbers(x.Count()) - visited;
    assert a <= b && c in b && c !in a;
    SubsetSmaller(a, b - {c});
  }

  /**
   What visiting leads on to from member m: the remaining candidates of rule r in order, each of them with
   all that it leads to, and then the rules after r for the same base state.
   */
  ghost function Extend(x: Extension, m: nat, r: nat, cands: seq<nat>, visited: set<nat>): (o: Outcome)
    requires x.Valid() && r < |x.rules| && InRange(x, cands)
    ensures visited <= o.visited
    decreases Left(x, visited), 1, x.Limit(r) - r, |cands|
  {
    if cands == [] then
      if r + 1 == x.Limit(r) then Outcome(visited, [])
      else
        CandidatesInRange(x, r + 1, m);
        Extend(x, m, r + 1, x.Candidates(r + 1, m), visited)
    else
      var c := cands[0];
      if c in visited || !x.accepts(r, m, c) then Extend(x, m, r, cands[1..], visited)
      else
        VisitLeavesLess(x, visited, c, visited + {c});
        var inner := Enter(x, c, x.rules[r].newState, visited + {c});
        VisitLeavesLess(x, visited, c, inner.visited);
        var outer := Extend(x, m, r, cands[1..], inner.visited);
        Outcome(outer.visited, [Visiting(c, x.rules[r].newState)] + inner.visits + outer.visits)
  }

  /** What visiting leads on to from a member that was just visited in a given state. */
  ghost function Enter(x: Extension, m: nat, state: nat, visited: set<nat>): (o: Outcome)
    requires x.Valid() && state + 1 < |x.stateToBase|
    ensures visited <= o.visited
    decreases Left(x, visited), 2
  {
    var r := x.stateToBase[state];
    if r == x.stateToBase[state + 1] then Outcome(visited, [])
    else
      CandidatesInRange(x, r, m);
      Extend(x, m, r, x.Candidates(r, m), visited)
  }

  /** Visiting a member of the base set: nothing if it was visited before. */
  ghost function VisitMember(x: Extension, m: nat, visited: set<nat>): (o: Outcome)
    requires x.Valid()
    ensures visited <= o.visited
  {
    if m in visited then Outcome(visited, [])
    else
      var o := Enter(x, m, 0, visited + {m});
      Outcome(o.visited, [Visiting(m, 0)] + o.visits)
  }

  // ---------------------------------------------------------------------------------------------
  // No allocation is visited twice
  // ---------------------------------------------------------------------------------------------

  ghost predicate Visits(visits: seq<Visiting>, v: nat) {
    exists k :: 0 <= k < |visits| && visits[k].member == v
  }

  /** The visits are distinct, none was visited before, and they are all that was added. */
  ghost predicate Fresh(visited: set<nat>, o: Outcome) {
    && (forall i, j :: 0 <= i < j < |o.visits| ==> o.visits[i].member != o.visits[j].member)
    && (forall k :: 0 <= k < |o.visits| ==> o.visits[k].member !in visited && o.visits[k].member in o.visited)
    && (forall v :: v in o.visited <==> v in visited || Visits(o.visits, v))
  }

  lemma FreshAppend(visited: set<nat>, first: Outcome, rest: Outcome)
    requires Fresh(visited, first) && Fresh(first.visited, rest)
    ensures Fresh(visited, Outcome(rest.visited, first.visits + rest.visits))
  {
    var all := first.visits + rest.visits;
    forall v ensures Visits(all, v) <==> Visits(first.visits, v) || Visits(rest.visits, v) {
      if Visits(first.visits, v) {
        var k :| 0 <= k < |first.visits| && first.visits[k].member == v;
        assert all[k].member == v;
      }
      if Visits(rest.visits, v) {
        var k :| 0 <= k < |rest.visits| && rest.visits[k].member == v;
        assert all[|first.visits| + k].member == v;
      }
    }
  }

  lemma FreshChain(visited: set<nat>, c: Visiting, inner: Outcome, outer: Outcome)
    requires c.member !in visited && Fresh(visited + {c.member}, inner) && Fresh(inner.visited, outer)
    ensures Fresh(visited, Outcome(outer.visited, [c] + inner.visits + outer.visits))
  {
    var one := Outcome(visited + {c.member}, [c]);
    assert one.visits[0].member == c.member;
    assert Fresh(visited, one);
    FreshAppend(visited, one, inner);
    FreshAppend(visited, Outcome(inner.visited, [c] + inner.visits), outer);
  }

  lemma {:induction false} AcceptedIsFresh(x: Extension, m: nat, r: nat, cands: seq<nat>, visited: set<nat>)
    requires x.Valid() && r < |x.rules| && InRange(x, cands)
    requires cands != [] && cands[0] !in visited && x.accepts(r, m, cands[0])
    ensures Fresh(visited, Extend(x, m, r, cands, visited))
    decreases Left(x, visited), 1, x.Limit(r) - r, |cands|, 0
  {
    var c, state := cands[0], x.rules[r].newState;
    VisitLeavesLess(x, visited, c, visited + {c});
    EnterIsFresh(x, c, state, visited + {c});
    var inner := Enter(x, c, state, visited + {c});
    VisitLeavesLess(x, visited, c, inner.visited);
    ExtendIsFresh(x, m, r, cands[1..], inner.visited);
    FreshChain(visited, Visiting(c, state), inner, Extend(x, m, r, cands[1..], inner.visited));
  }

  lemma {:induction false} ExtendIsFresh(x: Extension, m: nat, r: nat, cands: seq<nat>, visited: set<nat>)
    requires x.Valid() && r < |x.rules| && InRange(x, cands)
    ensures Fresh(visited, Extend(x, m, r, cands, visited))
    decreases Left(x, visited), 1, x.Limit(r) - r, |cands|, 1
  {
    if cands == [] {
      if r + 1 != x.Limit(r) {
        CandidatesInRange(x, r + 1, m);
        ExtendIsFresh(x, m, r + 1, x.Candidates(r + 1, m), visited);
      }
    } else if cands[0] in visited || !x.accepts(r, m, cands[0]) {
      ExtendIsFresh(x, m, r, cands[1..], visited);
    } else {
      AcceptedIsFresh(x, m, r, cands, visited);
    }
  }

  lemma {:induction false} EnterIsFresh(x: Extension, m: nat, state: nat, visited: set<nat>)
    requires x.Valid() && state + 1 < |x.stateToBase|
    ensures Fresh(visited, Enter(x, m, state, visited))
    decreases Left(x, visited), 2
  {
    var r := x.stateToBase[state];
    if r != x.stateToBase[state + 1] {
      CandidatesInRange(x, r, m);
      ExtendIsFresh(x, m, r, x.Candidates(r, m), visited);
    }
  }

  /** Visiting the members of a set in turn, all with the same record of what was visited. */
  ghost function VisitAll(x: Extension, members: seq<nat>, visited: set<nat>): (o: Outcome)
    requires x.Valid()
    ensures visited <= o.visited
  {
    if members == [] then Outcome(visited, [])
    else
      var first := VisitMember(x, members[0], visited);
      var rest := VisitAll(x, members[1..], first.visited);
      Outcome(rest.visited, first.visits + rest.visits)
  }

  lemma VisitMemberIsFresh(x: Extension, m: nat, visited: set<nat>)
    requires x.Valid()
    ensures Fresh(visited, VisitMember(x, m, visited))
  {
    if m !in visited {
      var inner := Enter(x, m, 0, visited + {m});
      EnterIsFresh(x, m, 0, visited + {m});
      FreshChain(visited, Visiting(m, 0), inner, Outcome(inner.visited, []));
      assert [Visiting(m, 0)] + inner.visits + [] == [Visiting(m, 0)] + inner.visits;
    }
  }

  /** Over any sequence of calls each allocation is visited at most once, and each member is visited. */
  lemma {:induction false} VisitAllIsFresh(x: Extension, members: seq<nat>, visited: set<nat>)
    requires x.Valid()
    ensures Fresh(visited, VisitAll(x, members, visited))
    ensures forall m :: m in members ==> m in VisitAll(x, members, visited).visited
    decreases |members|
  {
    if members != [] {
      var m := members[0];
      var first := VisitMember(x, m, visited);
      VisitMemberIsFresh(x, m, visited);
      VisitAllIsFresh(x, members[1..], first.visited);
      FreshAppend(visited, first, VisitAll(x, members[1..], first.visited));
      assert members == [m] + members[1..];
    }
  }

  // ---------------------------------------------------------------------------------------------
  // What is visited is closed under the rules
  // ---------------------------------------------------------------------------------------------

  /** Unless c is visited, rule q does not refer from m to c, or does not accept it. */
  ghost predicate Led(x: Extension, visited: set<nat>, m: nat, q: nat, c: nat) {
    q < |x.rules| && RefersTo(x, q, m, c) && x.accepts(q, m, c) ==> c in visited
  }

  /** The rules from r on, before limit, lead from m to visited allocations only. */
  ghost predicate ClosedBetween(x: Extension, visited: set<nat>, m: nat, r: nat, limit: nat) {
    forall q: nat, c: nat :: r <= q < limit ==> Led(x, visited, m, q, c)
  }

  /** The rules of the state lead from m to visited allocations only. */
  ghost predicate Closed(x: Extension, visited: set<nat>, m: nat, state: nat) {
    state + 1 < |x.stateToBase| && ClosedBetween(x, visited, m, x.stateToBase[state], x.stateToBase[state + 1])
  }

  /** Each visit is closed under the rules of the state in which it was made. */
  ghost predicate AllClosed(x: Extension, visited: set<nat>, visits: seq<Visiting>) {
    forall k :: 0 <= k < |visits| ==> Closed(x, visited, visits[k].member, visits[k].state)
  }

  lemma ClosedMore(x: Extension, visited: set<nat>, more: set<nat>, visits: seq<Visiting>)
    requires visited <= more && AllClosed(x, visited, visits)
    ensures AllClosed(x, more, visits)
  {
    forall k | 0 <= k < |visits| ensures Closed(x, more, visits[k].member, visits[k].state) {
      var v := visits[k];
      assert Closed(x, visited, v.member, v.state);
      forall q: nat, c: nat | x.stateToBase[v.state] <= q < x.stateToBase[v.state + 1]
        ensures Led(x, more, v.member, q, c)
      {
        assert Led(x, visited, v.member, q, c);
      }
    }
  }

  /** The remaining candidates of rule r, and the later rules of its state, lead to visited allocations. */
  ghost predicate ClosedFrom(x: Extension, visited: set<nat>, m: nat, r: nat, cands: seq<nat>)
    requires r < |x.rules| && Grouped(x.rules, x.stateToBase)
  {
    && (forall c :: c in cands && x.accepts(r, m, c) ==> c in visited)
    && ClosedBetween(x, visited, m, r + 1, x.Limit(r))
  }

  lemma NextRuleCloses(x: Extension, visited: set<nat>, m: nat, r: nat)
    requires x.Valid() && r + 1 < |x.rules| && r + 1 != x.Limit(r)
    requires ClosedFrom(x, visited, m, r + 1, x.Candidates(r + 1, m))
    ensures ClosedFrom(x, visited, m, r, [])
  {
    CandidatesAreReferences(x, r + 1, m);
    forall q: nat, c: nat | r + 1 <= q < x.Limit(r) ensures Led(x, visited, m, q, c) {
      assert ClosedBetween(x, visited, m, r + 2, x.Limit(r + 1));
    }
  }

  lemma {:induction false} ExtendCloses(x: Extension, m: nat, r: nat, cands: seq<nat>, visited: set<nat>)
    requires x.Valid() && r < |x.rules| && InRange(x, cands)
    ensures ClosedFrom(x, Extend(x, m, r, cands, visited).visited, m, r, cands)
    decreases Left(x, visited), 1, x.Limit(r) - r, |cands|
  {
    if cands == [] {
      if r + 1 != x.Limit(r) {
        CandidatesInRange(x, r + 1, m);
        ExtendCloses(x, m, r + 1, x.Candidates(r + 1, m), visited);
        NextRuleCloses(x, Extend(x, m, r + 1, x.Candidates(r + 1, m), visited).visited, m, r);
      }
    } else {
      var c := cands[0];
      assert cands == [c] + cands[1..];
      if c in visited || !x.accepts(r, m, c) {
        ExtendCloses(x, m, r, cands[1..], visited);
      } else {
        VisitLeavesLess(x, visited, c, visited + {c});
        var inner := Enter(x, c, x.rules[r].newState, visited + {c});
        VisitLeavesLess(x, visited, c, inner.visited);
        ExtendCloses(x, m, r, cands[1..], inner.visited);
      }
    }
  }

  lemma EnterCloses(x: Extension, m: nat, state: nat, visited: set<nat>)
    requires x.Valid() && state + 1 < |x.stateToBase|
    ensures Closed(x, Enter(x, m, state, visited).visited, m, state)
  {
    var r := x.stateToBase[state];
    if r != x.stateToBase[state + 1] {
      CandidatesInRange(x, r, m);
      CandidatesAreReferences(x, r, m);
      ExtendCloses(x, m, r, x.Candidates(r, m), visited);
      var o := Extend(x, m, r, x.Candidates(r, m), visited);
      forall q: nat, c: nat | r <= q < x.Limit(r) ensures Led(x, o.visited, m, q, c) {
        assert ClosedBetween(x, o.visited, m, r + 1, x.Limit(r));
      }
    }
  }

  lemma ClosedJoins(x: Extension, first: seq<Visiting>, inner: Outcome, outer: Outcome)
    requires AllClosed(x, inner.visited, first + inner.visits) && AllClosed(x, outer.visited, outer.visits)
    requires inner.visited <= outer.visited
    ensures AllClosed(x, outer.visited, first + inner.visits + outer.visits)
  {
    ClosedMore(x, inner.visited, outer.visited, first + inner.visits);
  }

  lemma {:induction false} ExtendClosesAll(x: Extension, m: nat, r: nat, cands: seq<nat>, visited: set<nat>)
    requires x.Valid() && r < |x.rules| && InRange(x, cands)
    ensures AllClosed(x, Extend(x, m, r, cands, visited).visited, Extend(x, m, r, cands, visited).visits)
    decreases Left(x, visited), 1, x.Limit(r) - r, |cands|
  {
    if cands == [] {
      if r + 1 != x.Limit(r) {
        CandidatesInRange(x, r + 1, m);
        ExtendClosesAll(x, m, r + 1, x.Candidates(r + 1, m), visited);
      }
    } else {
      var c, state := cands[0], x.rules[r].newState;
      if c in visited || !x.accepts(r, m, c) {
        ExtendClosesAll(x, m, r, cands[1..], visited);
      } else {
        VisitLeavesLess(x, visited, c, visited + {c});
        EnterClosesAll(x, c, state, visited + {c});
        var inner := Enter(x, c, state, visited + {c});
        VisitLeavesLess(x, visited, c, inner.visited);
        ExtendClosesAll(x, m, r, cands[1..], inner.visited);
        ClosedJoins(x, [Visiting(c, state)], inner, Extend(x, m, r, cands[1..], inner.visited));
      }
    }
  }

  lemma {:induction false} EnterClosesAll(x: Extension, m: nat, state: nat, visited: set<nat>)
    requires x.Valid() && state + 1 < |x.stateToBase|
    ensures AllClosed(x, Enter(x, m, state, visited).visited, [Visiting(m, state)] + Enter(x, m, state, visited).visits)
    decreases Left(x, visited), 2
  {
    var r := x.stateToBase[state];
    EnterCloses(x, m, state, visited);
    if r != x.stateToBase[state + 1] {
      CandidatesInRange(x, r, m);
      ExtendClosesAll(x, m, r, x.Candidates(r, m), visited);
    }
  }

  /** Whatever is visited has all that the rules of the state of its visit lead to visited as well. */
  lemma VisitMemberCloses(x: Extension, m: nat, visited: set<nat>)
    requires x.Valid()
    ensures AllClosed(x, VisitMember(x, m, visited).visited, VisitMember(x, m, visited).visits)
    ensures m !in visited ==> Closed(x, VisitMember(x, m, visited).visited, m, 0)
  {
    if m !in visited {
      EnterClosesAll(x, m, 0, visited + {m});
      EnterCloses(x, m, 0, visited + {m});
    }
  }

  /** The same over any sequence of calls with one record of what was visited. */
  lemma {:induction false} VisitAllCloses(x: Extension, members: seq<nat>, visited: set<nat>)
    requires x.Valid()
    ensures AllClosed(x, VisitAll(x, members, visited).visited, VisitAll(x, members, visited).visits)
    decreases |members|
  {
    if members != [] {
      var first := VisitMember(x, members[0], visited);
      var rest := VisitAll(x, members[1..], first.visited);
      VisitMemberCloses(x, members[0], visited);
      VisitAllCloses(x, members[1..], first.visited);
      ClosedMore(x, first.visited, rest.visited, first.visits);
    }
  }

  // ---------------------------------------------------------------------------------------------
  // Nothing else is visited
  // ---------------------------------------------------------------------------------------------

  /**
   Some rule of the state of visit u refers from its member to that of visit v and
   accepts it, and v is in the new state of the rule.
   */
  ghost predicate Leads(x: Extension, u: Visiting, v: Visiting) {
    exists q: nat :: LeadsBy(x, u, v, q)
  }

  ghost predicate LeadsBy(x: Extension, u: Visiting, v: Visiting, q: nat) {
    && u.state + 1 < |x.stateToBase| && x.stateToBase[u.state] <= q < x.stateToBase[u.state + 1] && q < |x.rules|
    && RefersTo(x, q, u.member, v.member) && x.accepts(q, u.member, v.member) && v.state == x.rules[q].newState
  }

  ghost predicate LedBy(x: Extension, earlier: set<Visiting>, v: Visiting) {
    exists u :: u in earlier && Leads(x, u, v)
  }

  /** Each visit is of a given member in the base state, or is led to by one made before. */
  ghost predicate Grounded(x: Extension, members: set<nat>, earlier: set<Visiting>, visits: seq<Visiting>)
    decreases |visits|
  {
    visits == [] ||
    var v := visits[0];
    && ((v.member in members && v.state == 0) || LedBy(x, earlier, v))
    && Grounded(x, members, earlier + {v}, visits[1..])
  }

  lemma {:induction false} GroundedMore(x: Extension, members: set<nat>, earlier: set<Visiting>, visits: seq<Visiting>,
                                        members': set<nat>, earlier': set<Visiting>)
    requires Grounded(x, members, earlier, visits) && members <= members' && earlier <= earlier'
    ensures Grounded(x, members', earlier', visits)
    decreases |visits|
  {
    if visits != [] {
      GroundedMore(x, members, earlier + {visits[0]}, visits[1..], members', earlier' + {visits[0]});
    }
  }

  lemma {:induction false} GroundedAppend(x: Extension, members: set<nat>, earlier: set<Visiting>, first: seq<Visiting>,
                                          rest: seq<Visiting>)
    requires Grounded(x, members, earlier, first) && Grounded(x, members, earlier, rest)
    ensures Grounded(x, members, earlier, first + rest)
    decreases |first|
  {
    if first == [] {
      assert first + rest == rest;
    } else {
      GroundedMore(x, members, earlier, rest, members, earlier + {first[0]});
      GroundedAppend(x, members, earlier + {first[0]}, first[1..], rest);
      assert (first + rest)[1..] == first[1..] + rest;
    }
  }

  /** What grounded visits are, by position. */
  lemma {:induction false} GroundedAt(x: Extension, members: set<nat>, earlier: set<Visiting>, visits: seq<Visiting>,
                                      k: nat)
    requires Grounded(x, members, earlier, visits) && k < |visits|
    ensures (visits[k].member in members && visits[k].state == 0) || LedBy(x, earlier, visits[k])
            || exists i :: 0 <= i < k && Leads(x, visits[i], visits[k])
    decreases |visits|
  {
    if k > 0 {
      var v, rest := visits[0], visits[1..];
      GroundedAt(x, members, earlier + {v}, rest, k - 1);
      if i :| 0 <= i < k - 1 && Leads(x, rest[i], rest[k - 1]) {
        assert visits[i + 1] == rest[i];
      }
    }
  }

  /** A visit that u leads to, with what it leads on to, and then others that u leads to. */
  lemma GroundedChain(x: Extension, u: Visiting, v: Visiting, inner: seq<Visiting>, outer: seq<Visiting>)
    requires Leads(x, u, v) && Grounded(x, {}, {v}, inner) && Grounded(x, {}, {u}, outer)
    ensures Grounded(x, {}, {u}, [v] + inner + outer)
  {
    GroundedMore(x, {}, {v}, inner, {}, {u} + {v});
    assert ([v] + inner)[1..] == inner;
    GroundedAppend(x, {}, {u}, [v] + inner, outer);
  }

  lemma {:induction false} ExtendIsLed(x: Extension, m: nat, r: nat, cands: seq<nat>, visited: set<nat>)
    requires x.Valid() && r < |x.rules| && InRange(x, cands) && forall c :: c in cands ==> c in x.Candidates(r, m)
    ensures Grounded(x, {}, {Visiting(m, x.rules[r].baseState)}, Extend(x, m, r, cands, visited).visits)
    decreases Left(x, visited), 1, x.Limit(r) - r, |cands|
  {
    var u := Visiting(m, x.rules[r].baseState);
    if cands == [] {
      if r + 1 != x.Limit(r) {
        CandidatesInRange(x, r + 1, m);
        ExtendIsLed(x, m, r + 1, x.Candidates(r + 1, m), visited);
        assert x.rules[r + 1].baseState == u.state;
      }
    } else {
      var c, state := cands[0], x.rules[r].newState;
      if c in visited || !x.accepts(r, m, c) {
        ExtendIsLed(x, m, r, cands[1..], visited);
      } else {
        VisitLeavesLess(x, visited, c, visited + {c});
        EnterIsLed(x, c, state, visited + {c});
        var inner := Enter(x, c, state, visited + {c});
        VisitLeavesLess(x, visited, c, inner.visited);
        ExtendIsLed(x, m, r, cands[1..], inner.visited);
        CandidatesAreReferences(x, r, m);
        assert LeadsBy(x, u, Visiting(c, state), r);
        GroundedChain(x, u, Visiting(c, state), inner.visits, Extend(x, m, r, cands[1..], inner.visited).visits);
      }
    }
  }

  lemma {:induction false} EnterIsLed(x: Extension, m: nat, state: nat, visited: set<nat>)
    requires x.Valid() && state + 1 < |x.stateToBase|
    ensures Grounded(x, {}, {Visiting(m, state)}, Enter(x, m, state, visited).visits)
    decreases Left(x, visited), 2
  {
    var r := x.stateToBase[state];
    if r != x.stateToBase[state + 1] {
      CandidatesInRange(x, r, m);
      ExtendIsLed(x, m, r, x.Candidates(r, m), visited);
    }
  }

  /** The member is visited in the base state, and every other visit is led to by an earlier one. */
  lemma VisitMemberIsLed(x: Extension, m: nat, visited: set<nat>)
    requires x.Valid()
    ensures Grounded(x, {m}, {}, VisitMember(x, m, visited).visits)
  {
    if m !in visited {
      var v, inner := Visiting(m, 0), Enter(x, m, 0, visited + {m}).visits;
      EnterIsLed(x, m, 0, visited + {m});
      GroundedMore(x, {}, {v}, inner, {m}, {} + {v});
      assert ([v] + inner)[1..] == inner;
    }
  }

  lemma {:induction false} VisitAllIsGrounded(x: Extension, members: seq<nat>, visited: set<nat>)
    requires x.Valid()
    ensures Grounded(x, set m | m in members, {}, VisitAll(x, members, visited).visits)
    decreases |members|
  {
    if members != [] {
      var first := VisitMember(x, members[0], visited);
      var rest, all := VisitAll(x, members[1..], first.visited), set m | m in members;
      VisitMemberIsLed(x, members[0], visited);
      VisitAllIsGrounded(x, members[1..], first.visited);
      GroundedMore(x, {members[0]}, {}, first.visits, all, {});
      GroundedMore(x, set m | m in members[1..], {}, rest.visits, all, {});
      GroundedAppend(x, all, {}, first.visits, rest.visits);
    }
  }

  /**
   Nothing else is visited: over any sequence of calls, each visit is that of a member in the base state, or some rule
   of the state of an earlier visit refers to it, accepts it and puts it in the state in which it is made.
   */
  lemma VisitAllIsLed(x: Extension, members: seq<nat>, visited: set<nat>, k: nat)
    requires x.Valid() && k < |VisitAll(x, members, visited).visits|
    ensures var visits := VisitAll(x, members, visited).visits;
            (visits[k].member in members && visits[k].state == 0)
            || exists i :: 0 <= i < k && Leads(x, visits[i], visits[k])
  {
    VisitAllIsGrounded(x, members, visited);
    GroundedAt(x, set m | m in members, {}, VisitAll(x, members, visited).visits, k);
  }
}

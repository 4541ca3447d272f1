/**
 The walk over members and what extension rules lead to, with a stack of its own on which a frame that has
 nothing left to do is never kept, makes the visits of the recursive definition.
 */
module ExtendedWalk {
  import AllocationSet
  import opened Basics
  import opened EdgeSearch
  import opened ExtendedVisitor
  import opened GraphEdges

  datatype Progress = NewRule | NoEdgesChecked | InProgress | RuleDone

  /** Where a member was left: the candidates of the rule that remain, which are none when the rule is done. */
  datatype Frame = Frame(member: nat, rule: nat, progress: Progress, remaining: seq<nat>)

  ghost predicate FrameOk(x: Extension, f: Frame) {
    && x.Valid() && f.rule < |x.rules| && InRange(x, f.remaining)
    && ((f.progress == InProgress && f.remaining != []) || (f.progress == RuleDone && f.rule + 1 != x.Limit(f.rule)))
  }

  /** What the frame still leads to. */
  ghost function FrameOutcome(x: Extension, f: Frame, visited: set<nat>): (o: Outcome)
    requires FrameOk(x, f)
    ensures visited <= o.visited
  {
    Extend(x, f.member, f.rule, if f.progress == RuleDone then [] else f.remaining, visited)
  }

  ghost predicate StackOk(x: Extension, stack: seq<Frame>) {
    forall i :: 0 <= i < |stack| ==> FrameOk(x, stack[i])
  }

  ghost function Unwind(x: Extension, stack: seq<Frame>, visited: set<nat>): (o: Outcome)
    requires StackOk(x, stack)
    ensures visited <= o.visited
    decreases |stack|, 0
  {
    if stack == [] then Outcome(visited, [])
    else Then(x, stack[..|stack| - 1], FrameOutcome(x, stack[|stack| - 1], visited))
  }

  /** An outcome, followed by what is left on the stack. */
  ghost function Then(x: Extension, stack: seq<Frame>, first: Outcome): (o: Outcome)
    requires StackOk(x, stack)
    ensures first.visited <= o.visited
    decreases |stack|, 1
  {
    var rest := Unwind(x, stack, first.visited);
    Outcome(rest.visited, first.visits + rest.visits)
  }

  /** The member being dealt with; a member of a state without rules is given the rule before, as done. */
  ghost predicate CurrentOk(x: Extension, member: nat, rule: nat, limit: nat, progress: Progress, remaining: seq<nat>) {
    && x.Valid() && InRange(x, remaining) && progress != NoEdgesChecked
    && if progress == RuleDone && rule + 1 == limit then true
       else rule < |x.rules| && limit == x.Limit(rule) && (progress == InProgress ==> remaining != [])
  }

  ghost function CurrentOutcome(x: Extension, member: nat, rule: nat, limit: nat, progress: Progress,
                                remaining: seq<nat>, visited: set<nat>): (o: Outcome)
    requires CurrentOk(x, member, rule, limit, progress, remaining)
    ensures visited <= o.visited
  {
    if progress == RuleDone && rule + 1 == limit then Outcome(visited, [])
    else
      CandidatesInRange(x, rule, member);
      Extend(x, member, rule,
             match progress case NewRule => x.Candidates(rule, member) case InProgress => remaining case _ => [],
             visited)
  }

  /** The candidates that remain for the rule of the member being dealt with. */
  function Remaining(x: Extension, member: nat, rule: nat, progress: Progress, remaining: seq<nat>): seq<nat>
    requires rule < |x.rules|
  {
    match progress case NewRule => x.Candidates(rule, member) case RuleDone => [] case _ => remaining
  }

  /** The first candidate of a rule is the least that it refers to. */
  lemma FirstReference(x: Extension, r: nat, m: nat)
    requires x.Valid() && r < |x.rules|
    ensures var cands := x.Candidates(r, m);
            if cands == [] then forall c: nat :: !RefersTo(x, r, m, c)
            else RefersTo(x, r, m, cands[0]) && forall c: nat :: c < cands[0] ==> !RefersTo(x, r, m, c)
  {
    CandidatesAreReferences(x, r, m);
    var cands := x.Candidates(r, m);
    forall c: nat | cands != [] && c < cands[0] ensures !RefersTo(x, r, m, c) {
      assert c !in cands;
    }
  }

  /** The next candidate of the rule, if there is one. */
  method NextCandidate(x: Extension, member: nat, rule: nat, progress0: Progress, remaining0: seq<nat>)
    returns (found: bool, candidate: nat, progress: Progress, remaining: seq<nat>)
    requires x.Valid() && rule < |x.rules| && progress0 in {NewRule, InProgress} && InRange(x, remaining0)
    requires progress0 == InProgress ==> remaining0 != []
    ensures progress in {InProgress, RuleDone} && InRange(x, remaining) && (progress == InProgress ==> remaining != [])
    ensures found ==> candidate < x.Count()
    ensures Remaining(x, member, rule, progress0, remaining0) ==
            if found then [candidate] + Remaining(x, member, rule, progress, remaining) else []
    ensures !found ==> progress == RuleDone
    ensures progress0 == NewRule && found ==>
              RefersTo(x, rule, member, candidate) && forall c: nat :: c < candidate ==> !RefersTo(x, rule, member, c)
    ensures progress0 == NewRule && !found ==> forall c: nat :: !RefersTo(x, rule, member, c)
    ensures progress0 == InProgress && progress == InProgress ==> |remaining| < |remaining0|
  {
    found, candidate, progress, remaining := false, 0, progress0, remaining0;
    CandidatesInRange(x, rule, member);
    if progress == NewRule {
      FirstReference(x, rule, member);
      if !x.memberMatches(rule, member) {
        progress := RuleDone;
        return;
      }
      if x.rules[rule].referenceIsOutgoing {
        if x.rules[rule].useOffsetInMember {
          progress := RuleDone;
          match x.atOffset(rule, member)
          case None => return;
          case Some(c) => return true, c, progress, remaining;
        }
        remaining := x.g.OutgoingOf(member);
      } else {
        remaining := x.g.IncomingOf(member);
      }
      progress := NoEdgesChecked;
    }
    if progress == NoEdgesChecked {
      if remaining == [] {
        progress := RuleDone;
        return;
      }
      progress := InProgress;
    }
    found, candidate, remaining := true, remaining[0], remaining[1..];
    if remaining == [] {
      progress := RuleDone;
    }
  }

  lemma RulesOfState(x: Extension, r: nat)
    requires x.Valid() && r < |x.rules| && r + 1 != x.Limit(r)
    ensures r + 1 < |x.rules| && x.Limit(r + 1) == x.Limit(r)
  {
  }

  /** Going on with the next rule of the state. */
  lemma RuleAdvances(x: Extension, member: nat, rule: nat, limit: nat, remaining: seq<nat>, visited: set<nat>)
    requires CurrentOk(x, member, rule, limit, RuleDone, remaining) && rule + 1 != limit
    ensures CurrentOk(x, member, rule + 1, limit, NewRule, remaining)
    ensures CurrentOutcome(x, member, rule, limit, RuleDone, remaining, visited) ==
            CurrentOutcome(x, member, rule + 1, limit, NewRule, remaining, visited)
  {
    RulesOfState(x, rule);
  }

  /** Going back to the member on top of the stack. */
  lemma FrameResumes(x: Extension, stack: seq<Frame>, visited: set<nat>)
    requires StackOk(x, stack) && stack != []
    ensures var f, rest := stack[|stack| - 1], stack[..|stack| - 1];
            && f.rule < |x.rules| && x.Valid()
            && CurrentOk(x, f.member, f.rule, x.Limit(f.rule), f.progress, f.remaining)
            && Then(x, stack, Outcome(visited, [])) ==
               Then(x, rest, CurrentOutcome(x, f.member, f.rule, x.Limit(f.rule), f.progress, f.remaining, visited))
  {
    var f, rest := stack[|stack| - 1], stack[..|stack| - 1];
    var current := CurrentOutcome(x, f.member, f.rule, x.Limit(f.rule), f.progress, f.remaining, visited);
    assert FrameOutcome(x, f, visited) == current;
    assert [] + Then(x, rest, current).visits == Then(x, rest, current).visits;
  }

  /** Passing over a candidate, or finding none. */
  lemma CandidatePasses(x: Extension, member: nat, rule: nat, limit: nat, progress: Progress, remaining: seq<nat>,
                        found: bool, c: nat, progress': Progress, remaining': seq<nat>, visited: set<nat>)
    requires CurrentOk(x, member, rule, limit, progress, remaining) && progress in {NewRule, InProgress}
    requires progress' in {InProgress, RuleDone} && InRange(x, remaining')
    requires progress' == InProgress ==> remaining' != []
    requires Remaining(x, member, rule, progress, remaining) ==
             if found then [c] + Remaining(x, member, rule, progress', remaining') else []
    requires if found then c in visited || !x.accepts(rule, member, c) else progress' == RuleDone
    ensures CurrentOk(x, member, rule, limit, progress', remaining')
    ensures CurrentOutcome(x, member, rule, limit, progress, remaining, visited) ==
            CurrentOutcome(x, member, rule, limit, progress', remaining', visited)
  {
    CandidatesInRange(x, rule, member);
    var all, rest := Remaining(x, member, rule, progress, remaining), Remaining(x, member, rule, progress', remaining');
    assert CurrentOutcome(x, member, rule, limit, progress, remaining, visited)
        == Extend(x, member, rule, all, visited);
    if found { assert all[1..] == rest; }
    assert Extend(x, member, rule, all, visited) == Extend(x, member, rule, rest, visited);
  }

  /** The stack for going on with an accepted candidate: without a frame that has nothing left to do. */
  function Pushed(stack: seq<Frame>, member: nat, rule: nat, limit: nat, progress: Progress,
                  remaining: seq<nat>): seq<Frame>
  {
    if progress != RuleDone || rule + 1 != limit then stack + [Frame(member, rule, progress, remaining)] else stack
  }

  /** Where dealing with a member in a state starts; without rules it is done before it starts. */
  function StartRule(x: Extension, state: nat): (nat, Progress)
    requires x.Valid() && state + 1 < |x.stateToBase|
    requires x.stateToBase[state] == x.stateToBase[state + 1] ==> x.stateToBase[state] > 0
  {
    var rule := x.stateToBase[state];
    if rule != x.stateToBase[state + 1] then (rule, NewRule) else (rule - 1, RuleDone)
  }

  /** The state in which all base members are visited has rules, so that no other state starts at rule 0. */
  ghost predicate BaseHasRules(x: Extension) {
    x.Valid() && 0 < x.stateToBase[1]
  }

  lemma StateStarts(x: Extension, member: nat, state: nat, visited: set<nat>)
    requires BaseHasRules(x) && state + 1 < |x.stateToBase|
    ensures x.stateToBase[state] == x.stateToBase[state + 1] ==> x.stateToBase[state] > 0
    ensures var (rule, progress) := StartRule(x, state);
            && CurrentOk(x, member, rule, x.stateToBase[state + 1], progress, [])
            && CurrentOutcome(x, member, rule, x.stateToBase[state + 1], progress, [], visited)
            == Enter(x, member, state, visited)
  {
    assert state > 0 ==> x.stateToBase[1] <= x.stateToBase[state];
    var rule := x.stateToBase[state];
    if rule != x.stateToBase[state + 1] {
      assert x.rules[rule].baseState == state;
    }
  }

  /** A frame that is left out would have led to nothing. */
  lemma PushedUnwinds(x: Extension, stack: seq<Frame>, member: nat, rule: nat, progress: Progress, remaining: seq<nat>,
                      visited: set<nat>)
    requires x.Valid() && StackOk(x, stack) && rule < |x.rules| && InRange(x, remaining)
    requires progress in {InProgress, RuleDone} && (progress == InProgress ==> remaining != [])
    ensures var pushed := Pushed(stack, member, rule, x.Limit(rule), progress, remaining);
            && StackOk(x, pushed)
            && Unwind(x, pushed, visited) ==
               Then(x, stack, Extend(x, member, rule, Remaining(x, member, rule, progress, remaining), visited))
  {
    var pushed := Pushed(stack, member, rule, x.Limit(rule), progress, remaining);
    var outer := Extend(x, member, rule, Remaining(x, member, rule, progress, remaining), visited);
    if pushed != stack {
      var f := Frame(member, rule, progress, remaining);
      assert pushed[|pushed| - 1] == f && pushed[..|pushed| - 1] == stack;
      assert FrameOutcome(x, f, visited) == outer;
    } else {
      assert outer == Outcome(visited, []);
      assert [] + Unwind(x, stack, visited).visits == Unwind(x, stack, visited).visits;
    }
  }

  lemma AcceptedOutcome(x: Extension, member: nat, rule: nat, limit: nat, progress: Progress, remaining: seq<nat>,
                        c: nat, rest: seq<nat>, visited: set<nat>)
    requires CurrentOk(x, member, rule, limit, progress, remaining) && progress in {NewRule, InProgress}
    requires c < x.Count() && c !in visited && x.accepts(rule, member, c) && InRange(x, rest)
    requires Remaining(x, member, rule, progress, remaining) == [c] + rest
    ensures var inner := Enter(x, c, x.rules[rule].newState, visited + {c});
            var outer := Extend(x, member, rule, rest, inner.visited);
            CurrentOutcome(x, member, rule, limit, progress, remaining, visited) ==
            Outcome(outer.visited, [Visiting(c, x.rules[rule].newState)] + inner.visits + outer.visits)
  {
    CandidatesInRange(x, rule, member);
    var all := Remaining(x, member, rule, progress, remaining);
    assert all[1..] == rest && all[0] == c;
    assert CurrentOutcome(x, member, rule, limit, progress, remaining, visited)
        == Extend(x, member, rule, all, visited);
  }

  /** The visits that an accepted candidate leads to come before those that remain for its member. */
  lemma Assemble(x: Extension, stack: seq<Frame>, pushed: seq<Frame>, c: Visiting, inner: Outcome, outer: Outcome)
    requires StackOk(x, stack) && StackOk(x, pushed) && Unwind(x, pushed, inner.visited) == Then(x, stack, outer)
    ensures var before := Then(x, stack, Outcome(outer.visited, [c] + inner.visits + outer.visits));
            var after := Then(x, pushed, inner);
            before.visited == after.visited && before.visits == [c] + after.visits
  {
  }

  /** Going on with an accepted candidate. */
  lemma CandidateEnters(x: Extension, stack: seq<Frame>, member: nat, rule: nat, limit: nat, progress: Progress,
                        remaining: seq<nat>, c: nat, progress': Progress, remaining': seq<nat>, visited: set<nat>)
    requires StackOk(x, stack) && CurrentOk(x, member, rule, limit, progress, remaining)
    requires progress in {NewRule, InProgress}
    requires progress' in {InProgress, RuleDone} && InRange(x, remaining')
    requires progress' == InProgress ==> remaining' != []
    requires c < x.Count() && c !in visited && x.accepts(rule, member, c)
    requires Remaining(x, member, rule, progress, remaining) == [c] + Remaining(x, member, rule, progress', remaining')
    ensures StackOk(x, Pushed(stack, member, rule, limit, progress', remaining'))
    ensures var before := Then(x, stack, CurrentOutcome(x, member, rule, limit, progress, remaining, visited));
            var after := Then(x, Pushed(stack, member, rule, limit, progress', remaining'),
                              Enter(x, c, x.rules[rule].newState, visited + {c}));
            before.visited == after.visited && before.visits == [Visiting(c, x.rules[rule].newState)] + after.visits
  {
    var inner := Enter(x, c, x.rules[rule].newState, visited + {c});
    var rest := Remaining(x, member, rule, progress', remaining');
    PushedUnwinds(x, stack, member, rule, progress', remaining', inner.visited);
    AcceptedOutcome(x, member, rule, limit, progress, remaining, c, rest, visited);
    Assemble(x, stack, Pushed(stack, member, rule, limit, progress', remaining'), Visiting(c, x.rules[rule].newState),
             inner, Extend(x, member, rule, rest, inner.visited));
  }

  /** Where the walk is: the member being dealt with, and the frames of those to go back to. */
  datatype Position = Position(stack: seq<Frame>, member: nat, rule: nat, limit: nat, progress: Progress,
                               remaining: seq<nat>)

  ghost predicate PositionOk(x: Extension, p: Position) {
    && BaseHasRules(x) && StackOk(x, p.stack)
    && CurrentOk(x, p.member, p.rule, p.limit, p.progress, p.remaining)
  }

  /** What remains to be visited from there, given what was visited. */
  ghost function Owed(x: Extension, p: Position, visited: set<nat>): Outcome
    requires PositionOk(x, p)
  {
    Then(x, p.stack, CurrentOutcome(x, p.member, p.rule, p.limit, p.progress, p.remaining, visited))
  }

  function Rank(progress: Progress): nat {
    match progress case NewRule => 2 case RuleDone => 0 case _ => 1
  }

  /** Dealing with m, which was just visited in a state. */
  function StartAt(x: Extension, stack: seq<Frame>, m: nat, state: nat): Position
    requires x.Valid() && state + 1 < |x.stateToBase|
    requires x.stateToBase[state] == x.stateToBase[state + 1] ==> x.stateToBase[state] > 0
  {
    Position(stack, m, StartRule(x, state).0, x.stateToBase[state + 1], StartRule(x, state).1, [])
  }

  lemma StartOwes(x: Extension, stack: seq<Frame>, m: nat, state: nat, visited: set<nat>)
    requires BaseHasRules(x) && StackOk(x, stack) && state + 1 < |x.stateToBase|
    ensures x.stateToBase[state] == x.stateToBase[state + 1] ==> x.stateToBase[state] > 0
    ensures PositionOk(x, StartAt(x, stack, m, state))
    ensures Owed(x, StartAt(x, stack, m, state), visited) == Then(x, stack, Enter(x, m, state, visited))
  {
    StateStarts(x, m, state, visited);
  }

  lemma NextRuleOwes(x: Extension, p: Position, visited: set<nat>)
    requires PositionOk(x, p) && p.progress == RuleDone && p.rule + 1 != p.limit
    ensures var next := p.(rule := p.rule + 1, progress := NewRule);
            PositionOk(x, next) && Owed(x, next, visited) == Owed(x, p, visited) && p.rule + 1 < p.limit
  {
    RuleAdvances(x, p.member, p.rule, p.limit, p.remaining, visited);
  }

  /** Back at the member on top of the stack. */
  function Resumed(x: Extension, stack: seq<Frame>): Position
    requires stack != [] && Grouped(x.rules, x.stateToBase) && stack[|stack| - 1].rule < |x.rules|
  {
    var f := stack[|stack| - 1];
    Position(stack[..|stack| - 1], f.member, f.rule, x.Limit(f.rule), f.progress, f.remaining)
  }

  lemma ResumedOwes(x: Extension, p: Position, visited: set<nat>)
    requires PositionOk(x, p) && p.progress == RuleDone && p.rule + 1 == p.limit && p.stack != []
    ensures Grouped(x.rules, x.stateToBase) && p.stack[|p.stack| - 1].rule < |x.rules|
    ensures PositionOk(x, Resumed(x, p.stack)) && Owed(x, Resumed(x, p.stack), visited) == Owed(x, p, visited)
  {
    FrameResumes(x, p.stack, visited);
    assert StackOk(x, p.stack[..|p.stack| - 1]);
  }

  lemma NothingOwed(x: Extension, p: Position, visited: set<nat>)
    requires PositionOk(x, p) && p.progress == RuleDone && p.rule + 1 == p.limit && p.stack == []
    ensures Owed(x, p, visited) == Outcome(visited, [])
  {
  }

  /** From a rule that is done: the next rule, or back to the member on top of the stack, or the end. */
  method Advance(x: Extension, p: Position, ghost visited: set<nat>) returns (ended: bool, next: Position)
    requires PositionOk(x, p) && p.progress == RuleDone
    ensures ended ==> Owed(x, p, visited) == Outcome(visited, [])
    ensures !ended ==> PositionOk(x, next) && Owed(x, next, visited) == Owed(x, p, visited)
    ensures !ended ==>
              |next.stack| < |p.stack|
              || (|next.stack| == |p.stack| && 0 <= next.limit - next.rule < p.limit - p.rule)
  {
    ended, next := false, p;
    if p.rule + 1 != p.limit {
      NextRuleOwes(x, p, visited);
      next := p.(rule := p.rule + 1, progress := NewRule);
    } else if p.stack == [] {
      NothingOwed(x, p, visited);
      ended := true;
    } else {
      ResumedOwes(x, p, visited);
      next := Resumed(x, p.stack);
    }
  }

  /** taken is the position p after the next candidate c, if there was one, was taken from the rule at hand. */
  ghost predicate Takes(x: Extension, p: Position, found: bool, c: nat, taken: Position) {
    && PositionOk(x, p) && p.progress in {NewRule, InProgress} && p.rule < |x.rules|
    && taken == p.(progress := taken.progress, remaining := taken.remaining)
    && taken.progress in {InProgress, RuleDone} && InRange(x, taken.remaining)
    && (taken.progress == InProgress ==> taken.remaining != [])
    && Remaining(x, p.member, p.rule, p.progress, p.remaining) ==
       (if found then [c] + Remaining(x, p.member, p.rule, taken.progress, taken.remaining) else [])
    && if found then c < x.Count() else taken.progress == RuleDone
  }

  predicate Later(p: Position, next: Position) {
    && next == p.(progress := next.progress, remaining := next.remaining)
    && (Rank(next.progress) < Rank(p.progress) || (next.progress == p.progress && |next.remaining| < |p.remaining|))
  }

  method Take(x: Extension, p: Position) returns (found: bool, c: nat, taken: Position)
    requires PositionOk(x, p) && p.progress in {NewRule, InProgress}
    ensures Takes(x, p, found, c, taken) && Later(p, taken)
  {
    var progress, remaining;
    found, c, progress, remaining := NextCandidate(x, p.member, p.rule, p.progress, p.remaining);
    taken := p.(progress := progress, remaining := remaining);
  }

  /** No candidate, or one that is visited or not accepted. */
  lemma Skip(x: Extension, p: Position, found: bool, c: nat, taken: Position, visited: set<nat>)
    requires Takes(x, p, found, c, taken) && (found ==> c in visited || !x.accepts(p.rule, p.member, c))
    ensures PositionOk(x, taken) && Owed(x, taken, visited) == Owed(x, p, visited)
  {
    CandidatePasses(x, p.member, p.rule, p.limit, p.progress, p.remaining, found, c, taken.progress, taken.remaining,
                    visited);
  }

  /** Going on with an accepted candidate, which is now visited. */
  method Follow(x: Extension, p: Position, c: nat, taken: Position, ghost visited: set<nat>, ghost owed: Outcome)
    returns (next: Position, ghost rest: Outcome)
    requires Takes(x, p, true, c, taken) && c !in visited && x.accepts(p.rule, p.member, c)
    requires owed == Owed(x, p, visited)
    ensures PositionOk(x, next) && rest == Owed(x, next, visited + {c})
    ensures owed.visited == rest.visited && owed.visits == [Visiting(c, x.rules[p.rule].newState)] + rest.visits
    ensures Left(x, visited + {c}) < Left(x, visited)
  {
    VisitLeavesLess(x, visited, c, visited + {c});
    CandidateEnters(x, p.stack, p.member, p.rule, p.limit, p.progress, p.remaining, c, taken.progress, taken.remaining,
                    visited);
    var stack := Pushed(p.stack, p.member, p.rule, p.limit, taken.progress, taken.remaining);
    StartOwes(x, stack, c, x.rules[p.rule].newState, visited + {c});
    next := StartAt(x, stack, c, x.rules[p.rule].newState);
    rest := Owed(x, next, visited + {c});
  }

  lemma Shift(visits: seq<Visiting>, c: Visiting, rest: seq<Visiting>)
    ensures visits + ([c] + rest) == (visits + [c]) + rest
  {
  }

  lemma VisitUnvisited(x: Extension, m: nat, visited: set<nat>)
    requires x.Valid() && m !in visited
    ensures var o := Enter(x, m, 0, visited + {m});
            VisitMember(x, m, visited) == Outcome(o.visited, [Visiting(m, 0)] + o.visits)
    ensures x.rules == [] ==> Enter(x, m, 0, visited + {m}) == Outcome(visited + {m}, [])
  {
  }

  class Visitor {
    const x: Extension
    const isEnabled: bool
    const visited: AllocationSet.Set
    var visits: seq<Visiting>

    ghost predicate Valid()
      reads this, visited
    {
      && visited.Valid() && visited.numAllocations == x.Count() && x.Valid()
      && (isEnabled && x.rules != [] ==> BaseHasRules(x))
    }

    constructor (x: Extension, isEnabled: bool, visited: AllocationSet.Set)
      requires visited.Valid() && visited.numAllocations == x.Count() && x.Valid()
      requires isEnabled && x.rules != [] ==> BaseHasRules(x)
      ensures Valid() && this.x == x && this.isEnabled == isEnabled && this.visited == visited && visits == []
    {
      this.x, this.isEnabled, this.visited, visits := x, isEnabled, visited, [];
    }

    /** Visits a member of the base set with all that the rules lead to; a disabled visitor just visits it. */
    method Visit(m: nat)
      requires Valid() && m < x.Count()
      modifies this, visited
      ensures Valid()
      ensures isEnabled ==> visited.Contents() == VisitMember(x, m, old(visited.Contents())).visited
                            && visits == old(visits) + VisitMember(x, m, old(visited.Contents())).visits
      ensures !isEnabled ==>
                visited.Contents() == old(visited.Contents()) + {m} && visits == old(visits) + [Visiting(m, 0)]
    {
      if !isEnabled {
        visited.Add(m);
        visits := visits + [Visiting(m, 0)];
        return;
      }
      var already := visited.Has(m);
      if already {
        return;
      }
      VisitUnvisited(x, m, visited.Contents());
      visited.Add(m);
      visits := visits + [Visiting(m, 0)];
      if x.rules == [] {
        return;
      }
      Walk(m);
    }

    /** Takes the next candidate of the rule at hand, and visits it if it is accepted and was not visited. */
    method Examine(p: Position, ghost owed: Outcome) returns (next: Position, ghost rest: Outcome)
      requires Valid() && PositionOk(x, p) && p.progress in {NewRule, InProgress}
      requires owed == Owed(x, p, visited.Contents())
      modifies this, visited
      ensures Valid() && PositionOk(x, next) && rest == Owed(x, next, visited.Contents())
      ensures rest.visited == owed.visited && visits + rest.visits == old(visits) + owed.visits
      ensures Left(x, visited.Contents()) < Left(x, old(visited.Contents()))
              || (visited.Contents() == old(visited.Contents()) && Later(p, next))
    {
      ghost var before := visited.Contents();
      var found, c, taken := Take(x, p);
      var passes := !found;
      if found {
        passes := visited.Has(c);
        passes := passes || !x.accepts(p.rule, p.member, c);
      }
      if passes {
        Skip(x, p, found, c, taken, before);
        next, rest := taken, owed;
      } else {
        next, rest := Follow(x, p, c, taken, before, owed);
        visited.Add(c);
        var visit := Visiting(c, x.rules[p.rule].newState);
        Shift(visits, visit, rest.visits);
        visits := visits + [visit];
      }
    }

    method Walk(m: nat)
      requires Valid() && BaseHasRules(x)
      modifies this, visited
      ensures Valid()
      ensures visited.Contents() == Enter(x, m, 0, old(visited.Contents())).visited
      ensures visits == old(visits) + Enter(x, m, 0, old(visited.Contents())).visits
    {
      StartOwes(x, [], m, 0, visited.Contents());
      var p := StartAt(x, [], m, 0);
      ghost var goal := Enter(x, m, 0, visited.Contents());
      ghost var owed := Owed(x, p, visited.Contents());
      assert owed == Outcome(goal.visited, goal.visits + []);
      while true
        invariant Valid() && PositionOk(x, p) && owed == Owed(x, p, visited.Contents())
        invariant owed.visited == goal.visited && visits + owed.visits == old(visits) + goal.visits
        decreases Left(x, visited.Contents()), |p.stack|, p.limit - p.rule, Rank(p.progress), |p.remaining|
      {
        if p.progress == RuleDone {
          var ended;
          ended, p := Advance(x, p, visited.Contents());
          if ended {
            return;
          }
        } else {
          p, owed := Examine(p, owed);
        }
      }
    }
  }
}

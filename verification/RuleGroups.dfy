/**
 Grouping extension rules by the state they apply to, keeping the order of the arguments within a state.
 */
module RuleGroups {
  import opened ExtendedVisitor

  /** The arguments, from i on, whose rule has the given base state. */
  function ArgumentsOf(specs: seq<Rule>, state: nat, i: nat): seq<nat>
    decreases |specs| - i
  {
    if i >= |specs| then []
    else if specs[i].baseState == state then [i] + ArgumentsOf(specs, state, i + 1)
    else ArgumentsOf(specs, state, i + 1)
  }

  /** How many of the first i arguments have the given base state. */
  function CountOf(specs: seq<Rule>, state: nat, i: nat): nat
    requires i <= |specs|
  {
    if i == 0 then 0 else CountOf(specs, state, i - 1) + if specs[i - 1].baseState == state then 1 else 0
  }

  /** How many of the first i arguments have a base state before the given one. */
  function CountBefore(specs: seq<Rule>, state: nat, i: nat): nat
    requires i <= |specs|
  {
    if i == 0 then 0 else CountBefore(specs, state, i - 1) + if specs[i - 1].baseState < state then 1 else 0
  }

  lemma {:induction false} CountsAdd(specs: seq<Rule>, state: nat, i: nat)
    requires i <= |specs|
    ensures CountBefore(specs, state + 1, i) == CountBefore(specs, state, i) + CountOf(specs, state, i)
    ensures state == 0 ==> CountBefore(specs, state, i) == 0
    decreases i
  {
    if i > 0 { CountsAdd(specs, state, i - 1); }
  }

  lemma {:induction false} CountAll(specs: seq<Rule>, numStates: nat, i: nat)
    requires i <= |specs| && forall k :: 0 <= k < |specs| ==> specs[k].baseState < numStates
    ensures CountBefore(specs, numStates, i) == i
    decreases i
  {
    if i > 0 { CountAll(specs, numStates, i - 1); }
  }

  lemma {:induction false} ArgumentsCounted(specs: seq<Rule>, state: nat, i: nat)
    requires i <= |specs|
    ensures |ArgumentsOf(specs, state, i)| + CountOf(specs, state, i) == CountOf(specs, state, |specs|)
    ensures forall k :: k in ArgumentsOf(specs, state, i) ==> i <= k < |specs| && specs[k].baseState == state
    decreases |specs| - i
  {
    if i < |specs| { ArgumentsCounted(specs, state, i + 1); }
  }

  lemma {:induction false} CountMonotone(specs: seq<Rule>, s: nat, t: nat, i: nat)
    requires s <= t && i <= |specs|
    ensures CountBefore(specs, s, i) <= CountBefore(specs, t, i)
    decreases i
  {
    if i > 0 { CountMonotone(specs, s, t, i - 1); }
  }

  /** The arguments of a state from i on are in place, just before the place where the state ends. */
  ghost predicate Placed(specs: seq<Rule>, bases: seq<nat>, order: seq<nat>, s: int, i: nat) {
    0 <= s < |bases| - 1 && i <= |specs| ==>
      var end := CountBefore(specs, s + 1, |specs|);
      && end <= |order| && bases[s] + |ArgumentsOf(specs, s, i)| == end
      && order[bases[s]..end] == ArgumentsOf(specs, s, i)
  }

  ghost predicate AllPlaced(specs: seq<Rule>, bases: seq<nat>, order: seq<nat>, i: nat) {
    forall s :: Placed(specs, bases, order, s, i)
  }

  /** Placing one more argument, from the back. */
  lemma PlaceOne(specs: seq<Rule>, bases: seq<nat>, order: seq<nat>, i: nat)
    requires i < |specs| && |order| == |specs| && specs[i].baseState < |bases| - 1
    requires AllPlaced(specs, bases, order, i + 1)
    ensures var b := specs[i].baseState;
            && 0 < bases[b] <= |order|
            && AllPlaced(specs, bases[b := bases[b] - 1], order[bases[b] - 1 := i], i)
  {
    var b := specs[i].baseState;
    var next := i + 1;
    assert Placed(specs, bases, order, b, next);
    ArgumentsCounted(specs, b, next);
    CountsAdd(specs, b, |specs|);
    assert CountOf(specs, b, next) == CountOf(specs, b, i) + 1;
    assert CountBefore(specs, b, |specs|) < bases[b];
    var bases', order' := bases[b := bases[b] - 1], order[bases[b] - 1 := i];
    forall s ensures Placed(specs, bases', order', s, i) {
      if 0 <= s < |bases| - 1 {
        assert Placed(specs, bases, order, s, next);
        var end := CountBefore(specs, s + 1, |specs|);
        if s == b {
          assert order'[bases'[b]..end] == [i] + order[bases[b]..end];
        } else {
          ArgumentsCounted(specs, s, next);
          CountsAdd(specs, s, |specs|);
          CountMonotone(specs, if s < b then s + 1 else b + 1, if s < b then b else s, |specs|);
          assert order'[bases[s]..end] == order[bases[s]..end];
        }
      }
    }
  }

  lemma NothingPlaced(specs: seq<Rule>, limits: seq<nat>, order: seq<nat>)
    requires |order| == |specs| && limits != []
    requires forall s :: 0 <= s < |limits| ==> limits[s] == CountBefore(specs, s + 1, |specs|)
    requires forall k :: 0 <= k < |specs| ==> specs[k].baseState < |limits| - 1
    ensures AllPlaced(specs, limits, order, |specs|)
  {
    var n := |specs|;
    forall s ensures Placed(specs, limits, order, s, n) {
      if 0 <= s < |limits| - 1 {
        CountMonotone(specs, s + 1, |limits| - 1, n);
        CountAll(specs, |limits| - 1, n);
      }
    }
  }

  /** Where each state ends. */
  method CountLimits(specs: seq<Rule>, numStates: nat) returns (limits: seq<nat>)
    requires forall k :: 0 <= k < |specs| ==> specs[k].baseState < numStates
    ensures |limits| == numStates + 1
    ensures forall s :: 0 <= s <= numStates ==> limits[s] == CountBefore(specs, s + 1, |specs|)
  {
    limits := seq(numStates + 1, _ => 0);
    for i := 0 to |specs|
      invariant |limits| == numStates + 1
      invariant forall s :: 0 <= s <= numStates ==> limits[s] == CountOf(specs, s, i)
    {
      limits := limits[specs[i].baseState := limits[specs[i].baseState] + 1];
    }
    CountsAdd(specs, 0, |specs|);
    for i := 1 to numStates + 1
      invariant |limits| == numStates + 1
      invariant forall s :: 0 <= s < i ==> limits[s] == CountBefore(specs, s + 1, |specs|)
      invariant forall s :: i <= s <= numStates ==> limits[s] == CountOf(specs, s, |specs|)
    {
      CountsAdd(specs, i, |specs|);
      limits := limits[i := limits[i] + limits[i - 1]];
    }
  }

  lemma {:induction false} NoneBeyond(specs: seq<Rule>, state: nat, i: nat)
    requires i <= |specs| && forall k :: 0 <= k < |specs| ==> specs[k].baseState < state
    ensures CountOf(specs, state, i) == 0
    decreases i
  {
    if i > 0 { NoneBeyond(specs, state, i - 1); }
  }

  /** The slice of a state lists its arguments, all of them and in the order in which they were given. */
  ghost predicate StateSlice(specs: seq<Rule>, bases: seq<nat>, order: seq<nat>, s: int) {
    0 <= s < |bases| - 1 ==>
      bases[s] <= bases[s + 1] <= |order| && order[bases[s]..bases[s + 1]] == ArgumentsOf(specs, s, 0)
  }

  lemma BaseReached(specs: seq<Rule>, bases: seq<nat>, order: seq<nat>, s: nat)
    requires s < |bases| - 1 && |order| == |specs| && Placed(specs, bases, order, s, 0)
    ensures bases[s] == CountBefore(specs, s, |specs|)
  {
    ArgumentsCounted(specs, s, 0);
    CountsAdd(specs, s, |specs|);
  }

  lemma AllSlices(specs: seq<Rule>, bases: seq<nat>, order: seq<nat>)
    requires |bases| > 0 && |order| == |specs| && AllPlaced(specs, bases, order, 0)
    requires forall k :: 0 <= k < |specs| ==> specs[k].baseState < |bases| - 1
    requires bases[|bases| - 1] == |specs|
    ensures forall s :: StateSlice(specs, bases, order, s)
    ensures forall s :: 0 <= s < |bases| ==> bases[s] == CountBefore(specs, s, |specs|)
  {
    CountAll(specs, |bases| - 1, |specs|);
    forall s | 0 <= s < |bases| ensures bases[s] == CountBefore(specs, s, |specs|) {
      if s < |bases| - 1 {
        assert Placed(specs, bases, order, s, 0);
        BaseReached(specs, bases, order, s);
      }
    }
    forall s ensures StateSlice(specs, bases, order, s) {
      assert Placed(specs, bases, order, s, 0);
    }
  }

  /** The arguments in the order of their states, and where each state starts. */
  method OrderArguments(specs: seq<Rule>, numStates: nat) returns (order: seq<nat>, bases: seq<nat>)
    requires forall k :: 0 <= k < |specs| ==> specs[k].baseState < numStates
    ensures |order| == |specs| && |bases| == numStates + 1
    ensures forall s :: StateSlice(specs, bases, order, s)
    ensures forall s :: 0 <= s < |bases| ==> bases[s] == CountBefore(specs, s, |specs|)
  {
    bases := CountLimits(specs, numStates);
    order := seq(|specs|, _ => 0);
    NothingPlaced(specs, bases, order);
    CountAll(specs, numStates, |specs|);
    CountsAdd(specs, numStates, |specs|);
    NoneBeyond(specs, numStates, |specs|);
    var i: nat := |specs|;
    while i > 0
      invariant i <= |specs| && |order| == |specs| && |bases| == numStates + 1 && bases[numStates] == |specs|
      invariant AllPlaced(specs, bases, order, i)
    {
      i := i - 1;
      PlaceOne(specs, bases, order, i);
      var b := specs[i].baseState;
      order := order[bases[b] - 1 := i];
      bases := bases[b := bases[b] - 1];
    }
    AllSlices(specs, bases, order);
  }

  /** The state whose slice a rule index falls in. */
  lemma {:induction false} StateAt(specs: seq<Rule>, numStates: nat, r: nat) returns (s: nat)
    requires r < CountBefore(specs, numStates, |specs|)
    ensures s < numStates && CountBefore(specs, s, |specs|) <= r < CountBefore(specs, s + 1, |specs|)
    decreases numStates
  {
    if numStates == 0 {
      CountsAdd(specs, 0, |specs|);
      assert false;
    } else if CountBefore(specs, numStates - 1, |specs|) <= r {
      s := numStates - 1;
    } else {
      s := StateAt(specs, numStates - 1, r);
    }
  }

  /** The rules in that order are grouped as the walk over them requires, and those of a state keep their order. */
  method GroupRules(specs: seq<Rule>, numStates: nat) returns (rules: seq<Rule>, stateToBase: seq<nat>, order: seq<nat>)
    requires numStates > 0
    requires forall k :: 0 <= k < |specs| ==> specs[k].baseState < numStates && specs[k].newState < numStates
    ensures |rules| == |order| == |specs| && |stateToBase| == numStates + 1 && Grouped(rules, stateToBase)
    ensures forall r :: 0 <= r < |rules| ==> order[r] < |specs| && rules[r] == specs[order[r]]
    ensures forall s :: StateSlice(specs, stateToBase, order, s)
    ensures forall j: nat, k: nat :: Stable(rules, order, j, k)
    ensures forall a :: 0 <= a < |specs| ==> a in order
    ensures rules != [] && rules[0].baseState == 0 ==> 0 < stateToBase[1]
  {
    order, stateToBase := OrderArguments(specs, numStates);
    CountAll(specs, numStates, |specs|);
    CountsAdd(specs, 0, |specs|);
    AllInSlices(specs, numStates, stateToBase, order);
    rules := seq(|order|, r requires 0 <= r < |order| && order[r] < |specs| => specs[order[r]]);
    SlicesGroup(specs, rules, stateToBase);
    StableAndComplete(specs, stateToBase, order, rules);
  }

  predicate InStateSlice(stateToBase: seq<nat>, s: nat, r: nat) {
    s + 1 < |stateToBase| && stateToBase[s] <= r < stateToBase[s + 1]
  }

  /** Each place of the order falls in the slice of the state of the rule there. */
  lemma AllInSlices(specs: seq<Rule>, numStates: nat, bases: seq<nat>, order: seq<nat>)
    requires forall k :: 0 <= k < |specs| ==> specs[k].baseState < numStates
    requires |order| == |specs| && |bases| == numStates + 1 && forall s :: StateSlice(specs, bases, order, s)
    requires forall s :: 0 <= s < |bases| ==> bases[s] == CountBefore(specs, s, |specs|)
    ensures forall r :: 0 <= r < |order| ==>
              order[r] < |specs| && InStateSlice(bases, specs[order[r]].baseState, r)
  {
    CountAll(specs, numStates, |specs|);
    forall r | 0 <= r < |order| ensures order[r] < |specs| && InStateSlice(bases, specs[order[r]].baseState, r) {
      var s := StateAt(specs, numStates, r);
      assert bases[s + 1] == CountBefore(specs, s + 1, |specs|);
      SliceHolds(specs, bases, order, s, r);
    }
  }

  lemma SliceHolds(specs: seq<Rule>, bases: seq<nat>, order: seq<nat>, s: nat, r: nat)
    requires StateSlice(specs, bases, order, s) && InStateSlice(bases, s, r)
    ensures r < |order| && order[r] < |specs| && specs[order[r]].baseState == s
  {
    ArgumentsCounted(specs, s, 0);
    assert ArgumentsOf(specs, s, 0)[r - bases[s]] == order[r];
    assert order[r] in ArgumentsOf(specs, s, 0);
  }

  ghost predicate Ascending(s: seq<nat>) {
    forall j, k :: 0 <= j < k < |s| ==> s[j] < s[k]
  }

  lemma {:induction false} ArgumentsIncrease(specs: seq<Rule>, state: nat, i: nat)
    requires i <= |specs|
    ensures Ascending(ArgumentsOf(specs, state, i))
    ensures forall a :: i <= a < |specs| && specs[a].baseState == state ==> a in ArgumentsOf(specs, state, i)
    decreases |specs| - i
  {
    if i < |specs| {
      ArgumentsIncrease(specs, state, i + 1);
      ArgumentsCounted(specs, state, i + 1);
      var rest := ArgumentsOf(specs, state, i + 1);
      forall k | 0 <= k < |rest| ensures i < rest[k] { assert rest[k] in rest; }
    }
  }

  /** Rules of one state are in the order of their arguments. */
  ghost predicate Stable(rules: seq<Rule>, order: seq<nat>, j: nat, k: nat) {
    j < k < |rules| && k < |order| && rules[j].baseState == rules[k].baseState ==> order[j] < order[k]
  }

  lemma SlicesAreStable(specs: seq<Rule>, bases: seq<nat>, order: seq<nat>, rules: seq<Rule>, j: nat, k: nat)
    requires |rules| == |order| && Grouped(rules, bases) && forall s :: StateSlice(specs, bases, order, s)
    ensures Stable(rules, order, j, k)
  {
    if j < k < |rules| && rules[j].baseState == rules[k].baseState {
      var s := rules[j].baseState;
      ArgumentsIncrease(specs, s, 0);
      assert StateSlice(specs, bases, order, s);
      assert ArgumentsOf(specs, s, 0)[j - bases[s]] == order[j] && ArgumentsOf(specs, s, 0)[k - bases[s]] == order[k];
    }
  }

  lemma NoneIsMissing(specs: seq<Rule>, bases: seq<nat>, order: seq<nat>, a: nat)
    requires a < |specs| && specs[a].baseState + 1 < |bases| && StateSlice(specs, bases, order, specs[a].baseState)
    ensures a in order
  {
    var s := specs[a].baseState;
    ArgumentsIncrease(specs, s, 0);
    var k :| 0 <= k < |ArgumentsOf(specs, s, 0)| && ArgumentsOf(specs, s, 0)[k] == a;
    assert order[bases[s] + k] == a;
  }

  lemma StableAndComplete(specs: seq<Rule>, bases: seq<nat>, order: seq<nat>, rules: seq<Rule>)
    requires |rules| == |order| && Grouped(rules, bases) && forall s :: StateSlice(specs, bases, order, s)
    requires forall a :: 0 <= a < |specs| ==> specs[a].baseState + 1 < |bases|
    ensures forall j: nat, k: nat :: Stable(rules, order, j, k)
    ensures forall a :: 0 <= a < |specs| ==> a in order
  {
    forall j: nat, k: nat ensures Stable(rules, order, j, k) {
      SlicesAreStable(specs, bases, order, rules, j, k);
    }
    forall a | 0 <= a < |specs| ensures a in order { NoneIsMissing(specs, bases, order, a); }
  }

  lemma SlicesGroup(specs: seq<Rule>, rules: seq<Rule>, bases: seq<nat>)
    requires |bases| > 1 && |rules| == |specs| && bases[0] == 0 && bases[|bases| - 1] == |specs|
    requires forall s :: 0 <= s < |bases| ==> bases[s] == CountBefore(specs, s, |specs|)
    requires forall r :: 0 <= r < |rules| ==>
               rules[r].newState + 1 < |bases| && InStateSlice(bases, rules[r].baseState, r)
    ensures Grouped(rules, bases)
  {
    forall s, t | 0 <= s < t < |bases| ensures bases[s] <= bases[t] {
      CountMonotone(specs, s, t, |specs|);
    }
    forall s, r | 0 <= s < |bases| - 1 && bases[s] <= r < bases[s + 1] && r < |rules| ensures rules[r].baseState == s {
      assert InStateSlice(bases, rules[r].baseState, r);
    }
  }
}

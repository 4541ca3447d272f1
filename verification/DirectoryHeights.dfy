/** The nesting heights of wrappers, which the levels are meant to be, and why tight levels are. */
module DirectoryHeights {
  import opened AllocationDirectory
  import opened DirectorySteps

  /** 0 if no wrapper lies inside w, otherwise one more than the greatest height of those that do. */
  ghost function Height(al: seq<Allocation>, w: nat): nat
    requires w < |al|
    decreases |al| - w, |al| - w
  {
    HeightFrom(al, w, w + 1)
  }

  ghost function HeightFrom(al: seq<Allocation>, w: nat, j: nat): nat
    requires w < j <= |al|
    decreases |al| - w, |al| - j
  {
    if j == |al| then 0
    else
      var rest := HeightFrom(al, w, j + 1);
      if al[j].wrapper && Inside(al, j, w) && rest < 1 + Height(al, j) then 1 + Height(al, j) else rest
  }

  lemma {:induction false} HeightBound(al: seq<Allocation>, w: nat, j: nat, bound: nat)
    requires w < j <= |al|
    requires forall q :: j <= q < |al| && al[q].wrapper && Inside(al, q, w) ==> Height(al, q) < bound
    ensures HeightFrom(al, w, j) <= bound
    decreases |al| - j
  {
    if j < |al| { HeightBound(al, w, j + 1, bound); }
  }

  lemma {:induction false} HeightReached(al: seq<Allocation>, w: nat, j: nat, q: nat)
    requires w < j <= q < |al| && al[q].wrapper && Inside(al, q, w)
    ensures Height(al, q) < HeightFrom(al, w, j)
    decreases |al| - j
  {
    if j < q { HeightReached(al, w, j + 1, q); }
  }

  lemma NoneInsideWithin(al: seq<Allocation>, levels: seq<seq<nat>>, w: nat, q: nat)
    requires levels != [] && LevelsOk(al, levels) && w in levels[0] && q in Members(levels)
    ensures !Inside(al, q, w)
  {
    var p :| 0 <= p < |levels[0]| && levels[0][p] == w;
    if q in Elements(levels[0]) {
      var r :| 0 <= r < |levels[0]| && levels[0][r] == q;
    } else {
      assert q in Members(levels[1..]);
    }
  }

  ghost predicate WrapperOfHeight(al: seq<Allocation>, w: int, h: int) {
    0 <= w < |al| && al[w].wrapper && Height(al, w) == h
  }

  ghost predicate HasWrapperInside(al: seq<Allocation>, w: int, h: int) {
    exists q :: Inside(al, q, w) && WrapperOfHeight(al, q, h)
  }

  /** A wrapper that is not filed on these levels is lower than k. */
  ghost predicate LowerIfUnfiled(al: seq<Allocation>, levels: seq<seq<nat>>, k: nat, q: int) {
    0 <= q < |al| && al[q].wrapper && q !in Members(levels) ==> Height(al, q) < k
  }

  /** A wrapper of the first level is not higher than k if those that are not filed are lower than k. */
  lemma LevelBounds(al: seq<Allocation>, levels: seq<seq<nat>>, k: nat, w: nat)
    requires LevelsOk(al, levels) && levels != [] && w in levels[0] && w < |al|
    requires forall q :: LowerIfUnfiled(al, levels, k, q)
    ensures Height(al, w) <= k
  {
    forall q | w + 1 <= q < |al| && al[q].wrapper && Inside(al, q, w) ensures Height(al, q) < k {
      assert LowerIfUnfiled(al, levels, k, q);
      if q in Members(levels) { NoneInsideWithin(al, levels, w, q); }
    }
    HeightBound(al, w, w + 1, k);
  }

  lemma HeightIs(al: seq<Allocation>, w: nat, k: nat)
    requires w < |al| && al[w].wrapper && Height(al, w) <= k
    requires k > 0 ==> HasWrapperInside(al, w, k - 1)
    ensures WrapperOfHeight(al, w, k)
  {
    if k > 0 {
      var q :| Inside(al, q, w) && WrapperOfHeight(al, q, k - 1);
      HeightReached(al, w, w + 1, q);
    }
  }

  lemma LevelHasHeight(al: seq<Allocation>, levels: seq<seq<nat>>, k: nat, w: nat)
    requires LevelsOk(al, levels) && levels != [] && w in levels[0]
    requires forall q :: LowerIfUnfiled(al, levels, k, q)
    requires k > 0 && w < |al| ==> HasWrapperInside(al, w, k - 1)
    ensures WrapperOfHeight(al, w, k)
  {
    assert LevelOk(al, levels[0]);
    LevelBounds(al, levels, k, w);
    HeightIs(al, w, k);
  }

  lemma NextLevelHasInside(al: seq<Allocation>, levels: seq<seq<nat>>, k: nat, w: nat)
    requires LevelsTight(al, levels) && |levels| > 1 && w in levels[1]
    requires forall q :: q in levels[0] ==> WrapperOfHeight(al, q, k)
    ensures HasWrapperInside(al, w, k)
  {
    assert HasInside(al, w, levels[0]);
    var j :| j in levels[0] && Inside(al, j, w);
    assert WrapperOfHeight(al, j, k);
  }

  lemma {:induction false} LevelsAreHeightsFrom(al: seq<Allocation>, levels: seq<seq<nat>>, k: nat, m: nat, w: nat)
    requires LevelsOk(al, levels) && LevelsTight(al, levels)
    requires forall q :: LowerIfUnfiled(al, levels, k, q)
    requires levels != [] && k > 0 ==> forall v :: v in levels[0] ==> HasWrapperInside(al, v, k - 1)
    requires m < |levels| && w in levels[m]
    ensures WrapperOfHeight(al, w, k + m)
    decreases |levels|
  {
    forall v | v in levels[0] ensures WrapperOfHeight(al, v, k) {
      LevelHasHeight(al, levels, k, v);
    }
    if m > 0 {
      var rest, next := levels[1..], k + 1;
      forall v | v in rest[0] ensures HasWrapperInside(al, v, k) {
        NextLevelHasInside(al, levels, k, v);
      }
      forall q ensures LowerIfUnfiled(al, rest, next, q) {
        assert LowerIfUnfiled(al, levels, k, q);
      }
      assert levels[m] == rest[m - 1];
      LevelsAreHeightsFrom(al, rest, next, m - 1, w);
    }
  }

  lemma {:induction false} MemberLevel(levels: seq<seq<nat>>, w: nat) returns (m: nat)
    requires w in Members(levels)
    ensures m < |levels| && w in levels[m]
    decreases |levels|
  {
    if w in levels[0] {
      m := 0;
    } else {
      m := MemberLevel(levels[1..], w);
      m := m + 1;
    }
  }

  lemma {:induction false} LevelOkAt(al: seq<Allocation>, levels: seq<seq<nat>>, k: nat)
    requires LevelsOk(al, levels) && k < |levels|
    ensures LevelOk(al, levels[k])
    decreases k
  {
    if k > 0 {
      LevelOkAt(al, levels[1..], k - 1);
      assert levels[k] == levels[1..][k - 1];
    }
  }

  function Used(address: nat, size: nat): Offer {
    Offer(0, Item(address, size, true))
  }

  function Outer(wrapper: bool): Allocation {
    Allocation(0, 10, true, 0, wrapper, false)
  }

  lemma NestedPair(s: State)
    requires s == Built([Used(0, 10)] + [Used(0, 5)])
    ensures s.allocations == [Outer(true), Allocation(0, 5, true, 0, false, true)]
    ensures s.limits == [Open(0, 10), Open(1, 5)] && s.wrappers == [[0]]
  {
    var a, b := Used(0, 10), Used(0, 5);
    BuiltPush([], a);
    BuiltPush([a], b);
    assert [] + [a] == [a];
    var s1 := Step(EMPTY, a);
    assert s1.allocations == [Outer(false)] && s1.limits == [Open(0, 10)] && s1.wrappers == [];
    assert Close(s1.limits, 0, 5) == Fits(s1.limits);
  }

  lemma NextToPair(s2: State, s: State)
    requires s2.allocations == [Outer(true), Allocation(0, 5, true, 0, false, true)]
    requires s2.limits == [Open(0, 10), Open(1, 5)] && s2.wrappers == [[0]]
    requires Sound(s2) && s == Step(s2, Used(10, 2))
    ensures s.allocations == s2.allocations + [Allocation(10, 2, true, 0, false, false)]
    ensures s.limits == [Open(2, 12)] && s.wrappers == [[0]]
  {
    assert Init(s2.limits) == [Open(0, 10)] && Init([Open(0, 10)]) == [];
    assert Close([Open(0, 10)], 10, 12) == Close([], 10, 12) == Fits([]);
    assert Close(s2.limits, 10, 12) == Fits([]);
  }

  lemma EmptyAtEdge(s3: State, s: State)
    requires |s3.allocations| == 3 && s3.allocations[0] == Outer(true)
    requires s3.allocations[2] == Allocation(10, 2, true, 0, false, false)
    requires s3.limits == [Open(2, 12)] && s3.wrappers == [[0]]
    requires Sound(s3) && s == Step(s3, Used(10, 0))
    ensures |s.allocations| == 4 && s.allocations[0] == Outer(true) && s.wrappers == [[2], [0]]
    ensures s.allocations[2].address == s.allocations[3].address == 10
  {
    var al := MarkWrapper(s3.allocations, 2);
    IndexedStays(s3.allocations, al, s3.wrappers);
    assert Close(s3.limits, 10, 10) == Fits(s3.limits);
    assert s3.wrappers[1..] == [] && Init(s3.wrappers[0]) == [];
    assert Init(s3.wrappers[0]) + [2] == [2];
    assert Carry(al, s3.wrappers, 2, 10) == [[2]] + Carry(al, [], 0, 10);
  }

  /** The allocation [0,10) wraps no wrapper, yet an empty allocation at 10 moves it up a level. */
  lemma LevelsNeedPositiveSizes()
    ensures var offers := [Used(0, 10)] + [Used(0, 5)] + [Used(10, 2)] + [Used(10, 0)];
            var s := Built(offers);
            && InAddressOrder(offers) && |s.allocations| == 4 && s.allocations[0].wrapper
            && s.wrappers == [[2], [0]] && Height(s.allocations, 0) == 0
  {
    var two := [Used(0, 10)] + [Used(0, 5)];
    var three := two + [Used(10, 2)];
    NestedPair(Built(two));
    BuiltPush(two, Used(10, 2));
    NextToPair(Built(two), Built(three));
    BuiltPush(three, Used(10, 0));
    EmptyAtEdge(Built(three), Built(three + [Used(10, 0)]));
    var al := Built(three + [Used(10, 0)]).allocations;
    BuiltKeeps(three + [Used(10, 0)]);
    assert !al[1].wrapper;
    HeightBound(al, 0, 1, 0);
  }
}

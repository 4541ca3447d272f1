/** Which offers spoil the levels: exactly when every wrapper is filed at its nesting height. */
module DirectoryExactness {
  import opened AllocationDirectory
  import opened DirectoryLevels
  import opened DirectorySteps
  import opened DirectoryHeights

  ghost predicate ExactAt(al: seq<Allocation>, level: seq<nat>, h: nat) {
    forall w :: w in level <==> WrapperOfHeight(al, w, h)
  }

  /** Each level holds exactly the wrappers of its height. */
  ghost predicate LevelsExact(s: State) {
    forall m :: 0 <= m < |s.wrappers| ==> ExactAt(s.allocations, s.wrappers[m], m)
  }

  // ---------------------------------------------------------------------------------------------
  // Levels are exact if and only if they are tight
  // ---------------------------------------------------------------------------------------------

  lemma {:induction false} HeightAttained(al: seq<Allocation>, w: nat, j: nat, h: nat)
    requires w < j <= |al| && HeightFrom(al, w, j) == h + 1
    ensures HasWrapperInside(al, w, h)
    decreases |al| - j
  {
    if al[j].wrapper && Inside(al, j, w) && Height(al, j) == h {
      assert WrapperOfHeight(al, j, h);
    } else {
      HeightAttained(al, w, j + 1, h);
    }
  }

  lemma {:induction false} ExactIsTight(al: seq<Allocation>, levels: seq<seq<nat>>, h: nat)
    requires forall m :: 0 <= m < |levels| ==> ExactAt(al, levels[m], h + m)
    ensures LevelsTight(al, levels)
    decreases |levels|
  {
    if |levels| > 1 {
      var rest := levels[1..];
      forall m | 0 <= m < |rest| ensures ExactAt(al, rest[m], h + 1 + m) {
        assert rest[m] == levels[m + 1];
      }
      ExactIsTight(al, rest, h + 1);
      assert ExactAt(al, levels[0], h + 0) && ExactAt(al, levels[1], h + 1);
      forall w | w in levels[1] ensures HasInside(al, w, levels[0]) {
        assert WrapperOfHeight(al, w, h + 1);
        HeightAttained(al, w, w + 1, h);
        var q :| Inside(al, q, w) && WrapperOfHeight(al, q, h);
        assert q in levels[0];
      }
    }
  }

  lemma TightIsExact(s: State, last: nat)
    requires Invariant(s, last) && LevelsTight(s.allocations, s.wrappers)
    ensures LevelsExact(s)
  {
    var al, levels := s.allocations, s.wrappers;
    forall q ensures LowerIfUnfiled(al, levels, 0, q) {}
    forall m, w | 0 <= m < |levels| ensures w in levels[m] <==> WrapperOfHeight(al, w, m) {
      if w in levels[m] {
        LevelsAreHeightsFrom(al, levels, 0, m, w);
      } else if WrapperOfHeight(al, w, m) {
        var other := MemberLevel(levels, w);
        LevelsAreHeightsFrom(al, levels, 0, other, w);
      }
    }
  }

  // ---------------------------------------------------------------------------------------------
  // One offer
  // ---------------------------------------------------------------------------------------------

  /**
   An empty offer misfiles a wrapper if it starts where the allocation that it turns into a wrapper starts, and
   where a wrapper ends that the cascade displaces.
   */
  ghost predicate Misfiles(s: State, o: Offer)
    requires Sound(s)
  {
    var fit, a := Close(s.limits, o.item.address, o.item.Limit()), o.item.address;
    && fit.Fits? && fit.open != [] && o.item.size == 0
    && var x := s.allocations[Last(fit.open).index];
       !x.wrapper && x.address == a && EndsAmong(s.allocations, Displaced(s.allocations, s.wrappers, a), a)
  }

  lemma {:induction false} DisplacedSame(al: seq<Allocation>, al': seq<Allocation>, levels: seq<seq<nat>>, limit: nat)
    requires Extends(al, al') && Indexed(al, levels) && Indexed(al', levels)
    ensures Displaced(al', levels, limit) == Displaced(al, levels, limit)
    decreases |levels|
  {
    if levels != [] { DisplacedSame(al, al', levels[1..], limit); }
  }

  lemma {:induction false} TightStays(al: seq<Allocation>, al': seq<Allocation>, levels: seq<seq<nat>>)
    requires Extends(al, al') && LevelsTight(al, levels)
    ensures LevelsTight(al', levels)
    decreases |levels|
  {
    if |levels| > 1 {
      TightStays(al, al', levels[1..]);
      forall w | w in levels[1]
        ensures HasInside(al', w, levels[0])
      {
        assert HasInside(al, w, levels[0]);
        var j :| j in levels[0] && Inside(al, j, w);
        assert Inside(al', j, w);
      }
    }
  }

  /** Filing a new wrapper keeps levels tight unless the offer misfiles. */
  lemma FilingStaysTight(al: seq<Allocation>, levels: seq<seq<nat>>, a: nat, limit: nat)
    requires al != [] && Ordered(al) && Laminar(al) && LevelsOk(al, levels) && LevelsTight(al, levels)
    requires !Last(al).wrapper && Last(al).address <= a <= limit <= Last(al).Limit()
    requires Indexed(al, levels) && Indexed(MarkWrapper(al, |al| - 1), levels)
    requires a == limit == Last(al).address ==> !EndsAmong(al, Displaced(al, levels, a), a)
    ensures var marked := MarkWrapper(al, |al| - 1);
            LevelsTight(marked, Carry(marked, levels, |al| - 1, limit))
  {
    var x := |al| - 1;
    var marked := MarkWrapper(al, x);
    MarkKeepsPlaces(al, x);
    OkIndexed(al, levels);
    LevelsStay(al, marked, levels);
    TightStays(al, marked, levels);
    DisplacedSame(al, marked, levels, limit);
    assert forall m :: m in Members(levels) ==> m < x;
    CarryTight(marked, levels, x, limit);
  }

  lemma TightUnlessMisfiled(s: State, last: nat, o: Offer)
    requires Invariant(s, last) && last <= o.item.address && Sound(s)
    requires LevelsTight(s.allocations, s.wrappers) && !Misfiles(s, o)
    ensures LevelsTight(Step(s, o).allocations, Step(s, o).wrappers)
  {
    var al, fit := s.allocations, Close(s.limits, o.item.address, o.item.Limit());
    CloseFacts(s.limits, o.item.address, o.item.Limit());
    if fit.Crossing? {
    } else if fit.open != [] && !al[Last(fit.open).index].wrapper {
      NewWrapper(al, s.limits, fit.open, last, o);
      var marked := MarkWrapper(al, |al| - 1);
      IndexedStays(al, marked, s.wrappers);
      FilingStaysTight(al, s.wrappers, o.item.address, o.item.Limit());
      var filed := Carry(marked, s.wrappers, |al| - 1, o.item.Limit());
      TightStays(marked, marked + [Accept(o, true)], filed);
    } else {
      TightStays(al, al + [Accept(o, fit.open != [])], s.wrappers);
    }
  }

  // ---------------------------------------------------------------------------------------------
  // A misfiled wrapper stays misfiled
  // ---------------------------------------------------------------------------------------------

  /** The wrapper w is filed too high, and nothing can be put inside of it any more. */
  ghost predicate TooHigh(s: State, m: nat, w: nat) {
    && m < |s.wrappers| && w in s.wrappers[m] && w < |s.allocations|
    && Height(s.allocations, w) < m && s.allocations[w].Limit() <= Last(s.allocations).address
  }

  ghost predicate SomeTooHigh(s: State) {
    exists m: nat, w: nat :: TooHigh(s, m, w)
  }

  lemma TooHighIsInexact(s: State)
    requires SomeTooHigh(s)
    ensures !LevelsExact(s)
  {
    var m: nat, w: nat :| TooHigh(s, m, w);
    assert !WrapperOfHeight(s.allocations, w, m);
  }

  /** al' has no new wrapper that starts before the given address. */
  ghost predicate NoNewBefore(al: seq<Allocation>, al': seq<Allocation>, address: nat) {
    forall q :: 0 <= q < |al'| && al'[q].wrapper && al'[q].address < address ==> q < |al| && al[q].wrapper
  }

  lemma {:induction false} HeightStays(al: seq<Allocation>, al': seq<Allocation>, w: nat)
    requires Ordered(al) && Laminar(al) && Extends(al, al') && w < |al| && NoNewBefore(al, al', al[w].Limit())
    ensures Height(al', w) <= Height(al, w)
    decreases |al| - w
  {
    forall q | w + 1 <= q < |al'| && al'[q].wrapper && Inside(al', q, w) ensures Height(al', q) < Height(al, w) {
      assert Inside(al, q, w);
      Pair(al, w, q);
      HeightStays(al, al', q);
      HeightReached(al, w, w + 1, q);
    }
    HeightBound(al', w, w + 1, Height(al, w));
  }

  /** The first level of the cascade keeps all but the last wrapper, which the next level takes. */
  lemma FirstLevelCarried(al: seq<Allocation>, levels: seq<seq<nat>>, x: nat, limit: nat, w: nat)
    requires Indexed(al, levels) && levels != [] && w in levels[0] && limit <= al[Last(levels[0])].Limit()
    ensures var carried := Carry(al, levels, x, limit);
            |carried| > 1 && carried[1..] == Carry(al, levels[1..], Last(levels[0]), limit)
            && (w in carried[0] || (w == Last(levels[0]) && w in carried[1]))
  {
    var level, back := levels[0], Last(levels[0]);
    var carried := Carry(al, levels[1..], back, limit);
    CarriedFirst(al, levels[1..], back, limit);
    var whole := [Init(level) + [x]] + carried;
    assert whole[1..] == carried && carried[0][|carried[0]| - 1] == back;
    assert level == Init(level) + [back];
  }

  /** The cascade never moves a wrapper down. */
  lemma {:induction false} CarryRaises(al: seq<Allocation>, levels: seq<seq<nat>>, x: nat, limit: nat, m: nat, w: nat)
    returns (m': nat)
    requires Indexed(al, levels) && m < |levels| && w in levels[m]
    ensures m <= m' < |Carry(al, levels, x, limit)| && w in Carry(al, levels, x, limit)[m']
    decreases |levels|
  {
    var rest := levels[1..];
    assert m > 0 ==> rest[m - 1] == levels[m];
    if al[Last(levels[0])].Limit() < limit {
      m' := m;
    } else if m > 0 {
      m' := CarryRaises(al, rest, Last(levels[0]), limit, m - 1, w);
      FirstLevelCarried(al, levels, x, limit, Last(levels[0]));
      m' := m' + 1;
    } else {
      FirstLevelCarried(al, levels, x, limit, w);
      m' := if w in Carry(al, levels, x, limit)[0] then 0 else 1;
    }
  }

  /** A displaced wrapper goes up by one. */
  lemma {:induction false} DisplacedRises(al: seq<Allocation>, levels: seq<seq<nat>>, x: nat, limit: nat, w: nat)
    returns (m: nat)
    requires Indexed(al, levels) && w in Displaced(al, levels, limit)
    ensures m < |levels| && w in levels[m]
    ensures m + 1 < |Carry(al, levels, x, limit)| && w in Carry(al, levels, x, limit)[m + 1]
    decreases |levels|
  {
    var back, rest := Last(levels[0]), levels[1..];
    var carried := Carry(al, rest, back, limit);
    CarriedFirst(al, rest, back, limit);
    if w == back {
      m := 0;
      assert carried[0][|carried[0]| - 1] == back;
    } else {
      m := DisplacedRises(al, rest, back, limit, w);
      m := m + 1;
    }
  }

  /** Neither a further allocation nor a mark on a later one changes the height of a wrapper that ends before. */
  lemma HeightKept(al: seq<Allocation>, al': seq<Allocation>, w: nat)
    requires Ordered(al) && Laminar(al) && Extends(al, al') && |al'| == |al| + 1 && !al'[|al|].wrapper
    requires forall i :: 0 <= i < |al| - 1 ==> al'[i].wrapper == al[i].wrapper
    requires w < |al| && al[w].Limit() <= Last(al).address
    ensures Height(al', w) <= Height(al, w)
  {
    HeightStays(al, al', w);
  }

  /** An accepted offer adds an allocation and marks at most the one before it. */
  lemma StepGrows(s: State, last: nat, o: Offer)
    requires Invariant(s, last) && last <= o.item.address && Sound(s)
    requires Close(s.limits, o.item.address, o.item.Limit()).Fits?
    ensures var al, al' := s.allocations, Step(s, o).allocations;
            && Extends(al, al') && |al'| == |al| + 1 && !al'[|al|].wrapper && al'[|al|].address == o.item.address
            && forall i :: 0 <= i < |al| - 1 ==> al'[i].wrapper == al[i].wrapper
  {
    CloseFacts(s.limits, o.item.address, o.item.Limit());
    var open := Close(s.limits, o.item.address, o.item.Limit()).open;
    if open != [] && !s.allocations[Last(open).index].wrapper { NewWrapper(s.allocations, s.limits, open, last, o); }
  }

  /** What one offer does to the height of a wrapper that ends by the start of the last allocation. */
  lemma StepKeepsHeight(s: State, last: nat, o: Offer, w: nat)
    requires Invariant(s, last) && last <= o.item.address && Sound(s)
    requires w < |s.allocations| && s.allocations[w].Limit() <= Last(s.allocations).address
    ensures var al, al' := s.allocations, Step(s, o).allocations;
            && |al| <= |al'| && al'[w].Limit() == al[w].Limit() <= Last(al').address
            && Height(al', w) <= Height(al, w)
  {
    assert StillOpen(s.allocations, s.limits, last, |s.allocations| - 1);
    if Close(s.limits, o.item.address, o.item.Limit()).Fits? {
      StepGrows(s, last, o);
      HeightKept(s.allocations, Step(s, o).allocations, w);
    }
  }

  /** What one offer does to the level of a wrapper. */
  lemma StepRaises(s: State, o: Offer, m: nat, w: nat) returns (m': nat)
    requires Sound(s) && m < |s.wrappers| && w in s.wrappers[m]
    ensures m <= m' < |Step(s, o).wrappers| && w in Step(s, o).wrappers[m']
  {
    var al, fit := s.allocations, Close(s.limits, o.item.address, o.item.Limit());
    m' := m;
    if fit.Fits? && fit.open != [] && !al[Last(fit.open).index].wrapper {
      var x := Last(fit.open).index;
      IndexedStays(al, MarkWrapper(al, x), s.wrappers);
      m' := CarryRaises(MarkWrapper(al, x), s.wrappers, x, o.item.Limit(), m, w);
    }
  }

  lemma TooHighStays(s: State, last: nat, o: Offer)
    requires Invariant(s, last) && last <= o.item.address && Sound(s) && SomeTooHigh(s)
    ensures SomeTooHigh(Step(s, o))
  {
    var m: nat, w: nat :| TooHigh(s, m, w);
    var m' := StepRaises(s, o, m, w);
    StepKeepsHeight(s, last, o, w);
    assert TooHigh(Step(s, o), m', w);
  }

  /** A wrapper that ends at the offered address and rises by one. */
  lemma MisfiledRises(s: State, o: Offer) returns (m: nat, w: nat)
    requires Sound(s) && Misfiles(s, o)
    ensures m < |s.wrappers| && w in s.wrappers[m] && w < |s.allocations|
    ensures s.allocations[w].Limit() == o.item.address
    ensures m + 1 < |Step(s, o).wrappers| && w in Step(s, o).wrappers[m + 1]
  {
    var al, a := s.allocations, o.item.address;
    var x := Last(Close(s.limits, a, a).open).index;
    IndexedStays(al, MarkWrapper(al, x), s.wrappers);
    DisplacedSame(al, MarkWrapper(al, x), s.wrappers, a);
    w :| w in Displaced(al, s.wrappers, a) && w < |al| && al[w].Limit() == a;
    m := DisplacedRises(MarkWrapper(al, x), s.wrappers, x, a, w);
  }

  lemma MisfiledIsTooHigh(s: State, last: nat, o: Offer)
    requires Invariant(s, last) && last <= o.item.address && Sound(s) && LevelsExact(s) && Misfiles(s, o)
    ensures SomeTooHigh(Step(s, o))
  {
    var m, w := MisfiledRises(s, o);
    assert ExactAt(s.allocations, s.wrappers[m], m) && WrapperOfHeight(s.allocations, w, m);
    CloseFacts(s.limits, o.item.address, o.item.Limit());
    NewWrapper(s.allocations, s.limits, Close(s.limits, o.item.address, o.item.Limit()).open, last, o);
    StepKeepsHeight(s, last, o, w);
    assert TooHigh(Step(s, o), m + 1, w);
  }

  // ---------------------------------------------------------------------------------------------
  // When levels are exact
  // ---------------------------------------------------------------------------------------------

  /** One offer in order of address leaves exact levels exact if and only if it does not misfile. */
  lemma ExactStaysIff(s: State, last: nat, o: Offer)
    requires Invariant(s, last) && last <= o.item.address && Sound(s) && LevelsExact(s)
    ensures LevelsExact(Step(s, o)) <==> !Misfiles(s, o)
  {
    StepKeeps(s, last, o);
    if Misfiles(s, o) {
      MisfiledIsTooHigh(s, last, o);
      TooHighIsInexact(Step(s, o));
    } else {
      ExactIsTight(s.allocations, s.wrappers, 0);
      TightUnlessMisfiled(s, last, o);
      TightIsExact(Step(s, o), o.item.address);
    }
  }

  ghost predicate NeverMisfiles(offers: seq<Offer>)
    decreases |offers|
  {
    offers != [] ==> NeverMisfiles(Init(offers)) && !Misfiles(Built(Init(offers)), Last(offers))
  }

  lemma {:induction false} BuiltExactly(offers: seq<Offer>)
    requires InAddressOrder(offers)
    ensures NeverMisfiles(offers) ==> LevelsExact(Built(offers))
    ensures !NeverMisfiles(offers) ==> SomeTooHigh(Built(offers))
    decreases |offers|
  {
    if offers != [] {
      var before := Init(offers);
      BuiltExactly(before);
      BuiltKeeps(before);
      if NeverMisfiles(offers) {
        ExactStaysIff(Built(before), LastAddress(before), Last(offers));
      } else if NeverMisfiles(before) {
        MisfiledIsTooHigh(Built(before), LastAddress(before), Last(offers));
      } else {
        TooHighStays(Built(before), LastAddress(before), Last(offers));
      }
    }
  }

  /** Every level holds exactly the wrappers of its nesting height if and only if no offer has misfiled one. */
  lemma LevelsExactIff(offers: seq<Offer>)
    requires InAddressOrder(offers)
    ensures LevelsExact(Built(offers)) <==> NeverMisfiles(offers)
  {
    BuiltExactly(offers);
    if SomeTooHigh(Built(offers)) { TooHighIsInexact(Built(offers)); }
  }

  /** Only empty allocations misfile. */
  lemma {:induction false} PositiveNeverMisfiles(offers: seq<Offer>)
    requires AllPositive(Built(offers).allocations)
    ensures NeverMisfiles(offers)
    decreases |offers|
  {
    if offers != [] {
      var before, o := Built(Init(offers)), Last(offers);
      forall i | 0 <= i < |before.allocations| ensures 0 < before.allocations[i].size {
        assert before.allocations[i].size == Built(offers).allocations[i].size;
      }
      PositiveNeverMisfiles(Init(offers));
      if Close(before.limits, o.item.address, o.item.Limit()).Fits? {
        assert Built(offers).allocations[|before.allocations|].size == o.item.size;
      }
    }
  }

  /** Then level k holds exactly the wrappers of nesting height k, in order and disjoint. */
  lemma LevelsAreHeights(offers: seq<Offer>, k: nat)
    requires InAddressOrder(offers) && NeverMisfiles(offers) && k < |Built(offers).wrappers|
    ensures var al, level := Built(offers).allocations, Built(offers).wrappers[k];
            && (forall w :: w in level <==> WrapperOfHeight(al, w, k))
            && LevelOk(al, level)
  {
    BuiltKeeps(offers);
    LevelsExactIff(offers);
    assert ExactAt(Built(offers).allocations, Built(offers).wrappers[k], k);
    LevelOkAt(Built(offers).allocations, Built(offers).wrappers, k);
  }

  /** Conversely no wrapper is higher than the levels reach. */
  lemma HeightsHaveLevels(offers: seq<Offer>, w: nat)
    requires InAddressOrder(offers) && NeverMisfiles(offers)
    requires w < |Built(offers).allocations| && Built(offers).allocations[w].wrapper
    ensures Height(Built(offers).allocations, w) < |Built(offers).wrappers|
  {
    BuiltKeeps(offers);
    LevelsExactIff(offers);
    var m := MemberLevel(Built(offers).wrappers, w);
    assert ExactAt(Built(offers).allocations, Built(offers).wrappers[m], m);
  }
}

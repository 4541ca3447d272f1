/** One offer in order of address keeps the invariant, and so does every sequence of them. */
module DirectorySteps {
  import opened AllocationDirectory
  import opened DirectoryLevels

  // ---------------------------------------------------------------------------------------------
  // One offer keeps the invariant
  // ---------------------------------------------------------------------------------------------

  lemma {:induction false} CloseFacts(limits: seq<Open>, address: nat, limit: nat)
    requires forall k, m :: EntriesNest(limits, k, m)
    ensures var f := Close(limits, address, limit);
            && (forall k :: |f.open| <= k < |limits| ==> limits[k].limit <= address)
            && (f.Crossing? ==> f.open != [] && address < Last(f.open).limit < limit)
            && (f.Fits? ==> forall k :: 0 <= k < |f.open| ==> limit <= f.open[k].limit)
    decreases |limits|
  {
    if limits != [] {
      if Last(limits).limit < limit && Last(limits).limit <= address {
        var rest := Init(limits);
        forall k, m
          ensures EntriesNest(rest, k, m)
        {
          assert EntriesNest(limits, k, m);
        }
        CloseFacts(rest, address, limit);
      } else if limit <= Last(limits).limit {
        forall k | 0 <= k < |limits|
          ensures limit <= limits[k].limit
        {
          assert EntriesNest(limits, k, |limits| - 1);
        }
      }
    }
  }

  /** al' has the allocations of al, perhaps with more of them marked as wrappers, and perhaps more. */
  ghost predicate Extends(al: seq<Allocation>, al': seq<Allocation>) {
    && |al| <= |al'|
    && forall i :: 0 <= i < |al| ==>
         && al'[i].address == al[i].address && al'[i].size == al[i].size && al'[i].wrapped == al[i].wrapped
         && (al[i].wrapper ==> al'[i].wrapper)
  }

  lemma {:induction false} LevelsStay(al: seq<Allocation>, al': seq<Allocation>, levels: seq<seq<nat>>)
    requires Extends(al, al') && LevelsOk(al, levels)
    ensures LevelsOk(al', levels)
    decreases |levels|
  {
    if levels != [] {
      LevelsStay(al, al', levels[1..]);
      OkIndexed(al, levels[1..]);
    }
  }

  /** The stack after closing: what remains still encloses, what went ended by the offered address. */
  ghost predicate Closed(limits: seq<Open>, open: seq<Open>, address: nat) {
    open <= limits && forall k :: |open| <= k < |limits| ==> limits[k].limit <= address
  }

  ghost predicate Holds(open: seq<Open>, limit: nat) {
    forall k :: 0 <= k < |open| ==> limit <= open[k].limit
  }

  /** Whatever ends after the offered address is still on the stack. */
  lemma OpenOnStack(al: seq<Allocation>, limits: seq<Open>, open: seq<Open>, last: nat, address: nat, i: nat)
    returns (k: nat)
    requires StackOk(al, limits, last) && Closed(limits, open, address) && last <= address
    requires i < |al| && address < al[i].Limit()
    ensures k < |open| && open[k].index == i && open[k].limit == al[i].Limit()
  {
    assert StillOpen(al, limits, last, i);
    k :| 0 <= k < |limits| && limits[k].index == i;
    assert EntryOk(al, limits, k);
  }

  lemma StackGrows(al: seq<Allocation>, al': seq<Allocation>, limits: seq<Open>, open: seq<Open>, last: nat, o: Offer)
    requires StackOk(al, limits, last) && last <= o.item.address
    requires Closed(limits, open, o.item.address) && Holds(open, o.item.Limit())
    requires Extends(al, al') && |al| == |al'|
    requires forall k :: 0 <= k < |open| && open[k].index < |al| ==> al'[open[k].index].wrapper
    ensures StackOk(al' + [Accept(o, open != [])], open + [Open(|al|, o.item.Limit())], o.item.address)
  {
    var grown := open + [Open(|al|, o.item.Limit())];
    var al2 := al' + [Accept(o, open != [])];
    forall k ensures EntryOk(al2, grown, k) {
      assert EntryOk(al, limits, k);
    }
    forall k, m ensures EntriesNest(grown, k, m) {
      assert EntriesNest(limits, k, m) && EntryOk(al, limits, k);
    }
    forall k, j ensures Encloses(al2, grown, k, j) {
      assert Encloses(al, limits, k, j) && EntryOk(al, limits, k);
    }
    forall i ensures StillOpen(al2, grown, o.item.address, i) {
      assert StillOpen(al, limits, last, i);
      if 0 <= i < |al| && o.item.address < al[i].Limit() {
        var k := OpenOnStack(al, limits, open, last, o.item.address, i);
        assert grown[k].index == i;
      } else if i == |al| {
        assert grown[|open|].index == i;
      }
    }
  }

  /** The allocations after an accepted offer, whatever the levels are. */
  lemma ShapeGrows(al: seq<Allocation>, al': seq<Allocation>, limits: seq<Open>, open: seq<Open>, last: nat, o: Offer)
    requires Shape(al) && StackOk(al, limits, last) && last <= o.item.address
    requires Closed(limits, open, o.item.address) && Holds(open, o.item.Limit())
    requires Extends(al, al') && |al| == |al'|
    requires forall k :: 0 <= k < |open| && open[k].index < |al| ==> al'[open[k].index].wrapper
    requires forall i :: 0 <= i < |al| && al'[i].wrapper ==> al[i].wrapper || (open != [] && i == Last(open).index)
    ensures Shape(al' + [Accept(o, open != [])])
  {
    var al2 := al' + [Accept(o, open != [])];
    forall i, j
      ensures InOrder(al2, i, j) && NestedOrDisjoint(al2, i, j) && MarkedIfInside(al2, i, j)
    {
      assert InOrder(al, i, j) && NestedOrDisjoint(al, i, j) && MarkedIfInside(al, i, j);
      assert StillOpen(al, limits, last, i);
      if j == |al| && 0 <= i < j && o.item.address < al[i].Limit() {
        var k := OpenOnStack(al, limits, open, last, o.item.address, i);
      }
    }
    forall i ensures MarkEarned(al2, i) {
      EarnedGrows(al, al', limits, open, last, o, i);
    }
  }

  lemma EarnedGrows(al: seq<Allocation>, al': seq<Allocation>, limits: seq<Open>, open: seq<Open>, last: nat,
                    o: Offer, i: int)
    requires forall m :: MarkEarned(al, m)
    requires StackOk(al, limits, last) && Closed(limits, open, o.item.address) && Holds(open, o.item.Limit())
    requires Extends(al, al') && |al| == |al'|
    requires 0 <= i < |al| && al'[i].wrapper ==> al[i].wrapper || (open != [] && i == Last(open).index)
    ensures MarkEarned(al' + [Accept(o, open != [])], i)
  {
    var al2 := al' + [Accept(o, open != [])];
    assert EntryOk(al, limits, |open| - 1) && MarkEarned(al, i);
    if 0 <= i < |al| {
      if al2[i].wrapper {
        if al[i].wrapper {
          var j :| i < j < |al| && al[j].Limit() <= al[i].Limit();
          assert al2[j].Limit() <= al2[i].Limit();
        } else {
          assert al2[|al|].Limit() <= al2[i].Limit();
        }
      }
      if al2[i].wrapped {
        var j :| 0 <= j < i && al[i].Limit() <= al[j].Limit();
        assert al2[i].Limit() <= al2[j].Limit();
      }
    } else if i == |al| && open != [] {
      assert al2[i].Limit() <= al2[Last(open).index].Limit();
    }
  }

  lemma InvariantSound(s: State, last: nat)
    requires Invariant(s, last)
    ensures Sound(s)
  {
    OkIndexed(s.allocations, s.wrappers);
    forall k | 0 <= k < |s.limits| ensures s.limits[k].index < |s.allocations| {
      assert EntryOk(s.allocations, s.limits, k);
    }
  }

  /** A crossing offer leaves everything but the stack alone. */
  lemma StackCloses(al: seq<Allocation>, limits: seq<Open>, open: seq<Open>, last: nat, address: nat)
    requires StackOk(al, limits, last) && last <= address && Closed(limits, open, address)
    ensures StackOk(al, open, address)
  {
    forall k ensures EntryOk(al, open, k) { assert EntryOk(al, limits, k); }
    forall k, m ensures EntriesNest(open, k, m) { assert EntriesNest(limits, k, m); }
    forall k, j ensures Encloses(al, open, k, j) { assert Encloses(al, limits, k, j); }
    forall i ensures StillOpen(al, open, address, i) {
      assert StillOpen(al, limits, last, i);
      if 0 <= i < |al| && address < al[i].Limit() {
        var k := OpenOnStack(al, limits, open, last, address, i);
      }
    }
  }

  /** A new wrapper is the last allocation so far and contains the offer; the rest of the stack is marked. */
  lemma NewWrapper(al: seq<Allocation>, limits: seq<Open>, open: seq<Open>, last: nat, o: Offer)
    requires StackOk(al, limits, last) && last <= o.item.address
    requires open != [] && open <= limits && Last(open).index < |al| && !al[Last(open).index].wrapper
    requires Holds(open, o.item.Limit())
    ensures Last(open).index == |al| - 1
    ensures al[|al| - 1].address <= o.item.address && o.item.Limit() <= al[|al| - 1].Limit()
  {
    assert EntryOk(al, limits, |open| - 1);
    assert StillOpen(al, limits, last, |al| - 1);
  }

  lemma RestMarked(al: seq<Allocation>, limits: seq<Open>, open: seq<Open>, last: nat)
    requires StackOk(al, limits, last) && open <= limits
    ensures forall k :: 0 <= k < |open| && open[k].index < |al| && open[k].index != |al| - 1 ==>
              al[open[k].index].wrapper
    ensures forall k :: 0 <= k < |open| && k != |open| - 1 && open[k].index < |al| ==> al[open[k].index].wrapper
  {
    forall k | 0 <= k < |open|
      ensures open[k].index < |al| && (open[k].index != |al| - 1 ==> al[open[k].index].wrapper)
      ensures k != |open| - 1 ==> al[open[k].index].wrapper
    {
      assert EntryOk(al, limits, k) && EntryOk(al, limits, |open| - 1) && EntriesNest(limits, k, |open| - 1);
    }
  }

  lemma MarkKeepsPlaces(al: seq<Allocation>, x: nat)
    requires x < |al| && Ordered(al) && Laminar(al)
    ensures Extends(al, MarkWrapper(al, x)) && Ordered(MarkWrapper(al, x)) && Laminar(MarkWrapper(al, x))
  {
    var marked := MarkWrapper(al, x);
    forall i, j ensures InOrder(marked, i, j) && NestedOrDisjoint(marked, i, j) {
      assert InOrder(al, i, j) && NestedOrDisjoint(al, i, j);
    }
  }

  /** The levels after a new wrapper was filed. */
  lemma LevelsGrow(al: seq<Allocation>, levels: seq<seq<nat>>, limit: nat)
    requires al != [] && Ordered(al) && Laminar(al) && LevelsOk(al, levels) && AllFiled(al, levels)
    requires !Last(al).wrapper && limit <= Last(al).Limit() && Indexed(MarkWrapper(al, |al| - 1), levels)
    ensures var marked := MarkWrapper(al, |al| - 1);
            var r := Carry(marked, levels, |al| - 1, limit);
            LevelsOk(marked, r) && AllFiled(marked, r)
  {
    var x := |al| - 1;
    var marked := MarkWrapper(al, x);
    MarkKeepsPlaces(al, x);
    OkIndexed(al, levels);
    LevelsStay(al, marked, levels);
    assert forall m :: m in Members(levels) ==> m < x;
    CarryOk(marked, levels, x, limit);
    CarryMembers(marked, levels, x, limit);
  }

  /** The levels are not disturbed by a further allocation that is no wrapper. */
  lemma LevelsKeep(al: seq<Allocation>, a: Allocation, levels: seq<seq<nat>>)
    requires LevelsOk(al, levels) && AllFiled(al, levels) && !a.wrapper
    ensures LevelsOk(al + [a], levels) && AllFiled(al + [a], levels)
  {
    LevelsStay(al, al + [a], levels);
  }

  /** An accepted offer that makes no new wrapper. */
  lemma PlainKeeps(s: State, last: nat, o: Offer, open: seq<Open>)
    requires Invariant(s, last) && last <= o.item.address
    requires Closed(s.limits, open, o.item.address) && Holds(open, o.item.Limit())
    requires open != [] ==> Last(open).index < |s.allocations| && s.allocations[Last(open).index].wrapper
    ensures Invariant(State(s.allocations + [Accept(o, open != [])], open + [Open(|s.allocations|, o.item.Limit())],
                            s.wrappers, if s.maxSize < o.item.size then o.item.size else s.maxSize), o.item.address)
  {
    var al := s.allocations;
    RestMarked(al, s.limits, open, last);
    StackGrows(al, al, s.limits, open, last, o);
    ShapeGrows(al, al, s.limits, open, last, o);
    LevelsKeep(al, Accept(o, open != []), s.wrappers);
  }

  /** The allocations and the stack after an offer that turns the last allocation into a wrapper. */
  lemma MarkedShape(al: seq<Allocation>, limits: seq<Open>, open: seq<Open>, last: nat, o: Offer)
    requires Shape(al) && StackOk(al, limits, last) && last <= o.item.address && open != []
    requires Closed(limits, open, o.item.address) && Holds(open, o.item.Limit())
    requires al != [] && Last(open).index == |al| - 1
    ensures var al' := MarkWrapper(al, |al| - 1) + [Accept(o, true)];
            Shape(al') && StackOk(al', open + [Open(|al|, o.item.Limit())], o.item.address)
  {
    MarkKeepsPlaces(al, |al| - 1);
    RestMarked(al, limits, open, last);
    StackGrows(al, MarkWrapper(al, |al| - 1), limits, open, last, o);
    ShapeGrows(al, MarkWrapper(al, |al| - 1), limits, open, last, o);
  }

  /** The levels after such an offer. */
  lemma MarkedLevels(al: seq<Allocation>, levels: seq<seq<nat>>, o: Offer)
    requires al != [] && Ordered(al) && Laminar(al) && LevelsOk(al, levels) && AllFiled(al, levels)
    requires !Last(al).wrapper && Last(al).address <= o.item.address && o.item.Limit() <= Last(al).Limit()
    requires Indexed(MarkWrapper(al, |al| - 1), levels)
    ensures var marked := MarkWrapper(al, |al| - 1);
            var al', filed := marked + [Accept(o, true)], Carry(marked, levels, |al| - 1, o.item.Limit());
            LevelsOk(al', filed) && AllFiled(al', filed)
  {
    var marked := MarkWrapper(al, |al| - 1);
    LevelsGrow(al, levels, o.item.Limit());
    LevelsKeep(marked, Accept(o, true), Carry(marked, levels, |al| - 1, o.item.Limit()));
  }

  /** An accepted offer that turns the last allocation into a wrapper. */
  lemma MarkingKeeps(s: State, last: nat, o: Offer, open: seq<Open>, maxSize: nat)
    requires Invariant(s, last) && last <= o.item.address
    requires Closed(s.limits, open, o.item.address) && Holds(open, o.item.Limit())
    requires open != [] && Last(open).index == |s.allocations| - 1 && !Last(s.allocations).wrapper
    requires Last(s.allocations).address <= o.item.address && o.item.Limit() <= Last(s.allocations).Limit()
    requires Indexed(MarkWrapper(s.allocations, |s.allocations| - 1), s.wrappers)
    ensures var marked := MarkWrapper(s.allocations, |s.allocations| - 1);
            Invariant(State(marked + [Accept(o, true)], open + [Open(|s.allocations|, o.item.Limit())],
                            Carry(marked, s.wrappers, |s.allocations| - 1, o.item.Limit()), maxSize), o.item.address)
  {
    MarkedShape(s.allocations, s.limits, open, last, o);
    MarkedLevels(s.allocations, s.wrappers, o);
  }

  /** Whatever is offered next in order of address, the invariant survives. */
  lemma StepKeeps(s: State, last: nat, o: Offer)
    requires Invariant(s, last) && last <= o.item.address
    ensures Sound(s) && Invariant(Step(s, o), o.item.address)
  {
    InvariantSound(s, last);
    CloseFacts(s.limits, o.item.address, o.item.Limit());
    var fit := Close(s.limits, o.item.address, o.item.Limit());
    if fit.Crossing? {
      StackCloses(s.allocations, s.limits, fit.open, last, o.item.address);
    } else if fit.open != [] && !s.allocations[Last(fit.open).index].wrapper {
      NewWrapper(s.allocations, s.limits, fit.open, last, o);
      IndexedStays(s.allocations, MarkWrapper(s.allocations, |s.allocations| - 1), s.wrappers);
      MarkingKeeps(s, last, o, fit.open, Step(s, o).maxSize);
    } else {
      PlainKeeps(s, last, o, fit.open);
    }
  }

  // ---------------------------------------------------------------------------------------------
  // Whole runs
  // ---------------------------------------------------------------------------------------------

  lemma {:induction false} CarryIndexed(al: seq<Allocation>, levels: seq<seq<nat>>, x: nat, limit: nat)
    requires Indexed(al, levels) && x < |al|
    ensures Indexed(al, Carry(al, levels, x, limit))
    decreases |levels|
  {
    if levels != [] {
      var back, rest := Last(levels[0]), levels[1..];
      if al[back].Limit() < limit {
        assert ([levels[0] + [x]] + rest)[1..] == rest;
      } else {
        CarryIndexed(al, rest, back, limit);
        var carried := Carry(al, rest, back, limit);
        assert ([Init(levels[0]) + [x]] + carried)[1..] == carried;
      }
    }
  }

  lemma StepSound(s: State, o: Offer)
    requires Sound(s)
    ensures Sound(Step(s, o))
  {
    var fit := Close(s.limits, o.item.address, o.item.Limit());
    if fit.Fits? {
      var al, al' := s.allocations, Step(s, o).allocations;
      if fit.open != [] && !al[Last(fit.open).index].wrapper {
        var marked := MarkWrapper(al, Last(fit.open).index);
        IndexedStays(al, marked, s.wrappers);
        CarryIndexed(marked, s.wrappers, Last(fit.open).index, o.item.Limit());
        IndexedStays(marked, al', Step(s, o).wrappers);
      } else {
        IndexedStays(al, al', s.wrappers);
      }
    }
  }

  /** The directory after a sequence of offers. */
  function Built(offers: seq<Offer>): (s: State)
    ensures Sound(s)
    decreases |offers|
  {
    if offers == [] then EMPTY
    else
      StepSound(Built(Init(offers)), Last(offers));
      Step(Built(Init(offers)), Last(offers))
  }

  lemma BuiltPush(offers: seq<Offer>, o: Offer)
    ensures Built(offers + [o]) == Step(Built(offers), o)
  {
    assert Init(offers + [o]) == offers;
  }

  ghost predicate InAddressOrder(offers: seq<Offer>) {
    forall i, j :: 0 <= i < j < |offers| ==> offers[i].item.address <= offers[j].item.address
  }

  function LastAddress(offers: seq<Offer>): nat {
    if offers == [] then 0 else Last(offers).item.address
  }

  /** Every directory that is built in order of address satisfies the invariant. */
  lemma {:induction false} BuiltKeeps(offers: seq<Offer>)
    requires InAddressOrder(offers)
    ensures Invariant(Built(offers), LastAddress(offers))
    decreases |offers|
  {
    if offers == [] {
      assert Invariant(EMPTY, 0);
    } else {
      BuiltKeeps(Init(offers));
      StepKeeps(Built(Init(offers)), LastAddress(Init(offers)), Last(offers));
    }
  }
}

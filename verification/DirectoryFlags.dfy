/** Which offers spoil the flags: exactly when the flags say which allocations contain, or lie in, another. */
module DirectoryFlags {
  import opened AllocationDirectory
  import opened DirectoryLevels
  import opened DirectorySteps

  predicate HasContent(al: seq<Allocation>, i: int) {
    exists j :: 0 <= j < |al| && Inside(al, j, i)
  }

  predicate HasContainer(al: seq<Allocation>, i: int) {
    exists j :: 0 <= j < |al| && Inside(al, i, j)
  }

  predicate FlagsExactAt(al: seq<Allocation>, i: int) {
    0 <= i < |al| ==> (al[i].wrapper <==> HasContent(al, i)) && (al[i].wrapped <==> HasContainer(al, i))
  }

  /** Each allocation is marked as wrapper if and only if one lies in it, as wrapped if and only if it lies in one. */
  ghost predicate FlagsExact(al: seq<Allocation>) {
    forall i :: FlagsExactAt(al, i)
  }

  /**
   An offer mismarks if it is empty and starts just where the innermost open allocation ends, and either that one
   becomes a wrapper only now, or no open allocation ends any later.
   */
  predicate Mismarks(s: State, o: Offer)
    requires Sound(s)
  {
    var fit, a := Close(s.limits, o.item.address, o.item.Limit()), o.item.address;
    && fit.Fits? && fit.open != [] && o.item.size == 0
    && var top := s.allocations[Last(fit.open).index];
       top.Limit() == a && (!top.wrapper || fit.open[0].limit == a)
  }

  /** al' is al with one more allocation, which starts no earlier than the others. */
  ghost predicate Appends(al: seq<Allocation>, al': seq<Allocation>) {
    && Shape(al) && Shape(al') && Extends(al, al') && |al'| == |al| + 1
    && forall j :: 0 <= j < |al| ==> al[j].address <= al'[|al|].address
  }

  /** One more allocation changes what lies in an earlier one, and never what that lies in. */
  lemma ContentGrows(al: seq<Allocation>, al': seq<Allocation>, i: nat)
    requires Appends(al, al') && i < |al|
    ensures HasContent(al', i) <==> HasContent(al, i) || al'[|al|].address < al[i].Limit()
    ensures HasContainer(al', i) <==> HasContainer(al, i)
  {
    if j :| 0 <= j < |al| && Inside(al, j, i) { assert Inside(al', j, i); }
    if j :| 0 <= j < |al'| && Inside(al', j, i) { assert j < |al| ==> Inside(al, j, i); }
    if j :| 0 <= j < |al| && Inside(al, i, j) { assert Inside(al', i, j); }
    if j :| 0 <= j < |al'| && Inside(al', i, j) { assert Inside(al, i, j); }
    if al'[|al|].address < al[i].Limit() { assert Inside(al', |al|, i); }
  }

  /** A mark that one more allocation does not change is as right as before: a wrong one is not made right. */
  lemma OldFlags(al: seq<Allocation>, al': seq<Allocation>, i: nat)
    requires Appends(al, al') && i < |al| && al'[i].wrapper == al[i].wrapper
    ensures FlagsExactAt(al', i) <==> FlagsExactAt(al, i)
  {
    ContentGrows(al, al', i);
    if al[i].wrapper {
      assert MarkEarned(al, i);
      var j :| i < j < |al| && al[j].Limit() <= al[i].Limit();
      if al'[|al|].address < al[i].Limit() { assert Inside(al, j, i); }
    } else {
      assert MarkedIfInside(al', i, |al|);
    }
  }

  /** A new wrapper is rightly marked if and only if the new allocation starts before its end. */
  lemma NewMark(al: seq<Allocation>, al': seq<Allocation>, x: nat)
    requires Appends(al, al') && x < |al| && !al[x].wrapper && al'[x].wrapper
    ensures FlagsExactAt(al', x) <==> FlagsExactAt(al, x) && al'[|al|].address < al[x].Limit()
  {
    ContentGrows(al, al', x);
    forall j ensures !Inside(al, j, x) { assert MarkedIfInside(al, x, j); }
  }

  lemma AppendedFlags(al: seq<Allocation>, al': seq<Allocation>, x: int)
    requires Appends(al, al')
    requires forall i :: 0 <= i < |al| && i != x ==> al'[i].wrapper == al[i].wrapper
    requires 0 <= x < |al| ==> !al[x].wrapper && al'[x].wrapper
    ensures FlagsExact(al') <==>
            FlagsExact(al) && FlagsExactAt(al', |al|) && (0 <= x < |al| ==> al'[|al|].address < al[x].Limit())
  {
    var n := |al|;
    if 0 <= x < n { NewMark(al, al', x); }
    forall i | 0 <= i < n && i != x ensures FlagsExactAt(al', i) <==> FlagsExactAt(al, i) { OldFlags(al, al', i); }
    if FlagsExact(al') {
      assert FlagsExactAt(al', n) && FlagsExactAt(al', x);
      forall i ensures FlagsExactAt(al, i) { assert FlagsExactAt(al', i); }
    } else if FlagsExact(al) && FlagsExactAt(al', n) && (0 <= x < n ==> al'[n].address < al[x].Limit()) {
      assert FlagsExactAt(al, x);
      forall i ensures FlagsExactAt(al', i) { assert FlagsExactAt(al, i); }
      assert false;
    }
  }

  lemma OutermostEndsLast(al: seq<Allocation>, limits: seq<Open>, open: seq<Open>, last: nat, address: nat, j: nat)
    requires StackOk(al, limits, last) && Closed(limits, open, address) && last <= address
    requires j < |al| && address < al[j].Limit()
    ensures open != [] && al[j].Limit() <= open[0].limit
  {
    var k := OpenOnStack(al, limits, open, last, address, j);
    assert EntriesNest(limits, 0, k);
  }

  /** The new allocation is rightly marked as wrapped if and only if it starts before the outermost open one ends. */
  lemma NewFlags(s: State, last: nat, o: Offer, al': seq<Allocation>, open: seq<Open>)
    requires Appends(s.allocations, al') && StackOk(s.allocations, s.limits, last) && last <= o.item.address
    requires Closed(s.limits, open, o.item.address) && al'[|s.allocations|] == Accept(o, open != [])
    ensures FlagsExactAt(al', |s.allocations|) <==> open == [] || o.item.address < open[0].limit
  {
    var al, n := s.allocations, |s.allocations|;
    if open != [] && o.item.address < open[0].limit {
      assert EntryOk(al, s.limits, 0);
      assert Inside(al', n, open[0].index);
    } else {
      forall j | 0 <= j < n ensures !Inside(al', n, j) {
        if o.item.address < al[j].Limit() { OutermostEndsLast(al, s.limits, open, last, o.item.address, j); }
      }
    }
  }

  /** What is marked for an allocation at the given address lies before the ends of what is open. */
  predicate RightlyMarked(al: seq<Allocation>, open: seq<Open>, address: nat)
    requires open != [] ==> Last(open).index < |al|
  {
    open != [] ==>
      address < open[0].limit && (al[Last(open).index].wrapper || address < al[Last(open).index].Limit())
  }

  lemma AcceptedFlags(s: State, last: nat, o: Offer, open: seq<Open>, al': seq<Allocation>)
    requires Invariant(s, last) && last <= o.item.address && Appends(s.allocations, al')
    requires Closed(s.limits, open, o.item.address) && Holds(open, o.item.Limit())
    requires al'[|s.allocations|] == Accept(o, open != [])
    requires open != [] ==> Last(open).index < |s.allocations|
    requires forall i :: 0 <= i < |s.allocations| ==>
      (al'[i].wrapper <==> s.allocations[i].wrapper || (open != [] && i == Last(open).index))
    ensures FlagsExact(al') <==> FlagsExact(s.allocations) && RightlyMarked(s.allocations, open, o.item.address)
  {
    var al := s.allocations;
    NewFlags(s, last, o, al', open);
    if open != [] && !al[Last(open).index].wrapper {
      AppendedFlags(al, al', Last(open).index);
    } else {
      AppendedFlags(al, al', -1);
    }
  }

  lemma StepAppends(s: State, last: nat, o: Offer)
    requires Invariant(s, last) && last <= o.item.address && Sound(s)
    requires Close(s.limits, o.item.address, o.item.Limit()).Fits?
    ensures Appends(s.allocations, Step(s, o).allocations)
  {
    StepKeeps(s, last, o);
    forall j | 0 <= j < |s.allocations| ensures s.allocations[j].address <= o.item.address {
      assert StillOpen(s.allocations, s.limits, last, j);
    }
  }

  /** One offer in order of address leaves all flags exact if and only if they were and it does not mismark. */
  lemma FlagsExactStep(s: State, last: nat, o: Offer)
    requires Invariant(s, last) && last <= o.item.address && Sound(s)
    ensures FlagsExact(Step(s, o).allocations) <==> FlagsExact(s.allocations) && !Mismarks(s, o)
  {
    CloseFacts(s.limits, o.item.address, o.item.Limit());
    var open := Close(s.limits, o.item.address, o.item.Limit()).open;
    if Close(s.limits, o.item.address, o.item.Limit()).Fits? {
      StepAppends(s, last, o);
      AcceptedFlags(s, last, o, open, Step(s, o).allocations);
      if open != [] {
        assert EntryOk(s.allocations, s.limits, |open| - 1) && EntriesNest(s.limits, 0, |open| - 1);
      }
    }
  }

  ghost predicate NeverMismarks(offers: seq<Offer>)
    decreases |offers|
  {
    offers != [] ==> NeverMismarks(Init(offers)) && !Mismarks(Built(Init(offers)), Last(offers))
  }

  lemma {:induction false} FlagsExactIff(offers: seq<Offer>)
    requires InAddressOrder(offers)
    ensures FlagsExact(Built(offers).allocations) <==> NeverMismarks(offers)
    decreases |offers|
  {
    if offers != [] {
      FlagsExactIff(Init(offers));
      BuiltKeeps(Init(offers));
      FlagsExactStep(Built(Init(offers)), LastAddress(Init(offers)), Last(offers));
    }
  }

  /** Only empty allocations mismark. */
  lemma {:induction false} PositiveNeverMismarks(offers: seq<Offer>)
    requires AllPositive(Built(offers).allocations)
    ensures NeverMismarks(offers)
    decreases |offers|
  {
    if offers != [] {
      var before, o := Built(Init(offers)), Last(offers);
      forall i | 0 <= i < |before.allocations| ensures 0 < before.allocations[i].size {
        assert before.allocations[i].size == Built(offers).allocations[i].size;
      }
      PositiveNeverMismarks(Init(offers));
      if Close(before.limits, o.item.address, o.item.Limit()).Fits? {
        assert Built(offers).allocations[|before.allocations|].size == o.item.size;
      }
    }
  }

  /** The flags when sizes are positive. */
  lemma FlagsAreExact(offers: seq<Offer>, i: nat)
    requires InAddressOrder(offers) && AllPositive(Built(offers).allocations) && i < |Built(offers).allocations|
    ensures var al := Built(offers).allocations;
            && (al[i].wrapper <==> exists j :: Inside(al, j, i))
            && (al[i].wrapped <==> exists j :: Inside(al, i, j))
  {
    var al := Built(offers).allocations;
    PositiveNeverMismarks(offers);
    FlagsExactIff(offers);
    assert FlagsExactAt(al, i);
    assert HasContent(al, i) <==> exists j :: Inside(al, j, i);
    assert HasContainer(al, i) <==> exists j :: Inside(al, i, j);
  }

  lemma EmptyAtEnd(s: State, o: Offer)
    requires s == State([Allocation(0, 10, true, 0, false, false)], [Open(0, 10)], [], 10)
    requires o == Offer(0, Item(10, 0, true))
    ensures Sound(s) && var al := Step(s, o).allocations;
                        && |al| == 2 && al[0].wrapper && al[1].wrapped
                        && !HasContent(al, 0) && !HasContainer(al, 1)
  {
    assert Close(s.limits, 10, 10) == Fits(s.limits);
  }

  /** An empty allocation at the end of [0,10) marks that as a wrapper, and itself as wrapped, with nothing in it. */
  lemma FlagsNeedPositiveSizes()
    ensures var offers := [Offer(0, Item(0, 10, true))] + [Offer(0, Item(10, 0, true))];
            var al := Built(offers).allocations;
            && InAddressOrder(offers) && |al| == 2 && al[0].wrapper && al[1].wrapped
            && !HasContent(al, 0) && !HasContainer(al, 1)
  {
    var a, b := Offer(0, Item(0, 10, true)), Offer(0, Item(10, 0, true));
    var s1, s2 := Built([] + [a]), Built([a] + [b]);
    BuiltPush([], a);
    BuiltPush([a], b);
    assert [] + [a] == [a];
    assert s1.limits == [Open(0, 10)] && s1.wrappers == [];
    assert s1.allocations == [Allocation(0, 10, true, 0, false, false)];
    EmptyAtEnd(s1, b);
  }
}

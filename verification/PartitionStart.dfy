/** What the partition of the regions is to begin with. */
module PartitionStart {
  import opened Partition
  import opened RangeFacts
  import opened RangeMapping
  import opened RangeMaps

  ghost predicate AllValid(s: State) {
    && Valid(s.claimedRanges) && Valid(s.withImages) && Valid(s.anchorCandidates)
    && forall c: Class :: SideValid(s, c)
  }

  ghost predicate SideValid(s: State, c: Class) {
    Valid(s.Of(c).claimed) && Valid(s.Of(c).unclaimed)
  }

  /** Some region among the first n contains a and has the given flags. */
  ghost predicate RegionHas(regions: Regions, n: nat, a: int, f: Flags) {
    exists i :: i < n && HasAt(regions, a, f, i)
  }

  ghost predicate InitialIn(regions: Regions, n: nat, s: State, c: Class, a: int, f: Flags) {
    Has(s.Of(c).unclaimed, a, f) <==> ClassOf(f) == c && RegionHas(regions, n, a, f)
  }

  ghost predicate InitialAt(regions: Regions, n: nat, s: State, a: int, f: Flags) {
    && (forall c: Class :: InitialIn(regions, n, s, c, a, f))
    && (Has(s.withImages, a, f) <==> f.writable && f.image && RegionHas(regions, n, a, f))
  }

  ghost predicate NothingClaimed(s: State, c: Class) { s.Of(c).claimed == [] }

  /** Nothing is claimed, and all writable ranges with images may hold static anchors. */
  ghost predicate Untouched(s: State) {
    && AllValid(s) && s.claimedRanges == [] && s.anchorCandidates == s.withImages
    && forall c: Class :: NothingClaimed(s, c)
  }

  ghost predicate AllInitial(regions: Regions, n: nat, s: State) {
    forall a: int, f: Flags :: InitialAt(regions, n, s, a, f)
  }

  /** Everything is unclaimed, in the class that the region calls for. */
  ghost predicate IsInitial(regions: Regions, n: nat, s: State) {
    Untouched(s) && AllInitial(regions, n, s)
  }

  lemma RegionHasMore(regions: Regions, n: nat, a: int, f: Flags)
    requires 0 < n <= |regions|
    ensures RegionHas(regions, n, a, f) <==>
            RegionHas(regions, n - 1, a, f) || (regions[n - 1].Covers(a) && regions[n - 1].value == f)
  {
    if RegionHas(regions, n, a, f) {
      var i :| i < n && HasAt(regions, a, f, i);
    }
    if RegionHas(regions, n - 1, a, f) {
      var i :| i < n - 1 && HasAt(regions, a, f, i);
      assert i < n;
    }
    if regions[n - 1].Covers(a) && regions[n - 1].value == f {
      assert HasAt(regions, a, f, n - 1);
    }
  }

  /** A row of ranges that are all among the first n regions is free where a later region lies. */
  lemma LaterIsFree(regions: Regions, n: nat, e: seq<Entry<Flags>>)
    requires Valid(regions) && n < |regions| && Valid(e)
    requires forall a: int, f: Flags :: Has(e, a, f) ==> RegionHas(regions, n, a, f)
    ensures Start(regions[n]) + regions[n].size == regions[n].limit && regions[n].size > 0
    ensures Free(e, Start(regions[n]), regions[n].limit)
  {
    var r := regions[n];
    assert NonEmptyAt(regions, n);
    FreeIffUncovered(e, Start(r), r.limit);
    forall a: int | r.Covers(a) ensures !Covered(e, a) {
      CoveredHas(e, a);
      forall f: Flags ensures !Has(e, a, f) {
        forall i | i < n ensures !HasAt(regions, a, f, i) { assert Apart(regions, i, n); }
      }
    }
  }

  lemma EmptyIsInitial(regions: Regions)
    ensures Untouched(EMPTY) && AllInitial(regions, 0, EMPTY)
  {
    forall a: int, f: Flags ensures InitialAt(regions, 0, EMPTY, a, f) {
      forall c: Class ensures InitialIn(regions, 0, EMPTY, c, a, f) {}
    }
    forall c: Class ensures SideValid(EMPTY, c) && NothingClaimed(EMPTY, c) {}
  }

  lemma AddRegionKeepsShape(s: State, r: Entry<Flags>)
    requires Untouched(s)
    ensures Untouched(AddRegion(s, r))
  {
    var c, s' := ClassOf(r.value), AddRegion(s, r);
    assert SideValid(s, c) && NothingClaimed(s, c);
    MapKeepsValid(s.Of(c).unclaimed, true, Start(r), r.size, r.value);
    MapKeepsValid(s.withImages, true, Start(r), r.size, r.value);
    forall d: Class ensures SideValid(s', d) && NothingClaimed(s', d) {
      assert SideValid(s, d) && NothingClaimed(s, d);
    }
  }

  lemma AddRegionAdds(regions: Regions, n: nat, s: State, a: int, f: Flags)
    requires Valid(regions) && n < |regions| && IsInitial(regions, n, s)
    ensures InitialAt(regions, n + 1, AddRegion(s, regions[n]), a, f)
  {
    var r, c, s' := regions[n], ClassOf(regions[n].value), AddRegion(s, regions[n]);
    var unclaimed := s.Of(c).unclaimed;
    assert SideValid(s, c);
    forall a: int, f: Flags ensures Has(unclaimed, a, f) || Has(s.withImages, a, f) ==> RegionHas(regions, n, a, f) {
      assert InitialAt(regions, n, s, a, f) && InitialIn(regions, n, s, c, a, f);
    }
    LaterIsFree(regions, n, unclaimed);
    LaterIsFree(regions, n, s.withImages);
    MapKeepsValid(unclaimed, true, Start(r), r.size, r.value);
    MapKeepsValid(s.withImages, true, Start(r), r.size, r.value);
    assert InitialAt(regions, n, s, a, f);
    var more := n + 1;
    RegionHasMore(regions, more, a, f);
    MapAt(unclaimed, true, Start(r), r.size, r.value, a, f);
    MapAt(s.withImages, true, Start(r), r.size, r.value, a, f);
    forall d: Class ensures InitialIn(regions, more, s', d, a, f) {
      assert InitialIn(regions, n, s, d, a, f);
    }
  }

  lemma OneMoreIsInitial(regions: Regions, n: nat, s: State, more: nat)
    requires Valid(regions) && more == n + 1 <= |regions| && IsInitial(regions, n, s)
    ensures AllInitial(regions, more, AddRegion(s, regions[n]))
  {
    var s' := AddRegion(s, regions[n]);
    forall a: int, f: Flags ensures InitialAt(regions, more, s', a, f) {
      AddRegionAdds(regions, n, s, a, f);
    }
  }

  lemma {:induction false} InitialUntouched(regions: Regions, n: nat)
    requires n <= |regions|
    ensures Untouched(Initial(regions, n))
    decreases n
  {
    if n == 0 {
      EmptyIsInitial(regions);
    } else {
      InitialUntouched(regions, n - 1);
      AddRegionKeepsShape(Initial(regions, n - 1), regions[n - 1]);
    }
  }

  lemma {:induction false} InitialFollowsRegions(regions: Regions, n: nat)
    requires Valid(regions) && n <= |regions|
    ensures AllInitial(regions, n, Initial(regions, n))
    decreases n
  {
    if n == 0 {
      EmptyIsInitial(regions);
    } else {
      InitialUntouched(regions, n - 1);
      InitialFollowsRegions(regions, n - 1);
      OneMoreIsInitial(regions, n - 1, Initial(regions, n - 1), n);
    }
  }

  /**
   To begin with, each class has exactly the addresses of its regions, all of them unclaimed: writable regions in one
   class, of the others the executable ones in the next, then those that are just readable, and then the rest.
   */
  lemma InitialIsRegions(regions: Regions)
    requires Valid(regions)
    ensures IsInitial(regions, |regions|, Initial(regions, |regions|))
    ensures forall a: int, f: Flags :: ByFlags(regions, Initial(regions, |regions|), a, f)
  {
    var s := Initial(regions, |regions|);
    InitialUntouched(regions, |regions|);
    InitialFollowsRegions(regions, |regions|);
    forall a: int, f: Flags ensures ByFlags(regions, s, a, f) {
      assert InitialAt(regions, |regions|, s, a, f);
      assert InitialIn(regions, |regions|, s, Writable, a, f) && InitialIn(regions, |regions|, s, RxOnly, a, f);
      assert InitialIn(regions, |regions|, s, ReadOnly, a, f) && InitialIn(regions, |regions|, s, Inaccessible, a, f);
      assert RegionHas(regions, |regions|, a, f) <==> Has(regions, a, f);
    }
  }

  /** Where the address a of a region with flags f is unclaimed, and whether it may hold static anchors. */
  ghost predicate ByFlags(regions: Regions, s: State, a: int, f: Flags) {
    && (Has(s.writable.unclaimed, a, f) <==> Has(regions, a, f) && f.writable)
    && (Has(s.rxOnly.unclaimed, a, f) <==> Has(regions, a, f) && !f.writable && f.executable)
    && (Has(s.readOnly.unclaimed, a, f) <==> Has(regions, a, f) && !f.writable && !f.executable && f.readable)
    && (Has(s.inaccessible.unclaimed, a, f) <==>
        Has(regions, a, f) && !f.writable && !f.executable && !f.readable)
    && (Has(s.anchorCandidates, a, f) <==> Has(regions, a, f) && f.writable && f.image)
  }
}

/** What a claim of addresses in several classes does not do. */
module PartitionLimits {
  import opened Partition
  import opened PartitionClaims
  import opened PartitionRuns
  import opened PartitionStart
  import opened RangeFacts
  import opened RangeMapping
  import opened RangeMaps

  ghost predicate StillUnclaimed(s: State, base: nat, limit: nat, a: int, c: Class) {
    base <= a < limit && Covered(s.Of(c).unclaimed, a)
  }

  /** Region i reaches into [base, limit), but the claim of that range is charged to another class. */
  ghost predicate ChargedElsewhere(regions: Regions, base: nat, limit: nat, i: int) {
    && 0 <= i < |regions| && Overlaps(regions[i], base, limit)
    && ClassOf(regions[i].value) != ChargedTo(regions, base, limit)
  }

  ghost predicate SomeUnclaimed(s: State, base: nat, limit: nat) {
    exists a: int, c: Class :: StillUnclaimed(s, base, limit, a, c)
  }

  ghost predicate ReachesElsewhere(regions: Regions, base: nat, limit: nat) {
    exists i :: ChargedElsewhere(regions, base, limit, i)
  }

  /** The unclaimed addresses of a class lie in regions of that class. */
  lemma UnclaimedInRegion(regions: Regions, init: State, s: State, c: Class, a: int) returns (i: nat)
    requires IsInitial(regions, |regions|, init) && Conserved(init, s) && Covered(s.Of(c).unclaimed, a)
    ensures i < |regions| && regions[i].Covers(a) && ClassOf(regions[i].value) == c
  {
    CoveredHas(s.Of(c).unclaimed, a);
    var f: Flags :| Has(s.Of(c).unclaimed, a, f);
    assert ConservedAt(init, s, c, a, f);
    assert InitialAt(regions, |regions|, init, a, f) && InitialIn(regions, |regions|, init, c, a, f);
    i :| i < |regions| && HasAt(regions, a, f, i);
  }

  lemma RegionIsUnclaimed(regions: Regions, init: State, s: State, i: nat, a: int)
    requires IsInitial(regions, |regions|, init) && Conserved(init, s) && Charged(s)
    requires i < |regions| && regions[i].Covers(a) && !Covered(s.claimedRanges, a)
    ensures Covered(s.Of(ClassOf(regions[i].value)).unclaimed, a)
  {
    var f := regions[i].value;
    var c := ClassOf(f);
    assert HasAt(regions, a, f, i);
    assert InitialAt(regions, |regions|, init, a, f) && InitialIn(regions, |regions|, init, c, a, f);
    assert ConservedAt(init, s, c, a, f);
    if Covered(s.Of(c).claimed, a) { ChargedMeansClaimed(s, c, a); }
    CoveredHas(s.Of(c).unclaimed, a);
  }

  lemma ClaimedIsNotUnclaimed(s: State, c: Class, base: nat, size: nat, name: Label, candidate: bool, a: int)
    requires AllValid(s) && base <= a < base + size
    ensures !Covered(ClaimIn(s, c, base, size, name, candidate).Of(c).unclaimed, a)
  {
    var s' := ClaimIn(s, c, base, size, name, candidate);
    assert SideValid(s, c);
    CoveredHas(s'.Of(c).unclaimed, a);
    forall f: Flags ensures !Has(s'.Of(c).unclaimed, a, f) { UnmapAt(s.Of(c).unclaimed, base, size, a, f); }
  }

  lemma LeftoverIsElsewhere(regions: Regions, init: State, s: State, base: nat, limit: nat, a: int, c: Class)
    requires IsInitial(regions, |regions|, init) && Conserved(init, s)
    requires StillUnclaimed(s, base, limit, a, c) && c != ChargedTo(regions, base, limit)
    ensures ReachesElsewhere(regions, base, limit)
  {
    var i := UnclaimedInRegion(regions, init, s, c, a);
    assert ChargedElsewhere(regions, base, limit, i);
  }

  lemma ElsewhereIsLeftover(regions: Regions, init: State, s: State, base: nat, limit: nat) returns (a: int, c: Class)
    requires Valid(regions) && IsInitial(regions, |regions|, init) && AllValid(s) && Conserved(init, s) && Charged(s)
    requires Free(s.claimedRanges, base, limit) && base < limit && ReachesElsewhere(regions, base, limit)
    ensures StillUnclaimed(s, base, limit, a, c) && c != ChargedTo(regions, base, limit)
  {
    var i :| ChargedElsewhere(regions, base, limit, i);
    assert NonEmptyAt(regions, i);
    a, c := if base <= regions[i].Base() then regions[i].Base() else base, ClassOf(regions[i].value);
    FreeIffUncovered(s.claimedRanges, base, limit);
    RegionIsUnclaimed(regions, init, s, i, a);
  }

  /** What an accepted claim does to unclaimed addresses: those of its class are gone, and others stay. */
  lemma AcceptedClaimTakes(regions: Regions, s: State, base: nat, size: nat, name: Label, candidate: bool, a: int,
                           c: Class)
    requires AllValid(s) && Claim(regions, s, base, size, name, candidate).1
    ensures StillUnclaimed(Claim(regions, s, base, size, name, candidate).0, base, base + size, a, c) <==>
            StillUnclaimed(s, base, base + size, a, c) && c != ChargedTo(regions, base, base + size)
  {
    var t := s.(claimedRanges := Mapped(s.claimedRanges, true, base, size, name).entries);
    var d := ChargedTo(regions, base, base + size);
    MapKeepsValid(s.claimedRanges, true, base, size, name);
    forall c: Class ensures SideValid(t, c) { assert SideValid(s, c); }
    if c == d && base <= a < base + size {
      ClaimedIsNotUnclaimed(t, d, base, size, name, candidate, a);
    }
  }

  lemma PartialIfElsewhere(regions: Regions, init: State, s: State, base: nat, size: nat, name: Label, candidate: bool)
    requires Valid(regions) && IsInitial(regions, |regions|, init) && AllValid(s) && Conserved(init, s) && Charged(s)
    requires Claim(regions, s, base, size, name, candidate).1 && size > 0
    requires ReachesElsewhere(regions, base, base + size)
    ensures SomeUnclaimed(Claim(regions, s, base, size, name, candidate).0, base, base + size)
  {
    MapKeepsValid(s.claimedRanges, true, base, size, name);
    var limit := base + size;
    var a, c := ElsewhereIsLeftover(regions, init, s, base, limit);
    AcceptedClaimTakes(regions, s, base, size, name, candidate, a, c);
    assert StillUnclaimed(Claim(regions, s, base, size, name, candidate).0, base, limit, a, c);
  }

  lemma ElsewhereIfPartial(regions: Regions, init: State, s: State, base: nat, size: nat, name: Label, candidate: bool)
    requires IsInitial(regions, |regions|, init) && AllValid(s) && Conserved(init, s)
    requires Claim(regions, s, base, size, name, candidate).1
    requires SomeUnclaimed(Claim(regions, s, base, size, name, candidate).0, base, base + size)
    ensures size > 0 && ReachesElsewhere(regions, base, base + size)
  {
    var limit := base + size;
    var a: int, c: Class :| StillUnclaimed(Claim(regions, s, base, size, name, candidate).0, base, limit, a, c);
    AcceptedClaimTakes(regions, s, base, size, name, candidate, a, c);
    LeftoverIsElsewhere(regions, init, s, base, limit, a, c);
  }

  /** The range [base, limit) reaches into region i and into none before it. */
  ghost predicate FirstReached(regions: Regions, base: nat, limit: nat, i: nat) {
    && i < |regions| && Overlaps(regions[i], base, limit)
    && forall j :: 0 <= j < i ==> !Overlaps(regions[j], base, limit)
  }

  /** A claim is charged by the flags of the first region that it reaches into, and is inaccessible if there is none. */
  lemma ChargedToFirst(regions: Regions, base: nat, limit: nat, i: nat)
    requires Valid(regions) && base < limit
    ensures (forall j :: 0 <= j < |regions| ==> !Overlaps(regions[j], base, limit)) ==>
              ChargedTo(regions, base, limit) == Inaccessible
    ensures FirstReached(regions, base, limit, i) ==>
              var f := regions[i].value;
              && (f.writable ==> ChargedTo(regions, base, limit) == Writable)
              && (!f.writable && f.executable ==> ChargedTo(regions, base, limit) == RxOnly)
              && (!f.writable && !f.executable && f.readable ==> ChargedTo(regions, base, limit) == ReadOnly)
              && (!f.writable && !f.executable && !f.readable ==> ChargedTo(regions, base, limit) == Inaccessible)
  {
    var it := UpperBound(regions, base);
    assert NonEmptyAt(regions, it) && NonEmptyAt(regions, i);
    if FirstReached(regions, base, limit, i) {
      assert i < it ==> EndsBelow(regions, i, base + 1);
      assert Apart(regions, it, i);
    }
  }

  /**
   Before the sweep, an accepted claim leaves some of its addresses unclaimed
   exactly if it reaches into another class.
   */
  lemma ClaimIsPartialAcrossClasses(regions: Regions, init: State, s: State, base: nat, size: nat, name: Label,
                                    candidate: bool)
    requires Valid(regions) && IsInitial(regions, |regions|, init) && RunKeeps(init, s, false)
    requires Claim(regions, s, base, size, name, candidate).1
    ensures SomeUnclaimed(Claim(regions, s, base, size, name, candidate).0, base, base + size) <==>
            size > 0 && ReachesElsewhere(regions, base, base + size)
  {
    var limit := base + size;
    if size > 0 && ReachesElsewhere(regions, base, limit) {
      PartialIfElsewhere(regions, init, s, base, size, name, candidate);
    }
    if SomeUnclaimed(Claim(regions, s, base, size, name, candidate).0, base, limit) {
      ElsewhereIfPartial(regions, init, s, base, size, name, candidate);
    }
  }

  /** Regions of two classes side by side: a claim of both leaves the second one unclaimed. */
  lemma ClaimAcrossClassesIsPartial()
    ensures var w, r := Flags(true, true, false, false), Flags(true, false, false, false);
            var regions := [Entry(4, 4, w), Entry(8, 4, r)];
            var claim := Claim(regions, Initial(regions, 2), 0, 8, "both", false);
            && claim.1 && claim.0.writable == Side([Entry(8, 8, "both")], [])
            && claim.0.readOnly == Side([], [Entry(8, 4, r)]) && claim.0.claimedRanges == [Entry(8, 8, "both")]
  {
    var w, r := Flags(true, true, false, false), Flags(true, false, false, false);
    var regions := [Entry(4, 4, w), Entry(8, 4, r)];
    assert Initial(regions, 0) == EMPTY;
    assert Initial(regions, 1) == EMPTY.(writable := Side([], [Entry(4, 4, w)]));
    assert Initial(regions, 2)
        == EMPTY.(writable := Side([], [Entry(4, 4, w)]), readOnly := Side([], [Entry(8, 4, r)]));
    assert UpperBound(regions, 0) == 0;
    assert Unmapped([Entry(4, 4, w)], 0, 8) == [];
  }
}

/** Claims that are made after the sweep: which of them are recorded. */
module PartitionLate {
  import opened Partition
  import opened PartitionClaims
  import opened PartitionLimits
  import opened PartitionRuns
  import opened PartitionStart
  import opened RangeFacts
  import opened RangeMapping
  import opened RangeMaps

  // ---------------------------------------------------------------------------------------------
  // Where claimed addresses come from
  // ---------------------------------------------------------------------------------------------

  ghost predicate AccountedAt(regions: Regions, s: State, c: Class, a: int) {
    Covered(s.Of(c).claimed, a) ==> Covered(s.claimedRanges, a) || Covered(regions, a)
  }

  /** Whatever a class claims was claimed by a call, or lies in a region. */
  ghost predicate Accounted(regions: Regions, s: State) {
    forall c: Class, a: int :: AccountedAt(regions, s, c, a)
  }

  lemma ClaimAccountsAt(regions: Regions, s: State, s': State, d: Class, base: nat, size: nat, name: Label, c: Class,
                        a: int)
    requires Valid(s.claimedRanges) && Valid(s.Of(d).claimed) && AccountedAt(regions, s, c, a)
    requires Mapped(s.claimedRanges, true, base, size, name).ok
    requires s'.claimedRanges == Mapped(s.claimedRanges, true, base, size, name).entries
    requires s'.Of(c).claimed == if c == d then Mapped(s.Of(d).claimed, false, base, size, name).entries
                                 else s.Of(c).claimed
    ensures AccountedAt(regions, s', c, a)
  {
    CoveredAfterMap(s.claimedRanges, true, base, size, name, a);
    CoveredAfterMap(s.Of(d).claimed, false, base, size, name, a);
  }

  lemma ClaimAccounts(regions: Regions, s: State, base: nat, size: nat, name: Label, candidate: bool)
    requires AllValid(s) && Accounted(regions, s)
    ensures Accounted(regions, Claim(regions, s, base, size, name, candidate).0)
  {
    var s', d := Claim(regions, s, base, size, name, candidate).0, ChargedTo(regions, base, base + size);
    if Claim(regions, s, base, size, name, candidate).1 {
      assert SideValid(s, d);
      forall c: Class, a: int ensures AccountedAt(regions, s', c, a) {
        assert AccountedAt(regions, s, c, a);
        ClaimAccountsAt(regions, s, s', d, base, size, name, c, a);
      }
    }
  }

  lemma SweepAccounts(regions: Regions, init: State, s: State, swept: bool)
    requires IsInitial(regions, |regions|, init) && RunKeeps(init, s, swept) && Accounted(regions, s)
    ensures Accounted(regions, Sweep(s))
  {
    var s' := Sweep(s);
    forall c: Class, a: int ensures AccountedAt(regions, s', c, a) {
      assert AccountedAt(regions, s, c, a) && SideValid(s, c);
      SidesAreDisjoint(init, s, c);
      SweptCovers(s.Of(c), a);
      if Covered(s.Of(c).unclaimed, a) {
        var i := UnclaimedInRegion(regions, init, s, c, a);
      }
    }
  }

  lemma OpAccounts(regions: Regions, init: State, s: State, swept: bool, op: Op)
    requires IsInitial(regions, |regions|, init) && RunKeeps(init, s, swept) && Accounted(regions, s)
    ensures Accounted(regions, Apply(regions, s, op))
  {
    match op {
      case ClaimOp(base, size, name, candidate) => ClaimAccounts(regions, s, base, size, name, candidate);
      case SweepOp => SweepAccounts(regions, init, s, swept);
    }
  }

  /** In every run, each class claims only what a call claimed and what lies in regions. */
  lemma {:induction false} EveryRunAccounts(regions: Regions, ops: seq<Op>)
    requires Valid(regions)
    ensures Accounted(regions, Run(regions, ops))
    decreases |ops|
  {
    var init := Initial(regions, |regions|);
    InitialIsRegions(regions);
    if ops == [] {
      forall c: Class, a: int ensures AccountedAt(regions, init, c, a) { assert NothingClaimed(init, c); }
    } else {
      var before := ops[..|ops| - 1];
      EveryRunAccounts(regions, before);
      EveryRunKeeps(regions, before);
      OpAccounts(regions, init, Run(regions, before), SweepOp in before, ops[|ops| - 1]);
    }
  }

  // ---------------------------------------------------------------------------------------------
  // Claims after the sweep
  // ---------------------------------------------------------------------------------------------

  ghost predicate Reaches(regions: Regions, base: nat, limit: nat, i: int) {
    0 <= i < |regions| && Overlaps(regions[i], base, limit)
  }

  ghost predicate SomeReaches(regions: Regions, base: nat, limit: nat) {
    exists i :: Reaches(regions, base, limit, i)
  }

  /** All addresses of the range, none of which class c had claimed, are claimed in it under the given label. */
  ghost predicate RecordedIn(s: State, s': State, c: Class, base: nat, limit: nat, name: Label) {
    forall a: int :: base <= a < limit ==> !Covered(s.Of(c).claimed, a) && Has(s'.Of(c).claimed, a, name)
  }

  ghost predicate Recorded(s: State, s': State, base: nat, limit: nat, name: Label) {
    exists c: Class :: RecordedIn(s, s', c, base, limit, name)
  }

  /** The claim of a range that some region reaches into is charged to a region that reaches into it. */
  lemma ChargedRegionOverlaps(regions: Regions, base: nat, limit: nat, i: nat) returns (it: nat)
    requires Valid(regions) && i < |regions| && Overlaps(regions[i], base, limit)
    ensures it < |regions| && Overlaps(regions[it], base, limit)
    ensures ClassOf(regions[it].value) == ChargedTo(regions, base, limit)
  {
    it := UpperBound(regions, base);
    assert i < it ==> EndsBelow(regions, i, base + 1);
    assert Apart(regions, it, i) && NonEmptyAt(regions, i) && NonEmptyAt(regions, it);
  }

  lemma CoveredIsRefused(e: seq<Entry<Label>>, base: nat, size: nat, name: Label, a: int)
    requires Valid(e) && base <= a < base + size && Covered(e, a)
    ensures Mapped(e, false, base, size, name).entries == e
  {
    FreeIffUncovered(e, base, base + size);
    MapRefuses(e, false, base, size, name);
  }

  /** A claim that its class refuses leaves what every class claims as it was. */
  lemma RefusedInClass(s: State, d: Class, base: nat, size: nat, name: Label, candidate: bool, c: Class)
    requires Mapped(s.Of(d).claimed, false, base, size, name).entries == s.Of(d).claimed
    ensures ClaimIn(s, d, base, size, name, candidate).Of(c).claimed == s.Of(c).claimed
  {
  }

  lemma ChargedClassRefuses(regions: Regions, init: State, s: State, base: nat, size: nat, name: Label, i: nat)
    requires Valid(regions) && IsInitial(regions, |regions|, init) && RunKeeps(init, s, true)
    requires Reaches(regions, base, base + size, i)
    ensures Mapped(s.Of(ChargedTo(regions, base, base + size)).claimed, false, base, size, name).entries ==
            s.Of(ChargedTo(regions, base, base + size)).claimed
  {
    if size > 0 {
      var it := ChargedRegionOverlaps(regions, base, base + size, i);
      var a, d := if base <= regions[it].Base() then regions[it].Base() else base, ClassOf(regions[it].value);
      assert NonEmptyAt(regions, it) && SideValid(s, d);
      SweepLeavesNothing(regions, init, s, it, a);
      CoveredIsRefused(s.Of(d).claimed, base, size, name, a);
    }
  }

  /** After the sweep, a claim of a range that some region reaches into is recorded in no class, accepted or not. */
  lemma LateClaimsAreLost(regions: Regions, init: State, s: State, base: nat, size: nat, name: Label, candidate: bool,
                          i: nat, c: Class)
    requires Valid(regions) && IsInitial(regions, |regions|, init) && RunKeeps(init, s, true)
    requires i < |regions| && Overlaps(regions[i], base, base + size)
    ensures Claim(regions, s, base, size, name, candidate).0.Of(c).claimed == s.Of(c).claimed
  {
    var r, d := Mapped(s.claimedRanges, true, base, size, name), ChargedTo(regions, base, base + size);
    ChargedClassRefuses(regions, init, s, base, size, name, i);
    RefusedInClass(s.(claimedRanges := r.entries), d, base, size, name, candidate, c);
  }

  /** A range that no region reaches into, and that no call has claimed, is free among the inaccessible claims. */
  lemma UnreachedIsFree(regions: Regions, s: State, base: nat, size: nat, name: Label)
    requires Valid(regions) && AllValid(s) && Accounted(regions, s) && size > 0
    requires Mapped(s.claimedRanges, true, base, size, name).ok && !SomeReaches(regions, base, base + size)
    ensures ChargedTo(regions, base, base + size) == Inaccessible
    ensures Valid(s.inaccessible.claimed) && Free(s.inaccessible.claimed, base, base + size)
  {
    var it: nat, limit := UpperBound(regions, base), base + size;
    assert SideValid(s, Inaccessible);
    assert !Reaches(regions, base, limit, it);
    forall a: int | base <= a < limit ensures !Covered(s.inaccessible.claimed, a) {
      assert AccountedAt(regions, s, Inaccessible, a);
      ClaimedWasFree(s.claimedRanges, base, size, name, a);
      forall i | 0 <= i < |regions| ensures !regions[i].Covers(a) { assert !Reaches(regions, base, limit, i); }
    }
    FreeIffUncovered(s.inaccessible.claimed, base, limit);
  }

  /** After the sweep, an accepted claim of a range that no region reaches into is recorded as inaccessible. */
  lemma LateClaimIsRecorded(regions: Regions, s: State, base: nat, size: nat, name: Label, candidate: bool)
    requires Valid(regions) && AllValid(s) && Accounted(regions, s) && size > 0
    requires Claim(regions, s, base, size, name, candidate).1 && !SomeReaches(regions, base, base + size)
    ensures RecordedIn(s, Claim(regions, s, base, size, name, candidate).0, Inaccessible, base, base + size, name)
  {
    var s', limit := Claim(regions, s, base, size, name, candidate).0, base + size;
    UnreachedIsFree(regions, s, base, size, name);
    FreeIffUncovered(s.inaccessible.claimed, base, limit);
    MapAdds(s.inaccessible.claimed, false, base, size, name);
    forall a: int | base <= a < limit ensures Has(s'.inaccessible.claimed, a, name) {
      MapAt(s.inaccessible.claimed, false, base, size, name, a, name);
    }
  }

  /** After the sweep, an accepted claim is recorded in some class exactly if no region reaches into its range. */
  lemma LateClaimRecordedIff(regions: Regions, init: State, s: State, base: nat, size: nat, name: Label,
                             candidate: bool)
    requires Valid(regions) && IsInitial(regions, |regions|, init) && RunKeeps(init, s, true) && Accounted(regions, s)
    requires size > 0 && Claim(regions, s, base, size, name, candidate).1
    ensures Recorded(s, Claim(regions, s, base, size, name, candidate).0, base, base + size, name) <==>
            !SomeReaches(regions, base, base + size)
  {
    var s', limit := Claim(regions, s, base, size, name, candidate).0, base + size;
    if SomeReaches(regions, base, limit) {
      var i: nat :| Reaches(regions, base, limit, i);
      forall c: Class ensures !RecordedIn(s, s', c, base, limit, name) {
        LateClaimsAreLost(regions, init, s, base, size, name, candidate, i, c);
        CoveredHas(s.Of(c).claimed, base);
      }
    } else {
      LateClaimIsRecorded(regions, s, base, size, name, candidate);
    }
  }

  /** The same for every run that contains a sweep. */
  lemma LateClaimsOfEveryRun(regions: Regions, ops: seq<Op>, base: nat, size: nat, name: Label, candidate: bool)
    requires Valid(regions) && SweepOp in ops && size > 0
    requires Claim(regions, Run(regions, ops), base, size, name, candidate).1
    ensures Recorded(Run(regions, ops), Claim(regions, Run(regions, ops), base, size, name, candidate).0,
                     base, base + size, name)
            <==> !SomeReaches(regions, base, base + size)
  {
    EveryRunKeeps(regions, ops);
    EveryRunAccounts(regions, ops);
    InitialIsRegions(regions);
    LateClaimRecordedIff(regions, Initial(regions, |regions|), Run(regions, ops), base, size, name, candidate);
  }

  /** The sweep does not record what it claims in the row of all claims, so that a later claim is accepted and lost. */
  lemma LateClaimIsAccepted()
    ensures var regions := [Entry(8, 8, Flags(true, true, false, false))];
            var s := Run(regions, [SweepOp]);
            Claim(regions, s, 0, 4, "late", false).1 &&
            Claim(regions, s, 0, 4, "late", false).0.writable.claimed == [Entry(8, 8, UNKNOWN)]
  {
    var r := Entry(8, 8, Flags(true, true, false, false));
    var regions, init := [r], Initial([r], 1);
    var ops := [SweepOp];
    assert Initial(regions, 0) == EMPTY && init.writable == Side([], [r]);
    assert ops[..0] == [] && Run(regions, ops) == Sweep(init);
    assert SweptFirst(init.writable, 0) == [];
    assert Sweep(init).writable.claimed == [Entry(8, 8, UNKNOWN)];
  }
}

/** The sweep, and what every run of claims and sweeps keeps. */
module PartitionRuns {
  import opened Partition
  import opened PartitionClaims
  import opened PartitionStart
  import opened RangeFacts
  import opened RangeMapping
  import opened RangeMaps

  // ---------------------------------------------------------------------------------------------
  // The sweep
  // ---------------------------------------------------------------------------------------------

  ghost predicate Before<V(!new)>(e: seq<Entry<V>>, n: nat, a: int) {
    exists i :: i < n && 0 <= i < |e| && e[i].Covers(a)
  }

  ghost predicate SweptAt(side: Side, n: nat, a: int, l: Label)
    requires n <= |side.unclaimed|
  {
    Has(SweptFirst(side, n), a, l) <==> Has(side.claimed, a, l) || (Before(side.unclaimed, n, a) && l == UNKNOWN)
  }

  ghost predicate Disjoint<V(!new), W(!new)>(e: seq<Entry<V>>, f: seq<Entry<W>>) {
    forall a: int :: !Covered(e, a) || !Covered(f, a)
  }

  /** Each unclaimed range is free among what is claimed by then. */
  lemma NextToSweepIsFree(side: Side, n: nat)
    requires Valid(side.claimed) && Valid(side.unclaimed) && Disjoint(side.claimed, side.unclaimed)
    requires n < |side.unclaimed|
    requires Valid(SweptFirst(side, n)) && forall a: int, l: Label :: SweptAt(side, n, a, l)
    ensures Start(side.unclaimed[n]) + side.unclaimed[n].size == side.unclaimed[n].limit && side.unclaimed[n].size > 0
    ensures Free(SweptFirst(side, n), Start(side.unclaimed[n]), side.unclaimed[n].limit)
  {
    var r := side.unclaimed[n];
    assert NonEmptyAt(side.unclaimed, n);
    FreeIffUncovered(SweptFirst(side, n), Start(r), r.limit);
    forall a: int | r.Covers(a) ensures !Covered(SweptFirst(side, n), a) {
      CoveredHas(SweptFirst(side, n), a);
      CoveredHas(side.claimed, a);
      assert Covered(side.unclaimed, a);
      forall l: Label ensures !Has(SweptFirst(side, n), a, l) {
        assert SweptAt(side, n, a, l);
        forall i | i < n && 0 <= i < |side.unclaimed| ensures !side.unclaimed[i].Covers(a) {
          assert Apart(side.unclaimed, i, n);
        }
      }
    }
  }

  lemma SweepsOneMore(side: Side, n: nat, a: int, l: Label)
    requires n < |side.unclaimed| && Valid(SweptFirst(side, n)) && SweptAt(side, n, a, l)
    requires Start(side.unclaimed[n]) + side.unclaimed[n].size == side.unclaimed[n].limit && side.unclaimed[n].size > 0
    requires Free(SweptFirst(side, n), Start(side.unclaimed[n]), side.unclaimed[n].limit)
    ensures SweptAt(side, n + 1, a, l)
  {
    var done, r := SweptFirst(side, n), side.unclaimed[n];
    MapKeepsValid(done, false, Start(r), r.size, UNKNOWN);
    MapAt(done, false, Start(r), r.size, UNKNOWN, a, l);
    BeforeMore(side.unclaimed, n + 1, a);
  }

  lemma OneMoreSwept(side: Side, n: nat, more: nat)
    requires Valid(side.claimed) && Valid(side.unclaimed) && Disjoint(side.claimed, side.unclaimed)
    requires n < |side.unclaimed| && more == n + 1
    requires Valid(SweptFirst(side, n)) && forall a: int, l: Label :: SweptAt(side, n, a, l)
    ensures Valid(SweptFirst(side, more)) && forall a: int, l: Label :: SweptAt(side, more, a, l)
  {
    var r := side.unclaimed[n];
    NextToSweepIsFree(side, n);
    MapKeepsValid(SweptFirst(side, n), false, Start(r), r.size, UNKNOWN);
    forall a: int, l: Label ensures SweptAt(side, more, a, l) { SweepsOneMore(side, n, a, l); }
  }

  lemma {:induction false} SweptFirstAdds(side: Side, n: nat)
    requires Valid(side.claimed) && Valid(side.unclaimed) && Disjoint(side.claimed, side.unclaimed)
    requires n <= |side.unclaimed|
    ensures Valid(SweptFirst(side, n)) && forall a: int, l: Label :: SweptAt(side, n, a, l)
  {
    if n == 0 {
      forall a: int, l: Label ensures SweptAt(side, 0, a, l) {}
    } else {
      SweptFirstAdds(side, n - 1);
      OneMoreSwept(side, n - 1, n);
    }
  }

  lemma BeforeMore<V(!new)>(e: seq<Entry<V>>, n: nat, a: int)
    requires 0 < n <= |e|
    ensures Before(e, n, a) <==> Before(e, n - 1, a) || e[n - 1].Covers(a)
  {
  }

  /** The sweep claims exactly the unclaimed addresses of a class, as unknown, and leaves none unclaimed. */
  lemma SweptClaimsAll(side: Side, a: int, l: Label)
    requires Valid(side.claimed) && Valid(side.unclaimed) && Disjoint(side.claimed, side.unclaimed)
    ensures Valid(Swept(side).claimed) && Swept(side).unclaimed == []
    ensures Has(Swept(side).claimed, a, l) <==> Has(side.claimed, a, l) || (Covered(side.unclaimed, a) && l == UNKNOWN)
  {
    SweptFirstAdds(side, |side.unclaimed|);
    assert SweptAt(side, |side.unclaimed|, a, l);
  }

  // ---------------------------------------------------------------------------------------------
  // Every run
  // ---------------------------------------------------------------------------------------------

  ghost predicate AllSwept(s: State) {
    forall c: Class :: NothingUnclaimed(s, c)
  }

  ghost predicate NothingUnclaimed(s: State, c: Class) { s.Of(c).unclaimed == [] }

  /** Ranges with images are listed as long as they are not claimed, and only they may hold static anchors. */
  ghost predicate ImagesAt(init: State, s: State, swept: bool, a: int, f: Flags) {
    && (!swept ==> (Has(s.withImages, a, f) <==> Has(init.withImages, a, f) && !Covered(s.writable.claimed, a)))
    && (Has(s.withImages, a, f) ==> Has(s.anchorCandidates, a, f))
    && (Has(s.anchorCandidates, a, f) ==> Has(init.withImages, a, f))
  }

  ghost predicate Images(init: State, s: State, swept: bool) {
    forall a: int, f: Flags :: ImagesAt(init, s, swept, a, f)
  }

  /** What every run keeps: before the sweep each claim is in one class, and after it nothing is unclaimed. */
  ghost predicate RunKeeps(init: State, s: State, swept: bool) {
    AllValid(s) && Conserved(init, s) && Images(init, s, swept) && (if swept then AllSwept(s) else Charged(s))
  }

  lemma StartsKept(regions: Regions, init: State)
    requires IsInitial(regions, |regions|, init)
    ensures RunKeeps(init, init, false)
  {
    forall c: Class, a: int, f: Flags ensures ConservedAt(init, init, c, a, f) { assert NothingClaimed(init, c); }
    assert NothingClaimed(init, Writable);
    forall a: int, l: Label ensures ChargedAt(init, a, l) {
      forall c: Class ensures !Has(init.Of(c).claimed, a, l) { assert NothingClaimed(init, c); }
    }
    forall c: Class, d: Class, a: int ensures ChargedOnce(init, c, d, a) { assert NothingClaimed(init, c); }
  }

  lemma ClaimKeepsImages(init: State, s: State, swept: bool, c: Class, base: nat, size: nat, name: Label,
                         candidate: bool)
    requires AllValid(s) && Images(init, s, swept) && (!swept ==> Mapped(s.Of(c).claimed, false, base, size, name).ok)
    ensures Images(init, ClaimIn(s, c, base, size, name, candidate), swept)
  {
    var s' := ClaimIn(s, c, base, size, name, candidate);
    assert SideValid(s, c);
    forall a: int, f: Flags ensures ImagesAt(init, s', swept, a, f) {
      assert ImagesAt(init, s, swept, a, f);
      if c == Writable {
        CoveredAfterMap(s.writable.claimed, false, base, size, name, a);
        UnmapAt(s.withImages, base, size, a, f);
        UnmapAt(s.anchorCandidates, base, size, a, f);
      }
    }
  }

  /** After the sweep a claim takes nothing back. */
  lemma LateClaimConserves(init: State, s: State, c: Class, base: nat, size: nat, name: Label, candidate: bool)
    requires AllValid(s) && Conserved(init, s) && AllSwept(s)
    ensures var s' := ClaimIn(s, c, base, size, name, candidate); Conserved(init, s') && AllSwept(s')
  {
    var s' := ClaimIn(s, c, base, size, name, candidate);
    assert SideValid(s, c);
    forall d: Class ensures NothingUnclaimed(s', d) { assert NothingUnclaimed(s, d); }
    forall d: Class, a: int, f: Flags ensures ConservedAt(init, s', d, a, f) {
      assert ConservedAt(init, s, d, a, f) && NothingUnclaimed(s, d) && NothingUnclaimed(s', d);
      CoveredAfterMap(s.Of(c).claimed, false, base, size, name, a);
    }
  }

  lemma ClaimKeeps(regions: Regions, init: State, s: State, swept: bool, base: nat, size: nat, name: Label,
                   candidate: bool)
    requires RunKeeps(init, s, swept)
    ensures RunKeeps(init, Claim(regions, s, base, size, name, candidate).0, swept)
  {
    var r := Mapped(s.claimedRanges, true, base, size, name);
    if r.ok {
      var t, c := s.(claimedRanges := r.entries), ChargedTo(regions, base, base + size);
      MapKeepsValid(s.claimedRanges, true, base, size, name);
      SameSides(init, s, t, swept);
      ClaimKeepsValid(t, c, base, size, name, candidate);
      if swept {
        LateClaimConserves(init, t, c, base, size, name, candidate);
      } else {
        InnerMapSucceeds(s, c, base, size, name);
        ClaimConserves(init, t, c, base, size, name, candidate);
        ClaimIsCharged(s, c, base, size, name, candidate);
      }
      ClaimKeepsImages(init, t, swept, c, base, size, name, candidate);
    }
  }

  /** What does not concern the row of all claims. */
  lemma SameSides(init: State, s: State, t: State, swept: bool)
    requires AllValid(s) && Conserved(init, s) && Images(init, s, swept)
    requires t == s.(claimedRanges := t.claimedRanges) && Valid(t.claimedRanges)
    ensures AllValid(t) && Conserved(init, t) && Images(init, t, swept) && (AllSwept(s) ==> AllSwept(t))
  {
    forall c: Class ensures SideValid(t, c) { assert SideValid(s, c); }
    forall c: Class, a: int, f: Flags ensures ConservedAt(init, t, c, a, f) { assert ConservedAt(init, s, c, a, f); }
    forall a: int, f: Flags ensures ImagesAt(init, t, swept, a, f) { assert ImagesAt(init, s, swept, a, f); }
    if AllSwept(s) {
      forall c: Class ensures NothingUnclaimed(t, c) { assert NothingUnclaimed(s, c); }
    }
  }

  lemma SidesAreDisjoint(init: State, s: State, c: Class)
    requires Conserved(init, s)
    ensures Disjoint(s.Of(c).claimed, s.Of(c).unclaimed)
  {
    forall a: int ensures !Covered(s.Of(c).claimed, a) || !Covered(s.Of(c).unclaimed, a) {
      CoveredHas(s.Of(c).unclaimed, a);
      if f: Flags :| Has(s.Of(c).unclaimed, a, f) { assert ConservedAt(init, s, c, a, f); }
    }
  }

  lemma SweepKeeps(init: State, s: State, swept: bool)
    requires RunKeeps(init, s, swept)
    ensures RunKeeps(init, Sweep(s), true)
  {
    var s' := Sweep(s);
    forall c: Class ensures SideValid(s', c) && NothingUnclaimed(s', c) {
      assert SideValid(s, c);
      SidesAreDisjoint(init, s, c);
      SweptClaimsAll(s.Of(c), 0, UNKNOWN);
    }
    forall c: Class, a: int, f: Flags ensures ConservedAt(init, s', c, a, f) {
      assert SideValid(s, c) && ConservedAt(init, s, c, a, f) && NothingUnclaimed(s', c);
      SidesAreDisjoint(init, s, c);
      SweptCovers(s.Of(c), a);
      if Has(s.Of(c).unclaimed, a, f) { CoveredHas(s.Of(c).unclaimed, a); }
    }
    forall a: int, f: Flags ensures ImagesAt(init, s', true, a, f) { assert ImagesAt(init, s, swept, a, f); }
  }

  lemma SweptCovers(side: Side, a: int)
    requires Valid(side.claimed) && Valid(side.unclaimed) && Disjoint(side.claimed, side.unclaimed)
    ensures Covered(Swept(side).claimed, a) <==> Covered(side.claimed, a) || Covered(side.unclaimed, a)
  {
    CoveredHas(side.claimed, a);
    CoveredHas(Swept(side).claimed, a);
    if l: Label :| Has(side.claimed, a, l) { SweptClaimsAll(side, a, l); }
    if l: Label :| Has(Swept(side).claimed, a, l) { SweptClaimsAll(side, a, l); }
    SweptClaimsAll(side, a, UNKNOWN);
  }

  lemma OpKeeps(regions: Regions, init: State, s: State, swept: bool, op: Op)
    requires RunKeeps(init, s, swept)
    ensures RunKeeps(init, Apply(regions, s, op), swept || op == SweepOp)
  {
    match op {
      case ClaimOp(base, size, name, candidate) => ClaimKeeps(regions, init, s, swept, base, size, name, candidate);
      case SweepOp => SweepKeeps(init, s, swept);
    }
  }

  /** In every run, each class keeps the addresses it had to begin with: they are unclaimed until they are claimed. */
  lemma {:induction false} EveryRunKeeps(regions: Regions, ops: seq<Op>)
    requires Valid(regions)
    ensures RunKeeps(Initial(regions, |regions|), Run(regions, ops), SweepOp in ops)
    decreases |ops|
  {
    var init := Initial(regions, |regions|);
    if ops == [] {
      InitialIsRegions(regions);
      StartsKept(regions, init);
    } else {
      var before, op := ops[..|ops| - 1], ops[|ops| - 1];
      EveryRunKeeps(regions, before);
      assert ops == before + [op];
      OpKeeps(regions, init, Run(regions, before), SweepOp in before, op);
    }
  }

  /** After the sweep, every address of a region is claimed in the class of the region. */
  lemma SweepLeavesNothing(regions: Regions, init: State, s: State, i: nat, a: int)
    requires IsInitial(regions, |regions|, init) && RunKeeps(init, s, true) && i < |regions| && regions[i].Covers(a)
    ensures Covered(s.Of(ClassOf(regions[i].value)).claimed, a)
  {
    var f := regions[i].value;
    var c := ClassOf(f);
    assert HasAt(regions, a, f, i);
    assert InitialAt(regions, |regions|, init, a, f) && InitialIn(regions, |regions|, init, c, a, f);
    assert ConservedAt(init, s, c, a, f) && NothingUnclaimed(s, c);
  }

  // ---------------------------------------------------------------------------------------------
  // Candidates for static anchors
  // ---------------------------------------------------------------------------------------------

  /** A claim takes a from the candidates if it is accepted for the writable class and does not ask to keep them. */
  ghost predicate Clears(regions: Regions, s: State, op: Op, a: int) {
    && op.ClaimOp? && Claim(regions, s, op.base, op.size, op.name, op.candidate).1
    && ChargedTo(regions, op.base, op.base + op.size) == Writable
    && !op.candidate && op.base <= a < op.base + op.size
  }

  ghost predicate Cleared(regions: Regions, ops: seq<Op>, a: int)
    decreases |ops|
  {
    ops != [] &&
    var before := ops[..|ops| - 1];
    Cleared(regions, before, a) || Clears(regions, Run(regions, before), ops[|ops| - 1], a)
  }

  lemma OpOnCandidates(regions: Regions, s: State, op: Op, a: int, f: Flags)
    requires Valid(s.anchorCandidates)
    ensures Has(Apply(regions, s, op).anchorCandidates, a, f) <==>
            Has(s.anchorCandidates, a, f) && !Clears(regions, s, op, a)
  {
    if op.ClaimOp? {
      UnmapAt(s.anchorCandidates, op.base, op.size, a, f);
    }
  }

  /** In every run, the candidates are the writable ranges with images, without what some claim took from them. */
  lemma {:induction false} CandidatesAreExact(regions: Regions, ops: seq<Op>, a: int, f: Flags)
    requires Valid(regions)
    ensures Has(Run(regions, ops).anchorCandidates, a, f) <==>
            f.writable && f.image && RegionHas(regions, |regions|, a, f) && !Cleared(regions, ops, a)
    decreases |ops|
  {
    if ops == [] {
      InitialIsRegions(regions);
      assert InitialAt(regions, |regions|, Initial(regions, |regions|), a, f);
    } else {
      var before := ops[..|ops| - 1];
      CandidatesAreExact(regions, before, a, f);
      EveryRunKeeps(regions, before);
      OpOnCandidates(regions, Run(regions, before), ops[|ops| - 1], a, f);
    }
  }
}

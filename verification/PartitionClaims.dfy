/** What claims keep as long as nothing has been swept. */
module PartitionClaims {
  import opened Partition
  import opened PartitionStart
  import opened RangeFacts
  import opened RangeMapping
  import opened RangeMaps
  import opened RangeUnmapping

  /** In each class the unclaimed addresses are those it had to begin with, without those claimed. */
  ghost predicate ConservedAt(init: State, s: State, c: Class, a: int, f: Flags) {
    Has(s.Of(c).unclaimed, a, f) <==> Has(init.Of(c).unclaimed, a, f) && !Covered(s.Of(c).claimed, a)
  }

  ghost predicate Conserved(init: State, s: State) {
    forall c: Class, a: int, f: Flags :: ConservedAt(init, s, c, a, f)
  }

  /** A claim is recorded for one class, and under one label. */
  ghost predicate ChargedAt(s: State, a: int, l: Label) {
    Has(s.claimedRanges, a, l) <==> exists c: Class :: Has(s.Of(c).claimed, a, l)
  }

  ghost predicate ChargedOnce(s: State, c: Class, d: Class, a: int) {
    Covered(s.Of(c).claimed, a) && Covered(s.Of(d).claimed, a) ==> c == d
  }

  ghost predicate Charged(s: State) {
    && (forall a: int, l: Label :: ChargedAt(s, a, l))
    && forall c: Class, d: Class, a: int :: ChargedOnce(s, c, d, a)
  }

  lemma ChargedMeansClaimed(s: State, c: Class, a: int)
    requires Charged(s) && Covered(s.Of(c).claimed, a)
    ensures Covered(s.claimedRanges, a)
  {
    CoveredHas(s.Of(c).claimed, a);
    CoveredHas(s.claimedRanges, a);
    var l: Label :| Has(s.Of(c).claimed, a, l);
    assert ChargedAt(s, a, l);
  }

  /** Before the sweep, a range that was not claimed at all is free in every class. */
  lemma InnerMapSucceeds(s: State, c: Class, base: nat, size: nat, name: Label)
    requires AllValid(s) && Charged(s) && Mapped(s.claimedRanges, true, base, size, name).ok
    ensures Mapped(s.Of(c).claimed, false, base, size, name).ok
  {
    MapKeepsValid(s.claimedRanges, true, base, size, name);
    assert SideValid(s, c);
    MapKeepsValid(s.Of(c).claimed, false, base, size, name);
    if size > 0 {
      FreeIffUncovered(s.claimedRanges, base, base + size);
      FreeIffUncovered(s.Of(c).claimed, base, base + size);
      forall a: int | base <= a < base + size ensures !Covered(s.Of(c).claimed, a) {
        if Covered(s.Of(c).claimed, a) { ChargedMeansClaimed(s, c, a); }
      }
    }
  }

  lemma CoveredAfterMap(e: seq<Entry<Label>>, coalesce: bool, base: nat, size: nat, name: Label, a: int)
    requires Valid(e)
    ensures var r := Mapped(e, coalesce, base, size, name);
            Covered(r.entries, a) <==> Covered(e, a) || (r.ok && base <= a < base + size)
  {
    var r := Mapped(e, coalesce, base, size, name);
    CoveredHas(e, a);
    CoveredHas(r.entries, a);
    if l: Label :| Has(e, a, l) { MapAt(e, coalesce, base, size, name, a, l); }
    if l: Label :| Has(r.entries, a, l) { MapAt(e, coalesce, base, size, name, a, l); }
    MapAt(e, coalesce, base, size, name, a, name);
  }

  lemma UnmapKeepsValid<V(!new)>(e: seq<Entry<V>>, base: nat, size: nat)
    requires Valid(e)
    ensures Valid(Unmapped(e, base, size))
  {
    UnmapRemoves(e, base, size);
  }

  lemma SideStaysValid(s: State, s': State, c: Class, base: nat, size: nat, name: Label)
    requires SideValid(s, c)
    requires s'.Of(c) == Side(Mapped(s.Of(c).claimed, false, base, size, name).entries,
                              Unmapped(s.Of(c).unclaimed, base, size))
    ensures SideValid(s', c)
  {
    MapKeepsValid(s.Of(c).claimed, false, base, size, name);
    UnmapKeepsValid(s.Of(c).unclaimed, base, size);
  }

  lemma ClaimKeepsValid(s: State, c: Class, base: nat, size: nat, name: Label, candidate: bool)
    requires AllValid(s)
    ensures AllValid(ClaimIn(s, c, base, size, name, candidate))
  {
    var s' := ClaimIn(s, c, base, size, name, candidate);
    UnmapKeepsValid(s.withImages, base, size);
    UnmapKeepsValid(s.anchorCandidates, base, size);
    forall d: Class ensures SideValid(s', d) {
      assert SideValid(s, d);
      if d == c { SideStaysValid(s, s', c, base, size, name); }
    }
  }

  /** A claim that its class accepts moves its addresses from unclaimed to claimed. */
  lemma ClaimConserves(init: State, s: State, c: Class, base: nat, size: nat, name: Label, candidate: bool)
    requires AllValid(s) && Conserved(init, s) && Mapped(s.Of(c).claimed, false, base, size, name).ok
    ensures Conserved(init, ClaimIn(s, c, base, size, name, candidate))
  {
    var s' := ClaimIn(s, c, base, size, name, candidate);
    assert SideValid(s, c);
    forall d: Class, a: int, f: Flags ensures ConservedAt(init, s', d, a, f) {
      assert ConservedAt(init, s, d, a, f);
      CoveredAfterMap(s.Of(c).claimed, false, base, size, name, a);
      UnmapAt(s.Of(c).unclaimed, base, size, a, f);
    }
  }

  /** Before the sweep, a claim that was accepted is recorded in its class too. */
  lemma ClaimIsCharged(s: State, c: Class, base: nat, size: nat, name: Label, candidate: bool)
    requires AllValid(s) && Charged(s) && Mapped(s.claimedRanges, true, base, size, name).ok
    ensures Charged(ClaimIn(s.(claimedRanges := Mapped(s.claimedRanges, true, base, size, name).entries),
                            c, base, size, name, candidate))
  {
    var r := Mapped(s.claimedRanges, true, base, size, name);
    var s' := ClaimIn(s.(claimedRanges := r.entries), c, base, size, name, candidate);
    assert SideValid(s, c);
    InnerMapSucceeds(s, c, base, size, name);
    forall a: int, l: Label ensures ChargedAt(s', a, l) {
      ClaimIsChargedAt(s, s', c, base, size, name, a, l);
    }
    forall d: Class, d': Class, a: int ensures ChargedOnce(s', d, d', a) {
      assert ChargedOnce(s, d, d', a);
      CoveredAfterMap(s.Of(c).claimed, false, base, size, name, a);
      if base <= a < base + size {
        RangeWasUnclaimed(s, base, size, name, d, a);
        RangeWasUnclaimed(s, base, size, name, d', a);
      }
    }
  }

  lemma ClaimedWasFree(e: seq<Entry<Label>>, base: nat, size: nat, name: Label, a: int)
    requires Valid(e) && Mapped(e, true, base, size, name).ok && base <= a < base + size
    ensures !Covered(e, a)
  {
    MapKeepsValid(e, true, base, size, name);
    FreeIffUncovered(e, base, base + size);
  }

  lemma RangeWasUnclaimed(s: State, base: nat, size: nat, name: Label, c: Class, a: int)
    requires AllValid(s) && Charged(s) && Mapped(s.claimedRanges, true, base, size, name).ok && base <= a < base + size
    ensures !Covered(s.claimedRanges, a) && !Covered(s.Of(c).claimed, a)
  {
    ClaimedWasFree(s.claimedRanges, base, size, name, a);
    if Covered(s.Of(c).claimed, a) { ChargedMeansClaimed(s, c, a); }
  }

  lemma ClaimIsChargedAt(s: State, s': State, c: Class, base: nat, size: nat, name: Label, a: int, l: Label)
    requires AllValid(s) && ChargedAt(s, a, l)
    requires Mapped(s.claimedRanges, true, base, size, name).ok && Mapped(s.Of(c).claimed, false, base, size, name).ok
    requires s'.claimedRanges == Mapped(s.claimedRanges, true, base, size, name).entries
    requires s'.Of(c).claimed == Mapped(s.Of(c).claimed, false, base, size, name).entries
    requires forall d: Class :: d != c ==> s'.Of(d) == s.Of(d)
    ensures ChargedAt(s', a, l)
  {
    assert SideValid(s, c);
    MapAt(s.claimedRanges, true, base, size, name, a, l);
    MapAt(s.Of(c).claimed, false, base, size, name, a, l);
    if d: Class :| Has(s.Of(d).claimed, a, l) {
      assert Has(s'.Of(d).claimed, a, l);
    }
    if d: Class :| Has(s'.Of(d).claimed, a, l) {
      assert d == c || Has(s.Of(d).claimed, a, l);
    }
  }
}

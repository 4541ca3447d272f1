/** The partition that is changed in place. */
module VirtualMemory {
  import opened Partition
  import opened PartitionRuns
  import opened RangeLookup
  import opened RangeMaps

  /** Records one region: which of the rows it goes to depends on its flags. */
  method RecordRegion(s: State, r: Entry<Flags>) returns (s': State)
    ensures s' == AddRegion(s, r)
  {
    var base, flags := Start(r), r.value;
    s' := s;
    if flags.writable {
      s' := s'.(writable := s.writable.(unclaimed := Mapped(s.writable.unclaimed, true, base, r.size, flags).entries));
      if flags.image {
        s' := s'.(withImages := Mapped(s.withImages, true, base, r.size, flags).entries);
        s' := s'.(anchorCandidates := Mapped(s.anchorCandidates, true, base, r.size, flags).entries);
      }
    } else if flags.executable {
      s' := s'.(rxOnly := s.rxOnly.(unclaimed := Mapped(s.rxOnly.unclaimed, true, base, r.size, flags).entries));
    } else if flags.readable {
      s' := s'.(readOnly := s.readOnly.(unclaimed := Mapped(s.readOnly.unclaimed, true, base, r.size, flags).entries));
    } else {
      s' := s'.(inaccessible :=
        s.inaccessible.(unclaimed := Mapped(s.inaccessible.unclaimed, true, base, r.size, flags).entries));
    }
  }

  /** Records every region of the address map. */
  method AllUnclaimed(regions: Regions) returns (s: State)
    ensures s == Initial(regions, |regions|)
  {
    s := EMPTY;
    var n := 0;
    while n < |regions|
      invariant n <= |regions| && s == Initial(regions, n)
    {
      s := RecordRegion(s, regions[n]);
      n := n + 1;
    }
  }

  /** Claims each unclaimed range of a class in turn. */
  method ClaimAll(side: Side) returns (claimed: seq<Entry<Label>>)
    ensures Side(claimed, []) == Swept(side)
  {
    claimed := side.claimed;
    var n := 0;
    while n < |side.unclaimed|
      invariant n <= |side.unclaimed| && claimed == SweptFirst(side, n)
    {
      var range := side.unclaimed[n];
      claimed := Mapped(claimed, false, Start(range), range.size, UNKNOWN).entries;
      n := n + 1;
    }
  }

  lemma RunNext(regions: Regions, ops: seq<Op>, op: Op)
    ensures Run(regions, ops + [op]) == Apply(regions, Run(regions, ops), op)
  {
    assert (ops + [op])[..|ops|] == ops;
  }

  class VirtualMemoryPartition {
    const regions: Regions
    var claimedRanges: seq<Entry<Label>>
    var writable: Side
    var rxOnly: Side
    var readOnly: Side
    var inaccessible: Side
    var unclaimedWithImages: seq<Entry<Flags>>
    var anchorCandidates: seq<Entry<Flags>>
    ghost var ops: seq<Op>

    ghost function Contents(): State
      reads this
    {
      State(claimedRanges, writable, rxOnly, readOnly, inaccessible, unclaimedWithImages, anchorCandidates)
    }

    /** The partition is what the calls made so far lead to. */
    ghost predicate Reached()
      reads this
    {
      Valid(regions) && Contents() == Run(regions, ops)
    }

    constructor (regions: Regions)
      requires Valid(regions)
      ensures Reached() && this.regions == regions && ops == []
    {
      this.regions := regions;
      var s := AllUnclaimed(regions);
      claimedRanges, unclaimedWithImages, anchorCandidates := s.claimedRanges, s.withImages, s.anchorCandidates;
      writable, rxOnly, readOnly, inaccessible := s.writable, s.rxOnly, s.readOnly, s.inaccessible;
      ops := [];
    }

    /** Claims a range unless it overlaps one that was claimed. */
    method ClaimRange(base: nat, size: nat, name: Label, candidate: bool) returns (claimed: bool)
      requires Reached()
      modifies this
      ensures Reached() && ops == old(ops) + [ClaimOp(base, size, name, candidate)]
      ensures claimed == Claim(regions, old(Contents()), base, size, name, candidate).1
    {
      RunNext(regions, ops, ClaimOp(base, size, name, candidate));
      claimed := RecordClaim(base, size, name, candidate);
      ops := ops + [ClaimOp(base, size, name, candidate)];
    }

    /** Records a claim in the row of all claims, and in the class of the first region that it reaches into. */
    method RecordClaim(base: nat, size: nat, name: Label, candidate: bool) returns (claimed: bool)
      modifies this
      ensures (Contents(), claimed) == Claim(regions, old(Contents()), base, size, name, candidate) && ops == old(ops)
    {
      var result := Mapped(claimedRanges, true, base, size, name);
      claimedRanges := result.entries;
      if !result.ok {
        return false;
      }
      var limit := base + size;
      var it := UpperBound(regions, base);
      if it == |regions| || regions[it].Base() >= limit {
        inaccessible := Side(Mapped(inaccessible.claimed, false, base, size, name).entries,
                             Unmapped(inaccessible.unclaimed, base, size));
      } else {
        ClaimRangeWithFlags(base, size, name, regions[it].value, candidate);
      }
      claimed := true;
    }

    method ClaimRangeWithFlags(base: nat, size: nat, name: Label, flags: Flags, candidate: bool)
      modifies this
      ensures Contents() == ClaimIn(old(Contents()), ClassOf(flags), base, size, name, candidate) && ops == old(ops)
    {
      if flags.writable {
        unclaimedWithImages := Unmapped(unclaimedWithImages, base, size);
        if !candidate {
          anchorCandidates := Unmapped(anchorCandidates, base, size);
        }
        writable := Side(Mapped(writable.claimed, false, base, size, name).entries,
                         Unmapped(writable.unclaimed, base, size));
      } else if flags.executable {
        rxOnly := Side(Mapped(rxOnly.claimed, false, base, size, name).entries, Unmapped(rxOnly.unclaimed, base, size));
      } else if flags.readable {
        readOnly := Side(Mapped(readOnly.claimed, false, base, size, name).entries,
                         Unmapped(readOnly.unclaimed, base, size));
      } else {
        inaccessible := Side(Mapped(inaccessible.claimed, false, base, size, name).entries,
                             Unmapped(inaccessible.unclaimed, base, size));
      }
    }

    method ClaimUnclaimedRangesAsUnknown()
      requires Reached()
      modifies this
      ensures Reached() && ops == old(ops) + [SweepOp]
    {
      RunNext(regions, ops, SweepOp);
      ops := ops + [SweepOp];
      var claimed := ClaimAll(writable);
      writable := Side(claimed, []);
      claimed := ClaimAll(rxOnly);
      rxOnly := Side(claimed, []);
      claimed := ClaimAll(readOnly);
      readOnly := Side(claimed, []);
      claimed := ClaimAll(inaccessible);
      inaccessible := Side(claimed, []);
    }

    /** Whether some claim that was accepted covers the address. */
    method IsClaimed(address: nat) returns (claimed: bool)
      requires Reached()
      ensures claimed <==> Covered(claimedRanges, address)
    {
      EveryRunKeeps(regions, ops);
      FindIsExact(claimedRanges, address);
      var it := Find(claimedRanges, address);
      claimed := it < |claimedRanges|;
      if claimed { assert claimedRanges[it].Covers(address); }
    }
  }
}

/** Lookup of the innermost allocation that contains an address, and the directory that is updated in place. */
module DirectoryLookup {
  import opened AllocationDirectory
  import opened DirectoryHeights
  import opened DirectoryLevels
  import opened DirectorySteps

  /** r is the innermost allocation that contains a, or the number of allocations if none does. */
  ghost predicate IsInnermost(al: seq<Allocation>, a: int, r: nat) {
    if r < |al| then
      && al[r].Contains(a)
      && forall i :: 0 <= i < |al| && al[i].Contains(a) ==>
           i <= r && al[i].address <= al[r].address && al[r].Limit() <= al[i].Limit()
    else
      r == |al| && forall i :: 0 <= i < |al| ==> !al[i].Contains(a)
  }

  ghost predicate NoLeafContains(al: seq<Allocation>, a: int) {
    forall i :: 0 <= i < |al| && !al[i].wrapper ==> !al[i].Contains(a)
  }

  ghost predicate NoneContains(al: seq<Allocation>, level: seq<nat>, a: int) {
    forall p :: 0 <= p < |level| && level[p] < |al| ==> !al[level[p]].Contains(a)
  }

  /** A leaf that contains a is innermost. */
  lemma LeafIsInnermost(al: seq<Allocation>, a: int, r: nat)
    requires Shape(al) && r < |al| && !al[r].wrapper && al[r].Contains(a)
    ensures IsInnermost(al, a, r)
  {
    forall i | 0 <= i < |al| && al[i].Contains(a)
      ensures i <= r && al[i].address <= al[r].address && al[r].Limit() <= al[i].Limit()
    {
      if i < r { Pair(al, i, r); }
      assert MarkedIfInside(al, r, i);
    }
  }

  /** A wrapper that contains a is innermost if no leaf contains a and neither does any wrapper on a lower level. */
  lemma {:induction false} WrapperIsInnermost(al: seq<Allocation>, levels: seq<seq<nat>>, k: nat, a: int, w: nat)
    requires Shape(al) && LevelsOk(al, levels) && NoLeafContains(al, a)
    requires forall q :: 0 <= q < |al| && al[q].wrapper && al[q].Contains(a) ==> q in Members(levels)
    requires k < |levels| && forall m :: 0 <= m < k ==> NoneContains(al, levels[m], a)
    requires w in levels[k] && w < |al| && al[w].Contains(a)
    ensures IsInnermost(al, a, w)
    decreases k
  {
    if k == 0 {
      forall i | 0 <= i < |al| && al[i].Contains(a)
        ensures i <= w && al[i].address <= al[w].address && al[w].Limit() <= al[i].Limit()
      {
        NoneInsideWithin(al, levels, w, i);
        if i < w { Pair(al, i, w); }
      }
    } else {
      var rest := levels[1..];
      OkIndexed(al, levels);
      assert NoneContains(al, levels[0], a);
      assert forall m :: 0 <= m < k - 1 ==> rest[m] == levels[m + 1];
      WrapperIsInnermost(al, rest, k - 1, a, w);
    }
  }

  lemma NothingContains(al: seq<Allocation>, levels: seq<seq<nat>>, a: int)
    requires AllFiled(al, levels) && NoLeafContains(al, a)
    requires forall m :: 0 <= m < |levels| ==> NoneContains(al, levels[m], a)
    ensures IsInnermost(al, a, |al|)
  {
    forall i | 0 <= i < |al| ensures !al[i].Contains(a) {
      if al[i].wrapper {
        var m := MemberLevel(levels, i);
        assert NoneContains(al, levels[m], a);
        var p :| 0 <= p < |levels[m]| && levels[m][p] == i;
      }
    }
  }

  lemma EarlierLeavesMiss(al: seq<Allocation>, mid: nat, a: int)
    requires Shape(al) && mid < |al| && al[mid].address <= a
    requires al[mid].wrapper || al[mid].Limit() <= a
    ensures forall i :: 0 <= i <= mid && !al[i].wrapper ==> !al[i].Contains(a)
  {
    forall i | 0 <= i < mid && !al[i].wrapper ensures !al[i].Contains(a) {
      assert MarkedIfInside(al, i, mid);
    }
  }

  lemma LaterMiss(al: seq<Allocation>, mid: nat, a: int)
    requires Ordered(al) && mid < |al| && a < al[mid].address
    ensures forall i :: mid <= i < |al| ==> !al[i].Contains(a)
  {
    forall i | mid < i < |al| ensures !al[i].Contains(a) {
      assert InOrder(al, mid, i);
    }
  }

  /** Whether a position of a level can be ruled out. */
  ghost predicate Misses(al: seq<Allocation>, level: seq<nat>, p: nat, a: int) {
    p < |level| && level[p] < |al| ==> !al[level[p]].Contains(a)
  }

  lemma LevelSplit(al: seq<Allocation>, level: seq<nat>, mid: nat, a: int)
    requires Ordered(al) && LevelOk(al, level) && mid < |level| && !al[level[mid]].Contains(a)
    ensures al[level[mid]].address <= a ==> forall p: nat :: p <= mid ==> Misses(al, level, p, a)
    ensures a < al[level[mid]].address ==> forall p: nat :: mid <= p ==> Misses(al, level, p, a)
  {
    forall p | mid < p < |level| ensures al[level[mid]].address <= al[level[p]].address {
      assert InOrder(al, level[mid], level[p]);
    }
  }

  /** The wrapper of a level that contains a, or the number of allocations. */
  method SearchLevel(al: seq<Allocation>, level: seq<nat>, a: nat) returns (r: nat)
    requires Ordered(al) && LevelOk(al, level)
    ensures r < |al| ==> r in level && al[r].Contains(a)
    ensures r >= |al| ==> NoneContains(al, level, a)
  {
    var base, limit := 0, |level|;
    while base < limit
      invariant base <= limit <= |level|
      invariant forall p: nat :: p < base || limit <= p ==> Misses(al, level, p, a)
    {
      var mid := (base + limit) / 2;
      var index := level[mid];
      if al[index].Contains(a) {
        return index;
      }
      LevelSplit(al, level, mid, a);
      if al[index].address <= a {
        base := mid + 1;
      } else {
        limit := mid;
      }
    }
    forall p | 0 <= p < |level| && level[p] < |al| ensures !al[level[p]].Contains(a) {
      assert Misses(al, level, p, a);
    }
    r := |al|;
  }

  /** The leaf that contains a, or the number of allocations. */
  method SearchLeaves(al: seq<Allocation>, a: nat) returns (r: nat)
    requires Shape(al)
    ensures r < |al| ==> al[r].Contains(a) && !al[r].wrapper
    ensures r >= |al| ==> r == |al| && NoLeafContains(al, a)
  {
    var base, limit := 0, |al|;
    while base < limit
      invariant base <= limit <= |al|
      invariant forall i :: 0 <= i < base && !al[i].wrapper ==> !al[i].Contains(a)
      invariant forall i :: limit <= i < |al| ==> !al[i].Contains(a)
    {
      var mid := (base + limit) / 2;
      if al[mid].address <= a {
        if a < al[mid].Limit() && !al[mid].wrapper {
          return mid;
        }
        EarlierLeavesMiss(al, mid, a);
        base := mid + 1;
      } else {
        LaterMiss(al, mid, a);
        limit := mid;
      }
    }
    r := |al|;
  }

  /** The innermost wrapper that contains a, given that no leaf does. */
  method SearchWrappers(al: seq<Allocation>, levels: seq<seq<nat>>, a: nat) returns (r: nat)
    requires Shape(al) && LevelsOk(al, levels) && AllFiled(al, levels) && NoLeafContains(al, a)
    ensures IsInnermost(al, a, r)
  {
    var k := 0;
    while k < |levels|
      invariant k <= |levels|
      invariant forall m :: 0 <= m < k ==> NoneContains(al, levels[m], a)
    {
      LevelOkAt(al, levels, k);
      r := SearchLevel(al, levels[k], a);
      if r < |al| {
        WrapperIsInnermost(al, levels, k, a, r);
        return;
      }
      k := k + 1;
    }
    NothingContains(al, levels, a);
    r := |al|;
  }

  /** Searches the leaves first and then the levels of wrappers, from the innermost outward. */
  method FindInnermost(al: seq<Allocation>, levels: seq<seq<nat>>, a: nat) returns (r: nat)
    requires Shape(al) && LevelsOk(al, levels) && AllFiled(al, levels)
    ensures IsInnermost(al, a, r)
  {
    r := SearchLeaves(al, a);
    if r < |al| {
      LeafIsInnermost(al, a, r);
    } else {
      r := SearchWrappers(al, levels, a);
    }
  }

  /** Replaces the last entry of each level that still is open and carries it up to the next level. */
  method PlaceWrapper(al: seq<Allocation>, wrappers: seq<seq<nat>>, wrapperIndex: nat, limit: nat)
    returns (levels: seq<seq<nat>>)
    requires Indexed(al, wrappers)
    ensures levels == Carry(al, wrappers, wrapperIndex, limit)
  {
    levels := [];
    var toPlace: nat, rest := wrapperIndex, wrappers;
    while rest != []
      invariant Indexed(al, rest)
      invariant Carry(al, wrappers, wrapperIndex, limit) == levels + Carry(al, rest, toPlace, limit)
      decreases |rest|
    {
      var back: nat := Last(rest[0]);
      if al[back].Limit() < limit {
        levels := levels + ([rest[0] + [toPlace]] + rest[1..]);
        return;
      }
      levels := levels + [Init(rest[0]) + [toPlace]];
      toPlace, rest := back, rest[1..];
    }
    levels := levels + [[toPlace]];
  }

  /** The fields that are updated in place while finders report their allocations. */
  class Directory {
    var allocations: seq<Allocation>
    var limits: seq<Open>
    var wrappers: seq<seq<nat>>
    var maxAllocationSize: nat
    ghost var offers: seq<Offer>

    ghost function Contents(): State
      reads this
    {
      State(allocations, limits, wrappers, maxAllocationSize)
    }

    ghost predicate Valid()
      reads this
    {
      Contents() == Built(offers)
    }

    constructor ()
      ensures Valid() && offers == []
    {
      allocations, limits, wrappers, maxAllocationSize := [], [], [], 0;
      offers := [];
    }

    method ConsumeCurrentAllocation(o: Offer)
      requires Valid()
      modifies this
      ensures Valid() && offers == old(offers) + [o]
    {
      var address, limit := o.item.address, o.item.Limit();
      var isWrapped := false;
      offers := offers + [o];
      assert Init(offers) == old(offers);
      while limits != [] && Last(limits).limit < limit
        invariant limits <= old(limits) && Close(limits, address, limit) == Close(old(limits), address, limit)
        invariant Contents() == old(Contents()).(limits := limits) && offers == old(offers) + [o]
        decreases |limits|
      {
        if address < Last(limits).limit {
          return;
        }
        limits := Init(limits);
      }
      if limits != [] {
        isWrapped := true;
        var wrapperIndex := Last(limits).index;
        if !allocations[wrapperIndex].wrapper {
          allocations := MarkWrapper(allocations, wrapperIndex);
          IndexedStays(old(allocations), allocations, wrappers);
          wrappers := PlaceWrapper(allocations, wrappers, wrapperIndex, limit);
        }
      }
      limits := limits + [Open(|allocations|, limit)];
      allocations := allocations + [Allocation(address, o.item.size, o.item.used, o.finder, false, isWrapped)];
      if maxAllocationSize < o.item.size {
        maxAllocationSize := o.item.size;
      }
    }

    method AllocationIndexOf(a: nat) returns (r: nat)
      requires Valid() && InAddressOrder(offers)
      ensures IsInnermost(allocations, a, r)
    {
      BuiltKeeps(offers);
      r := FindInnermost(allocations, wrappers, a);
    }
  }
}

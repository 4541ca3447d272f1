/** Lookup of single addresses, and the map of ranges that is changed in place. */
module RangeLookup {
  import opened RangeMapping
  import opened RangeMaps
  import opened RangeUnmapping

  /** The position of the range that contains member, or the end. */
  function Find<V>(e: seq<Entry<V>>, member: nat): nat {
    var it := UpperBound(e, member);
    if it < |e| && member < e[it].Base() then |e| else it
  }

  lemma FindIsExact<V>(e: seq<Entry<V>>, member: nat)
    requires Valid(e)
    ensures var r := Find(e, member); r <= |e| && if r < |e| then e[r].Covers(member) else !Covered(e, member)
  {
    var it: nat := UpperBound(e, member);
    if i :| 0 <= i < |e| && e[i].Covers(member) {
      assert i < it ==> EndsBelow(e, i, member + 1);
      assert Apart(e, it, i);
    }
  }

  /** The map of ranges that is changed in place. */
  class RangeMapper<V(==,!new)> {
    const coalesce: bool
    var entries: seq<Entry<V>>

    constructor (coalesce: bool)
      ensures Valid(entries) && entries == [] && this.coalesce == coalesce
    {
      this.coalesce := coalesce;
      entries := [];
    }

    /** Maps the range if it overlaps no other; the position returned is that of the range it became, or met. */
    method MapRange(base: nat, size: nat, value: V) returns (at: nat, ok: bool)
      requires Valid(entries)
      modifies this
      ensures Result(entries, at, ok) == Mapped(old(entries), coalesce, base, size, value)
      ensures Valid(entries) && (ok <==> size == 0 || Free(old(entries), base, base + size))
    {
      MapKeepsValid(entries, coalesce, base, size, value);
      if size == 0 {
        return |entries|, true;
      }
      var newSize, limit := size, base + size;
      var it := LowerBound(entries, base);
      if it < |entries| && entries[it].Base() <= limit {
        if entries[it].Base() == limit {
          if entries[it].value == value && coalesce {
            entries := entries[it := Entry(entries[it].limit, entries[it].size + size, entries[it].value)];
            return it, true;
          }
        } else if entries[it].limit == base {
          if it + 1 < |entries| && entries[it + 1].Base() < limit {
            return it + 1, false;
          }
          if entries[it].value == value && coalesce {
            newSize := newSize + entries[it].size;
            entries := Erase(entries, it);
          }
        } else {
          return it, false;
        }
      }
      var emplaced := Emplace(entries, Entry(limit, newSize, value));
      entries := emplaced.entries;
      return emplaced.at, true;
    }

    /** Removes the addresses of the range, cutting off or splitting the ranges that it overlaps. */
    method UnmapRange(base: nat, size: nat)
      requires Valid(entries)
      modifies this
      ensures entries == Unmapped(old(entries), base, size)
      ensures Valid(entries)
    {
      UnmapRemoves(entries, base, size);
      if size == 0 {
        return;
      }
      var rangeLimit := base + size;
      var it: nat := LowerBound(entries, base);
      while it < |entries| && entries[it].Base() < rangeLimit
        invariant UnmapFrom(entries, it, base, rangeLimit) == Unmapped(old(entries), base, size)
        decreases |entries| - it
      {
        var here := entries[it];
        if here.limit == base {
          it := it + 1;
        } else {
          if here.Base() < base {
            var before := |entries|;
            entries := KeepHead(entries, it, base);
            it := it + |entries| - before;
          }
          if here.limit <= rangeLimit {
            entries := Erase(entries, it);
          } else {
            entries := entries[it := Entry(here.limit, here.limit - rangeLimit, here.value)];
            return;
          }
        }
      }
    }

    /** The range that contains member, or the end. */
    method FindMember(member: nat) returns (at: nat)
      requires Valid(entries)
      ensures at <= |entries| && if at < |entries| then entries[at].Covers(member) else !Covered(entries, member)
    {
      FindIsExact(entries, member);
      at := UpperBound(entries, member);
      if at != |entries| {
        if member < entries[at].Base() {
          at := |entries|;
        }
      }
    }

    /** Whether some range contains member, with its base, size and value; they are left as given if none does. */
    method FindRange(member: nat, rangeBase0: int, rangeSize0: nat, value0: V)
      returns (found: bool, rangeBase: int, rangeSize: nat, value: V)
      requires Valid(entries)
      ensures found <==> Covered(entries, member)
      ensures found ==>
                exists i :: HasAt(entries, member, value, i)
                            && rangeBase == entries[i].Base() && rangeSize == entries[i].size
      ensures !found ==> rangeBase == rangeBase0 && rangeSize == rangeSize0 && value == value0
    {
      FindIsExact(entries, member);
      found, rangeBase, rangeSize, value := false, rangeBase0, rangeSize0, value0;
      var it := UpperBound(entries, member);
      if it != |entries| {
        var foundRangeSize := entries[it].size;
        var foundRangeBase := entries[it].limit - foundRangeSize;
        if foundRangeBase <= member {
          rangeBase, rangeSize, value := foundRangeBase, foundRangeSize, entries[it].value;
          found := true;
          assert HasAt(entries, member, value, it);
        }
      }
    }
  }
}

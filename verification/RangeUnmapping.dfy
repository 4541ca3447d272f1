/** Unmapping removes exactly the given addresses. */
module RangeUnmapping {
  import opened RangeMapping
  import opened RangeMaps
  import opened RangeMerging

  /** e' maps what e maps outside of [base, limit). */
  ghost predicate Removes<V(!new)>(e: seq<Entry<V>>, e': seq<Entry<V>>, base: nat, limit: nat) {
    forall a: int, v: V :: RemovesAt(e, e', base, limit, a, v)
  }

  ghost predicate RemovesAt<V(!new)>(e: seq<Entry<V>>, e': seq<Entry<V>>, base: nat, limit: nat, a: int, v: V) {
    Has(e', a, v) <==> Has(e, a, v) && !(base <= a < limit)
  }

  ghost predicate EndsBy<V>(e: seq<Entry<V>>, i: int, x: int) {
    0 <= i < |e| ==> e[i].limit <= x
  }

  ghost predicate Reaches<V>(e: seq<Entry<V>>, i: int, x: int) {
    0 <= i < |e| ==> x <= e[i].limit
  }

  /** Ranges before position it end at or before base, and the others end at or after it. */
  ghost predicate ClearBefore<V>(e: seq<Entry<V>>, it: nat, base: nat) {
    && it <= |e|
    && (forall i :: i < it ==> EndsBy(e, i, base))
    && (forall i :: it <= i ==> Reaches(e, i, base))
  }

  lemma HeadKept<V>(e: seq<Entry<V>>, it: nat, base: nat)
    requires Valid(e) && ClearBefore(e, it, base) && it < |e| && e[it].Base() < base < e[it].limit
    ensures KeepHead(e, it, base) == Insert(e, it, Entry(base, base - e[it].Base(), e[it].value))
  {
    forall i | i < it ensures EndsBelow(e, i, base) { assert Apart(e, i, it); }
    FirstIsUnique(e, base, it, LowerBound(e, base));
  }

  /** What is left when the addresses of [base, limit) are cut out of entry it. */
  function Cut<V>(e: seq<Entry<V>>, it: nat, base: nat, limit: nat): seq<Entry<V>>
    requires it < |e|
  {
    var split := if e[it].Base() < base then KeepHead(e, it, base) else e;
    var here := it + |split| - |e|;
    if e[it].limit <= limit then Erase(split, here)
    else split[here := Entry(e[it].limit, e[it].limit - limit, e[it].value)]
  }

  ghost predicate CutDone<V(!new)>(e: seq<Entry<V>>, it: nat, base: nat, limit: nat, e': seq<Entry<V>>) {
    it < |e| && Valid(e') && forall a: int, v: V :: CutDoneAt(e, it, base, limit, e', a, v)
  }

  ghost predicate CutDoneAt<V(!new)>(e: seq<Entry<V>>, it: nat, base: nat, limit: nat, e': seq<Entry<V>>, a: int, v: V)
    requires it < |e|
  {
    Has(e', a, v) <==> Has(e, a, v) && !(e[it].Covers(a) && base <= a < limit)
  }

  /** Cutting off the end of entry it. */
  lemma HeadInPlace<V(!new)>(e: seq<Entry<V>>, it: nat, base: nat, limit: nat, head: Entry<V>)
    requires Valid(e) && ClearBefore(e, it, base) && it < |e| && e[it].Base() < base < e[it].limit <= limit
    requires head == Entry(base, base - e[it].Base(), e[it].value)
    ensures CutDone(e, it, base, limit, e[it := head])
  {
    assert NonEmptyAt(e, it) && Apart(e, it - 1, it) && Apart(e, it, it + 1);
    var e' := e[it := head];
    ReplaceKeeps(e, it, head);
    forall a: int, v: V ensures CutDoneAt(e, it, base, limit, e', a, v) {
      CoversMeansHas(e, it, a, v);
    }
  }

  lemma HeadIsClear<V>(e: seq<Entry<V>>, it: nat, base: nat, head: Entry<V>)
    requires ClearBefore(e, it, base) && it < |e| && head.limit == base
    ensures ClearBefore(e[it := head], it + 1, base)
  {
    var e' := e[it := head];
    forall i | i <= it ensures EndsBy(e', i, base) { assert i < it ==> EndsBy(e, i, base); }
    forall i | it + 1 <= i ensures Reaches(e', i, base) { assert Reaches(e, i, base); }
  }

  /** Only what precedes base is left of entry it. */
  lemma CutToHead<V(!new)>(e: seq<Entry<V>>, it: nat, base: nat, limit: nat)
    requires Valid(e) && ClearBefore(e, it, base) && it < |e| && e[it].Base() < base < e[it].limit <= limit
    ensures CutDone(e, it, base, limit, Cut(e, it, base, limit))
    ensures ClearBefore(Cut(e, it, base, limit), it + 1, base)
  {
    var head := Entry(base, base - e[it].Base(), e[it].value);
    HeadKept(e, it, base);
    assert Cut(e, it, base, limit) == e[it := head];
    HeadInPlace(e, it, base, limit, head);
    HeadIsClear(e, it, base, head);
  }

  /** Something is left of entry it on both sides. */
  lemma CutMiddle<V(!new)>(e: seq<Entry<V>>, it: nat, base: nat, limit: nat)
    requires Valid(e) && ClearBefore(e, it, base) && it < |e| && e[it].Base() < base < limit < e[it].limit
    ensures CutDone(e, it, base, limit, Cut(e, it, base, limit))
  {
    var head := Entry(base, base - e[it].Base(), e[it].value);
    var tail := Entry(e[it].limit, e[it].limit - limit, e[it].value);
    HeadKept(e, it, base);
    assert NonEmptyAt(e, it) && Apart(e, it - 1, it) && Apart(e, it, it + 1);
    var e' := Insert(e[it := tail], it, head);
    assert Cut(e, it, base, limit) == e';
    ReplaceKeeps(e, it, tail);
    InsertKeeps(e[it := tail], it, head);
    forall a: int, v: V ensures CutDoneAt(e, it, base, limit, e', a, v) {
      CoversMeansHas(e, it, a, v);
    }
  }

  /** Nothing is left of entry it, or what follows limit. */
  lemma CutTail<V(!new)>(e: seq<Entry<V>>, it: nat, base: nat, limit: nat)
    requires Valid(e) && ClearBefore(e, it, base) && it < |e| && base <= e[it].Base() < limit
    ensures CutDone(e, it, base, limit, Cut(e, it, base, limit))
    ensures e[it].limit <= limit ==> ClearBefore(Cut(e, it, base, limit), it, base)
  {
    assert NonEmptyAt(e, it) && Apart(e, it - 1, it) && Apart(e, it, it + 1);
    var e' := Cut(e, it, base, limit);
    if e[it].limit <= limit {
      EraseKeeps(e, it);
      forall i | i < it ensures EndsBy(e', i, base) { assert EndsBy(e, i, base); }
      forall i | it <= i ensures Reaches(e', i, base) { assert Reaches(e, i + 1, base); }
    } else {
      ReplaceKeeps(e, it, Entry(e[it].limit, e[it].limit - limit, e[it].value));
    }
    forall a: int, v: V ensures CutDoneAt(e, it, base, limit, e', a, v) {
      CoversMeansHas(e, it, a, v);
    }
  }

  lemma {:induction false} CutThenRest<V(!new)>(e: seq<Entry<V>>, it: nat, base: nat, limit: nat, here: nat)
    requires it < |e| && base < limit && |Cut(e, it, base, limit)| - here < |e| - it
    requires CutDone(e, it, base, limit, Cut(e, it, base, limit)) && ClearBefore(Cut(e, it, base, limit), here, base)
    ensures Unmaps(e, base, limit, UnmapFrom(Cut(e, it, base, limit), here, base, limit))
    decreases |e| - it, 0
  {
    var e' := Cut(e, it, base, limit);
    UnmapFromRemoves(e', here, base, limit);
    var r := UnmapFrom(e', here, base, limit);
    forall a: int, v: V ensures RemovesAt(e, r, base, limit, a, v) {
      assert RemovesAt(e', r, base, limit, a, v) && CutDoneAt(e, it, base, limit, e', a, v);
    }
  }

  lemma CutIsAll<V(!new)>(e: seq<Entry<V>>, it: nat, base: nat, limit: nat)
    requires Valid(e) && ClearBefore(e, it, base) && it < |e| && limit < e[it].limit
    requires CutDone(e, it, base, limit, Cut(e, it, base, limit)) && e[it].Base() < limit
    ensures Removes(e, Cut(e, it, base, limit), base, limit)
  {
    var e' := Cut(e, it, base, limit);
    forall a: int, v: V ensures RemovesAt(e, e', base, limit, a, v) {
      assert CutDoneAt(e, it, base, limit, e', a, v);
      if Has(e, a, v) {
        var i :| HasAt(e, a, v, i);
        assert i < it ==> EndsBy(e, i, base);
        assert Apart(e, it, i);
      }
    }
  }

  lemma NothingToCut<V(!new)>(e: seq<Entry<V>>, it: nat, base: nat, limit: nat)
    requires Valid(e) && ClearBefore(e, it, base) && (it < |e| ==> limit <= e[it].Base())
    ensures Removes(e, e, base, limit)
  {
    forall a: int, v: V ensures RemovesAt(e, e, base, limit, a, v) {
      if Has(e, a, v) {
        var i :| HasAt(e, a, v, i);
        assert i < it ==> EndsBy(e, i, base);
        assert Apart(e, it, i);
      }
    }
  }

  ghost predicate Unmaps<V(!new)>(e: seq<Entry<V>>, base: nat, limit: nat, r: seq<Entry<V>>) {
    Valid(r) && Removes(e, r, base, limit)
  }

  lemma {:induction false} UnmapOverlap<V(!new)>(e: seq<Entry<V>>, it: nat, base: nat, limit: nat)
    requires Valid(e) && ClearBefore(e, it, base) && it < |e| && base < e[it].limit && e[it].Base() < limit
    requires base < limit
    ensures Unmaps(e, base, limit, UnmapFrom(e, it, base, limit))
    decreases |e| - it, 1
  {
    var e' := Cut(e, it, base, limit);
    if e[it].Base() < base {
      if e[it].limit <= limit {
        CutToHead(e, it, base, limit);
        HeadKept(e, it, base);
        CutThenRest(e, it, base, limit, it + 1);
      } else {
        CutMiddle(e, it, base, limit);
        CutIsAll(e, it, base, limit);
      }
    } else {
      CutTail(e, it, base, limit);
      if e[it].limit <= limit {
        CutThenRest(e, it, base, limit, it);
      } else {
        CutIsAll(e, it, base, limit);
      }
    }
  }

  lemma {:induction false} UnmapFromRemoves<V(!new)>(e: seq<Entry<V>>, it: nat, base: nat, limit: nat)
    requires Valid(e) && ClearBefore(e, it, base) && base < limit
    ensures Unmaps(e, base, limit, UnmapFrom(e, it, base, limit))
    decreases |e| - it, 2
  {
    assert Reaches(e, it, base);
    if it == |e| || limit <= e[it].Base() {
      NothingToCut(e, it, base, limit);
    } else if e[it].limit == base {
      assert EndsBy(e, it, base);
      UnmapFromRemoves(e, it + 1, base, limit);
    } else {
      UnmapOverlap(e, it, base, limit);
    }
  }

  /** Unmapping removes exactly the given addresses, whatever ranges they are cut from. */
  lemma UnmapRemoves<V(!new)>(e: seq<Entry<V>>, base: nat, size: nat)
    requires Valid(e)
    ensures Unmaps(e, base, base + size, Unmapped(e, base, size))
  {
    if size > 0 {
      var it := LowerBound(e, base);
      forall i | i < it ensures EndsBy(e, i, base) { assert EndsBelow(e, i, base); }
      forall i | it <= i ensures Reaches(e, i, base) { assert Apart(e, it, i) && NonEmptyAt(e, i); }
      UnmapFromRemoves(e, it, base, base + size);
    }
  }

  /** What is unmapped right after it was mapped leaves the mapping as it was. */
  lemma UnmapUndoesMap<V(!new)>(e: seq<Entry<V>>, coalesce: bool, base: nat, size: nat, value: V, a: int, v: V)
    requires Valid(e) && Mapped(e, coalesce, base, size, value).ok
    ensures Has(Unmapped(Mapped(e, coalesce, base, size, value).entries, base, size), a, v) <==> Has(e, a, v)
  {
    if size > 0 {
      var r, limit := Mapped(e, coalesce, base, size, value), base + size;
      if !Free(e, base, limit) { MapRefuses(e, coalesce, base, size, value); }
      MapAdds(e, coalesce, base, size, value);
      UnmapRemoves(r.entries, base, size);
      assert AddsAt(e, r.entries, base, limit, value, a, v);
      assert RemovesAt(r.entries, Unmapped(r.entries, base, size), base, limit, a, v);
      if Has(e, a, v) {
        var i :| HasAt(e, a, v, i);
        assert Misses(e, i, base, limit);
      }
    }
  }
}

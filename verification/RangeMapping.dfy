/** Mapping a range adds exactly that range, or changes nothing. */
module RangeMapping {
  import opened RangeMaps

  ghost predicate Overlaps<V>(n: Entry<V>, base: nat, limit: nat) { n.Base() < limit && base < n.limit }

  /** No stored range overlaps [base, limit). */
  ghost predicate Free<V>(e: seq<Entry<V>>, base: nat, limit: nat) {
    forall i :: Misses(e, i, base, limit)
  }

  ghost predicate Misses<V>(e: seq<Entry<V>>, i: int, base: nat, limit: nat) {
    0 <= i < |e| ==> !Overlaps(e[i], base, limit)
  }

  /** e' maps what e maps, and also all of [base, limit) to value. */
  ghost predicate Adds<V(!new)>(e: seq<Entry<V>>, e': seq<Entry<V>>, base: nat, limit: nat, value: V) {
    forall a: int, v: V :: AddsAt(e, e', base, limit, value, a, v)
  }

  ghost predicate AddsAt<V(!new)>(e: seq<Entry<V>>, e': seq<Entry<V>>, base: nat, limit: nat, value: V, a: int, v: V) {
    Has(e', a, v) <==> Has(e, a, v) || (base <= a < limit && v == value)
  }

  lemma InsertKeeps<V(!new)>(e: seq<Entry<V>>, i: nat, n: Entry<V>)
    requires Valid(e) && i <= |e| && 0 < n.size <= n.limit
    requires (i > 0 ==> e[i - 1].limit <= n.Base()) && (i < |e| ==> n.limit <= e[i].Base())
    ensures Valid(Insert(e, i, n))
    ensures forall a: int, v: V :: Has(Insert(e, i, n), a, v) <==> Has(e, a, v) || (n.Covers(a) && v == n.value)
  {
    var e' := Insert(e, i, n);
    forall j ensures NonEmptyAt(e', j) {
      assert NonEmptyAt(e, if j < i then j else j - 1);
    }
    forall j, k ensures Apart(e', j, k) {
      assert Apart(e, j, i - 1) && Apart(e, i, k - 1);
      assert Apart(e, if j < i then j else j - 1, if k < i then k else k - 1);
      assert NonEmptyAt(e, i - 1) && NonEmptyAt(e, i);
    }
    forall a: int, v: V ensures Has(e', a, v) <==> Has(e, a, v) || (n.Covers(a) && v == n.value) {
      if Has(e', a, v) {
        var j :| HasAt(e', a, v, j);
        if j != i { assert HasAt(e, a, v, if j < i then j else j - 1); }
      }
      if Has(e, a, v) {
        var j :| HasAt(e, a, v, j);
        assert HasAt(e', a, v, if j < i then j else j + 1);
      }
      if n.Covers(a) && v == n.value { assert HasAt(e', a, v, i); }
    }
  }

  lemma EraseKeeps<V(!new)>(e: seq<Entry<V>>, i: nat)
    requires Valid(e) && i < |e|
    ensures Valid(Erase(e, i))
    ensures forall a: int, v: V :: Has(Erase(e, i), a, v) <==> Has(e, a, v) && !e[i].Covers(a)
  {
    var e' := Erase(e, i);
    forall j ensures NonEmptyAt(e', j) {
      assert NonEmptyAt(e, if j < i then j else j + 1);
    }
    forall j, k ensures Apart(e', j, k) {
      assert Apart(e, if j < i then j else j + 1, if k < i then k else k + 1);
    }
    forall a: int, v: V ensures Has(e', a, v) <==> Has(e, a, v) && !e[i].Covers(a) {
      if Has(e', a, v) {
        var j :| HasAt(e', a, v, j);
        assert HasAt(e, a, v, if j < i then j else j + 1);
        assert Apart(e, if j < i then j else j + 1, i) && Apart(e, i, if j < i then j else j + 1);
      }
      if Has(e, a, v) && !e[i].Covers(a) {
        var j :| HasAt(e, a, v, j);
        assert HasAt(e', a, v, if j < i then j else j - 1);
      }
    }
  }

  lemma ReplaceKeeps<V(!new)>(e: seq<Entry<V>>, i: nat, n: Entry<V>)
    requires Valid(e) && i < |e| && 0 < n.size <= n.limit
    requires (i > 0 ==> e[i - 1].limit <= n.Base()) && (i + 1 < |e| ==> n.limit <= e[i + 1].Base())
    ensures Valid(e[i := n])
    ensures forall a: int, v: V ::
              Has(e[i := n], a, v) <==> (Has(e, a, v) && !e[i].Covers(a)) || (n.Covers(a) && v == n.value)
  {
    EraseKeeps(e, i);
    InsertKeeps(Erase(e, i), i, n);
    assert e[i := n] == Insert(Erase(e, i), i, n);
  }

  /** A range that overlaps nothing can be added. */
  lemma EmplaceKeeps<V(!new)>(e: seq<Entry<V>>, n: Entry<V>)
    requires Valid(e) && 0 < n.size <= n.limit && Free(e, n.Base(), n.limit)
    ensures var r := Emplace(e, n);
            r.ok && Valid(r.entries) && r.at < |r.entries| && r.entries[r.at] == n &&
            forall a: int, v: V :: Has(r.entries, a, v) <==> Has(e, a, v) || (n.Covers(a) && v == n.value)
  {
    var at: nat := LowerBound(e, n.limit);
    assert NonEmptyAt(e, at - 1) && Misses(e, at - 1, n.Base(), n.limit) && Misses(e, at, n.Base(), n.limit);
    assert NonEmptyAt(e, at) && (at > 0 ==> EndsBelow(e, at - 1, n.limit));
    InsertKeeps(e, at, n);
  }

  /** Exactly [base, limit) was added, and the position returned is that of the range that now covers it. */
  ghost predicate Placed<V(!new)>(e: seq<Entry<V>>, base: nat, limit: nat, value: V, r: Result<V>) {
    && r.ok && Valid(r.entries) && Adds(e, r.entries, base, limit, value)
    && r.at < |r.entries| && r.entries[r.at].value == value
    && r.entries[r.at].Base() <= base && limit <= r.entries[r.at].limit
  }

  /** Nothing was added, and the position returned is that of a range that is in the way. */
  ghost predicate Refused<V>(e: seq<Entry<V>>, base: nat, limit: nat, r: Result<V>) {
    !r.ok && r.entries == e && r.at < |e| && Overlaps(e[r.at], base, limit)
  }

  /** Whether the new range overlaps none of the ranges from position it on, judged by the first two. */
  predicate FreeAhead<V>(e: seq<Entry<V>>, it: nat, base: nat, limit: nat) {
    it >= |e| || limit <= e[it].Base() || (e[it].limit == base && (it + 1 == |e| || limit <= e[it + 1].Base()))
  }

  lemma FreeIfFreeAhead<V>(e: seq<Entry<V>>, base: nat, limit: nat)
    requires Valid(e) && base < limit
    ensures Free(e, base, limit) <==> FreeAhead(e, LowerBound(e, base), base, limit)
  {
    var it: nat := LowerBound(e, base);
    assert NonEmptyAt(e, it) && NonEmptyAt(e, it + 1) && Apart(e, it, it + 1);
    if FreeAhead(e, it, base, limit) {
      forall i ensures Misses(e, i, base, limit) {
        assert i < it ==> EndsBelow(e, i, base);
        assert Apart(e, it, i) && Apart(e, it + 1, i) && NonEmptyAt(e, i);
      }
    }
    if Free(e, base, limit) {
      assert Misses(e, it, base, limit) && Misses(e, it + 1, base, limit);
    }
  }

  lemma CoversMeansHas<V(!new)>(e: seq<Entry<V>>, i: nat, a: int, v: V)
    requires Valid(e) && i < |e|
    ensures e[i].Covers(a) ==> (Has(e, a, v) <==> v == e[i].value)
  {
    if e[i].Covers(a) {
      assert HasAt(e, a, e[i].value, i);
      if Has(e, a, v) { HasOnce(e, a, v, e[i].value); }
    }
  }

  /** The range at it, which begins where the new one ends, grows downward. */
  lemma GrowDown<V(!new)>(e: seq<Entry<V>>, it: nat, base: nat, size: nat)
    requires Valid(e) && size > 0 && it < |e| && e[it].Base() == base + size && Free(e, base, base + size)
    ensures Placed(e, base, base + size, e[it].value,
                   Result(e[it := Entry(e[it].limit, e[it].size + size, e[it].value)], it, true))
  {
    assert NonEmptyAt(e, it) && NonEmptyAt(e, it - 1) && Misses(e, it - 1, base, base + size);
    assert Apart(e, it - 1, it) && Apart(e, it, it + 1);
    var n := Entry(e[it].limit, e[it].size + size, e[it].value);
    var e', limit := e[it := n], base + size;
    ReplaceKeeps(e, it, n);
    forall a: int, v: V ensures AddsAt(e, e', base, limit, n.value, a, v) {
      CoversMeansHas(e, it, a, v);
      assert n.Covers(a) <==> e[it].Covers(a) || base <= a < base + size;
    }
  }

  /** The range at it, which ends where the new one begins, is replaced by one that reaches to the new end. */
  lemma GrowUp<V(!new)>(e: seq<Entry<V>>, it: nat, base: nat, size: nat)
    requires Valid(e) && size > 0 && it < |e| && e[it].limit == base && Free(e, base, base + size)
    ensures var n := Entry(base + size, size + e[it].size, e[it].value);
            Placed(e, base, base + size, n.value, Emplace(Erase(e, it), n))
  {
    var n, e' := Entry(base + size, size + e[it].size, e[it].value), Erase(e, it);
    EraseKeeps(e, it);
    assert NonEmptyAt(e, it);
    forall i ensures Misses(e', i, n.Base(), n.limit) {
      var k := if i < it then i else i + 1;
      assert Misses(e, k, base, base + size) && NonEmptyAt(e, k) && NonEmptyAt(e, it);
      assert Apart(e, k, it) && Apart(e, it, k);
    }
    EmplaceKeeps(e', n);
    var r, limit := Emplace(e', n), base + size;
    forall a: int, v: V ensures AddsAt(e, r.entries, base, limit, n.value, a, v) {
      CoversMeansHas(e, it, a, v);
      assert n.Covers(a) <==> e[it].Covers(a) || base <= a < limit by { assert NonEmptyAt(e, it); }
    }
  }

  lemma StandsAlone<V(!new)>(e: seq<Entry<V>>, base: nat, size: nat, value: V)
    requires Valid(e) && size > 0 && Free(e, base, base + size)
    ensures Placed(e, base, base + size, value, Emplace(e, Entry(base + size, size, value)))
  {
    var n, limit := Entry(base + size, size, value), base + size;
    EmplaceKeeps(e, n);
    var r := Emplace(e, n);
    forall a: int, v: V ensures AddsAt(e, r.entries, base, limit, value, a, v) {
      assert n.Covers(a) <==> base <= a < limit;
    }
  }

  /** Mapping a range that overlaps another changes nothing. */
  lemma MapRefuses<V>(e: seq<Entry<V>>, coalesce: bool, base: nat, size: nat, value: V)
    requires Valid(e) && size > 0 && !Free(e, base, base + size)
    ensures Refused(e, base, base + size, Mapped(e, coalesce, base, size, value))
  {
    var it: nat := LowerBound(e, base);
    FreeIfFreeAhead(e, base, base + size);
    assert NonEmptyAt(e, it) && NonEmptyAt(e, it + 1) && Apart(e, it, it + 1);
  }

  /** The ranges stay non-empty, disjoint and in order whether or not the new one is accepted. */
  lemma MapKeepsValid<V(!new)>(e: seq<Entry<V>>, coalesce: bool, base: nat, size: nat, value: V)
    requires Valid(e)
    ensures Valid(Mapped(e, coalesce, base, size, value).entries)
    ensures Mapped(e, coalesce, base, size, value).ok <==> size == 0 || Free(e, base, base + size)
  {
    if size > 0 {
      if Free(e, base, base + size) {
        MapAdds(e, coalesce, base, size, value);
      } else {
        MapRefuses(e, coalesce, base, size, value);
      }
    }
  }

  predicate GrowsDown<V(==)>(e: seq<Entry<V>>, coalesce: bool, base: nat, size: nat, value: V) {
    var it := LowerBound(e, base);
    it < |e| && e[it].Base() == base + size && e[it].value == value && coalesce
  }

  predicate GrowsUp<V(==)>(e: seq<Entry<V>>, coalesce: bool, base: nat, value: V) {
    var it := LowerBound(e, base);
    it < |e| && e[it].limit == base && e[it].value == value && coalesce
  }

  lemma JoinsNext<V>(e: seq<Entry<V>>, coalesce: bool, base: nat, size: nat, value: V)
    requires Valid(e) && size > 0 && Free(e, base, base + size) && GrowsDown(e, coalesce, base, size, value)
    ensures var it := LowerBound(e, base);
            Mapped(e, coalesce, base, size, value)
            == Result(e[it := Entry(e[it].limit, e[it].size + size, e[it].value)], it, true)
  {
  }

  lemma JoinsPrevious<V>(e: seq<Entry<V>>, coalesce: bool, base: nat, size: nat, value: V)
    requires Valid(e) && size > 0 && Free(e, base, base + size) && GrowsUp(e, coalesce, base, value)
    ensures var it := LowerBound(e, base);
            Mapped(e, coalesce, base, size, value)
            == Emplace(Erase(e, it), Entry(base + size, size + e[it].size, e[it].value))
  {
    FreeIfFreeAhead(e, base, base + size);
    assert NonEmptyAt(e, LowerBound(e, base));
  }

  lemma JoinsNone<V>(e: seq<Entry<V>>, coalesce: bool, base: nat, size: nat, value: V)
    requires Valid(e) && size > 0 && Free(e, base, base + size)
    requires !GrowsDown(e, coalesce, base, size, value) && !GrowsUp(e, coalesce, base, value)
    ensures Mapped(e, coalesce, base, size, value) == Emplace(e, Entry(base + size, size, value))
  {
    FreeIfFreeAhead(e, base, base + size);
  }

  lemma AddsToNext<V(!new)>(e: seq<Entry<V>>, coalesce: bool, base: nat, size: nat, value: V)
    requires Valid(e) && size > 0 && Free(e, base, base + size) && GrowsDown(e, coalesce, base, size, value)
    ensures Placed(e, base, base + size, value, Mapped(e, coalesce, base, size, value))
  {
    JoinsNext(e, coalesce, base, size, value);
    GrowDown(e, LowerBound(e, base), base, size);
  }

  lemma AddsToPrevious<V(!new)>(e: seq<Entry<V>>, coalesce: bool, base: nat, size: nat, value: V)
    requires Valid(e) && size > 0 && Free(e, base, base + size) && GrowsUp(e, coalesce, base, value)
    ensures Placed(e, base, base + size, value, Mapped(e, coalesce, base, size, value))
  {
    JoinsPrevious(e, coalesce, base, size, value);
    GrowUp(e, LowerBound(e, base), base, size);
  }

  lemma AddsAlone<V(!new)>(e: seq<Entry<V>>, coalesce: bool, base: nat, size: nat, value: V)
    requires Valid(e) && size > 0 && Free(e, base, base + size)
    requires !GrowsDown(e, coalesce, base, size, value) && !GrowsUp(e, coalesce, base, value)
    ensures Placed(e, base, base + size, value, Mapped(e, coalesce, base, size, value))
  {
    JoinsNone(e, coalesce, base, size, value);
    StandsAlone(e, base, size, value);
  }

  /** Mapping a range that overlaps no other adds exactly that range, alone or joined to one that it touches. */
  lemma MapAdds<V(!new)>(e: seq<Entry<V>>, coalesce: bool, base: nat, size: nat, value: V)
    requires Valid(e) && size > 0 && Free(e, base, base + size)
    ensures Placed(e, base, base + size, value, Mapped(e, coalesce, base, size, value))
  {
    if GrowsDown(e, coalesce, base, size, value) {
      AddsToNext(e, coalesce, base, size, value);
    } else if GrowsUp(e, coalesce, base, value) {
      AddsToPrevious(e, coalesce, base, size, value);
    } else {
      AddsAlone(e, coalesce, base, size, value);
    }
  }
}

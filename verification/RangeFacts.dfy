/** What the operations on ranges do to a single address. */
module RangeFacts {
  import opened RangeMapping
  import opened RangeMaps
  import opened RangeUnmapping

  lemma CoveredHas<V(!new)>(e: seq<Entry<V>>, a: int)
    ensures Covered(e, a) <==> exists v: V :: Has(e, a, v)
  {
    if i :| 0 <= i < |e| && e[i].Covers(a) {
      assert HasAt(e, a, e[i].value, i);
      assert Has(e, a, e[i].value);
    }
    if v: V :| Has(e, a, v) {
      var i :| HasAt(e, a, v, i);
      assert 0 <= i < |e| && e[i].Covers(a);
    }
  }

  lemma MapAt<V(!new)>(e: seq<Entry<V>>, coalesce: bool, base: nat, size: nat, value: V, a: int, v: V)
    requires Valid(e)
    ensures var r := Mapped(e, coalesce, base, size, value);
            && Valid(r.entries)
            && (Has(r.entries, a, v) <==> Has(e, a, v) || (r.ok && base <= a < base + size && v == value))
  {
    MapKeepsValid(e, coalesce, base, size, value);
    if size > 0 {
      var limit := base + size;
      if Free(e, base, limit) {
        MapAdds(e, coalesce, base, size, value);
        assert AddsAt(e, Mapped(e, coalesce, base, size, value).entries, base, limit, value, a, v);
      } else {
        MapRefuses(e, coalesce, base, size, value);
      }
    }
  }

  lemma UnmapAt<V(!new)>(e: seq<Entry<V>>, base: nat, size: nat, a: int, v: V)
    requires Valid(e)
    ensures Valid(Unmapped(e, base, size))
    ensures Has(Unmapped(e, base, size), a, v) <==> Has(e, a, v) && !(base <= a < base + size)
  {
    UnmapRemoves(e, base, size);
    var limit := base + size;
    assert RemovesAt(e, Unmapped(e, base, size), base, limit, a, v);
  }

  /** A range is free exactly if none of its addresses is covered. */
  lemma FreeIffUncovered<V>(e: seq<Entry<V>>, base: nat, limit: nat)
    requires Valid(e) && base < limit
    ensures Free(e, base, limit) <==> forall a: int :: base <= a < limit ==> !Covered(e, a)
  {
    if Free(e, base, limit) {
      forall a: int | base <= a < limit ensures !Covered(e, a) {
        forall i | 0 <= i < |e| ensures !e[i].Covers(a) { assert Misses(e, i, base, limit); }
      }
    } else {
      var i :| !Misses(e, i, base, limit);
      assert NonEmptyAt(e, i);
      var a := if base <= e[i].Base() then e[i].Base() else base;
      assert e[i].Covers(a);
      assert Covered(e, a);
    }
  }
}

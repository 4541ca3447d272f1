/** When touching ranges with equal values are merged, and when not. */
module RangeMerging {
  import opened RangeMapping
  import opened RangeMaps

  ghost predicate TightAt<V>(e: seq<Entry<V>>, i: int) {
    0 <= i < |e| - 1 ==> e[i].limit < e[i + 1].Base() || e[i].value != e[i + 1].value
  }

  /** No two touching ranges have equal values. */
  ghost predicate Tight<V>(e: seq<Entry<V>>) {
    forall i :: TightAt(e, i)
  }

  /** The new range fills the gap between range i and the next one, which has the same value. */
  predicate FillsGap<V(==)>(e: seq<Entry<V>>, n: Entry<V>, i: int) {
    0 <= i < |e| - 1 && e[i].limit == n.Base() && e[i + 1].Base() == n.limit && e[i + 1].value == n.value
  }

  lemma FirstIsUnique<V>(e: seq<Entry<V>>, x: nat, r: nat, r': nat)
    requires IsFirst(e, x, r) && IsFirst(e, x, r')
    ensures r == r'
  {
    assert r < r' ==> EndsBelow(e, r, x);
    assert r' < r ==> EndsBelow(e, r', x);
  }

  lemma FillsGapAtBound<V>(e: seq<Entry<V>>, n: Entry<V>, i: nat)
    requires Valid(e) && n.size <= n.limit && FillsGap(e, n, i)
    ensures i == LowerBound(e, n.Base())
  {
    forall k | k < i ensures EndsBelow(e, k, n.Base()) {
      assert Apart(e, k, i) && NonEmptyAt(e, i);
    }
    FirstIsUnique(e, n.Base(), i, LowerBound(e, n.Base()));
  }

  /** An entry goes to the only place where it keeps the order. */
  lemma EmplacedAt<V>(e: seq<Entry<V>>, n: Entry<V>, at: nat)
    requires IsFirst(e, n.limit, at) && (at < |e| ==> n.limit < e[at].limit)
    ensures Emplace(e, n) == Result(Insert(e, at, n), at, true)
  {
    FirstIsUnique(e, n.limit, at, LowerBound(e, n.limit));
  }

  lemma NextStaysTight<V>(e: seq<Entry<V>>, n: Entry<V>)
    requires Valid(e) && 0 < n.size <= n.limit && Tight(e) && GrowsDown(e, true, n.Base(), n.size, n.value)
    requires Free(e, n.Base(), n.limit)
    ensures Tight(Mapped(e, true, n.Base(), n.size, n.value).entries)
    ensures forall i :: !FillsGap(e, n, i)
  {
    var it: nat := LowerBound(e, n.Base());
    var e' := e[it := Entry(e[it].limit, e[it].size + n.size, e[it].value)];
    JoinsNext(e, true, n.Base(), n.size, n.value);
    assert it > 0 ==> EndsBelow(e, it - 1, n.Base());
    forall i ensures TightAt(e', i) {
      assert TightAt(e, i);
    }
    assert NonEmptyAt(e, it);
    forall i | FillsGap(e, n, i) ensures i == it {
      FillsGapAtBound(e, n, i);
    }
  }

  lemma PreviousStaysTight<V>(e: seq<Entry<V>>, n: Entry<V>)
    requires Valid(e) && 0 < n.size <= n.limit && Tight(e) && GrowsUp(e, true, n.Base(), n.value)
    requires Free(e, n.Base(), n.limit)
    ensures Tight(Mapped(e, true, n.Base(), n.size, n.value).entries) <==> !FillsGap(e, n, LowerBound(e, n.Base()))
  {
    var it: nat := LowerBound(e, n.Base());
    var m := Entry(n.limit, n.size + e[it].size, n.value);
    var rest, e' := Erase(e, it), e[it := m];
    JoinsPrevious(e, true, n.Base(), n.size, n.value);
    FreeIfFreeAhead(e, n.Base(), n.limit);
    assert NonEmptyAt(e, it) && NonEmptyAt(e, it + 1) && Apart(e, it, it + 1);
    forall i | i < it ensures EndsBelow(rest, i, n.limit) { assert EndsBelow(e, i, n.Base()); }
    EmplacedAt(rest, m, it);
    assert Insert(rest, it, m) == e';
    forall i | i != it ensures TightAt(e', i) { assert TightAt(e, i); }
    assert TightAt(e', it) <==> !FillsGap(e, n, it);
  }

  lemma InsertStaysTight<V>(e: seq<Entry<V>>, at: nat, n: Entry<V>)
    requires Tight(e) && at <= |e| && (at > 0 ==> e[at - 1].limit < n.Base() || e[at - 1].value != n.value)
    ensures Tight(Insert(e, at, n)) <==> TightAt(Insert(e, at, n), at)
  {
    var e' := Insert(e, at, n);
    forall i | i != at ensures TightAt(e', i) {
      assert TightAt(e, i) && TightAt(e, i - 1);
    }
  }

  lemma NoneStaysTight<V>(e: seq<Entry<V>>, n: Entry<V>)
    requires Valid(e) && 0 < n.size <= n.limit && Tight(e) && Free(e, n.Base(), n.limit)
    requires !GrowsDown(e, true, n.Base(), n.size, n.value) && !GrowsUp(e, true, n.Base(), n.value)
    ensures Tight(Mapped(e, true, n.Base(), n.size, n.value).entries) <==> !FillsGap(e, n, LowerBound(e, n.Base()))
  {
    var it: nat := LowerBound(e, n.Base());
    var at := if it < |e| && e[it].limit == n.Base() then it + 1 else it;
    JoinsNone(e, true, n.Base(), n.size, n.value);
    FreeIfFreeAhead(e, n.Base(), n.limit);
    assert NonEmptyAt(e, it) && NonEmptyAt(e, at) && Apart(e, it, it + 1);
    forall i | i < at ensures EndsBelow(e, i, n.limit) { assert i < it ==> EndsBelow(e, i, n.Base()); }
    EmplacedAt(e, n, at);
    assert it > 0 ==> EndsBelow(e, it - 1, n.Base());
    InsertStaysTight(e, at, n);
    var e' := Insert(e, at, n);
    assert TightAt(e', at) <==> !FillsGap(e, n, it);
  }

  /**
   Merging does not catch every pair of touching ranges with equal values: it stays complete exactly unless the
   new range fills the whole gap before a range with the same value.
   */
  lemma TightUnlessGapFilled<V>(e: seq<Entry<V>>, n: Entry<V>)
    requires Valid(e) && 0 < n.size <= n.limit && Free(e, n.Base(), n.limit) && Tight(e)
    ensures Tight(Mapped(e, true, n.Base(), n.size, n.value).entries) <==> forall i :: !FillsGap(e, n, i)
  {
    if GrowsDown(e, true, n.Base(), n.size, n.value) {
      NextStaysTight(e, n);
    } else {
      if GrowsUp(e, true, n.Base(), n.value) {
        PreviousStaysTight(e, n);
      } else {
        NoneStaysTight(e, n);
      }
      forall i | FillsGap(e, n, i) ensures i == LowerBound(e, n.Base()) {
        FillsGapAtBound(e, n, i);
      }
    }
  }

  /** Three touching ranges with equal values of which only the first two are merged. */
  lemma GapsAreNotClosed()
    ensures Mapped([Entry(2, 2, 7), Entry(6, 2, 7)], true, 2, 2, 7).entries == [Entry(4, 4, 7), Entry(6, 2, 7)]
  {
  }

  // ---------------------------------------------------------------------------------------------
  // Ranges that are not merged
  // ---------------------------------------------------------------------------------------------

  ghost predicate TouchesEqual<V>(e: seq<Entry<V>>, base: nat, limit: nat, value: V) {
    exists i :: 0 <= i < |e| && e[i].value == value && (e[i].limit == base || e[i].Base() == limit)
  }

  /** The new row has the new range at the given position, and all others as they were and in their order. */
  ghost predicate AddedAlone<V>(e: seq<Entry<V>>, e': seq<Entry<V>>, at: nat, n: Entry<V>) {
    && at <= |e| && |e'| == |e| + 1 && e'[at] == n
    && forall i :: 0 <= i < |e| ==> e'[if i < at then i else i + 1] == e[i]
  }

  /** Unless merging is asked for and the new range touches one with its value, every range stays as it was. */
  lemma OthersStay<V(!new)>(e: seq<Entry<V>>, coalesce: bool, base: nat, size: nat, value: V)
    requires Valid(e) && size > 0 && Free(e, base, base + size)
    requires !coalesce || !TouchesEqual(e, base, base + size, value)
    ensures var r := Mapped(e, coalesce, base, size, value);
            r.ok && AddedAlone(e, r.entries, r.at, Entry(base + size, size, value))
  {
    var n := Entry(base + size, size, value);
    JoinsNone(e, coalesce, base, size, value);
    EmplaceKeeps(e, n);
    var at: nat := LowerBound(e, n.limit);
    assert NonEmptyAt(e, at) && Misses(e, at, n.Base(), n.limit);
  }
}

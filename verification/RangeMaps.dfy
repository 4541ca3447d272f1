/**
 Maps from disjoint ranges of addresses to values, kept in order of range limit.  The functions say what
 each operation does to the whole row of ranges, as std::map calls would.
 */
module RangeMaps {

  datatype Entry<V> = Entry(limit: nat, size: nat, value: V) {
    function Base(): int { limit - size }

    predicate Covers(a: int) { Base() <= a < limit }
  }

  // ---------------------------------------------------------------------------------------------
  // What a row of ranges denotes
  // ---------------------------------------------------------------------------------------------

  ghost predicate NonEmptyAt<V>(e: seq<Entry<V>>, i: int) {
    0 <= i < |e| ==> 0 < e[i].size <= e[i].limit
  }

  ghost predicate Apart<V>(e: seq<Entry<V>>, i: int, j: int) {
    0 <= i < j < |e| ==> e[i].limit <= e[j].Base()
  }

  /** The ranges are non-empty, disjoint and in order. */
  ghost predicate Valid<V>(e: seq<Entry<V>>) {
    (forall i :: NonEmptyAt(e, i)) && forall i, j :: Apart(e, i, j)
  }

  ghost predicate HasAt<V(!new)>(e: seq<Entry<V>>, a: int, v: V, i: int) {
    0 <= i < |e| && e[i].Covers(a) && e[i].value == v
  }

  /** Address a is mapped to v. */
  ghost predicate Has<V(!new)>(e: seq<Entry<V>>, a: int, v: V) {
    exists i :: HasAt(e, a, v, i)
  }

  ghost predicate Covered<V>(e: seq<Entry<V>>, a: int) {
    exists i :: 0 <= i < |e| && e[i].Covers(a)
  }

  /** No address is mapped to two values. */
  lemma HasOnce<V(!new)>(e: seq<Entry<V>>, a: int, v: V, v': V)
    requires Valid(e) && Has(e, a, v) && Has(e, a, v')
    ensures v == v'
  {
    var i :| HasAt(e, a, v, i);
    var j :| HasAt(e, a, v', j);
    assert Apart(e, i, j) && Apart(e, j, i);
  }

  // ---------------------------------------------------------------------------------------------
  // The operations of an ordered map that is keyed by limit
  // ---------------------------------------------------------------------------------------------

  ghost predicate EndsBelow<V>(e: seq<Entry<V>>, i: int, x: int) {
    0 <= i < |e| ==> e[i].limit < x
  }

  /** r is the first position whose limit is at least x. */
  ghost predicate IsFirst<V>(e: seq<Entry<V>>, x: nat, r: nat) {
    r <= |e| && (forall i :: i < r ==> EndsBelow(e, i, x)) && (r < |e| ==> x <= e[r].limit)
  }

  function FirstFrom<V>(e: seq<Entry<V>>, x: nat, k: nat): (r: nat)
    requires k <= |e| && forall i :: i < k ==> EndsBelow(e, i, x)
    ensures IsFirst(e, x, r)
    decreases |e| - k
  {
    if k == |e| || x <= e[k].limit then k else FirstFrom(e, x, k + 1)
  }

  /** The first position whose limit is at least x. */
  function LowerBound<V>(e: seq<Entry<V>>, x: nat): (r: nat)
    ensures IsFirst(e, x, r)
  {
    FirstFrom(e, x, 0)
  }

  /** The first position whose limit is greater than x. */
  function UpperBound<V>(e: seq<Entry<V>>, x: nat): (r: nat)
    ensures IsFirst(e, x + 1, r)
  {
    LowerBound(e, x + 1)
  }

  function Insert<V>(e: seq<Entry<V>>, i: nat, n: Entry<V>): seq<Entry<V>>
    requires i <= |e|
  {
    seq(|e| + 1, j requires 0 <= j < |e| + 1 => if j < i then e[j] else if j == i then n else e[j - 1])
  }

  function Erase<V>(e: seq<Entry<V>>, i: nat): seq<Entry<V>>
    requires i < |e|
  {
    seq(|e| - 1, j requires 0 <= j < |e| - 1 => if j < i then e[j] else e[j + 1])
  }

  /** What an operation leaves, the position it returns, and whether it succeeded. */
  datatype Result<V> = Result(entries: seq<Entry<V>>, at: nat, ok: bool)

  /** Adds an entry unless there is one with the same limit, which then is left as it is. */
  function Emplace<V>(e: seq<Entry<V>>, n: Entry<V>): Result<V> {
    var at := LowerBound(e, n.limit);
    if at < |e| && e[at].limit == n.limit then Result(e, at, true) else Result(Insert(e, at, n), at, true)
  }

  function Mapped<V(==)>(e: seq<Entry<V>>, coalesce: bool, base: nat, size: nat, value: V): Result<V> {
    if size == 0 then Result(e, |e|, true)
    else
      var limit, it := base + size, LowerBound(e, base);
      if it == |e| || limit < e[it].Base() then Emplace(e, Entry(limit, size, value))
      else if e[it].Base() == limit then
        if e[it].value == value && coalesce
        then Result(e[it := Entry(e[it].limit, e[it].size + size, e[it].value)], it, true)
        else Emplace(e, Entry(limit, size, value))
      else if e[it].limit == base then
        if it + 1 < |e| && e[it + 1].Base() < limit then Result(e, it + 1, false)
        else if e[it].value == value && coalesce then Emplace(Erase(e, it), Entry(limit, size + e[it].size, value))
        else Emplace(e, Entry(limit, size, value))
      else Result(e, it, false)
  }

  /** Cuts the addresses from base on off entry it, keeping what precedes them as an entry of its own. */
  function KeepHead<V>(e: seq<Entry<V>>, it: nat, base: nat): seq<Entry<V>>
    requires it < |e| && e[it].Base() < base
  {
    var head, at := Entry(base, base - e[it].Base(), e[it].value), LowerBound(e, base);
    if at < |e| && e[at].limit == base then e[at := head] else Insert(e, at, head)
  }

  function UnmapFrom<V>(e: seq<Entry<V>>, it: nat, base: nat, limit: nat): seq<Entry<V>>
    decreases |e| - it
  {
    if it >= |e| || limit <= e[it].Base() then e
    else if e[it].limit == base then UnmapFrom(e, it + 1, base, limit)
    else
      var split := if e[it].Base() < base then KeepHead(e, it, base) else e;
      var here := it + |split| - |e|;
      if e[it].limit <= limit then UnmapFrom(Erase(split, here), here, base, limit)
      else split[here := Entry(e[it].limit, e[it].limit - limit, e[it].value)]
  }

  function Unmapped<V>(e: seq<Entry<V>>, base: nat, size: nat): seq<Entry<V>> {
    if size == 0 then e else UnmapFrom(e, LowerBound(e, base), base, base + size)
  }
}

/**
 The allocation directory: allocations are offered in order of address, those that cross an accepted
 allocation are dropped, the others are recorded together with their nesting.  The functions here say
 what one offer does to the whole state, and what every directory keeps.
 */
module AllocationDirectory {

  /** What a finder reports about its next allocation. */
  datatype Item = Item(address: nat, size: nat, used: bool) {
    function Limit(): nat { address + size }
  }

  /** An item together with the index of the finder that reported it. */
  datatype Offer = Offer(finder: nat, item: Item)

  datatype Allocation = Allocation(address: nat, size: nat, used: bool, finder: nat, wrapper: bool, wrapped: bool) {
    function Limit(): nat { address + size }

    predicate Contains(a: int) { address <= a < Limit() }
  }

  /** An entry of the stack of intervals that are still open. */
  datatype Open = Open(index: nat, limit: nat)

  datatype State = State(allocations: seq<Allocation>, limits: seq<Open>, wrappers: seq<seq<nat>>, maxSize: nat)

  const EMPTY: State := State([], [], [], 0)

  function Last<T>(s: seq<T>): T
    requires s != []
  {
    s[|s| - 1]
  }

  function Init<T>(s: seq<T>): seq<T>
    requires s != []
  {
    s[..|s| - 1]
  }

  // ---------------------------------------------------------------------------------------------
  // One offer
  // ---------------------------------------------------------------------------------------------

  datatype Fit = Crossing(open: seq<Open>) | Fits(open: seq<Open>)

  /** Closes the intervals that end before the offered one, stopping at one that the offered one crosses. */
  function Close(limits: seq<Open>, address: nat, limit: nat): (f: Fit)
    ensures f.open <= limits
    decreases |limits|
  {
    if limits == [] || limit <= Last(limits).limit then Fits(limits)
    else if address < Last(limits).limit then Crossing(limits)
    else Close(Init(limits), address, limit)
  }

  /** Every level is non-empty and holds indices of allocations. */
  predicate Indexed(allocations: seq<Allocation>, levels: seq<seq<nat>>) {
    levels != [] ==>
      && levels[0] != []
      && (forall p :: 0 <= p < |levels[0]| ==> levels[0][p] < |allocations|)
      && Indexed(allocations, levels[1..])
  }

  /** Files toPlace under the first level, carrying up the last wrapper of each level that still is open. */
  function Carry(allocations: seq<Allocation>, levels: seq<seq<nat>>, toPlace: nat, limit: nat): seq<seq<nat>>
    requires Indexed(allocations, levels)
    decreases |levels|
  {
    if levels == [] then [[toPlace]]
    else
      var back := Last(levels[0]);
      if allocations[back].Limit() < limit then [levels[0] + [toPlace]] + levels[1..]
      else [Init(levels[0]) + [toPlace]] + Carry(allocations, levels[1..], back, limit)
  }

  function MarkWrapper(allocations: seq<Allocation>, index: nat): seq<Allocation>
    requires index < |allocations|
  {
    allocations[index := allocations[index].(wrapper := true)]
  }

  /** The stack and the levels refer to allocations that exist. */
  predicate Sound(s: State) {
    && Indexed(s.allocations, s.wrappers)
    && forall k :: 0 <= k < |s.limits| ==> s.limits[k].index < |s.allocations|
  }

  lemma {:induction false} IndexedStays(al: seq<Allocation>, al': seq<Allocation>, levels: seq<seq<nat>>)
    requires |al| <= |al'| && Indexed(al, levels)
    ensures Indexed(al', levels)
    decreases |levels|
  {
    if levels != [] { IndexedStays(al, al', levels[1..]); }
  }

  function Step(s: State, o: Offer): State
    requires Sound(s)
  {
    match Close(s.limits, o.item.address, o.item.Limit())
    case Crossing(open) => s.(limits := open)
    case Fits(open) =>
      var needsMark := open != [] && !s.allocations[Last(open).index].wrapper;
      var marked := if needsMark then MarkWrapper(s.allocations, Last(open).index) else s.allocations;
      IndexedStays(s.allocations, marked, s.wrappers);
      State(marked + [Accept(o, open != [])],
            open + [Open(|s.allocations|, o.item.Limit())],
            if needsMark then Carry(marked, s.wrappers, Last(open).index, o.item.Limit()) else s.wrappers,
            if s.maxSize < o.item.size then o.item.size else s.maxSize)
  }

  function Accept(o: Offer, wrapped: bool): Allocation {
    Allocation(o.item.address, o.item.size, o.item.used, o.finder, false, wrapped)
  }

  // ---------------------------------------------------------------------------------------------
  // What every directory keeps
  // ---------------------------------------------------------------------------------------------

  ghost predicate InOrder(al: seq<Allocation>, i: int, j: int) {
    0 <= i < j < |al| ==> al[i].address <= al[j].address
  }

  ghost predicate NestedOrDisjoint(al: seq<Allocation>, i: int, j: int) {
    0 <= i < j < |al| ==> al[j].Limit() <= al[i].Limit() || al[i].Limit() <= al[j].address
  }

  ghost predicate Ordered(al: seq<Allocation>) {
    forall i, j :: InOrder(al, i, j)
  }

  /** Any two allocations are nested or disjoint. */
  ghost predicate Laminar(al: seq<Allocation>) {
    forall i, j :: NestedOrDisjoint(al, i, j)
  }

  /** j starts inside i, and hence lies inside i. */
  predicate Inside(al: seq<Allocation>, j: int, i: int) {
    0 <= i < j < |al| && al[j].address < al[i].Limit()
  }

  ghost predicate MarkedIfInside(al: seq<Allocation>, i: int, j: int) {
    Inside(al, j, i) ==> al[i].wrapper && al[j].wrapped
  }

  /** A wrapper has a later allocation that ends no later, a wrapped one an earlier that ends no earlier. */
  ghost predicate MarkEarned(al: seq<Allocation>, i: int) {
    0 <= i < |al| ==>
      && (al[i].wrapper ==> exists j :: i < j < |al| && al[j].Limit() <= al[i].Limit())
      && (al[i].wrapped ==> exists j :: 0 <= j < i && al[i].Limit() <= al[j].Limit())
  }

  ghost predicate MarksRight(al: seq<Allocation>) {
    (forall i, j :: MarkedIfInside(al, i, j)) && (forall i :: MarkEarned(al, i))
  }

  ghost predicate Shape(al: seq<Allocation>) {
    Ordered(al) && Laminar(al) && MarksRight(al)
  }

  /** A stack entry names an allocation; unless that is the last one, something was put inside of it. */
  ghost predicate EntryOk(al: seq<Allocation>, limits: seq<Open>, k: int) {
    0 <= k < |limits| ==>
      && limits[k].index < |al| && limits[k].limit == al[limits[k].index].Limit()
      && (limits[k].index < |al| - 1 ==> al[limits[k].index].wrapper)
  }

  ghost predicate EntriesNest(limits: seq<Open>, k: int, m: int) {
    0 <= k < m < |limits| ==> limits[k].index < limits[m].index && limits[m].limit <= limits[k].limit
  }

  /** Whatever was accepted after the allocation of a stack entry ends no later. */
  ghost predicate Encloses(al: seq<Allocation>, limits: seq<Open>, k: int, j: int) {
    0 <= k < |limits| && limits[k].index < j < |al| ==> al[j].Limit() <= limits[k].limit
  }

  predicate OnStack(limits: seq<Open>, i: int) {
    exists k :: 0 <= k < |limits| && limits[k].index == i
  }

  ghost predicate StillOpen(al: seq<Allocation>, limits: seq<Open>, last: nat, i: int) {
    0 <= i < |al| ==> al[i].address <= last && (last < al[i].Limit() ==> OnStack(limits, i))
  }

  /** The stack is nested and holds everything that ends after the last offered address. */
  ghost predicate StackOk(al: seq<Allocation>, limits: seq<Open>, last: nat) {
    && (forall k :: EntryOk(al, limits, k))
    && (forall k, m :: EntriesNest(limits, k, m))
    && (forall k, j :: Encloses(al, limits, k, j))
    && (forall i :: StillOpen(al, limits, last, i))
  }

  function Elements(level: seq<nat>): set<nat> {
    set w | w in level
  }

  /** The entries of all levels. */
  function Members(levels: seq<seq<nat>>): set<nat> {
    if levels == [] then {} else Elements(levels[0]) + Members(levels[1..])
  }

  /** A level is in order of address and its wrappers are pairwise disjoint. */
  ghost predicate LevelOk(al: seq<Allocation>, level: seq<nat>) {
    && level != []
    && (forall p :: 0 <= p < |level| ==> level[p] < |al| && al[level[p]].wrapper)
    && (forall p, q :: 0 <= p < q < |level| ==> level[p] < level[q] && al[level[p]].Limit() <= al[level[q]].address)
  }

  /** No wrapper of a higher level lies inside one of this level or comes after its last. */
  ghost predicate Under(al: seq<Allocation>, level: seq<nat>, higher: set<nat>)
    requires level != []
  {
    forall m :: m in higher ==> m < Last(level) && forall p :: 0 <= p < |level| ==> !Inside(al, m, level[p])
  }

  ghost predicate LevelsOk(al: seq<Allocation>, levels: seq<seq<nat>>) {
    levels != [] ==>
      && LevelOk(al, levels[0])
      && Under(al, levels[0], Members(levels[1..]))
      && LevelsOk(al, levels[1..])
  }

  /** Each wrapper of a level has one of the level just below inside of it. */
  ghost predicate LevelsTight(al: seq<Allocation>, levels: seq<seq<nat>>) {
    |levels| > 1 ==>
      && (forall w :: w in levels[1] ==> HasInside(al, w, levels[0]))
      && LevelsTight(al, levels[1..])
  }

  ghost predicate HasInside(al: seq<Allocation>, w: int, level: seq<nat>) {
    exists j :: j in level && Inside(al, j, w)
  }

  ghost predicate AllFiled(al: seq<Allocation>, levels: seq<seq<nat>>) {
    forall w :: 0 <= w < |al| && al[w].wrapper ==> w in Members(levels)
  }

  ghost predicate AllPositive(al: seq<Allocation>) {
    forall i :: 0 <= i < |al| ==> 0 < al[i].size
  }

  ghost predicate Invariant(s: State, last: nat) {
    && Shape(s.allocations)
    && StackOk(s.allocations, s.limits, last)
    && LevelsOk(s.allocations, s.wrappers)
    && AllFiled(s.allocations, s.wrappers)
  }
}

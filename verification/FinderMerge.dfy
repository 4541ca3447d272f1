/**
 Resolving allocation boundaries: several finders, each of which reports its allocations in order, are
 merged into the single order in which the directory consumes them.
 */
module FinderMerge {
  import opened AllocationDirectory
  import opened DirectorySteps
  import opened DirectoryContents
  import opened DirectoryLookup

  /** a must be consumed before b: it starts earlier or, starting at the same address, is larger. */
  predicate Before(a: Item, b: Item) {
    a.address < b.address || (a.address == b.address && a.size > b.size)
  }

  ghost predicate AddressSorted(s: seq<Item>) {
    forall i, j :: 0 <= i < j < |s| ==> s[i].address <= s[j].address
  }

  /** Sorted by address and, for equal addresses, larger first. */
  ghost predicate LargerFirst(s: seq<Item>) {
    forall i, j :: 0 <= i < j < |s| ==> !Before(s[j], s[i])
  }

  function Items(log: seq<Offer>): (items: seq<Item>)
    ensures |items| == |log| && forall i :: 0 <= i < |log| ==> items[i] == log[i].item
  {
    seq(|log|, i requires 0 <= i < |log| => log[i].item)
  }

  /** What finder f contributed, in the order in which it was consumed. */
  function From(log: seq<Offer>, f: nat): seq<Item>
    decreases |log|
  {
    if log == [] then []
    else if Last(log).finder == f then From(Init(log), f) + [Last(log).item]
    else From(Init(log), f)
  }

  // ---------------------------------------------------------------------------------------------
  // The merge, whatever picks the next finder
  // ---------------------------------------------------------------------------------------------

  ghost predicate Positions(streams: seq<seq<Item>>, next: seq<nat>) {
    |next| == |streams| && forall f :: 0 <= f < |streams| ==> next[f] <= |streams[f]|
  }

  predicate Unfinished(streams: seq<seq<Item>>, next: seq<nat>, f: int) {
    0 <= f < |streams| && |next| == |streams| && next[f] < |streams[f]|
  }

  function Head(streams: seq<seq<Item>>, next: seq<nat>, f: nat): Item
    requires Unfinished(streams, next, f)
  {
    streams[f][next[f]]
  }

  /** Each finder contributed exactly what it has advanced past. */
  ghost predicate Consumed(streams: seq<seq<Item>>, next: seq<nat>, log: seq<Offer>) {
    && Positions(streams, next)
    && (forall f :: 0 <= f < |streams| ==> From(log, f) == streams[f][..next[f]])
    && (forall i :: 0 <= i < |log| ==> log[i].finder < |streams|)
  }

  ghost predicate NoneBefore(streams: seq<seq<Item>>, next: seq<nat>, a: Item) {
    forall f :: Unfinished(streams, next, f) ==> !Before(Head(streams, next, f), a)
  }

  ghost predicate NoneLower(streams: seq<seq<Item>>, next: seq<nat>, address: nat) {
    forall f :: Unfinished(streams, next, f) ==> address <= Head(streams, next, f).address
  }

  ghost predicate Merging(streams: seq<seq<Item>>, next: seq<nat>, log: seq<Offer>) {
    && Consumed(streams, next, log)
    && ((forall f :: 0 <= f < |streams| ==> AddressSorted(streams[f])) ==>
          InAddressOrder(log) && NoneLower(streams, next, LastAddress(log)))
    && ((forall f :: 0 <= f < |streams| ==> LargerFirst(streams[f])) ==>
          LargerFirst(Items(log)) && (log != [] ==> NoneBefore(streams, next, Last(log).item)))
  }

  lemma MergingStarts(streams: seq<seq<Item>>, next: seq<nat>)
    requires |next| == |streams| && forall f :: 0 <= f < |next| ==> next[f] == 0
    ensures Merging(streams, next, [])
  {
  }

  lemma ConsumedStep(streams: seq<seq<Item>>, next: seq<nat>, log: seq<Offer>, f: nat)
    requires Consumed(streams, next, log) && Unfinished(streams, next, f)
    ensures Consumed(streams, next[f := next[f] + 1], log + [Offer(f, Head(streams, next, f))])
  {
    var log' := log + [Offer(f, Head(streams, next, f))];
    var next' := next[f := next[f] + 1];
    assert Init(log') == log;
    forall g | 0 <= g < |streams| ensures From(log', g) == streams[g][..next'[g]] {
      if g == f { assert streams[f][..next[f]] + [streams[f][next[f]]] == streams[f][..next[f] + 1]; }
    }
  }

  lemma AddressStep(streams: seq<seq<Item>>, next: seq<nat>, log: seq<Offer>, f: nat)
    requires Unfinished(streams, next, f) && AddressSorted(streams[f])
    requires InAddressOrder(log) && NoneLower(streams, next, LastAddress(log))
    requires NoneLower(streams, next, Head(streams, next, f).address)
    ensures var log' := log + [Offer(f, Head(streams, next, f))];
            InAddressOrder(log') && NoneLower(streams, next[f := next[f] + 1], LastAddress(log'))
  {
    var a, next' := Head(streams, next, f), next[f := next[f] + 1];
    forall i | 0 <= i < |log| ensures log[i].item.address <= a.address {
      assert log[i].item.address <= Last(log).item.address;
    }
    forall g | Unfinished(streams, next', g) ensures a.address <= Head(streams, next', g).address {
      if g != f { assert Unfinished(streams, next, g); }
    }
  }

  lemma KeyStep(streams: seq<seq<Item>>, next: seq<nat>, log: seq<Offer>, f: nat)
    requires Unfinished(streams, next, f) && LargerFirst(streams[f])
    requires LargerFirst(Items(log)) && (log != [] ==> NoneBefore(streams, next, Last(log).item))
    requires NoneBefore(streams, next, Head(streams, next, f))
    ensures var a := Head(streams, next, f);
            LargerFirst(Items(log + [Offer(f, a)])) && NoneBefore(streams, next[f := next[f] + 1], a)
  {
    var a, next' := Head(streams, next, f), next[f := next[f] + 1];
    var items := Items(log);
    forall i | 0 <= i < |log| ensures !Before(a, log[i].item) {
      assert items[i] == log[i].item && items[|log| - 1] == Last(log).item;
      if i < |log| - 1 { assert !Before(items[|log| - 1], items[i]); }
    }
    forall i, j | 0 <= i < j < |log| + 1
      ensures !Before(Items(log + [Offer(f, a)])[j], Items(log + [Offer(f, a)])[i])
    {
      if j < |log| { assert !Before(items[j], items[i]); }
    }
    forall g | Unfinished(streams, next', g) ensures !Before(Head(streams, next', g), a) {
      if g != f { assert Unfinished(streams, next, g); }
    }
  }

  /** Consuming a head that no other head must precede keeps the merge in order. */
  lemma MergingStep(streams: seq<seq<Item>>, next: seq<nat>, log: seq<Offer>, f: nat)
    requires Merging(streams, next, log) && Unfinished(streams, next, f)
    requires NoneBefore(streams, next, Head(streams, next, f))
    ensures Merging(streams, next[f := next[f] + 1], log + [Offer(f, Head(streams, next, f))])
  {
    ConsumedStep(streams, next, log, f);
    if forall g :: 0 <= g < |streams| ==> AddressSorted(streams[g]) {
      AddressStep(streams, next, log, f);
    }
    if forall g :: 0 <= g < |streams| ==> LargerFirst(streams[g]) {
      KeyStep(streams, next, log, f);
    }
  }

  /** Every item of every finder was consumed exactly once, in the order of its finder and in one common order. */
  ghost predicate MergeOf(streams: seq<seq<Item>>, log: seq<Offer>) {
    && (forall i :: 0 <= i < |log| ==> log[i].finder < |streams|)
    && (forall f :: 0 <= f < |streams| ==> From(log, f) == streams[f])
    && ((forall f :: 0 <= f < |streams| ==> AddressSorted(streams[f])) ==> InAddressOrder(log))
    && ((forall f :: 0 <= f < |streams| ==> LargerFirst(streams[f])) ==> LargerFirst(Items(log)))
  }

  lemma MergeIsComplete(streams: seq<seq<Item>>, next: seq<nat>, log: seq<Offer>)
    requires Merging(streams, next, log) && forall f :: !Unfinished(streams, next, f)
    ensures MergeOf(streams, log)
  {
    forall f | 0 <= f < |streams| ensures From(log, f) == streams[f] {
      assert !Unfinished(streams, next, f);
    }
  }

  /** The offers that are kept come before what is offered next, in the order of the log. */
  lemma {:induction false} KeptCameBefore(log: seq<Offer>, k: nat)
    requires k < |Kept(log)|
    ensures Kept(log)[k] in log
    decreases |log|
  {
    if k < |Kept(Init(log))| { KeptCameBefore(Init(log), k); }
  }

  /** In a log with larger items first, whatever is discarded starts strictly inside the allocation it crosses. */
  lemma DiscardedStartInside(log: seq<Offer>, o: Offer, i: nat)
    requires LargerFirst(Items(log + [o])) && i < |Kept(log)|
    requires Kept(log)[i].item.address <= o.item.address < Kept(log)[i].item.Limit() < o.item.Limit()
    ensures Kept(log)[i].item.address < o.item.address
  {
    KeptCameBefore(log, i);
    var j :| 0 <= j < |log| && log[j] == Kept(log)[i];
    assert !Before(Items(log + [o])[|log|], Items(log + [o])[j]);
  }

  ghost function Remaining(streams: seq<seq<Item>>, next: seq<nat>): nat
    requires Positions(streams, next)
    decreases |streams|
  {
    if streams == [] then 0
    else Remaining(streams[1..], next[1..]) + |streams[0]| - next[0]
  }

  lemma {:induction false} RemainingDrops(streams: seq<seq<Item>>, next: seq<nat>, f: nat)
    requires Positions(streams, next) && Unfinished(streams, next, f)
    ensures Positions(streams, next[f := next[f] + 1])
    ensures Remaining(streams, next[f := next[f] + 1]) == Remaining(streams, next) - 1
    decreases |streams|
  {
    var next' := next[f := next[f] + 1];
    if f == 0 {
      assert next'[1..] == next[1..];
    } else {
      RemainingDrops(streams[1..], next[1..], f - 1);
      assert next'[1..] == next[1..][f - 1 := next[1..][f - 1] + 1];
    }
  }

  // ---------------------------------------------------------------------------------------------
  // The heap of finders
  // ---------------------------------------------------------------------------------------------

  ghost predicate Active(streams: seq<seq<Item>>, next: seq<nat>, active: seq<nat>) {
    && (forall i :: 0 <= i < |active| ==> Unfinished(streams, next, active[i]))
    && (forall i, j :: 0 <= i < j < |active| ==> active[i] != active[j])
    && (forall f :: Unfinished(streams, next, f) ==> f in active)
  }

  /** The head of entry i need not be consumed before the head of entry j. */
  predicate MayFollow(streams: seq<seq<Item>>, next: seq<nat>, active: seq<nat>, i: nat, j: nat) {
    i < |active| && j < |active| && Unfinished(streams, next, active[i]) && Unfinished(streams, next, active[j]) ==>
      !Before(Head(streams, next, active[i]), Head(streams, next, active[j]))
  }

  /** The order between an entry below the top and its parent; with four entries only the last one has such a parent. */
  predicate BelowTop(streams: seq<seq<Item>>, next: seq<nat>, active: seq<nat>) {
    MayFollow(streams, next, active, 3, 1)
  }

  /** No entry must be consumed before its parent in the heap. */
  predicate Heap(streams: seq<seq<Item>>, next: seq<nat>, active: seq<nat>) {
    && MayFollow(streams, next, active, 1, 0)
    && MayFollow(streams, next, active, 2, 0)
    && BelowTop(streams, next, active)
  }

  lemma TopIsFirst(streams: seq<seq<Item>>, next: seq<nat>, active: seq<nat>)
    requires 0 < |active| <= 4 && Active(streams, next, active) && Heap(streams, next, active)
    ensures NoneBefore(streams, next, Head(streams, next, active[0]))
  {
    forall f | Unfinished(streams, next, f)
      ensures !Before(Head(streams, next, f), Head(streams, next, active[0]))
    {
      var i :| 0 <= i < |active| && active[i] == f;
    }
  }

  /** After the top finder advanced: it keeps its place, or the last entry takes it. */
  lemma TopAdvanced(streams: seq<seq<Item>>, next: seq<nat>, active: seq<nat>)
    requires 2 < |active| <= 4 && Active(streams, next, active) && Heap(streams, next, active)
    ensures var next' := next[active[0] := next[active[0]] + 1];
            && BelowTop(streams, next', active)
            && if Unfinished(streams, next', active[0]) then Active(streams, next', active)
               else Active(streams, next', Init(active)[0 := Last(active)])
  {
    var next' := next[active[0] := next[active[0]] + 1];
    var rest := Init(active)[0 := Last(active)];
    forall f | Unfinished(streams, next', f) && f != active[0]
      ensures f in active && f in rest
    {
      assert Unfinished(streams, next, f);
      var i :| 0 <= i < |active| && active[i] == f;
      assert rest[if i == |active| - 1 then 0 else i] == f;
    }
  }

  lemma {:induction false} CountedOnce(s: seq<nat>, x: nat)
    requires forall i, j :: 0 <= i < j < |s| ==> s[i] != s[j]
    ensures multiset(s)[x] <= 1
    decreases |s|
  {
    if s != [] {
      CountedOnce(Init(s), x);
      assert s == Init(s) + [Last(s)];
    }
  }

  lemma CountedTwice(s: seq<nat>, i: nat, j: nat)
    requires i < j < |s| && s[i] == s[j]
    ensures multiset(s)[s[i]] > 1
  {
    assert s == s[..j] + [s[j]] + s[j + 1..];
    assert s[..j][i] in multiset(s[..j]);
  }

  /** The same finders in another arrangement. */
  lemma Rearranged(streams: seq<seq<Item>>, next: seq<nat>, active: seq<nat>, moved: seq<nat>)
    requires Active(streams, next, active) && multiset(moved) == multiset(active)
    ensures Active(streams, next, moved)
  {
    forall i | 0 <= i < |moved| ensures Unfinished(streams, next, moved[i]) {
      assert moved[i] in multiset(active);
    }
    forall i, j | 0 <= i < j < |moved| ensures moved[i] != moved[j] {
      CountedOnce(active, moved[i]);
      if moved[i] == moved[j] { CountedTwice(moved, i, j); }
    }
    forall f | Unfinished(streams, next, f) ensures f in moved {
      assert f in multiset(active);
    }
  }

  /** In after, a finder was put in place of the one at heapIndex of before, perhaps exchanged with its left child. */
  predicate PlacedWell(streams: seq<seq<Item>>, next: seq<nat>, finder: nat, before: seq<nat>, heapIndex: nat,
                       after: seq<nat>)
    requires heapIndex < |before|
  {
    var leftChild := 2 * heapIndex + 1;
    && |after| == |before| && multiset(after) == multiset(before[heapIndex := finder])
    && (forall i :: 0 <= i < |before| && i != heapIndex && i != leftChild ==> after[i] == before[i])
    && MayFollow(streams, next, after, leftChild, heapIndex)
  }

  lemma OneMoved(before: seq<nat>, finder: nat, i: nat, after: seq<nat>)
    requires i < |before| == |after| && multiset(after) == multiset(before[i := finder])
    requires forall k :: 0 <= k < |before| && k != i ==> after[k] == before[k]
    ensures after[i] == finder
  {
    assert after == before[i := after[i]];
    assert multiset(after)[finder] == multiset(before[i := finder])[finder];
  }

  lemma TwoMoved(before: seq<nat>, finder: nat, i: nat, j: nat, after: seq<nat>)
    requires i < j < |before| == |after| && multiset(after) == multiset(before[i := finder])
    requires forall k :: 0 <= k < |before| && k != i && k != j ==> after[k] == before[k]
    ensures (after[i] == finder && after[j] == before[j]) || (after[i] == before[j] && after[j] == finder)
  {
    var base: seq<nat> := before[i := finder];
    var half: seq<nat> := base[i := after[i]];
    assert after == half[j := after[j]];
    var rest := multiset(base) - multiset{finder};
    assert multiset(half) == rest + multiset{after[i]};
    assert multiset(after) == rest + multiset{after[i]} - multiset{before[j]} + multiset{after[j]};
    assert rest[before[j]] > 0 by {
      assert base[j] == before[j] && base[i] == finder;
      if before[j] == finder { CountedTwice(base, i, j); }
    }
    assert multiset{after[i]} + multiset{after[j]} == multiset{finder} + multiset{before[j]};
    assert after[i] in multiset{finder} + multiset{before[j]} && after[j] in multiset{finder} + multiset{before[j]};
    assert (multiset{after[i]} + multiset{after[j]})[after[i]] == (multiset{finder} + multiset{before[j]})[after[i]];
  }

  /** The top made way for its first child and was placed below: the heap order holds again. */
  lemma SiftedDown(streams: seq<seq<Item>>, next: seq<nat>, active: seq<nat>, child: nat, sifted: seq<nat>)
    requires 3 <= |active| <= 4 && Active(streams, next, active) && BelowTop(streams, next, active)
    requires 1 <= child <= 2 && Before(Head(streams, next, active[child]), Head(streams, next, active[0]))
    requires MayFollow(streams, next, active, 3 - child, child)
    requires PlacedWell(streams, next, active[0], active[0 := active[child]], child, sifted)
    ensures Active(streams, next, sifted) && Heap(streams, next, sifted)
  {
    var before := active[0 := active[child]];
    assert multiset(before[child := active[0]]) == multiset(active);
    Rearranged(streams, next, active, sifted);
    if child == 1 && |active| == 4 {
      TwoMoved(before, active[0], 1, 3, sifted);
    } else {
      OneMoved(before, active[0], child, sifted);
    }
  }

  /** The finders, from f on, that have something to report. */
  function ActiveFrom(streams: seq<seq<Item>>, next: seq<nat>, f: nat): seq<nat>
    requires f <= |streams| && |next| == |streams|
    decreases |streams| - f
  {
    if f == |streams| then []
    else (if Unfinished(streams, next, f) then [f] else []) + ActiveFrom(streams, next, f + 1)
  }

  /** The given finders are in order, and are those from f on that have something to report. */
  ghost predicate AllFrom(streams: seq<seq<Item>>, next: seq<nat>, f: nat, r: seq<nat>) {
    && (forall i :: 0 <= i < |r| ==> f <= r[i] && Unfinished(streams, next, r[i]))
    && (forall i, j :: 0 <= i < j < |r| ==> r[i] < r[j])
    && (forall g :: f <= g && Unfinished(streams, next, g) ==> g in r)
  }

  lemma OneMoreFrom(streams: seq<seq<Item>>, next: seq<nat>, f: nat, rest: seq<nat>)
    requires AllFrom(streams, next, f + 1, rest)
    ensures AllFrom(streams, next, f, if Unfinished(streams, next, f) then [f] + rest else rest)
  {
    if Unfinished(streams, next, f) {
      var r := [f] + rest;
      forall g | f <= g && Unfinished(streams, next, g) ensures g in r {
        assert g == r[0] || g in rest;
      }
    }
  }

  lemma {:induction false} ActiveFromIsActive(streams: seq<seq<Item>>, next: seq<nat>, f: nat)
    requires f <= |streams| == |next|
    ensures AllFrom(streams, next, f, ActiveFrom(streams, next, f))
    decreases |streams| - f
  {
    if f < |streams| {
      var rest := ActiveFrom(streams, next, f + 1);
      ActiveFromIsActive(streams, next, f + 1);
      OneMoreFrom(streams, next, f, rest);
      assert [] + rest == rest;
    }
  }

  method ActiveFinders(streams: seq<seq<Item>>, next: seq<nat>) returns (active: seq<nat>)
    requires Positions(streams, next)
    ensures active == ActiveFrom(streams, next, 0) && Active(streams, next, active)
  {
    active := [];
    for f := 0 to |streams|
      invariant active + ActiveFrom(streams, next, f) == ActiveFrom(streams, next, 0)
    {
      if Unfinished(streams, next, f) {
        active := active + [f];
      }
    }
    ActiveFromIsActive(streams, next, 0);
  }

  lemma Swapped(streams: seq<seq<Item>>, next: seq<nat>, active: seq<nat>, i: nat, j: nat)
    requires Active(streams, next, active) && i < j < |active|
    ensures Active(streams, next, active[i := active[j]][j := active[i]])
  {
    Rearranged(streams, next, active, active[i := active[j]][j := active[i]]);
  }

  predicate Leads(streams: seq<seq<Item>>, next: seq<nat>, active: seq<nat>, i: nat) {
    forall k :: 0 <= k < |active| ==> MayFollow(streams, next, active, k, i)
  }

  /** Exchanges two finders if the later one in the arrangement must be consumed before the earlier. */
  method Exchange(streams: seq<seq<Item>>, next: seq<nat>, active: seq<nat>, i: nat, j: nat) returns (ordered: seq<nat>)
    requires Active(streams, next, active) && i < j < |active|
    ensures |ordered| == |active| && Active(streams, next, ordered) && MayFollow(streams, next, ordered, j, i)
    ensures forall k :: 0 <= k < |active| && MayFollow(streams, next, active, k, i) ==>
              MayFollow(streams, next, ordered, k, i)
    ensures i > 0 && Leads(streams, next, active, 0) ==> Leads(streams, next, ordered, 0)
  {
    ordered := active;
    if Before(Head(streams, next, active[j]), Head(streams, next, active[i])) {
      Swapped(streams, next, active, i, j);
      ordered := active[i := active[j]][j := active[i]];
      if i > 0 && Leads(streams, next, active, 0) {
        forall k | 0 <= k < |active| ensures MayFollow(streams, next, ordered, k, 0) {
          assert MayFollow(streams, next, active, if k == i then j else if k == j then i else k, 0);
        }
      }
    }
  }

  /** Arranges three or four active finders as a heap, in the way that std::make_heap promises. */
  method MakeHeap(streams: seq<seq<Item>>, next: seq<nat>, active: seq<nat>) returns (heap: seq<nat>)
    requires 3 <= |active| <= 4 && Active(streams, next, active)
    ensures |heap| == |active| && Active(streams, next, heap) && Heap(streams, next, heap)
  {
    heap := active;
    for i := 1 to |active|
      invariant |heap| == |active| && Active(streams, next, heap)
      invariant forall k :: 0 <= k < i ==> MayFollow(streams, next, heap, k, 0)
    {
      heap := Exchange(streams, next, heap, 0, i);
    }
    if |active| == 4 {
      assert Leads(streams, next, heap, 0);
      heap := Exchange(streams, next, heap, 1, 3);
    }
  }

  /** The heads of the two finders below the top, and which of them goes first. */
  datatype Children = Children(left: Item, right: Item, leftIsNext: bool) {
    function Next(): Item { if leftIsNext then left else right }
  }

  function ReadChildren(streams: seq<seq<Item>>, next: seq<nat>, active: seq<nat>): Children
    requires 3 <= |active| && Unfinished(streams, next, active[1]) && Unfinished(streams, next, active[2])
  {
    var left, right := Head(streams, next, active[1]), Head(streams, next, active[2]);
    Children(left, right, left.address < right.address || (left.address == right.address && left.size >= right.size))
  }

  // With five or more active finders, placing one can reach the loop that compares the two children of a
  // place.  The loop moves the place but never the children.

  datatype Spot = Placed(active: seq<nat>) | Moving(active: seq<nat>, heapIndex: nat)

  /** The child that goes first, with the left one winning only if it strictly does. */
  function PreferredChild(streams: seq<seq<Item>>, next: seq<nat>, active: seq<nat>, leftChild: nat): nat
    requires leftChild + 1 < |active|
    requires forall i :: 0 <= i < |active| ==> Unfinished(streams, next, active[i])
  {
    if Before(Head(streams, next, active[leftChild]), Head(streams, next, active[leftChild + 1]))
    then leftChild else leftChild + 1
  }

  /** One turn of the loop.  On equal addresses it compares the address with the size of the child. */
  function PlaceTurn(streams: seq<seq<Item>>, next: seq<nat>, finder: nat, spot: Spot, leftChild: nat): Spot
    requires leftChild + 1 < |spot.active| && Unfinished(streams, next, finder)
    requires forall i :: 0 <= i < |spot.active| ==> Unfinished(streams, next, spot.active[i])
    requires spot.Moving? ==> spot.heapIndex < |spot.active|
  {
    match spot
    case Placed(_) => spot
    case Moving(active, heapIndex) =>
      var child := PreferredChild(streams, next, active, leftChild);
      var item, childItem := Head(streams, next, finder), Head(streams, next, active[child]);
      if item.address < childItem.address || (item.address == childItem.address && item.address >= childItem.size)
      then Placed(active[heapIndex := finder])
      else Moving(active[heapIndex := active[child]], child)
  }

  ghost predicate TurnsWell(streams: seq<seq<Item>>, next: seq<nat>, finder: nat, spot: Spot, leftChild: nat) {
    && leftChild + 1 < |spot.active| && Unfinished(streams, next, finder)
    && (forall i :: 0 <= i < |spot.active| ==> Unfinished(streams, next, spot.active[i]))
    && (spot.Moving? ==> spot.heapIndex < |spot.active|)
  }

  /** The state of the loop after n turns. */
  ghost function PlaceTurns(streams: seq<seq<Item>>, next: seq<nat>, finder: nat, spot: Spot, leftChild: nat,
                            n: nat): (r: Spot)
    requires TurnsWell(streams, next, finder, spot, leftChild)
    ensures TurnsWell(streams, next, finder, r, leftChild)
  {
    if n == 0 then spot
    else PlaceTurn(streams, next, finder, PlaceTurns(streams, next, finder, spot, leftChild, n - 1), leftChild)
  }

  /** The loop ends in its first turn, which it does exactly when the finder beats the preferred child, or never. */
  lemma {:induction false} PlaceEndsAtOnceOrNever(streams: seq<seq<Item>>, next: seq<nat>, finder: nat,
                                                   active: seq<nat>, heapIndex: nat, n: nat)
    requires 2 * heapIndex + 2 < |active| && n > 0 && Unfinished(streams, next, finder)
    requires forall i :: 0 <= i < |active| ==> Unfinished(streams, next, active[i])
    ensures var leftChild := 2 * heapIndex + 1;
            var left, right := Head(streams, next, active[leftChild]), Head(streams, next, active[leftChild + 1]);
            var child := if Before(left, right) then leftChild else leftChild + 1;
            var item, childItem := Head(streams, next, finder), Head(streams, next, active[child]);
            var r := PlaceTurns(streams, next, finder, Moving(active, heapIndex), leftChild, n);
            if item.address < childItem.address || (item.address == childItem.address && item.address >= childItem.size)
            then r == Placed(active[heapIndex := finder])
            else r == Moving(active[heapIndex := active[child]], child)
  {
    var leftChild := 2 * heapIndex + 1;
    var spot := Moving(active, heapIndex);
    if n == 1 {
      assert PlaceTurns(streams, next, finder, spot, leftChild, 0) == spot;
    } else {
      PlaceEndsAtOnceOrNever(streams, next, finder, active, heapIndex, n - 1);
      var child := PreferredChild(streams, next, active, leftChild);
      var moved := active[heapIndex := active[child]];
      assert moved[child := moved[child]] == moved;
    }
  }

  /** Five finders of which the first reports [0,1) and [10,11), and the others one allocation each in between. */
  const FIVE: seq<seq<Item>> :=
    [[Item(0, 1, true), Item(10, 1, true)],
     [Item(1, 1, true)], [Item(2, 1, true)], [Item(5, 1, true)], [Item(6, 1, true)]]

  /** They are sorted and start as a heap, but once [0,1) is consumed, placing the first finder goes on for ever. */
  lemma FiveFindersLoop(n: nat)
    requires n > 0
    ensures forall f :: 0 <= f < 5 ==> LargerFirst(FIVE[f])
    ensures var start, heap := [0, 0, 0, 0, 0], [0, 1, 2, 3, 4];
            && Active(FIVE, start, heap) && Heap(FIVE, start, heap) && MayFollow(FIVE, start, heap, 4, 1)
    ensures var next, active := [1, 0, 0, 0, 0], [1, 1, 2, 3, 4];
            && TurnsWell(FIVE, next, 0, Moving(active, 1), 3)
            && PlaceTurns(FIVE, next, 0, Moving(active, 1), 3, n) == Moving([1, 3, 2, 3, 4], 3)
  {
    var next, active := [1, 0, 0, 0, 0], [1, 1, 2, 3, 4];
    PlaceEndsAtOnceOrNever(FIVE, next, 0, active, 1, n);
    assert active[1 := 3] == [1, 3, 2, 3, 4];
  }

  /** Puts a finder in place of another one below the top: nothing else is lost, and the place is in order. */
  method Place(streams: seq<seq<Item>>, next: seq<nat>, finder: nat, active: seq<nat>, heapIndex: nat)
    returns (placed: seq<nat>)
    requires 3 <= |active| <= 4 && 1 <= heapIndex <= 2
    requires Unfinished(streams, next, finder) && forall i :: 0 <= i < |active| ==> Unfinished(streams, next, active[i])
    ensures PlacedWell(streams, next, finder, active, heapIndex, placed)
  {
    var item := Head(streams, next, finder);
    var leftChild := 2 * heapIndex + 1;
    if leftChild < |active| {
      var leftItem := Head(streams, next, active[leftChild]);
      if item.address < leftItem.address || (item.address == leftItem.address && item.size > leftItem.size) {
        placed := active[heapIndex := finder];
      } else {
        placed := active[heapIndex := active[leftChild]][leftChild := finder];
      }
    } else {
      placed := active[heapIndex := finder];
    }
  }

  /** Restores the heap after the head of the top finder changed. */
  method SiftTop(streams: seq<seq<Item>>, next: seq<nat>, active: seq<nat>, children: Children)
    returns (sifted: seq<nat>, children': Children)
    requires 3 <= |active| <= 4 && Active(streams, next, active) && BelowTop(streams, next, active)
    requires children == ReadChildren(streams, next, active)
    ensures |sifted| == |active| && Active(streams, next, sifted) && Heap(streams, next, sifted)
    ensures children' == ReadChildren(streams, next, sifted)
    ensures var top, left, right :=
              Head(streams, next, active[0]), Head(streams, next, active[1]), Head(streams, next, active[2]);
            if Before(left, top) && !Before(right, left) then sifted[0] == active[1]
            else if Before(right, top) && Before(right, left) then sifted[0] == active[2]
            else sifted == active
  {
    sifted, children' := active, children;
    var top, nextItem := Head(streams, next, active[0]), children.Next();
    if nextItem.address < top.address || (nextItem.address == top.address && nextItem.size > top.size) {
      if children.leftIsNext {
        sifted := Place(streams, next, active[0], active[0 := active[1]], 1);
      } else {
        sifted := Place(streams, next, active[0], active[0 := active[2]], 2);
      }
      SiftedDown(streams, next, active, if children.leftIsNext then 1 else 2, sifted);
      children' := ReadChildren(streams, next, sifted);
    }
  }

  /** Two finders, and no others, have something left to report. */
  ghost predicate TwoLeft(streams: seq<seq<Item>>, next: seq<nat>, f: nat, other: nat) {
    && f != other && Unfinished(streams, next, f) && Unfinished(streams, next, other)
    && forall g :: Unfinished(streams, next, g) ==> g == f || g == other
  }

  lemma TwoLeftAfter(streams: seq<seq<Item>>, next: seq<nat>, f: nat, other: nat)
    requires TwoLeft(streams, next, f, other)
    ensures var next' := next[f := next[f] + 1];
            && Unfinished(streams, next', other) && Head(streams, next', other) == Head(streams, next, other)
            && if Unfinished(streams, next', f) then TwoLeft(streams, next', f, other)
               else Active(streams, next', [other])
  {
    var next' := next[f := next[f] + 1];
    forall g | Unfinished(streams, next', g) ensures Unfinished(streams, next, g) {}
  }

  // Of two finders with the same address and size, the second one goes first.

  predicate Tie(a: Item, b: Item) { a.address == b.address && a.size == b.size }

  ghost predicate YieldsAt(log: seq<Offer>, start: nat, f0: nat, f1: nat, i: nat, j: nat) {
    start <= i < j < |log| && log[i].finder == f0 && log[j].finder == f1 ==> !Tie(log[i].item, log[j].item)
  }

  /** From start on, no item of f0 comes before one of f1 with the same address and size. */
  ghost predicate Yields(log: seq<Offer>, start: nat, f0: nat, f1: nat) {
    forall i: nat, j: nat :: YieldsAt(log, start, f0, f1, i, j)
  }

  ghost predicate NoTieAt(streams: seq<seq<Item>>, next: seq<nat>, log: seq<Offer>, start: nat, f0: nat, f1: nat,
                          i: nat, k: nat)
  {
    start <= i < |log| && log[i].finder == f0 && f1 < |streams| && f1 < |next| && next[f1] <= k < |streams[f1]| ==>
      !Tie(log[i].item, streams[f1][k])
  }

  /** The same for the items of f1 that are still to come. */
  ghost predicate NoTieLeft(streams: seq<seq<Item>>, next: seq<nat>, log: seq<Offer>, start: nat, f0: nat, f1: nat) {
    forall i: nat, k: nat :: NoTieAt(streams, next, log, start, f0, f1, i, k)
  }

  /** If f1 reports larger items first, no item of f0 has come before one of f1 that it ties with. */
  ghost predicate TieFree(streams: seq<seq<Item>>, next: seq<nat>, log: seq<Offer>, start: nat, f0: nat, f1: nat) {
    f1 < |streams| && LargerFirst(streams[f1]) ==>
      Yields(log, start, f0, f1) && NoTieLeft(streams, next, log, start, f0, f1)
  }

  lemma TieStep(streams: seq<seq<Item>>, next: seq<nat>, log: seq<Offer>, start: nat, f0: nat, f1: nat, f: nat)
    requires Positions(streams, next) && Unfinished(streams, next, f) && f0 != f1 && f1 < |streams|
    requires TieFree(streams, next, log, start, f0, f1) && LargerFirst(streams[f1])
    requires f == f0 && Unfinished(streams, next, f1) ==>
               Before(Head(streams, next, f0), Head(streams, next, f1))
    ensures TieFree(streams, next[f := next[f] + 1], log + [Offer(f, Head(streams, next, f))], start, f0, f1)
  {
    var next', log' := next[f := next[f] + 1], log + [Offer(f, Head(streams, next, f))];
    forall i: nat, j: nat ensures YieldsAt(log', start, f0, f1, i, j) {
      assert YieldsAt(log, start, f0, f1, i, j);
      if f == f1 { assert NoTieAt(streams, next, log, start, f0, f1, i, next[f1]); }
    }
    forall i: nat, k: nat ensures NoTieAt(streams, next', log', start, f0, f1, i, k) {
      assert NoTieAt(streams, next, log, start, f0, f1, i, k);
      if f == f0 && next[f1] < k < |streams[f1]| { assert !Before(streams[f1][k], streams[f1][next[f1]]); }
    }
  }

  lemma TieFreeStep(streams: seq<seq<Item>>, next: seq<nat>, log: seq<Offer>, start: nat, f0: nat, f1: nat, f: nat)
    requires Positions(streams, next) && Unfinished(streams, next, f) && f0 != f1 && f1 < |streams|
    requires TieFree(streams, next, log, start, f0, f1)
    requires f == f0 && Unfinished(streams, next, f1) ==>
               Before(Head(streams, next, f0), Head(streams, next, f1))
    ensures TieFree(streams, next[f := next[f] + 1], log + [Offer(f, Head(streams, next, f))], start, f0, f1)
  {
    if LargerFirst(streams[f1]) { TieStep(streams, next, log, start, f0, f1, f); }
  }

  /** The items of finder f from one position to another were added to the log. */
  ghost predicate Appended(streams: seq<seq<Item>>, before: seq<Offer>, log: seq<Offer>, f: nat, from: nat, to: nat) {
    && f < |streams| && from <= to <= |streams[f]|
    && |log| == |before| + (to - from) && before <= log
    && forall j :: |before| <= j < |log| ==> log[j] == Offer(f, streams[f][from + (j - |before|)])
  }

  lemma OneMoreAppended(streams: seq<seq<Item>>, before: seq<Offer>, log: seq<Offer>, f: nat, from: nat, to: nat)
    requires Appended(streams, before, log, f, from, to) && to < |streams[f]|
    ensures Appended(streams, before, log + [Offer(f, streams[f][to])], f, from, to + 1)
  {
  }

  /** What is left of one finder may follow. */
  lemma TiesAtEnd(streams: seq<seq<Item>>, next: seq<nat>, log: seq<Offer>, start: nat, f0: nat, f1: nat, f: nat,
                  log': seq<Offer>)
    requires Positions(streams, next) && f < |streams| && f1 < |streams| && f0 != f1 && (f == f0 || f == f1)
    requires TieFree(streams, next, log, start, f0, f1)
    requires Appended(streams, log, log', f, next[f], |streams[f]|)
    ensures LargerFirst(streams[f1]) ==> Yields(log', start, f0, f1)
  {
    if LargerFirst(streams[f1]) {
      forall i: nat, j: nat ensures YieldsAt(log', start, f0, f1, i, j) {
        assert YieldsAt(log, start, f0, f1, i, j);
        if j >= |log| { assert NoTieAt(streams, next, log, start, f0, f1, i, next[f] + (j - |log|)); }
      }
    }
  }

  class Resolver {
    const streams: seq<seq<Item>>
    const directory: Directory
    var next: seq<nat>

    /** What was consumed so far, in order, is a merge of what the finders advanced past. */
    ghost predicate Valid()
      reads this, directory
    {
      directory.Valid() && Merging(streams, next, directory.offers)
    }

    constructor (streams: seq<seq<Item>>)
      ensures Valid() && fresh(directory) && this.streams == streams && directory.offers == []
    {
      this.streams := streams;
      next := seq(|streams|, _ => 0);
      directory := new Directory();
      new;
      MergingStarts(streams, next);
    }

    predicate IsUnfinished(f: nat)
      reads this
    {
      Unfinished(streams, next, f)
    }

    method ConsumeFrom(f: nat)
      requires Valid() && Unfinished(streams, next, f) && NoneBefore(streams, next, Head(streams, next, f))
      modifies this, directory
      ensures Valid() && next == old(next)[f := old(next)[f] + 1]
      ensures forall g :: Unfinished(streams, next, g) ==> Unfinished(streams, old(next), g)
      ensures Remaining(streams, next) == old(Remaining(streams, next)) - 1
      ensures directory.offers == old(directory.offers) + [Offer(f, old(Head(streams, next, f)))]
    {
      var o := Offer(f, Head(streams, next, f));
      MergingStep(streams, next, directory.offers, f);
      RemainingDrops(streams, next, f);
      directory.ConsumeCurrentAllocation(o);
      next := next[f := next[f] + 1];
    }

    method AppendRemainingAllocationsFromFinder(f: nat)
      requires Valid() && Active(streams, next, [f])
      modifies this, directory
      ensures Valid() && forall g :: !Unfinished(streams, next, g)
      ensures Positions(streams, old(next)) && f < |streams|
      ensures Appended(streams, old(directory.offers), directory.offers, f, old(next)[f], |streams[f]|)
    {
      assert [f][0] == f;
      ghost var from := next[f];
      while Unfinished(streams, next, f)
        invariant Valid() && forall g :: Unfinished(streams, next, g) ==> g == f
        invariant Appended(streams, old(directory.offers), directory.offers, f, from, next[f])
        decreases Remaining(streams, next)
      {
        OneMoreAppended(streams, old(directory.offers), directory.offers, f, from, next[f]);
        ConsumeFrom(f);
      }
    }

    /** Consumes from the one of two finders that goes first. */
    method ConsumeFirst(f: nat, other: nat)
      requires Valid() && TwoLeft(streams, next, f, other)
      requires !Before(Head(streams, next, other), Head(streams, next, f))
      modifies this, directory
      ensures Valid() && Remaining(streams, next) < old(Remaining(streams, next))
      ensures if IsUnfinished(f) then TwoLeft(streams, next, f, other) else Active(streams, next, [other])
      ensures Unfinished(streams, next, other) && Head(streams, next, other) == old(Head(streams, next, other))
      ensures next == old(next)[f := old(next)[f] + 1]
      ensures directory.offers == old(directory.offers) + [Offer(f, old(Head(streams, next, f)))]
    {
      ConsumeFrom(f);
      TwoLeftAfter(streams, old(next), f, other);
    }

    /** The same, given that f0 goes before f1 only if it must. */
    method ConsumeOfTwo(f: nat, other: nat, ghost start: nat, ghost f0: nat, ghost f1: nat)
      requires (f == f0 && other == f1) || (f == f1 && other == f0)
      requires Valid() && TwoLeft(streams, next, f, other)
      requires !Before(Head(streams, next, other), Head(streams, next, f))
      requires f == f0 ==> Before(Head(streams, next, f), Head(streams, next, other))
      requires TieFree(streams, next, directory.offers, start, f0, f1)
      modifies this, directory
      ensures Valid() && Remaining(streams, next) < old(Remaining(streams, next))
      ensures if IsUnfinished(f) then TwoLeft(streams, next, f, other) else Active(streams, next, [other])
      ensures Unfinished(streams, next, other) && Head(streams, next, other) == old(Head(streams, next, other))
      ensures TieFree(streams, next, directory.offers, start, f0, f1)
    {
      TieFreeStep(streams, next, directory.offers, start, f0, f1, f);
      ConsumeFirst(f, other);
    }

    /** What is left when one of two finders is done. */
    method ConsumeRest(f: nat, ghost start: nat, ghost f0: nat, ghost f1: nat)
      requires Valid() && Active(streams, next, [f]) && f0 != f1 && f1 < |streams| && (f == f0 || f == f1)
      requires TieFree(streams, next, directory.offers, start, f0, f1)
      modifies this, directory
      ensures Valid() && forall g :: !Unfinished(streams, next, g)
      ensures LargerFirst(streams[f1]) ==> Yields(directory.offers, start, f0, f1)
    {
      AppendRemainingAllocationsFromFinder(f);
      TiesAtEnd(streams, old(next), old(directory.offers), start, f0, f1, f, directory.offers);
    }

    method AppendRemainingAllocationsFromTwoFinders(f0: nat, f1: nat)
      requires Valid() && Active(streams, next, [f0, f1])
      modifies this, directory
      ensures Valid() && forall g :: !Unfinished(streams, next, g)
      ensures f1 < |streams| && (LargerFirst(streams[f1]) ==> Yields(directory.offers, |old(directory.offers)|, f0, f1))
    {
      assert [f0, f1][0] == f0 && [f0, f1][1] == f1;
      ghost var start := |directory.offers|;
      var item0, item1 := Head(streams, next, f0), Head(streams, next, f1);
      while true
        invariant Valid() && TwoLeft(streams, next, f0, f1)
        invariant item0 == Head(streams, next, f0) && item1 == Head(streams, next, f1)
        invariant TieFree(streams, next, directory.offers, start, f0, f1)
        decreases Remaining(streams, next)
      {
        if item0.address < item1.address || (item0.address == item1.address && item0.size > item1.size) {
          ConsumeOfTwo(f0, f1, start, f0, f1);
          if !IsUnfinished(f0) {
            ConsumeRest(f1, start, f0, f1);
            return;
          }
          item0 := Head(streams, next, f0);
        } else {
          ConsumeOfTwo(f1, f0, start, f0, f1);
          if !IsUnfinished(f1) {
            ConsumeRest(f0, start, f0, f1);
            return;
          }
          item1 := Head(streams, next, f1);
        }
      }
    }

    /** Consumes from the finder on top; if that is its last allocation, the last finder takes its place. */
    method ConsumeTop(active: seq<nat>) returns (rest: seq<nat>)
      requires Valid() && 3 <= |active| <= 4 && Active(streams, next, active) && Heap(streams, next, active)
      modifies this, directory
      ensures Valid() && Remaining(streams, next) < old(Remaining(streams, next))
      ensures Active(streams, next, rest) && BelowTop(streams, next, rest)
      ensures |active| - 1 <= |rest| <= |active|
      ensures |rest| > 2 ==> ReadChildren(streams, next, rest) == old(ReadChildren(streams, next, active))
    {
      TopIsFirst(streams, next, active);
      TopAdvanced(streams, next, active);
      ConsumeFrom(active[0]);
      rest := active;
      if !IsUnfinished(active[0]) {
        rest := Init(active)[0 := Last(active)];
      }
    }

    /** Merges three or four finders, keeping the one to consume next on top of a heap. */
    method AppendRemainingAllocationsFromFinders(finders: seq<nat>)
      requires Valid() && 3 <= |finders| <= 4 && Active(streams, next, finders)
      modifies this, directory
      ensures Valid() && forall g :: !Unfinished(streams, next, g)
    {
      var active := MakeHeap(streams, next, finders);
      var children := ReadChildren(streams, next, active);
      while true
        invariant Valid() && 3 <= |active| <= 4 && Active(streams, next, active) && Heap(streams, next, active)
        invariant children == ReadChildren(streams, next, active)
        decreases Remaining(streams, next)
      {
        active := ConsumeTop(active);
        if |active| == 2 {
          assert active == [active[0], active[1]];
          AppendRemainingAllocationsFromTwoFinders(active[0], active[1]);
          return;
        }
        active, children := SiftTop(streams, next, active, children);
      }
    }

    /** Chooses the merge by the number of finders that have something to report. */
    method AppendRemainingAllocations(active: seq<nat>)
      requires Valid() && Active(streams, next, active) && |active| <= 4
      modifies this, directory
      ensures Valid() && forall g :: !Unfinished(streams, next, g)
    {
      if |active| == 1 {
        assert active == [active[0]];
        AppendRemainingAllocationsFromFinder(active[0]);
      } else if |active| == 2 {
        assert active == [active[0], active[1]];
        AppendRemainingAllocationsFromTwoFinders(active[0], active[1]);
      } else if |active| > 2 {
        AppendRemainingAllocationsFromFinders(active);
      }
    }

    method ResolveAllocationBoundaries()
      requires Valid() && |ActiveFrom(streams, next, 0)| <= 4
      modifies this, directory
      ensures Valid() && MergeOf(streams, directory.offers)
    {
      var active := ActiveFinders(streams, next);
      AppendRemainingAllocations(active);
      MergeIsComplete(streams, next, directory.offers);
    }
  }
}

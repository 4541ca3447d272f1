/**
 Derivation between C++ types: from the direct bases of each type, a worklist finds all types derived from
 each one, and all signatures used for a type or for any type derived from it.
 */
module TypeInfo {
  import opened Basics

  /** The address of a type_info object. */
  type Type = nat

  /** The registered types, with the direct bases of each and the types directly derived from each. */
  datatype Hierarchy = Hierarchy(types: set<Type>, directBases: map<Type, set<Type>>,
                                 directlyDerived: map<Type, set<Type>>)
  {

    /** d names b as a direct base. */
    predicate Derives(d: Type, b: Type) { d in directBases && b in directBases[d] }

    function DerivedFrom(b: Type): set<Type> { if b in directlyDerived then directlyDerived[b] else {} }

    /** The two relations are converse, concern registered types only, and have no empty entries. */
    ghost predicate Valid() {
      && (forall d: Type, b: Type :: Derives(d, b) <==> d in DerivedFrom(b))
      && (forall d: Type, b: Type :: Derives(d, b) ==> d in types && b in types)
      && (forall d: Type :: d in directBases ==> d in types && directBases[d] != {})
      && (forall b: Type :: b in directlyDerived ==> b in types && directlyDerived[b] != {})
    }
  }

  /** d is derived from b in at most k steps. */
  ghost predicate DerivedWithin(h: Hierarchy, k: nat, d: Type, b: Type)
    decreases k
  {
    k > 0 && (h.Derives(d, b) || DerivedVia(h, k, d, b))
  }

  ghost predicate DerivedVia(h: Hierarchy, k: nat, d: Type, b: Type)
    requires k > 0
    decreases k, 0
  {
    exists c: Type :: h.Derives(c, b) && DerivedWithin(h, k - 1, d, c)
  }

  /** d is derived from b, directly or not. */
  ghost predicate Descends(h: Hierarchy, d: Type, b: Type) {
    exists k: nat :: DerivedWithin(h, k, d, b)
  }

  /** No type is derived from itself. */
  ghost predicate Acyclic(h: Hierarchy) {
    forall t: Type :: !Descends(h, t, t)
  }

  lemma DescendsDirectly(h: Hierarchy, d: Type, b: Type)
    requires h.Derives(d, b)
    ensures Descends(h, d, b)
  {
    assert DerivedWithin(h, 1, d, b);
  }

  lemma DescendsVia(h: Hierarchy, d: Type, c: Type, b: Type)
    requires h.Derives(c, b) && Descends(h, d, c)
    ensures Descends(h, d, b)
  {
    var k: nat :| DerivedWithin(h, k, d, c);
    var more := k + 1;
    assert DerivedVia(h, more, d, b);
    assert DerivedWithin(h, more, d, b);
  }

  /** The last step of a derivation. */
  lemma DescendsLast(h: Hierarchy, d: Type, b: Type) returns (c: Type)
    requires Descends(h, d, b)
    ensures h.Derives(c, b) && (d == c || Descends(h, d, c))
  {
    var k: nat :| DerivedWithin(h, k, d, b);
    if h.Derives(d, b) {
      c := d;
    } else {
      assert DerivedVia(h, k, d, b);
      c :| h.Derives(c, b) && DerivedWithin(h, k - 1, d, c);
      var less: nat := k - 1;
      assert DerivedWithin(h, less, d, c);
    }
  }

  lemma {:induction false} DescendsTransitive(h: Hierarchy, k: nat, d: Type, c: Type, b: Type)
    requires Descends(h, d, c) && DerivedWithin(h, k, c, b)
    ensures Descends(h, d, b)
    decreases k
  {
    if h.Derives(c, b) {
      DescendsVia(h, d, c, b);
    } else {
      var a :| h.Derives(a, b) && DerivedWithin(h, k - 1, c, a);
      DescendsTransitive(h, k - 1, d, c, a);
      DescendsVia(h, d, a, b);
    }
  }

  /** Derivation is the transitive closure of direct derivation: it is transitive, and least among all that are. */
  lemma DescendsIsTransitive(h: Hierarchy, d: Type, c: Type, b: Type)
    requires Descends(h, d, c) && Descends(h, c, b)
    ensures Descends(h, d, b)
  {
    var k: nat :| DerivedWithin(h, k, c, b);
    DescendsTransitive(h, k, d, c, b);
  }

  lemma {:induction false} WithinIsLeast(h: Hierarchy, related: (Type, Type) -> bool, k: nat, d: Type, b: Type)
    requires forall c: Type, t: Type :: h.Derives(c, t) ==> related(c, t)
    requires forall c: Type, m: Type, t: Type :: related(c, m) && related(m, t) ==> related(c, t)
    requires DerivedWithin(h, k, d, b)
    ensures related(d, b)
    decreases k
  {
    if !h.Derives(d, b) {
      var c :| h.Derives(c, b) && DerivedWithin(h, k - 1, d, c);
      WithinIsLeast(h, related, k - 1, d, c);
    }
  }

  lemma DescendsIsLeast(h: Hierarchy, related: (Type, Type) -> bool, d: Type, b: Type)
    requires forall c: Type, t: Type :: h.Derives(c, t) ==> related(c, t)
    requires forall c: Type, m: Type, t: Type :: related(c, m) && related(m, t) ==> related(c, t)
    requires Descends(h, d, b)
    ensures related(d, b)
  {
    var k: nat :| DerivedWithin(h, k, d, b);
    WithinIsLeast(h, related, k, d, b);
  }

  // ---------------------------------------------------------------------------------------------
  // What the worklist computes for each type
  // ---------------------------------------------------------------------------------------------

  /**
   What each type has to begin with, and what it passes on to its bases besides what it has.  To find derived
   types, each type passes on itself; to find signatures, each type begins with its own.
   */
  datatype Seeds = Seeds(own: Type -> set<nat>, passed: Type -> set<nat>)

  /** What type b has in the end. */
  ghost predicate Belongs(h: Hierarchy, s: Seeds, x: nat, b: Type) {
    x in s.own(b) || exists d: Type :: Descends(h, d, b) && (x in s.own(d) || x in s.passed(d))
  }

  /** What b receives from a type c that was directly derived from it. */
  ghost predicate Received(h: Hierarchy, s: Seeds, x: nat, c: Type) {
    x in s.passed(c) || Belongs(h, s, x, c)
  }

  type Pairs = set<(Type, Type)>

  /** Some type that was directly derived from b, and dealt with, passed x on to b. */
  ghost predicate Reached(h: Hierarchy, s: Seeds, handled: Pairs, x: nat, b: Type) {
    exists c: Type :: (c, b) in handled && Received(h, s, x, c)
  }

  lemma BelongsViaDerived(h: Hierarchy, s: Seeds, x: nat, b: Type)
    ensures Belongs(h, s, x, b) <==> x in s.own(b) || exists c: Type :: h.Derives(c, b) && Received(h, s, x, c)
  {
    if Belongs(h, s, x, b) && x !in s.own(b) {
      var d :| Descends(h, d, b) && (x in s.own(d) || x in s.passed(d));
      var c := DescendsLast(h, d, b);
      assert Received(h, s, x, c);
    }
    forall c: Type | h.Derives(c, b) && Received(h, s, x, c) ensures Belongs(h, s, x, b) {
      DescendsDirectly(h, c, b);
      if x !in s.passed(c) && x !in s.own(c) {
        var d :| Descends(h, d, c) && (x in s.own(d) || x in s.passed(d));
        DescendsVia(h, d, c, b);
      }
    }
  }

  function Found(found: map<Type, set<nat>>, t: Type): set<nat> {
    if t in found then found[t] else {}
  }

  /** The types directly derived from b that have not passed on to b yet. */
  function Pending(h: Hierarchy, handled: Pairs, b: Type): set<Type> {
    set d | d in h.DerivedFrom(b) && (d, b) !in handled
  }

  ghost predicate CountOk(h: Hierarchy, handled: Pairs, unresolved: map<Type, nat>, b: Type) {
    if Pending(h, handled, b) == {} then b !in unresolved
    else b in unresolved && unresolved[b] == |Pending(h, handled, b)|
  }

  ghost predicate FoundOk(h: Hierarchy, s: Seeds, handled: Pairs, found: map<Type, set<nat>>, b: Type) {
    forall x: nat :: x in Found(found, b) <==> x in s.own(b) || Reached(h, s, handled, x, b)
  }

  ghost predicate AllFound(h: Hierarchy, s: Seeds, handled: Pairs, found: map<Type, set<nat>>) {
    forall b: Type :: FoundOk(h, s, handled, found, b)
  }

  /** Only types from which nothing is pending pass on. */
  ghost predicate HandledOk(h: Hierarchy, handled: Pairs, order: map<Type, nat>, c: Type, b: Type) {
    (c, b) in handled ==>
      h.Derives(c, b) && Pending(h, handled, c) == {} && c in order && (b in order ==> order[c] < order[b])
  }

  ghost predicate OrderOk(h: Hierarchy, handled: Pairs, order: map<Type, nat>, next: nat, t: Type) {
    t in order ==> t in h.directBases && Pending(h, handled, t) == {} && order[t] < next
  }

  /** A type with bases from which nothing is pending waits in the queue or was taken from it. */
  ghost predicate ReadyOk(h: Hierarchy, handled: Pairs, queue: seq<Type>, order: map<Type, nat>, t: Type) {
    t in h.directBases && Pending(h, handled, t) == {} ==> t in queue || t in order
  }

  ghost predicate QueuedOk(h: Hierarchy, handled: Pairs, queue: seq<Type>, order: map<Type, nat>, i: int) {
    0 <= i < |queue| ==> queue[i] in h.directBases && Pending(h, handled, queue[i]) == {} && queue[i] !in order
  }

  ghost predicate Distinct(queue: seq<Type>) {
    forall i, j :: 0 <= i < j < |queue| ==> queue[i] != queue[j]
  }

  /** A type that was taken from the queue, except the current one, has passed on to all of its bases. */
  ghost predicate TakenOk(h: Hierarchy, handled: Pairs, order: map<Type, nat>, current: set<Type>, c: Type, b: Type) {
    c in order && c !in current && h.Derives(c, b) ==> (c, b) in handled
  }

  ghost predicate Works(h: Hierarchy, s: Seeds, handled: Pairs, found: map<Type, set<nat>>, unresolved: map<Type, nat>,
                                 queue: seq<Type>, order: map<Type, nat>, next: nat, current: set<Type>)
  {
    && h.Valid() && Distinct(queue)
    && (forall b: Type :: CountOk(h, handled, unresolved, b))
    && AllFound(h, s, handled, found)
    && (forall c: Type, b: Type :: HandledOk(h, handled, order, c, b))
    && (forall t: Type :: OrderOk(h, handled, order, next, t))
    && (forall t: Type :: ReadyOk(h, handled, queue, order, t))
    && (forall i :: QueuedOk(h, handled, queue, order, i))
    && (forall c: Type, b: Type :: TakenOk(h, handled, order, current, c, b))
  }

  /** When nothing is pending, what was found for a type is all that belongs to it. */
  lemma CompleteAt(h: Hierarchy, s: Seeds, handled: Pairs, found: map<Type, set<nat>>, order: map<Type, nat>, c: Type)
    requires h.Valid() && FoundOk(h, s, handled, found, c) && Pending(h, handled, c) == {}
    requires forall c: Type, b: Type :: HandledOk(h, handled, order, c, b)
    ensures forall x: nat :: x in Found(found, c) <==> Belongs(h, s, x, c)
  {
    forall x: nat ensures x in Found(found, c) <==> Belongs(h, s, x, c) {
      BelongsViaDerived(h, s, x, c);
      forall d: Type | h.Derives(d, c) ensures (d, c) in handled {
        assert d in h.DerivedFrom(c);
        assert d !in Pending(h, handled, c);
      }
      forall d: Type | (d, c) in handled ensures h.Derives(d, c) {
        assert HandledOk(h, handled, order, d, c);
      }
    }
  }

  // ---------------------------------------------------------------------------------------------
  // Steps of the worklist
  // ---------------------------------------------------------------------------------------------

  /** Taking a type from the front of the queue. */
  lemma TakeKeeps(h: Hierarchy, s: Seeds, handled: Pairs, found: map<Type, set<nat>>, unresolved: map<Type, nat>,
                  queue: seq<Type>, order: map<Type, nat>, next: nat)
    requires Works(h, s, handled, found, unresolved, queue, order, next, {}) && queue != []
    ensures queue[0] in h.directBases && Pending(h, handled, queue[0]) == {}
    ensures Works(h, s, handled, found, unresolved, queue[1..], order[queue[0] := next], next + 1, {queue[0]})
  {
    var d, rest, order', next' := queue[0], queue[1..], order[queue[0] := next], next + 1;
    assert QueuedOk(h, handled, queue, order, 0);
    forall c: Type, b: Type ensures HandledOk(h, handled, order', c, b) {
      assert HandledOk(h, handled, order, c, b) && OrderOk(h, handled, order, next, c);
    }
    forall t: Type ensures OrderOk(h, handled, order', next', t) { assert OrderOk(h, handled, order, next, t); }
    forall t: Type ensures ReadyOk(h, handled, rest, order', t) {
      assert ReadyOk(h, handled, queue, order, t);
      assert queue == [d] + rest;
    }
    forall i ensures QueuedOk(h, handled, rest, order', i) { assert QueuedOk(h, handled, queue, order, i + 1); }
    forall c: Type, b: Type ensures TakenOk(h, handled, order', {d}, c, b) {
      assert TakenOk(h, handled, order, {}, c, b);
    }
  }

  lemma PendingLess(h: Hierarchy, handled: Pairs, d: Type, b: Type, t: Type)
    requires h.Valid() && h.Derives(d, b) && (d, b) !in handled
    ensures Pending(h, handled + {(d, b)}, t) == if t == b then Pending(h, handled, b) - {d} else Pending(h, handled, t)
    ensures d in Pending(h, handled, b) && |Pending(h, handled + {(d, b)}, b)| == |Pending(h, handled, b)| - 1
  {
    assert Pending(h, handled + {(d, b)}, b) == Pending(h, handled, b) - {d};
  }

  /** The count of what is pending for b after one more type passed on to it. */
  function CountDown(unresolved: map<Type, nat>, b: Type): map<Type, nat>
    requires b in unresolved
  {
    if unresolved[b] <= 1 then unresolved - {b} else unresolved[b := unresolved[b] - 1]
  }

  function Queued(h: Hierarchy, unresolved: map<Type, nat>, queue: seq<Type>, b: Type): seq<Type>
    requires b in unresolved
  {
    if unresolved[b] <= 1 && b in h.directBases then queue + [b] else queue
  }

  lemma PassCounts(h: Hierarchy, handled: Pairs, unresolved: map<Type, nat>, d: Type, b: Type)
    requires h.Valid() && h.Derives(d, b) && (d, b) !in handled && forall t: Type :: CountOk(h, handled, unresolved, t)
    ensures b in unresolved && (unresolved[b] <= 1 <==> Pending(h, handled + {(d, b)}, b) == {})
    ensures forall t: Type :: CountOk(h, handled + {(d, b)}, CountDown(unresolved, b), t)
  {
    assert CountOk(h, handled, unresolved, b);
    PendingLess(h, handled, d, b, b);
    var handled', unresolved' := handled + {(d, b)}, CountDown(unresolved, b);
    forall t: Type ensures CountOk(h, handled', unresolved', t) {
      assert CountOk(h, handled, unresolved, t);
      PendingLess(h, handled, d, b, t);
    }
  }

  /** What d has, and what it passes on besides, is now found for b. */
  lemma PassFinds(h: Hierarchy, s: Seeds, handled: Pairs, found: map<Type, set<nat>>, order: map<Type, nat>, d: Type,
                  b: Type, received: set<nat>)
    requires h.Valid() && Pending(h, handled, d) == {} && d != b
    requires AllFound(h, s, handled, found) && (forall c: Type, t: Type :: HandledOk(h, handled, order, c, t))
    requires received == Found(found, d) + s.passed(d)
    ensures AllFound(h, s, handled + {(d, b)}, found[b := Found(found, b) + received])
  {
    var handled', found' := handled + {(d, b)}, found[b := Found(found, b) + received];
    assert FoundOk(h, s, handled, found, d);
    CompleteAt(h, s, handled, found, order, d);
    forall t: Type ensures FoundOk(h, s, handled', found', t) {
      assert FoundOk(h, s, handled, found, t);
      forall x: nat ensures x in Found(found', t) <==> x in s.own(t) || Reached(h, s, handled', x, t) {
        if t == b && Received(h, s, x, d) {
          assert (d, b) in handled';
        }
        if Reached(h, s, handled, x, t) {
          var c :| (c, t) in handled && Received(h, s, x, c);
          assert (c, t) in handled';
        }
        if Reached(h, s, handled', x, t) {
          var c :| (c, t) in handled' && Received(h, s, x, c);
        }
      }
    }
  }

  lemma PassOrders(h: Hierarchy, handled: Pairs, order: map<Type, nat>, next: nat, d: Type, b: Type)
    requires h.Valid() && h.Derives(d, b) && (d, b) !in handled && d in order
    requires forall c: Type, t: Type :: HandledOk(h, handled, order, c, t)
    requires forall t: Type :: OrderOk(h, handled, order, next, t)
    requires forall c: Type, t: Type :: TakenOk(h, handled, order, {d}, c, t)
    ensures b !in order && d != b
    ensures forall c: Type, t: Type :: HandledOk(h, handled + {(d, b)}, order, c, t)
    ensures forall t: Type :: OrderOk(h, handled + {(d, b)}, order, next, t)
    ensures forall c: Type, t: Type :: TakenOk(h, handled + {(d, b)}, order, {d}, c, t)
  {
    var handled' := handled + {(d, b)};
    assert OrderOk(h, handled, order, next, d) && OrderOk(h, handled, order, next, b);
    PendingLess(h, handled, d, b, b);
    forall c: Type, t: Type ensures HandledOk(h, handled', order, c, t) {
      assert HandledOk(h, handled, order, c, t);
      PendingLess(h, handled, d, b, c);
    }
    forall t: Type ensures OrderOk(h, handled', order, next, t) {
      assert OrderOk(h, handled, order, next, t);
      PendingLess(h, handled, d, b, t);
    }
    forall c: Type, t: Type ensures TakenOk(h, handled', order, {d}, c, t) {
      assert TakenOk(h, handled, order, {d}, c, t);
    }
  }

  lemma PassQueues(h: Hierarchy, handled: Pairs, unresolved: map<Type, nat>, queue: seq<Type>, order: map<Type, nat>,
                   d: Type, b: Type)
    requires h.Valid() && h.Derives(d, b) && (d, b) !in handled && b !in order && Distinct(queue)
    requires b in unresolved && (unresolved[b] <= 1 <==> Pending(h, handled + {(d, b)}, b) == {})
    requires forall t: Type :: ReadyOk(h, handled, queue, order, t)
    requires forall i :: QueuedOk(h, handled, queue, order, i)
    ensures Distinct(Queued(h, unresolved, queue, b))
    ensures forall t: Type :: ReadyOk(h, handled + {(d, b)}, Queued(h, unresolved, queue, b), order, t)
    ensures forall i :: QueuedOk(h, handled + {(d, b)}, Queued(h, unresolved, queue, b), order, i)
  {
    var handled', queue' := handled + {(d, b)}, Queued(h, unresolved, queue, b);
    PendingLess(h, handled, d, b, b);
    forall t: Type ensures ReadyOk(h, handled', queue', order, t) {
      assert ReadyOk(h, handled, queue, order, t);
      PendingLess(h, handled, d, b, t);
      if t == b && queue' == queue + [b] { assert queue'[|queue|] == b; }
    }
    forall i ensures QueuedOk(h, handled', queue', order, i) {
      assert QueuedOk(h, handled, queue, order, i);
      if 0 <= i < |queue'| { PendingLess(h, handled, d, b, queue'[i]); }
    }
    forall i | 0 <= i < |queue| ensures queue[i] != b {
      assert QueuedOk(h, handled, queue, order, i);
    }
  }

  /** Type d, which was taken from the queue, passes on to its base b. */
  lemma PassKeeps(h: Hierarchy, s: Seeds, handled: Pairs, found: map<Type, set<nat>>, unresolved: map<Type, nat>,
                  queue: seq<Type>, order: map<Type, nat>, next: nat, d: Type, b: Type, received: set<nat>)
    requires Works(h, s, handled, found, unresolved, queue, order, next, {d}) && d in order
    requires h.Derives(d, b) && (d, b) !in handled && received == Found(found, d) + s.passed(d)
    ensures b in unresolved && d != b
    ensures Works(h, s, handled + {(d, b)}, found[b := Found(found, b) + received], CountDown(unresolved, b),
                  Queued(h, unresolved, queue, b), order, next, {d})
  {
    PassCounts(h, handled, unresolved, d, b);
    PassOrders(h, handled, order, next, d, b);
    PassQueues(h, handled, unresolved, queue, order, d, b);
    assert OrderOk(h, handled, order, next, d);
    PassFinds(h, s, handled, found, order, d, b, received);
  }

  /** Type d has passed on to all of its bases. */
  lemma DoneKeeps(h: Hierarchy, s: Seeds, handled: Pairs, found: map<Type, set<nat>>, unresolved: map<Type, nat>,
                  queue: seq<Type>, order: map<Type, nat>, next: nat, d: Type)
    requires Works(h, s, handled, found, unresolved, queue, order, next, {d})
    requires forall b: Type :: h.Derives(d, b) ==> (d, b) in handled
    ensures Works(h, s, handled, found, unresolved, queue, order, next, {})
  {
    forall c: Type, b: Type ensures TakenOk(h, handled, order, {}, c, b) {
      assert TakenOk(h, handled, order, {d}, c, b);
    }
  }

  // ---------------------------------------------------------------------------------------------
  // When the worklist is empty
  // ---------------------------------------------------------------------------------------------

  /** A type that was dealt with comes before all types it is derived from. */
  lemma {:induction false} OrderIncreases(h: Hierarchy, handled: Pairs, order: map<Type, nat>, k: nat, d: Type, b: Type)
    requires h.Valid() && (forall c: Type, t: Type :: HandledOk(h, handled, order, c, t))
    requires (forall c: Type, t: Type :: h.Derives(c, t) ==> (c, t) in handled) && b in order
    requires DerivedWithin(h, k, d, b)
    ensures d in order && order[d] < order[b]
    decreases k
  {
    if h.Derives(d, b) {
      assert HandledOk(h, handled, order, d, b);
    } else {
      var c :| h.Derives(c, b) && DerivedWithin(h, k - 1, d, c);
      assert HandledOk(h, handled, order, c, b);
      OrderIncreases(h, handled, order, k - 1, d, c);
    }
  }

  /** All strict descendants of t among a finite set of types. */
  ghost function Below(h: Hierarchy, among: set<Type>, t: Type): set<Type> {
    set d | d in among && Descends(h, d, t)
  }

  ghost predicate HasDerivedIn(h: Hierarchy, among: set<Type>, u: Type) {
    exists c: Type :: c in among && h.Derives(c, u)
  }

  /** Some member is derived from each member. */
  ghost predicate Endless(h: Hierarchy, among: set<Type>) {
    forall u: Type :: u in among ==> HasDerivedIn(h, among, u)
  }

  lemma BelowShrinks(h: Hierarchy, among: set<Type>, c: Type, t: Type)
    requires c in among && h.Derives(c, t) && !Descends(h, c, c)
    ensures |Below(h, among, c)| < |Below(h, among, t)|
  {
    DescendsDirectly(h, c, t);
    forall d: Type | d in Below(h, among, c) ensures d in Below(h, among, t) - {c} {
      DescendsVia(h, d, c, t);
    }
    SubsetSmaller(Below(h, among, c), Below(h, among, t) - {c});
  }

  /** In a finite set each of whose members has one derived from it, some type is derived from itself. */
  lemma {:induction false} ClosedSetHasCycle(h: Hierarchy, among: set<Type>, t: Type)
    requires t in among && Endless(h, among)
    ensures !Acyclic(h)
    decreases |Below(h, among, t)|
  {
    assert HasDerivedIn(h, among, t);
    var c: Type :| c in among && h.Derives(c, t);
    if !Descends(h, c, c) {
      BelowShrinks(h, among, c, t);
      ClosedSetHasCycle(h, among, c);
    }
  }

  lemma EndsComplete(h: Hierarchy, s: Seeds, handled: Pairs, found: map<Type, set<nat>>, unresolved: map<Type, nat>,
                     order: map<Type, nat>, next: nat)
    requires Works(h, s, handled, found, unresolved, [], order, next, {})
    ensures forall t: Type, x: nat :: t !in unresolved ==> (x in Found(found, t) <==> Belongs(h, s, x, t))
    ensures forall t: Type, x: nat :: x in Found(found, t) ==> Belongs(h, s, x, t)
  {
    forall t: Type, x: nat
      ensures t !in unresolved ==> (x in Found(found, t) <==> Belongs(h, s, x, t))
      ensures x in Found(found, t) ==> Belongs(h, s, x, t)
    {
      assert CountOk(h, handled, unresolved, t) && FoundOk(h, s, handled, found, t);
      if t !in unresolved { CompleteAt(h, s, handled, found, order, t); }
      BelongsViaDerived(h, s, x, t);
      forall c: Type | (c, t) in handled ensures h.Derives(c, t) {
        assert HandledOk(h, handled, order, c, t);
      }
    }
  }

  lemma UnresolvedIsClosed(h: Hierarchy, s: Seeds, handled: Pairs, found: map<Type, set<nat>>,
                           unresolved: map<Type, nat>, order: map<Type, nat>, next: nat, u: Type)
    requires Works(h, s, handled, found, unresolved, [], order, next, {}) && u in unresolved
    ensures HasDerivedIn(h, unresolved.Keys, u)
  {
    assert CountOk(h, handled, unresolved, u);
    var c: Type :| c in Pending(h, handled, u);
    assert h.Derives(c, u);
    assert CountOk(h, handled, unresolved, c) && ReadyOk(h, handled, [], order, c);
    assert TakenOk(h, handled, order, {}, c, u);
    assert c in unresolved.Keys;
  }

  /** When nothing is left over, every type with bases was dealt with, and passed on to all of them. */
  lemma AllHandled(h: Hierarchy, s: Seeds, handled: Pairs, found: map<Type, set<nat>>, order: map<Type, nat>, next: nat)
    requires Works(h, s, handled, found, map[], [], order, next, {})
    ensures forall c: Type, b: Type :: h.Derives(c, b) ==> (c, b) in handled && c in order
  {
    forall c: Type, b: Type | h.Derives(c, b) ensures (c, b) in handled && c in order {
      assert CountOk(h, handled, map[], b) && CountOk(h, handled, map[], c);
      assert c in h.DerivedFrom(b) && c !in Pending(h, handled, b);
      assert ReadyOk(h, handled, [], order, c);
    }
  }

  lemma NothingLeftIsAcyclic(h: Hierarchy, s: Seeds, handled: Pairs, found: map<Type, set<nat>>,
                             order: map<Type, nat>, next: nat)
    requires Works(h, s, handled, found, map[], [], order, next, {})
    ensures Acyclic(h)
  {
    AllHandled(h, s, handled, found, order, next);
    forall t: Type ensures !Descends(h, t, t) {
      if Descends(h, t, t) {
        var k: nat :| DerivedWithin(h, k, t, t);
        var c := DescendsBase(h, k, t, t);
        OrderIncreases(h, handled, order, k, t, t);
      }
    }
  }

  lemma UnresolvedAreClosed(h: Hierarchy, s: Seeds, handled: Pairs, found: map<Type, set<nat>>,
                            unresolved: map<Type, nat>, order: map<Type, nat>, next: nat)
    requires Works(h, s, handled, found, unresolved, [], order, next, {})
    ensures Endless(h, unresolved.Keys)
  {
    forall u: Type | u in unresolved.Keys ensures HasDerivedIn(h, unresolved.Keys, u) {
      UnresolvedIsClosed(h, s, handled, found, unresolved, order, next, u);
    }
  }

  lemma LeftOverIsCyclic(h: Hierarchy, s: Seeds, handled: Pairs, found: map<Type, set<nat>>, unresolved: map<Type, nat>,
                         order: map<Type, nat>, next: nat, u: Type)
    requires Works(h, s, handled, found, unresolved, [], order, next, {}) && u in unresolved
    ensures !Acyclic(h)
  {
    UnresolvedAreClosed(h, s, handled, found, unresolved, order, next);
    ClosedSetHasCycle(h, unresolved.Keys, u);
  }

  /** Types are left over exactly when some type is derived from itself. */
  lemma LeftOverIffCyclic(h: Hierarchy, s: Seeds, handled: Pairs, found: map<Type, set<nat>>,
                          unresolved: map<Type, nat>, order: map<Type, nat>, next: nat)
    requires Works(h, s, handled, found, unresolved, [], order, next, {})
    ensures unresolved == map[] <==> Acyclic(h)
  {
    if u: Type :| u in unresolved {
      LeftOverIsCyclic(h, s, handled, found, unresolved, order, next, u);
    } else {
      assert unresolved == map[];
      NothingLeftIsAcyclic(h, s, handled, found, order, next);
    }
  }

  /** Whatever is derived from something has a base. */
  lemma {:induction false} DescendsBase(h: Hierarchy, k: nat, d: Type, b: Type) returns (c: Type)
    requires DerivedWithin(h, k, d, b)
    ensures h.Derives(d, c)
    decreases k
  {
    if h.Derives(d, b) {
      c := b;
    } else {
      var a :| h.Derives(a, b) && DerivedWithin(h, k - 1, d, a);
      c := DescendsBase(h, k - 1, d, a);
    }
  }

  // ---------------------------------------------------------------------------------------------
  // The two passes
  // ---------------------------------------------------------------------------------------------

  /** How many directly derived types are to be dealt with for each type, and the types that none is derived from. */
  method StartWork(h: Hierarchy) returns (queue: seq<Type>, unresolved: map<Type, nat>)
    requires h.Valid()
    ensures unresolved.Keys == h.directlyDerived.Keys
    ensures forall t: Type :: t in unresolved ==> unresolved[t] == |h.directlyDerived[t]|
    ensures Distinct(queue) && forall t: Type :: t in queue <==> t in h.directBases && t !in h.directlyDerived
  {
    queue, unresolved := [], map[];
    var rest := h.types;
    while rest != {}
      invariant rest <= h.types && unresolved.Keys == h.directlyDerived.Keys - rest
      invariant forall t: Type :: t in unresolved ==> unresolved[t] == |h.directlyDerived[t]|
      invariant Distinct(queue)
      invariant forall t: Type :: t in queue <==> t in h.directBases && t !in h.directlyDerived && t !in rest
      decreases |rest|
    {
      var t :| t in rest;
      rest := rest - {t};
      if t !in h.directlyDerived {
        if t in h.directBases {
          queue := queue + [t];
        }
      } else {
        unresolved := unresolved[t := |h.directlyDerived[t]|];
      }
    }
  }

  lemma WorkStarts(h: Hierarchy, s: Seeds, found: map<Type, set<nat>>, unresolved: map<Type, nat>, queue: seq<Type>)
    requires h.Valid() && forall t: Type :: Found(found, t) == s.own(t)
    requires unresolved.Keys == h.directlyDerived.Keys
    requires forall t: Type :: t in unresolved ==> unresolved[t] == |h.directlyDerived[t]|
    requires Distinct(queue) && forall t: Type :: t in queue <==> t in h.directBases && t !in h.directlyDerived
    ensures Works(h, s, {}, found, unresolved, queue, map[], 0, {})
  {
    forall b: Type ensures Pending(h, {}, b) == h.DerivedFrom(b) {}
    forall b: Type ensures CountOk(h, {}, unresolved, b) {}
    forall b: Type ensures FoundOk(h, s, {}, found, b) {}
    forall t: Type ensures ReadyOk(h, {}, queue, map[], t) {}
    forall i ensures QueuedOk(h, {}, queue, map[], i) {}
  }

  /** Passes on what type d has to each of its bases, in any order. */
  method PassOn(h: Hierarchy, ghost s: Seeds, passedByD: set<nat>, d: Type, found0: map<Type, set<nat>>,
                unresolved0: map<Type, nat>, queue0: seq<Type>, ghost handled0: Pairs, ghost order: map<Type, nat>,
                ghost next: nat)
    returns (found: map<Type, set<nat>>, unresolved: map<Type, nat>, queue: seq<Type>, ghost handled: Pairs)
    requires Works(h, s, handled0, found0, unresolved0, queue0, order, next, {d}) && d in order && d in h.directBases
    requires passedByD == s.passed(d) && forall b: Type :: (d, b) !in handled0
    ensures Works(h, s, handled, found, unresolved, queue, order, next, {})
  {
    found, unresolved, queue, handled := found0, unresolved0, queue0, handled0;
    var bases := h.directBases[d];
    while bases != {}
      invariant bases <= h.directBases[d] && Works(h, s, handled, found, unresolved, queue, order, next, {d})
      invariant forall b: Type :: (d, b) in handled <==> b in h.directBases[d] && b !in bases
      decreases |bases|
    {
      var b :| b in bases;
      bases := bases - {b};
      var received := Found(found, d) + passedByD;
      PassKeeps(h, s, handled, found, unresolved, queue, order, next, d, b, received);
      found := found[b := Found(found, b) + received];
      if unresolved[b] <= 1 {
        if b in h.directBases {
          queue := queue + [b];
        }
        unresolved := unresolved - {b};
      } else {
        unresolved := unresolved[b := unresolved[b] - 1];
      }
      handled := handled + {(d, b)};
    }
    DoneKeeps(h, s, handled, found, unresolved, queue, order, next, d);
  }

  lemma TakenFresh(h: Hierarchy, s: Seeds, handled: Pairs, found: map<Type, set<nat>>, unresolved: map<Type, nat>,
                   queue: seq<Type>, order: map<Type, nat>, next: nat)
    requires Works(h, s, handled, found, unresolved, queue, order, next, {}) && queue != []
    ensures forall b: Type :: (queue[0], b) !in handled
    ensures queue[0] in h.types && queue[0] !in order
  {
    assert QueuedOk(h, handled, queue, order, 0);
    forall b: Type ensures (queue[0], b) !in handled {
      assert HandledOk(h, handled, order, queue[0], b);
    }
  }

  /** Takes the first type from the queue and passes on what it has. */
  method DealWithFirst(h: Hierarchy, s: Seeds, found0: map<Type, set<nat>>, unresolved0: map<Type, nat>,
                       queue0: seq<Type>, ghost handled0: Pairs, ghost order: map<Type, nat>, ghost next: nat)
    returns (found: map<Type, set<nat>>, unresolved: map<Type, nat>, queue: seq<Type>, ghost handled: Pairs)
    requires Works(h, s, handled0, found0, unresolved0, queue0, order, next, {}) && queue0 != []
    ensures Works(h, s, handled, found, unresolved, queue, order[queue0[0] := next], next + 1, {})
    ensures queue0[0] in h.types && queue0[0] !in order
  {
    var d := queue0[0];
    TakenFresh(h, s, handled0, found0, unresolved0, queue0, order, next);
    TakeKeeps(h, s, handled0, found0, unresolved0, queue0, order, next);
    found, unresolved, queue, handled :=
      PassOn(h, s, s.passed(d), d, found0, unresolved0, queue0[1..], handled0, order[d := next], next + 1);
  }

  /** Deals with each type once all types that are directly derived from it have been dealt with. */
  method Propagate(h: Hierarchy, s: Seeds, found0: map<Type, set<nat>>)
    returns (found: map<Type, set<nat>>, unresolved: map<Type, nat>)
    requires h.Valid() && forall t: Type :: Found(found0, t) == s.own(t)
    ensures forall t: Type, x: nat :: t !in unresolved ==> (x in Found(found, t) <==> Belongs(h, s, x, t))
    ensures forall t: Type, x: nat :: x in Found(found, t) ==> Belongs(h, s, x, t)
    ensures unresolved == map[] <==> Acyclic(h)
  {
    var queue;
    queue, unresolved := StartWork(h);
    found := found0;
    WorkStarts(h, s, found, unresolved, queue);
    ghost var handled: Pairs, order: map<Type, nat>, next := {}, map[], 0;
    ghost var left := h.types;
    while queue != []
      invariant Works(h, s, handled, found, unresolved, queue, order, next, {})
      invariant left == h.types - order.Keys
      decreases |left|
    {
      ghost var d := queue[0];
      found, unresolved, queue, handled := DealWithFirst(h, s, found, unresolved, queue, handled, order, next);
      order, next, left := order[d := next], next + 1, left - {d};
    }
    EndsComplete(h, s, handled, found, unresolved, order, next);
    LeftOverIffCyclic(h, s, handled, found, unresolved, order, next);
  }

  /** The types derived from each type, which are all of them unless the type is left over because of a cycle. */
  method FillInDerivedTypeInfos(h: Hierarchy) returns (derived: map<Type, set<Type>>, unresolved: map<Type, nat>)
    requires h.Valid()
    ensures unresolved == map[] <==> Acyclic(h)
    ensures forall t, d: Type :: t !in unresolved ==> (d in Found(derived, t) <==> Descends(h, d, t))
    ensures forall t, d: Type :: d in Found(derived, t) ==> Descends(h, d, t)
  {
    var s := Seeds(_ => {}, t => {t});
    derived, unresolved := Propagate(h, s, map[]);
    forall t, d: Type ensures Belongs(h, s, d, t) <==> Descends(h, d, t) {}
  }

  /** All signatures used for a type or for any type derived from it, given those used for each type itself. */
  method ResolveUsedSignatures(h: Hierarchy, direct: map<Type, set<nat>>)
    returns (used: map<Type, set<nat>>, unresolved: map<Type, nat>)
    requires h.Valid()
    ensures unresolved == map[] <==> Acyclic(h)
    ensures forall t: Type, x: nat :: t !in unresolved ==>
              (x in Found(used, t) <==>
               x in Found(direct, t) || exists d: Type :: Descends(h, d, t) && x in Found(direct, d))
    ensures forall t: Type, x: nat :: x in Found(used, t) ==>
              x in Found(direct, t) || exists d: Type :: Descends(h, d, t) && x in Found(direct, d)
  {
    var s := Seeds(t => Found(direct, t), _ => {});
    used, unresolved := Propagate(h, s, direct);
    forall t: Type, x: nat
      ensures Belongs(h, s, x, t) <==>
              x in Found(direct, t) || exists d: Type :: Descends(h, d, t) && x in Found(direct, d)
    {
    }
  }
}

/**
 The check of the doubly linked free lists of an arena.  Each list is walked forward from its header with
 no guard against cycles, but a node is passed only if its back pointer names the node before it.
 */
module CorruptionChecker {
  import opened AllocationDirectory
  import opened DirectorySteps
  import opened DirectoryLookup
  import opened Basics

  /** What the check consults: memory, the allocations, and the arena that an address belongs to. */
  datatype World = World(wide: bool, memory: nat -> Option<nat>, allocations: seq<Allocation>, arenaOf: nat -> nat) {

    function Word(): nat { if wide then 8 else 4 }

    function Modulus(): nat { if wide then 0x1_0000_0000_0000_0000 else 0x1_0000_0000 }

    /** Addition of addresses, which wraps. */
    function Plus(a: int, n: int): nat { (a + n) % Modulus() }

    ghost predicate Valid() {
      forall a: nat :: memory(a).Some? ==> memory(a).value < Modulus()
    }

    function Header(list: nat): nat { Plus(list, 2 * Word()) }
  }

  datatype Kind =
    | EmptyStart
    | EmptyEnd
    | NoAllocation
    | WrongOffset
    | UnexpectedForwardLink
    | WrongStatus
    | WrongArena
    | UnexpectedBackPointer
    | WrongPrevSize
    | NotInCore

  datatype Report = Report(header: nat, node: nat, kind: Kind)

  /** A node is passed, with the node that follows it, or a report is made. */
  datatype Verdict = Passed(next: nat) | Failed(report: Report)

  // ---------------------------------------------------------------------------------------------
  // One node
  // ---------------------------------------------------------------------------------------------

  /** The tests of a node, in order, given the index of the innermost allocation at its start. */
  function Examine(w: World, arena: nat, list: nat, prev: nat, node: nat, index: nat): Verdict {
    var start, h := w.Plus(node, 2 * w.Word()), w.Header(list);
    if index >= |w.allocations| then Failed(Report(h, node, NoAllocation))
    else if w.allocations[index].address != start then
      Failed(if prev == list then Report(h, node, WrongOffset) else Report(h, prev, UnexpectedForwardLink))
    else
      var size := w.allocations[index].size;
      var after, back, inside := w.Plus(start, size), w.Plus(node, 3 * w.Word()), w.Plus(start + size - w.Word(), 0);
      match w.memory(after)
      case None => Failed(Report(h, after, NotInCore))
      case Some(status) =>
        if status % 2 != 0 then Failed(Report(h, node, WrongStatus))
        else if w.arenaOf(node) != arena then Failed(Report(h, node, WrongArena))
        else match w.memory(back)
          case None => Failed(Report(h, back, NotInCore))
          case Some(previous) =>
            if previous != prev then Failed(Report(h, node, UnexpectedBackPointer))
            else match w.memory(inside)
              case None => Failed(Report(h, inside, NotInCore))
              case Some(prevSize) =>
                if prevSize != w.Plus(size, w.Word()) then Failed(Report(h, node, WrongPrevSize))
                else match w.memory(start)
                  case None => Failed(Report(h, start, NotInCore))
                  case Some(next) => Passed(next)
  }

  ghost predicate Examined(w: World, arena: nat, list: nat, prev: nat, node: nat, v: Verdict) {
    exists index: nat ::
      IsInnermost(w.allocations, w.Plus(node, 2 * w.Word()), index) && v == Examine(w, arena, list, prev, node, index)
  }

  /** A free chunk of the arena between prev and next: all that is asked of a node. */
  ghost predicate FreeNode(w: World, arena: nat, prev: nat, node: nat, next: nat, index: nat) {
    && index < |w.allocations| && IsInnermost(w.allocations, w.Plus(node, 2 * w.Word()), index)
    && w.allocations[index].address == w.Plus(node, 2 * w.Word())
    && w.arenaOf(node) == arena
    && w.memory(w.Plus(node, 2 * w.Word())) == Some(next)
    && w.memory(w.Plus(node, 3 * w.Word())) == Some(prev)
    && w.memory(w.Plus(w.allocations[index].Limit(), 0)).Some?
    && w.memory(w.Plus(w.allocations[index].Limit(), 0)).value % 2 == 0
    && w.memory(w.Plus(w.allocations[index].Limit() - w.Word(), 0)) == Some(w.Plus(w.allocations[index].size, w.Word()))
  }

  lemma PassedIffFree(w: World, arena: nat, list: nat, prev: nat, node: nat, next: nat)
    ensures Examined(w, arena, list, prev, node, Passed(next)) <==>
            exists index: nat :: FreeNode(w, arena, prev, node, next, index)
  {
    if Examined(w, arena, list, prev, node, Passed(next)) {
      var index: nat :| IsInnermost(w.allocations, w.Plus(node, 2 * w.Word()), index) &&
                        Passed(next) == Examine(w, arena, list, prev, node, index);
      assert FreeNode(w, arena, prev, node, next, index);
    }
  }

  lemma ExaminedOnce(w: World, arena: nat, list: nat, prev: nat, node: nat, v: Verdict, v': Verdict)
    requires Examined(w, arena, list, prev, node, v) && Examined(w, arena, list, prev, node, v')
    ensures v == v'
  {
    var a := w.Plus(node, 2 * w.Word());
    var i: nat :| IsInnermost(w.allocations, a, i) && v == Examine(w, arena, list, prev, node, i);
    var j: nat :| IsInnermost(w.allocations, a, j) && v' == Examine(w, arena, list, prev, node, j);
    assert i == j;
  }

  // ---------------------------------------------------------------------------------------------
  // One list
  // ---------------------------------------------------------------------------------------------

  ghost predicate Linked(w: World, arena: nat, path: seq<nat>, i: int) {
    0 < i < |path| - 1 ==> path[i] != path[0] && Examined(w, arena, path[0], path[i - 1], path[i], Passed(path[i + 1]))
  }

  /** A path that starts at the header, passes nodes, and ends at the node to be looked at next. */
  ghost predicate Walked(w: World, arena: nat, list: nat, path: seq<nat>) {
    && |path| >= 2 && path[0] == list && w.memory(w.Header(list)) == Some(path[1])
    && forall i :: Linked(w, arena, path, i)
  }

  /** The walk stops at the header, or at a node that fails. */
  ghost predicate Stops(w: World, arena: nat, list: nat, path: seq<nat>, r: Option<Report>) {
    |path| >= 2 &&
    if Last(path) == list then r == None
    else r.Some? && Examined(w, arena, list, path[|path| - 2], Last(path), Failed(r.value))
  }

  /** What the check says of one list. */
  ghost predicate Outcome(w: World, arena: nat, list: nat, r: Option<Report>) {
    var h, l := w.Header(list), w.Plus(list, 3 * w.Word());
    match w.memory(h)
    case None => r == Some(Report(h, h, NotInCore))
    case Some(first) =>
      match w.memory(l)
      case None => r == Some(Report(h, l, NotInCore))
      case Some(last) =>
        if first == list then r == if last == list then None else Some(Report(h, last, EmptyStart))
        else if last == list then r == Some(Report(h, last, EmptyEnd))
        else exists path: seq<nat> :: Walked(w, arena, list, path) && Stops(w, arena, list, path, r)
  }

  /** Passed nodes are distinct: two equal ones would have equal ones before them, and so on back to the header. */
  lemma {:induction false} PassedAreDistinct(w: World, arena: nat, list: nat, path: seq<nat>, i: nat, j: nat)
    requires Walked(w, arena, list, path) && i < j < |path| - 1
    ensures path[i] != path[j]
    decreases i
  {
    assert Linked(w, arena, path, j);
    if i > 0 {
      assert Linked(w, arena, path, i);
      PassedIffFree(w, arena, list, path[i - 1], path[i], path[i + 1]);
      PassedIffFree(w, arena, list, path[j - 1], path[j], path[j + 1]);
      PassedAreDistinct(w, arena, list, path, i - 1, j - 1);
    }
  }

  /** Two walks of one list agree as far as both go. */
  lemma {:induction false} WalksAgree(w: World, arena: nat, list: nat, path: seq<nat>, path': seq<nat>, i: nat)
    requires Walked(w, arena, list, path) && Walked(w, arena, list, path') && i < |path| && i < |path'|
    ensures path[..i + 1] == path'[..i + 1]
    decreases i
  {
    if i > 0 {
      WalksAgree(w, arena, list, path, path', i - 1);
      assert path[i - 1] == path[..i][i - 1] == path'[i - 1];
      if i > 1 {
        assert path[i - 2] == path[..i][i - 2] == path'[i - 2];
        assert Linked(w, arena, path, i - 1) && Linked(w, arena, path', i - 1);
        ExaminedOnce(w, arena, list, path[i - 2], path[i - 1], Passed(path[i]), Passed(path'[i]));
      }
      assert path[..i + 1] == path[..i] + [path[i]] && path'[..i + 1] == path'[..i] + [path'[i]];
    }
  }

  /** A walk that stopped cannot be continued. */
  lemma StoppedIsLongest(w: World, arena: nat, list: nat, path: seq<nat>, r: Option<Report>, path': seq<nat>)
    requires Walked(w, arena, list, path) && Stops(w, arena, list, path, r) && Walked(w, arena, list, path')
    ensures |path'| <= |path|
  {
    if |path| < |path'| {
      var n := |path| - 1;
      WalksAgree(w, arena, list, path, path', n);
      assert path[n] == path[..n + 1][n] == path'[n] && path[n - 1] == path[..n + 1][n - 1] == path'[n - 1];
      assert Linked(w, arena, path', n);
      if r.Some? { ExaminedOnce(w, arena, list, path[n - 1], path[n], Failed(r.value), Passed(path'[n + 1])); }
    }
  }

  lemma StopsOnce(w: World, arena: nat, list: nat, path: seq<nat>, r: Option<Report>, path': seq<nat>,
                  r': Option<Report>)
    requires Walked(w, arena, list, path) && Stops(w, arena, list, path, r)
    requires Walked(w, arena, list, path') && Stops(w, arena, list, path', r')
    ensures path == path' && r == r'
  {
    StoppedIsLongest(w, arena, list, path, r, path');
    StoppedIsLongest(w, arena, list, path', r', path);
    WalksAgree(w, arena, list, path, path', |path| - 1);
    assert path == path[..|path|] && path' == path'[..|path'|];
    if r.Some? && r'.Some? {
      ExaminedOnce(w, arena, list, path[|path| - 2], Last(path), Failed(r.value), Failed(r'.value));
    }
  }

  /** The contents of memory decide what is said of a list. */
  lemma OutcomeIsUnique(w: World, arena: nat, list: nat, r: Option<Report>, r': Option<Report>)
    requires Outcome(w, arena, list, r) && Outcome(w, arena, list, r')
    ensures r == r'
  {
    if path: seq<nat>, path': seq<nat> :|
      && Walked(w, arena, list, path) && Stops(w, arena, list, path, r)
      && Walked(w, arena, list, path') && Stops(w, arena, list, path', r')
    {
      StopsOnce(w, arena, list, path, r, path', r');
    }
  }

  // ---------------------------------------------------------------------------------------------
  // What it means that nothing is reported
  // ---------------------------------------------------------------------------------------------

  function Successor(list: nat, nodes: seq<nat>, i: int): nat {
    if 0 <= i < |nodes| - 1 then nodes[i + 1] else list
  }

  function Predecessor(list: nat, nodes: seq<nat>, i: int): nat {
    if 0 < i < |nodes| then nodes[i - 1] else list
  }

  ghost predicate NodeInRing(w: World, arena: nat, list: nat, nodes: seq<nat>, i: int) {
    0 <= i < |nodes| ==>
      nodes[i] != list &&
      exists index: nat :: FreeNode(w, arena, Predecessor(list, nodes, i), nodes[i], Successor(list, nodes, i), index)
  }

  /** The forward links lead from the header through distinct free nodes back to it, and each back link agrees. */
  ghost predicate Ring(w: World, arena: nat, list: nat, nodes: seq<nat>) {
    && w.memory(w.Header(list)) == Some(if nodes == [] then list else nodes[0])
    && (forall i, j :: 0 <= i < j < |nodes| ==> nodes[i] != nodes[j])
    && forall i :: NodeInRing(w, arena, list, nodes, i)
  }

  lemma RingIsWalk(w: World, arena: nat, list: nat, nodes: seq<nat>)
    requires Ring(w, arena, list, nodes)
    ensures Walked(w, arena, list, [list] + nodes + [list])
  {
    var path := [list] + nodes + [list];
    forall i ensures Linked(w, arena, path, i) {
      if 0 < i < |path| - 1 {
        assert NodeInRing(w, arena, list, nodes, i - 1);
        assert path[i] == nodes[i - 1] && path[i + 1] == Successor(list, nodes, i - 1);
        assert path[i - 1] == Predecessor(list, nodes, i - 1);
        PassedIffFree(w, arena, list, path[i - 1], path[i], path[i + 1]);
      }
    }
  }

  lemma WalkIsRing(w: World, arena: nat, list: nat, path: seq<nat>)
    requires Walked(w, arena, list, path) && Last(path) == list
    ensures Ring(w, arena, list, path[1..|path| - 1])
  {
    var nodes := path[1..|path| - 1];
    forall i, j | 0 <= i < j < |nodes| ensures nodes[i] != nodes[j] {
      PassedAreDistinct(w, arena, list, path, i + 1, j + 1);
    }
    forall i ensures NodeInRing(w, arena, list, nodes, i) {
      if 0 <= i < |nodes| {
        var k := i + 1;
        assert Linked(w, arena, path, k);
        assert path[k + 1] == Successor(list, nodes, i) && path[k - 1] == Predecessor(list, nodes, i);
        PassedIffFree(w, arena, list, path[k - 1], path[k], path[k + 1]);
      }
    }
  }

  /** The header's own last pointer, of which the check asks only whether it names the header. */
  ghost predicate LastPointerPlausible(w: World, list: nat, nodes: seq<nat>) {
    var last := w.memory(w.Plus(list, 3 * w.Word()));
    last.Some? && (last.value == list <==> nodes == [])
  }

  ghost predicate Healthy(w: World, arena: nat, list: nat) {
    exists nodes: seq<nat> :: Ring(w, arena, list, nodes) && LastPointerPlausible(w, list, nodes)
  }

  /** Nothing is reported for a list exactly when its nodes form a ring and the last pointer is plausible. */
  lemma SilentIffRing(w: World, arena: nat, list: nat)
    ensures Outcome(w, arena, list, None) <==> Healthy(w, arena, list)
  {
    if Outcome(w, arena, list, None) {
      if w.memory(w.Header(list)).value == list {
        assert Ring(w, arena, list, []) && LastPointerPlausible(w, list, []);
      } else {
        var path: seq<nat> :| Walked(w, arena, list, path) && Stops(w, arena, list, path, None);
        WalkIsRing(w, arena, list, path);
        assert LastPointerPlausible(w, list, path[1..|path| - 1]);
      }
    }
    if Healthy(w, arena, list) {
      var nodes: seq<nat> :| Ring(w, arena, list, nodes) && LastPointerPlausible(w, list, nodes);
      RingIsWalk(w, arena, list, nodes);
      assert Stops(w, arena, list, [list] + nodes + [list], None);
      if nodes != [] { assert NodeInRing(w, arena, list, nodes, 0); }
    }
  }

  /** A list of one node whose header names, as its last node, an address that is no node at all. */
  function Misled(): World {
    World(true,
          a => if a == 4112 then Some(8192) else if a == 4120 then Some(5)
               else if a == 8208 then Some(4096) else if a == 8216 then Some(4096)
               else if a == 8240 then Some(48) else if a == 8248 then Some(0) else None,
          [Allocation(8208, 40, false, 0, false, false)],
          _ => 4000)
  }

  /**
   The last pointer of a header is not compared with the last node: nothing is reported here although the
   list ends at node 8192 and the header at 4096 names 5.
   */
  lemma LastPointerIsNotChecked()
    ensures var w := Misled();
            Outcome(w, 4000, 4096, None) && Ring(w, 4000, 4096, [8192]) && w.memory(w.Plus(4096, 24)) == Some(5)
  {
    var w, nodes := Misled(), [8192];
    assert IsInnermost(w.allocations, w.Plus(8192, 16), 0);
    assert FreeNode(w, 4000, 4096, 8192, 4096, 0);
    forall i ensures NodeInRing(w, 4000, 4096, nodes, i) {
      if i == 0 { assert Predecessor(4096, nodes, 0) == 4096 && Successor(4096, nodes, 0) == 4096; }
    }
    assert Ring(w, 4000, 4096, nodes) && LastPointerPlausible(w, 4096, nodes);
    SilentIffRing(w, 4000, 4096);
  }

  /** The nodes of a ring, and hence the node that the last pointer should name, are determined by memory. */
  lemma RingIsUnique(w: World, arena: nat, list: nat, nodes: seq<nat>, nodes': seq<nat>)
    requires Ring(w, arena, list, nodes) && Ring(w, arena, list, nodes')
    ensures nodes == nodes'
  {
    var path, path' := [list] + nodes + [list], [list] + nodes' + [list];
    RingIsWalk(w, arena, list, nodes);
    RingIsWalk(w, arena, list, nodes');
    StopsOnce(w, arena, list, path, None, path', None);
    assert nodes == path[1..|path| - 1] && nodes' == path'[1..|path'| - 1];
  }

  // ---------------------------------------------------------------------------------------------
  // The walk
  // ---------------------------------------------------------------------------------------------

  /** The tests of one node, made against the directory. */
  method CheckNode(w: World, directory: Directory, arena: nat, list: nat, prev: nat, node: nat)
    returns (v: Verdict, ghost index: nat)
    requires directory.Valid() && InAddressOrder(directory.offers) && w.allocations == directory.allocations
    ensures Examined(w, arena, list, prev, node, v)
    ensures IsInnermost(w.allocations, w.Plus(node, 2 * w.Word()), index)
    ensures v == Examine(w, arena, list, prev, node, index)
  {
    var header, allocationAddr := w.Header(list), w.Plus(node, 2 * w.Word());
    var i := directory.AllocationIndexOf(allocationAddr);
    index := i;
    if i == |w.allocations| {
      return Failed(Report(header, node, NoAllocation)), index;
    }
    var allocation := w.allocations[i];
    if allocation.address != allocationAddr {
      if prev == list {
        return Failed(Report(header, node, WrongOffset)), index;
      }
      return Failed(Report(header, prev, UnexpectedForwardLink)), index;
    }
    var after := w.Plus(allocationAddr, allocation.size);
    var status := w.memory(after);
    if status.None? {
      return Failed(Report(header, after, NotInCore)), index;
    }
    if status.value % 2 != 0 {
      return Failed(Report(header, node, WrongStatus)), index;
    }
    if w.arenaOf(node) != arena {
      return Failed(Report(header, node, WrongArena)), index;
    }
    var back := w.Plus(node, 3 * w.Word());
    var previous := w.memory(back);
    if previous.None? {
      return Failed(Report(header, back, NotInCore)), index;
    }
    if previous.value != prev {
      return Failed(Report(header, node, UnexpectedBackPointer)), index;
    }
    var inside := w.Plus(allocationAddr + allocation.size - w.Word(), 0);
    var prevSize := w.memory(inside);
    if prevSize.None? {
      return Failed(Report(header, inside, NotInCore)), index;
    }
    if prevSize.value != w.Plus(allocation.size, w.Word()) {
      return Failed(Report(header, node, WrongPrevSize)), index;
    }
    var next := w.memory(allocationAddr);
    v := if next.None? then Failed(Report(header, allocationAddr, NotInCore)) else Passed(next.value);
  }

  lemma SameStartSameNode(w: World, n: nat, m: nat)
    requires n < w.Modulus() && m < w.Modulus() && w.Plus(n, 2 * w.Word()) == w.Plus(m, 2 * w.Word())
    ensures n == m
  {
  }

  /** Each allocation that the walk has used up belongs to a node that was passed. */
  ghost predicate UsedUp(w: World, path: seq<nat>, unused: set<nat>, k: nat) {
    k < |w.allocations| && k !in unused ==>
      exists i :: 0 < i < |path| - 1 && w.Plus(path[i], 2 * w.Word()) == w.allocations[k].address
  }

  ghost predicate InRange(w: World, path: seq<nat>) {
    forall i :: 0 < i < |path| ==> path[i] < w.Modulus()
  }

  lemma PassExtends(w: World, arena: nat, list: nat, path: seq<nat>, unused: set<nat>, index: nat, next: nat)
    requires w.Valid() && Walked(w, arena, list, path) && InRange(w, path) && Last(path) != list
    requires IsInnermost(w.allocations, w.Plus(Last(path), 2 * w.Word()), index)
    requires Examine(w, arena, list, path[|path| - 2], Last(path), index) == Passed(next)
    requires forall k: nat :: UsedUp(w, path, unused, k)
    ensures Walked(w, arena, list, path + [next]) && InRange(w, path + [next])
    ensures index < |w.allocations|
    ensures index in unused
    ensures forall k: nat :: UsedUp(w, path + [next], unused - {index}, k)
  {
    var more := path + [next];
    forall i ensures Linked(w, arena, more, i) {
      if i < |path| - 1 { assert Linked(w, arena, path, i); }
    }
    if index !in unused {
      assert UsedUp(w, path, unused, index);
      var i: nat :| 0 < i < |path| - 1 && w.Plus(path[i], 2 * w.Word()) == w.allocations[index].address;
      SameStartSameNode(w, path[i], Last(path));
      PassedAreDistinct(w, arena, list, more, i, |path| - 1);
    }
    forall k: nat ensures UsedUp(w, more, unused - {index}, k) {
      assert UsedUp(w, path, unused, k);
      if k < |w.allocations| && k !in unused - {index} {
        if k == index {
          assert w.Plus(more[|path| - 1], 2 * w.Word()) == w.allocations[k].address;
        } else {
          var i :| 0 < i < |path| - 1 && w.Plus(path[i], 2 * w.Word()) == w.allocations[k].address;
          assert more[i] == path[i];
        }
      }
    }
  }

  /** Walks one list: the loop ends since each passed node uses up an allocation that no other node has used. */
  method WalkList(w: World, directory: Directory, arena: nat, list: nat, first: nat)
    returns (r: Option<Report>, ghost path: seq<nat>)
    requires w.Valid() && w.memory(w.Header(list)) == Some(first) && first != list
    requires directory.Valid() && InAddressOrder(directory.offers) && w.allocations == directory.allocations
    ensures Walked(w, arena, list, path) && Stops(w, arena, list, path, r)
    ensures exists p: seq<nat> :: Walked(w, arena, list, p) && Stops(w, arena, list, p, r)
    ensures |path| - 2 <= |w.allocations|
  {
    var prevNode, node := list, first;
    path := [list, first];
    ghost var unused := Numbers(|w.allocations|);
    while node != list
      invariant Walked(w, arena, list, path) && InRange(w, path) && node == Last(path) && prevNode == path[|path| - 2]
      invariant forall k: nat :: UsedUp(w, path, unused, k)
      invariant |unused| + |path| - 2 == |w.allocations|
      decreases |unused|
    {
      var v, index := CheckNode(w, directory, arena, list, prevNode, node);
      assert Examined(w, arena, list, prevNode, node, v);
      if v.Failed? {
        return Some(v.report), path;
      }
      PassExtends(w, arena, list, path, unused, index, v.next);
      unused := unused - {index};
      path := path + [v.next];
      prevNode, node := node, v.next;
    }
    r := None;
  }

  /** Checks one list; a read that fails ends it with a report. */
  method CheckList(w: World, directory: Directory, arena: nat, list: nat) returns (r: Option<Report>)
    requires w.Valid()
    requires directory.Valid() && InAddressOrder(directory.offers) && w.allocations == directory.allocations
    ensures Outcome(w, arena, list, r)
  {
    var header, l := w.Header(list), w.Plus(list, 3 * w.Word());
    var first, last := w.memory(header), w.memory(l);
    if first.None? {
      return Some(Report(header, header, NotInCore));
    }
    if last.None? {
      return Some(Report(header, l, NotInCore));
    }
    if first.value == list {
      r := if last.value != list then Some(Report(header, last.value, EmptyStart)) else None;
    } else if last.value == list {
      r := Some(Report(header, last.value, EmptyEnd));
    } else {
      ghost var path;
      r, path := WalkList(w, directory, arena, list, first.value);
    }
  }

  // ---------------------------------------------------------------------------------------------
  // All lists of an arena
  // ---------------------------------------------------------------------------------------------

  datatype Arena = Arena(address: nat, missingOrUnfilledHeader: bool)

  /** The k-th list from the first one on. */
  function ListAt(w: World, firstList: nat, k: nat): nat { firstList + k * (2 * w.Word()) }

  function Collected(outcomes: seq<Option<Report>>): seq<Report> {
    if outcomes == [] then []
    else Collected(Init(outcomes)) + match Last(outcomes) case None => [] case Some(r) => [r]
  }

  ghost predicate OutcomeAt(w: World, arena: nat, firstList: nat, outcomes: seq<Option<Report>>, k: nat) {
    k < |outcomes| ==> Outcome(w, arena, ListAt(w, firstList, k), outcomes[k])
  }

  /** The outcomes of all lists from the first to the last. */
  ghost predicate AllOutcomes(w: World, arena: nat, firstList: nat, lastList: nat, outcomes: seq<Option<Report>>) {
    && (forall k: nat :: OutcomeAt(w, arena, firstList, outcomes, k))
    && forall k: nat :: k < |outcomes| <==> ListAt(w, firstList, k) <= lastList
  }

  /** The outcomes of the first of these lists. */
  ghost predicate SomeOutcomes(w: World, arena: nat, firstList: nat, lastList: nat, outcomes: seq<Option<Report>>) {
    && (forall k: nat :: OutcomeAt(w, arena, firstList, outcomes, k))
    && forall k: nat :: k < |outcomes| ==> ListAt(w, firstList, k) <= lastList
  }

  lemma OutcomesGrow(w: World, arena: nat, firstList: nat, lastList: nat, outcomes: seq<Option<Report>>,
                     r: Option<Report>)
    requires SomeOutcomes(w, arena, firstList, lastList, outcomes)
    requires ListAt(w, firstList, |outcomes|) <= lastList && Outcome(w, arena, ListAt(w, firstList, |outcomes|), r)
    ensures SomeOutcomes(w, arena, firstList, lastList, outcomes + [r])
    ensures ListAt(w, firstList, |outcomes + [r]|) == ListAt(w, firstList, |outcomes|) + 2 * w.Word()
    ensures Collected(outcomes + [r]) == Collected(outcomes) + (match r case None => [] case Some(v) => [v])
  {
    var grown := outcomes + [r];
    assert Init(grown) == outcomes;
    forall k: nat ensures OutcomeAt(w, arena, firstList, grown, k) {
      assert OutcomeAt(w, arena, firstList, outcomes, k);
    }
  }

  /** Checks every list of the arena, from the first to the last. */
  method CheckDoublyLinkedListCorruption(w: World, directory: Directory, arena: Arena, firstOffset: nat,
                                         lastOffset: nat)
    returns (reports: seq<Report>, corruptionReported: bool, ghost outcomes: seq<Option<Report>>)
    requires w.Valid()
    requires directory.Valid() && InAddressOrder(directory.offers) && w.allocations == directory.allocations
    requires 2 * w.Word() <= arena.address + firstOffset && 2 * w.Word() <= arena.address + lastOffset < w.Modulus()
    ensures corruptionReported <==> reports != []
    ensures arena.missingOrUnfilledHeader ==> reports == []
    ensures !arena.missingOrUnfilledHeader ==>
              && AllOutcomes(w, arena.address, arena.address + firstOffset - 2 * w.Word(),
                             arena.address + lastOffset - 2 * w.Word(), outcomes)
              && reports == Collected(outcomes)
  {
    reports, corruptionReported, outcomes := [], false, [];
    if arena.missingOrUnfilledHeader {
      return;
    }
    var firstList: nat := arena.address + firstOffset - 2 * w.Word();
    var lastList := arena.address + lastOffset - 2 * w.Word();
    var list := firstList;
    while list <= lastList
      invariant list == ListAt(w, firstList, |outcomes|)
      invariant SomeOutcomes(w, arena.address, firstList, lastList, outcomes)
      invariant reports == Collected(outcomes) && (corruptionReported <==> reports != [])
      decreases lastList - list
    {
      var r := CheckList(w, directory, arena.address, list);
      OutcomesGrow(w, arena.address, firstList, lastList, outcomes, r);
      outcomes := outcomes + [r];
      if r.Some? {
        reports := reports + [r.value];
        corruptionReported := true;
      }
      list := list + 2 * w.Word();
    }
    forall k: nat ensures k < |outcomes| <==> ListAt(w, firstList, k) <= lastList {
      ListsAscend(w, firstList, |outcomes|, k);
    }
  }

  lemma ListsAscend(w: World, firstList: nat, k: nat, m: nat)
    ensures k <= m ==> ListAt(w, firstList, k) <= ListAt(w, firstList, m)
  {
    if k <= m { assert k * (2 * w.Word()) <= m * (2 * w.Word()); }
  }

  lemma {:induction false} NothingCollected(outcomes: seq<Option<Report>>)
    ensures Collected(outcomes) == [] <==> forall k :: 0 <= k < |outcomes| ==> outcomes[k] == None
  {
    if outcomes != [] {
      NothingCollected(Init(outcomes));
      assert forall k :: 0 <= k < |outcomes| - 1 ==> Init(outcomes)[k] == outcomes[k];
    }
  }

  /** Nothing is reported for an arena exactly when each of its lists is a ring with a plausible last pointer. */
  lemma SilentIffAllRings(w: World, arena: nat, firstList: nat, lastList: nat, outcomes: seq<Option<Report>>)
    requires AllOutcomes(w, arena, firstList, lastList, outcomes)
    ensures Collected(outcomes) == [] <==>
            forall k: nat :: ListAt(w, firstList, k) <= lastList ==> Healthy(w, arena, ListAt(w, firstList, k))
  {
    NothingCollected(outcomes);
    forall k: nat | k < |outcomes| ensures outcomes[k] == None <==> Healthy(w, arena, ListAt(w, firstList, k)) {
      var list := ListAt(w, firstList, k);
      assert OutcomeAt(w, arena, firstList, outcomes, k);
      SilentIffRing(w, arena, list);
      if Healthy(w, arena, list) { OutcomeIsUnique(w, arena, list, outcomes[k], None); }
    }
  }
}

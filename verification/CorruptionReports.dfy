/**
 What each report about a free list says of memory, of the allocations and of the arenas: the kind of the report, the
 header it names and the node it blames.
 */
module CorruptionReports {
  import opened AllocationDirectory
  import opened Basics
  import opened CorruptionChecker
  import opened DirectoryLookup

  // ---------------------------------------------------------------------------------------------
  // What was found to be in order before a test
  // ---------------------------------------------------------------------------------------------

  /** The innermost allocation where the payload of the node starts does, or does not, start there. */
  ghost predicate HasAllocation(w: World, node: nat, index: nat, starts: bool) {
    && index < |w.allocations| && IsInnermost(w.allocations, w.Plus(node, 2 * w.Word()), index)
    && (w.allocations[index].address == w.Plus(node, 2 * w.Word()) <==> starts)
  }

  /** The word after the allocation, with the status bit of the chunk before it. */
  function After(w: World, index: nat): nat
    requires index < |w.allocations|
  {
    w.Plus(w.allocations[index].Limit(), 0)
  }

  /** The last word of the allocation. */
  function Inside(w: World, index: nat): nat
    requires index < |w.allocations|
  {
    w.Plus(w.allocations[index].Limit() - w.Word(), 0)
  }

  ghost predicate IsFree(w: World, node: nat, index: nat) {
    && HasAllocation(w, node, index, true)
    && w.memory(After(w, index)).Some? && w.memory(After(w, index)).value % 2 == 0
  }

  ghost predicate IsFreeHere(w: World, arena: nat, node: nat, index: nat) {
    IsFree(w, node, index) && w.arenaOf(node) == arena
  }

  ghost predicate IsLinkedBack(w: World, arena: nat, prev: nat, node: nat, index: nat) {
    IsFreeHere(w, arena, node, index) && w.memory(w.Plus(node, 3 * w.Word())) == Some(prev)
  }

  // ---------------------------------------------------------------------------------------------
  // Reports about a node
  // ---------------------------------------------------------------------------------------------

  lemma FromIndex(w: World, arena: nat, list: nat, prev: nat, node: nat, v: Verdict) returns (index: nat)
    requires Examined(w, arena, list, prev, node, v)
    ensures IsInnermost(w.allocations, w.Plus(node, 2 * w.Word()), index)
    ensures v == Examine(w, arena, list, prev, node, index)
  {
    index :| IsInnermost(w.allocations, w.Plus(node, 2 * w.Word()), index)
             && v == Examine(w, arena, list, prev, node, index);
  }

  lemma NoAllocationIff(w: World, arena: nat, list: nat, prev: nat, node: nat, r: Report)
    requires r.kind == NoAllocation
    ensures Examined(w, arena, list, prev, node, Failed(r)) <==>
            && r.header == w.Plus(list, 2 * w.Word()) && r.node == node
            && forall i :: 0 <= i < |w.allocations| ==> !w.allocations[i].Contains(w.Plus(node, 2 * w.Word()))
  {
    if Examined(w, arena, list, prev, node, Failed(r)) {
      var index := FromIndex(w, arena, list, prev, node, Failed(r));
    }
    if forall i :: 0 <= i < |w.allocations| ==> !w.allocations[i].Contains(w.Plus(node, 2 * w.Word())) {
      assert IsInnermost(w.allocations, w.Plus(node, 2 * w.Word()), |w.allocations|);
    }
  }

  lemma WrongOffsetIff(w: World, arena: nat, list: nat, prev: nat, node: nat, r: Report)
    requires r.kind == WrongOffset
    ensures Examined(w, arena, list, prev, node, Failed(r)) <==>
            && r.header == w.Plus(list, 2 * w.Word()) && r.node == node && prev == list
            && exists index: nat :: HasAllocation(w, node, index, false)
  {
    if Examined(w, arena, list, prev, node, Failed(r)) {
      var index := FromIndex(w, arena, list, prev, node, Failed(r));
      assert HasAllocation(w, node, index, false);
    }
  }

  lemma UnexpectedForwardLinkIff(w: World, arena: nat, list: nat, prev: nat, node: nat, r: Report)
    requires r.kind == UnexpectedForwardLink
    ensures Examined(w, arena, list, prev, node, Failed(r)) <==>
            && r.header == w.Plus(list, 2 * w.Word()) && r.node == prev && prev != list
            && exists index: nat :: HasAllocation(w, node, index, false)
  {
    if Examined(w, arena, list, prev, node, Failed(r)) {
      var index := FromIndex(w, arena, list, prev, node, Failed(r));
      assert HasAllocation(w, node, index, false);
    }
  }

  ghost predicate OddStatus(w: World, node: nat, index: nat) {
    && HasAllocation(w, node, index, true)
    && w.memory(After(w, index)).Some? && w.memory(After(w, index)).value % 2 != 0
  }

  lemma WrongStatusIff(w: World, arena: nat, list: nat, prev: nat, node: nat, r: Report)
    requires r.kind == WrongStatus
    ensures Examined(w, arena, list, prev, node, Failed(r)) <==>
            && r.header == w.Plus(list, 2 * w.Word()) && r.node == node
            && exists index: nat :: OddStatus(w, node, index)
  {
    if Examined(w, arena, list, prev, node, Failed(r)) {
      var index := FromIndex(w, arena, list, prev, node, Failed(r));
      assert OddStatus(w, node, index);
    }
  }

  lemma WrongArenaIff(w: World, arena: nat, list: nat, prev: nat, node: nat, r: Report)
    requires r.kind == WrongArena
    ensures Examined(w, arena, list, prev, node, Failed(r)) <==>
            && r.header == w.Plus(list, 2 * w.Word()) && r.node == node
            && w.arenaOf(node) != arena && exists index: nat :: IsFree(w, node, index)
  {
    if Examined(w, arena, list, prev, node, Failed(r)) {
      var index := FromIndex(w, arena, list, prev, node, Failed(r));
      assert IsFree(w, node, index);
    }
  }

  lemma UnexpectedBackPointerIff(w: World, arena: nat, list: nat, prev: nat, node: nat, r: Report)
    requires r.kind == UnexpectedBackPointer
    ensures Examined(w, arena, list, prev, node, Failed(r)) <==>
            && r.header == w.Plus(list, 2 * w.Word()) && r.node == node
            && w.memory(w.Plus(node, 3 * w.Word())).Some? && w.memory(w.Plus(node, 3 * w.Word())) != Some(prev)
            && exists index: nat :: IsFreeHere(w, arena, node, index)
  {
    if Examined(w, arena, list, prev, node, Failed(r)) {
      var index := FromIndex(w, arena, list, prev, node, Failed(r));
      assert IsFreeHere(w, arena, node, index);
    }
  }

  ghost predicate WrongSize(w: World, arena: nat, prev: nat, node: nat, index: nat) {
    && IsLinkedBack(w, arena, prev, node, index) && w.memory(Inside(w, index)).Some?
    && w.memory(Inside(w, index)) != Some(w.Plus(w.allocations[index].size, w.Word()))
  }

  lemma WrongPrevSizeIff(w: World, arena: nat, list: nat, prev: nat, node: nat, r: Report)
    requires r.kind == WrongPrevSize
    ensures Examined(w, arena, list, prev, node, Failed(r)) <==>
            && r.header == w.Plus(list, 2 * w.Word()) && r.node == node
            && exists index: nat :: WrongSize(w, arena, prev, node, index)
  {
    if Examined(w, arena, list, prev, node, Failed(r)) {
      var index := FromIndex(w, arena, list, prev, node, Failed(r));
      assert WrongSize(w, arena, prev, node, index);
    }
  }

  /** The word at the given address is the first one to be read for the node that is not in the core. */
  ghost predicate Unreadable(w: World, arena: nat, prev: nat, node: nat, index: nat, address: nat) {
    w.memory(address).None? &&
    ( (HasAllocation(w, node, index, true) && address == After(w, index))
      || (IsFreeHere(w, arena, node, index) && address == w.Plus(node, 3 * w.Word()))
      || (IsLinkedBack(w, arena, prev, node, index) && address == Inside(w, index))
      || (IsLinkedBack(w, arena, prev, node, index) && address == w.Plus(node, 2 * w.Word())
          && w.memory(Inside(w, index)) == Some(w.Plus(w.allocations[index].size, w.Word()))))
  }

  lemma NotInCoreIff(w: World, arena: nat, list: nat, prev: nat, node: nat, r: Report)
    requires r.kind == NotInCore
    ensures Examined(w, arena, list, prev, node, Failed(r)) <==>
            && r.header == w.Plus(list, 2 * w.Word())
            && exists index: nat :: Unreadable(w, arena, prev, node, index, r.node)
  {
    if Examined(w, arena, list, prev, node, Failed(r)) {
      var index := FromIndex(w, arena, list, prev, node, Failed(r));
      assert Unreadable(w, arena, prev, node, index, r.node);
    }
    if index: nat :| Unreadable(w, arena, prev, node, index, r.node) && r.header == w.Plus(list, 2 * w.Word()) {
      assert Examine(w, arena, list, prev, node, index) == Failed(r);
    }
  }

  // ---------------------------------------------------------------------------------------------
  // Reports about a list
  // ---------------------------------------------------------------------------------------------

  /** The reports about a header whose two pointers disagree on whether the list is empty. */
  lemma EmptyIff(w: World, arena: nat, list: nat, r: Report)
    ensures Outcome(w, arena, list, Some(r)) && r.kind == EmptyStart <==>
            && r == Report(w.Plus(list, 2 * w.Word()), r.node, EmptyStart) && r.node != list
            && w.memory(w.Plus(list, 2 * w.Word())) == Some(list)
            && w.memory(w.Plus(list, 3 * w.Word())) == Some(r.node)
    ensures Outcome(w, arena, list, Some(r)) && r.kind == EmptyEnd <==>
            && r == Report(w.Plus(list, 2 * w.Word()), list, EmptyEnd)
            && w.memory(w.Plus(list, 2 * w.Word())).Some? && w.memory(w.Plus(list, 2 * w.Word())) != Some(list)
            && w.memory(w.Plus(list, 3 * w.Word())) == Some(list)
  {
  }

  /** A path of nodes that are free, here and linked back leads from the header to a node that is reported. */
  ghost predicate LeadsToReport(w: World, arena: nat, list: nat, path: seq<nat>, r: Report) {
    && Walked(w, arena, list, path) && Last(path) != list
    && Examined(w, arena, list, path[|path| - 2], Last(path), Failed(r))
  }

  /** Any other report is about a pointer of the header that is not in the core, or about a node on the way. */
  lemma OtherIff(w: World, arena: nat, list: nat, r: Report)
    requires r.kind != EmptyStart && r.kind != EmptyEnd
    ensures var first, last := w.memory(w.Plus(list, 2 * w.Word())), w.memory(w.Plus(list, 3 * w.Word()));
            Outcome(w, arena, list, Some(r)) <==>
            || (first.None? && r == Report(w.Plus(list, 2 * w.Word()), w.Plus(list, 2 * w.Word()), NotInCore))
            || (first.Some? && last.None?
                && r == Report(w.Plus(list, 2 * w.Word()), w.Plus(list, 3 * w.Word()), NotInCore))
            || (first.Some? && last.Some? && first != Some(list) && last != Some(list)
                && exists path: seq<nat> :: LeadsToReport(w, arena, list, path, r))
  {
    var first, last := w.memory(w.Plus(list, 2 * w.Word())), w.memory(w.Plus(list, 3 * w.Word()));
    if first.Some? && last.Some? && first != Some(list) && last != Some(list) {
      if Outcome(w, arena, list, Some(r)) {
        var path: seq<nat> :| Walked(w, arena, list, path) && Stops(w, arena, list, path, Some(r));
        assert LeadsToReport(w, arena, list, path, r);
      }
      if path: seq<nat> :| LeadsToReport(w, arena, list, path, r) {
        assert Stops(w, arena, list, path, Some(r));
      }
    }
  }
}

/** How the cascade over the levels files a new wrapper. */
module DirectoryLevels {
  import opened AllocationDirectory

  lemma {:induction false} OkIndexed(al: seq<Allocation>, levels: seq<seq<nat>>)
    requires LevelsOk(al, levels)
    ensures Indexed(al, levels)
    ensures forall m :: m in Members(levels) ==> m < |al| && al[m].wrapper
    decreases |levels|
  {
    if levels != [] { OkIndexed(al, levels[1..]); }
  }

  lemma ReplaceElements(level: seq<nat>, x: nat)
    requires level != []
    ensures Elements(Init(level) + [x]) + {Last(level)} == Elements(level) + {x}
    ensures Elements(level + [x]) == Elements(level) + {x}
  {
    assert level == Init(level) + [Last(level)];
  }

  lemma {:induction false} CarryMembers(al: seq<Allocation>, levels: seq<seq<nat>>, x: nat, limit: nat)
    requires Indexed(al, levels)
    ensures Members(Carry(al, levels, x, limit)) == Members(levels) + {x}
    decreases |levels|
  {
    if levels != [] {
      var level, rest := levels[0], levels[1..];
      ReplaceElements(level, x);
      if al[Last(level)].Limit() < limit {
        assert ([level + [x]] + rest)[1..] == rest;
      } else {
        CarryMembers(al, rest, Last(level), limit);
        var carried := Carry(al, rest, Last(level), limit);
        assert ([Init(level) + [x]] + carried)[1..] == carried;
      }
    }
  }

  lemma ReplaceLevel(al: seq<Allocation>, level: seq<nat>, x: nat, higher: set<nat>)
    requires LevelOk(al, level) && Under(al, level, higher) && x < |al| && al[x].wrapper
    requires Last(level) < x && al[Last(level)].address <= al[x].address
    ensures LevelOk(al, Init(level) + [x])
    ensures Under(al, Init(level) + [x], higher + {Last(level)})
  {
    var new' := Init(level) + [x];
    forall m, p | m in higher + {Last(level)} && 0 <= p < |new'|
      ensures m < Last(new') && !Inside(al, m, new'[p])
    {
      if p < |level| - 1 { assert new'[p] == level[p]; }
    }
  }

  lemma PushLevel(al: seq<Allocation>, level: seq<nat>, x: nat, higher: set<nat>)
    requires LevelOk(al, level) && Under(al, level, higher) && x < |al| && al[x].wrapper
    requires Last(level) < x && al[Last(level)].Limit() <= al[x].address
    ensures LevelOk(al, level + [x])
    ensures Under(al, level + [x], higher)
  {
  }

  lemma ConsOk(al: seq<Allocation>, level: seq<nat>, rest: seq<seq<nat>>, levels: seq<seq<nat>>)
    requires LevelOk(al, level) && Under(al, level, Members(rest)) && LevelsOk(al, rest) && levels == [level] + rest
    ensures LevelsOk(al, levels)
  {
    assert ([level] + rest)[1..] == rest;
  }

  /** Two allocations in order of address, by name. */
  lemma Pair(al: seq<Allocation>, i: nat, j: nat)
    requires Ordered(al) && Laminar(al) && i < j < |al|
    ensures al[i].address <= al[j].address
    ensures al[j].Limit() <= al[i].Limit() || al[i].Limit() <= al[j].address
  {
    assert InOrder(al, i, j) && NestedOrDisjoint(al, i, j);
  }

  /** A wrapper later than all filed ones, which the offered allocation lies in, is filed properly. */
  lemma {:induction false} CarryOk(al: seq<Allocation>, levels: seq<seq<nat>>, x: nat, limit: nat)
    requires Ordered(al) && Laminar(al) && Indexed(al, levels) && LevelsOk(al, levels)
    requires x < |al| && al[x].wrapper && limit <= al[x].Limit()
    requires forall m :: m in Members(levels) ==> m < x
    ensures LevelsOk(al, Carry(al, levels, x, limit))
    decreases |levels|
  {
    var result := Carry(al, levels, x, limit);
    if levels == [] {
      ConsOk(al, [x], [], result);
    } else {
      var level, back, rest := levels[0], Last(levels[0]), levels[1..];
      assert back in level && back in Members(levels);
      Pair(al, back, x);
      if al[back].Limit() < limit {
        PushLevel(al, level, x, Members(rest));
        ConsOk(al, level + [x], rest, result);
      } else {
        CarryOk(al, rest, back, limit);
        CarryMembers(al, rest, back, limit);
        ReplaceLevel(al, level, x, Members(rest));
        ConsOk(al, Init(level) + [x], Carry(al, rest, back, limit), result);
      }
    }
  }

  lemma PushTight(al: seq<Allocation>, level: seq<nat>, x: nat, rest: seq<seq<nat>>)
    requires LevelsTight(al, [level] + rest)
    ensures LevelsTight(al, [level + [x]] + rest)
  {
    assert ([level + [x]] + rest)[1..] == rest == ([level] + rest)[1..];
    if rest != [] {
      assert ([level] + rest)[1] == rest[0];
      forall w | w in rest[0]
        ensures HasInside(al, w, level + [x])
      {
        assert HasInside(al, w, level);
        var j :| j in level && Inside(al, j, w);
        assert j in level + [x];
      }
    }
  }

  /** What a wrapper before the displaced one has inside stays where it is. */
  lemma KeepsInside(al: seq<Allocation>, level: seq<nat>, x: nat, w: nat)
    requires LevelOk(al, level) && HasInside(al, w, level) && w < |al| && al[w].Limit() <= al[Last(level)].address
    ensures HasInside(al, w, Init(level) + [x])
  {
    var j :| j in level && Inside(al, j, w);
    assert level == Init(level) + [Last(level)];
    assert j != Last(level) && j in Init(level) + [x];
  }

  /** The wrapper that made way is inside nothing else of the level it arrives at. */
  lemma ReplacedTight(al: seq<Allocation>, level: seq<nat>, x: nat, next: seq<nat>, next': seq<nat>)
    requires LevelOk(al, level) && LevelOk(al, next') && x < |al|
    requires Last(level) < x && al[x].address < al[Last(level)].Limit()
    requires Last(next') == Last(level) && al[Last(level)].address < al[Last(level)].Limit()
    requires forall w :: w in next' ==> w in next || w == Last(level)
    requires forall w :: w in next ==> HasInside(al, w, level)
    ensures forall w :: w in next' ==> HasInside(al, w, Init(level) + [x])
  {
    forall p | 0 <= p < |next'| ensures HasInside(al, next'[p], Init(level) + [x]) {
      if p < |next'| - 1 && next'[p] != Last(level) {
        assert next'[p] in next;
        KeepsInside(al, level, x, next'[p]);
      } else {
        assert (Init(level) + [x])[|level| - 1] == x && Inside(al, x, Last(level));
      }
    }
  }

  /** The wrappers that the cascade displaces, from the first level on. */
  function Displaced(al: seq<Allocation>, levels: seq<seq<nat>>, limit: nat): seq<nat>
    requires Indexed(al, levels)
    decreases |levels|
  {
    if levels == [] || al[Last(levels[0])].Limit() < limit then []
    else [Last(levels[0])] + Displaced(al, levels[1..], limit)
  }

  /** Each wrapper that the cascade displaces has the one that takes its place inside of it. */
  ghost predicate Follows(al: seq<Allocation>, levels: seq<seq<nat>>, x: nat, limit: nat)
    requires Indexed(al, levels)
    decreases |levels|
  {
    levels == [] || al[Last(levels[0])].Limit() < limit ||
    (Inside(al, x, Last(levels[0])) && Follows(al, levels[1..], Last(levels[0]), limit))
  }

  /** What holds when the cascade arrives at a level: x comes after all wrappers filed from there on. */
  ghost predicate Arrives(al: seq<Allocation>, levels: seq<seq<nat>>, x: nat, limit: nat) {
    && Ordered(al) && Laminar(al) && Indexed(al, levels) && LevelsOk(al, levels)
    && x < |al| && al[x].wrapper && limit <= al[x].Limit() && forall m :: m in Members(levels) ==> m < x
  }

  /** The next level of the cascade. */
  lemma ArrivesNext(al: seq<Allocation>, levels: seq<seq<nat>>, x: nat, limit: nat)
    requires Arrives(al, levels, x, limit) && levels != [] && limit <= al[Last(levels[0])].Limit()
    ensures Arrives(al, levels[1..], Last(levels[0]), limit)
    ensures Last(levels[0]) < x && al[Last(levels[0])].address <= al[x].address
    ensures al[x].Limit() <= al[Last(levels[0])].Limit() || al[Last(levels[0])].Limit() <= al[x].address
  {
    var back := Last(levels[0]);
    assert back in levels[0] && back in Members(levels);
    Pair(al, back, x);
  }

  lemma CarriedFirst(al: seq<Allocation>, levels: seq<seq<nat>>, x: nat, limit: nat)
    requires Indexed(al, levels)
    ensures var carried := Carry(al, levels, x, limit);
            carried != [] && carried[0] == if levels == [] then [x]
                                           else if al[Last(levels[0])].Limit() < limit then levels[0] + [x]
                                           else Init(levels[0]) + [x]
  {
  }

  lemma DisplacedTight(al: seq<Allocation>, levels: seq<seq<nat>>, x: nat, limit: nat)
    requires Arrives(al, levels, x, limit) && LevelsTight(al, levels) && Follows(al, levels, x, limit)
    requires levels != [] && limit <= al[Last(levels[0])].Limit()
    requires LevelsTight(al, Carry(al, levels[1..], Last(levels[0]), limit))
    ensures LevelsTight(al, Carry(al, levels, x, limit))
  {
    var back, rest := Last(levels[0]), levels[1..];
    ArrivesNext(al, levels, x, limit);
    CarryOk(al, rest, back, limit);
    var carried := Carry(al, rest, back, limit);
    CarriedFirst(al, rest, back, limit);
    ReplacedTight(al, levels[0], x, if rest == [] then [] else rest[0], carried[0]);
    var result := [Init(levels[0]) + [x]] + carried;
    assert result[1..] == carried && result[1] == carried[0];
  }

  /** If each displaced wrapper has its displacer inside, every level still has one of the level below inside. */
  lemma {:induction false} CarryStaysTight(al: seq<Allocation>, levels: seq<seq<nat>>, x: nat, limit: nat)
    requires Arrives(al, levels, x, limit) && LevelsTight(al, levels) && Follows(al, levels, x, limit)
    ensures LevelsTight(al, Carry(al, levels, x, limit))
    decreases |levels|
  {
    if levels != [] {
      var back, rest := Last(levels[0]), levels[1..];
      assert levels == [levels[0]] + rest;
      if al[back].Limit() < limit {
        PushTight(al, levels[0], x, rest);
      } else {
        ArrivesNext(al, levels, x, limit);
        CarryStaysTight(al, rest, back, limit);
        DisplacedTight(al, levels, x, limit);
      }
    }
  }

  /** A wrapper that starts below the end of the offered allocation lies in all those that it displaces. */
  lemma {:induction false} FollowsBelow(al: seq<Allocation>, levels: seq<seq<nat>>, x: nat, limit: nat)
    requires Arrives(al, levels, x, limit) && al[x].address < limit
    ensures Follows(al, levels, x, limit)
    decreases |levels|
  {
    if levels != [] && limit <= al[Last(levels[0])].Limit() {
      ArrivesNext(al, levels, x, limit);
      FollowsBelow(al, levels[1..], Last(levels[0]), limit);
    }
  }

  /** Some wrapper that the cascade displaces ends at the given address. */
  ghost predicate EndsAmong(al: seq<Allocation>, displaced: seq<nat>, address: nat) {
    exists w :: w in displaced && w < |al| && al[w].Limit() == address
  }

  /** One that starts just there lies in all those that it displaces unless one of them ends there. */
  lemma {:induction false} FollowsUnlessEnding(al: seq<Allocation>, levels: seq<seq<nat>>, x: nat, limit: nat)
    requires Arrives(al, levels, x, limit) && al[x].address <= limit
    requires al[x].address == limit ==> !EndsAmong(al, Displaced(al, levels, limit), limit)
    ensures Follows(al, levels, x, limit)
    decreases |levels|
  {
    if al[x].address < limit {
      FollowsBelow(al, levels, x, limit);
    } else if levels != [] && limit <= al[Last(levels[0])].Limit() {
      var back, rest := Last(levels[0]), levels[1..];
      ArrivesNext(al, levels, x, limit);
      assert back in Displaced(al, levels, limit);
      assert forall w :: w in Displaced(al, rest, limit) ==> w in Displaced(al, levels, limit);
      FollowsUnlessEnding(al, rest, back, limit);
    }
  }

  /**
   After the cascade each wrapper above the first level still has one of the level below inside of it, unless the new
   wrapper starts where the offered allocation ends and a displaced wrapper ends there too.
   */
  lemma CarryTight(al: seq<Allocation>, levels: seq<seq<nat>>, x: nat, limit: nat)
    requires Arrives(al, levels, x, limit) && LevelsTight(al, levels) && al[x].address <= limit
    requires al[x].address == limit ==> !EndsAmong(al, Displaced(al, levels, limit), limit)
    ensures LevelsTight(al, Carry(al, levels, x, limit))
  {
    FollowsUnlessEnding(al, levels, x, limit);
    CarryStaysTight(al, levels, x, limit);
  }
}

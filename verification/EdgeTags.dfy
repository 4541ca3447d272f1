/**
 Facts about edges, each kept twice because edges have two numberings, and the tags of allocations, which
 withdraw such facts when a stronger tag replaces a weaker one.
 */
module EdgeTags {
  import opened GraphEdges
  import opened EdgeSearch

  /** A fact about edges: the set of the edges, as pairs of source and target, for which it holds. */
  type Relation = set<(nat, nat)>

  /** The incoming entry e of t agrees with the relation. */
  ghost predicate InAgrees(g: Edges, byIncoming: seq<bool>, rel: Relation, t: nat, e: nat) {
    e < |byIncoming| && e < |g.incoming| && IsIncoming(g, e, g.incoming[e], t) ==>
      (byIncoming[e] <==> (g.incoming[e], t) in rel)
  }

  ghost predicate OutAgrees(g: Edges, byOutgoing: seq<bool>, rel: Relation, s: nat, e: nat) {
    e < |byOutgoing| && e < |g.outgoing| && IsOutgoing(g, e, s, g.outgoing[e]) ==>
      (byOutgoing[e] <==> (s, g.outgoing[e]) in rel)
  }

  /** Both vectors denote the relation. */
  ghost predicate Denote(refs: References, g: Edges, byOutgoing: seq<bool>, byIncoming: seq<bool>, rel: Relation) {
    && |byOutgoing| == |g.outgoing| && |byIncoming| == |g.incoming|
    && (forall t, e :: InAgrees(g, byIncoming, rel, t, e))
    && (forall s, e :: OutAgrees(g, byOutgoing, rel, s, e))
    && (forall s, t :: (s, t) in rel ==> Edge(refs, s, t))
  }

  function With(rel: Relation, s: nat, t: nat, value: bool): Relation {
    if value then rel + {(s, t)} else rel - {(s, t)}
  }

  /** An entry belongs to the slice of one allocation only, which holds each other end only once. */
  lemma IncomingUnique(refs: References, g: Edges, e: nat, s: nat, t: nat, e': nat, t': nat)
    requires Represents(refs, g) && IsIncoming(g, e, s, t) && IsIncoming(g, e', s, t')
    requires t < |refs| && t' < |refs|
    ensures e == e' <==> t == t'
  {
    if t == t' {
      RowsAreSlices(refs, g, t);
      var row, base := g.incoming[g.firstIncoming[t]..g.firstIncoming[t + 1]], g.firstIncoming[t];
      assert row[e - base] == row[e' - base];
    } else {
      var lo, hi := if t < t' then t else t', if t < t' then t' else t;
      FirstsOrdered(g, g.firstIncoming, |g.incoming|, |refs|, lo + 1, hi);
    }
  }

  lemma OutgoingUnique(refs: References, g: Edges, e: nat, s: nat, t: nat, e': nat, s': nat)
    requires Represents(refs, g) && IsOutgoing(g, e, s, t) && IsOutgoing(g, e', s', t)
    requires s < |refs| && s' < |refs|
    ensures e == e' <==> s == s'
  {
    if s == s' {
      RowsAreSlices(refs, g, s);
      var row, base := g.outgoing[g.firstOutgoing[s]..g.firstOutgoing[s + 1]], g.firstOutgoing[s];
      assert row[e - base] == row[e' - base];
    } else {
      var lo, hi := if s < s' then s else s', if s < s' then s' else s;
      FirstsOrdered(g, g.firstOutgoing, |g.outgoing|, |refs|, lo + 1, hi);
    }
  }

  /** Slices exist only for allocations. */
  lemma SliceIsRow(refs: References, g: Edges, i: nat)
    requires Represents(refs, g)
    ensures g.HasSlice(g.firstIncoming, |g.incoming|, i) <==> i < |refs|
    ensures g.HasSlice(g.firstOutgoing, |g.outgoing|, i) <==> i < |refs|
  {
  }

  /** Writing the value at both entries of an edge keeps both vectors in step with the relation. */
  lemma SetBoth(refs: References, g: Edges, byOutgoing: seq<bool>, byIncoming: seq<bool>, rel: Relation,
                s: nat, t: nat, o: nat, i: nat, value: bool)
    requires Represents(refs, g) && Denote(refs, g, byOutgoing, byIncoming, rel) && Edge(refs, s, t)
    requires o < |g.outgoing| && IsOutgoing(g, o, s, t) && i < |g.incoming| && IsIncoming(g, i, s, t)
    ensures Denote(refs, g, byOutgoing[o := value], byIncoming[i := value], With(rel, s, t, value))
  {
    var rel' := With(rel, s, t, value);
    var byIncoming', byOutgoing' := byIncoming[i := value], byOutgoing[o := value];
    forall u: nat, e: nat ensures InAgrees(g, byIncoming', rel', u, e) {
      assert InAgrees(g, byIncoming, rel, u, e);
      if e < |g.incoming| && IsIncoming(g, e, g.incoming[e], u) {
        SliceIsRow(refs, g, u);
        if g.incoming[e] == s { IncomingUnique(refs, g, i, s, t, e, u); }
      }
    }
    forall r: nat, e: nat ensures OutAgrees(g, byOutgoing', rel', r, e) {
      assert OutAgrees(g, byOutgoing, rel, r, e);
      if e < |g.outgoing| && IsOutgoing(g, e, r, g.outgoing[e]) {
        SliceIsRow(refs, g, r);
        if g.outgoing[e] == t { OutgoingUnique(refs, g, o, s, t, e, r); }
      }
    }
  }

  lemma EntryIsEdge(refs: References, g: Edges, e: nat, s: nat, t: nat)
    requires Represents(refs, g) && (IsOutgoing(g, e, s, t) || IsIncoming(g, e, s, t))
    ensures Edge(refs, s, t)
  {
    SliceIsRow(refs, g, s);
    SliceIsRow(refs, g, t);
    if IsOutgoing(g, e, s, t) {
      assert RowsMatch(refs, g, s);
      TargetsAreEdges(refs, s, 0);
      assert g.OutgoingOf(s)[e - g.firstOutgoing[s]] == t;
    } else {
      assert RowsMatch(refs, g, t);
      SourcesAreEdges(refs, t, 0);
      assert g.IncomingOf(t)[e - g.firstIncoming[t]] == s;
    }
  }

  function AllEdges(refs: References): Relation {
    set s, t | 0 <= s < |refs| && 0 <= t < |refs| && Edge(refs, s, t) :: (s, t)
  }

  /** A fact about each edge, stored under both numberings of the edges. */
  class EdgePredicate {
    const refs: References
    const g: Edges
    var byOutgoing: seq<bool>
    var byIncoming: seq<bool>
    ghost var relation: Relation

    ghost predicate Valid()
      reads this
    {
      Represents(refs, g) && Denote(refs, g, byOutgoing, byIncoming, relation)
    }

    constructor (refs: References, g: Edges, defaultValue: bool)
      requires Represents(refs, g)
      ensures Valid() && this.refs == refs && this.g == g
      ensures relation == if defaultValue then AllEdges(refs) else {}
    {
      this.refs, this.g := refs, g;
      byOutgoing := seq(|g.outgoing|, _ => defaultValue);
      byIncoming := seq(|g.incoming|, _ => defaultValue);
      relation := if defaultValue then AllEdges(refs) else {};
      new;
      forall t: nat, e: nat ensures InAgrees(g, byIncoming, relation, t, e) {
        if e < |g.incoming| && IsIncoming(g, e, g.incoming[e], t) {
          EntryIsEdge(refs, g, e, g.incoming[e], t);
        }
      }
      forall s: nat, e: nat ensures OutAgrees(g, byOutgoing, relation, s, e) {
        if e < |g.outgoing| && IsOutgoing(g, e, s, g.outgoing[e]) {
          EntryIsEdge(refs, g, e, s, g.outgoing[e]);
        }
      }
    }

    method Set(s: nat, t: nat, value: bool)
      requires Valid()
      modifies this
      ensures Valid()
      ensures relation == if Edge(refs, s, t) then With(old(relation), s, t, value) else old(relation)
    {
      var incoming := GetIncomingEdgeIndex(refs, g, s, t);
      if incoming == |g.incoming| {
        return;
      }
      var outgoing := GetOutgoingEdgeIndex(refs, g, s, t);
      SetBoth(refs, g, byOutgoing, byIncoming, relation, s, t, outgoing, incoming, value);
      byIncoming := byIncoming[incoming := value];
      byOutgoing := byOutgoing[outgoing := value];
      relation := With(relation, s, t, value);
    }

    method SetAllOutgoing(s: nat, value: bool)
      requires Valid()
      modifies this
      ensures Valid()
      ensures forall p :: p in relation <==> if p.0 == s && Edge(refs, p.0, p.1) then value else p in old(relation)
    {
      if s >= |refs| {
        return;
      }
      RowsAreWhole(refs, g, s);
      ghost var row := g.OutgoingOf(s);
      var outgoing := g.firstOutgoing[s];
      while outgoing != g.firstOutgoing[s + 1]
        invariant g.firstOutgoing[s] <= outgoing <= g.firstOutgoing[s + 1]
        invariant Valid()
        invariant forall p :: p in relation <==>
                    if p.0 == s && p.1 in row[..outgoing - g.firstOutgoing[s]] then value else p in old(relation)
        decreases g.firstOutgoing[s + 1] - outgoing
      {
        var t := g.outgoing[outgoing];
        ghost var k := outgoing - g.firstOutgoing[s];
        OutgoingEntry(refs, g, s, outgoing);
        var incoming := GetIncomingEdgeIndex(refs, g, s, t);
        SetBoth(refs, g, byOutgoing, byIncoming, relation, s, t, outgoing, incoming, value);
        byOutgoing := byOutgoing[outgoing := value];
        byIncoming := byIncoming[incoming := value];
        relation := With(relation, s, t, value);
        outgoing := outgoing + 1;
      }
    }

    method SetAllIncoming(t: nat, value: bool)
      requires Valid()
      modifies this
      ensures Valid()
      ensures forall p :: p in relation <==> if p.1 == t && Edge(refs, p.0, p.1) then value else p in old(relation)
    {
      if t >= |refs| {
        return;
      }
      RowsAreWhole(refs, g, t);
      ghost var row := g.IncomingOf(t);
      var incoming := g.firstIncoming[t];
      while incoming != g.firstIncoming[t + 1]
        invariant g.firstIncoming[t] <= incoming <= g.firstIncoming[t + 1]
        invariant Valid()
        invariant forall p :: p in relation <==>
                    if p.1 == t && p.0 in row[..incoming - g.firstIncoming[t]] then value else p in old(relation)
        decreases g.firstIncoming[t + 1] - incoming
      {
        var s := g.incoming[incoming];
        ghost var k := incoming - g.firstIncoming[t];
        IncomingEntry(refs, g, t, incoming);
        var outgoing := GetOutgoingEdgeIndex(refs, g, s, t);
        SetBoth(refs, g, byOutgoing, byIncoming, relation, s, t, outgoing, incoming, value);
        byIncoming := byIncoming[incoming := value];
        byOutgoing := byOutgoing[outgoing := value];
        relation := With(relation, s, t, value);
        incoming := incoming + 1;
      }
    }

    method For(s: nat, t: nat) returns (r: bool)
      requires Valid()
      ensures r == ((s, t) in relation)
    {
      var incoming := GetIncomingEdgeIndex(refs, g, s, t);
      if incoming == |g.incoming| {
        return false;
      }
      assert InAgrees(g, byIncoming, relation, t, incoming);
      r := byIncoming[incoming];
    }

    method ForIncoming(e: nat) returns (r: bool)
      requires Valid()
      ensures e >= |g.incoming| ==> !r
      ensures forall s: nat, t: nat :: IsIncoming(g, e, s, t) ==> r == ((s, t) in relation)
    {
      r := e < |g.incoming| && byIncoming[e];
      forall s: nat, t: nat | IsIncoming(g, e, s, t) ensures r == ((s, t) in relation) {
        assert InAgrees(g, byIncoming, relation, t, e);
      }
    }

    method ForOutgoing(e: nat) returns (r: bool)
      requires Valid()
      ensures e >= |g.outgoing| ==> !r
      ensures forall s: nat, t: nat :: IsOutgoing(g, e, s, t) ==> r == ((s, t) in relation)
    {
      r := e < |g.outgoing| && byOutgoing[e];
      forall s: nat, t: nat | IsOutgoing(g, e, s, t) ensures r == ((s, t) in relation) {
        assert OutAgrees(g, byOutgoing, relation, s, e);
      }
    }
  }

  // ---------------------------------------------------------------------------------------------
  // Tags
  // ---------------------------------------------------------------------------------------------

  /** The tags of allocations (0 if there is none), what was registered about each tag, and the facts about edges. */
  datatype Tagging = Tagging(tags: seq<nat>, strong: seq<bool>, supportsFavored: seq<bool>,
                             favored: Relation, tainted: Relation)

  const MAX_TAGS: nat := 0x255

  datatype Op =
    | Register(isStrong: bool, supports: bool)
    | TagOne(allocation: nat, tag: nat)
    | Favor(source: nat, target: nat, value: bool)
    | Taint(source: nat, target: nat, value: bool)

  /** What the holder of the tags demands; it aborts otherwise. */
  predicate Allowed(t: Tagging, op: Op) {
    match op
    case Register(_, _) => |t.strong| != MAX_TAGS
    case TagOne(allocation, tag) => tag < |t.strong| && allocation < |t.tags|
    case _ => true
  }

  predicate WellTagged(t: Tagging) {
    && |t.strong| == |t.supportsFavored| && 0 < |t.strong| && !t.strong[0] && !t.supportsFavored[0]
    && forall a :: 0 <= a < |t.tags| ==> t.tags[a] < |t.strong|
  }

  /** A tag replaces none, and a strong tag replaces a weak one. */
  predicate Replaces(t: Tagging, allocation: nat, tag: nat)
    requires WellTagged(t) && allocation < |t.tags| && tag < |t.strong|
  {
    t.tags[allocation] == 0 || (t.strong[tag] && !t.strong[t.tags[allocation]])
  }

  function WithoutTarget(rel: Relation, a: nat): Relation {
    set p | p in rel && p.1 != a
  }

  function WithoutSource(rel: Relation, a: nat): Relation {
    set p | p in rel && p.0 != a
  }

  function TagStep(t: Tagging, allocation: nat, tag: nat): (r: Tagging)
    requires WellTagged(t) && allocation < |t.tags| && tag < |t.strong|
    ensures WellTagged(r)
  {
    var oldTag := t.tags[allocation];
    if Replaces(t, allocation, tag) then
      t.(tags := t.tags[allocation := tag],
         favored := if oldTag != 0 && t.supportsFavored[oldTag]
                    then WithoutTarget(t.favored, allocation) else t.favored,
         tainted := if oldTag != 0 then WithoutSource(t.tainted, allocation) else t.tainted)
    else t
  }

  function Apply(refs: References, t: Tagging, op: Op): (r: Tagging)
    requires WellTagged(t) && Allowed(t, op)
    ensures WellTagged(r) && |r.tags| == |t.tags| && t.strong <= r.strong && t.supportsFavored <= r.supportsFavored
  {
    match op
    case Register(isStrong, supports) =>
      t.(strong := t.strong + [isStrong], supportsFavored := t.supportsFavored + [supports])
    case TagOne(allocation, tag) => TagStep(t, allocation, tag)
    case Favor(s, u, value) => t.(favored := if Edge(refs, s, u) then With(t.favored, s, u, value) else t.favored)
    case Taint(s, u, value) => t.(tainted := if Edge(refs, s, u) then With(t.tainted, s, u, value) else t.tainted)
  }

  ghost predicate AllAllowed(refs: References, t: Tagging, ops: seq<Op>)
    requires WellTagged(t)
    decreases |ops|
  {
    ops != [] ==> Allowed(t, ops[0]) && AllAllowed(refs, Apply(refs, t, ops[0]), ops[1..])
  }

  ghost function Run(refs: References, t: Tagging, ops: seq<Op>): (r: Tagging)
    requires WellTagged(t) && AllAllowed(refs, t, ops)
    ensures WellTagged(r) && |r.tags| == |t.tags| && t.strong <= r.strong
    decreases |ops|
  {
    if ops == [] then t else Run(refs, Apply(refs, t, ops[0]), ops[1..])
  }

  /** 0 without a tag, 1 with a weak one, 2 with a strong one. */
  function Strength(t: Tagging, a: nat): nat
    requires WellTagged(t) && a < |t.tags|
  {
    if t.tags[a] == 0 then 0 else if t.strong[t.tags[a]] then 2 else 1
  }

  /** Over every run a tag only ever gets stronger: none to any, weak to strong, and a strong one stays for good. */
  lemma {:induction false} TagsOnlyStrengthen(refs: References, t: Tagging, ops: seq<Op>, a: nat)
    requires WellTagged(t) && AllAllowed(refs, t, ops) && a < |t.tags|
    ensures Strength(t, a) <= Strength(Run(refs, t, ops), a)
    ensures Strength(t, a) == Strength(Run(refs, t, ops), a) ==> Run(refs, t, ops).tags[a] == t.tags[a]
    decreases |ops|
  {
    if ops != [] {
      TagsOnlyStrengthen(refs, Apply(refs, t, ops[0]), ops[1..], a);
    }
  }

  ghost predicate NoLaterFact(ops: seq<Op>, s: nat, u: nat) {
    forall i :: 0 <= i < |ops| ==> ops[i] != Favor(s, u, true) && ops[i] != Taint(s, u, true)
  }

  /** Facts withdrawn stay withdrawn unless they are stated again. */
  lemma {:induction false} WithdrawnStays(refs: References, t: Tagging, ops: seq<Op>, s: nat, u: nat)
    requires WellTagged(t) && AllAllowed(refs, t, ops) && NoLaterFact(ops, s, u)
    ensures (s, u) !in t.favored ==> (s, u) !in Run(refs, t, ops).favored
    ensures (s, u) !in t.tainted ==> (s, u) !in Run(refs, t, ops).tainted
    decreases |ops|
  {
    if ops != [] {
      assert ops[0] != Favor(s, u, true) && ops[0] != Taint(s, u, true);
      forall i | 0 <= i < |ops[1..]| ensures ops[1..][i] != Favor(s, u, true) && ops[1..][i] != Taint(s, u, true) {
        assert ops[1..][i] == ops[i + 1];
      }
      WithdrawnStays(refs, Apply(refs, t, ops[0]), ops[1..], s, u);
    }
  }

  /** Replacing a weak tag withdraws what that tag had led to, for good unless stated again, and nothing else. */
  lemma ReplacementWithdraws(refs: References, t: Tagging, a: nat, tag: nat, later: seq<Op>, s: nat, u: nat)
    requires WellTagged(t) && a < |t.tags| && tag < |t.strong| && t.tags[a] != 0 && Replaces(t, a, tag)
    requires AllAllowed(refs, TagStep(t, a, tag), later) && NoLaterFact(later, s, u)
    ensures var r := Run(refs, TagStep(t, a, tag), later);
            && (s == a ==> (s, u) !in r.tainted)
            && (u == a && t.supportsFavored[t.tags[a]] ==> (s, u) !in r.favored)
            && (s != a && later == [] ==> ((s, u) in r.tainted <==> (s, u) in t.tainted))
            && (!(u == a && t.supportsFavored[t.tags[a]]) && later == [] ==>
                  ((s, u) in r.favored <==> (s, u) in t.favored))
  {
    WithdrawnStays(refs, TagStep(t, a, tag), later, s, u);
  }

  /** The tags in place, next to the two facts about edges that depend on them. */
  class TagHolder {
    const edgeIsFavored: EdgePredicate
    const edgeIsTainted: EdgePredicate
    var tags: seq<nat>
    var tagIsStrong: seq<bool>
    var tagSupportsFavoredReferences: seq<bool>

    ghost predicate Valid()
      reads this, edgeIsFavored, edgeIsTainted
    {
      && edgeIsFavored != edgeIsTainted && edgeIsFavored.refs == edgeIsTainted.refs
      && edgeIsFavored.Valid() && edgeIsTainted.Valid()
      && |tags| == |edgeIsFavored.refs| && WellTagged(Contents())
    }

    ghost function Contents(): Tagging
      reads this, edgeIsFavored, edgeIsTainted
    {
      Tagging(tags, tagIsStrong, tagSupportsFavoredReferences, edgeIsFavored.relation, edgeIsTainted.relation)
    }

    constructor (edgeIsFavored: EdgePredicate, edgeIsTainted: EdgePredicate)
      requires edgeIsFavored != edgeIsTainted && edgeIsFavored.refs == edgeIsTainted.refs
      requires edgeIsFavored.Valid() && edgeIsTainted.Valid()
      ensures Valid() && this.edgeIsFavored == edgeIsFavored && this.edgeIsTainted == edgeIsTainted
      ensures forall a :: 0 <= a < |tags| ==> tags[a] == 0
      ensures tagIsStrong == [false] && tagSupportsFavoredReferences == [false]
    {
      this.edgeIsFavored, this.edgeIsTainted := edgeIsFavored, edgeIsTainted;
      tags := seq(|edgeIsFavored.refs|, _ => 0);
      tagIsStrong, tagSupportsFavoredReferences := [false], [false];
    }

    method RegisterTag(isStrong: bool, supports: bool) returns (newIndex: nat)
      requires Valid() && Allowed(Contents(), Register(isStrong, supports))
      modifies this
      ensures Valid() && Contents() == Apply(edgeIsFavored.refs, old(Contents()), Register(isStrong, supports))
      ensures newIndex == |old(tagIsStrong)| && newIndex != 0
      ensures tagIsStrong == old(tagIsStrong) + [isStrong] && tags == old(tags)
      ensures tagSupportsFavoredReferences == old(tagSupportsFavoredReferences) + [supports]
    {
      newIndex := |tagIsStrong|;
      tagIsStrong := tagIsStrong + [isStrong];
      tagSupportsFavoredReferences := tagSupportsFavoredReferences + [supports];
    }

    method TagAllocation(a: nat, tag: nat) returns (tagged: bool)
      requires Valid() && Allowed(Contents(), TagOne(a, tag))
      modifies this, edgeIsFavored, edgeIsTainted
      ensures Valid() && Contents() == Apply(edgeIsFavored.refs, old(Contents()), TagOne(a, tag))
      ensures tagged <==> old(tags[a]) == 0 || (tagIsStrong[tag] && !tagIsStrong[old(tags[a])])
      ensures tags == if tagged then old(tags)[a := tag] else old(tags)
      ensures tagIsStrong == old(tagIsStrong) && tagSupportsFavoredReferences == old(tagSupportsFavoredReferences)
      ensures forall s: nat, t: nat ::
                (s, t) in edgeIsFavored.relation <==>
                (s, t) in old(edgeIsFavored.relation)
                && !(tagged && old(tags[a]) != 0 && tagSupportsFavoredReferences[old(tags[a])] && t == a)
      ensures forall s: nat, t: nat ::
                (s, t) in edgeIsTainted.relation <==>
                (s, t) in old(edgeIsTainted.relation) && !(tagged && old(tags[a]) != 0 && s == a)
    {
      var oldTag := tags[a];
      if oldTag == 0 || (tagIsStrong[tag] && !tagIsStrong[oldTag]) {
        if oldTag != 0 {
          if tagSupportsFavoredReferences[oldTag] {
            ghost var favored := edgeIsFavored.relation;
            edgeIsFavored.SetAllIncoming(a, false);
            assert edgeIsFavored.relation == WithoutTarget(favored, a);
          }
          ghost var tainted := edgeIsTainted.relation;
          edgeIsTainted.SetAllOutgoing(a, false);
          assert edgeIsTainted.relation == WithoutSource(tainted, a);
        }
        tags := tags[a := tag];
        return true;
      }
      return false;
    }
  }
}

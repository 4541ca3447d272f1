/** Which tag an allocation has after a run: that of the first strong call for it, or else of the first call. */
module TagRuns {
  import opened EdgeTags
  import opened GraphEdges

  /** The call gives allocation a a tag. */
  predicate Tags(op: Op, a: nat) {
    op.TagOne? && op.allocation == a && op.tag != 0
  }

  predicate TagsStrongly(strong: seq<bool>, op: Op, a: nat) {
    Tags(op, a) && op.tag < |strong| && strong[op.tag]
  }

  ghost predicate NoneTags(ops: seq<Op>, n: nat, a: nat) {
    forall j :: 0 <= j < n && j < |ops| ==> !Tags(ops[j], a)
  }

  ghost predicate NoneTagsStrongly(strong: seq<bool>, ops: seq<Op>, n: nat, a: nat) {
    forall j :: 0 <= j < n && j < |ops| ==> !TagsStrongly(strong, ops[j], a)
  }

  /** Without a call that gives it a tag, an allocation keeps the one it has. */
  lemma {:induction false} Untouched(refs: References, t: Tagging, ops: seq<Op>, a: nat)
    requires WellTagged(t) && AllAllowed(refs, t, ops) && a < |t.tags| && NoneTags(ops, |ops|, a)
    ensures Run(refs, t, ops).tags[a] == t.tags[a]
    decreases |ops|
  {
    if ops != [] {
      assert !Tags(ops[0], a);
      Untouched(refs, Apply(refs, t, ops[0]), ops[1..], a);
    }
  }

  /** A tag stays for good unless it is weak and a strong one comes. */
  lemma {:induction false} TagStays(refs: References, t: Tagging, ops: seq<Op>, a: nat)
    requires WellTagged(t) && AllAllowed(refs, t, ops) && a < |t.tags| && t.tags[a] != 0
    requires t.strong[t.tags[a]] || NoneTagsStrongly(Run(refs, t, ops).strong, ops, |ops|, a)
    ensures Run(refs, t, ops).tags[a] == t.tags[a]
    decreases |ops|
  {
    if ops != [] {
      var t' := Apply(refs, t, ops[0]);
      if !t.strong[t.tags[a]] {
        assert !TagsStrongly(Run(refs, t, ops).strong, ops[0], a);
      }
      assert t'.tags[a] == t.tags[a];
      TagStays(refs, t', ops[1..], a);
    }
  }

  /** The first strong tag that is given replaces what there is, and stays. */
  lemma {:induction false} FirstStrongTagWins(refs: References, t: Tagging, ops: seq<Op>, a: nat, i: nat)
    requires WellTagged(t) && AllAllowed(refs, t, ops) && a < |t.tags| && !t.strong[t.tags[a]]
    requires i < |ops| && TagsStrongly(Run(refs, t, ops).strong, ops[i], a)
    requires NoneTagsStrongly(Run(refs, t, ops).strong, ops, i, a)
    ensures Run(refs, t, ops).tags[a] == ops[i].tag
    decreases i
  {
    var t' := Apply(refs, t, ops[0]);
    if i == 0 {
      assert t'.tags[a] == ops[0].tag;
      TagStays(refs, t', ops[1..], a);
    } else {
      assert !TagsStrongly(Run(refs, t, ops).strong, ops[0], a);
      assert ops[1..][i - 1] == ops[i];
      FirstStrongTagWins(refs, t', ops[1..], a, i - 1);
    }
  }

  /** Without a strong tag, the first tag that is given to an allocation without one stays. */
  lemma {:induction false} FirstTagStays(refs: References, t: Tagging, ops: seq<Op>, a: nat, i: nat)
    requires WellTagged(t) && AllAllowed(refs, t, ops) && a < |t.tags| && t.tags[a] == 0
    requires i < |ops| && Tags(ops[i], a) && NoneTags(ops, i, a)
    requires NoneTagsStrongly(Run(refs, t, ops).strong, ops, |ops|, a)
    ensures Run(refs, t, ops).tags[a] == ops[i].tag
    decreases i
  {
    var t' := Apply(refs, t, ops[0]);
    if i == 0 {
      assert t'.tags[a] == ops[0].tag;
      TagStays(refs, t', ops[1..], a);
    } else {
      assert !Tags(ops[0], a);
      assert ops[1..][i - 1] == ops[i];
      FirstTagStays(refs, t', ops[1..], a, i - 1);
    }
  }
}

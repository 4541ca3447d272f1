/**
 A set of allocation indices kept as a row of words of 64 bits, and the iterator over it.  A word is modelled
 as the list of its bits, lowest first, so that shifting right drops bits from the front.
 */
module AllocationSet {

  const BITS: nat := 64

  type Word = seq<bool>

  ghost predicate Whole(words: seq<Word>) {
    forall w :: 0 <= w < |words| ==> |words[w]| == BITS
  }

  predicate Bit(words: seq<Word>, i: nat) {
    i / BITS < |words| && i % BITS < |words[i / BITS]| && words[i / BITS][i % BITS]
  }

  ghost function Elements(words: seq<Word>): set<nat> {
    set i: nat | i < BITS * |words| && Bit(words, i)
  }

  /** r is the least member from startFrom on. */
  ghost predicate IsNext(members: set<nat>, startFrom: nat, r: nat) {
    r in members && startFrom <= r && forall i :: i in members && startFrom <= i ==> r <= i
  }

  function WordsFor(numAllocations: nat): nat {
    (numAllocations + BITS - 1) / BITS
  }

  /** A start up to the number of allocations is in some word unless it is that number, and that fills the words. */
  lemma StartInWordsIff(numAllocations: nat, startFrom: nat)
    requires startFrom <= numAllocations
    ensures startFrom / BITS < WordsFor(numAllocations) <==> startFrom < numAllocations || numAllocations % BITS != 0
  {
    var words, part := numAllocations / BITS, numAllocations % BITS;
    assert numAllocations == words * BITS + part;
    assert WordsFor(numAllocations) == if part == 0 then words else words + 1;
    assert startFrom == startFrom / BITS * BITS + startFrom % BITS;
  }

  class Set {
    const numAllocations: nat
    const numWords: nat
    var words: seq<Word>

    ghost predicate Valid()
      reads this
    {
      numWords == WordsFor(numAllocations) && |words| == numWords && Whole(words)
    }

    ghost function Contents(): set<nat>
      reads this
    {
      Elements(words)
    }

    constructor (numAllocations: nat)
      ensures Valid() && this.numAllocations == numAllocations && Contents() == {}
    {
      this.numAllocations := numAllocations;
      numWords := WordsFor(numAllocations);
      words := seq(WordsFor(numAllocations), _ => seq(BITS, _ => false));
    }

    method Clear()
      requires Valid()
      modifies this
      ensures Valid() && Contents() == {}
    {
      words := seq(numWords, _ => seq(BITS, _ => false));
    }

    method Add(index: nat)
      requires Valid() && index < numAllocations
      modifies this
      ensures Valid() && Contents() == old(Contents()) + {index}
    {
      ghost var before := words;
      var w, b := index / BITS, index % BITS;
      words := words[w := words[w][b := true]];
      forall i: nat ensures Bit(words, i) <==> Bit(before, i) || i == index {
        SamePlace(i, index);
      }
    }

    method Has(index: nat) returns (r: bool)
      requires Valid() && index < numAllocations
      ensures r == (index in Contents())
    {
      r := words[index / BITS][index % BITS];
    }

    /**
     The least member from startFrom on, or the number of allocations.  The first word is read unchecked: unless
     startFrom falls in one of the words, what is read is not part of the set, and nothing is defined.
     */
    method NextUsed(startFrom: nat) returns (defined: bool, r: nat)
      requires Valid()
      ensures defined <==> startFrom / BITS < numWords
      ensures defined ==>
        IsNext(Contents(), startFrom, r) || (r == numAllocations && forall i :: i in Contents() ==> i < startFrom)
    {
      if startFrom / BITS >= numWords {
        return false, 0;
      }
      var found: bool;
      found, r := FindFrom(words, startFrom, numAllocations);
      defined := true;
    }

    method Assign(other: Set)
      requires Valid() && other.Valid() && other.numWords == numWords
      modifies this
      ensures Valid() && Contents() == old(other.Contents())
    {
      var w := 0;
      ghost var from := other.words;
      while w < numWords
        invariant w <= numWords && Valid() && (other != this ==> other.words == from) && |from| == numWords
        invariant words[..w] == from[..w] && words[w..] == old(words)[w..]
      {
        words := words[w := other.words[w]];
        w := w + 1;
      }
      assert words == from;
    }

    method Subtract(other: Set)
      requires Valid() && other.Valid() && other.numWords == numWords
      modifies this
      ensures Valid() && Contents() == old(Contents()) - old(other.Contents())
    {
      var w := 0;
      ghost var minus := other.words;
      while w < numWords
        invariant w <= numWords && Valid()
        invariant forall i: nat :: i / BITS < w ==> (Bit(words, i) <==> Bit(old(words), i) && !Bit(minus, i))
        invariant words[w..] == old(words)[w..] && |other.words| == numWords && other.words[w..] == minus[w..]
      {
        ghost var before := words;
        assert other.words[w] == minus[w] && before[w] == old(words)[w];
        var bits := AndNot(words[w], other.words[w]);
        words := words[w := bits];
        w := w + 1;
      }
      forall i: nat ensures Bit(words, i) <==> Bit(old(words), i) && !Bit(minus, i) {}
    }
  }

  lemma SamePlace(i: nat, j: nat)
    ensures i / BITS == j / BITS && i % BITS == j % BITS <==> i == j
  {
  }

  method AndNot(a: Word, b: Word) returns (r: Word)
    requires |a| == |b|
    ensures |r| == |a| && forall k :: 0 <= k < |a| ==> r[k] == (a[k] && !b[k])
  {
    r := seq(|a|, k requires 0 <= k < |a| && |a| == |b| => a[k] && !b[k]);
  }

  predicate NonZero(w: Word) {
    exists k :: 0 <= k < |w| && w[k]
  }

  /** Whether there is a member from startFrom on, and the least one. */
  method FindFrom(words: seq<Word>, startFrom: nat, none: nat) returns (found: bool, r: nat)
    requires Whole(words) && startFrom / BITS < |words|
    ensures found ==> IsNext(Elements(words), startFrom, r)
    ensures !found ==> r == none && forall i :: i in Elements(words) ==> i < startFrom
  {
    var w := startFrom / BITS;
    var word := words[w][startFrom % BITS..];
    r := startFrom;
    while !NonZero(word)
      invariant w < |words| && r / BITS == w && startFrom <= r && word == words[w][r % BITS..]
      invariant forall i: nat :: startFrom <= i < r ==> !Bit(words, i)
      decreases |words| - w
    {
      forall i: nat | startFrom <= i && i / BITS <= w ensures !Bit(words, i) {
        if i >= r && i / BITS == w { assert word[i % BITS - r % BITS] == words[w][i % BITS]; }
      }
      w := w + 1;
      if w == |words| {
        return false, none;
      }
      word := words[w];
      r := w * BITS;
    }
    while !word[0]
      invariant w < |words| && r / BITS == w && startFrom <= r && word == words[w][r % BITS..] && NonZero(word)
      invariant forall i: nat :: startFrom <= i < r ==> !Bit(words, i)
      decreases |word|
    {
      assert !Bit(words, r);
      word := word[1..];
      r := r + 1;
    }
    found := true;
    assert Bit(words, r);
  }

  /** Enumerates the members of a set. */
  class Derived {
    const numAllocations: nat
    const derived: Set
    var index: nat

    ghost predicate Valid()
      reads this, derived
    {
      && derived.Valid() && derived.numAllocations == numAllocations && index <= numAllocations
      && forall i :: i in derived.Contents() ==> i < numAllocations
    }

    constructor (numAllocations: nat, derived: Set)
      requires derived.Valid() && derived.numAllocations == numAllocations
      requires forall i :: i in derived.Contents() ==> i < numAllocations
      ensures Valid() && index == 0 && this.derived == derived && this.numAllocations == numAllocations
    {
      this.numAllocations, this.derived, index := numAllocations, derived, 0;
    }

    /** The next member, or the number of allocations if none is left; past the last word nothing is defined. */
    method Next() returns (defined: bool, next: nat)
      requires Valid()
      modifies this`index
      ensures Valid() && (defined <==> old(index) < numAllocations || numAllocations % BITS != 0)
      ensures defined ==>
        if next == numAllocations then index == next && forall i :: i in derived.Contents() ==> i < old(index)
        else IsNext(derived.Contents(), old(index), next) && index == next + 1
    {
      StartInWordsIff(numAllocations, index);
      defined, next := derived.NextUsed(index);
      if defined {
        index := next;
        if index != numAllocations {
          index := index + 1;
        }
      }
    }
  }

  /** Of 64 allocations, which fill one word, only the last is a member; after it the iterator reads past the word. */
  method NextAfterLastOfWord() returns (first: nat, defined: bool)
    ensures first == 63 && !defined
  {
    var members := new Set(64);
    members.Add(63);
    assert 63 in members.Contents() && members.Contents() == {63};
    var d := new Derived(64, members);
    defined, first := d.Next();
    assert defined && 63 in d.derived.Contents() && first == 63;
    var none;
    defined, none := d.Next();
  }
}

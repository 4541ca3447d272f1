/**
 A view of the bytes of one allocation at a time.  The bytes are used in place if they are in one range, and are
 otherwise gathered in a buffer from all ranges that the allocation reaches into.
 */
module ContiguousImage {
  import opened Basics
  import opened RangeMaps
  import opened RangeLookup
  import opened AddressMap
  import Allocations = AllocationDirectory

  // ---------------------------------------------------------------------------------------------
  // What the view should show
  // ---------------------------------------------------------------------------------------------

  /** There is an image for the byte at a. */
  ghost predicate Imaged(m: VirtualAddressMap, a: nat) {
    exists i: nat :: Holds(m, i, a, 1)
  }

  /** b is the byte at a, or 0 if there is no image for it. */
  ghost predicate IsByte(m: VirtualAddressMap, a: nat, b: Byte) {
    if Imaged(m, a) then ByteAt(m, a, b) else b == 0
  }

  lemma IsByteOnce(m: VirtualAddressMap, a: nat, b: Byte, b': Byte)
    requires m.Sound() && IsByte(m, a, b) && IsByte(m, a, b')
    ensures b == b'
  {
    if Imaged(m, a) { ByteOnce(m, a, b, b'); }
  }

  ghost predicate RightAt(m: VirtualAddressMap, bytes: seq<Byte>, address: nat, k: int) {
    0 <= k < |bytes| ==> IsByte(m, address + k, bytes[k])
  }

  /** The bytes are those from address on, with 0 for each one that has no image. */
  ghost predicate Right(m: VirtualAddressMap, bytes: seq<Byte>, address: nat) {
    forall k :: RightAt(m, bytes, address, k)
  }

  // ---------------------------------------------------------------------------------------------
  // Gathering
  // ---------------------------------------------------------------------------------------------

  /** All ranges up to position it that have an image end at or before a. */
  ghost predicate DoneUpTo(m: VirtualAddressMap, it: int, a: nat) {
    forall i: nat :: DoneAt(m, i, it, a)
  }

  ghost predicate DoneAt(m: VirtualAddressMap, i: nat, it: int, a: nat) {
    i < |m.ranges| && i <= it && m.Image(i).Some? ==> m.ranges[i].limit <= a
  }

  method CopyFrom(m: VirtualAddressMap, start: int, n: nat, buffer: array<Byte>, at: nat)
    requires at + n <= buffer.Length
    modifies buffer
    ensures forall k :: 0 <= k < at ==> buffer[k] == old(buffer[k])
    ensures forall k :: at <= k < at + n ==> buffer[k] == m.file(start + (k - at))
  {
    forall k | at <= k < at + n {
      buffer[k] := m.file(start + (k - at));
    }
  }

  method FillZero(buffer: array<Byte>, at: nat, n: nat)
    requires at + n <= buffer.Length
    modifies buffer
    ensures forall k :: 0 <= k < at ==> buffer[k] == old(buffer[k])
    ensures forall k :: at <= k < at + n ==> buffer[k] == 0
  {
    forall k | at <= k < at + n {
      buffer[k] := 0;
    }
  }

  /** Nothing has an image between the ranges that are done with and where the next one begins. */
  lemma GapIsEmpty(m: VirtualAddressMap, it: int, done: nat, a: nat)
    requires m.Sound() && DoneUpTo(m, it, done) && done <= a
    requires it + 1 < |m.ranges| && 0 <= it + 1 ==> a < m.ranges[it + 1].Base()
    requires -1 <= it
    ensures !Imaged(m, a)
  {
    forall i: nat ensures !Holds(m, i, a, 1) {
      assert DoneAt(m, i, it, done);
      assert Apart(m.ranges, it + 1, i);
    }
  }

  lemma InRangeIsByte(m: VirtualAddressMap, i: nat, a: nat)
    requires m.Sound() && Holds(m, i, a, 1)
    ensures IsByte(m, a, m.file(m.Image(i).value + (a - m.ranges[i].Base())))
  {
    HeldByte(m, i, a);
  }

  /** Bytes that were right stay right, and the next ones are too. */
  lemma MoreAreRight(m: VirtualAddressMap, bytes: seq<Byte>, more: seq<Byte>, address: nat)
    requires Right(m, bytes, address) && |bytes| <= |more|
    requires forall k :: 0 <= k < |bytes| ==> more[k] == bytes[k]
    requires forall k :: |bytes| <= k < |more| ==> IsByte(m, address + k, more[k])
    ensures Right(m, more, address)
  {
    forall k ensures RightAt(m, more, address, k) {
      assert RightAt(m, bytes, address, k);
    }
  }

  /** Everything up to copiedTo is in the buffer, which is where range last, at or before position it, ends. */
  ghost predicate Gathered(m: VirtualAddressMap, bytes: seq<Byte>, address: nat, copiedTo: nat, last: nat, it: nat) {
    && last <= it && last < |m.ranges| && m.ranges[last].limit == copiedTo
    && address <= copiedTo <= address + |bytes|
    && Right(m, bytes[..copiedTo - address], address) && DoneUpTo(m, it, copiedTo)
  }

  lemma SkipKeeps(m: VirtualAddressMap, bytes: seq<Byte>, address: nat, copiedTo: nat, last: nat, it: nat)
    requires Gathered(m, bytes, address, copiedTo, last, it) && it + 1 < |m.ranges| && m.Image(it + 1).None?
    ensures Gathered(m, bytes, address, copiedTo, last, it + 1)
  {
    var next := it + 1;
    forall i: nat ensures DoneAt(m, i, next, copiedTo) { assert DoneAt(m, i, it, copiedTo); }
  }

  /** Takes the bytes of the next range that has an image, after zeros for the addresses before it. */
  method TakeRange(m: VirtualAddressMap, buffer: array<Byte>, address: nat, limit: nat, copiedTo0: nat,
                   ghost last: nat, it: nat)
    returns (copiedTo: nat)
    requires m.Sound() && it + 1 < |m.ranges| && m.Image(it + 1).Some? && m.ranges[it + 1].Base() <= limit
    requires copiedTo0 < limit && limit - address <= buffer.Length
    requires Gathered(m, buffer[..], address, copiedTo0, last, it)
    modifies buffer
    ensures copiedTo0 < copiedTo <= limit && Right(m, buffer[..copiedTo - address], address)
    ensures copiedTo < limit ==> Gathered(m, buffer[..], address, copiedTo, it + 1, it + 1)
  {
    copiedTo := copiedTo0;
    var image, base, rangeLimit := m.Image(it + 1).value, m.ranges[it + 1].Base(), m.ranges[it + 1].limit;
    assert Apart(m.ranges, last, it + 1) && NonEmptyAt(m.ranges, it + 1);
    ghost var before := buffer[..copiedTo0 - address];
    if base > copiedTo {
      FillZero(buffer, copiedTo - address, base - copiedTo);
      forall k | copiedTo0 - address <= k < base - address ensures IsByte(m, address + k, buffer[k]) {
        GapIsEmpty(m, it, copiedTo0, address + k);
      }
      copiedTo := base;
    }
    MoreAreRight(m, before, buffer[..copiedTo - address], address);
    before := buffer[..copiedTo - address];
    ghost var from := copiedTo;
    var to := if rangeLimit >= limit then limit else rangeLimit;
    CopyFrom(m, image + (copiedTo - base), to - copiedTo, buffer, copiedTo - address);
    forall k | from - address <= k < to - address ensures IsByte(m, address + k, buffer[k]) {
      assert Holds(m, it + 1, address + k, 1);
      InRangeIsByte(m, it + 1, address + k);
    }
    copiedTo := to;
    MoreAreRight(m, before, buffer[..copiedTo - address], address);
    if copiedTo < limit {
      ghost var next := it + 1;
      forall i: nat ensures DoneAt(m, i, next, copiedTo) { assert Apart(m.ranges, i, next); }
    }
  }

  /** Zeros for the addresses after the last range that reaches below the limit. */
  method ZeroRest(m: VirtualAddressMap, buffer: array<Byte>, address: nat, limit: nat, copiedTo: nat, ghost last: nat,
                  ghost it: nat)
    requires m.Sound() && (it + 1 == |m.ranges| || (it + 1 < |m.ranges| && limit < m.ranges[it + 1].Base()))
    requires copiedTo < limit && limit - address <= buffer.Length
    requires Gathered(m, buffer[..], address, copiedTo, last, it)
    modifies buffer
    ensures Right(m, buffer[..limit - address], address)
  {
    ghost var before := buffer[..copiedTo - address];
    FillZero(buffer, copiedTo - address, limit - copiedTo);
    forall k | copiedTo - address <= k < limit - address ensures IsByte(m, address + k, buffer[k]) {
      GapIsEmpty(m, it, copiedTo, address + k);
    }
    MoreAreRight(m, before, buffer[..limit - address], address);
  }

  /** Gathers the bytes from address to limit, given that the range at position it holds the first of them. */
  method Gather(m: VirtualAddressMap, buffer: array<Byte>, address: nat, limit: nat, it: nat)
    returns (position: nat, image: Option<int>, base: nat, rangeLimit: nat)
    requires m.Sound() && Holds(m, it, address, 1) && m.ranges[it].limit < limit && limit - address <= buffer.Length
    modifies buffer
    ensures Right(m, buffer[..limit - address], address)
    ensures CacheOk(m, Cache(position, image, base, rangeLimit))
  {
    assert NonEmptyAt(m.ranges, it);
    position, image, base, rangeLimit := it, m.Image(it), m.ranges[it].Base(), m.ranges[it].limit;
    CopyFrom(m, image.value + (address - base), rangeLimit - address, buffer, 0);
    var copiedTo := rangeLimit;
    ghost var last := it;
    FirstPartIsRight(m, buffer[..], address, it);
    while copiedTo < limit
      invariant address <= copiedTo <= limit && CacheOk(m, Cache(position, image, base, rangeLimit))
      invariant position < |m.ranges|
      invariant Right(m, buffer[..copiedTo - address], address)
      invariant copiedTo < limit ==> Gathered(m, buffer[..], address, copiedTo, last, position)
      decreases |m.ranges| - position
    {
      image, base, rangeLimit := None, 0, 0;
      position := position + 1;
      if position == |m.ranges| {
        break;
      }
      image := m.Image(position);
      if image.None? {
        SkipKeeps(m, buffer[..], address, copiedTo, last, position - 1);
        continue;
      }
      assert NonEmptyAt(m.ranges, position);
      base, rangeLimit := m.ranges[position].Base(), m.ranges[position].limit;
      if base > limit {
        break;
      }
      copiedTo := TakeRange(m, buffer, address, limit, copiedTo, last, position - 1);
      last := position;
    }
    if copiedTo < limit {
      ZeroRest(m, buffer, address, limit, copiedTo, last, position - 1);
    }
  }

  lemma FirstPartIsRight(m: VirtualAddressMap, bytes: seq<Byte>, address: nat, it: nat)
    requires m.Sound() && Holds(m, it, address, 1) && m.ranges[it].limit - address <= |bytes|
    requires forall k :: 0 <= k < m.ranges[it].limit - address ==>
               bytes[k] == m.file(m.Image(it).value + (address - m.ranges[it].Base()) + k)
    ensures Gathered(m, bytes, address, m.ranges[it].limit, it, it)
  {
    var n := m.ranges[it].limit - address;
    forall k ensures RightAt(m, bytes[..n], address, k) {
      if 0 <= k < n {
        assert Holds(m, it, address + k, 1);
        InRangeIsByte(m, it, address + k);
      }
    }
    forall i: nat ensures DoneAt(m, i, it, m.ranges[it].limit) { assert Apart(m.ranges, i, it); }
  }

  // ---------------------------------------------------------------------------------------------
  // The view
  // ---------------------------------------------------------------------------------------------

  /** Where the view begins: at the start of the buffer, or at a place in the file. */
  datatype Place = InBuffer | InFile(start: int)

  function BytesAt(m: VirtualAddressMap, buffer: seq<Byte>, place: Place, n: nat): (bytes: seq<Byte>)
    requires n <= |buffer|
    ensures |bytes| == n
  {
    match place
    case InBuffer => buffer[..n]
    case InFile(start) => m.BytesFrom(start, n)
  }

  /** What is left of n after whole words. */
  function Rest(n: nat, word: nat): nat
    requires word in {4, 8}
  {
    if word == 8 then n % 8 else n % 4
  }

  /** Whole words only, and those only at an address that is a multiple of the size of a word. */
  function WordBytes(address: nat, size: nat, word: nat): (r: nat)
    requires word in {4, 8}
    ensures Rest(r, word) == 0 && r <= size
    ensures if Rest(address, word) == 0 then size < r + word else r == 0
  {
    if Rest(address, word) == 0 then size - Rest(size, word) else 0
  }

  /** Allocations that fit in the address space, none larger than max. */
  ghost predicate Suitable(al: seq<Allocations.Allocation>, max: nat, modulus: nat) {
    forall i :: 0 <= i < |al| ==> al[i].size <= max && al[i].Limit() < modulus
  }

  lemma BytesInFileAreRight(m: VirtualAddressMap, i: nat, address: nat, n: nat)
    requires m.Sound() && i < |m.ranges| && m.Image(i).Some?
    requires m.ranges[i].Base() <= address && address + n <= m.ranges[i].limit
    ensures Right(m, m.BytesFrom(m.Image(i).value + (address - m.ranges[i].Base()), n), address)
  {
    var bytes := m.BytesFrom(m.Image(i).value + (address - m.ranges[i].Base()), n);
    forall k ensures RightAt(m, bytes, address, k) {
      if 0 <= k < n {
        assert Holds(m, i, address + k, 1);
        InRangeIsByte(m, i, address + k);
      }
    }
  }

  class ContiguousImage {
    const m: VirtualAddressMap
    const allocations: seq<Allocations.Allocation>
    const word: nat
    const buffer: array<Byte>
    var index: nat
    var firstChar: Place
    var size: nat
    var firstOffset: Place
    var offsetBytes: nat
    var position: nat
    var regionImage: Option<int>
    var regionBase: nat
    var regionLimit: nat

    /** The allocation shown has an image for its first byte. */
    ghost predicate Showable(i: nat) {
      i < |allocations| && Imaged(m, allocations[i].address)
    }

    /** The view is that of the whole allocation, and the words are the whole words of it. */
    ghost predicate Shows(i: nat)
      requires i < |allocations| && word in {4, 8}
      reads this, buffer
    {
      && size == allocations[i].size && size <= buffer.Length
      && Right(m, BytesAt(m, buffer[..], firstChar, size), allocations[i].address)
      && offsetBytes == WordBytes(allocations[i].address, size, word)
      && (offsetBytes > 0 ==> firstOffset == firstChar)
    }

    ghost predicate Valid()
      reads this, buffer
    {
      && m.Sound() && word in {4, 8} && Suitable(allocations, buffer.Length, m.modulus)
      && CacheOk(m, Cache(position, regionImage, regionBase, regionLimit))
      && index <= |allocations|
      && if Showable(index) then Shows(index) else firstChar == InBuffer && offsetBytes == 0
    }

    constructor (m: VirtualAddressMap, allocations: seq<Allocations.Allocation>, maxSize: nat, word: nat)
      requires m.Sound() && word in {4, 8} && Suitable(allocations, maxSize, m.modulus)
      ensures Valid() && index == |allocations| && fresh(buffer)
      ensures this.m == m && this.allocations == allocations && this.word == word && size == 0
    {
      this.m, this.allocations, this.word := m, allocations, word;
      buffer := new Byte[(maxSize / word + 2) * word](_ => 0);
      index := |allocations|;
      firstChar, size, firstOffset, offsetBytes := InBuffer, 0, InBuffer, 0;
      position, regionImage, regionBase, regionLimit := |m.ranges|, None, 0, 0;
      new;
      if word == 8 { assert maxSize <= (maxSize / 8 + 2) * 8; } else { assert maxSize <= (maxSize / 4 + 2) * 4; }
    }

    /** Looks up the range that contains address, unless it is the one that was used last. */
    method SeekRegion(address: nat) returns (found: bool)
      requires m.Sound() && CacheOk(m, Cache(position, regionImage, regionBase, regionLimit))
      modifies this`position, this`regionImage, this`regionBase, this`regionLimit
      ensures CacheOk(m, Cache(position, regionImage, regionBase, regionLimit))
      ensures found <==> Imaged(m, address)
      ensures found ==> regionImage.Some? && Holds(m, position, address, 1)
    {
      if regionBase > address || address >= regionLimit {
        regionImage, regionBase, regionLimit := None, 0, 0;
        position := Find(m.ranges, address);
        FindIsExact(m.ranges, address);
        if position != |m.ranges| {
          regionImage := m.Image(position);
        }
        if regionImage.None? {
          NothingHeld(m, position, address);
          return false;
        }
        assert NonEmptyAt(m.ranges, position);
        regionBase, regionLimit := m.ranges[position].Base(), m.ranges[position].limit;
      }
      assert Holds(m, position, address, 1);
      found := true;
    }

    /**
     Places the view on the bytes from address on, in the file or else in the
     buffer, if the first byte has an image.
     */
    method LoadBytes(address: nat, newSize: nat) returns (found: bool)
      requires m.Sound() && CacheOk(m, Cache(position, regionImage, regionBase, regionLimit))
      requires newSize <= buffer.Length && address + newSize < m.modulus && firstChar == InBuffer
      modifies this`position, this`regionImage, this`regionBase, this`regionLimit, this`firstChar, this`size, buffer
      ensures CacheOk(m, Cache(position, regionImage, regionBase, regionLimit))
      ensures found <==> Imaged(m, address)
      ensures found ==> size == newSize && Right(m, BytesAt(m, buffer[..], firstChar, newSize), address)
      ensures !found ==> size == old(size) && firstChar == InBuffer
    {
      found := SeekRegion(address);
      if found {
        var limit := address + newSize;
        if limit <= regionLimit {
          firstChar := InFile(regionImage.value + (address - regionBase));
          BytesInFileAreRight(m, position, address, newSize);
        } else {
          position, regionImage, regionBase, regionLimit := Gather(m, buffer, address, limit, position);
          assert buffer[..][..newSize] == buffer[..newSize];
        }
        size := newSize;
      }
    }

    /** Shows the allocation with the given index; whatever was shown before does not matter. */
    method SetIndex(index0: nat)
      requires Valid()
      modifies this, buffer
      ensures Valid() && index == if index0 > |allocations| then |allocations| else index0
      ensures Showable(index) ==> Shows(index)
      ensures !Showable(index) ==> size == old(size) && firstChar == InBuffer && offsetBytes == 0
    {
      var newIndex := if index0 > |allocations| then |allocations| else index0;
      if newIndex == index {
        return;
      }
      index := newIndex;
      firstChar, firstOffset, offsetBytes := InBuffer, InBuffer, 0;
      if newIndex < |allocations| {
        var address, newSize := allocations[newIndex].address, allocations[newIndex].size;
        var found := LoadBytes(address, newSize);
        if !found {
          return;
        }
        if size != 0 && Rest(address, word) == 0 {
          firstOffset := firstChar;
          offsetBytes := size - Rest(size, word);
        }
      }
    }
  }
}

/**
 The map from virtual addresses to the bytes of a file, and the reader that remembers the last range it used.
 What a read returns depends on the map only, never on the reads made before.
 */
module AddressMap {
  import opened Basics
  import opened RangeMaps
  import opened RangeLookup

  type Byte = bv8

  /** The attributes of a range of which the bytes, if present, are in the file. */
  datatype Attributes = Attributes(adjustToFileOffset: nat, mapped: bool, truncated: bool)

  type Range = Entry<Attributes>

  /** The ranges, the bytes of the file, and one more than the largest address. */
  datatype VirtualAddressMap = VirtualAddressMap(ranges: seq<Range>, file: int -> Byte, modulus: nat) {

    /** No range reaches the end of the address space, so that each limit is an address. */
    ghost predicate Sound() {
      modulus > 256 && RangeMaps.Valid(ranges) && forall i :: Fits(i)
    }

    ghost predicate Fits(i: int) {
      0 <= i < |ranges| ==> ranges[i].limit < modulus && ranges[i].value.adjustToFileOffset < modulus
    }

    /** The sum of two addresses, which wraps. */
    function Plus(a: int, b: int): int { if a + b < modulus then a + b else a + b - modulus }

    /** The place in the file of the first byte of range i, if its image is in the file. */
    function Image(i: nat): Option<int>
      requires i < |ranges|
    {
      if ranges[i].value.mapped && !ranges[i].value.truncated then
        Some(Plus(ranges[i].Base(), ranges[i].value.adjustToFileOffset))
      else None
    }

    function BytesFrom(start: int, n: nat): (bytes: seq<Byte>)
      ensures |bytes| == n
    {
      seq(n, k requires 0 <= k < n => file(start + k))
    }
  }

  /** The number that the bytes represent, the least significant byte first. */
  function LittleEndian(bytes: seq<Byte>): nat {
    if bytes == [] then 0 else (bytes[0] as nat) + 256 * LittleEndian(bytes[1..])
  }

  /** The signed number with the same 32 bits. */
  function Signed(v: nat): int { if v < 0x8000_0000 then v else v - 0x1_0000_0000 }

  // ---------------------------------------------------------------------------------------------
  // Numbers by their digits
  // ---------------------------------------------------------------------------------------------

  function PowerOf256(n: nat): nat { if n == 0 then 1 else 256 * PowerOf256(n - 1) }

  /** Digit k of v to the base 256, counted from the least significant one. */
  function Digit(v: nat, k: nat): (d: nat)
    ensures d < 256
    decreases k
  {
    if k == 0 then v % 256 else Digit(v / 256, k - 1)
  }

  lemma {:induction false} LittleEndianDigits(bytes: seq<Byte>)
    ensures LittleEndian(bytes) < PowerOf256(|bytes|)
    ensures forall k :: 0 <= k < |bytes| ==> Digit(LittleEndian(bytes), k) == bytes[k] as nat
    decreases |bytes|
  {
    if bytes != [] {
      var v, rest := LittleEndian(bytes), LittleEndian(bytes[1..]);
      LittleEndianDigits(bytes[1..]);
      assert v % 256 == bytes[0] as nat && v / 256 == rest;
      forall k | 0 <= k < |bytes| ensures Digit(v, k) == bytes[k] as nat {
        if k > 0 { assert Digit(v, k) == Digit(rest, k - 1) == bytes[1..][k - 1] as nat; }
      }
    }
  }

  /** A number of n digits is determined by them. */
  lemma {:induction false} DigitsDecide(n: nat, v: nat, w: nat)
    requires v < PowerOf256(n) && w < PowerOf256(n) && forall k: nat :: k < n ==> Digit(v, k) == Digit(w, k)
    ensures v == w
    decreases n
  {
    if n > 0 {
      assert Digit(v, 0) == Digit(w, 0);
      forall k: nat | k < n - 1 ensures Digit(v / 256, k) == Digit(w / 256, k) {
        var more := k + 1;
        assert Digit(v, more) == Digit(w, more);
      }
      DigitsDecide(n - 1, v / 256, w / 256);
    }
  }

  /** The signed number is in range and differs from the unsigned one by a multiple of 2 to the 32nd. */
  lemma SignedIsCongruent(v: nat)
    requires v < 0x1_0000_0000
    ensures -0x8000_0000 <= Signed(v) < 0x8000_0000 && (Signed(v) - v) % 0x1_0000_0000 == 0
  {
  }

  // ---------------------------------------------------------------------------------------------
  // Reading without a cache
  // ---------------------------------------------------------------------------------------------

  /** Range i has an image and holds all n bytes from address on. */
  ghost predicate Holds(m: VirtualAddressMap, i: nat, address: nat, n: nat) {
    && i < |m.ranges| && m.ranges[i].value.mapped && !m.ranges[i].value.truncated
    && m.ranges[i].Base() <= address && address + n <= m.ranges[i].limit
  }

  /** What a read of n bytes finds: nothing unless they all lie in one range that has an image. */
  ghost predicate Finds(m: VirtualAddressMap, address: nat, n: nat, r: Option<seq<Byte>>) {
    match r
    case None => address + n >= m.modulus || forall i: nat :: !Holds(m, i, address, n)
    case Some(bytes) =>
      address + n < m.modulus &&
      exists i: nat ::
        Holds(m, i, address, n) && bytes == m.BytesFrom(m.Image(i).value + (address - m.ranges[i].Base()), n)
  }

  lemma HoldersAreEqual(m: VirtualAddressMap, i: nat, j: nat, address: nat, n: nat)
    requires m.Sound() && n > 0 && Holds(m, i, address, n) && Holds(m, j, address, n)
    ensures i == j
  {
    assert Apart(m.ranges, i, j) && Apart(m.ranges, j, i);
  }

  /** There is exactly one thing that a read finds. */
  lemma FindsOnce(m: VirtualAddressMap, address: nat, n: nat, r: Option<seq<Byte>>, r': Option<seq<Byte>>)
    requires m.Sound() && n > 0 && Finds(m, address, n, r) && Finds(m, address, n, r')
    ensures r == r'
  {
    if r.Some? && r'.Some? {
      var i: nat :| Holds(m, i, address, n)
                    && r.value == m.BytesFrom(m.Image(i).value + (address - m.ranges[i].Base()), n);
      var j: nat :| Holds(m, j, address, n)
                    && r'.value == m.BytesFrom(m.Image(j).value + (address - m.ranges[j].Base()), n);
      HoldersAreEqual(m, i, j, address, n);
    }
  }

  /** The byte mapped at a, which range i holds: its place in the file wraps with the base of the range, not with a. */
  ghost predicate ByteIn(m: VirtualAddressMap, i: nat, a: nat, b: Byte) {
    && Holds(m, i, a, 1)
    && var base, sum := m.ranges[i].Base(), m.ranges[i].Base() + m.ranges[i].value.adjustToFileOffset;
       b == m.file((if sum < m.modulus then sum else sum - m.modulus) + (a - base))
  }

  ghost predicate ByteAt(m: VirtualAddressMap, a: nat, b: Byte) {
    exists i: nat :: ByteIn(m, i, a, b)
  }

  lemma HeldByte(m: VirtualAddressMap, i: nat, a: nat)
    requires m.Sound() && Holds(m, i, a, 1)
    ensures ByteAt(m, a, m.file(m.Image(i).value + (a - m.ranges[i].Base())))
  {
    assert ByteIn(m, i, a, m.file(m.Image(i).value + (a - m.ranges[i].Base())));
  }

  lemma ByteOnce(m: VirtualAddressMap, a: nat, b: Byte, b': Byte)
    requires m.Sound() && ByteAt(m, a, b) && ByteAt(m, a, b')
    ensures b == b'
  {
    var i: nat :| ByteIn(m, i, a, b);
    var j: nat :| ByteIn(m, j, a, b');
    HoldersAreEqual(m, i, j, a, 1);
  }

  /** Each byte of what a read finds is the byte at its own address. */
  lemma FoundBytesAreMapped(m: VirtualAddressMap, address: nat, n: nat, bytes: seq<Byte>, k: nat)
    requires m.Sound() && Finds(m, address, n, Some(bytes)) && k < n
    ensures |bytes| == n && ByteAt(m, address + k, bytes[k])
  {
    var i: nat :| Holds(m, i, address, n) && bytes == m.BytesFrom(m.Image(i).value + (address - m.ranges[i].Base()), n);
    assert Holds(m, i, address + k, 1);
    HeldByte(m, i, address + k);
  }

  /** v is the number of n bytes at address: below 256 to the nth, and digit k is the byte mapped at address + k. */
  ghost predicate IsNumberAt(m: VirtualAddressMap, address: nat, n: nat, v: nat) {
    v < PowerOf256(n) && forall k: nat :: DigitAt(m, address, n, v, k)
  }

  ghost predicate DigitAt(m: VirtualAddressMap, address: nat, n: nat, v: nat, k: nat) {
    k < n ==> exists b: Byte :: IsDigit(m, address, v, k, b)
  }

  ghost predicate IsDigit(m: VirtualAddressMap, address: nat, v: nat, k: nat, b: Byte) {
    ByteAt(m, address + k, b) && Digit(v, k) == b as nat
  }

  /** The number made of what a read finds. */
  lemma FoundNumber(m: VirtualAddressMap, address: nat, n: nat, bytes: seq<Byte>)
    requires m.Sound() && Finds(m, address, n, Some(bytes))
    ensures |bytes| == n && IsNumberAt(m, address, n, LittleEndian(bytes))
  {
    LittleEndianDigits(bytes);
    forall k: nat ensures DigitAt(m, address, n, LittleEndian(bytes), k) {
      if k < n {
        FoundBytesAreMapped(m, address, n, bytes, k);
        assert IsDigit(m, address, LittleEndian(bytes), k, bytes[k]);
      }
    }
  }

  lemma NumberOnce(m: VirtualAddressMap, address: nat, n: nat, v: nat, w: nat)
    requires m.Sound() && IsNumberAt(m, address, n, v) && IsNumberAt(m, address, n, w)
    ensures v == w
  {
    forall k: nat | k < n ensures Digit(v, k) == Digit(w, k) {
      assert DigitAt(m, address, n, v, k) && DigitAt(m, address, n, w, k);
      var b: Byte :| IsDigit(m, address, v, k, b);
      var c: Byte :| IsDigit(m, address, w, k, c);
      ByteOnce(m, address + k, b, c);
    }
    DigitsDecide(n, v, w);
  }

  // ---------------------------------------------------------------------------------------------
  // Strings
  // ---------------------------------------------------------------------------------------------

  /** The position of the first zero byte from k on, or the end. */
  function FirstZero(bytes: seq<Byte>, k: nat): (r: nat)
    requires k <= |bytes|
    ensures k <= r <= |bytes| && (forall i :: k <= i < r ==> bytes[i] != 0) && (r < |bytes| ==> bytes[r] == 0)
    decreases |bytes| - k
  {
    if k == |bytes| || bytes[k] == 0 then k else FirstZero(bytes, k + 1)
  }

  /** The string r begins at address, and ends before a zero byte, at the end of range i, or when the buffer is full. */
  ghost predicate IsString(m: VirtualAddressMap, i: nat, address: nat, size: nat, r: seq<Byte>) {
    && Holds(m, i, address, |r|) && |r| <= size
    && (forall k :: 0 <= k < |r| ==> r[k] != 0 && ByteIn(m, i, address + k, r[k]))
    && (|r| == size || address + |r| == m.ranges[i].limit || ByteIn(m, i, address + |r|, 0))
  }

  /** What a read of a string into a buffer of the given size finds: nothing if there is no image for its first byte. */
  ghost predicate FindsString(m: VirtualAddressMap, address: nat, size: nat, r: seq<Byte>) {
    && ((forall i: nat :: !Holds(m, i, address, 1)) ==> r == [])
    && forall i: nat :: Holds(m, i, address, 1) ==> IsString(m, i, address, size, r)
  }

  /** A string does not go on where another one from the same place has ended. */
  lemma StringEnds(m: VirtualAddressMap, i: nat, address: nat, size: nat, r: seq<Byte>, r': seq<Byte>, k: nat)
    requires IsString(m, i, address, size, r) && IsString(m, i, address, size, r') && k < |r'|
    ensures k != |r|
  {
    assert ByteIn(m, i, address + k, r'[k]);
  }

  lemma FindsStringOnce(m: VirtualAddressMap, address: nat, size: nat, r: seq<Byte>, r': seq<Byte>)
    requires FindsString(m, address, size, r) && FindsString(m, address, size, r')
    ensures r == r'
  {
    if i: nat :| Holds(m, i, address, 1) {
      assert IsString(m, i, address, size, r) && IsString(m, i, address, size, r');
      if |r| < |r'| {
        StringEnds(m, i, address, size, r, r', |r|);
      } else if |r'| < |r| {
        StringEnds(m, i, address, size, r', r, |r'|);
      } else {
        forall k | 0 <= k < |r| ensures r[k] == r'[k] {
          assert ByteIn(m, i, address + k, r[k]) && ByteIn(m, i, address + k, r'[k]);
        }
      }
    }
  }

  // ---------------------------------------------------------------------------------------------
  // The reader
  // ---------------------------------------------------------------------------------------------

  /** What the reader remembers: nothing, or a range that has an image. */
  datatype Cache = Cache(at: nat, image: Option<int>, base: nat, limit: nat)

  ghost predicate CacheOk(m: VirtualAddressMap, c: Cache) {
    if c.image.None? then c.base == 0 && c.limit == 0
    else
      && c.at < |m.ranges| && c.image == m.Image(c.at)
      && c.base == m.ranges[c.at].Base() && c.limit == m.ranges[c.at].limit
  }

  /**
   A range that the reader remembers and that covers address is the only one
   that can hold the bytes from there on.
   */
  lemma CachedIsOnly(m: VirtualAddressMap, c: Cache, address: nat, n: nat)
    requires m.Sound() && CacheOk(m, c) && n > 0 && c.image.Some? && c.base <= address < c.limit
    ensures forall i: nat :: Holds(m, i, address, n) <==> i == c.at && address + n <= c.limit
  {
    forall i: nat | Holds(m, i, address, n) ensures i == c.at {
      assert Apart(m.ranges, i, c.at) && Apart(m.ranges, c.at, i);
    }
  }

  /** If no range covers address, or the one that does has no image, then nothing is held from there on. */
  lemma NothingHeld(m: VirtualAddressMap, at: nat, address: nat)
    requires m.Sound()
    requires if at < |m.ranges| then m.ranges[at].Covers(address) && m.Image(at).None? else !Covered(m.ranges, address)
    ensures forall i: nat, n: nat :: n > 0 ==> !Holds(m, i, address, n)
  {
    forall i: nat, n: nat | n > 0 ensures !Holds(m, i, address, n) {
      assert Holds(m, i, address, n) ==> m.ranges[i].Covers(address);
      assert Apart(m.ranges, i, at) && Apart(m.ranges, at, i);
    }
  }

  /** Copies bytes up to a zero byte, at most size of them, and then a zero byte if there is room. */
  method CopyString(m: VirtualAddressMap, start: int, size: nat, buffer: array<Byte>) returns (length: nat)
    requires size <= buffer.Length
    modifies buffer
    ensures length <= size && buffer[..length] == m.BytesFrom(start, length)
    ensures (forall k :: 0 <= k < length ==> buffer[k] != 0) && (length < size ==> m.file(start + length) == 0)
    ensures length < buffer.Length ==> buffer[length] == 0
    ensures forall k :: length < k < buffer.Length ==> buffer[k] == old(buffer[k])
  {
    var bytes := m.BytesFrom(start, size);
    length := FirstZero(bytes, 0);
    forall k | 0 <= k < length {
      buffer[k] := bytes[k];
    }
    if length < buffer.Length {
      buffer[length] := 0;
    }
  }

  /** What is copied from the place of address in the file, up to a zero byte or the end of range i, is the string. */
  lemma CopiedString(m: VirtualAddressMap, i: nat, address: nat, size: nat, r: seq<Byte>)
    requires m.Sound() && Holds(m, i, address, |r|) && |r| <= size
    requires r == m.BytesFrom(m.Image(i).value + (address - m.ranges[i].Base()), |r|)
    requires forall k :: 0 <= k < |r| ==> r[k] != 0
    requires |r| == size || address + |r| == m.ranges[i].limit ||
             m.file(m.Image(i).value + (address - m.ranges[i].Base()) + |r|) == 0
    ensures IsString(m, i, address, size, r)
  {
    forall k | 0 <= k < |r| ensures ByteIn(m, i, address + k, r[k]) {
      assert Holds(m, i, address + k, 1);
    }
  }

  class Reader {
    const m: VirtualAddressMap
    var position: nat
    var image: Option<int>
    var base: nat
    var limit: nat

    ghost predicate Valid()
      reads this
    {
      m.Sound() && CacheOk(m, Cache(position, image, base, limit))
    }

    constructor (m: VirtualAddressMap)
      requires m.Sound()
      ensures Valid() && this.m == m
    {
      this.m := m;
      position, image, base, limit := |m.ranges|, None, 0, 0;
    }

    /** Forgets what was remembered, and remembers the range that contains address if it has an image. */
    method Seek(address: nat)
      requires Valid()
      modifies this
      ensures Valid()
      ensures if image.Some? then base <= address < limit
              else forall i: nat, n: nat :: n > 0 ==> !Holds(m, i, address, n)
    {
      image, base, limit := None, 0, 0;
      position := Find(m.ranges, address);
      FindIsExact(m.ranges, address);
      if position < |m.ranges| {
        assert NonEmptyAt(m.ranges, position);
        image := m.Image(position);
        if image.Some? {
          base, limit := m.ranges[position].Base(), m.ranges[position].limit;
        }
      }
      if image.None? {
        NothingHeld(m, position, address);
      }
    }

    /** The bytes of a read of n bytes, or nothing if they are not all in one range with an image. */
    method Fetch(address: nat, n: nat) returns (r: Option<seq<Byte>>)
      requires Valid() && 0 < n < 256 && address < m.modulus
      modifies this
      ensures Valid() && Finds(m, address, n, r)
    {
      var readLimit := m.Plus(address, n);
      if readLimit < address {
        return None;
      }
      if base > address || limit < readLimit {
        Seek(address);
        if image.None? || readLimit > limit {
          if image.Some? { CachedIsOnly(m, Cache(position, image, base, limit), address, n); }
          return None;
        }
      }
      assert Holds(m, position, address, n);
      r := Some(m.BytesFrom(image.value + (address - base), n));
    }

    /** The throwing form of a read. */
    method Read(address: nat, n: nat) returns (r: Outcome)
      requires Valid() && 0 < n < 256 && address < m.modulus
      modifies this
      ensures Valid() && Answers(m, Fixed(address, n), r)
    {
      var bytes := Fetch(address, n);
      if bytes.Some? { FoundNumber(m, address, n, bytes.value); }
      r := if bytes.None? then NotMapped(address) else Number(LittleEndian(bytes.value));
    }

    /** The form of a read that returns a default. */
    method ReadOr(address: nat, n: nat, defaultValue: nat) returns (v: nat)
      requires Valid() && 0 < n < 256 && address < m.modulus
      modifies this
      ensures Valid()
      ensures exists r :: Answers(m, Fixed(address, n), r) && v == if r.Number? then r.number else defaultValue
    {
      var r := Read(address, n);
      v := if r.Number? then r.number else defaultValue;
    }

    /** A read of a signed number of 32 bits. */
    method Read32(address: nat, defaultValue: int) returns (v: int)
      requires Valid() && address < m.modulus
      modifies this
      ensures Valid()
      ensures exists r :: Answers(m, Fixed(address, 4), r) && (r.NotMapped? ==> v == defaultValue)
                          && (r.Number? ==> -0x8000_0000 <= v < 0x8000_0000 && (v - r.number) % 0x1_0000_0000 == 0)
    {
      var r := Read(address, 4);
      if r.Number? {
        assert PowerOf256(4) == 256 * PowerOf256(3) == 0x1_0000_0000;
        SignedIsCongruent(r.number);
      }
      v := if r.Number? then Signed(r.number) else defaultValue;
    }

    /** Copies as much of the string at address as fits in the buffer, and then a zero byte if that fits too. */
    method ReadCString(address: nat, buffer: array<Byte>) returns (length: nat)
      requires Valid() && address < m.modulus && buffer.Length < m.modulus
      modifies this, buffer
      ensures Valid() && length <= buffer.Length
      ensures FindsString(m, address, buffer.Length, buffer[..length])
      ensures (exists i: nat :: Holds(m, i, address, 1)) && length < buffer.Length ==> buffer[length] == 0
      ensures (forall i: nat :: !Holds(m, i, address, 1)) ==> buffer[..] == old(buffer[..])
      ensures forall k :: length < k < buffer.Length ==> buffer[k] == old(buffer[k])
    {
      length := 0;
      if base > address || limit <= address {
        Seek(address);
        if image.None? {
          return;
        }
      }
      CachedIsOnly(m, Cache(position, image, base, limit), address, 1);
      assert m.Fits(position) && Holds(m, position, address, 1);
      var maxStringLen := buffer.Length;
      if m.Plus(address, buffer.Length) > limit || m.Plus(address, buffer.Length) < address {
        maxStringLen := limit - address;
      }
      var start := image.value + (address - base);
      length := CopyString(m, start, maxStringLen, buffer);
      CopiedString(m, position, address, buffer.Length, buffer[..length]);
    }
  }

  // ---------------------------------------------------------------------------------------------
  // Any interleaving of reads
  // ---------------------------------------------------------------------------------------------

  datatype Call = Fixed(address: nat, bytes: nat) | CString(address: nat, size: nat)

  datatype Outcome = Number(number: nat) | NotMapped(address: nat) | Text(text: seq<Byte>)

  /** All n bytes lie in one range that has an image, and the address after them does not wrap. */
  ghost predicate Readable(m: VirtualAddressMap, address: nat, n: nat) {
    address + n < m.modulus && exists i: nat :: Holds(m, i, address, n)
  }

  /** What a call returns, by the map alone: a number by its digits, or a string by its bytes. */
  ghost predicate Answers(m: VirtualAddressMap, call: Call, r: Outcome) {
    match call
    case Fixed(address, n) =>
      if Readable(m, address, n) then r.Number? && IsNumberAt(m, address, n, r.number) else r == NotMapped(address)
    case CString(address, size) => r.Text? && FindsString(m, address, size, r.text)
  }

  predicate Allowed(m: VirtualAddressMap, call: Call) {
    call.address < m.modulus && if call.Fixed? then 0 < call.bytes < 256 else call.size < m.modulus
  }

  /** The map decides what a call returns. */
  lemma AnswersOnce(m: VirtualAddressMap, call: Call, r: Outcome, r': Outcome)
    requires m.Sound() && Allowed(m, call) && Answers(m, call, r) && Answers(m, call, r')
    ensures r == r'
  {
    match call {
      case Fixed(address, n) =>
        if Readable(m, address, n) { NumberOnce(m, address, n, r.number, r'.number); }
      case CString(address, size) =>
        FindsStringOnce(m, address, size, r.text, r'.text);
    }
  }

  /** Whatever calls were made before, each returns what it would return by itself. */
  method ReadAll(reader: Reader, calls: seq<Call>) returns (results: seq<Outcome>)
    requires reader.Valid() && forall k :: 0 <= k < |calls| ==> Allowed(reader.m, calls[k])
    modifies reader
    ensures reader.Valid() && |results| == |calls|
    ensures forall k :: 0 <= k < |calls| ==> Answers(reader.m, calls[k], results[k])
  {
    results := [];
    for n := 0 to |calls|
      invariant reader.Valid() && |results| == n
      invariant forall k :: 0 <= k < n ==> Answers(reader.m, calls[k], results[k])
    {
      var r;
      match calls[n] {
        case Fixed(address, bytes) =>
          r := reader.Read(address, bytes);
        case CString(address, size) =>
          var buffer := new Byte[size];
          var length := reader.ReadCString(address, buffer);
          r := Text(buffer[..length]);
      }
      results := results + [r];
    }
  }
}

/**
 Virtual memory partition: the mapped regions are divided by permission class, and in each class the addresses
 are either claimed, under a label, or unclaimed.  The functions say what each operation does to the whole state.
 */
module Partition {
  import opened RangeMaps

  /** The attributes of a region of the address map, and whether there is an image for it. */
  datatype Flags = Flags(readable: bool, writable: bool, executable: bool, image: bool)

  type Regions = seq<Entry<Flags>>

  type Label = string

  const UNKNOWN: Label := "unknown"

  datatype Class = Writable | RxOnly | ReadOnly | Inaccessible

  function ClassOf(f: Flags): Class {
    if f.writable then Writable else if f.executable then RxOnly else if f.readable then ReadOnly else Inaccessible
  }

  /** The ranges of one permission class. */
  datatype Side = Side(claimed: seq<Entry<Label>>, unclaimed: seq<Entry<Flags>>)

  datatype State = State(claimedRanges: seq<Entry<Label>>,
                         writable: Side, rxOnly: Side, readOnly: Side, inaccessible: Side,
                         withImages: seq<Entry<Flags>>, anchorCandidates: seq<Entry<Flags>>)
  {

    function Of(c: Class): Side {
      match c
      case Writable => writable
      case RxOnly => rxOnly
      case ReadOnly => readOnly
      case Inaccessible => inaccessible
    }

    function With(c: Class, side: Side): State {
      match c
      case Writable => this.(writable := side)
      case RxOnly => this.(rxOnly := side)
      case ReadOnly => this.(readOnly := side)
      case Inaccessible => this.(inaccessible := side)
    }
  }

  const NOTHING: Side := Side([], [])
  const EMPTY: State := State([], NOTHING, NOTHING, NOTHING, NOTHING, [], [])

  function Start<V>(e: Entry<V>): nat { if e.size <= e.limit then e.limit - e.size else 0 }

  // ---------------------------------------------------------------------------------------------
  // The operations
  // ---------------------------------------------------------------------------------------------

  /** Records one region as unclaimed in its class. */
  function AddRegion(s: State, r: Entry<Flags>): State {
    var side := s.Of(ClassOf(r.value));
    var s' := s.With(ClassOf(r.value),
                     side.(unclaimed := Mapped(side.unclaimed, true, Start(r), r.size, r.value).entries));
    if ClassOf(r.value) == Writable && r.value.image then
      s'.(withImages := Mapped(s.withImages, true, Start(r), r.size, r.value).entries,
          anchorCandidates := Mapped(s.anchorCandidates, true, Start(r), r.size, r.value).entries)
    else s'
  }

  /** The partition of the first n regions. */
  function Initial(regions: Regions, n: nat): State
    requires n <= |regions|
  {
    if n == 0 then EMPTY else AddRegion(Initial(regions, n - 1), regions[n - 1])
  }

  /** The class that a claim is charged to: that of the first region that ends after base, if it starts in the range. */
  function ChargedTo(regions: Regions, base: nat, limit: nat): Class {
    var it := UpperBound(regions, base);
    if it == |regions| || limit <= regions[it].Base() then Inaccessible else ClassOf(regions[it].value)
  }

  function ClaimIn(s: State, c: Class, base: nat, size: nat, name: Label, candidate: bool): State {
    var side := s.Of(c);
    var s' := s.With(c, Side(Mapped(side.claimed, false, base, size, name).entries,
                             Unmapped(side.unclaimed, base, size)));
    if c == Writable then
      s'.(withImages := Unmapped(s.withImages, base, size),
          anchorCandidates := if candidate then s.anchorCandidates else Unmapped(s.anchorCandidates, base, size))
    else s'
  }

  function Claim(regions: Regions, s: State, base: nat, size: nat, name: Label, candidate: bool): (State, bool) {
    var r := Mapped(s.claimedRanges, true, base, size, name);
    if !r.ok then (s, false)
    else
      var charged := ChargedTo(regions, base, base + size);
      (ClaimIn(s.(claimedRanges := r.entries), charged, base, size, name, candidate), true)
  }

  /** Claims the first n unclaimed ranges under the label of unknown ranges. */
  function SweptFirst(side: Side, n: nat): seq<Entry<Label>>
    requires n <= |side.unclaimed|
  {
    if n == 0 then side.claimed
    else
      var r := side.unclaimed[n - 1];
      Mapped(SweptFirst(side, n - 1), false, Start(r), r.size, UNKNOWN).entries
  }

  function Swept(side: Side): Side { Side(SweptFirst(side, |side.unclaimed|), []) }

  function Sweep(s: State): State {
    s.(writable := Swept(s.writable), rxOnly := Swept(s.rxOnly),
       readOnly := Swept(s.readOnly), inaccessible := Swept(s.inaccessible))
  }

  datatype Op = ClaimOp(base: nat, size: nat, name: Label, candidate: bool) | SweepOp

  function Apply(regions: Regions, s: State, op: Op): State {
    match op
    case ClaimOp(base, size, name, candidate) => Claim(regions, s, base, size, name, candidate).0
    case SweepOp => Sweep(s)
  }

  function Run(regions: Regions, ops: seq<Op>): State {
    if ops == [] then Initial(regions, |regions|) else Apply(regions, Run(regions, ops[..|ops| - 1]), ops[|ops| - 1])
  }
}

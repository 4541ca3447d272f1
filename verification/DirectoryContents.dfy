/** What a directory holds after any offers in order of address: which of them, how flagged, and how large. */
module DirectoryContents {
  import opened AllocationDirectory
  import opened DirectoryLevels
  import opened DirectorySteps

  /** One of the offers kept so far starts no later, is open at the start of o, and ends before o does. */
  ghost predicate CrossesSome(kept: seq<Offer>, o: Offer) {
    exists i :: 0 <= i < |kept| && kept[i].item.address <= o.item.address < kept[i].item.Limit() < o.item.Limit()
  }

  /** The offers that cross none of those kept before them. */
  ghost function Kept(offers: seq<Offer>): seq<Offer>
    decreases |offers|
  {
    if offers == [] then []
    else
      var kept := Kept(Init(offers));
      if CrossesSome(kept, Last(offers)) then kept else kept + [Last(offers)]
  }

  ghost predicate Records(al: seq<Allocation>, kept: seq<Offer>) {
    && |al| == |kept|
    && forall i :: 0 <= i < |al| ==>
         && al[i].address == kept[i].item.address && al[i].size == kept[i].item.size
         && al[i].used == kept[i].item.used && al[i].finder == kept[i].finder
  }

  /** The stack alone decides whether an offer crosses some accepted allocation. */
  lemma CrossingExactly(s: State, last: nat, kept: seq<Offer>, o: Offer)
    requires Invariant(s, last) && last <= o.item.address && Records(s.allocations, kept)
    ensures Close(s.limits, o.item.address, o.item.Limit()).Crossing? <==> CrossesSome(kept, o)
  {
    var al, limits := s.allocations, s.limits;
    CloseFacts(limits, o.item.address, o.item.Limit());
    var fit := Close(limits, o.item.address, o.item.Limit());
    if fit.Crossing? {
      var i := Last(fit.open).index;
      assert EntryOk(al, limits, |fit.open| - 1) && StillOpen(al, limits, last, i);
      assert kept[i].item.address <= o.item.address < kept[i].item.Limit() < o.item.Limit();
    } else if CrossesSome(kept, o) {
      var i :| 0 <= i < |kept| && kept[i].item.address <= o.item.address < kept[i].item.Limit() < o.item.Limit();
      assert Closed(limits, fit.open, o.item.address);
      var k := OpenOnStack(al, limits, fit.open, last, o.item.address, i);
      assert false;
    }
  }

  /** The directory records exactly the offers that cross none kept before, in order. */
  lemma {:induction false} BuiltRecordsKept(offers: seq<Offer>)
    requires InAddressOrder(offers)
    ensures Records(Built(offers).allocations, Kept(offers))
    decreases |offers|
  {
    if offers != [] {
      var before := Init(offers);
      BuiltRecordsKept(before);
      BuiltKeeps(before);
      CrossingExactly(Built(before), LastAddress(before), Kept(before), Last(offers));
    }
  }

  /** No two accepted allocations cross. */
  lemma AcceptedAreLaminar(offers: seq<Offer>)
    requires InAddressOrder(offers)
    ensures var al := Built(offers).allocations;
            && (forall i, j :: 0 <= i < j < |al| ==> al[i].address <= al[j].address)
            && (forall i, j :: 0 <= i < j < |al| ==> al[j].Limit() <= al[i].Limit() || al[i].Limit() <= al[j].address)
  {
    BuiltKeeps(offers);
    var al := Built(offers).allocations;
    forall i, j | 0 <= i < j < |al|
      ensures al[i].address <= al[j].address
      ensures al[j].Limit() <= al[i].Limit() || al[i].Limit() <= al[j].address
    {
      Pair(al, i, j);
    }
  }

  /** The recorded maximum bounds every accepted size and is one of them unless nothing was accepted. */
  lemma {:induction false} MaxSizeIsMax(offers: seq<Offer>)
    ensures var s := Built(offers);
            && (forall i :: 0 <= i < |s.allocations| ==> s.allocations[i].size <= s.maxSize)
            && (s.maxSize == 0 || exists i :: 0 <= i < |s.allocations| && s.allocations[i].size == s.maxSize)
    decreases |offers|
  {
    if offers != [] {
      var before, s := Built(Init(offers)), Built(offers);
      MaxSizeIsMax(Init(offers));
      if s.maxSize != 0 && s.allocations != before.allocations {
        if s.maxSize == before.maxSize {
          var i :| 0 <= i < |before.allocations| && before.allocations[i].size == s.maxSize;
          assert s.allocations[i].size == s.maxSize;
        } else {
          assert s.allocations[|before.allocations|].size == s.maxSize;
        }
      }
    }
  }
}

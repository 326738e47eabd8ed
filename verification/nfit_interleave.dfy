/** The interleave sets: one for each persistent-memory address range, with its DIMMs. */
module NfitInterleave {
  import opened Basics
  import opened LittleEndian
  import opened NfitTables
  import opened Firsts
  import opened NfitDimm

  const MAX_DIMMS: nat := 12

  /** The ranges of persistent memory; `pmRegion` is the GUID that marks them. */
  function PmRanges(spas: seq<Spa>, pmRegion: nat): seq<Spa> {
    if spas == [] then []
    else (if spas[0].rangeType == pmRegion then [spas[0]] else []) + PmRanges(spas[1..], pmRegion)
  }

  lemma {:induction false} PmRangesConcat(a: seq<Spa>, b: seq<Spa>, pmRegion: nat)
    ensures PmRanges(a + b, pmRegion) == PmRanges(a, pmRegion) + PmRanges(b, pmRegion)
  {
    if a == [] {
      assert a + b == b;
    } else {
      assert (a + b)[1..] == a[1..] + b;
      PmRangesConcat(a[1..], b, pmRegion);
      ConcatAssociative(if a[0].rangeType == pmRegion then [a[0]] else [], PmRanges(a[1..], pmRegion),
                        PmRanges(b, pmRegion));
    }
  }

  function MappingsOf(mappings: seq<RegionMapping>, spaIndex: nat): seq<RegionMapping> {
    if mappings == [] then []
    else (if mappings[0].spaIndex == spaIndex then [mappings[0]] else []) + MappingsOf(mappings[1..], spaIndex)
  }

  lemma {:induction false} MappingsOfConcat(a: seq<RegionMapping>, b: seq<RegionMapping>, spaIndex: nat)
    ensures MappingsOf(a + b, spaIndex) == MappingsOf(a, spaIndex) + MappingsOf(b, spaIndex)
  {
    if a == [] {
      assert a + b == b;
    } else {
      assert (a + b)[1..] == a[1..] + b;
      MappingsOfConcat(a[1..], b, spaIndex);
      ConcatAssociative(if a[0].spaIndex == spaIndex then [a[0]] else [], MappingsOf(a[1..], spaIndex),
                        MappingsOf(b, spaIndex));
    }
  }

  /** The first mapping of each DIMM in the range. */
  ghost function Members(nfit: Nfit, spaIndex: nat): seq<RegionMapping> {
    FirstsOf(MappingsOf(nfit.mappings, spaIndex), HandleOf)
  }

  /** The arrays of a set have room for this many DIMMs; the source does not check it (WritesInside). */
  ghost predicate RoomForMembers(nfit: Nfit, spaIndex: nat) {
    |Members(nfit, spaIndex)| <= MAX_DIMMS
  }

  // ---------------------------------------------------------------- which places are written

  /** The places of the arrays that the loop over the mappings writes to, up to the first one behind
      their ends; C says nothing of what comes after that. `added` are the handles found so far. */
  function Writes(mappings: seq<RegionMapping>, spaIndex: nat, added: seq<nat>): seq<nat> {
    if mappings == [] then []
    else if mappings[0].spaIndex != spaIndex || mappings[0].handle in added then Writes(mappings[1..], spaIndex, added)
    else
      [|added|] + if |added| < MAX_DIMMS then Writes(mappings[1..], spaIndex, added + [mappings[0].handle]) else []
  }

  lemma WritesStep(mappings: seq<RegionMapping>, i: nat, spaIndex: nat, added: seq<nat>)
    requires i < |mappings|
    ensures var m := mappings[i];
            Writes(mappings[i..], spaIndex, added)
            == if m.spaIndex != spaIndex || m.handle in added then Writes(mappings[i + 1..], spaIndex, added)
               else [|added|] + if |added| < MAX_DIMMS then Writes(mappings[i + 1..], spaIndex, added + [m.handle])
                                else []
  {
    assert mappings[i..][1..] == mappings[i + 1..];
  }

  /** The members among the first i mappings. */
  ghost function MembersUpTo(mappings: seq<RegionMapping>, i: nat, spaIndex: nat): seq<RegionMapping>
    requires i <= |mappings|
  {
    FirstsOf(MappingsOf(mappings[..i], spaIndex), HandleOf)
  }

  lemma MembersStep(mappings: seq<RegionMapping>, i: nat, spaIndex: nat)
    requires i < |mappings|
    ensures var m, before := mappings[i], MembersUpTo(mappings, i, spaIndex);
            MembersUpTo(mappings, i + 1, spaIndex)
            == if m.spaIndex != spaIndex || m.handle in HandlesOf(before) then before else before + [m]
  {
    hide FirstsOf, MappingsOf, HasKey;
    MappingNext(mappings, i, spaIndex);
    FirstsNext(MappingsOf(mappings[..i], spaIndex), HandleOf, mappings[i]);
    KeyInHandles(MembersUpTo(mappings, i, spaIndex), mappings[i].handle);
  }

  lemma MembersEnd(nfit: Nfit, spaIndex: nat)
    ensures MembersUpTo(nfit.mappings, 0, spaIndex) == []
    ensures MembersUpTo(nfit.mappings, |nfit.mappings|, spaIndex) == Members(nfit, spaIndex)
  {
    NoFirsts<RegionMapping, nat>(HandleOf);
    assert nfit.mappings[..|nfit.mappings|] == nfit.mappings;
  }

  /** The places from a number of members on, to the last of n members or the first behind the arrays. */
  function Slots(from: nat, n: nat): seq<nat>
    decreases n - from
  {
    if from >= n then [] else [from] + if from < MAX_DIMMS then Slots(from + 1, n) else []
  }

  lemma SlotsStep(from: nat, n: nat)
    ensures Slots(from, n)
         == if from >= n then [] else [from] + if from < MAX_DIMMS then Slots(from + 1, n) else []
  {
  }

  lemma HandlesNext(members: seq<RegionMapping>, m: RegionMapping)
    ensures HandlesOf(members + [m]) == HandlesOf(members) + [m.handle]
  {
  }

  /** The writes that are left go through the places that are left, in order. */
  lemma {:induction false} WritesLeft(mappings: seq<RegionMapping>, i: nat, spaIndex: nat)
    requires i <= |mappings| && |MembersUpTo(mappings, i, spaIndex)| <= MAX_DIMMS
    ensures var before, n := MembersUpTo(mappings, i, spaIndex), |MembersUpTo(mappings, |mappings|, spaIndex)|;
            |before| <= n && Writes(mappings[i..], spaIndex, HandlesOf(before)) == Slots(|before|, n)
    decreases |mappings| - i
  {
    hide MembersUpTo, Writes, Slots, HandlesOf;
    var before, n := MembersUpTo(mappings, i, spaIndex), |MembersUpTo(mappings, |mappings|, spaIndex)|;
    SlotsStep(|before|, n);
    if i < |mappings| {
      var m := mappings[i];
      MembersStep(mappings, i, spaIndex);
      WritesStep(mappings, i, spaIndex, HandlesOf(before));
      if m.spaIndex != spaIndex || m.handle in HandlesOf(before) {
        WritesLeft(mappings, i + 1, spaIndex);
      } else {
        HandlesNext(before, m);
        if |before| < MAX_DIMMS {
          WritesLeft(mappings, i + 1, spaIndex);
        } else {
          MembersGrow(mappings, i + 1, spaIndex);
        }
      }
    } else {
      NoWrites(mappings, spaIndex, HandlesOf(before));
    }
  }

  lemma NoWrites(mappings: seq<RegionMapping>, spaIndex: nat, added: seq<nat>)
    ensures Writes(mappings[|mappings|..], spaIndex, added) == []
  {
  }

  lemma {:induction false} MembersGrow(mappings: seq<RegionMapping>, i: nat, spaIndex: nat)
    requires i <= |mappings|
    ensures MembersUpTo(mappings, i, spaIndex) <= MembersUpTo(mappings, |mappings|, spaIndex)
    decreases |mappings| - i
  {
    hide MembersUpTo;
    if i < |mappings| {
      MembersStep(mappings, i, spaIndex);
      MembersGrow(mappings, i + 1, spaIndex);
    }
  }

  lemma {:induction false} SlotsInside(from: nat, n: nat)
    requires from <= MAX_DIMMS
    ensures (forall k <- Slots(from, n) :: k < MAX_DIMMS) <==> n <= MAX_DIMMS
    decreases n - from
  {
    if n > MAX_DIMMS {
      LastSlot(from, n);
    } else if from < n {
      SlotsInside(from + 1, n);
      assert Slots(from, n) == [from] + Slots(from + 1, n);
    }
  }

  /** The loop writes place after place, and stays inside the arrays if and only if the range has no
      more than twelve different handles. */
  lemma WritesInside(nfit: Nfit, spaIndex: nat)
    ensures Writes(nfit.mappings, spaIndex, []) == Slots(0, |Members(nfit, spaIndex)|)
    ensures (forall k <- Writes(nfit.mappings, spaIndex, []) :: k < MAX_DIMMS) <==> RoomForMembers(nfit, spaIndex)
  {
    hide MembersUpTo, Writes, Slots, Members;
    MembersEnd(nfit, spaIndex);
    WritesLeft(nfit.mappings, 0, spaIndex);
    assert nfit.mappings[0..] == nfit.mappings && HandlesOf([]) == [];
    SlotsInside(0, |Members(nfit, spaIndex)|);
  }

  /** Different handles for one range are all members. */
  lemma {:induction false} AllMembers(mappings: seq<RegionMapping>, i: nat, spaIndex: nat)
    requires i <= |mappings| && forall m <- mappings :: m.spaIndex == spaIndex
    requires forall j, k :: 0 <= j < k < |mappings| ==> mappings[j].handle != mappings[k].handle
    ensures MembersUpTo(mappings, i, spaIndex) == mappings[..i]
  {
    hide MembersUpTo;
    if i > 0 {
      AllMembers(mappings, i - 1, spaIndex);
      MembersStep(mappings, i - 1, spaIndex);
      assert mappings[i - 1] in mappings;
      assert forall j :: 0 <= j < i - 1 ==> HandlesOf(mappings[..i - 1])[j] == mappings[j].handle;
      assert mappings[..i - 1] + [mappings[i - 1]] == mappings[..i];
    } else {
      MembersEnd(Nfit([], mappings, []), spaIndex);
    }
  }

  /** Thirteen DIMMs in one range: the last one is written behind the arrays. */
  lemma ThirteenDimms()
    ensures var mappings := seq(13, i requires 0 <= i => RegionMapping(i, 0, 1, 0, 0, 0, 0, 0));
            !RoomForMembers(Nfit([], mappings, []), 1) && MAX_DIMMS in Writes(mappings, 1, [])
  {
    var mappings := seq(13, i requires 0 <= i => RegionMapping(i, 0, 1, 0, 0, 0, 0, 0));
    var nfit := Nfit([], mappings, []);
    AllMembers(mappings, 13, 1);
    MembersEnd(nfit, 1);
    hide Members, MembersUpTo, Writes;
    WritesInside(nfit, 1);
    LastSlot(0, 13);
  }

  lemma {:induction false} LastSlot(from: nat, n: nat)
    requires from <= MAX_DIMMS < n
    ensures MAX_DIMMS in Slots(from, n)
    decreases MAX_DIMMS - from
  {
    if from < MAX_DIMMS {
      LastSlot(from + 1, n);
    }
  }

  /** The four columns that describe the members. */
  datatype Columns = Columns(dimms: seq<nat>, pdas: seq<nat>, offsets: seq<nat>, sizes: seq<nat>)

  function ColumnsOf(members: seq<RegionMapping>): (c: Columns)
    ensures |c.dimms| == |c.pdas| == |c.offsets| == |c.sizes| == |members|
    ensures forall i :: 0 <= i < |members| ==>
              && c.dimms[i] == members[i].handle && c.pdas[i] == members[i].physicalAddressBase
              && c.offsets[i] == members[i].regionOffset && c.sizes[i] == members[i].regionSize
  {
    Columns(seq(|members|, i requires 0 <= i < |members| => members[i].handle),
            seq(|members|, i requires 0 <= i < |members| => members[i].physicalAddressBase),
            seq(|members|, i requires 0 <= i < |members| => members[i].regionOffset),
            seq(|members|, i requires 0 <= i < |members| => members[i].regionSize))
  }

  function PaddedColumns(c: Columns): Columns {
    Columns(Padded(c.dimms, MAX_DIMMS), Padded(c.pdas, MAX_DIMMS),
            Padded(c.offsets, MAX_DIMMS), Padded(c.sizes, MAX_DIMMS))
  }

  datatype SetInfo = SetInfo(id: nat, proximityDomain: nat, address: nat, size: nat, attributes: nat,
                             dimmCount: nat, columns: Columns)

  /** The set of a range: its data and, in parallel, those of the first mapping of each DIMM. */
  ghost function SetOf(nfit: Nfit, spa: Spa): SetInfo {
    SetInfo(spa.rangeIndex, spa.proximityDomain, spa.base, spa.length, spa.attributes,
            |Members(nfit, spa.rangeIndex)|, PaddedColumns(ColumnsOf(Members(nfit, spa.rangeIndex))))
  }

  ghost function EmptySet(): SetInfo {
    SetInfo(0, 0, 0, 0, 0, 0, PaddedColumns(ColumnsOf([])))
  }

  lemma PaddedNext(xs: seq<nat>, x: nat, room: nat)
    requires |xs| < room
    ensures Padded(xs + [x], room) == Padded(xs, room)[|xs| := x]
  {
  }

  lemma ColumnsNext(members: seq<RegionMapping>, m: RegionMapping)
    ensures ColumnsOf(members + [m]).dimms == ColumnsOf(members).dimms + [m.handle]
    ensures ColumnsOf(members + [m]).pdas == ColumnsOf(members).pdas + [m.physicalAddressBase]
    ensures ColumnsOf(members + [m]).offsets == ColumnsOf(members).offsets + [m.regionOffset]
    ensures ColumnsOf(members + [m]).sizes == ColumnsOf(members).sizes + [m.regionSize]
  {
  }

  class InterleaveSet {
    var id: nat
    var proximityDomain: nat
    var address: nat
    var size: nat
    var attributes: nat
    var dimmCount: nat
    const dimms: array<nat>
    const pdas: array<nat>
    const offsets: array<nat>
    const sizes: array<nat>

    predicate Shaped() {
      && dimms.Length == pdas.Length == offsets.Length == sizes.Length == MAX_DIMMS
      && dimms != pdas && dimms != offsets && dimms != sizes && pdas != offsets && pdas != sizes && offsets != sizes
    }

    function Arrays(): set<array<nat>> {
      {dimms, pdas, offsets, sizes}
    }

    function ColumnsNow(): Columns
      reads dimms, pdas, offsets, sizes
    {
      Columns(dimms[..], pdas[..], offsets[..], sizes[..])
    }

    function Info(): SetInfo
      reads this, dimms, pdas, offsets, sizes
    {
      SetInfo(id, proximityDomain, address, size, attributes, dimmCount, ColumnsNow())
    }

    constructor ()
      ensures Shaped() && Info() == EmptySet() && fresh(Arrays())
    {
      id, proximityDomain, address, size, attributes, dimmCount := 0, 0, 0, 0, 0, 0;
      dimms := new nat[MAX_DIMMS](_ => 0);
      pdas := new nat[MAX_DIMMS](_ => 0);
      offsets := new nat[MAX_DIMMS](_ => 0);
      sizes := new nat[MAX_DIMMS](_ => 0);
      new;
      assert ColumnsNow() == PaddedColumns(ColumnsOf([]));
    }

    /** memset of one element. */
    method Reset()
      requires Shaped()
      modifies this, dimms, pdas, offsets, sizes
      ensures Info() == EmptySet()
    {
      id, proximityDomain, address, size, attributes, dimmCount := 0, 0, 0, 0, 0, 0;
      for i := 0 to MAX_DIMMS
        invariant Info() == EmptySet().(columns := ColumnsNow())
        invariant forall j :: 0 <= j < i ==> dimms[j] == 0 && pdas[j] == 0 && offsets[j] == 0 && sizes[j] == 0
      {
        dimms[i], pdas[i], offsets[i], sizes[i] := 0, 0, 0, 0;
      }
      assert ColumnsNow() == PaddedColumns(ColumnsOf([]));
    }

    method IsDimmAlreadyAdded(handle: nat) returns (added: bool)
      requires dimmCount <= dimms.Length
      ensures added == (handle in dimms[..dimmCount])
    {
      for i := 0 to dimmCount
        invariant handle !in dimms[..i]
      {
        if handle == dimms[i] {
          return true;
        }
        assert dimms[..i + 1] == dimms[..i] + [dimms[i]];
      }
      return false;
    }

    /** The DIMMs found so far, in the four arrays. */
    ghost predicate Holds(members: seq<RegionMapping>)
      reads this`dimmCount, dimms, pdas, offsets, sizes
    {
      dimmCount == |members| <= MAX_DIMMS && ColumnsNow() == PaddedColumns(ColumnsOf(members))
    }

    lemma HandlesHeld(members: seq<RegionMapping>)
      requires Shaped() && Holds(members)
      ensures dimmCount == |members| <= MAX_DIMMS == dimms.Length && dimms[..dimmCount] == HandlesOf(members)
    {
      assert dimms[..dimmCount] == ColumnsOf(members).dimms;
    }

    method AddDimm(m: RegionMapping, ghost members: seq<RegionMapping>)
      requires Shaped() && Holds(members) && |members| < MAX_DIMMS
      modifies this`dimmCount, dimms, pdas, offsets, sizes
      ensures Holds(members + [m])
    {
      ColumnsNext(members, m);
      hide ColumnsOf, Padded;
      ghost var c := ColumnsOf(members);
      PaddedNext(c.dimms, m.handle, MAX_DIMMS);
      PaddedNext(c.pdas, m.physicalAddressBase, MAX_DIMMS);
      PaddedNext(c.offsets, m.regionOffset, MAX_DIMMS);
      PaddedNext(c.sizes, m.regionSize, MAX_DIMMS);
      dimms[dimmCount] := m.handle;
      pdas[dimmCount] := m.physicalAddressBase;
      offsets[dimmCount] := m.regionOffset;
      sizes[dimmCount] := m.regionSize;
      dimmCount := dimmCount + 1;
    }

    /** Adds the first mapping of each DIMM in the range. Where the source would write behind the
        arrays, this stops and says so; `written` are the places written to or about to be. */
    method PopulateDimmInfo(nfit: Nfit) returns (overrun: bool, ghost written: seq<nat>)
      requires Shaped() && Holds([])
      modifies this`dimmCount, dimms, pdas, offsets, sizes
      ensures written == Writes(nfit.mappings, id, [])
      ensures overrun <==> !RoomForMembers(nfit, id)
      ensures !overrun ==> Holds(Members(nfit, id))
      ensures overrun ==> |Members(nfit, id)| > MAX_DIMMS && Holds(Members(nfit, id)[..MAX_DIMMS])
    {
      hide MembersUpTo, Members, Writes, Holds, ColumnsOf, Shaped;
      ghost var members: seq<RegionMapping> := [];
      overrun, written := false, [];
      MembersEnd(nfit, id);
      WrittenNothing(nfit.mappings, id);
      for i := 0 to |nfit.mappings|
        invariant Holds(members) && members == MembersUpTo(nfit.mappings, i, id)
        invariant written + Writes(nfit.mappings[i..], id, HandlesOf(members)) == Writes(nfit.mappings, id, [])
      {
        var m := nfit.mappings[i];
        MembersStep(nfit.mappings, i, id);
        HandlesHeld(members);
        WrittenStep(nfit.mappings, i, id, members, written);
        if m.spaIndex == id {
          var added := IsDimmAlreadyAdded(m.handle);
          if !added {
            written := written + [dimmCount];
            if dimmCount == MAX_DIMMS {
              MembersGrow(nfit.mappings, i + 1, id);
              assert Members(nfit, id)[..MAX_DIMMS] == members;
              return true, written;
            }
            AddDimm(m, members);
            members := members + [m];
          }
        }
      }
      HandlesHeld(members);
      NoWrites(nfit.mappings, id, HandlesOf(members));
      assert written + [] == written;
    }
  }

  lemma WrittenNothing(mappings: seq<RegionMapping>, spaIndex: nat)
    ensures [] + Writes(mappings[0..], spaIndex, HandlesOf([])) == Writes(mappings, spaIndex, [])
  {
    assert mappings[0..] == mappings && HandlesOf([]) == [];
    assert [] + Writes(mappings, spaIndex, []) == Writes(mappings, spaIndex, []);
  }

  lemma WrittenStep(mappings: seq<RegionMapping>, i: nat, spaIndex: nat, members: seq<RegionMapping>, written: seq<nat>)
    requires i < |mappings|
    ensures var m, handles := mappings[i], HandlesOf(members);
            written + Writes(mappings[i..], spaIndex, handles)
            == if m.spaIndex != spaIndex || m.handle in handles then
                 written + Writes(mappings[i + 1..], spaIndex, handles)
               else if |members| < MAX_DIMMS then
                 (written + [|members|]) + Writes(mappings[i + 1..], spaIndex, HandlesOf(members + [m]))
               else written + [|members|]
  {
    hide Writes;
    WritesStep(mappings, i, spaIndex, HandlesOf(members));
    HandlesNext(members, mappings[i]);
    var rest := Writes(mappings[i + 1..], spaIndex, HandlesOf(members + [mappings[i]]));
    assert written + ([|members|] + rest) == (written + [|members|]) + rest;
    assert [|members|] + [] == [|members|];
  }

  lemma NoMappings(spaIndex: nat)
    ensures MappingsOf([], spaIndex) == []
  {
  }

  lemma MappingNext(mappings: seq<RegionMapping>, i: nat, spaIndex: nat)
    requires i < |mappings|
    ensures MappingsOf(mappings[..i + 1], spaIndex)
         == if mappings[i].spaIndex == spaIndex then MappingsOf(mappings[..i], spaIndex) + [mappings[i]]
            else MappingsOf(mappings[..i], spaIndex)
  {
    assert mappings[..i + 1] == mappings[..i] + [mappings[i]];
    MappingsOfConcat(mappings[..i], [mappings[i]], spaIndex);
  }

  // ---------------------------------------------------------------- the list of sets

  /** The elements of the caller's array share nothing. */
  predicate Separate(sets: seq<InterleaveSet>) {
    && (forall s <- sets :: s.Shaped())
    && forall i, j :: 0 <= i < j < |sets| ==> sets[i] != sets[j] && sets[i].Arrays() !! sets[j].Arrays()
  }

  method ResetAll(sets: seq<InterleaveSet>)
    requires Separate(sets)
    modifies sets, set s | s in sets :: s.dimms, set s | s in sets :: s.pdas
    modifies set s | s in sets :: s.offsets, set s | s in sets :: s.sizes
    ensures forall i :: 0 <= i < |sets| ==> sets[i].Info() == EmptySet()
  {
    for i := 0 to |sets|
      invariant forall j :: 0 <= j < i ==> sets[j].Info() == EmptySet()
    {
      assert sets[i] in sets;
      sets[i].Reset();
    }
  }

  /** Fills in one set, which is still empty. */
  method FillSet(s: InterleaveSet, spa: Spa, nfit: Nfit) returns (overrun: bool)
    requires s.Shaped() && s.Info() == EmptySet()
    modifies s, s.dimms, s.pdas, s.offsets, s.sizes
    ensures overrun <==> !RoomForMembers(nfit, spa.rangeIndex)
    ensures !overrun ==> s.Info() == SetOf(nfit, spa)
  {
    s.id := spa.rangeIndex;
    s.proximityDomain := spa.proximityDomain;
    s.address := spa.base;
    s.size := spa.length;
    s.attributes := spa.attributes;
    ghost var written;
    overrun, written := s.PopulateDimmInfo(nfit);
  }

  /** The first sets describe these ranges, and the others are empty. */
  ghost predicate Describe(sets: seq<InterleaveSet>, nfit: Nfit, ranges: seq<Spa>)
    reads sets, set s | s in sets :: s.dimms, set s | s in sets :: s.pdas
    reads set s | s in sets :: s.offsets, set s | s in sets :: s.sizes
  {
    forall i :: 0 <= i < |sets| ==> sets[i].Info() == if i < |ranges| then SetOf(nfit, ranges[i]) else EmptySet()
  }

  /** The next set is filled in, and the others stay as they are. */
  method FillNext(sets: seq<InterleaveSet>, n: nat, spa: Spa, nfit: Nfit, ghost ranges: seq<Spa>)
    returns (overrun: bool)
    requires Separate(sets) && n == |ranges| < |sets| && Describe(sets, nfit, ranges)
    modifies sets, set s | s in sets :: s.dimms, set s | s in sets :: s.pdas
    modifies set s | s in sets :: s.offsets, set s | s in sets :: s.sizes
    ensures overrun <==> !RoomForMembers(nfit, spa.rangeIndex)
    ensures !overrun ==> Describe(sets, nfit, ranges + [spa])
  {
    hide SetOf, RoomForMembers, EmptySet;
    assert sets[n] in sets;
    overrun := FillSet(sets[n], spa, nfit);
  }

  /** Each of the first `count` ranges has room for its DIMMs in the arrays of a set. */
  ghost predicate RoomForSets(nfit: Nfit, ranges: seq<Spa>, count: int) {
    forall i :: 0 <= i < |ranges| && i < count ==> RoomForMembers(nfit, ranges[i].rangeIndex)
  }

  /** Counts the ranges; with an array, fills in a set for each, in order. The count is the same
      either way, unless the array is too small. `overrun` says where the source would write behind
      an array: behind those of a set, or, with a negative count, by clearing memory of a negative
      size. It does neither if there is no array or nothing is asked for. */
  method GetInterleaveSets(count: int, isNull: bool, sets: seq<InterleaveSet>, nfit: Nfit, pmRegion: nat)
    returns (result: int, overrun: bool)
    requires Separate(sets) && (!isNull && count >= 0 ==> |sets| == count)
    modifies sets, set s | s in sets :: s.dimms, set s | s in sets :: s.pdas
    modifies set s | s in sets :: s.offsets, set s | s in sets :: s.sizes
    ensures overrun <==> !isNull && (count < 0 || !RoomForSets(nfit, PmRanges(nfit.spas, pmRegion), count))
    ensures var ranges := PmRanges(nfit.spas, pmRegion);
            !overrun ==>
              && result == (if 0 < count < |ranges| && !isNull then ERR_BADINPUT else |ranges|)
              && (count > 0 && !isNull ==>
                    Describe(sets, nfit, if count < |ranges| then ranges[..count] else ranges))
  {
    hide PmRanges, SetOf, RoomForMembers, EmptySet, Describe, Separate;
    var n: nat := 0;
    ghost var ranges: seq<Spa> := [];
    NoRanges(pmRegion);
    if count != 0 && !isNull {
      if count < 0 {
        return 0, true;
      }
      ResetAll(sets);
      NothingDescribed(sets, nfit);
    }
    for i := 0 to |nfit.spas|
      invariant ranges == PmRanges(nfit.spas[..i], pmRegion) && n == |ranges|
      invariant count != 0 && !isNull ==> n <= count && Describe(sets, nfit, ranges) && RoomForSets(nfit, ranges, count)
    {
      var spa := nfit.spas[i];
      RangeNext(nfit.spas, i, pmRegion);
      if spa.rangeType == pmRegion {
        if count != 0 && !isNull {
          if count <= n {
            assert PmRanges(nfit.spas, pmRegion)[..count] == ranges;
            RoomAbove(nfit, ranges, PmRanges(nfit.spas, pmRegion), count);
            return ERR_BADINPUT, false;
          }
          assert PmRanges(nfit.spas, pmRegion)[n] == spa;
          var full := FillNext(sets, n, spa, nfit, ranges);
          if full {
            return 0, true;
          }
        }
        ranges := ranges + [spa];
        n := n + 1;
      }
    }
    assert nfit.spas[..|nfit.spas|] == nfit.spas;
    result, overrun := n, false;
  }

  lemma RoomAbove(nfit: Nfit, ranges: seq<Spa>, all: seq<Spa>, count: nat)
    requires count <= |ranges| && ranges <= all && RoomForSets(nfit, ranges, count)
    ensures RoomForSets(nfit, all, count)
  {
  }

  lemma NothingDescribed(sets: seq<InterleaveSet>, nfit: Nfit)
    requires forall i :: 0 <= i < |sets| ==> sets[i].Info() == EmptySet()
    ensures Describe(sets, nfit, [])
  {
  }

  lemma NoRanges(pmRegion: nat)
    ensures PmRanges([], pmRegion) == []
  {
  }

  lemma RangeNext(spas: seq<Spa>, i: nat, pmRegion: nat)
    requires i < |spas|
    ensures PmRanges(spas[..i + 1], pmRegion)
         == if spas[i].rangeType == pmRegion then PmRanges(spas[..i], pmRegion) + [spas[i]]
           else PmRanges(spas[..i], pmRegion)
    ensures PmRanges(spas[..i + 1], pmRegion) <= PmRanges(spas, pmRegion)
    ensures spas[i].rangeType == pmRegion ==> spas[i] in PmRanges(spas, pmRegion)
  {
    assert spas[..i + 1] == spas[..i] + [spas[i]];
    PmRangesConcat(spas[..i], [spas[i]], pmRegion);
    assert spas == spas[..i + 1] + spas[i + 1..];
    PmRangesConcat(spas[..i + 1], spas[i + 1..], pmRegion);
    if spas[i].rangeType == pmRegion {
      assert PmRanges(spas[..i + 1], pmRegion)[|PmRanges(spas[..i], pmRegion)|] == spas[i];
    }
  }
}

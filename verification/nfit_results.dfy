/** What a caller gets, by the bytes of the raw table it comes from. */
module NfitResults {
  import opened Basics
  import opened LittleEndian
  import opened NfitTables
  import opened Firsts
  import opened NfitDimm
  import opened NfitInterleave
  import opened NfitBytes

  // ---------------------------------------------------------------- the lists that are searched

  lemma {:induction false} RangesFiltered(spas: seq<Spa>, pmRegion: nat)
    ensures PmRanges(spas, pmRegion) == Filter(spas, (spa: Spa) => spa.rangeType == pmRegion)
    decreases |spas|
  {
    if spas != [] {
      RangesFiltered(spas[1..], pmRegion);
    }
  }

  lemma {:induction false} MappingsFiltered(mappings: seq<RegionMapping>, spaIndex: nat)
    ensures MappingsOf(mappings, spaIndex) == Filter(mappings, (m: RegionMapping) => m.spaIndex == spaIndex)
    decreases |mappings|
  {
    if mappings != [] {
      MappingsFiltered(mappings[1..], spaIndex);
    }
  }

  lemma {:induction false} CodesFiltered(regions: seq<ControlRegion>, serial: nat)
    ensures CodesOf(regions, serial)
         == Map(Filter(regions, (r: ControlRegion) => r.serialNumber == serial && r.ifc != 0),
                (r: ControlRegion) => r.ifc)
    decreases |regions|
  {
    if regions != [] {
      CodesFiltered(regions[1..], serial);
    }
  }

  function Flattened(s: seq<seq<nat>>): seq<nat> {
    if s == [] then [] else s[0] + Flattened(s[1..])
  }

  lemma {:induction false} PiledFiltered(all: seq<ControlRegion>, regions: seq<ControlRegion>, index: nat)
    ensures PiledCodes(all, regions, index)
         == Flattened(Map(Filter(regions, (r: ControlRegion) => r.index == index),
                          (r: ControlRegion) => CodesOf(all, r.serialNumber)))
    decreases |regions|
  {
    hide CodesOf;
    if regions != [] {
      PiledFiltered(all, regions[1..], index);
      var keep := (r: ControlRegion) => r.index == index;
      var codes := (r: ControlRegion) => CodesOf(all, r.serialNumber);
      if regions[0].index == index {
        var kept := Map(Filter(regions, keep), codes);
        assert Filter(regions, keep) == [regions[0]] + Filter(regions[1..], keep);
        assert kept[1..] == Map(Filter(regions[1..], keep), codes);
      } else {
        assert Filter(regions, keep) == Filter(regions[1..], keep);
      }
    }
  }

  /** The number of DIMMs, or the code for a bad table if a first mapping leads to no region. */
  lemma DimmCountIs(nfit: Nfit)
    ensures DimmCount(nfit)
         == if forall m <- FirstMappings(nfit) :: exists r <- nfit.regions :: r.index == m.controlRegionIndex
            then |FirstMappings(nfit)| else -3
  {
  }

  // ---------------------------------------------------------------- DIMMs

  lemma LastRegion(regions: seq<ControlRegion>, index: nat) returns (k: nat)
    ensures LastOfIndex(regions, index, k)
  {
    k := |regions|;
    while k > 0 && regions[k - 1].index != index
      invariant k <= |regions| && forall j :: k <= j < |regions| ==> regions[j].index != index
    {
      k := k - 1;
    }
    k := if k == 0 then |regions| else k - 1;
  }

  /** The first element with its key, by place. */
  lemma FirstPlace(mappings: seq<RegionMapping>, i: nat) returns (j: nat)
    requires i < |FirstsOf(mappings, HandleOf)|
    ensures j < |mappings| && mappings[j] == FirstsOf(mappings, HandleOf)[i]
    ensures forall k :: 0 <= k < j ==> mappings[k].handle != mappings[j].handle
  {
    hide FirstsOf, FirstIndex;
    InOrder(mappings, HandleOf);
    var m := FirstsOf(mappings, HandleOf)[i];
    j := FirstIndex(mappings, HandleOf, HandleOf(m));
    assert forall k :: 0 <= k < j ==> HandleOf(mappings[k]) != HandleOf(m);
  }

  /** The identity of a DIMM is that of the control region at g. */
  predicate IdentityFrom(memory: Memory, d: DimmInfo, g: nat) {
    && d.identity.serialNumber == Word(memory, g + 24, 4)
    && d.identity.vendorId == Word(memory, g + 6, 2)
    && d.identity.deviceId == Word(memory, g + 8, 2)
    && d.identity.revisionId == Word(memory, g + 10, 2)
    && d.identity.subsystemVendorId == Word(memory, g + 12, 2)
    && d.identity.subsystemDeviceId == Word(memory, g + 14, 2)
    && d.identity.subsystemRevisionId == Word(memory, g + 16, 2)
    && d.identity.validFields == Word(memory, g + 18, 1)
    && d.identity.manufacturingLocation == Word(memory, g + 19, 1)
    && d.identity.manufacturingDate == Word(memory, g + 20, 2)
  }

  /** A DIMM in the bytes: place j among the region mappings is the first one with its handle, and
      place k among the control regions the last one with the index that mapping names. */
  lemma DimmFromBytes(memory: Memory, offsets: seq<nat>, i: nat) returns (j: nat, k: nat)
    requires i < |FirstMappings(View(memory, offsets))|
    ensures var maps, regions := Places(memory, offsets, 1), Places(memory, offsets, 4);
            && j < |maps| && k <= |regions|
            && (forall x :: 0 <= x < j ==> Word(memory, maps[x] + 4, 4) != Word(memory, maps[j] + 4, 4))
            && (k < |regions| ==> Word(memory, regions[k] + 4, 2) == Word(memory, maps[j] + 14, 2))
            && (forall x :: 0 <= x < |regions| && (k == |regions| || k < x) ==>
                  Word(memory, regions[x] + 4, 2) != Word(memory, maps[j] + 14, 2))
    ensures var maps, regions := Places(memory, offsets, 1), Places(memory, offsets, 4);
            var d := DimmOf(View(memory, offsets), FirstMappings(View(memory, offsets))[i]);
            && d.handle == Word(memory, maps[j] + 4, 4)
            && d.physicalId == Word(memory, maps[j] + 8, 2)
            && d.stateFlags == Word(memory, maps[j] + 44, 2)
            && |d.ifc| == 9
            && (k < |regions| ==> IdentityFrom(memory, d, regions[k]))
            && (k == |regions| ==> d.identity == Identity(0, 0, 0, 0, 0, 0, 0, 0, 0, 0))
  {
    hide DimmOf, FirstsOf, Word, Places, Padded, PiledCodes;
    var nfit := View(memory, offsets);
    j := FirstPlace(nfit.mappings, i);
    k := LastRegion(nfit.regions, nfit.mappings[j].controlRegionIndex);
    var maps, regions := Places(memory, offsets, 1), Places(memory, offsets, 4);
    assert forall x :: 0 <= x < |maps| ==> nfit.mappings[x] == MappingAt(memory, maps[x]);
    assert forall x :: 0 <= x < |regions| ==> nfit.regions[x] == RegionAt(memory, regions[x]);
    DimmOfEveryTable(nfit, nfit.mappings[j], k);
    CodesShape(nfit, nfit.mappings[j]);
  }

  // ---------------------------------------------------------------- interleave sets

  /** Place number i of the four arrays. */
  lemma SetColumns(nfit: Nfit, spa: Spa, i: nat)
    requires i < 12 && RoomForMembers(nfit, spa.rangeIndex)
    ensures var c, members := SetOf(nfit, spa).columns, Members(nfit, spa.rangeIndex);
            && |c.dimms| == |c.pdas| == |c.offsets| == |c.sizes| == 12
            && (i < |members| ==>
                  && c.dimms[i] == members[i].handle && c.pdas[i] == members[i].physicalAddressBase
                  && c.offsets[i] == members[i].regionOffset && c.sizes[i] == members[i].regionSize)
            && (i >= |members| ==> c.dimms[i] == c.pdas[i] == c.offsets[i] == c.sizes[i] == 0)
  {
    hide Members;
  }

  /** A set in the bytes of its range, which stand at p. */
  lemma SetFromBytes(memory: Memory, offsets: seq<nat>, p: nat)
    ensures var s := SetOf(View(memory, offsets), SpaAt(memory, p));
            && s.id == Word(memory, p + 4, 2)
            && s.proximityDomain == Word(memory, p + 12, 4)
            && s.address == Word(memory, p + 32, 8)
            && s.size == Word(memory, p + 40, 8)
            && s.attributes == Word(memory, p + 48, 8)
            && s.dimmCount == |Members(View(memory, offsets), Word(memory, p + 4, 2))|
  {
    hide Members, Word, View;
  }

  /** A member of a set in the bytes: place j among the mappings to the range is the first one with its
      handle. */
  lemma MemberFromBytes(memory: Memory, offsets: seq<nat>, spaIndex: nat, i: nat) returns (j: nat)
    requires i < |Members(View(memory, offsets), spaIndex)|
    ensures var maps := Filter(Places(memory, offsets, 1), p => Word(memory, p + 12, 2) == spaIndex);
            && j < |maps|
            && (forall x :: 0 <= x < j ==> Word(memory, maps[x] + 4, 4) != Word(memory, maps[j] + 4, 4))
            && var m := Members(View(memory, offsets), spaIndex)[i];
               && m.handle == Word(memory, maps[j] + 4, 4)
               && m.physicalAddressBase == Word(memory, maps[j] + 32, 8)
               && m.regionOffset == Word(memory, maps[j] + 24, 8)
               && m.regionSize == Word(memory, maps[j] + 16, 8)
  {
    hide FirstsOf, Word, Places, MappingsOf, View, Filter;
    MappingsToRange(memory, offsets, spaIndex);
    j := FirstPlace(MappingsOf(View(memory, offsets).mappings, spaIndex), i);
  }

  lemma MappingsToRange(memory: Memory, offsets: seq<nat>, spaIndex: nat)
    ensures MappingsOf(View(memory, offsets).mappings, spaIndex)
         == Map(Filter(Places(memory, offsets, 1), p => Word(memory, p + 12, 2) == spaIndex),
                p => MappingAt(memory, p))
  {
    hide Word, Places, MappingsOf, Filter, MappingAt;
    MappingsFiltered(View(memory, offsets).mappings, spaIndex);
    FilterMapped(memory, Places(memory, offsets, 1), spaIndex);
  }

  lemma {:induction false} FilterMapped(memory: Memory, places: seq<nat>, spaIndex: nat)
    ensures Filter(Map(places, p => MappingAt(memory, p)), (m: RegionMapping) => m.spaIndex == spaIndex)
         == Map(Filter(places, p => Word(memory, p + 12, 2) == spaIndex), p => MappingAt(memory, p))
    decreases |places|
  {
    hide Word;
    if places != [] {
      FilterMapped(memory, places[1..], spaIndex);
      var all := Map(places, p => MappingAt(memory, p));
      assert all[1..] == Map(places[1..], p => MappingAt(memory, p));
    }
  }
}

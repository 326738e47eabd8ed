/** From the raw table to DIMMs and interleave sets. */
module NfitPipeline {
  import opened Basics
  import opened LittleEndian
  import opened NfitTables
  import opened NfitParser
  import opened NfitBytes
  import opened NfitDimm
  import opened NfitRoundTrip
  import Interleave = NfitInterleave

  function Spas(records: seq<Record>): seq<Spa>
    requires forall r <- records :: |r| == |SPA|
  {
    seq(|records|, i requires 0 <= i < |records| => AsSpa(records[i]))
  }

  function Mappings(records: seq<Record>): seq<RegionMapping>
    requires forall r <- records :: |r| == |REGION_MAPPING|
  {
    seq(|records|, i requires 0 <= i < |records| => AsRegionMapping(records[i]))
  }

  function Regions(records: seq<Record>): seq<ControlRegion>
    requires forall r <- records :: |r| == |CONTROL_REGION|
  {
    seq(|records|, i requires 0 <= i < |records| => AsControlRegion(records[i]))
  }

  lemma SpasFromBytes(memory: Memory, offsets: seq<nat>)
    ensures Spas(OfType(memory, offsets, 0)) == Map(Places(memory, offsets, 0), p => SpaAt(memory, p))
  {
    hide RecordAt, Places, AsSpa, SpaAt;
    RecordsOfType(memory, offsets, 0);
    forall i | 0 <= i < |Places(memory, offsets, 0)|
      ensures Spas(OfType(memory, offsets, 0))[i] == SpaAt(memory, Places(memory, offsets, 0)[i])
    {
      SpaFromBytes(memory, Places(memory, offsets, 0)[i]);
    }
  }

  lemma MappingsFromBytes(memory: Memory, offsets: seq<nat>)
    ensures Mappings(OfType(memory, offsets, 1)) == Map(Places(memory, offsets, 1), p => MappingAt(memory, p))
  {
    hide RecordAt, Places, AsRegionMapping, MappingAt;
    RecordsOfType(memory, offsets, 1);
    forall i | 0 <= i < |Places(memory, offsets, 1)|
      ensures Mappings(OfType(memory, offsets, 1))[i] == MappingAt(memory, Places(memory, offsets, 1)[i])
    {
      MappingFromBytes(memory, Places(memory, offsets, 1)[i]);
    }
  }

  lemma RegionsFromBytes(memory: Memory, offsets: seq<nat>)
    ensures Regions(OfType(memory, offsets, 4)) == Map(Places(memory, offsets, 4), p => RegionAt(memory, p))
  {
    hide RecordAt, Places, AsControlRegion, RegionAt;
    RecordsOfType(memory, offsets, 4);
    forall i | 0 <= i < |Places(memory, offsets, 4)|
      ensures Regions(OfType(memory, offsets, 4))[i] == RegionAt(memory, Places(memory, offsets, 4)[i])
    {
      RegionFromBytes(memory, Places(memory, offsets, 4)[i]);
    }
  }

  /** The parser's lists, as the searches look at them, are what the bytes say. */
  lemma ListsAreView(memory: Memory, offsets: seq<nat>)
    ensures Nfit(Spas(OfType(memory, offsets, 0)), Mappings(OfType(memory, offsets, 1)),
                 Regions(OfType(memory, offsets, 4)))
         == View(memory, offsets)
  {
    hide RecordAt, Places, Spas, Mappings, Regions, SpaAt, MappingAt, RegionAt, OfType;
    SpasFromBytes(memory, offsets);
    MappingsFromBytes(memory, offsets);
    RegionsFromBytes(memory, offsets);
  }

  method ParseView(memory: Memory, size: nat) returns (result: int, nfit: Nfit)
    ensures size == 0 ==> result == ERR_BADINPUT
    ensures size > 0 ==>
              result == if exists offsets :: Tiling(memory, offsets, HEADER_SIZE, size) then SUCCESS else ERR_BADNFIT
    ensures forall offsets :: result == SUCCESS && Tiling(memory, offsets, HEADER_SIZE, size) ==>
              nfit == View(memory, offsets)
  {
    hide Tiling, OfType, RecordAt, View, Spas, Mappings, Regions;
    nfit := Nfit([], [], []);
    var parsed;
    ghost var touched;
    result, parsed, touched := ParseRawNfit(memory, false, size);
    if parsed != null {
      ghost var offsets :| Tiling(memory, offsets, HEADER_SIZE, size);
      assert parsed.lists[0] == OfType(memory, offsets, 0);
      assert parsed.lists[1] == OfType(memory, offsets, 1);
      assert parsed.lists[4] == OfType(memory, offsets, 4);
      nfit := Nfit(Spas(parsed.lists[0]), Mappings(parsed.lists[1]), Regions(parsed.lists[4]));
      ListsAreView(memory, offsets);
      WalkIffTiling(memory, HEADER_SIZE, size);
    }
  }

  /** The DIMMs of a raw table: the parser's error if the bytes are no sequence of records, and
      otherwise the result of the search. Filling in after counting cannot fail. */
  method DimmsOfTable(memory: Memory, size: nat, count: int, isNull: bool, dimms: seq<NfitDimm>)
    returns (result: int, overrun: bool)
    requires Separate(dimms) && (!isNull && count >= 0 ==> |dimms| == count)
    modifies dimms, set d | d in dimms :: d.ifc
    ensures size == 0 ==> result == -5 && !overrun
    ensures size > 0 && !(exists offsets :: Tiling(memory, offsets, HEADER_SIZE, size)) ==>
              result == -3 && !overrun
    ensures forall offsets :: size > 0 && Tiling(memory, offsets, HEADER_SIZE, size) ==>
              var nfit := View(memory, offsets);
              if nfit.mappings == [] then result == 0 && !overrun
              else if count == 0 then result == DimmCount(nfit) && !overrun
              else if count < DimmCount(nfit) || isNull then result == -5 && !overrun
              else if count < 0 then overrun
              else
                && result == DimmCount(nfit) && !overrun
                && forall i :: 0 <= i < result ==> dimms[i].Info() == DimmOf(nfit, FirstMappings(nfit)[i])
  {
    hide Tiling, View, DimmCount, FirstMappings, DimmOf, Separate;
    var nfit;
    result, nfit := ParseView(memory, size);
    overrun := false;
    if result == SUCCESS {
      result, overrun := GetDimms(count, isNull, dimms, nfit);
    }
  }

  /** The interleave sets of a raw table. */
  method SetsOfTable(memory: Memory, size: nat, count: int, isNull: bool, sets: seq<Interleave.InterleaveSet>,
                     pmRegion: nat)
    returns (result: int, overrun: bool)
    requires Interleave.Separate(sets) && (!isNull && count >= 0 ==> |sets| == count)
    modifies sets, set s | s in sets :: s.dimms, set s | s in sets :: s.pdas
    modifies set s | s in sets :: s.offsets, set s | s in sets :: s.sizes
    ensures size == 0 ==> result == -5 && !overrun
    ensures size > 0 && !(exists offsets :: Tiling(memory, offsets, HEADER_SIZE, size)) ==>
              result == -3 && !overrun
    ensures forall offsets :: size > 0 && Tiling(memory, offsets, HEADER_SIZE, size) ==>
              var nfit := View(memory, offsets);
              var ranges := Interleave.PmRanges(nfit.spas, pmRegion);
              && (overrun <==> !isNull && (count < 0 || !Interleave.RoomForSets(nfit, ranges, count)))
              && (!overrun ==> result == if 0 < count < |ranges| && !isNull then -5 else |ranges|)
              && (!overrun && count > 0 && !isNull && result >= 0 ==> Interleave.Describe(sets, nfit, ranges))
  {
    hide Tiling, View, Interleave.PmRanges, Interleave.Describe, Interleave.Separate, Interleave.RoomForSets;
    var nfit;
    result, nfit := ParseView(memory, size);
    overrun := false;
    if result == SUCCESS {
      ghost var offsets :| Tiling(memory, offsets, HEADER_SIZE, size);
      assert nfit == View(memory, offsets);
      result, overrun := Interleave.GetInterleaveSets(count, isNull, sets, nfit, pmRegion);
    }
  }

  // ---------------------------------------------------------------- written tables

  lemma {:induction false} FieldsLength(entries: seq<Entry>, kind: nat)
    requires kind < KNOWN_TYPES && forall e <- entries :: WellFormed(e)
    ensures forall r <- FieldsOf(entries, kind) :: |r| == |LayoutOf(kind)|
    decreases |entries|
  {
    hide LayoutOf, SizeOf;
    if entries != [] {
      assert WellFormed(entries[0]);
      FieldsLength(entries[1..], kind);
    }
  }

  /** What the searches should see of a table with these records. */
  function WrittenView(entries: seq<Entry>): Nfit
    requires forall e <- entries :: WellFormed(e)
  {
    FieldsLength(entries, 0);
    FieldsLength(entries, 1);
    FieldsLength(entries, 4);
    Nfit(Spas(FieldsOf(entries, 0)), Mappings(FieldsOf(entries, 1)), Regions(FieldsOf(entries, 4)))
  }

  lemma WrittenIsSeen(memory: Memory, header: Record, entries: seq<Entry>)
    requires Fits(header, HEADER) && forall e <- entries :: WellFormed(e)
    requires BytesAt(memory, 0, |Table(header, entries)|) == Table(header, entries)
    ensures |Table(header, entries)| > 0
    ensures exists offsets :: Tiling(memory, offsets, HEADER_SIZE, |Table(header, entries)|)
    ensures forall offsets :: Tiling(memory, offsets, HEADER_SIZE, |Table(header, entries)|) ==>
              View(memory, offsets) == WrittenView(entries)
  {
    hide WellFormed, Tiling, Pack, OfType, FieldsOf, RecordAt, SizeOf, Spas, Mappings, Regions, View;
    HeaderSize();
    TableRoundTrip(memory, header, entries);
    forall offsets | Tiling(memory, offsets, HEADER_SIZE, |Table(header, entries)|)
      ensures View(memory, offsets) == WrittenView(entries)
    {
      ListsAreView(memory, offsets);
    }
  }

  /** From the records a firmware writes to the DIMMs a caller gets: the bytes drop out. */
  method DimmsOfWritten(memory: Memory, ghost header: Record, ghost entries: seq<Entry>, size: nat, dimms: seq<NfitDimm>)
    returns (result: int)
    requires Fits(header, HEADER) && forall e <- entries :: WellFormed(e)
    requires size == |Table(header, entries)| && BytesAt(memory, 0, size) == Table(header, entries)
    requires Separate(dimms) && |dimms| > 0 && WrittenView(entries).mappings != []
    modifies dimms, set d | d in dimms :: d.ifc
    ensures var nfit := WrittenView(entries);
            && result == (if |dimms| < DimmCount(nfit) then -5 else DimmCount(nfit))
            && forall i :: 0 <= i < result ==> dimms[i].Info() == DimmOf(nfit, FirstMappings(nfit)[i])
  {
    hide WellFormed, Tiling, BytesAt, Table, WrittenView, View, DimmCount, FirstMappings, DimmOf, Separate, Fits;
    WrittenIsSeen(memory, header, entries);
    var overrun;
    result, overrun := DimmsOfTable(memory, size, |dimms|, false, dimms);
  }

  /** The same for the interleave sets. */
  method SetsOfWritten(memory: Memory, ghost header: Record, ghost entries: seq<Entry>, size: nat,
                       sets: seq<Interleave.InterleaveSet>, pmRegion: nat)
    returns (result: int, overrun: bool)
    requires Fits(header, HEADER) && forall e <- entries :: WellFormed(e)
    requires size == |Table(header, entries)| && BytesAt(memory, 0, size) == Table(header, entries)
    requires Interleave.Separate(sets) && |sets| > 0
    modifies sets, set s | s in sets :: s.dimms, set s | s in sets :: s.pdas
    modifies set s | s in sets :: s.offsets, set s | s in sets :: s.sizes
    ensures var nfit := WrittenView(entries);
            var ranges := Interleave.PmRanges(nfit.spas, pmRegion);
            && (overrun <==> !Interleave.RoomForSets(nfit, ranges, |sets|))
            && (!overrun ==> result == if |sets| < |ranges| then -5 else |ranges|)
            && (!overrun && result >= 0 ==> Interleave.Describe(sets, nfit, ranges))
  {
    hide WellFormed, Tiling, BytesAt, Table, WrittenView, View, Fits;
    hide Interleave.PmRanges, Interleave.Describe, Interleave.Separate, Interleave.RoomForSets;
    WrittenIsSeen(memory, header, entries);
    result, overrun := SetsOfTable(memory, size, |sets|, false, sets, pmRegion);
  }
}

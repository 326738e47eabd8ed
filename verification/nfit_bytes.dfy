/** The fields of the raw table by their places in the bytes, as sections 5.2.25.1, 5.2.25.2 and
    5.2.25.5 of ACPI 6.2 lay them out. */
module NfitBytes {
  import opened Basics
  import opened LittleEndian
  import opened NfitTables
  import opened NfitParser
  import opened NfitDimm

  /** The records of one type, by place. */
  function Places(memory: Memory, offsets: seq<nat>, kind: Byte): (places: seq<nat>)
    ensures forall p <- places :: p in offsets && memory(p) == kind
  {
    Filter(offsets, p => memory(p) == kind)
  }

  function SpaAt(memory: Memory, p: nat): Spa {
    Spa(rangeIndex := Word(memory, p + 4, 2),
        proximityDomain := Word(memory, p + 12, 4),
        rangeType := Word(memory, p + 16, 16),
        base := Word(memory, p + 32, 8),
        length := Word(memory, p + 40, 8),
        attributes := Word(memory, p + 48, 8))
  }

  function MappingAt(memory: Memory, p: nat): RegionMapping {
    RegionMapping(handle := Word(memory, p + 4, 4),
                  physicalId := Word(memory, p + 8, 2),
                  spaIndex := Word(memory, p + 12, 2),
                  controlRegionIndex := Word(memory, p + 14, 2),
                  regionSize := Word(memory, p + 16, 8),
                  regionOffset := Word(memory, p + 24, 8),
                  physicalAddressBase := Word(memory, p + 32, 8),
                  stateFlag := Word(memory, p + 44, 2))
  }

  function RegionAt(memory: Memory, p: nat): ControlRegion {
    ControlRegion(index := Word(memory, p + 4, 2),
                  vendorId := Word(memory, p + 6, 2),
                  deviceId := Word(memory, p + 8, 2),
                  revisionId := Word(memory, p + 10, 2),
                  subsystemVendorId := Word(memory, p + 12, 2),
                  subsystemDeviceId := Word(memory, p + 14, 2),
                  subsystemRevisionId := Word(memory, p + 16, 2),
                  validFields := Word(memory, p + 18, 1),
                  manufacturingLocation := Word(memory, p + 19, 1),
                  manufacturingDate := Word(memory, p + 20, 2),
                  serialNumber := Word(memory, p + 24, 4),
                  ifc := Word(memory, p + 28, 2))
  }

  /** What the searches see of a table whose records begin at these offsets. */
  function View(memory: Memory, offsets: seq<nat>): Nfit {
    Nfit(Map(Places(memory, offsets, 0), p => SpaAt(memory, p)),
         Map(Places(memory, offsets, 1), p => MappingAt(memory, p)),
         Map(Places(memory, offsets, 4), p => RegionAt(memory, p)))
  }

  // ---------------------------------------------------------------- the parser's records

  lemma {:induction false} RecordsOfType(memory: Memory, offsets: seq<nat>, kind: nat)
    requires kind < KNOWN_TYPES
    ensures OfType(memory, offsets, kind)
         == Map(Places(memory, offsets, kind), p => RecordAt(memory, p, LayoutOf(kind)))
    decreases |offsets|
  {
    hide RecordAt, LayoutOf;
    if offsets != [] {
      RecordsOfType(memory, offsets[1..], kind);
    }
  }

  lemma HeaderOffsets()
    ensures Offsets(HEADER) == [0, 4, 8, 9, 10, 16, 24, 28, 32, 36]
  {
    hide Offsets;
    OffsetsNext(HEADER);
    var o := Offsets(HEADER);
    assert o[0] == 0 && o[1] == 4 && o[2] == 8 && o[3] == 9 && o[4] == 10 && o[5] == 16 && o[6] == 24 && o[7] ==
           28 && o[8] == 32 && o[9] == 36;
  }

  lemma SpaOffsets()
    ensures Offsets(LayoutOf(0)) == [0, 2, 4, 6, 8, 12, 16, 32, 40, 48]
  {
    hide Offsets;
    OffsetsNext(SPA);
    var o := Offsets(SPA);
    assert o[0] == 0 && o[1] == 2 && o[2] == 4 && o[3] == 6 && o[4] == 8 && o[5] == 12 && o[6] == 16 && o[7] ==
           32 && o[8] == 40 && o[9] == 48;
  }

  lemma MappingOffsets()
    ensures Offsets(LayoutOf(1)) == [0, 2, 4, 8, 10, 12, 14, 16, 24, 32, 40, 42, 44, 46]
  {
    hide Offsets;
    OffsetsNext(REGION_MAPPING);
    var o := Offsets(REGION_MAPPING);
    assert o[0] == 0 && o[1] == 2 && o[2] == 4 && o[3] == 8 && o[4] == 10 && o[5] == 12 && o[6] == 14 && o[7] ==
           16 && o[8] == 24 && o[9] == 32 && o[10] == 40 && o[11] == 42 && o[12] == 44 && o[13] == 46;
  }

  lemma InterleaveOffsets()
    ensures Offsets(LayoutOf(2)) == [0, 2, 4, 6, 8, 12]
  {
    hide Offsets;
    OffsetsNext(INTERLEAVE);
    var o := Offsets(INTERLEAVE);
    assert o[0] == 0 && o[1] == 2 && o[2] == 4 && o[3] == 6 && o[4] == 8 && o[5] == 12;
  }

  lemma SmbiosOffsets()
    ensures Offsets(LayoutOf(3)) == [0, 2, 4]
  {
    hide Offsets;
    OffsetsNext(SMBIOS_MANAGEMENT_INFO);
    var o := Offsets(SMBIOS_MANAGEMENT_INFO);
    assert o[0] == 0 && o[1] == 2 && o[2] == 4;
  }

  const REGION_START: Layout := [2, 2, 2, 2, 2, 2, 2, 2, 2, 1, 1, 2]
  const REGION_REST: Layout := [2, 4, 2, 2, 8, 8, 8, 8, 8, 2, 6]

  lemma StartOffsets()
    ensures Offsets(REGION_START) == [0, 2, 4, 6, 8, 10, 12, 14, 16, 18, 19, 20] && SizeOf(REGION_START) == 22
  {
    hide Offsets, SizeOf;
    OffsetsNext(REGION_START);
    var o := Offsets(REGION_START);
    assert o[0] == 0 && o[1] == 2 && o[2] == 4 && o[3] == 6 && o[4] == 8 && o[5] == 10 && o[6] == 12 && o[7] == 14;
    assert o[8] == 16 && o[9] == 18 && o[10] == 19 && o[11] == 20;
    SizeLast(REGION_START);
  }

  lemma RestOffsets()
    ensures Offsets(REGION_REST) == [0, 2, 6, 8, 10, 18, 26, 34, 42, 50, 52]
  {
    hide Offsets, SizeOf;
    OffsetsNext(REGION_REST);
    var o := Offsets(REGION_REST);
    assert o[0] == 0 && o[1] == 2 && o[2] == 6 && o[3] == 8 && o[4] == 10 && o[5] == 18 && o[6] == 26 && o[7] == 34;
    assert o[8] == 42 && o[9] == 50 && o[10] == 52;
  }

  lemma RegionParts()
    ensures LayoutOf(4) == REGION_START + REGION_REST
  {
  }

  lemma RegionOffsets()
    ensures forall i :: 0 <= i < 12 ==>
              Offsets(LayoutOf(4))[i] == [0, 2, 4, 6, 8, 10, 12, 14, 16, 18, 19, 20][i]
    ensures forall i :: 12 <= i < 23 ==>
              Offsets(LayoutOf(4))[i] == [22, 24, 28, 30, 32, 40, 48, 56, 64, 72, 74][i - 12]
  {
    hide Offsets, SizeOf, LayoutOf;
    RegionParts();
    StartOffsets();
    RestOffsets();
    forall i | 0 <= i < 23
      ensures Offsets(LayoutOf(4))[i] == if i < 12 then Offsets(REGION_START)[i] else 22 + Offsets(REGION_REST)[i - 12]
    {
      OffsetsConcat(REGION_START, REGION_REST, i);
    }
  }

  lemma WindowOffsets()
    ensures Offsets(LayoutOf(5)) == [0, 2, 4, 6, 8, 16, 24, 32]
  {
    hide Offsets;
    OffsetsNext(BLOCK_DATA_WINDOW_REGION);
    var o := Offsets(BLOCK_DATA_WINDOW_REGION);
    assert o[0] == 0 && o[1] == 2 && o[2] == 4 && o[3] == 6 && o[4] == 8 && o[5] == 16 && o[6] == 24 && o[7] ==
           32;
  }

  lemma FlushHintOffsets()
    ensures Offsets(LayoutOf(6)) == [0, 2, 4, 8, 10]
  {
    hide Offsets;
    OffsetsNext(FLUSH_HINT_ADDRESS);
    var o := Offsets(FLUSH_HINT_ADDRESS);
    assert o[0] == 0 && o[1] == 2 && o[2] == 4 && o[3] == 8 && o[4] == 10;
  }

  lemma SpaFromBytes(memory: Memory, p: nat)
    ensures AsSpa(RecordAt(memory, p, LayoutOf(0))) == SpaAt(memory, p)
  {
    hide Offsets, RecordAt, Word;
    SpaOffsets();
    forall i | 0 <= i < |SPA|
      ensures RecordAt(memory, p, SPA)[i] == Word(memory, p + Offsets(SPA)[i], SPA[i])
    {
      FieldWord(memory, p, SPA, i);
    }
  }

  lemma MappingFromBytes(memory: Memory, p: nat)
    ensures AsRegionMapping(RecordAt(memory, p, LayoutOf(1))) == MappingAt(memory, p)
  {
    hide Offsets, RecordAt, Word;
    MappingOffsets();
    forall i | 0 <= i < |REGION_MAPPING|
      ensures RecordAt(memory, p, REGION_MAPPING)[i] == Word(memory, p + Offsets(REGION_MAPPING)[i], REGION_MAPPING[i])
    {
      FieldWord(memory, p, REGION_MAPPING, i);
    }
  }

  lemma RegionFromBytes(memory: Memory, p: nat)
    ensures AsControlRegion(RecordAt(memory, p, LayoutOf(4))) == RegionAt(memory, p)
  {
    hide Offsets, RecordAt, Word;
    RegionOffsets();
    forall i | 0 <= i < |CONTROL_REGION|
      ensures RecordAt(memory, p, CONTROL_REGION)[i] == Word(memory, p + Offsets(CONTROL_REGION)[i], CONTROL_REGION[i])
    {
      FieldWord(memory, p, CONTROL_REGION, i);
    }
  }

  /** Every field of every structure in the seven lists. */
  lemma ListsFromBytes(memory: Memory, offsets: seq<nat>, kind: nat, j: nat, i: nat)
    requires kind < KNOWN_TYPES && j < |Places(memory, offsets, kind)| && i < |LayoutOf(kind)|
    ensures |OfType(memory, offsets, kind)| == |Places(memory, offsets, kind)|
    ensures OfType(memory, offsets, kind)[j][i]
         == Word(memory, Places(memory, offsets, kind)[j] + Offsets(LayoutOf(kind))[i], LayoutOf(kind)[i])
  {
    hide Offsets, RecordAt, Word, LayoutOf;
    RecordsOfType(memory, offsets, kind);
    FieldWord(memory, Places(memory, offsets, kind)[j], LayoutOf(kind), i);
  }
}

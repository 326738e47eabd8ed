/** Which bytes the decoder of platform configuration data reads. The source compares the offsets of
    the tables with the size of the data, but neither the lengths of tables nor the counts of
    sub-records. */
module PcdReads {
  import opened LittleEndian
  import opened Ranges
  import opened PcdParser
  import opened PcdRoundTrip
  import opened PcdBytes

  /** Where a table's parser looks for a record: at every record, and at the first of unknown type. */
  function Visited(memory: Memory, base: nat, offset: nat, length: int, partitions: bool): seq<nat>
    decreases length - offset
  {
    var at := base + offset;
    if offset >= length then []
    else
      [at]
      + if !KnownType(memory, at, partitions) || LengthAt(memory, at) == 0 then []
        else Visited(memory, base, offset + LengthAt(memory, at), length, partitions)
  }

  function TableVisited(memory: Memory, base: nat, kind: TableKind): seq<nat> {
    Visited(memory, base, TableSize(kind), AsInt(TableLength(memory, base, kind)), KnowsPartitions(kind))
  }

  /** How far a record is read, whatever it says of its length. */
  function Extent(memory: Memory, at: nat, partitions: bool): nat {
    if !KnownType(memory, at, partitions) then 1
    else if memory(at) == PARTITION_TYPE then PARTITION_READ
    else if IdCount(memory, at) == 0 then INTERLEAVE_READ
    else INTERLEAVE_SIZE + IdCount(memory, at) * ID_INFO_SIZE
  }

  /** How far the fields of a table are read. */
  function FieldExtent(kind: TableKind): nat {
    match kind
    case Current => 56
    case Input => 40
    case Output => 41
  }

  /** Fields and records of the table lie in the data as far as they are read. */
  predicate TableRoomy(memory: Memory, base: nat, kind: TableKind, size: nat) {
    && base + FieldExtent(kind) <= size
    && forall p <- TableVisited(memory, base, kind) :: p + Extent(memory, p, KnowsPartitions(kind)) <= size
  }

  lemma {:induction false} IdsInside(at: nat, count: nat, size: nat)
    ensures Inside(IdReads(at, count), size) <==> count == 0 || at + count * ID_INFO_SIZE <= size
    decreases count
  {
    hide Inside;
    if count > 0 {
      IdsInside(at + ID_INFO_SIZE, count - 1, size);
      InsideOne(Range(at, ID_INFO_SIZE), size);
      InsideBoth([Range(at, ID_INFO_SIZE)], IdReads(at + ID_INFO_SIZE, count - 1), size);
    } else {
      InsideNothing(size);
    }
  }

  lemma RecordInside(memory: Memory, at: nat, partitions: bool, size: nat)
    ensures Inside([Range(at, 1)] + if KnownType(memory, at, partitions) then RecordReads(memory, at) else [], size)
       <==> at + Extent(memory, at, partitions) <= size
  {
    hide Inside, IdReads, IdCount;
    InsideOne(Range(at, 1), size);
    InsideNothing(size);
    InsideOne(Range(at, INTERLEAVE_READ), size);
    InsideOne(Range(at, PARTITION_READ), size);
    IdsInside(at + INTERLEAVE_SIZE, IdCount(memory, at), size);
    InsideBoth([Range(at, INTERLEAVE_READ)], IdReads(at + INTERLEAVE_SIZE, IdCount(memory, at)), size);
    InsideBoth([Range(at, 1)], if KnownType(memory, at, partitions) then RecordReads(memory, at) else [], size);
  }

  lemma {:induction false} ScanInside(memory: Memory, base: nat, offset: nat, length: int, partitions: bool, size: nat)
    ensures Inside(ScanReads(memory, base, offset, length, partitions), size)
       <==> forall p <- Visited(memory, base, offset, length, partitions) :: p + Extent(memory, p, partitions) <= size
    decreases length - offset
  {
    hide Inside, Extent, KnownType, LengthAt, RecordReads, ScanReads, Visited;
    ScanStep(memory, base, offset, length, partitions);
    if offset < length {
      var at := base + offset;
      RecordInside(memory, at, partitions, size);
      if KnownType(memory, at, partitions) && LengthAt(memory, at) > 0 {
        var next := offset + LengthAt(memory, at);
        ScanInside(memory, base, next, length, partitions, size);
        InsideBoth([Range(at, 1)] + RecordReads(memory, at), ScanReads(memory, base, next, length, partitions), size);
      }
    } else {
      InsideNothing(size);
    }
  }

  lemma ScanStep(memory: Memory, base: nat, offset: nat, length: int, partitions: bool)
    ensures var at, reads' := base + offset, ScanReads(memory, base, offset, length, partitions);
            var visited := Visited(memory, base, offset, length, partitions);
            if offset >= length then reads' == [] && visited == []
            else
              var own := [Range(at, 1)] + if KnownType(memory, at, partitions) then RecordReads(memory, at) else [];
              if !KnownType(memory, at, partitions) || LengthAt(memory, at) == 0 then reads' == own && visited == [at]
              else
                && reads' == own + ScanReads(memory, base, offset + LengthAt(memory, at), length, partitions)
                && visited == [at] + Visited(memory, base, offset + LengthAt(memory, at), length, partitions)
  {
    hide KnownType, LengthAt, RecordReads, ScanReads, Visited;
    NextReads(memory, base, offset, length, partitions);
    NextVisited(memory, base, offset, length, partitions);
  }

  lemma NextReads(memory: Memory, base: nat, offset: nat, length: int, partitions: bool)
    ensures var at, all := base + offset, ScanReads(memory, base, offset, length, partitions);
            if offset >= length then all == []
            else if !KnownType(memory, at, partitions) then all == [Range(at, 1)] + []
            else if LengthAt(memory, at) == 0 then all == [Range(at, 1)] + RecordReads(memory, at)
            else
              all == [Range(at, 1)] + RecordReads(memory, at)
                     + ScanReads(memory, base, offset + LengthAt(memory, at), length, partitions)
  {
    hide KnownType, LengthAt, RecordReads, ScanReads;
    ReadsStep(memory, base, offset, length, partitions, []);
    var all := ScanReads(memory, base, offset, length, partitions);
    assert [] + all == all;
    assert [] + [Range(base + offset, 1)] == [Range(base + offset, 1)];
  }

  lemma NextVisited(memory: Memory, base: nat, offset: nat, length: int, partitions: bool)
    ensures var at, all := base + offset, Visited(memory, base, offset, length, partitions);
            if offset >= length then all == []
            else if !KnownType(memory, at, partitions) || LengthAt(memory, at) == 0 then all == [at]
            else all == [at] + Visited(memory, base, offset + LengthAt(memory, at), length, partitions)
  {
    hide KnownType, LengthAt;
  }

  lemma FieldsInside(base: nat, kind: TableKind, size: nat)
    ensures Inside(FieldReads(base, kind), size) <==> base + FieldExtent(kind) <= size
  {
    hide Inside;
    InsideOne(Range(base, 40), size);
    InsideOne(Range(base, 41), size);
    InsideOne(Range(base, 38), size);
    InsideOne(Range(base + 40, 16), size);
    InsideBoth([Range(base, 38)], [Range(base + 40, 16)], size);
    assert [Range(base, 38), Range(base + 40, 16)] == [Range(base, 38)] + [Range(base + 40, 16)];
  }

  lemma TableInside(memory: Memory, base: nat, kind: TableKind, size: nat)
    ensures Inside(TableReads(memory, base, kind), size) <==> TableRoomy(memory, base, kind, size)
  {
    hide Inside, FieldReads, ScanReads, Visited, Extent, TableLength;
    var length, partitions := AsInt(TableLength(memory, base, kind)), KnowsPartitions(kind);
    FieldsInside(base, kind, size);
    ScanInside(memory, base, TableSize(kind), length, partitions, size);
    InsideBoth(FieldReads(base, kind), ScanReads(memory, base, TableSize(kind), length, partitions), size);
  }

  lemma StageInside(memory: Memory, size: nat, kind: TableKind)
    ensures Inside(ReadsOf(memory, size, kind), size)
       <==> (Reached(memory, size, kind) && 0 < OffsetOf(memory, kind) < size ==>
               TableRoomy(memory, OffsetOf(memory, kind), kind, size))
  {
    hide Inside, Reached, TableRoomy, TableReads, OffsetOf;
    TableInside(memory, OffsetOf(memory, kind), kind, size);
    InsideNothing(size);
  }

  /** The decoder reads inside the data only if and only if they hold the whole header, and every
      table that it comes to lies in them as far as it is read: with its fields, and with every
      record and sub-record that is looked at. This is so for all data, whatever comes of them. */
  lemma DataReadsInside(memory: Memory, size: nat)
    ensures Inside(DataReads(memory, size), size) <==>
              && PCD_HEADER_SIZE <= size
              && forall kind: TableKind :: Reached(memory, size, kind) && 0 < OffsetOf(memory, kind) < size ==>
                   TableRoomy(memory, OffsetOf(memory, kind), kind, size)
  {
    hide Inside, Reached, TableRoomy, ReadsOf, OffsetOf;
    var c, i, o := ReadsOf(memory, size, Current), ReadsOf(memory, size, Input), ReadsOf(memory, size, Output);
    InsideOne(Range(0, PCD_HEADER_SIZE), size);
    InsideBoth([Range(0, PCD_HEADER_SIZE)], c, size);
    InsideBoth([Range(0, PCD_HEADER_SIZE)] + c, i, size);
    InsideBoth([Range(0, PCD_HEADER_SIZE)] + c + i, o, size);
    forall kind: TableKind
      ensures Inside(ReadsOf(memory, size, kind), size)
         <==> (Reached(memory, size, kind) && 0 < OffsetOf(memory, kind) < size ==>
                 TableRoomy(memory, OffsetOf(memory, kind), kind, size))
    {
      StageInside(memory, size, kind);
    }
    forall kind: TableKind | Inside(c, size) && Inside(i, size) && Inside(o, size)
      ensures Inside(ReadsOf(memory, size, kind), size)
    {
      match kind
      case Current =>
      case Input =>
      case Output =>
    }
  }

  /** What is read of each structure ends with the last field that is copied. */
  lemma ReadsAreFields(base: nat)
    ensures FieldReads(base, Current)
         == [Range(base, Offsets(CURRENT_CONFIG)[10]), Range(base + Offsets(CURRENT_CONFIG)[11], 8 + 8)]
    ensures FieldReads(base, Input) == [Range(base, Offsets(CONFIG_INPUT)[10])]
    ensures FieldReads(base, Output) == [Range(base, Offsets(CONFIG_OUTPUT)[11])]
    ensures INTERLEAVE_READ == Offsets(INTERLEAVE_INFORMATION)[9]
    ensures PARTITION_READ == Offsets(PARTITION_SIZE_CHANGE)[3] + 8
    ensures PCD_HEADER_SIZE == Offsets(PCD_HEADER)[14] + 4
  {
    hide Offsets;
    CurrentOffsets();
    InputOffsets();
    OutputOffsets();
    InterleaveOffsets();
    PartitionOffsets();
    HeaderOffsets();
  }

  // ---------------------------------------------------------------- written data

  lemma {:induction false} IdsSize(ids: seq<Record>)
    requires forall id <- ids :: Fits(id, ID_INFO)
    ensures |IdsBytes(ids)| == |ids| * ID_INFO_SIZE
    decreases |ids|
  {
    IdInfoSize();
    if ids != [] {
      assert ids[0] in ids;
      IdsSize(ids[1..]);
    }
  }

  lemma PartitionSize()
    ensures SizeOf(PARTITION_SIZE_CHANGE) == PARTITION_READ
  {
  }

  /** A written record is read no further than it reaches. */
  lemma EntryExtent(memory: Memory, at: nat, e: Entry, partitions: bool)
    requires WellFormed(e) && (e.PartitionEntry? ==> partitions)
    requires BytesAt(memory, at, |EntryBytes(e)|) == EntryBytes(e)
    ensures KnownType(memory, at, partitions) && 0 < LengthAt(memory, at) == |EntryBytes(e)|
    ensures Extent(memory, at, partitions) <= |EntryBytes(e)|
  {
    hide RecordAt, LengthAt, Pack, SizeOf, BytesAt, IdsBytes;
    if e.InterleaveEntry? {
      InterleaveRead(memory, at, e);
      InterleaveSize();
      IdsSize(e.ids);
      assert |InterleaveAt(memory, at).ids| == IdCount(memory, at) == |e.ids|;
    } else {
      PartitionRead(memory, at, e);
      PartitionSize();
    }
  }

  lemma {:induction false} EntriesInside(memory: Memory, base: nat, offset: nat, length: int, entries: seq<Entry>,
                                         partitions: bool)
    requires Acceptable(entries, partitions)
    requires BytesAt(memory, base + offset, |EntriesBytes(entries)|) == EntriesBytes(entries)
    requires length == offset + |EntriesBytes(entries)|
    ensures forall p <- Visited(memory, base, offset, length, partitions) ::
              p + Extent(memory, p, partitions) <= base + length
    decreases |entries|
  {
    hide WellFormed, EntryBytes, EntriesBytes, LengthAt, KnownType, Extent, Visited, InterleavesOf, PartitionsOf;
    EntriesHead(entries);
    NextVisited(memory, base, offset, length, partitions);
    if entries != [] {
      var at, e, rest := base + offset, entries[0], entries[1..];
      BytesAtSplit(memory, at, EntryBytes(e), EntriesBytes(rest));
      EntryExtent(memory, at, e, partitions);
      EntriesInside(memory, base, offset + |EntryBytes(e)|, length, rest, partitions);
    }
  }

  lemma WrittenTableRoomy(memory: Memory, base: nat, t: Table, kind: TableKind, size: nat)
    requires WellFormedTable(t, kind) && BytesAt(memory, base, |TableBytes(t, kind)|) == TableBytes(t, kind)
    requires base + |TableBytes(t, kind)| <= size
    ensures TableRoomy(memory, base, kind, size)
  {
    hide Pack, RecordAt, WellFormed, TableLayout, Visited, Extent;
    TableSizes(kind);
    BytesAtSplit(memory, base, Pack(t.fields, TableLayout(kind)), EntriesBytes(t.entries));
    RecordRoundTrip(memory, base, t.fields, TableLayout(kind));
    EntriesInside(memory, base, TableSize(kind), t.fields[1], t.entries, KnowsPartitions(kind));
  }

  /** The table stands in the data with all its bytes, or there is none. */
  ghost predicate StandsInside(memory: Memory, size: nat, offset: nat, t: Table, kind: TableKind) {
    Stands(memory, size, offset, t, kind) && (offset > 0 ==> offset + |TableBytes(t, kind)| <= size)
  }

  /** Header and tables that are written with consistent lengths, wherever in the data they stand, are
      read back without a look behind the end of the data. */
  lemma WrittenReadsInside(memory: Memory, size: nat, header: Record, current: Table, input: Table, output: Table)
    requires Fits(header, PCD_HEADER) && BytesAt(memory, 0, SizeOf(PCD_HEADER)) == Pack(header, PCD_HEADER)
    requires PCD_HEADER_SIZE <= size
    requires StandsInside(memory, size, header[OffsetField(Current)], current, Current)
    requires StandsInside(memory, size, header[OffsetField(Input)], input, Input)
    requires StandsInside(memory, size, header[OffsetField(Output)], output, Output)
    ensures Inside(DataReads(memory, size), size)
  {
    hide Pack, RecordAt, TableBytes, WellFormedTable, TableRoomy, Inside, DataReads, Fits, Reached, BytesAt, SizeOf;
    RecordRoundTrip(memory, 0, header, PCD_HEADER);
    forall kind: TableKind | 0 < OffsetOf(memory, kind) < size
      ensures TableRoomy(memory, OffsetOf(memory, kind), kind, size)
    {
      match kind
      case Current => WrittenTableRoomy(memory, OffsetOf(memory, kind), current, kind, size);
      case Input => WrittenTableRoomy(memory, OffsetOf(memory, kind), input, kind, size);
      case Output => WrittenTableRoomy(memory, OffsetOf(memory, kind), output, kind, size);
    }
    DataReadsInside(memory, size);
  }

  // ---------------------------------------------------------------- data that are read behind their end

  /** A header with a table right behind it, of which only one byte is there. */
  function ShortData(at: nat): Byte {
    if at == 40 then PCD_HEADER_SIZE else 0
  }

  lemma {:induction false} ZeroValue(bytes: Bytes)
    requires forall i :: 0 <= i < |bytes| ==> bytes[i] == 0
    ensures Value(bytes) == 0
    decreases |bytes|
  {
    if bytes != [] {
      ZeroValue(bytes[1..]);
    }
  }

  /** The offset of the table is below the size of the data, so it is decoded, with success. */
  lemma ShortDataOverread()
    ensures Decode(ShortData, 61).outcome == Returns(SUCCESS) && !Inside(DataReads(ShortData, 61), 61)
  {
    hide Inside, DataReads, Value, RecordAt, ScanTable, TableAt, StageTable;
    ShortOffsets();
    FieldAt(ShortData, PCD_HEADER_SIZE, TableLayout(Current), 1);
    ZeroValue(BytesAt(ShortData, 64, 4));
    EmptyTable();
    DataReadsInside(ShortData, 61);
    assert Reached(ShortData, 61, Current) && OffsetOf(ShortData, Current) == 60;
    assert !TableRoomy(ShortData, 60, Current, 61);
  }

  lemma ShortOffsets()
    ensures OffsetOf(ShortData, Current) == 60 && OffsetOf(ShortData, Input) == OffsetOf(ShortData, Output) == 0
  {
    hide Value, RecordAt, BytesAt;
    HeaderPlaces();
    FieldAt(ShortData, 0, PCD_HEADER, 10);
    FieldAt(ShortData, 0, PCD_HEADER, 12);
    FieldAt(ShortData, 0, PCD_HEADER, 14);
    ZeroValue(BytesAt(ShortData, 48, 4));
    ZeroValue(BytesAt(ShortData, 56, 4));
    var bytes := BytesAt(ShortData, 40, 4);
    ZeroValue(bytes[1..]);
    assert Value(bytes) == bytes[0] + 256 * Value(bytes[1..]) by { ValueStep(bytes); }
  }

  lemma ValueStep(bytes: Bytes)
    requires bytes != []
    ensures Value(bytes) == bytes[0] + 256 * Value(bytes[1..])
  {
  }

  /** The offsets stand at 40, 48 and 56. */
  lemma HeaderPlaces()
    ensures SizeOf(PCD_HEADER[..10]) == 40 && SizeOf(PCD_HEADER[..12]) == 48 && SizeOf(PCD_HEADER[..14]) == 56
  {
    var a, b, two: Layout := [4, 4, 1, 1, 6], [8, 4, 4, 4, 4], [4, 4];
    Sizes();
    hide SizeOf;
    SizeOfConcat(a, b);
    SizeOfConcat(a + b, two);
    SizeOfConcat(a + b + two, two);
    assert PCD_HEADER[..10] == a + b && PCD_HEADER[..12] == a + b + two && PCD_HEADER[..14] == a + b + two + two;
  }

  lemma Sizes()
    ensures SizeOf([4, 4, 1, 1, 6]) == 16 && SizeOf([8, 4, 4, 4, 4]) == 24 && SizeOf([4, 4]) == 8
  {
  }

  lemma EmptyTable()
    ensures ScanTable(ShortData, PCD_HEADER_SIZE, Current) == Scanned(Returns(SUCCESS), [])
  {
    hide Value, RecordAt, BytesAt;
    LengthField(ShortData, PCD_HEADER_SIZE, Current);
    ZeroValue(BytesAt(ShortData, 64, 4));
  }
}

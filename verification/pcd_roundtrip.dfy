/** Platform configuration data written out, and what the decoder makes of them. */
module PcdRoundTrip {
  import opened LittleEndian
  import opened PcdParser

  datatype Entry =
    | InterleaveEntry(fields: Record, ids: seq<Record>, padding: Bytes)
    | PartitionEntry(fields: Record, padding: Bytes)

  function IdsBytes(ids: seq<Record>): Bytes
    requires forall id <- ids :: Fits(id, ID_INFO)
  {
    if ids == [] then []
    else
      assert Fits(ids[0], ID_INFO);
      Pack(ids[0], ID_INFO) + IdsBytes(ids[1..])
  }

  /** Type, length and the number of sub-records say what is there. */
  predicate WellFormed(e: Entry) {
    match e
    case InterleaveEntry(fields, ids, padding) =>
      && Fits(fields, INTERLEAVE_INFORMATION) && fields[0] == INTERLEAVE_TYPE && fields[3] == |ids|
      && (forall id <- ids :: Fits(id, ID_INFO))
      && fields[1] == SizeOf(INTERLEAVE_INFORMATION) + |IdsBytes(ids)| + |padding|
    case PartitionEntry(fields, padding) =>
      && Fits(fields, PARTITION_SIZE_CHANGE) && fields[0] == PARTITION_TYPE
      && fields[1] == SizeOf(PARTITION_SIZE_CHANGE) + |padding|
  }

  function EntryBytes(e: Entry): (bytes: Bytes)
    requires WellFormed(e)
    ensures |bytes| == e.fields[1]
  {
    match e
    case InterleaveEntry(fields, ids, padding) => Pack(fields, INTERLEAVE_INFORMATION) + IdsBytes(ids) + padding
    case PartitionEntry(fields, padding) => Pack(fields, PARTITION_SIZE_CHANGE) + padding
  }

  function EntriesBytes(entries: seq<Entry>): Bytes
    requires forall e <- entries :: WellFormed(e)
  {
    if entries == [] then [] else EntryBytes(entries[0]) + EntriesBytes(entries[1..])
  }

  function InterleavesOf(entries: seq<Entry>): seq<InterleaveInfo>
    requires forall e <- entries :: WellFormed(e)
  {
    if entries == [] then []
    else
      assert WellFormed(entries[0]);
      (if entries[0].InterleaveEntry? then [InterleaveInfo(entries[0].fields[..9], entries[0].ids)] else [])
      + InterleavesOf(entries[1..])
  }

  function PartitionsOf(entries: seq<Entry>): seq<Record> {
    if entries == [] then []
    else (if entries[0].PartitionEntry? then [entries[0].fields] else []) + PartitionsOf(entries[1..])
  }

  // ---------------------------------------------------------------- one record

  lemma {:induction false} IdsRead(memory: Memory, at: nat, ids: seq<Record>)
    requires forall id <- ids :: Fits(id, ID_INFO)
    requires BytesAt(memory, at, |IdsBytes(ids)|) == IdsBytes(ids)
    ensures IdsAt(memory, at, |ids|) == ids
    decreases |ids|
  {
    hide Pack, RecordAt;
    IdInfoSize();
    if ids != [] {
      assert ids[0] in ids;
      BytesAtSplit(memory, at, Pack(ids[0], ID_INFO), IdsBytes(ids[1..]));
      RecordRoundTrip(memory, at, ids[0], ID_INFO);
      IdsRead(memory, at + ID_INFO_SIZE, ids[1..]);
      assert ids == [ids[0]] + ids[1..];
    }
  }

  /** A record read back from memory, with its type and length. */
  lemma RecordRead(memory: Memory, at: nat, fields: Record, layout: Layout)
    requires Fits(fields, layout) && |layout| >= 2 && layout[0] == 2 && layout[1] == 2 && fields[0] < 256
    requires BytesAt(memory, at, SizeOf(layout)) == Pack(fields, layout)
    ensures RecordAt(memory, at, layout) == fields
    ensures memory(at) == fields[0] && LengthAt(memory, at) == fields[1]
  {
    RecordRoundTrip(memory, at, fields, layout);
    LengthFirst(memory, at, layout);
    assert Pack(fields, layout) == Encoded(2, fields[0]) + Pack(fields[1..], layout[1..]);
    assert Encoded(2, fields[0])[0] == fields[0];
    assert Pack(fields, layout)[0] == BytesAt(memory, at, SizeOf(layout))[0];
  }

  lemma InterleaveRead(memory: Memory, at: nat, e: Entry)
    requires WellFormed(e) && e.InterleaveEntry? && BytesAt(memory, at, |EntryBytes(e)|) == EntryBytes(e)
    ensures memory(at) == INTERLEAVE_TYPE && LengthAt(memory, at) == |EntryBytes(e)| > 0
    ensures InterleaveAt(memory, at) == InterleaveInfo(e.fields[..9], e.ids)
  {
    hide Pack, RecordAt, IdsBytes, IdsAt, LengthAt;
    var head, ids := Pack(e.fields, INTERLEAVE_INFORMATION), IdsBytes(e.ids);
    InterleaveSize();
    BytesAtSplit(memory, at, head + ids, e.padding);
    BytesAtSplit(memory, at, head, ids);
    RecordRead(memory, at, e.fields, INTERLEAVE_INFORMATION);
    IdsRead(memory, at + |head|, e.ids);
  }

  lemma PartitionRead(memory: Memory, at: nat, e: Entry)
    requires WellFormed(e) && e.PartitionEntry? && BytesAt(memory, at, |EntryBytes(e)|) == EntryBytes(e)
    ensures memory(at) == PARTITION_TYPE && LengthAt(memory, at) == |EntryBytes(e)| > 0
    ensures RecordAt(memory, at, PARTITION_SIZE_CHANGE) == e.fields
  {
    hide Pack, RecordAt, LengthAt;
    assert SizeOf(PARTITION_SIZE_CHANGE) > 0;
    BytesAtSplit(memory, at, Pack(e.fields, PARTITION_SIZE_CHANGE), e.padding);
    RecordRead(memory, at, e.fields, PARTITION_SIZE_CHANGE);
  }

  // ---------------------------------------------------------------- one table

  predicate Acceptable(entries: seq<Entry>, partitions: bool) {
    forall e <- entries :: WellFormed(e) && (e.PartitionEntry? ==> partitions)
  }

  lemma {:induction false} EntriesRead(memory: Memory, base: nat, offset: nat, length: int, entries: seq<Entry>,
                                       partitions: bool)
    requires Acceptable(entries, partitions)
    requires BytesAt(memory, base + offset, |EntriesBytes(entries)|) == EntriesBytes(entries)
    requires length == offset + |EntriesBytes(entries)|
    ensures var s := Scan(memory, base, offset, length, partitions);
            && s.outcome == Returns(SUCCESS)
            && InterleavesAt(memory, s.places) == InterleavesOf(entries)
            && PartitionsAt(memory, s.places) == PartitionsOf(entries)
    decreases |entries|
  {
    hide WellFormed, EntryBytes, RecordAt, InterleaveAt, LengthAt;
    hide Scan, InterleavesAt, PartitionsAt, InterleavesOf, PartitionsOf, EntriesBytes;
    EntriesHead(entries);
    if entries == [] {
      BeforeStops(memory, base, offset, length, partitions, []);
      NothingBefore(memory, Scan(memory, base, offset, length, partitions));
    } else {
      var at, e, rest := base + offset, entries[0], entries[1..];
      assert EntriesBytes(entries) == EntryBytes(e) + EntriesBytes(rest);
      BytesAtSplit(memory, at, EntryBytes(e), EntriesBytes(rest));
      if e.InterleaveEntry? {
        InterleaveRead(memory, at, e);
      } else {
        PartitionRead(memory, at, e);
      }
      EntriesRead(memory, base, offset + |EntryBytes(e)|, length, rest, partitions);
      BeforeStep(memory, base, offset, length, partitions, []);
      NothingBefore(memory, Scan(memory, base, offset, length, partitions));
      PlacesHead(memory, at, Scan(memory, base, offset + |EntryBytes(e)|, length, partitions).places);
      assert [] + [at] == [at];
    }
  }

  lemma EntriesHead(entries: seq<Entry>)
    requires forall e <- entries :: WellFormed(e)
    ensures entries == [] ==> EntriesBytes(entries) == [] && InterleavesOf(entries) == [] && PartitionsOf(entries) == []
    ensures entries != [] ==>
              var e, rest := entries[0], entries[1..];
              && WellFormed(e) && EntriesBytes(entries) == EntryBytes(e) + EntriesBytes(rest)
              && InterleavesOf(entries)
                 == (if e.InterleaveEntry? then [InterleaveInfo(e.fields[..9], e.ids)] else []) + InterleavesOf(rest)
              && PartitionsOf(entries) == (if e.PartitionEntry? then [e.fields] else []) + PartitionsOf(rest)
  {
    hide EntryBytes, IdsBytes, Fits;
    if entries != [] {
      assert WellFormed(entries[0]);
    }
  }

  lemma PlacesHead(memory: Memory, at: nat, places: seq<nat>)
    ensures InterleavesAt(memory, [at] + places)
         == (if memory(at) == INTERLEAVE_TYPE then [InterleaveAt(memory, at)] else []) + InterleavesAt(memory, places)
    ensures PartitionsAt(memory, [at] + places)
         == (if memory(at) == PARTITION_TYPE then [RecordAt(memory, at, PARTITION_SIZE_CHANGE)] else [])
            + PartitionsAt(memory, places)
  {
    hide InterleaveAt, RecordAt;
    assert ([at] + places)[1..] == places;
  }

  datatype Table = Table(fields: Record, entries: seq<Entry>)

  /** The length in the table's header covers header and records. */
  predicate WellFormedTable(t: Table, kind: TableKind) {
    && Fits(t.fields, TableLayout(kind)) && Acceptable(t.entries, kind != Current)
    && t.fields[1] == TableSize(kind) + |EntriesBytes(t.entries)| < 0x8000_0000
  }

  function TableBytes(t: Table, kind: TableKind): Bytes
    requires WellFormedTable(t, kind)
  {
    Pack(t.fields, TableLayout(kind)) + EntriesBytes(t.entries)
  }

  /** What reading the table back yields: the copied fields, the interleave records with their
      sub-records, and the partition changes, each in order. */
  function ContentsOf(t: Table, kind: TableKind): TableInfo
    requires WellFormedTable(t, kind)
  {
    TableInfo(Kept(kind, t.fields), InterleavesOf(t.entries), PartitionsOf(t.entries))
  }

  lemma TableRead(memory: Memory, base: nat, t: Table, kind: TableKind)
    requires WellFormedTable(t, kind) && BytesAt(memory, base, |TableBytes(t, kind)|) == TableBytes(t, kind)
    ensures ScanTable(memory, base, kind).outcome == Returns(SUCCESS)
    ensures TableAt(memory, base, kind) == ContentsOf(t, kind)
  {
    hide Pack, RecordAt, WellFormed, Scan, InterleavesAt, PartitionsAt, InterleavesOf, PartitionsOf, TableLayout;
    TableSizes(kind);
    BytesAtSplit(memory, base, Pack(t.fields, TableLayout(kind)), EntriesBytes(t.entries));
    RecordRoundTrip(memory, base, t.fields, TableLayout(kind));
    EntriesRead(memory, base, TableSize(kind), t.fields[1], t.entries, KnowsPartitions(kind));
  }

  // ---------------------------------------------------------------- the whole of the data

  /** The table of this kind stands where the header says, or the header says there is none. */
  ghost predicate Stands(memory: Memory, size: nat, offset: nat, t: Table, kind: TableKind) {
    && offset < size && WellFormedTable(t, kind)
    && (offset > 0 ==> BytesAt(memory, offset, |TableBytes(t, kind)|) == TableBytes(t, kind))
  }

  function ContentsIfAny(offset: nat, t: Table, kind: TableKind): TableInfo
    requires WellFormedTable(t, kind)
  {
    if offset == 0 then NO_TABLE else ContentsOf(t, kind)
  }

  lemma StageRead(memory: Memory, size: nat, offset: nat, t: Table, kind: TableKind)
    requires Stands(memory, size, offset, t, kind)
    ensures StageOutcome(memory, offset, size, kind) == Returns(SUCCESS)
    ensures StageTable(memory, offset, size, kind) == ContentsIfAny(offset, t, kind)
  {
    hide ScanTable, TableAt, WellFormedTable, TableBytes, ContentsOf;
    if offset > 0 {
      TableRead(memory, offset, t, kind);
    }
  }

  /** Decoding gives back the header and the three tables, wherever in the data they stand. */
  lemma DataRoundTrip(memory: Memory, size: nat, header: Record, current: Table, input: Table, output: Table)
    requires Fits(header, PCD_HEADER) && BytesAt(memory, 0, SizeOf(PCD_HEADER)) == Pack(header, PCD_HEADER)
    requires Stands(memory, size, header[OffsetField(Current)], current, Current)
    requires Stands(memory, size, header[OffsetField(Input)], input, Input)
    requires Stands(memory, size, header[OffsetField(Output)], output, Output)
    ensures Decode(memory, size)
         == Decoded(Returns(SUCCESS), header,
                    ContentsIfAny(header[OffsetField(Current)], current, Current),
                    ContentsIfAny(header[OffsetField(Input)], input, Input),
                    ContentsIfAny(header[OffsetField(Output)], output, Output))
  {
    RecordRoundTrip(memory, 0, header, PCD_HEADER);
    hide StageOutcome, StageTable, RecordAt, ContentsIfAny, Fits, Pack, TableBytes;
    StageRead(memory, size, header[OffsetField(Current)], current, Current);
    StageRead(memory, size, header[OffsetField(Input)], input, Input);
    StageRead(memory, size, header[OffsetField(Output)], output, Output);
  }

  // ---------------------------------------------------------------- one way to write it

  lemma PcdHeaderSize()
    ensures SizeOf(PCD_HEADER) == PCD_HEADER_SIZE
  {
    var a, b: Layout := [4, 4, 1, 1, 6, 8, 4, 4, 4], [4, 4, 4, 4, 4, 4];
    assert PCD_HEADER == a + b;
    SizeOfConcat(a, b);
  }

  function MemoryOf(bytes: Bytes): Memory {
    (i: nat) => if i < |bytes| then bytes[i] else 0
  }

  function WithOffsets(fields: Record, current: nat, input: nat, output: nat): (header: Record)
    requires |fields| == |PCD_HEADER|
    ensures |header| == |PCD_HEADER|
    ensures header[OffsetField(Current)] == current
    ensures header[OffsetField(Input)] == input
    ensures header[OffsetField(Output)] == output
  {
    fields[10 := current][12 := input][14 := output]
  }

  /** The three tables one behind the other, as bytes. */
  datatype Tables = Tables(current: Bytes, input: Bytes, output: Bytes)

  function HeaderFor(fields: Record, t: Tables): (header: Record)
    requires |fields| == |PCD_HEADER|
    ensures |header| == |PCD_HEADER|
  {
    WithOffsets(fields, PCD_HEADER_SIZE, PCD_HEADER_SIZE + |t.current|, PCD_HEADER_SIZE + |t.current| + |t.input|)
  }

  function Blob(header: Record, t: Tables): Bytes
    requires |header| == |PCD_HEADER|
  {
    Pack(header, PCD_HEADER) + t.current + t.input + t.output
  }

  lemma WholeInMemory(bytes: Bytes)
    ensures BytesAt(MemoryOf(bytes), 0, |bytes|) == bytes
  {
  }

  /** Header and tables stand where the header says. */
  lemma PartsInMemory(header: Record, t: Tables)
    requires |header| == |PCD_HEADER|
    ensures var memory, at := MemoryOf(Blob(header, t)), PCD_HEADER_SIZE;
            && BytesAt(memory, 0, at) == Pack(header, PCD_HEADER)
            && BytesAt(memory, at, |t.current|) == t.current
            && BytesAt(memory, at + |t.current|, |t.input|) == t.input
            && BytesAt(memory, at + |t.current| + |t.input|, |t.output|) == t.output
    ensures |Blob(header, t)| == PCD_HEADER_SIZE + |t.current| + |t.input| + |t.output|
  {
    hide MemoryOf, Pack, BytesAt, SizeOf;
    PcdHeaderSize();
    var h, memory := Pack(header, PCD_HEADER), MemoryOf(Blob(header, t));
    WholeInMemory(Blob(header, t));
    BytesAtSplit(memory, 0, h + t.current + t.input, t.output);
    BytesAtSplit(memory, 0, h + t.current, t.input);
    BytesAtSplit(memory, 0, h, t.current);
  }

  /** Decoding what was written is the identity: the header, and each table with all its records. */
  lemma BlobRoundTrip(fields: Record, current: Table, input: Table, output: Table)
    requires |fields| == |PCD_HEADER|
    requires WellFormedTable(current, Current) && WellFormedTable(input, Input) && WellFormedTable(output, Output)
    requires Fits(HeaderFor(fields, Tables(TableBytes(current, Current), TableBytes(input, Input),
                                           TableBytes(output, Output))),
                  PCD_HEADER)
    ensures var t := Tables(TableBytes(current, Current), TableBytes(input, Input), TableBytes(output, Output));
            var bytes := Blob(HeaderFor(fields, t), t);
            Decode(MemoryOf(bytes), |bytes|)
            == Decoded(Returns(SUCCESS), HeaderFor(fields, t),
                       ContentsOf(current, Current), ContentsOf(input, Input), ContentsOf(output, Output))
  {
    hide Decode, WellFormedTable, TableBytes, Pack, ContentsOf, MemoryOf, OffsetField, BytesAt, Fits, WithOffsets,
         Stands, Blob, SizeOf;
    PcdHeaderSize();
    var t := Tables(TableBytes(current, Current), TableBytes(input, Input), TableBytes(output, Output));
    var header := HeaderFor(fields, t);
    PartsInMemory(header, t);
    var memory, size, at := MemoryOf(Blob(header, t)), |Blob(header, t)|, PCD_HEADER_SIZE;
    StandsIn(memory, size, at, current, Current);
    StandsIn(memory, size, at + |t.current|, input, Input);
    StandsIn(memory, size, at + |t.current| + |t.input|, output, Output);
    DataRoundTrip(memory, size, header, current, input, output);
  }

  lemma StandsIn(memory: Memory, size: nat, offset: nat, t: Table, kind: TableKind)
    requires WellFormedTable(t, kind) && offset + |TableBytes(t, kind)| <= size
    requires BytesAt(memory, offset, |TableBytes(t, kind)|) == TableBytes(t, kind)
    ensures Stands(memory, size, offset, t, kind)
  {
    TableSizes(kind);
  }
}

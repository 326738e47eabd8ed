/** The configuration tables by their bytes: what is copied from where, and how a table or the whole
    of the data comes out. */
module PcdBytes {
  import opened Basics
  import opened LittleEndian
  import opened PcdParser

  // ---------------------------------------------------------------- which fields are copied

  /** The fields all three tables begin with: signature, length, revision, checksum, manufacturer, its
      name for the table, and three revisions and names. */
  function CommonFields(memory: Memory, base: nat): Record {
    [Word(memory, base, 4), Word(memory, base + 4, 4), Word(memory, base + 8, 1), Word(memory, base + 9, 1),
     Word(memory, base + 10, 6), Word(memory, base + 16, 8), Word(memory, base + 24, 4), Word(memory, base + 28, 4),
     Word(memory, base + 32, 4)]
  }

  /** Behind them: status and the two sizes of the current configuration; a sequence number; a sequence
      number and the validation status. */
  function OwnFields(memory: Memory, base: nat, kind: TableKind): Record {
    match kind
    case Current => [Word(memory, base + 36, 2), Word(memory, base + 40, 8), Word(memory, base + 48, 8)]
    case Input => [Word(memory, base + 36, 4)]
    case Output => [Word(memory, base + 36, 4), Word(memory, base + 40, 1)]
  }

  lemma CurrentOffsets()
    ensures Offsets(CURRENT_CONFIG) == [0, 4, 8, 9, 10, 16, 24, 28, 32, 36, 38, 40, 48]
  {
    hide Offsets;
    OffsetsNext(CURRENT_CONFIG);
    var o := Offsets(CURRENT_CONFIG);
    assert o[0] == 0 && o[1] == 4 && o[2] == 8 && o[3] == 9 && o[4] == 10 && o[5] == 16 && o[6] == 24 && o[7] ==
           28 && o[8] == 32 && o[9] == 36 && o[10] == 38 && o[11] == 40 && o[12] == 48;
  }

  lemma InputOffsets()
    ensures Offsets(CONFIG_INPUT) == [0, 4, 8, 9, 10, 16, 24, 28, 32, 36, 40]
  {
    hide Offsets;
    OffsetsNext(CONFIG_INPUT);
    var o := Offsets(CONFIG_INPUT);
    assert o[0] == 0 && o[1] == 4 && o[2] == 8 && o[3] == 9 && o[4] == 10 && o[5] == 16 && o[6] == 24 && o[7] ==
           28 && o[8] == 32 && o[9] == 36 && o[10] == 40;
  }

  lemma OutputOffsets()
    ensures Offsets(CONFIG_OUTPUT) == [0, 4, 8, 9, 10, 16, 24, 28, 32, 36, 40, 41]
  {
    hide Offsets;
    OffsetsNext(CONFIG_OUTPUT);
    var o := Offsets(CONFIG_OUTPUT);
    assert o[0] == 0 && o[1] == 4 && o[2] == 8 && o[3] == 9 && o[4] == 10 && o[5] == 16 && o[6] == 24 && o[7] ==
           28 && o[8] == 32 && o[9] == 36 && o[10] == 40 && o[11] == 41;
  }

  lemma HeaderOffsets()
    ensures Offsets(PCD_HEADER) == [0, 4, 8, 9, 10, 16, 24, 28, 32, 36, 40, 44, 48, 52, 56]
  {
    hide Offsets;
    OffsetsNext(PCD_HEADER);
    var o := Offsets(PCD_HEADER);
    assert o[0] == 0 && o[1] == 4 && o[2] == 8 && o[3] == 9 && o[4] == 10 && o[5] == 16 && o[6] == 24 && o[7] ==
           28 && o[8] == 32 && o[9] == 36 && o[10] == 40 && o[11] == 44 && o[12] == 48 && o[13] == 52 && o[14]
           == 56;
  }

  lemma InterleaveOffsets()
    ensures Offsets(INTERLEAVE_INFORMATION) == [0, 2, 4, 6, 7, 8, 12, 13, 14, 15]
  {
    hide Offsets;
    OffsetsNext(INTERLEAVE_INFORMATION);
    var o := Offsets(INTERLEAVE_INFORMATION);
    assert o[0] == 0 && o[1] == 2 && o[2] == 4 && o[3] == 6 && o[4] == 7 && o[5] == 8 && o[6] == 12 && o[7] ==
           13 && o[8] == 14 && o[9] == 15;
  }

  lemma PartitionOffsets()
    ensures Offsets(PARTITION_SIZE_CHANGE) == [0, 2, 4, 8]
  {
    hide Offsets;
    OffsetsNext(PARTITION_SIZE_CHANGE);
    var o := Offsets(PARTITION_SIZE_CHANGE);
    assert o[0] == 0 && o[1] == 2 && o[2] == 4 && o[3] == 8;
  }

  lemma IdOffsets()
    ensures Offsets(ID_INFO) == [0, 32, 40]
  {
    hide Offsets;
    OffsetsNext(ID_INFO);
    var o := Offsets(ID_INFO);
    assert o[0] == 0 && o[1] == 32 && o[2] == 40;
  }

  /** All fields of a structure at once. */
  lemma FieldWords(memory: Memory, base: nat, layout: Layout)
    ensures forall i :: 0 <= i < |layout| ==>
              RecordAt(memory, base, layout)[i] == Word(memory, base + Offsets(layout)[i], layout[i])
  {
    hide Offsets, RecordAt, Word;
    forall i | 0 <= i < |layout|
      ensures RecordAt(memory, base, layout)[i] == Word(memory, base + Offsets(layout)[i], layout[i])
    {
      FieldWord(memory, base, layout, i);
    }
  }

  lemma CurrentFields(memory: Memory, base: nat)
    ensures Kept(Current, RecordAt(memory, base, CURRENT_CONFIG))
         == CommonFields(memory, base) + OwnFields(memory, base, Current)
  {
    hide Offsets, RecordAt, Word;
    FieldWords(memory, base, CURRENT_CONFIG);
    CurrentOffsets();
  }

  lemma InputFields(memory: Memory, base: nat)
    ensures Kept(Input, RecordAt(memory, base, CONFIG_INPUT))
         == CommonFields(memory, base) + OwnFields(memory, base, Input)
  {
    hide Offsets, RecordAt, Word;
    FieldWords(memory, base, CONFIG_INPUT);
    InputOffsets();
  }

  lemma OutputFields(memory: Memory, base: nat)
    ensures Kept(Output, RecordAt(memory, base, CONFIG_OUTPUT))
         == CommonFields(memory, base) + OwnFields(memory, base, Output)
  {
    hide Offsets, RecordAt, Word;
    FieldWords(memory, base, CONFIG_OUTPUT);
    OutputOffsets();
  }

  /** What is copied of a table, and from where. */
  lemma FieldsFromBytes(memory: Memory, base: nat, kind: TableKind)
    ensures TableAt(memory, base, kind).fields == CommonFields(memory, base) + OwnFields(memory, base, kind)
  {
    hide RecordAt, Kept, CommonFields, OwnFields, ScanTable, InterleavesAt, PartitionsAt;
    CurrentFields(memory, base);
    InputFields(memory, base);
    OutputFields(memory, base);
  }

  /** The header of the data; the last six fields are the sizes and the offsets of the three tables. */
  lemma HeaderFromBytes(memory: Memory)
    ensures RecordAt(memory, 0, PCD_HEADER)
         == CommonFields(memory, 0)
            + [Word(memory, 36, 4), Word(memory, 40, 4), Word(memory, 44, 4), Word(memory, 48, 4), Word(memory, 52, 4),
               Word(memory, 56, 4)]
    ensures OffsetOf(memory, Current) == Word(memory, 40, 4)
    ensures OffsetOf(memory, Input) == Word(memory, 48, 4)
    ensures OffsetOf(memory, Output) == Word(memory, 56, 4)
  {
    hide Offsets, RecordAt, Word;
    FieldWords(memory, 0, PCD_HEADER);
    HeaderOffsets();
  }

  // ---------------------------------------------------------------- records

  /** An interleave record: nine of its fields, and as many sub-records as the fourth one says. */
  lemma InterleaveFromBytes(memory: Memory, p: nat)
    ensures var info := InterleaveAt(memory, p);
            && info.fields
               == [Word(memory, p, 2), Word(memory, p + 2, 2), Word(memory, p + 4, 2), Word(memory, p + 6, 1),
                   Word(memory, p + 7, 1), Word(memory, p + 8, 4), Word(memory, p + 12, 1), Word(memory, p + 13, 1),
                   Word(memory, p + 14, 1)]
            && |info.ids| == memory(p + 6)
            && forall k :: 0 <= k < |info.ids| ==>
                 info.ids[k] == [Word(memory, p + 24 + 48 * k, 32), Word(memory, p + 24 + 48 * k + 32, 8),
                                 Word(memory, p + 24 + 48 * k + 40, 8)]
  {
    hide Offsets, RecordAt, Word, IdsAt;
    FieldWords(memory, p, INTERLEAVE_INFORMATION);
    InterleaveOffsets();
    WordIs(memory, p + 6);
    forall k | 0 <= k < memory(p + 6)
      ensures IdsAt(memory, p + 24, memory(p + 6))[k]
           == [Word(memory, p + 24 + 48 * k, 32), Word(memory, p + 24 + 48 * k + 32, 8),
               Word(memory, p + 24 + 48 * k + 40, 8)]
    {
      IdAt(memory, p + 24, memory(p + 6), k);
      IdFromBytes(memory, p + 24 + 48 * k);
    }
  }

  lemma IdFromBytes(memory: Memory, p: nat)
    ensures RecordAt(memory, p, ID_INFO) == [Word(memory, p, 32), Word(memory, p + 32, 8), Word(memory, p + 40, 8)]
  {
    hide Offsets, RecordAt, Word;
    FieldWords(memory, p, ID_INFO);
    IdOffsets();
  }

  lemma {:induction false} IdAt(memory: Memory, at: nat, count: nat, k: nat)
    requires k < count
    ensures IdsAt(memory, at, count)[k] == RecordAt(memory, at + 48 * k, ID_INFO)
    decreases count
  {
    hide RecordAt;
    if k > 0 {
      IdAt(memory, at + 48, count - 1, k - 1);
    }
  }

  lemma PartitionFromBytes(memory: Memory, p: nat)
    ensures RecordAt(memory, p, PARTITION_SIZE_CHANGE)
         == [Word(memory, p, 2), Word(memory, p + 2, 2), Word(memory, p + 4, 4), Word(memory, p + 8, 8)]
  {
    hide Offsets, RecordAt, Word;
    FieldWords(memory, p, PARTITION_SIZE_CHANGE);
    PartitionOffsets();
  }

  /** Records of type 5 go to one list, records of type 4 to the other. */
  lemma {:induction false} InterleavesFiltered(memory: Memory, places: seq<nat>)
    ensures InterleavesAt(memory, places) == Map(Filter(places, p => memory(p) == 5), p => InterleaveAt(memory, p))
    decreases |places|
  {
    hide InterleaveAt;
    if places != [] {
      InterleavesFiltered(memory, places[1..]);
    }
  }

  lemma {:induction false} PartitionsFiltered(memory: Memory, places: seq<nat>)
    ensures PartitionsAt(memory, places)
         == Map(Filter(places, p => memory(p) == 4), p => RecordAt(memory, p, PARTITION_SIZE_CHANGE))
    decreases |places|
  {
    hide RecordAt;
    if places != [] {
      PartitionsFiltered(memory, places[1..]);
    }
  }

  // ---------------------------------------------------------------- how a table comes out

  /** The types a table knows: interleave information, and in the input and output tables partition
      changes as well. */
  predicate Known(memory: Memory, p: nat, kind: TableKind) {
    memory(p) == 5 || (memory(p) == 4 && kind != Current)
  }

  lemma KnownIs(memory: Memory, p: nat, kind: TableKind)
    ensures KnownType(memory, p, KnowsPartitions(kind)) <==> Known(memory, p, kind)
  {
  }

  /** Where the next record begins. */
  function Behind(memory: Memory, p: nat): nat {
    p + Word(memory, p + 2, 2)
  }

  lemma LengthIsWord(memory: Memory, p: nat)
    ensures LengthAt(memory, p) == Word(memory, p + 2, 2)
  {
    LengthIs(memory, p);
    WordIs(memory, p + 2);
  }

  /** Records of known types and positive lengths, one behind the other, all beginning in front of the
      stop. */
  predicate Records(memory: Memory, at: nat, places: seq<nat>, stop: int, kind: TableKind) {
    && (places != [] ==> places[0] == at)
    && (forall i :: 0 <= i < |places| ==>
          places[i] < stop && Known(memory, places[i], kind) && Behind(memory, places[i]) > places[i])
    && (forall i {:trigger Behind(memory, places[i])} :: 0 <= i < |places| - 1 ==>
          places[i + 1] == Behind(memory, places[i]))
  }

  function EndOf(memory: Memory, at: nat, places: seq<nat>): nat {
    if places == [] then at else Behind(memory, places[|places| - 1])
  }

  /** Where the records of a table begin, and where they stop: the length is a signed number. */
  function Start(base: nat, kind: TableKind): nat {
    if kind == Current then base + 56 else base + 48
  }

  function Stop(memory: Memory, base: nat): int {
    var length := Word(memory, base + 4, 4);
    base + if length < 0x8000_0000 then length else length - 0x1_0000_0000
  }

  lemma {:induction false} RecordsScanned(memory: Memory, base: nat, offset: nat, length: int, kind: TableKind,
                                          places: seq<nat>)
    requires Records(memory, base + offset, places, base + length, kind)
    ensures base + offset <= EndOf(memory, base + offset, places)
    ensures Scan(memory, base, offset, length, KnowsPartitions(kind))
         == Before(places, Scan(memory, base, EndOf(memory, base + offset, places) - base, length, KnowsPartitions(kind)))
    decreases |places|
  {
    hide Scan, LengthAt, KnownType, Known, Word, Records, KnowsPartitions;
    var n := |places| - 1;
    if places == [] {
      NothingBefore(memory, Scan(memory, base, offset, length, KnowsPartitions(kind)));
    } else {
      var p := places[n];
      LastRecord(memory, base + offset, places, base + length, kind);
      RecordsScanned(memory, base, offset, length, kind, places[..n]);
      KnownIs(memory, p, kind);
      LengthIsWord(memory, p);
      BeforeStep(memory, base, p - base, length, KnowsPartitions(kind), places[..n]);
    }
  }

  lemma LastRecord(memory: Memory, at: nat, places: seq<nat>, stop: int, kind: TableKind)
    requires Records(memory, at, places, stop, kind) && places != []
    ensures var n := |places| - 1;
            && Records(memory, at, places[..n], stop, kind) && places == places[..n] + [places[n]]
            && places[n] == EndOf(memory, at, places[..n]) && places[n] < stop
            && Known(memory, places[n], kind) && Behind(memory, places[n]) > places[n]
  {
    hide Known, Behind;
    var n := |places| - 1;
    assert n > 0 ==> places[n - 1 + 1] == Behind(memory, places[n - 1]);
  }

  lemma FirstRecord(memory: Memory, at: nat, rest: seq<nat>, stop: int, kind: TableKind)
    requires at < stop && Known(memory, at, kind) && Behind(memory, at) > at
    requires Records(memory, Behind(memory, at), rest, stop, kind)
    ensures Records(memory, at, [at] + rest, stop, kind)
    ensures EndOf(memory, at, [at] + rest) == EndOf(memory, Behind(memory, at), rest)
  {
    hide Known, Behind;
    var places := [at] + rest;
    forall i | 0 <= i < |places| - 1
      ensures places[i + 1] == Behind(memory, places[i])
    {
      assert i > 0 ==> rest[i - 1 + 1] == Behind(memory, rest[i - 1]);
    }
  }

  /** What comes of a table: success when the stop is reached, an error at a record of unknown type, and
      no end at a record of length zero. */
  lemma TableOutcome(memory: Memory, base: nat, kind: TableKind, places: seq<nat>)
    requires Records(memory, Start(base, kind), places, Stop(memory, base), kind)
    ensures var end := EndOf(memory, Start(base, kind), places);
            ScanTable(memory, base, kind)
            == if end >= Stop(memory, base) then Scanned(Returns(0), places)
               else if !Known(memory, end, kind) then Scanned(Returns(2), places)
               else if Behind(memory, end) == end then Scanned(RunsForever, places + [end])
               else ScanTable(memory, base, kind)
  {
    hide Scan, LengthAt, KnownType, Known, Word, Records, EndOf, TableLength;
    var end, length := EndOf(memory, Start(base, kind), places), AsInt(TableLength(memory, base, kind));
    LengthField(memory, base, kind);
    WordUnfolds(memory, base + 4, 4);
    RecordsScanned(memory, base, TableSize(kind), length, kind, places);
    KnownIs(memory, end, kind);
    LengthIsWord(memory, end);
    BeforeStops(memory, base, end - base, length, KnowsPartitions(kind), places);
  }

  lemma WordUnfolds(memory: Memory, at: nat, width: nat)
    ensures Word(memory, at, width) == Value(BytesAt(memory, at, width))
  {
  }

  lemma NoRecords(memory: Memory, at: nat, stop: int, kind: TableKind)
    ensures Records(memory, at, [], stop, kind) && EndOf(memory, at, []) == at
  {
  }

  /** And one of the three always comes. */
  lemma {:induction false} TableRecords(memory: Memory, at: nat, stop: int, kind: TableKind) returns (places: seq<nat>)
    ensures Records(memory, at, places, stop, kind)
    ensures var end := EndOf(memory, at, places);
            end >= stop || !Known(memory, end, kind) || Behind(memory, end) == end
    decreases stop - at
  {
    hide Known, Word, EndOf;
    NoRecords(memory, at, stop, kind);
    places := [];
    if at < stop && Known(memory, at, kind) && Behind(memory, at) > at {
      var rest := TableRecords(memory, Behind(memory, at), stop, kind);
      FirstRecord(memory, at, rest, stop, kind);
      places := [at] + rest;
    }
  }

  /** So a table is parsed with success if and only if such records reach its stop. */
  lemma TableSucceedsIff(memory: Memory, base: nat, kind: TableKind)
    ensures ScanTable(memory, base, kind).outcome == Returns(0) <==>
              exists places :: Records(memory, Start(base, kind), places, Stop(memory, base), kind)
                            && EndOf(memory, Start(base, kind), places) >= Stop(memory, base)
  {
    hide ScanTable, Records, EndOf, Known, Word, Stop, Start, Behind;
    var places := TableRecords(memory, Start(base, kind), Stop(memory, base), kind);
    TableOutcome(memory, base, kind, places);
    forall other | Records(memory, Start(base, kind), other, Stop(memory, base), kind)
      && EndOf(memory, Start(base, kind), other) >= Stop(memory, base)
      ensures ScanTable(memory, base, kind).outcome == Returns(0)
    {
      TableOutcome(memory, base, kind, other);
    }
  }

  /** It is an error, with the code for a type that is not found, if and only if such records lead to
      one of a type that this table does not know. */
  lemma TypeNotFoundIff(memory: Memory, base: nat, kind: TableKind)
    ensures ScanTable(memory, base, kind).outcome == Returns(2) <==>
              exists places :: Records(memory, Start(base, kind), places, Stop(memory, base), kind)
                            && EndOf(memory, Start(base, kind), places) < Stop(memory, base)
                            && !Known(memory, EndOf(memory, Start(base, kind), places), kind)
  {
    hide ScanTable, Records, EndOf, Known, Word, Stop, Start, Behind;
    var places := TableRecords(memory, Start(base, kind), Stop(memory, base), kind);
    TableOutcome(memory, base, kind, places);
    forall other | Records(memory, Start(base, kind), other, Stop(memory, base), kind)
      && EndOf(memory, Start(base, kind), other) < Stop(memory, base)
      && !Known(memory, EndOf(memory, Start(base, kind), other), kind)
      ensures ScanTable(memory, base, kind).outcome == Returns(2)
    {
      TableOutcome(memory, base, kind, other);
    }
  }

  // ---------------------------------------------------------------- how the data come out

  /** A table that the header at address 0 points to: an offset behind the end is an error, and offset
      zero means that there is none. */
  function Stage(memory: Memory, at: nat, size: nat, kind: TableKind): Outcome {
    if at >= size then Returns(1) else if at == 0 then Returns(0) else ScanTable(memory, at, kind).outcome
  }

  /** The first table that does not succeed decides; the tables behind it are not looked at. */
  lemma DataOutcome(memory: Memory, size: nat)
    ensures var c, i, o := Word(memory, 40, 4), Word(memory, 48, 4), Word(memory, 56, 4);
            var d := Decode(memory, size);
            && d.outcome == (if Stage(memory, c, size, Current) != Returns(0) then Stage(memory, c, size, Current)
                             else if Stage(memory, i, size, Input) != Returns(0) then Stage(memory, i, size, Input)
                             else Stage(memory, o, size, Output))
            && d.current == (if 0 < c < size then TableAt(memory, c, Current) else TableInfo([], [], []))
            && d.input == (if Stage(memory, c, size, Current) == Returns(0) && 0 < i < size then
                             TableAt(memory, i, Input) else TableInfo([], [], []))
            && d.output == (if Stage(memory, c, size, Current) == Stage(memory, i, size, Input) == Returns(0)
                               && 0 < o < size then TableAt(memory, o, Output) else TableInfo([], [], []))
  {
    hide RecordAt, Word, ScanTable, TableAt;
    HeaderFromBytes(memory);
  }
}

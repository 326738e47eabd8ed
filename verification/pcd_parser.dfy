/** The decoder of platform configuration data: a header holds the offsets of three tables, a
    table holds typed records, and an interleave record holds counted sub-records. */
module PcdParser {
  import opened Basics
  import opened LittleEndian
  import opened Ranges

  const SUCCESS: int := 0
  const WRONG_OFFSET: int := 1
  const TYPE_NOT_FOUND: int := 2

  /** A parser returns a code, or loops on a record of length zero for ever. */
  datatype Outcome = Returns(code: int) | RunsForever

  // ---------------------------------------------------------------- layouts

  const PCD_HEADER: Layout := [4, 4, 1, 1, 6, 8, 4, 4, 4, 4, 4, 4, 4, 4, 4]
  const CURRENT_CONFIG: Layout := [4, 4, 1, 1, 6, 8, 4, 4, 4, 2, 2, 8, 8]
  const CONFIG_INPUT: Layout := [4, 4, 1, 1, 6, 8, 4, 4, 4, 4, 8]
  const CONFIG_OUTPUT: Layout := [4, 4, 1, 1, 6, 8, 4, 4, 4, 4, 1, 7]
  const INTERLEAVE_INFORMATION: Layout := [2, 2, 2, 1, 1, 4, 1, 1, 1, 9]
  const PARTITION_SIZE_CHANGE: Layout := [2, 2, 4, 8]
  const ID_INFO: Layout := [32, 8, 8]

  const INTERLEAVE_SIZE: nat := 24
  const ID_INFO_SIZE: nat := 48

  const INTERLEAVE_TYPE: nat := 5
  const PARTITION_TYPE: nat := 4

  datatype TableKind = Current | Input | Output

  function TableLayout(kind: TableKind): (layout: Layout)
    ensures |layout| >= 10 && layout[0] == 4 && layout[1] == 4
  {
    match kind
    case Current => CURRENT_CONFIG
    case Input => CONFIG_INPUT
    case Output => CONFIG_OUTPUT
  }

  /** Where a table's records begin. */
  function TableSize(kind: TableKind): nat {
    match kind
    case Current => 56
    case _ => 48
  }

  lemma TableSizes(kind: TableKind)
    ensures SizeOf(TableLayout(kind)) == TableSize(kind)
  {
    match kind
    case Current => CurrentSize();
    case Input => InputSize();
    case Output => OutputSize();
  }

  lemma CurrentSize()
    ensures SizeOf(CURRENT_CONFIG) == 56
  {
  }

  lemma InputSize()
    ensures SizeOf(CONFIG_INPUT) == 48
  {
  }

  lemma OutputSize()
    ensures SizeOf(CONFIG_OUTPUT) == 48
  {
  }

  lemma InterleaveSize()
    ensures SizeOf(INTERLEAVE_INFORMATION) == INTERLEAVE_SIZE
  {
  }

  lemma IdInfoSize()
    ensures SizeOf(ID_INFO) == ID_INFO_SIZE
  {
  }

  /** The fields that are copied: all but the reserved ones. */
  function Kept(kind: TableKind, fields: Record): Record
    requires |fields| == |TableLayout(kind)|
  {
    match kind
    case Current => fields[..10] + fields[11..]
    case Input => fields[..10]
    case Output => fields[..11]
  }

  /** Only the current configuration table knows nothing of partition changes. */
  predicate KnowsPartitions(kind: TableKind) {
    kind != Current
  }

  /** The cast of an unsigned 32-bit field to int. */
  function AsInt(value: nat): int
    requires value < 0x1_0000_0000
  {
    if value < 0x8000_0000 then value else value - 0x1_0000_0000
  }

  // ---------------------------------------------------------------- what the bytes say

  datatype InterleaveInfo = InterleaveInfo(fields: Record, ids: seq<Record>)

  /** The sub-records, one behind the other. */
  function IdsAt(memory: Memory, at: nat, count: nat): (ids: seq<Record>)
    ensures |ids| == count
    decreases count
  {
    if count == 0 then [] else [RecordAt(memory, at, ID_INFO)] + IdsAt(memory, at + ID_INFO_SIZE, count - 1)
  }

  function InterleaveAt(memory: Memory, at: nat): InterleaveInfo {
    var fields := RecordAt(memory, at, INTERLEAVE_INFORMATION);
    InterleaveInfo(fields[..9], IdsAt(memory, at + INTERLEAVE_SIZE, fields[3]))
  }

  function LengthAt(memory: Memory, at: nat): nat {
    RecordAt(memory, at, [2, 2])[1]
  }

  /** The records of a table: for each its place, from `offset` on, as long as the length of the
      table has not been reached. */
  datatype Scanned = Scanned(outcome: Outcome, places: seq<nat>)

  predicate KnownType(memory: Memory, at: nat, partitions: bool) {
    memory(at) == INTERLEAVE_TYPE || (partitions && memory(at) == PARTITION_TYPE)
  }

  function Scan(memory: Memory, base: nat, offset: nat, length: int, partitions: bool): Scanned
    decreases length - offset
  {
    var at := base + offset;
    if offset >= length then Scanned(Returns(SUCCESS), [])
    else if !KnownType(memory, at, partitions) then Scanned(Returns(TYPE_NOT_FOUND), [])
    else if LengthAt(memory, at) == 0 then Scanned(RunsForever, [at])
    else
      var rest := Scan(memory, base, offset + LengthAt(memory, at), length, partitions);
      Scanned(rest.outcome, [at] + rest.places)
  }

  function InterleavesAt(memory: Memory, places: seq<nat>): seq<InterleaveInfo> {
    if places == [] then []
    else
      (if memory(places[0]) == INTERLEAVE_TYPE then [InterleaveAt(memory, places[0])] else [])
      + InterleavesAt(memory, places[1..])
  }

  function PartitionsAt(memory: Memory, places: seq<nat>): seq<Record> {
    if places == [] then []
    else
      (if memory(places[0]) == PARTITION_TYPE then [RecordAt(memory, places[0], PARTITION_SIZE_CHANGE)] else [])
      + PartitionsAt(memory, places[1..])
  }

  datatype TableInfo = TableInfo(fields: Record, interleaves: seq<InterleaveInfo>, partitions: seq<Record>)

  /** What memset leaves behind. */
  const NO_TABLE := TableInfo([], [], [])

  function TableLength(memory: Memory, base: nat, kind: TableKind): (length: nat)
    ensures length < 0x1_0000_0000
  {
    LengthFits(memory, base, kind);
    RecordAt(memory, base, TableLayout(kind))[1]
  }

  lemma LengthFits(memory: Memory, base: nat, kind: TableKind)
    ensures RecordAt(memory, base, TableLayout(kind))[1] < 0x1_0000_0000
  {
    hide TableLayout;
    PackUnpack(BytesAt(memory, base, SizeOf(TableLayout(kind))), TableLayout(kind));
    assert Power256(4) == 256 * Power256(3) == 256 * (256 * Power256(2));
    assert Power256(2) == 0x1_0000;
  }

  function ScanTable(memory: Memory, base: nat, kind: TableKind): Scanned {
    Scan(memory, base, TableSize(kind), AsInt(TableLength(memory, base, kind)), KnowsPartitions(kind))
  }

  /** The table as it stands when its parser returns. */
  function TableAt(memory: Memory, base: nat, kind: TableKind): TableInfo {
    var places := ScanTable(memory, base, kind).places;
    TableInfo(Kept(kind, RecordAt(memory, base, TableLayout(kind))),
              InterleavesAt(memory, places), PartitionsAt(memory, places))
  }

  // ---------------------------------------------------------------- which bytes are read

  /** The structures are read field by field, without their reserved fields. */
  const PCD_HEADER_SIZE: nat := 60
  const INTERLEAVE_READ: nat := 15
  const PARTITION_READ: nat := 16

  function FieldReads(base: nat, kind: TableKind): seq<Range> {
    match kind
    case Current => [Range(base, 38), Range(base + 40, 16)]
    case Input => [Range(base, 40)]
    case Output => [Range(base, 41)]
  }

  function IdReads(at: nat, count: nat): seq<Range>
    decreases count
  {
    if count == 0 then [] else [Range(at, ID_INFO_SIZE)] + IdReads(at + ID_INFO_SIZE, count - 1)
  }

  /** How many sub-records an interleave record has. */
  function IdCount(memory: Memory, at: nat): nat {
    RecordAt(memory, at, INTERLEAVE_INFORMATION)[3]
  }

  function InterleaveReads(memory: Memory, at: nat): seq<Range> {
    [Range(at, INTERLEAVE_READ)] + IdReads(at + INTERLEAVE_SIZE, IdCount(memory, at))
  }

  /** The contents of a record of known type. */
  function RecordReads(memory: Memory, at: nat): seq<Range> {
    if memory(at) == INTERLEAVE_TYPE then InterleaveReads(memory, at) else [Range(at, PARTITION_READ)]
  }

  /** One round for each record; where the source goes round for ever, it reads the same bytes. */
  function ScanReads(memory: Memory, base: nat, offset: nat, length: int, partitions: bool): seq<Range>
    decreases length - offset
  {
    var at := base + offset;
    if offset >= length then []
    else
      [Range(at, 1)]
      + if !KnownType(memory, at, partitions) then []
        else
          RecordReads(memory, at)
          + if LengthAt(memory, at) == 0 then []
            else ScanReads(memory, base, offset + LengthAt(memory, at), length, partitions)
  }

  function TableReads(memory: Memory, base: nat, kind: TableKind): seq<Range> {
    FieldReads(base, kind)
    + ScanReads(memory, base, TableSize(kind), AsInt(TableLength(memory, base, kind)), KnowsPartitions(kind))
  }

  // ---------------------------------------------------------------- when a table can be parsed

  /** The records at these places are of known types and positive length, each begins where the one
      before ends, and only the last one reaches the length of the table. */
  predicate Chain(memory: Memory, base: nat, places: seq<nat>, offset: nat, length: int, partitions: bool) {
    && (if places == [] then offset >= length else places[0] == base + offset && offset < length)
    && (forall i :: 0 <= i < |places| ==> KnownType(memory, places[i], partitions) && LengthAt(memory, places[i]) > 0)
    && (forall i {:trigger LengthAt(memory, places[i])} :: 0 <= i < |places| - 1 ==>
          places[i + 1] == places[i] + LengthAt(memory, places[i]) < base + length)
    && (places != [] ==> places[|places| - 1] + LengthAt(memory, places[|places| - 1]) >= base + length)
  }

  lemma {:induction false} ChainIsScan(memory: Memory, base: nat, places: seq<nat>, offset: nat, length: int,
                                       partitions: bool)
    requires Chain(memory, base, places, offset, length, partitions)
    ensures Scan(memory, base, offset, length, partitions) == Scanned(Returns(SUCCESS), places)
    decreases |places|
  {
    hide LengthAt, KnownType, Chain;
    ChainNone(memory, base, places, offset, length, partitions);
    if places != [] {
      ChainTail(memory, base, places, offset, length, partitions);
      ChainIsScan(memory, base, places[1..], offset + LengthAt(memory, base + offset), length, partitions);
      assert places == [base + offset] + places[1..];
    }
  }

  lemma ChainNone(memory: Memory, base: nat, places: seq<nat>, offset: nat, length: int, partitions: bool)
    requires Chain(memory, base, places, offset, length, partitions)
    ensures places == [] <==> offset >= length
  {
  }

  lemma ChainTail(memory: Memory, base: nat, places: seq<nat>, offset: nat, length: int, partitions: bool)
    requires Chain(memory, base, places, offset, length, partitions) && places != []
    ensures places[0] == base + offset && offset < length
    ensures KnownType(memory, base + offset, partitions) && LengthAt(memory, base + offset) > 0
    ensures Chain(memory, base, places[1..], offset + LengthAt(memory, base + offset), length, partitions)
  {
    hide LengthAt, KnownType;
    var rest := places[1..];
    forall i | 0 <= i < |rest|
      ensures rest[i] == places[i + 1]
    {
    }
    forall i | 0 <= i < |rest| - 1
      ensures rest[i + 1] == rest[i] + LengthAt(memory, rest[i]) < base + length
    {
      assert rest[i] == places[i + 1] && rest[i + 1] == places[i + 1 + 1];
    }
  }

  lemma ChainCons(memory: Memory, base: nat, places: seq<nat>, offset: nat, length: int, partitions: bool)
    requires places != [] && places[0] == base + offset
    requires offset < length && KnownType(memory, base + offset, partitions) && LengthAt(memory, base + offset) > 0
    requires Chain(memory, base, places[1..], offset + LengthAt(memory, base + offset), length, partitions)
    ensures Chain(memory, base, places, offset, length, partitions)
  {
    hide LengthAt, KnownType;
    forall i | 0 <= i < |places|
      ensures KnownType(memory, places[i], partitions) && LengthAt(memory, places[i]) > 0
    {
      assert i > 0 ==> places[i] == places[1..][i - 1];
    }
    forall i | 0 <= i < |places| - 1
      ensures places[i + 1] == places[i] + LengthAt(memory, places[i]) < base + length
    {
      ChainConsLink(memory, base, places, offset, length, partitions, i);
    }
  }

  lemma ChainConsLink(memory: Memory, base: nat, places: seq<nat>, offset: nat, length: int, partitions: bool, i: nat)
    requires i + 1 < |places| && places[0] == base + offset
    requires Chain(memory, base, places[1..], offset + LengthAt(memory, base + offset), length, partitions)
    ensures places[i + 1] == places[i] + LengthAt(memory, places[i]) < base + length
  {
    hide LengthAt, KnownType;
    var rest := places[1..];
    if i > 0 {
      assert rest[i - 1] == places[i] && rest[i - 1 + 1] == places[i + 1];
    }
  }

  lemma {:induction false} ScanIsChain(memory: Memory, base: nat, offset: nat, length: int, partitions: bool)
    requires Scan(memory, base, offset, length, partitions).outcome == Returns(SUCCESS)
    ensures Chain(memory, base, Scan(memory, base, offset, length, partitions).places, offset, length, partitions)
    decreases length - offset
  {
    hide LengthAt, KnownType;
    if offset < length {
      var next := offset + LengthAt(memory, base + offset);
      ScanIsChain(memory, base, next, length, partitions);
      var rest := Scan(memory, base, next, length, partitions).places;
      assert ([base + offset] + rest)[1..] == rest;
      ChainCons(memory, base, [base + offset] + rest, offset, length, partitions);
    }
  }

  /** A table is parsed with success exactly when such a chain of records fills it, and then there
      is only one. */
  lemma ParsesIffChain(memory: Memory, base: nat, offset: nat, length: int, partitions: bool)
    ensures Scan(memory, base, offset, length, partitions).outcome == Returns(SUCCESS)
       <==> exists places :: Chain(memory, base, places, offset, length, partitions)
    ensures forall places :: Chain(memory, base, places, offset, length, partitions) ==>
              Scan(memory, base, offset, length, partitions).places == places
  {
    hide Chain, Scan;
    if Scan(memory, base, offset, length, partitions).outcome == Returns(SUCCESS) {
      ScanIsChain(memory, base, offset, length, partitions);
    }
    forall places | Chain(memory, base, places, offset, length, partitions)
      ensures Scan(memory, base, offset, length, partitions) == Scanned(Returns(SUCCESS), places)
    {
      ChainIsScan(memory, base, places, offset, length, partitions);
    }
  }

  /** The cursor is a signed integer in the source; behind this record it fits. */
  predicate CursorStays(memory: Memory, base: nat, offset: nat) {
    offset + LengthAt(memory, base + offset) < 0x8000_0000
  }

  /** Behind whatever record inside a table it fits if and only if the table is no longer than
      0x7FFF0001 bytes. */
  lemma CursorFits(length: int)
    ensures (forall memory: Memory, base: nat, offset: nat :: offset < length ==> CursorStays(memory, base, offset))
       <==> length <= 0x7FFF_0001
  {
    hide LengthAt;
    if length > 0x7FFF_0001 {
      LengthIs(AllOnes, length - 1);
      assert !CursorStays(AllOnes, 0, length - 1);
    } else {
      forall memory: Memory, base: nat, offset: nat | offset < length
        ensures CursorStays(memory, base, offset)
      {
        LengthIs(memory, base + offset);
      }
    }
  }

  function AllOnes(at: nat): Byte {
    255
  }

  lemma LengthIs(memory: Memory, at: nat)
    ensures LengthAt(memory, at) == memory(at + 2) + 256 * memory(at + 3)
  {
    FieldAt(memory, at, [2, 2], 1);
    assert SizeOf([2, 2][..1]) == 2;
    var bytes := BytesAt(memory, at + 2, 2);
    assert bytes[1..][1..] == [];
    assert Value(bytes) == bytes[0] + 256 * (bytes[1] + 256 * Value(bytes[1..][1..]));
  }

  /** A table of the greatest length, filled with records of the greatest length. */
  function HugeTable(at: nat): Byte {
    if at < 56 then 0
    else if (at - 56) % 0xFFFF == 0 then INTERLEAVE_TYPE
    else if (at - 56) % 0xFFFF == 2 || (at - 56) % 0xFFFF == 3 then 255
    else 0
  }

  lemma HugeRecord(k: nat)
    ensures KnownType(HugeTable, 56 + k * 0xFFFF, false) && LengthAt(HugeTable, 56 + k * 0xFFFF) == 0xFFFF
  {
    var at := 56 + k * 0xFFFF;
    DivisionUnique((at - 56) / 0xFFFF, (at - 56) % 0xFFFF, k, 0, 0xFFFF);
    DivisionUnique((at + 2 - 56) / 0xFFFF, (at + 2 - 56) % 0xFFFF, k, 2, 0xFFFF);
    DivisionUnique((at + 3 - 56) / 0xFFFF, (at + 3 - 56) % 0xFFFF, k, 3, 0xFFFF);
    LengthIs(HugeTable, at);
  }

  lemma {:induction false} HugeScan(j: nat, k: nat)
    requires j <= k <= 0x8000
    ensures 56 + k * 0xFFFF in Scan(HugeTable, 0, 56 + j * 0xFFFF, 0x7FFF_FFFF, false).places
    decreases k - j
  {
    hide LengthAt, KnownType, Scan;
    HugeRecord(j);
    BeforeStep(HugeTable, 0, 56 + j * 0xFFFF, 0x7FFF_FFFF, false, []);
    NothingBefore(HugeTable, Scan(HugeTable, 0, 56 + j * 0xFFFF, 0x7FFF_FFFF, false));
    var rest := Scan(HugeTable, 0, 56 + (j + 1) * 0xFFFF, 0x7FFF_FFFF, false).places;
    if j < k {
      HugeScan(j + 1, k);
    } else {
      assert ([] + [56 + j * 0xFFFF] + rest)[0] == 56 + k * 0xFFFF;
    }
  }

  /** Its parser comes to a record from which a cursor of 32 bits cannot move on. */
  lemma CursorOverflows()
    ensures var last := 56 + 0x8000 * 0xFFFF;
            && last in Scan(HugeTable, 0, 56, 0x7FFF_FFFF, false).places
            && last < 0x7FFF_FFFF && !CursorStays(HugeTable, 0, last)
  {
    hide Scan, LengthAt;
    HugeRecord(0x8000);
    HugeScan(0, 0x8000);
  }

  // ---------------------------------------------------------------- when a parser never returns

  /** The records at these places are of known types, each begins where the one before ends and
      before the length of the table, and the last one, alone, has length zero. */
  predicate Stuck(memory: Memory, base: nat, places: seq<nat>, offset: nat, length: int, partitions: bool) {
    && places != [] && places[0] == base + offset && offset < length
    && (forall i :: 0 <= i < |places| ==> KnownType(memory, places[i], partitions))
    && (forall i {:trigger LengthAt(memory, places[i])} :: 0 <= i < |places| - 1 ==>
          && LengthAt(memory, places[i]) > 0
          && places[i + 1] == places[i] + LengthAt(memory, places[i]) < base + length)
    && LengthAt(memory, places[|places| - 1]) == 0
  }

  lemma {:induction false} StuckNeverReturns(memory: Memory, base: nat, places: seq<nat>, offset: nat, length: int,
                                             partitions: bool)
    requires Stuck(memory, base, places, offset, length, partitions)
    ensures Scan(memory, base, offset, length, partitions) == Scanned(RunsForever, places)
    decreases |places|
  {
    hide LengthAt, KnownType;
    if |places| == 1 {
      assert places == [base + offset];
    } else {
      StuckTail(memory, base, places, offset, length, partitions);
      hide Stuck;
      StuckNeverReturns(memory, base, places[1..], offset + LengthAt(memory, base + offset), length, partitions);
      assert places == [base + offset] + places[1..];
    }
  }

  lemma StuckTail(memory: Memory, base: nat, places: seq<nat>, offset: nat, length: int, partitions: bool)
    requires Stuck(memory, base, places, offset, length, partitions) && |places| > 1
    ensures places[0] == base + offset && offset < length && KnownType(memory, base + offset, partitions)
    ensures LengthAt(memory, base + offset) > 0
    ensures Stuck(memory, base, places[1..], offset + LengthAt(memory, base + offset), length, partitions)
  {
    hide LengthAt, KnownType;
    var rest := places[1..];
    assert LengthAt(memory, places[0]) > 0 && places[1] == places[0] + LengthAt(memory, places[0]);
    forall i | 0 <= i < |rest|
      ensures rest[i] == places[i + 1]
    {
    }
    forall i | 0 <= i < |rest| - 1
      ensures LengthAt(memory, rest[i]) > 0
      ensures rest[i + 1] == rest[i] + LengthAt(memory, rest[i]) < base + length
    {
      assert rest[i] == places[i + 1] && rest[i + 1] == places[i + 1 + 1];
    }
  }

  lemma {:induction false} NeverReturnsStuck(memory: Memory, base: nat, offset: nat, length: int, partitions: bool)
    requires Scan(memory, base, offset, length, partitions).outcome == RunsForever
    ensures Stuck(memory, base, Scan(memory, base, offset, length, partitions).places, offset, length, partitions)
    decreases length - offset
  {
    hide LengthAt, KnownType;
    var at := base + offset;
    if LengthAt(memory, at) > 0 {
      var next := offset + LengthAt(memory, at);
      NeverReturnsStuck(memory, base, next, length, partitions);
      var rest := Scan(memory, base, next, length, partitions).places;
      assert ([at] + rest)[1..] == rest;
      StuckCons(memory, base, [at] + rest, offset, length, partitions);
    }
  }

  lemma StuckCons(memory: Memory, base: nat, places: seq<nat>, offset: nat, length: int, partitions: bool)
    requires places != [] && places[0] == base + offset
    requires offset < length && KnownType(memory, base + offset, partitions) && LengthAt(memory, base + offset) > 0
    requires Stuck(memory, base, places[1..], offset + LengthAt(memory, base + offset), length, partitions)
    ensures Stuck(memory, base, places, offset, length, partitions)
  {
    hide LengthAt, KnownType;
    forall i | 0 <= i < |places|
      ensures KnownType(memory, places[i], partitions)
    {
      assert i > 0 ==> places[i] == places[1..][i - 1];
    }
    forall i | 0 <= i < |places| - 1
      ensures LengthAt(memory, places[i]) > 0
      ensures places[i + 1] == places[i] + LengthAt(memory, places[i]) < base + length
    {
      StuckLink(memory, base, places, offset, length, partitions, i);
    }
  }

  lemma StuckLink(memory: Memory, base: nat, places: seq<nat>, offset: nat, length: int, partitions: bool, i: nat)
    requires i + 1 < |places| && places[0] == base + offset && LengthAt(memory, base + offset) > 0
    requires Stuck(memory, base, places[1..], offset + LengthAt(memory, base + offset), length, partitions)
    ensures LengthAt(memory, places[i]) > 0
    ensures places[i + 1] == places[i] + LengthAt(memory, places[i]) < base + length
  {
    hide LengthAt, KnownType;
    var rest := places[1..];
    if i > 0 {
      assert rest[i - 1] == places[i] && rest[i - 1 + 1] == places[i + 1];
    }
  }

  /** A parser loops for ever if and only if known records of positive length lead, inside the table,
      to one of length zero. */
  lemma LoopsIffStuck(memory: Memory, base: nat, offset: nat, length: int, partitions: bool)
    ensures Scan(memory, base, offset, length, partitions).outcome == RunsForever
       <==> exists places :: Stuck(memory, base, places, offset, length, partitions)
  {
    hide Stuck, Scan;
    if Scan(memory, base, offset, length, partitions).outcome == RunsForever {
      NeverReturnsStuck(memory, base, offset, length, partitions);
    }
    forall places | Stuck(memory, base, places, offset, length, partitions)
      ensures Scan(memory, base, offset, length, partitions).outcome == RunsForever
    {
      StuckNeverReturns(memory, base, places, offset, length, partitions);
    }
  }

  /** The length of a table is its second field. */
  lemma LengthField(memory: Memory, base: nat, kind: TableKind)
    ensures TableLength(memory, base, kind) == Value(BytesAt(memory, base + 4, 4))
  {
    var layout := TableLayout(kind);
    hide TableLayout, RecordAt;
    FieldAt(memory, base, layout, 1);
    assert SizeOf(layout[..1]) == 4;
  }

  /** The smallest table that keeps its parser busy: its only record says interleave information,
      and nothing else. */
  function BusyTable(at: nat): Byte {
    if at == 4 then 57 else if at == 56 then INTERLEAVE_TYPE else 0
  }

  lemma BusyLength()
    ensures TableLength(BusyTable, 0, Current) == 57
  {
    hide TableLength;
    LengthField(BusyTable, 0, Current);
    var bytes := BytesAt(BusyTable, 4, 4);
    assert bytes == [57, 0, 0, 0] && bytes[1..] == [0, 0, 0];
    assert Value([0, 0, 0]) == 256 * Value([0, 0, 0][1..]) && [0, 0, 0][1..] == [0, 0];
    assert Value([0, 0]) == 256 * Value([0, 0][1..]) && [0, 0][1..] == [0];
  }

  lemma BusyForever()
    ensures ScanTable(BusyTable, 0, Current) == Scanned(RunsForever, [56])
  {
    hide LengthAt, TableLength, TableLayout, RecordAt, BytesAt, Value;
    BusyLength();
    ZeroLength(BusyTable, 56);
    assert KnownType(BusyTable, 56, false);
    assert Scan(BusyTable, 0, 56, 57, false) == Scanned(RunsForever, [56]);
  }

  lemma ZeroLength(memory: Memory, at: nat)
    requires memory(at + 2) == 0 && memory(at + 3) == 0
    ensures LengthAt(memory, at) == 0
  {
    LengthIs(memory, at);
  }

  // ---------------------------------------------------------------- the three config-table parsers

  /** Every record begins with type and length. */
  lemma LengthFirst(memory: Memory, at: nat, layout: Layout)
    requires |layout| >= 2 && layout[0] == 2 && layout[1] == 2
    ensures RecordAt(memory, at, layout)[1] == LengthAt(memory, at)
  {
    hide RecordAt;
    FieldAt(memory, at, layout, 1);
    FieldAt(memory, at, [2, 2], 1);
    assert layout[..1] == [2, 2][..1];
  }

  lemma {:induction false} IdsNext(memory: Memory, at: nat, count: nat)
    ensures IdsAt(memory, at, count + 1)
              == IdsAt(memory, at, count) + [RecordAt(memory, at + count * ID_INFO_SIZE, ID_INFO)]
    decreases count
  {
    hide RecordAt;
    if count > 0 {
      IdsNext(memory, at + ID_INFO_SIZE, count - 1);
    }
  }

  /** An interleave record with as many sub-records as it says. */
  method ParseInterleave(memory: Memory, at: nat) returns (info: InterleaveInfo, ghost touched: seq<Range>)
    ensures info == InterleaveAt(memory, at)
    ensures touched == InterleaveReads(memory, at)
  {
    hide IdsAt, IdReads, RecordAt;
    var fields := RecordAt(memory, at, INTERLEAVE_INFORMATION);
    var ids: seq<Record> := [];
    var offset := INTERLEAVE_SIZE;
    touched := [Range(at, INTERLEAVE_READ)];
    NoIds(memory, at + INTERLEAVE_SIZE);
    for i := 0 to fields[3]
      invariant offset == INTERLEAVE_SIZE + i * ID_INFO_SIZE && ids == IdsAt(memory, at + INTERLEAVE_SIZE, i)
      invariant touched == [Range(at, INTERLEAVE_READ)] + IdReads(at + INTERLEAVE_SIZE, i)
    {
      IdsNext(memory, at + INTERLEAVE_SIZE, i);
      IdReadsNext(at + INTERLEAVE_SIZE, i);
      ids := ids + [RecordAt(memory, at + offset, ID_INFO)];
      touched := touched + [Range(at + offset, ID_INFO_SIZE)];
      offset := offset + ID_INFO_SIZE;
    }
    info := InterleaveInfo(fields[..9], ids);
  }

  lemma NoIds(memory: Memory, at: nat)
    ensures IdsAt(memory, at, 0) == [] && IdReads(at, 0) == []
  {
  }

  lemma {:induction false} IdReadsNext(at: nat, count: nat)
    ensures IdReads(at, count + 1) == IdReads(at, count) + [Range(at + count * ID_INFO_SIZE, ID_INFO_SIZE)]
    decreases count
  {
    if count > 0 {
      IdReadsNext(at + ID_INFO_SIZE, count - 1);
    }
  }

  class ConfigTable {
    var fields: Record
    var interleaves: seq<InterleaveInfo>
    var partitions: seq<Record>

    constructor ()
      ensures Info() == NO_TABLE
    {
      fields, interleaves, partitions := [], [], [];
    }

    function Info(): TableInfo
      reads this
    {
      TableInfo(fields, interleaves, partitions)
    }
  }

  /** The records found so far come before those that are left. */
  function Before(done: seq<nat>, rest: Scanned): Scanned {
    Scanned(rest.outcome, done + rest.places)
  }

  lemma BeforeStep(memory: Memory, base: nat, offset: nat, length: int, partitions: bool, done: seq<nat>)
    requires offset < length && KnownType(memory, base + offset, partitions) && LengthAt(memory, base + offset) > 0
    ensures Before(done, Scan(memory, base, offset, length, partitions))
         == Before(done + [base + offset],
                   Scan(memory, base, offset + LengthAt(memory, base + offset), length, partitions))
  {
    hide LengthAt, KnownType;
    var rest := Scan(memory, base, offset + LengthAt(memory, base + offset), length, partitions).places;
    assert done + ([base + offset] + rest) == done + [base + offset] + rest;
  }

  lemma BeforeStops(memory: Memory, base: nat, offset: nat, length: int, partitions: bool, done: seq<nat>)
    ensures var all := Before(done, Scan(memory, base, offset, length, partitions));
            && (offset >= length ==> all == Scanned(Returns(SUCCESS), done))
            && (offset < length && !KnownType(memory, base + offset, partitions) ==>
                  all == Scanned(Returns(TYPE_NOT_FOUND), done))
            && (offset < length && KnownType(memory, base + offset, partitions)
                && LengthAt(memory, base + offset) == 0 ==>
                  all == Scanned(RunsForever, done + [base + offset]))
  {
    hide LengthAt, KnownType;
    assert done + [] == done;
  }

  lemma {:induction false} RecordsNext(memory: Memory, places: seq<nat>, at: nat)
    ensures InterleavesAt(memory, places + [at])
         == if memory(at) == INTERLEAVE_TYPE then InterleavesAt(memory, places) + [InterleaveAt(memory, at)]
            else InterleavesAt(memory, places)
    ensures PartitionsAt(memory, places + [at])
         == if memory(at) == PARTITION_TYPE then
              PartitionsAt(memory, places) + [RecordAt(memory, at, PARTITION_SIZE_CHANGE)]
            else PartitionsAt(memory, places)
    decreases |places|
  {
    hide InterleaveAt, RecordAt;
    if places != [] {
      assert (places + [at])[1..] == places[1..] + [at];
      RecordsNext(memory, places[1..], at);
    }
  }

  /** One record: it is appended to the list of its type, and its length returned. */
  method ParseRecord(memory: Memory, at: nat, partitions: bool, table: ConfigTable, ghost done: seq<nat>)
    returns (length: nat, ghost touched: seq<Range>)
    requires KnownType(memory, at, partitions)
    requires table.interleaves == InterleavesAt(memory, done) && table.partitions == PartitionsAt(memory, done)
    modifies table`interleaves, table`partitions
    ensures length == LengthAt(memory, at) && touched == RecordReads(memory, at)
    ensures table.interleaves == InterleavesAt(memory, done + [at])
    ensures table.partitions == PartitionsAt(memory, done + [at])
  {
    hide RecordAt, InterleaveAt, InterleavesAt, PartitionsAt, LengthAt, InterleaveReads;
    RecordsNext(memory, done, at);
    if memory(at) == INTERLEAVE_TYPE {
      var info;
      info, touched := ParseInterleave(memory, at);
      table.interleaves := table.interleaves + [info];
      InterleaveLength(memory, at);
      length := info.fields[1];
    } else {
      var fields := RecordAt(memory, at, PARTITION_SIZE_CHANGE);
      table.partitions := table.partitions + [fields];
      LengthFirst(memory, at, PARTITION_SIZE_CHANGE);
      length, touched := fields[1], [Range(at, PARTITION_READ)];
    }
  }

  lemma InterleaveLength(memory: Memory, at: nat)
    ensures |InterleaveAt(memory, at).fields| == 9 && InterleaveAt(memory, at).fields[1] == LengthAt(memory, at)
  {
    hide RecordAt, LengthAt, IdsAt;
    LengthFirst(memory, at, INTERLEAVE_INFORMATION);
  }

  /** A config table; the three parsers of the source differ in the layout, and in that the one for
      the current configuration does not know partition changes. Where the source would go round
      for ever on a record of length zero, this stops and says so. */
  method ParseConfigTable(memory: Memory, base: nat, kind: TableKind, table: ConfigTable)
    returns (outcome: Outcome, ghost touched: seq<Range>)
    modifies table
    ensures outcome == ScanTable(memory, base, kind).outcome
    ensures table.Info() == TableAt(memory, base, kind)
    ensures touched == TableReads(memory, base, kind)
  {
    hide RecordAt, Scan, InterleavesAt, PartitionsAt, TableLayout, LengthAt, KnownType, Before;
    hide ScanReads, RecordReads, FieldReads;
    var partitions := KnowsPartitions(kind);
    var length := AsInt(TableLength(memory, base, kind));
    table.fields := Kept(kind, RecordAt(memory, base, TableLayout(kind)));
    table.interleaves, table.partitions := [], [];
    var offset: nat := TableSize(kind);
    ghost var done: seq<nat> := [];
    NothingBefore(memory, Scan(memory, base, offset, length, partitions));
    outcome, touched := Returns(SUCCESS), FieldReads(base, kind);
    while offset < length && outcome == Returns(SUCCESS)
      invariant table.fields == Kept(kind, RecordAt(memory, base, TableLayout(kind)))
      invariant table.interleaves == InterleavesAt(memory, done) && table.partitions == PartitionsAt(memory, done)
      invariant outcome == Returns(SUCCESS) ==>
                  ScanTable(memory, base, kind) == Before(done, Scan(memory, base, offset, length, partitions))
      invariant outcome != Returns(SUCCESS) ==> ScanTable(memory, base, kind) == Scanned(outcome, done)
      invariant outcome == Returns(SUCCESS) ==>
                  TableReads(memory, base, kind) == touched + ScanReads(memory, base, offset, length, partitions)
      invariant outcome != Returns(SUCCESS) ==> touched == TableReads(memory, base, kind)
      decreases outcome == Returns(SUCCESS), length - offset
    {
      BeforeStops(memory, base, offset, length, partitions, done);
      ReadsStep(memory, base, offset, length, partitions, touched);
      touched := touched + [Range(base + offset, 1)];
      if KnownType(memory, base + offset, partitions) {
        var size;
        ghost var own;
        size, own := ParseRecord(memory, base + offset, partitions, table, done);
        touched := touched + own;
        if size == 0 {
          outcome := RunsForever;
        } else {
          BeforeStep(memory, base, offset, length, partitions, done);
        }
        done := done + [base + offset];
        offset := offset + size;
      } else {
        outcome := Returns(TYPE_NOT_FOUND);
      }
    }
    BeforeStops(memory, base, offset, length, partitions, done);
    ReadsStep(memory, base, offset, length, partitions, touched);
  }

  lemma ReadsStep(memory: Memory, base: nat, offset: nat, length: int, partitions: bool, touched: seq<Range>)
    ensures var at, all := base + offset, touched + ScanReads(memory, base, offset, length, partitions);
            if offset >= length then all == touched
            else if !KnownType(memory, at, partitions) then all == touched + [Range(at, 1)]
            else if LengthAt(memory, at) == 0 then all == touched + [Range(at, 1)] + RecordReads(memory, at)
            else
              all == touched + [Range(at, 1)] + RecordReads(memory, at)
                     + ScanReads(memory, base, offset + LengthAt(memory, at), length, partitions)
  {
    hide LengthAt, KnownType, RecordReads;
    var at := base + offset;
    if offset < length {
      var one, own := [Range(at, 1)], RecordReads(memory, at);
      var rest := if LengthAt(memory, at) == 0 then []
                  else ScanReads(memory, base, offset + LengthAt(memory, at), length, partitions);
      assert one + [] == one && own + [] == own;
      assert touched + (one + (own + rest)) == touched + one + own + rest;
    } else {
      assert touched + [] == touched;
    }
  }

  lemma NothingBefore(memory: Memory, rest: Scanned)
    ensures Before([], rest) == rest
    ensures InterleavesAt(memory, []) == [] && PartitionsAt(memory, []) == []
  {
    assert [] + rest.places == rest.places;
  }

  // ---------------------------------------------------------------- the whole of the data

  datatype Decoded = Decoded(outcome: Outcome, header: Record, current: TableInfo, input: TableInfo, output: TableInfo)

  /** The fields of the header that hold the offsets. */
  function OffsetField(kind: TableKind): (i: nat)
    ensures i < |PCD_HEADER|
  {
    match kind
    case Current => 10
    case Input => 12
    case Output => 14
  }

  function OffsetOf(memory: Memory, kind: TableKind): nat {
    RecordAt(memory, 0, PCD_HEADER)[OffsetField(kind)]
  }

  /** Offset zero means no table; an offset behind the end is an error. */
  function StageOutcome(memory: Memory, offset: nat, size: nat, kind: TableKind): Outcome {
    if offset >= size then Returns(WRONG_OFFSET)
    else if offset == 0 then Returns(SUCCESS)
    else ScanTable(memory, offset, kind).outcome
  }

  function StageTable(memory: Memory, offset: nat, size: nat, kind: TableKind): TableInfo {
    if 0 < offset < size then TableAt(memory, offset, kind) else NO_TABLE
  }

  /** The first stage that fails ends the parse. */
  function Decode(memory: Memory, size: nat): Decoded {
    var header := RecordAt(memory, 0, PCD_HEADER);
    var c, i, o := OffsetOf(memory, Current), OffsetOf(memory, Input), OffsetOf(memory, Output);
    var first := Decoded(StageOutcome(memory, c, size, Current), header,
                         StageTable(memory, c, size, Current), NO_TABLE, NO_TABLE);
    if first.outcome != Returns(SUCCESS) then first
    else
      var second := first.(outcome := StageOutcome(memory, i, size, Input), input := StageTable(memory, i, size, Input));
      if second.outcome != Returns(SUCCESS) then second
      else second.(outcome := StageOutcome(memory, o, size, Output), output := StageTable(memory, o, size, Output))
  }

  function StageReads(memory: Memory, offset: nat, size: nat, kind: TableKind): seq<Range> {
    if 0 < offset < size then TableReads(memory, offset, kind) else []
  }

  /** The stage is come to, because those before it have not failed. */
  predicate Reached(memory: Memory, size: nat, kind: TableKind) {
    match kind
    case Current => true
    case Input => StageOutcome(memory, OffsetOf(memory, Current), size, Current) == Returns(SUCCESS)
    case Output =>
      && StageOutcome(memory, OffsetOf(memory, Current), size, Current) == Returns(SUCCESS)
      && StageOutcome(memory, OffsetOf(memory, Input), size, Input) == Returns(SUCCESS)
  }

  function ReadsOf(memory: Memory, size: nat, kind: TableKind): seq<Range> {
    if Reached(memory, size, kind) then StageReads(memory, OffsetOf(memory, kind), size, kind) else []
  }

  function DataReads(memory: Memory, size: nat): seq<Range> {
    [Range(0, PCD_HEADER_SIZE)] + ReadsOf(memory, size, Current) + ReadsOf(memory, size, Input)
    + ReadsOf(memory, size, Output)
  }

  class PlatformConfigData {
    var header: Record
    const current: ConfigTable
    const input: ConfigTable
    const output: ConfigTable

    constructor ()
      ensures fresh(current) && fresh(input) && fresh(output)
      ensures current != input && current != output && input != output
      ensures current.Info() == input.Info() == output.Info() == NO_TABLE
    {
      header := [];
      current := new ConfigTable();
      input := new ConfigTable();
      output := new ConfigTable();
    }
  }

  method ParseStage(memory: Memory, offset: nat, size: nat, kind: TableKind, table: ConfigTable)
    returns (outcome: Outcome, ghost touched: seq<Range>)
    requires table.Info() == NO_TABLE
    modifies table
    ensures outcome == StageOutcome(memory, offset, size, kind)
    ensures table.Info() == StageTable(memory, offset, size, kind)
    ensures touched == StageReads(memory, offset, size, kind)
  {
    hide ScanTable, TableAt, TableReads;
    outcome, touched := Returns(SUCCESS), [];
    if offset < size {
      if offset > 0 {
        outcome, touched := ParseConfigTable(memory, offset, kind, table);
      }
    } else {
      outcome := Returns(WRONG_OFFSET);
    }
  }

  /** The data are at address 0 of memory; `touched` is what is read of them and behind them. */
  method ParsePlatformConfigData(memory: Memory, size: nat)
    returns (outcome: Outcome, data: PlatformConfigData, ghost touched: seq<Range>)
    ensures fresh(data)
    ensures Decode(memory, size)
         == Decoded(outcome, data.header, data.current.Info(), data.input.Info(), data.output.Info())
    ensures touched == DataReads(memory, size)
  {
    hide StageOutcome, StageTable, StageReads, RecordAt;
    data := new PlatformConfigData();
    data.header := RecordAt(memory, 0, PCD_HEADER);
    ghost var more;
    outcome, more := ParseStage(memory, data.header[OffsetField(Current)], size, Current, data.current);
    touched := [Range(0, PCD_HEADER_SIZE)] + more;
    if outcome == Returns(SUCCESS) {
      outcome, more := ParseStage(memory, data.header[OffsetField(Input)], size, Input, data.input);
      touched := touched + more;
    }
    if outcome == Returns(SUCCESS) {
      outcome, more := ParseStage(memory, data.header[OffsetField(Output)], size, Output, data.output);
      touched := touched + more;
    }
  }
}

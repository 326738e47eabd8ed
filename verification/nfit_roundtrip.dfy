/** Tables written record by record, and what the parser makes of them. */
module NfitRoundTrip {
  import opened LittleEndian
  import opened Ranges
  import opened NfitTables
  import opened NfitParser

  /** A record to be written: a known structure, which may be longer than its fields, or bytes
      of a type the parser does not know. */
  datatype Entry =
    | Known(kind: nat, fields: Record, padding: Bytes)
    | Unknown(bytes: Bytes)

  predicate WellFormed(e: Entry) {
    match e
    case Known(kind, fields, padding) =>
      && kind < KNOWN_TYPES && Fits(fields, LayoutOf(kind))
      && fields[0] == kind
      && 0 < fields[1] == SizeOf(LayoutOf(kind)) + |padding| < 256
    case Unknown(bytes) =>
      && 2 < |bytes| < 256 && bytes[0] >= KNOWN_TYPES && bytes[2] == |bytes|
  }

  function EntryBytes(e: Entry): Bytes
    requires WellFormed(e)
  {
    match e
    case Known(kind, fields, padding) => Pack(fields, LayoutOf(kind)) + padding
    case Unknown(bytes) => bytes
  }

  function EntriesBytes(entries: seq<Entry>): Bytes
    requires forall e <- entries :: WellFormed(e)
  {
    if entries == [] then [] else EntryBytes(entries[0]) + EntriesBytes(entries[1..])
  }

  function Table(header: Record, entries: seq<Entry>): Bytes
    requires Fits(header, HEADER) && forall e <- entries :: WellFormed(e)
  {
    Pack(header, HEADER) + EntriesBytes(entries)
  }

  /** The fields of the entries of one known type. */
  function FieldsOf(entries: seq<Entry>, kind: nat): seq<Record> {
    if entries == [] then []
    else
      (if entries[0].Known? && entries[0].kind == kind then [entries[0].fields] else []) + FieldsOf(entries[1..], kind)
  }

  /** Type and length of a structure are its first and third byte. */
  lemma FirstBytes(fields: Record, layout: Layout)
    requires Fits(fields, layout) && |layout| >= 2 && layout[0] == 2 && layout[1] == 2
    requires fields[0] < 256 && fields[1] < 256
    ensures SizeOf(layout) >= 4 && Pack(fields, layout)[0] == fields[0] && Pack(fields, layout)[2] == fields[1]
  {
    hide Pack, Encoded;
    PackStep(fields, layout);
    PackStep(fields[1..], layout[1..]);
    SmallEncoded(fields[0]);
    SmallEncoded(fields[1]);
  }

  lemma PackStep(fields: Record, layout: Layout)
    requires |fields| == |layout| > 0
    ensures Pack(fields, layout) == Encoded(layout[0], fields[0]) + Pack(fields[1..], layout[1..])
  {
  }

  lemma SmallEncoded(value: nat)
    requires value < 256
    ensures |Encoded(2, value)| == 2 && Encoded(2, value)[0] == value
  {
  }

  /** What the parser sees of one entry. */
  lemma EntryRead(memory: Memory, at: nat, e: Entry)
    requires WellFormed(e) && BytesAt(memory, at, |EntryBytes(e)|) == EntryBytes(e)
    ensures LengthAt(memory, at) == |EntryBytes(e)| > 0
    ensures e.Known? ==> TypeAt(memory, at) == e.kind < KNOWN_TYPES && RecordAt(memory, at, LayoutOf(e.kind)) == e.fields
    ensures e.Unknown? ==> TypeAt(memory, at) >= KNOWN_TYPES
  {
    hide LayoutOf, Pack, RecordAt;
    var bytes := EntryBytes(e);
    assert bytes[0] == memory(at) && bytes[2] == memory(at + 2) by {
      if e.Known? {
        FirstBytes(e.fields, LayoutOf(e.kind));
      }
      assert |bytes| > 2;
    }
    if e.Known? {
      FirstBytes(e.fields, LayoutOf(e.kind));
      BytesAtSplit(memory, at, Pack(e.fields, LayoutOf(e.kind)), e.padding);
      RecordRoundTrip(memory, at, e.fields, LayoutOf(e.kind));
    }
  }

  lemma FirstOfType(memory: Memory, at: nat, offsets: seq<nat>, entries: seq<Entry>, kind: nat)
    requires kind < KNOWN_TYPES && entries != [] && OfType(memory, offsets, kind) == FieldsOf(entries[1..], kind)
    requires entries[0].Known? ==>
               && TypeAt(memory, at) == entries[0].kind < KNOWN_TYPES
               && RecordAt(memory, at, LayoutOf(entries[0].kind)) == entries[0].fields
    requires entries[0].Unknown? ==> TypeAt(memory, at) >= KNOWN_TYPES
    ensures OfType(memory, [at] + offsets, kind) == FieldsOf(entries, kind)
  {
    hide LayoutOf, RecordAt, TypeAt;
    assert ([at] + offsets)[1..] == offsets;
  }

  lemma NoneOfType(memory: Memory, entries: seq<Entry>)
    requires entries == []
    ensures forall kind :: 0 <= kind < KNOWN_TYPES ==> OfType(memory, [], kind) == FieldsOf(entries, kind)
  {
  }

  lemma {:induction false} EntriesRead(memory: Memory, at: nat, entries: seq<Entry>)
    requires forall e <- entries :: WellFormed(e)
    requires BytesAt(memory, at, |EntriesBytes(entries)|) == EntriesBytes(entries)
    ensures Walk(memory, at, at + |EntriesBytes(entries)|).Some?
    ensures forall kind :: 0 <= kind < KNOWN_TYPES ==>
              OfType(memory, Walk(memory, at, at + |EntriesBytes(entries)|).value, kind) == FieldsOf(entries, kind)
    decreases |entries|
  {
    hide WellFormed, EntryBytes, LayoutOf, RecordAt, TypeAt, LengthAt, OfType, FieldsOf;
    if entries != [] {
      var e, rest := EntryBytes(entries[0]), EntriesBytes(entries[1..]);
      BytesAtSplit(memory, at, e, rest);
      EntryRead(memory, at, entries[0]);
      EntriesRead(memory, at + |e|, entries[1..]);
      assert at + |e + rest| == at + |e| + |rest|;
      var offsets := Walk(memory, at + |e|, at + |e| + |rest|).value;
      forall kind | 0 <= kind < KNOWN_TYPES
        ensures OfType(memory, [at] + offsets, kind) == FieldsOf(entries, kind)
      {
        FirstOfType(memory, at, offsets, entries, kind);
      }
    } else {
      NoneOfType(memory, entries);
    }
  }

  /** Parsing what has been written gives back the header and, list by list, the structures, in
      order, when each is at least as long as its fields. */
  lemma TableRoundTrip(memory: Memory, header: Record, entries: seq<Entry>)
    requires Fits(header, HEADER) && forall e <- entries :: WellFormed(e)
    requires BytesAt(memory, 0, |Table(header, entries)|) == Table(header, entries)
    ensures RecordAt(memory, 0, HEADER) == header
    ensures exists offsets :: Tiling(memory, offsets, HEADER_SIZE, |Table(header, entries)|)
    ensures forall offsets :: Tiling(memory, offsets, HEADER_SIZE, |Table(header, entries)|) ==>
              forall kind :: 0 <= kind < KNOWN_TYPES ==> OfType(memory, offsets, kind) == FieldsOf(entries, kind)
  {
    hide WellFormed, Tiling, Pack, Walk, OfType, FieldsOf, RecordAt;
    HeaderSize();
    BytesAtSplit(memory, 0, Pack(header, HEADER), EntriesBytes(entries));
    RecordRoundTrip(memory, 0, header, HEADER);
    EntriesRead(memory, HEADER_SIZE, entries);
    WalkIffTiling(memory, HEADER_SIZE, |Table(header, entries)|);
  }

  lemma EntryRoomy(memory: Memory, at: nat, e: Entry, size: nat)
    requires WellFormed(e) && BytesAt(memory, at, |EntryBytes(e)|) == EntryBytes(e) && at + |EntryBytes(e)| <= size
    ensures Roomy(memory, at, size) && Accepted(memory, at, size) && LengthAt(memory, at) == |EntryBytes(e)| > 0
  {
    hide Pack, LayoutOf, BytesAt, TypeAt;
    EntryRead(memory, at, e);
    if e.Known? {
      var layout := LayoutOf(e.kind);
      assert SizeOf(layout) == 2 + (2 + SizeOf(layout[1..][1..]));
    }
  }

  lemma {:induction false} EntriesRoomy(memory: Memory, at: nat, entries: seq<Entry>, size: nat)
    requires forall e <- entries :: WellFormed(e)
    requires BytesAt(memory, at, |EntriesBytes(entries)|) == EntriesBytes(entries)
    requires size == at + |EntriesBytes(entries)|
    ensures forall p <- Visited(memory, at, size) :: Roomy(memory, p, size)
    decreases |entries|
  {
    hide WellFormed, EntryBytes, Roomy, Accepted, LengthAt, Visited;
    WalkStepReads(memory, at, size);
    if entries != [] {
      var e, rest := EntryBytes(entries[0]), EntriesBytes(entries[1..]);
      BytesAtSplit(memory, at, e, rest);
      EntryRoomy(memory, at, entries[0], size);
      EntriesRoomy(memory, at + |e|, entries[1..], size);
    }
  }

  /** A written table is read without a look behind its end. */
  lemma WrittenReadsInside(memory: Memory, header: Record, entries: seq<Entry>)
    requires Fits(header, HEADER) && forall e <- entries :: WellFormed(e)
    requires BytesAt(memory, 0, |Table(header, entries)|) == Table(header, entries)
    ensures Inside(TableReads(memory, |Table(header, entries)|), |Table(header, entries)|)
  {
    hide WellFormed, Pack, Inside, TableReads, Visited, Roomy, BytesAt, SizeOf;
    HeaderSize();
    BytesAtSplit(memory, 0, Pack(header, HEADER), EntriesBytes(entries));
    EntriesRoomy(memory, HEADER_SIZE, entries, |Table(header, entries)|);
    ReadsInside(memory, |Table(header, entries)|);
  }

  /** The parser on a written table. */
  method ParseWritten(memory: Memory, ghost header: Record, ghost entries: seq<Entry>, size: nat)
    returns (parsed: ParsedNfit?)
    requires Fits(header, HEADER) && forall e <- entries :: WellFormed(e)
    requires size == |Table(header, entries)| && BytesAt(memory, 0, size) == Table(header, entries)
    ensures parsed != null && parsed.header == header && |parsed.lists| == KNOWN_TYPES
    ensures forall kind :: 0 <= kind < KNOWN_TYPES ==> parsed.lists[kind] == FieldsOf(entries, kind)
  {
    hide WellFormed, Tiling, Pack, OfType, FieldsOf, RecordAt;
    HeaderSize();
    TableRoundTrip(memory, header, entries);
    var result;
    ghost var touched;
    result, parsed, touched := ParseRawNfit(memory, false, size);
  }
}

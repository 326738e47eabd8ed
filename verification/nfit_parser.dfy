/** Splitting the raw table into its records and sorting the known ones into lists. */
module NfitParser {
  import opened LittleEndian
  import opened Ranges
  import opened NfitTables

  // ---------------------------------------------------------------- what the table consists of

  /** Type and length are read as one byte each. */
  function TypeAt(memory: Memory, at: nat): Byte {
    memory(at)
  }

  function LengthAt(memory: Memory, at: nat): Byte {
    memory(at + 2)
  }

  datatype Option<+T> = None | Some(value: T)

  /** Where the records begin when each starts at the end of the one before, from `at` to the end;
      none if one of them is empty or runs over the end. */
  function Walk(memory: Memory, at: nat, size: nat): (r: Option<seq<nat>>)
    decreases size - at
  {
    if at >= size then Some([])
    else
      var length := LengthAt(memory, at);
      if length == 0 || at + length > size then None
      else match Walk(memory, at + length, size)
        case None => None
        case Some(rest) => Some([at] + rest)
  }

  /** The records at these offsets have positive length and cover [from, size) end to end. */
  predicate Tiling(memory: Memory, offsets: seq<nat>, from: nat, size: nat) {
    && (if offsets == [] then size <= from else offsets[0] == from && from < size)
    && (forall i :: 0 <= i < |offsets| ==> LengthAt(memory, offsets[i]) > 0)
    && (forall i {:trigger LengthAt(memory, offsets[i])} :: 0 <= i < |offsets| ==>
          offsets[i] + LengthAt(memory, offsets[i]) == if i + 1 < |offsets| then offsets[i + 1] else size)
  }

  lemma {:induction false} WalkTiles(memory: Memory, from: nat, size: nat)
    requires Walk(memory, from, size).Some?
    ensures Tiling(memory, Walk(memory, from, size).value, from, size)
    decreases size - from
  {
    if from < size {
      var next := from + LengthAt(memory, from);
      WalkTiles(memory, next, size);
      var rest := Walk(memory, next, size).value;
      var offsets := [from] + rest;
      forall i | 0 <= i < |offsets|
        ensures offsets[i] + LengthAt(memory, offsets[i]) == if i + 1 < |offsets| then offsets[i + 1] else size
      {
        if i > 0 {
          assert offsets[i] == rest[i - 1];
          assert rest[i - 1] + LengthAt(memory, rest[i - 1]) == if i < |rest| then rest[i] else size;
        }
      }
    }
  }

  lemma {:induction false} TilingIsWalk(memory: Memory, offsets: seq<nat>, from: nat, size: nat)
    requires Tiling(memory, offsets, from, size)
    ensures Walk(memory, from, size) == Some(offsets)
    decreases |offsets|
  {
    hide Tiling, LengthAt;
    TilingNone(memory, offsets, from, size);
    if offsets != [] {
      TilingTail(memory, offsets, from, size);
      TilingIsWalk(memory, offsets[1..], from + LengthAt(memory, from), size);
      assert offsets == [from] + offsets[1..];
    }
  }

  lemma TilingNone(memory: Memory, offsets: seq<nat>, from: nat, size: nat)
    requires Tiling(memory, offsets, from, size)
    ensures offsets == [] <==> size <= from
  {
  }

  lemma TilingTail(memory: Memory, offsets: seq<nat>, from: nat, size: nat)
    requires Tiling(memory, offsets, from, size) && offsets != []
    ensures offsets[0] == from < size && LengthAt(memory, from) > 0 && from + LengthAt(memory, from) <= size
    ensures Tiling(memory, offsets[1..], from + LengthAt(memory, from), size)
  {
    hide LengthAt;
    var rest := offsets[1..];
    assert offsets[0] + LengthAt(memory, offsets[0]) == if 1 < |offsets| then offsets[1] else size;
    forall i | 0 <= i < |rest|
      ensures LengthAt(memory, rest[i]) > 0
      ensures rest[i] + LengthAt(memory, rest[i]) == if i + 1 < |rest| then rest[i + 1] else size
    {
      assert rest[i] == offsets[i + 1];
    }
    TilingInside(memory, offsets, size, 0);
    if rest != [] {
      TilingInside(memory, offsets, size, 1);
    }
  }

  lemma {:induction false} TilingInside(memory: Memory, offsets: seq<nat>, size: nat, i: nat)
    requires i < |offsets|
    requires forall i {:trigger LengthAt(memory, offsets[i])} :: 0 <= i < |offsets| ==>
               && LengthAt(memory, offsets[i]) > 0
               && offsets[i] + LengthAt(memory, offsets[i]) == if i + 1 < |offsets| then offsets[i + 1] else size
    ensures offsets[i] + LengthAt(memory, offsets[i]) <= size
    decreases |offsets| - i
  {
    hide LengthAt;
    if i + 1 < |offsets| {
      TilingInside(memory, offsets, size, i + 1);
    }
  }

  /** The walk succeeds exactly when the bytes are a concatenation of records, and then there is
      one way only to read them so. */
  lemma WalkIffTiling(memory: Memory, from: nat, size: nat)
    ensures Walk(memory, from, size).Some? <==> exists offsets :: Tiling(memory, offsets, from, size)
    ensures forall offsets :: Tiling(memory, offsets, from, size) ==> Walk(memory, from, size) == Some(offsets)
  {
    hide Tiling, Walk;
    if Walk(memory, from, size).Some? {
      WalkTiles(memory, from, size);
    }
    forall offsets | Tiling(memory, offsets, from, size)
      ensures Walk(memory, from, size) == Some(offsets)
    {
      TilingIsWalk(memory, offsets, from, size);
    }
  }

  /** The records of one type, in the order of the table. */
  function OfType(memory: Memory, offsets: seq<nat>, kind: nat): (records: seq<Record>)
    requires kind < KNOWN_TYPES
    ensures forall r <- records :: |r| == |LayoutOf(kind)|
  {
    if offsets == [] then []
    else
      (if TypeAt(memory, offsets[0]) == kind then [RecordAt(memory, offsets[0], LayoutOf(kind))] else [])
      + OfType(memory, offsets[1..], kind)
  }

  lemma {:induction false} OfTypeConcat(memory: Memory, a: seq<nat>, b: seq<nat>, kind: nat)
    requires kind < KNOWN_TYPES
    ensures OfType(memory, a + b, kind) == OfType(memory, a, kind) + OfType(memory, b, kind)
  {
    hide RecordAt, LayoutOf;
    if a == [] {
      assert a + b == b;
    } else {
      assert (a + b)[1..] == a[1..] + b;
      OfTypeConcat(memory, a[1..], b, kind);
    }
  }

  /** Record number i stands in the list of its type, behind exactly the earlier ones of that type. */
  lemma RecordListed(memory: Memory, offsets: seq<nat>, i: nat, kind: nat)
    requires i < |offsets| && kind < KNOWN_TYPES && TypeAt(memory, offsets[i]) == kind
    ensures var before := |OfType(memory, offsets[..i], kind)|;
            && before < |OfType(memory, offsets, kind)|
            && OfType(memory, offsets, kind)[before] == RecordAt(memory, offsets[i], LayoutOf(kind))
  {
    hide RecordAt, LayoutOf;
    assert offsets == offsets[..i] + offsets[i..];
    OfTypeConcat(memory, offsets[..i], offsets[i..], kind);
  }

  /** Nothing else is in the list: place number p comes from a record of that type with p others
      of its type before it. */
  lemma {:induction false} ListedRecord(memory: Memory, offsets: seq<nat>, p: nat, kind: nat) returns (i: nat)
    requires kind < KNOWN_TYPES && p < |OfType(memory, offsets, kind)|
    ensures i < |offsets| && TypeAt(memory, offsets[i]) == kind && |OfType(memory, offsets[..i], kind)| == p
    decreases |offsets|
  {
    hide RecordAt, LayoutOf;
    var n := |offsets| - 1;
    assert offsets == offsets[..n] + [offsets[n]];
    OfTypeConcat(memory, offsets[..n], [offsets[n]], kind);
    if p < |OfType(memory, offsets[..n], kind)| {
      i := ListedRecord(memory, offsets[..n], p, kind);
      assert offsets[..n][..i] == offsets[..i];
    } else {
      i := n;
    }
  }

  // ---------------------------------------------------------------- the parser

  class ParsedNfit {
    var header: Record
    /** The seven growing lists, by type. */
    var lists: seq<seq<Record>>

    constructor ()
      ensures header == [] && lists == seq(KNOWN_TYPES, _ => [])
    {
      header, lists := [], seq(KNOWN_TYPES, _ => []);
    }

    /** The lists are those of the records at the given places. */
    ghost predicate Holds(memory: Memory, offsets: seq<nat>)
      reads this`lists
    {
      |lists| == KNOWN_TYPES && forall kind :: 0 <= kind < KNOWN_TYPES ==> lists[kind] == OfType(memory, offsets, kind)
    }

    /** The add_*_to_parsed_nfit functions, which differ in the list alone: lists of the records so far
        become lists of those and one more. */
    method Append(kind: nat, record: Record, ghost memory: Memory, ghost done: seq<nat>, ghost at: nat)
      requires kind < KNOWN_TYPES && Holds(memory, done)
      requires TypeAt(memory, at) == kind && record == RecordAt(memory, at, LayoutOf(kind))
      modifies this`lists
      ensures Holds(memory, done + [at])
    {
      hide OfType, RecordAt, LayoutOf;
      OfTypeNext(memory, done, at);
      lists := lists[kind := lists[kind] + [record]];
    }

    /** A record of another type leaves the lists as they are. */
    lemma Passed(memory: Memory, done: seq<nat>, at: nat)
      requires Holds(memory, done) && TypeAt(memory, at) >= KNOWN_TYPES
      ensures Holds(memory, done + [at])
    {
      hide OfType, RecordAt, LayoutOf;
      OfTypeNext(memory, done, at);
    }
  }

  // ---------------------------------------------------------------- which bytes are read

  /** What is read of the records from `at` on: type and length, and the structure if it is copied. */
  function WalkReads(memory: Memory, at: nat, size: nat): seq<Range>
    decreases size - at
  {
    if at >= size then []
    else
      [Range(at, 1), Range(at + 2, 1)]
      + if !Accepted(memory, at, size) then []
        else Copied(memory, at) + WalkReads(memory, at + LengthAt(memory, at), size)
  }

  predicate Accepted(memory: Memory, at: nat, size: nat) {
    LengthAt(memory, at) > 0 && at + LengthAt(memory, at) <= size
  }

  function Copied(memory: Memory, at: nat): seq<Range> {
    if TypeAt(memory, at) < KNOWN_TYPES then [Range(at, SizeOf(LayoutOf(TypeAt(memory, at))))] else []
  }

  function TableReads(memory: Memory, size: nat): seq<Range> {
    [Range(0, HEADER_SIZE)] + WalkReads(memory, HEADER_SIZE, size)
  }

  /** Where the walk looks for a record: at every record, and at the first one it rejects. */
  function Visited(memory: Memory, at: nat, size: nat): seq<nat>
    decreases size - at
  {
    if at >= size then []
    else [at] + if !Accepted(memory, at, size) then [] else Visited(memory, at + LengthAt(memory, at), size)
  }

  /** Type and length lie in the table, and so does the structure, if it is copied. */
  predicate Roomy(memory: Memory, at: nat, size: nat) {
    && at + 2 < size
    && (Accepted(memory, at, size) && TypeAt(memory, at) < KNOWN_TYPES ==>
          at + SizeOf(LayoutOf(TypeAt(memory, at))) <= size)
  }

  lemma {:induction false} WalkInside(memory: Memory, at: nat, size: nat)
    ensures Inside(WalkReads(memory, at, size), size) <==> forall p <- Visited(memory, at, size) :: Roomy(memory, p, size)
    decreases size - at
  {
    hide Inside, Roomy, Copied, Accepted, WalkReads, Visited;
    WalkStepReads(memory, at, size);
    if at < size {
      OwnInside(memory, at, size);
      if Accepted(memory, at, size) {
        WalkInside(memory, at + LengthAt(memory, at), size);
        InsideBoth([Range(at, 1), Range(at + 2, 1)] + Copied(memory, at),
                   WalkReads(memory, at + LengthAt(memory, at), size), size);
      }
    } else {
      InsideNothing(size);
    }
  }

  lemma WalkStepReads(memory: Memory, at: nat, size: nat)
    ensures at >= size ==> WalkReads(memory, at, size) == [] && Visited(memory, at, size) == []
    ensures var pair, next := [Range(at, 1), Range(at + 2, 1)], at + LengthAt(memory, at);
            if at >= size then true
            else if Accepted(memory, at, size) then
              && LengthAt(memory, at) > 0
              && WalkReads(memory, at, size) == pair + Copied(memory, at) + WalkReads(memory, next, size)
              && Visited(memory, at, size) == [at] + Visited(memory, next, size)
            else WalkReads(memory, at, size) == pair + [] && Visited(memory, at, size) == [at]
  {
    hide Copied;
  }

  lemma OwnInside(memory: Memory, at: nat, size: nat)
    requires at < size
    ensures Inside([Range(at, 1), Range(at + 2, 1)] + if Accepted(memory, at, size) then Copied(memory, at) else [], size)
       <==> Roomy(memory, at, size)
  {
    hide LayoutOf, SizeOf;
    var own := [Range(at, 1), Range(at + 2, 1)] + if Accepted(memory, at, size) then Copied(memory, at) else [];
    assert own[0] in own && own[1] in own;
    if Accepted(memory, at, size) && TypeAt(memory, at) < KNOWN_TYPES {
      assert own[2] in own;
    }
  }

  /** A table, whether it is parsed with success or not, is read inside its buffer only if and only if
      it has its whole header, and wherever a record is looked for there is room for its type and
      length and, if it is accepted and of a known type, for the structure of that type. */
  lemma ReadsInside(memory: Memory, size: nat)
    ensures Inside(TableReads(memory, size), size) <==>
              HEADER_SIZE <= size && forall p <- Visited(memory, HEADER_SIZE, size) :: Roomy(memory, p, size)
  {
    hide WalkReads, Visited, Roomy;
    WalkInside(memory, HEADER_SIZE, size);
    InsideBoth([Range(0, HEADER_SIZE)], WalkReads(memory, HEADER_SIZE, size), size);
    InsideOne(Range(0, HEADER_SIZE), size);
  }

  lemma {:induction false} TilingIsVisited(memory: Memory, offsets: seq<nat>, from: nat, size: nat)
    requires Tiling(memory, offsets, from, size)
    ensures Visited(memory, from, size) == offsets
    ensures forall p <- offsets :: Accepted(memory, p, size)
    decreases |offsets|
  {
    hide Tiling;
    TilingNone(memory, offsets, from, size);
    if offsets != [] {
      TilingTail(memory, offsets, from, size);
      TilingIsVisited(memory, offsets[1..], from + LengthAt(memory, from), size);
      assert offsets == [from] + offsets[1..];
    }
  }

  /** So for a table that is parsed with success every record must have room for its structure. */
  lemma ParsedReadsInside(memory: Memory, offsets: seq<nat>, size: nat)
    requires Tiling(memory, offsets, HEADER_SIZE, size)
    ensures Inside(TableReads(memory, size), size) <==>
              && HEADER_SIZE <= size
              && forall p <- offsets ::
                   && p + 2 < size
                   && (TypeAt(memory, p) < KNOWN_TYPES ==> p + SizeOf(LayoutOf(TypeAt(memory, p))) <= size)
  {
    hide LayoutOf, SizeOf, Tiling, WalkReads, Visited, Accepted, Inside;
    ReadsInside(memory, size);
    TilingIsVisited(memory, offsets, HEADER_SIZE, size);
  }

  /** Any buffer shorter than the header is a table without records, and read behind its end. */
  lemma ShortBuffer(memory: Memory, size: nat)
    requires 0 < size < HEADER_SIZE
    ensures Tiling(memory, [], HEADER_SIZE, size) && !Inside(TableReads(memory, size), size)
  {
    ReadsInside(memory, size);
  }

  /** A record of a known type that is shorter than its structure, at the end of the table: the eight
      bytes of a range description are parsed with success, and forty-eight more are read. */
  lemma ShortRecord()
    ensures var memory := i => if i == 42 then 8 else 0;
            Tiling(memory, [40], HEADER_SIZE, 48) && !Inside(TableReads(memory, 48), 48)
  {
    var memory := i => if i == 42 then 8 else 0;
    assert LengthAt(memory, 40) == 8;
    SpaSize();
    assert 40 in [40];
    ParsedReadsInside(memory, [40], 48);
  }

  /** A table that is rejected may be read behind its end as well: one or two bytes follow the header,
      and the length that says they are no record stands behind them. */
  lemma RejectedRecord(memory: Memory, size: nat)
    requires HEADER_SIZE < size <= HEADER_SIZE + 2 && HEADER_SIZE + LengthAt(memory, HEADER_SIZE) > size
    ensures (forall offsets :: !Tiling(memory, offsets, HEADER_SIZE, size)) && !Inside(TableReads(memory, size), size)
  {
    hide Tiling;
    WalkIffTiling(memory, HEADER_SIZE, size);
    assert HEADER_SIZE in Visited(memory, HEADER_SIZE, size);
    ReadsInside(memory, size);
  }

  /** Parses the table of `size` bytes at address 0 of memory. The structures are copied whole,
      however short their records are; `touched` is what is read on the way. */
  method ParseRawNfit(memory: Memory, isNull: bool, size: nat)
    returns (result: int, parsed: ParsedNfit?, ghost touched: seq<Range>)
    ensures isNull || size == 0 ==> result == ERR_BADINPUT && touched == []
    ensures !isNull && size > 0 ==>
              && result == (if exists offsets :: Tiling(memory, offsets, HEADER_SIZE, size) then SUCCESS else ERR_BADNFIT)
              && touched == TableReads(memory, size)
    ensures result == SUCCESS <==> parsed != null
    ensures parsed != null ==>
              && fresh(parsed)
              && parsed.header == RecordAt(memory, 0, HEADER)
              && forall offsets :: Tiling(memory, offsets, HEADER_SIZE, size) ==> parsed.Holds(memory, offsets)
  {
    hide Tiling, RecordAt, LayoutOf, Prepended, Walk, WalkReads, OfType, Accepted;
    if size == 0 || isNull {
      return ERR_BADINPUT, null, [];
    }
    WalkIffTiling(memory, HEADER_SIZE, size);
    parsed := new ParsedNfit();
    parsed.header := RecordAt(memory, 0, HEADER);
    touched := [Range(0, HEADER_SIZE)];
    var offset := HEADER_SIZE;
    ghost var done: seq<nat> := [];
    NoneOfType(memory);
    result := SUCCESS;
    PrependNone(Walk(memory, offset, size));
    while offset < size && result == SUCCESS
      invariant result == SUCCESS && parsed.header == RecordAt(memory, 0, HEADER) && parsed.Holds(memory, done)
      invariant Walk(memory, HEADER_SIZE, size) == Prepended(done, Walk(memory, offset, size))
      invariant TableReads(memory, size) == touched + WalkReads(memory, offset, size)
      decreases size - offset
    {
      var kind, length := TypeAt(memory, offset), LengthAt(memory, offset);
      ReadsStep(memory, offset, size, touched);
      touched := touched + [Range(offset, 1), Range(offset + 2, 1)];
      if length == 0 || length + offset > size {
        WalkStops(memory, offset, size, done);
        return ERR_BADNFIT, null, touched;
      }
      WalkStep(memory, offset, size, done);
      if kind < KNOWN_TYPES {
        parsed.Append(kind, RecordAt(memory, offset, LayoutOf(kind)), memory, done, offset);
      } else {
        parsed.Passed(memory, done, offset);
      }
      touched := touched + Copied(memory, offset);
      done := done + [offset];
      offset := offset + length;
    }
    WalkEnds(memory, offset, size, done);
    ReadsEnd(memory, offset, size, touched);
  }

  lemma ReadsStep(memory: Memory, at: nat, size: nat, touched: seq<Range>)
    requires at < size
    ensures var own := touched + [Range(at, 1), Range(at + 2, 1)];
            && (!Accepted(memory, at, size) ==> touched + WalkReads(memory, at, size) == own)
            && (Accepted(memory, at, size) ==>
                  touched + WalkReads(memory, at, size)
                  == own + Copied(memory, at) + WalkReads(memory, at + LengthAt(memory, at), size))
    ensures Accepted(memory, at, size) <==> LengthAt(memory, at) > 0 && at + LengthAt(memory, at) <= size
  {
    hide Copied;
    var pair, rest := [Range(at, 1), Range(at + 2, 1)], WalkReads(memory, at + LengthAt(memory, at), size);
    assert pair + [] == pair;
    assert touched + (pair + (Copied(memory, at) + rest)) == touched + pair + Copied(memory, at) + rest;
  }

  lemma ReadsEnd(memory: Memory, at: nat, size: nat, touched: seq<Range>)
    requires at >= size
    ensures touched + WalkReads(memory, at, size) == touched
  {
  }

  function Prepended(done: seq<nat>, r: Option<seq<nat>>): Option<seq<nat>> {
    match r
    case None => None
    case Some(rest) => Some(done + rest)
  }

  lemma PrependNone(r: Option<seq<nat>>)
    ensures Prepended([], r) == r
  {
    if r.Some? {
      assert [] + r.value == r.value;
    }
  }

  lemma WalkStep(memory: Memory, at: nat, size: nat, done: seq<nat>)
    requires at < size && LengthAt(memory, at) > 0 && at + LengthAt(memory, at) <= size
    ensures Prepended(done, Walk(memory, at, size))
         == Prepended(done + [at], Walk(memory, at + LengthAt(memory, at), size))
  {
    var rest := Walk(memory, at + LengthAt(memory, at), size);
    if rest.Some? {
      assert done + ([at] + rest.value) == done + [at] + rest.value;
    }
  }

  lemma WalkStops(memory: Memory, at: nat, size: nat, done: seq<nat>)
    requires at < size && (LengthAt(memory, at) == 0 || at + LengthAt(memory, at) > size)
    ensures Prepended(done, Walk(memory, at, size)) == None
  {
  }

  lemma WalkEnds(memory: Memory, at: nat, size: nat, done: seq<nat>)
    requires at >= size
    ensures Prepended(done, Walk(memory, at, size)) == Some(done)
  {
    assert done + [] == done;
  }

  lemma NoneOfType(memory: Memory)
    ensures forall kind :: 0 <= kind < KNOWN_TYPES ==> OfType(memory, [], kind) == []
  {
  }

  lemma OfTypeNext(memory: Memory, done: seq<nat>, at: nat)
    ensures forall kind :: 0 <= kind < KNOWN_TYPES ==>
              OfType(memory, done + [at], kind)
              == OfType(memory, done, kind)
                 + if TypeAt(memory, at) == kind then [RecordAt(memory, at, LayoutOf(kind))] else []
  {
    hide RecordAt, LayoutOf;
    forall kind | 0 <= kind < KNOWN_TYPES
      ensures OfType(memory, done + [at], kind)
              == OfType(memory, done, kind)
                 + if TypeAt(memory, at) == kind then [RecordAt(memory, at, LayoutOf(kind))] else []
    {
      OfTypeConcat(memory, done, [at], kind);
    }
  }
}

/** Little-endian numbers and the packed structures made of them. */
module LittleEndian {

  type Byte = b: nat | b < 256

  type Bytes = seq<Byte>

  /** What a sequence of bytes is worth, the first byte counting least. */
  function Value(bytes: Bytes): nat {
    if bytes == [] then 0 else bytes[0] + 256 * Value(bytes[1..])
  }

  /** The lowest bytes of a number. */
  function Encoded(width: nat, value: nat): (bytes: Bytes)
    ensures |bytes| == width
  {
    if width == 0 then [] else [value % 256] + Encoded(width - 1, value / 256)
  }

  function Power256(width: nat): nat {
    if width == 0 then 1 else 256 * Power256(width - 1)
  }

  lemma {:induction false} ValueOfEncoded(width: nat, value: nat)
    requires value < Power256(width)
    ensures Value(Encoded(width, value)) == value
  {
    if width > 0 {
      ValueOfEncoded(width - 1, value / 256);
    }
  }

  lemma {:induction false} EncodedValue(bytes: Bytes)
    ensures Value(bytes) < Power256(|bytes|) && Encoded(|bytes|, Value(bytes)) == bytes
  {
    if bytes != [] {
      EncodedValue(bytes[1..]);
    }
  }

  // ---------------------------------------------------------------- packed structures

  /** A packed structure as the values of its fields. */
  type Record = seq<nat>

  /** The widths of its fields, in bytes. */
  type Layout = seq<nat>

  function SizeOf(layout: Layout): nat {
    if layout == [] then 0 else layout[0] + SizeOf(layout[1..])
  }

  lemma {:induction false} SizeOfConcat(a: Layout, b: Layout)
    ensures SizeOf(a + b) == SizeOf(a) + SizeOf(b)
  {
    if a == [] {
      assert a + b == b;
    } else {
      assert (a + b)[1..] == a[1..] + b;
      SizeOfConcat(a[1..], b);
    }
  }

  predicate Fits(record: Record, layout: Layout) {
    |record| == |layout| && forall i :: 0 <= i < |layout| ==> record[i] < Power256(layout[i])
  }

  function Pack(record: Record, layout: Layout): (bytes: Bytes)
    requires |record| == |layout|
    ensures |bytes| == SizeOf(layout)
  {
    if layout == [] then [] else Encoded(layout[0], record[0]) + Pack(record[1..], layout[1..])
  }

  function Unpack(bytes: Bytes, layout: Layout): (record: Record)
    requires |bytes| == SizeOf(layout)
    ensures |record| == |layout|
  {
    if layout == [] then []
    else [Value(bytes[..layout[0]])] + Unpack(bytes[layout[0]..], layout[1..])
  }

  lemma {:induction false} UnpackPack(record: Record, layout: Layout)
    requires Fits(record, layout)
    ensures Unpack(Pack(record, layout), layout) == record
  {
    if layout != [] {
      var head, tail := Encoded(layout[0], record[0]), Pack(record[1..], layout[1..]);
      assert (head + tail)[..layout[0]] == head && (head + tail)[layout[0]..] == tail;
      ValueOfEncoded(layout[0], record[0]);
      UnpackPack(record[1..], layout[1..]);
    }
  }

  lemma {:induction false} PackUnpack(bytes: Bytes, layout: Layout)
    requires |bytes| == SizeOf(layout)
    ensures Fits(Unpack(bytes, layout), layout) && Pack(Unpack(bytes, layout), layout) == bytes
  {
    if layout != [] {
      var head, tail := bytes[..layout[0]], bytes[layout[0]..];
      EncodedValue(head);
      PackUnpack(tail, layout[1..]);
      assert head + tail == bytes;
    }
  }

  /** Where the fields of a structure begin. */
  function Offsets(layout: Layout): (offsets: seq<nat>)
    ensures |offsets| == |layout|
  {
    seq(|layout|, i requires 0 <= i < |layout| => SizeOf(layout[..i]))
  }

  lemma OffsetsNext(layout: Layout)
    ensures layout != [] ==> Offsets(layout)[0] == 0
    ensures forall i :: 0 < i < |layout| ==> Offsets(layout)[i] == Offsets(layout)[i - 1] + layout[i - 1]
  {
    forall i | 0 < i < |layout|
      ensures SizeOf(layout[..i]) == SizeOf(layout[..i - 1]) + layout[i - 1]
    {
      assert layout[..i] == layout[..i - 1] + [layout[i - 1]];
      SizeOfConcat(layout[..i - 1], [layout[i - 1]]);
    }
  }

  lemma SizeLast(layout: Layout)
    requires layout != []
    ensures SizeOf(layout) == Offsets(layout)[|layout| - 1] + layout[|layout| - 1]
  {
    assert layout == layout[..|layout| - 1] + [layout[|layout| - 1]];
    SizeOfConcat(layout[..|layout| - 1], [layout[|layout| - 1]]);
  }

  lemma OffsetsConcat(a: Layout, b: Layout, i: nat)
    requires i < |a| + |b|
    ensures Offsets(a + b)[i] == if i < |a| then Offsets(a)[i] else SizeOf(a) + Offsets(b)[i - |a|]
  {
    hide SizeOf, Offsets;
    PrefixConcat(a, b, i);
    OffsetIs(a + b, i);
    if i < |a| {
      OffsetIs(a, i);
    } else {
      OffsetIs(b, i - |a|);
      SizeOfConcat(a, b[..i - |a|]);
    }
  }

  lemma OffsetIs(layout: Layout, i: nat)
    requires i < |layout|
    ensures Offsets(layout)[i] == SizeOf(layout[..i])
  {
  }

  lemma PrefixConcat(a: Layout, b: Layout, i: nat)
    requires i <= |a| + |b|
    ensures (a + b)[..i] == if i < |a| then a[..i] else a + b[..i - |a|]
  {
  }

  // ---------------------------------------------------------------- memory

  /** Memory by address; a structure may be read where the buffer has already ended. */
  type Memory = nat -> Byte

  function BytesAt(memory: Memory, at: nat, count: nat): (bytes: Bytes)
    ensures |bytes| == count
    ensures forall i :: 0 <= i < count ==> bytes[i] == memory(at + i)
  {
    seq(count, i requires 0 <= i < count => memory(at + i))
  }

  function RecordAt(memory: Memory, at: nat, layout: Layout): (record: Record)
    ensures |record| == |layout|
  {
    Unpack(BytesAt(memory, at, SizeOf(layout)), layout)
  }

  /** Reading a packed structure gives back its fields. */
  lemma RecordRoundTrip(memory: Memory, at: nat, record: Record, layout: Layout)
    requires Fits(record, layout) && BytesAt(memory, at, SizeOf(layout)) == Pack(record, layout)
    ensures RecordAt(memory, at, layout) == record
  {
    UnpackPack(record, layout);
  }

  lemma BytesAtSplit(memory: Memory, at: nat, a: Bytes, b: Bytes)
    ensures BytesAt(memory, at, |a + b|) == a + b
       <==> BytesAt(memory, at, |a|) == a && BytesAt(memory, at + |a|, |b|) == b
  {
    var all := BytesAt(memory, at, |a + b|);
    assert all[..|a|] == BytesAt(memory, at, |a|);
    assert all[|a|..] == BytesAt(memory, at + |a|, |b|);
    assert all == all[..|a|] + all[|a|..];
    assert (a + b)[..|a|] == a && (a + b)[|a|..] == b;
  }

  /** The number in so many bytes. */
  function Word(memory: Memory, at: nat, width: nat): nat {
    Value(BytesAt(memory, at, width))
  }

  /** The lowest byte comes first. */
  lemma WordIs(memory: Memory, at: nat)
    ensures Word(memory, at, 0) == 0
    ensures Word(memory, at, 1) == memory(at)
    ensures Word(memory, at, 2) == memory(at) + 0x100 * memory(at + 1)
  {
    WordNext(memory, at, 0);
    WordNext(memory, at, 1);
    WordNext(memory, at + 1, 0);
  }

  lemma WordNext(memory: Memory, at: nat, width: nat)
    ensures Word(memory, at, width + 1) == memory(at) + 0x100 * Word(memory, at + 1, width)
  {
    assert BytesAt(memory, at, width + 1)[1..] == BytesAt(memory, at + 1, width);
  }

  lemma FourBytes(memory: Memory, at: nat)
    ensures Word(memory, at, 4)
         == memory(at) + 0x100 * memory(at + 1) + 0x1_0000 * memory(at + 2) + 0x100_0000 * memory(at + 3)
  {
    hide Word;
    WordNext(memory, at, 3);
    WordNext(memory, at + 1, 2);
    WordIs(memory, at + 2);
  }

  /** A field is what the bytes at its place are worth. */
  lemma {:induction false} FieldAt(memory: Memory, at: nat, layout: Layout, i: nat)
    requires i < |layout|
    ensures RecordAt(memory, at, layout)[i] == Value(BytesAt(memory, at + SizeOf(layout[..i]), layout[i]))
    decreases i
  {
    var bytes, rest := BytesAt(memory, at, SizeOf(layout)), layout[1..];
    if i == 0 {
      assert bytes[..layout[0]] == BytesAt(memory, at, layout[0]);
    } else {
      FieldAt(memory, at + layout[0], rest, i - 1);
      assert bytes[layout[0]..] == BytesAt(memory, at + layout[0], SizeOf(rest));
      assert layout[..i][1..] == rest[..i - 1];
    }
  }

  /** A field of a structure is the number in its bytes. */
  lemma FieldWord(memory: Memory, p: nat, layout: Layout, i: nat)
    requires i < |layout|
    ensures RecordAt(memory, p, layout)[i] == Word(memory, p + Offsets(layout)[i], layout[i])
  {
    FieldAt(memory, p, layout, i);
  }
}

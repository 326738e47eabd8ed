/** Fetching the platform configuration data in chunks from a device that may fail any read. */
module PcdFetch {
  import opened Basics
  import opened LittleEndian

  /** PT_DEV_SMALL_PAYLOAD_SIZE. */
  const CHUNK: nat := 128

  function Successes(responses: seq<int>): nat {
    if responses == [] then 0
    else Successes(responses[..|responses| - 1]) + if responses[|responses| - 1] == 0 then 1 else 0
  }

  lemma {:induction false} SuccessesConcat(a: seq<int>, b: seq<int>)
    ensures Successes(a + b) == Successes(a) + Successes(b)
    decreases |b|
  {
    if b == [] {
      assert a + b == a;
    } else {
      var rest, last := b[..|b| - 1], b[|b| - 1];
      assert a + b == (a + rest) + [last];
      SuccessesConcat(a, rest);
    }
  }

  /** How many reads it takes. */
  function Chunks(size: nat): nat {
    (size + CHUNK - 1) / CHUNK
  }

  /** How far so many reads get. */
  function Progress(successes: nat, size: nat): nat {
    if successes * CHUNK < size then successes * CHUNK else size
  }

  /** In numbers: chunks of 128 bytes, the last one cut. */
  lemma InNumbers(successes: nat, size: nat)
    ensures Chunks(size) == (size + 127) / 128
    ensures Progress(successes, size) == if 128 * successes < size then 128 * successes else size
  {
  }

  lemma ProgressComplete(successes: nat, size: nat)
    ensures Progress(successes, size) == size <==> successes >= Chunks(size)
  {
  }

  /** One more success, and how far it gets. */
  lemma ProgressNext(successes: nat, size: nat)
    requires Progress(successes, size) < size
    ensures Progress(successes + 1, size) == if Progress(successes, size) + CHUNK > size then size
                                             else Progress(successes, size) + CHUNK
    ensures successes < Chunks(size)
  {
  }

  /** Addition of int where it overflows by wrapping around. */
  function IntSum(a: int, b: int): int {
    if a + b < 0x8000_0000 then a + b else a + b - 0x1_0000_0000
  }

  /** An int compared with a size_t. */
  function AsSize(x: int): int {
    if x < 0 then x + 0x1_0000_0000_0000_0000 else x
  }

  /** The test for the last chunk: a sum that has wrapped around is a huge size, so the chunk is cut
      there too. */
  lemma LastChunk(offset: nat, size: nat)
    requires offset < size < 0x8000_0000
    ensures AsSize(IntSum(offset, CHUNK)) > size <==> offset + CHUNK > size
  {
  }

  /** For which sizes the sum never overflows. */
  lemma SumFits(size: nat)
    requires size < 0x8000_0000
    ensures (forall n: nat :: Progress(n, size) < size ==> Progress(n, size) + CHUNK < 0x8000_0000)
       <==> size <= 0x7FFF_FF80
  {
    if size > 0x7FFF_FF80 {
      assert Progress(0xFF_FFFF, size) == 0x7FFF_FF80;
    }
  }

  /** The device answers each read with the next code of a list that nothing is assumed about. A
      failed read leaves anything in the buffer. */
  class Device {
    const contents: Memory
    const noise: Memory
    var responses: seq<int>

    constructor (contents: Memory, noise: Memory, responses: seq<int>)
      ensures this.contents == contents && this.noise == noise && this.responses == responses
    {
      this.contents, this.noise, this.responses := contents, noise, responses;
    }

    method Read(offset: nat, buffer: array<Byte>) returns (rc: int)
      requires responses != [] && buffer.Length == CHUNK
      modifies this`responses, buffer
      ensures rc == old(responses)[0] && responses == old(responses)[1..]
      ensures rc == 0 ==> buffer[..] == BytesAt(contents, offset, CHUNK)
    {
      rc := responses[0];
      responses := responses[1..];
      for i := 0 to CHUNK
        invariant rc == old(responses)[0] && responses == old(responses)[1..]
        invariant rc == 0 ==> buffer[..i] == BytesAt(contents, offset, CHUNK)[..i]
      {
        buffer[i] := if rc == 0 then contents(offset + i) else noise(i);
        assert buffer[..i + 1] == buffer[..i] + [buffer[i]];
      }
      assert buffer[..CHUNK] == buffer[..];
    }
  }

  method CopyChunk(output: array<Byte>, offset: nat, chunk: array<Byte>, count: nat)
    requires offset + count <= output.Length && count <= chunk.Length && output != chunk
    modifies output
    ensures forall k :: 0 <= k < output.Length ==>
              output[k] == if offset <= k < offset + count then chunk[k - offset] else old(output[k])
  {
    for i := 0 to count
      invariant forall k :: 0 <= k < output.Length ==>
                  output[k] == if offset <= k < offset + i then chunk[k - offset] else old(output[k])
    {
      output[offset + i] := chunk[i];
    }
  }

  /** The first bytes of the output are the device's, the others as they were. */
  ghost predicate Fetched(contents: Memory, output: array<Byte>, offset: nat, was: Bytes)
    reads output
  {
    && output.Length == |was|
    && forall k :: 0 <= k < output.Length ==> output[k] == if k < offset then contents(k) else was[k]
  }

  lemma NothingFetched(contents: Memory, output: array<Byte>)
    ensures Fetched(contents, output, 0, output[..])
  {
  }

  /** One round: if the read succeeds, its chunk is copied, cut at the size. */
  method FetchChunk(device: Device, size: nat, output: array<Byte>, offset: nat, buffer: array<Byte>, ghost was: Bytes)
    returns (rc: int, next: nat)
    requires offset < size < 0x8000_0000 && size <= output.Length && device.responses != []
    requires buffer.Length == CHUNK && buffer != output && Fetched(device.contents, output, offset, was)
    modifies device`responses, output, buffer
    ensures rc == old(device.responses)[0] && device.responses == old(device.responses)[1..]
    ensures next == if rc != 0 then offset else if offset + CHUNK > size then size else offset + CHUNK
    ensures Fetched(device.contents, output, next, was)
  {
    next := offset;
    rc := device.Read(offset, buffer);
    if rc == 0 {
      LastChunk(offset, size);
      var transferSize := CHUNK;
      if AsSize(IntSum(offset, CHUNK)) > size {
        transferSize := size - offset;
      }
      assert forall i :: 0 <= i < CHUNK ==> buffer[i] == buffer[..][i] == device.contents(offset + i);
      CopyChunk(output, offset, buffer, transferSize);
      next := offset + transferSize;
    }
  }

  /** The loop: a failed read is simply tried again. `complete` says that it has come to its end
      before the responses did; otherwise the source would still be reading. */
  method Fetch(device: Device, size: nat, output: array<Byte>) returns (rc: int, complete: bool, ghost used: seq<int>)
    requires size < 0x8000_0000 && size <= output.Length
    modifies device`responses, output
    ensures old(device.responses) == used + device.responses
    ensures complete <==> Successes(old(device.responses)) >= (size + 127) / 128
    ensures complete ==> rc == 0 && Successes(used) == (size + 127) / 128
    ensures !complete ==> device.responses == []
    ensures var n := 128 * Successes(used);
            Fetched(device.contents, output, if n < size then n else size, old(output[..]))
  {
    hide Successes, Progress, Chunks, Fetched;
    var buffer := new Byte[CHUNK](_ => 0);
    var offset: nat := 0;
    rc, used := 0, [];
    NothingFetched(device.contents, output);
    NothingUsed(size);
    while offset < size && device.responses != []
      invariant old(device.responses) == used + device.responses
      invariant offset == Progress(Successes(used), size) && offset <= size && Successes(used) <= Chunks(size)
      invariant offset == size ==> rc == 0
      invariant Fetched(device.contents, output, offset, old(output[..]))
      decreases |device.responses|
    {
      Shift(used, device.responses);
      SuccessesNext(used, device.responses[0]);
      ProgressNext(Successes(used), size);
      used := used + [device.responses[0]];
      rc, offset := FetchChunk(device, size, output, offset, buffer, old(output[..]));
    }
    complete := offset == size;
    SuccessesConcat(used, device.responses);
    ProgressComplete(Successes(used), size);
    InNumbers(Successes(used), size);
    if device.responses == [] {
      NothingUsed(size);
    }
  }

  lemma NothingUsed(size: nat)
    ensures Successes([]) == 0 && Progress(0, size) == 0
  {
  }

  lemma SuccessesNext(used: seq<int>, rc: int)
    ensures Successes(used + [rc]) == Successes(used) + if rc == 0 then 1 else 0
  {
    assert (used + [rc])[..|used|] == used;
  }
}

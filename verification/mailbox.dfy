/** Large payloads through the mailbox of the BIOS, one window at a time. */
module Mailbox {
  import opened Basics
  import opened LittleEndian

  const ERR_UNKNOWN: nat := 1
  const ERR_DRIVERFAILED: nat := 5
  const ERR_NOMEMORY: nat := 8

  const UINT_MODULUS: nat := 0x1_0000_0000

  /** The packed result; func and driver have four bits each, the others eight. */
  datatype PtResult = PtResult(func: nat, driver: nat, pt: nat, fwStatus: nat, fwExtStatus: nat)

  const NO_ERROR := PtResult(0, 0, 0, 0, 0)

  predicate IsSuccess(r: PtResult) {
    r == NO_ERROR
  }

  /** Everything that can go wrong with one command: memory and command cannot be had, the input is
      not taken whole, the driver or the BIOS returns a code, the firmware reports a status, the
      output is not of the expected size. */
  datatype Answer = Answer(memory: bool, command: bool, input: bool, submit: int, status: nat, output: bool)

  /** -rc cast to an unsigned char and stored in four bits. */
  function DriverField(submit: int): nat {
    (-submit) % 256 % 16
  }

  function WithStatus(pt: nat, status: nat): PtResult {
    PtResult(0, 0, pt, status % 256, status / 0x1_0000 % 256)
  }

  /** What is recorded for the submission of a chunk to write. */
  function RecordedWrite(a: Answer): PtResult {
    if !a.memory then NO_ERROR.(func := ERR_NOMEMORY)
    else if !a.command || !a.input then NO_ERROR.(func := ERR_DRIVERFAILED)
    else if a.submit < 0 then NO_ERROR.(driver := DriverField(a.submit))
    else WithStatus(a.submit % 256, a.status)
  }

  /** pt_cmd_submit: a positive code is ignored on purpose. */
  function RecordedSubmit(a: Answer): PtResult {
    if a.submit < 0 then NO_ERROR.(driver := DriverField(a.submit)) else WithStatus(0, a.status)
  }

  /** The same for a chunk to read, with the check of the size that came back. */
  function RecordedRead(a: Answer): PtResult {
    if !a.memory then NO_ERROR.(func := ERR_NOMEMORY)
    else if !a.command || !a.input then NO_ERROR.(func := ERR_DRIVERFAILED)
    else if IsSuccess(RecordedSubmit(a)) && !a.output then NO_ERROR.(func := ERR_DRIVERFAILED)
    else RecordedSubmit(a)
  }

  /** What is recorded for the query of the sizes. */
  function RecordedSizes(a: Answer): PtResult {
    if !a.command then NO_ERROR.(func := ERR_DRIVERFAILED)
    else if IsSuccess(RecordedSubmit(a)) && !a.output then NO_ERROR.(func := ERR_DRIVERFAILED)
    else RecordedSubmit(a)
  }

  /** The BIOS has taken the chunk. */
  predicate Taken(a: Answer) {
    a.memory && a.command && a.input && a.submit == 0 && a.status == 0
  }

  /** The BIOS has delivered the chunk; positive codes are no errors here. */
  predicate Delivered(a: Answer) {
    a.memory && a.command && a.input && a.submit >= 0 && a.status == 0 && a.output
  }

  /** The status fields keep two of the four bytes of the status. */
  predicate StatusLost(status: nat) {
    status != 0 && status % 256 == 0 && status / 0x1_0000 % 256 == 0
  }

  /** Exactly when a write that the BIOS has not taken is recorded as a success: an error number
      divisible by 16, a BIOS code divisible by 256, or a status outside the two bytes kept. */
  lemma UnseenWriteFailure(a: Answer)
    ensures IsSuccess(RecordedWrite(a)) && !Taken(a) <==>
              && a.memory && a.command && a.input
              && ((a.submit < 0 && a.submit % 16 == 0)
                  || (a.submit > 0 && a.submit % 256 == 0 && (a.status == 0 || StatusLost(a.status)))
                  || (a.submit == 0 && StatusLost(a.status)))
  {
    DriverFieldZero(a.submit);
  }

  lemma DriverFieldZero(submit: int)
    ensures DriverField(submit) == 0 <==> submit % 16 == 0
  {
    var x := -submit;
    var q, r := x / 256, x % 256;
    var p, t := r / 16, r % 16;
    var k := 16 * q + p;
    assert x == 16 * k + t;
    if t == 0 {
      RemainderIs(submit, -k, 0);
    } else {
      RemainderIs(submit, -k - 1, 16 - t);
    }
  }

  lemma RemainderIs(x: int, q: int, r: int)
    requires 0 <= r < 16 && x == 16 * q + r
    ensures x % 16 == r
  {
  }

  /** Device busy is such an error number: the chunk is not written, and no error is recorded. */
  lemma BusyGoesUnseen(status: nat)
    ensures var busy := Answer(true, true, true, -16, status, true);
            IsSuccess(RecordedWrite(busy)) && !Taken(busy) && IsSuccess(RecordedRead(busy)) && !Delivered(busy)
  {
  }

  lemma UnseenReadFailure(a: Answer)
    ensures IsSuccess(RecordedRead(a)) && !Delivered(a) <==>
              && a.memory && a.command && a.input && a.output
              && ((a.submit < 0 && a.submit % 16 == 0) || (a.submit >= 0 && StatusLost(a.status)))
  {
    DriverFieldZero(a.submit);
  }

  /** The BIOS has answered the query of the sizes. */
  predicate Answered(a: Answer) {
    a.command && a.submit >= 0 && a.status == 0 && a.output
  }

  /** A query that has failed and is recorded as a success. */
  predicate QueryFailureUnseen(a: Answer) {
    && a.command && a.output
    && ((a.submit < 0 && a.submit % 16 == 0) || (a.submit >= 0 && StatusLost(a.status)))
  }

  lemma UnseenQueryFailure(a: Answer)
    ensures IsSuccess(RecordedSizes(a)) <==> Answered(a) || QueryFailureUnseen(a)
    ensures !(Answered(a) && QueryFailureUnseen(a))
  {
    DriverFieldZero(a.submit);
  }

  // ---------------------------------------------------------------- what is recorded, field by field

  lemma DriverFieldIs(submit: int)
    ensures DriverField(submit) == (-submit) % 16
  {
    var x := -submit;
    var q, r := x / 256, x % 256;
    DivisionUnique(x / 16, x % 16, 16 * q + r / 16, r % 16, 16);
  }

  /** A chunk to write: the first field tells what went wrong before the submission, the second the
      error number of the driver, the third the code of the BIOS, the others two bytes of the status. */
  lemma WriteFields(a: Answer)
    ensures var r, sent := RecordedWrite(a), a.memory && a.command && a.input;
            && r.func == (if !a.memory then 8 else if !a.command || !a.input then 5 else 0)
            && r.driver == (if sent && a.submit < 0 then (-a.submit) % 16 else 0)
            && r.pt == (if sent && a.submit >= 0 then a.submit % 256 else 0)
            && r.fwStatus == (if sent && a.submit >= 0 then a.status % 256 else 0)
            && r.fwExtStatus == (if sent && a.submit >= 0 then a.status / 0x1_0000 % 256 else 0)
  {
    DriverFieldIs(a.submit);
  }

  /** A chunk to read: the code of the BIOS is ignored, and output of a wrong size counts as a failure
      if nothing else does. */
  lemma ReadFields(a: Answer)
    ensures var r, sent := RecordedRead(a), a.memory && a.command && a.input;
            && (if !a.memory then r.func == 8
                else if !sent then r.func == 5
                else r.func == if r.driver == r.fwStatus == r.fwExtStatus == 0 && !a.output then 5 else 0)
            && r.driver == (if sent && a.submit < 0 then (-a.submit) % 16 else 0) && r.pt == 0
            && r.fwStatus == (if sent && a.submit >= 0 then a.status % 256 else 0)
            && r.fwExtStatus == (if sent && a.submit >= 0 then a.status / 0x1_0000 % 256 else 0)
  {
    DriverFieldIs(a.submit);
  }

  /** The query of the sizes: the same, with neither memory nor input of its own. */
  lemma SizesFields(a: Answer)
    ensures var r := RecordedSizes(a);
            && (if !a.command then r.func == 5
                else r.func == if r.driver == r.fwStatus == r.fwExtStatus == 0 && !a.output then 5 else 0)
            && r.driver == (if a.command && a.submit < 0 then (-a.submit) % 16 else 0) && r.pt == 0
            && r.fwStatus == (if a.command && a.submit >= 0 then a.status % 256 else 0)
            && r.fwExtStatus == (if a.command && a.submit >= 0 then a.status / 0x1_0000 % 256 else 0)
  {
    DriverFieldIs(a.submit);
  }

  // ---------------------------------------------------------------- the chunks

  datatype Chunk = Chunk(offset: nat, size: nat)

  /** The chunks for n bytes: all of window size but perhaps the last. */
  function Plan(from: nat, n: nat, window: nat): (chunks: seq<Chunk>)
    requires window > 0
    decreases n - from
  {
    if from >= n then []
    else
      var size := if from + window > n then n - from else window;
      [Chunk(from, size)] + Plan(from + size, n, window)
  }

  function CeilDiv(n: nat, d: nat): nat
    requires d > 0
  {
    (n + d - 1) / d
  }

  /** They tile [from, n) without gap or overlap, none larger than the window and none empty. */
  lemma {:induction false} PlanTiles(from: nat, n: nat, window: nat)
    requires window > 0 && from <= n
    ensures var chunks := Plan(from, n, window);
            && (forall i :: 0 <= i < |chunks| ==> 0 < chunks[i].size <= window)
            && (forall i :: 0 <= i < |chunks| ==>
                  chunks[i].offset == if i == 0 then from else chunks[i - 1].offset + chunks[i - 1].size)
            && (if chunks == [] then from == n else chunks[|chunks| - 1].offset + chunks[|chunks| - 1].size == n)
    decreases n - from
  {
    if from < n {
      var size := if from + window > n then n - from else window;
      PlanTiles(from + size, n, window);
      var rest, chunks := Plan(from + size, n, window), Plan(from, n, window);
      assert chunks == [Chunk(from, size)] + rest;
      forall i | 0 <= i < |chunks|
        ensures 0 < chunks[i].size <= window
        ensures chunks[i].offset == if i == 0 then from else chunks[i - 1].offset + chunks[i - 1].size
      {
        if i > 0 {
          assert chunks[i] == rest[i - 1];
          assert i > 1 ==> chunks[i - 1] == rest[i - 2];
        }
      }
    }
  }

  /** There are ceil(n / window) of them. */
  lemma {:induction false} PlanCount(from: nat, n: nat, window: nat)
    requires window > 0 && from <= n
    ensures |Plan(from, n, window)| == CeilDiv(n - from, window)
    decreases n - from
  {
    var m := n - from;
    if from < n {
      if from + window > n {
        QuotientIs(m + window - 1, 1, m - 1, window);
        PlanCount(n, n, window);
        QuotientIs(window - 1, 0, window - 1, window);
      } else {
        PlanCount(from + window, n, window);
        OneWindowMore(m, window);
      }
    } else {
      QuotientIs(window - 1, 0, window - 1, window);
    }
  }

  lemma QuotientIs(x: nat, q: nat, r: nat, d: nat)
    requires r < d && x == q * d + r
    ensures x / d == q
  {
    DivisionUnique(x / d, x % d, q, r, d);
  }

  lemma OneWindowMore(m: nat, window: nat)
    requires 0 < window <= m
    ensures CeilDiv(m, window) == 1 + CeilDiv(m - window, window)
  {
    var x := m - window + window - 1;
    assert x == (x / window) * window + x % window;
    QuotientIs(m + window - 1, x / window + 1, x % window, window);
  }

  // ---------------------------------------------------------------- the BIOS

  datatype Sizes = Sizes(largeInput: nat, largeOutput: nat, window: nat)

  /** The mailboxes behind the driver. Its answers are arbitrary; where it does not take or deliver
      a chunk, anything may be left in that place. */
  class Bios {
    const sizes: Sizes
    const sizesAnswer: Answer
    const noise: Memory
    var answers: seq<Answer>
    const inputMailbox: array<Byte>
    const outputMailbox: array<Byte>

    constructor (sizes: Sizes, sizesAnswer: Answer, noise: Memory, answers: seq<Answer>,
                 inputMailbox: array<Byte>, outputMailbox: array<Byte>)
      ensures this.sizes == sizes && this.sizesAnswer == sizesAnswer && this.noise == noise && this.answers == answers
      ensures this.inputMailbox == inputMailbox && this.outputMailbox == outputMailbox
    {
      this.sizes, this.sizesAnswer, this.noise, this.answers := sizes, sizesAnswer, noise, answers;
      this.inputMailbox, this.outputMailbox := inputMailbox, outputMailbox;
    }

    /** A chunk comes in. */
    method Take(offset: nat, chunk: Bytes) returns (a: Answer)
      requires answers != [] && offset + |chunk| <= inputMailbox.Length
      modifies this`answers, inputMailbox
      ensures a == old(answers)[0] && answers == old(answers)[1..]
      ensures forall k :: 0 <= k < inputMailbox.Length && !(offset <= k < offset + |chunk|) ==>
                inputMailbox[k] == old(inputMailbox[k])
      ensures forall p :: offset <= p < offset + |chunk| ==>
                inputMailbox[p] == if Taken(a) then chunk[p - offset] else noise(p)
    {
      hide Taken;
      a := answers[0];
      answers := answers[1..];
      for i := 0 to |chunk|
        invariant a == old(answers)[0] && answers == old(answers)[1..]
        invariant forall k :: 0 <= k < inputMailbox.Length && !(offset <= k < offset + i) ==>
                    inputMailbox[k] == old(inputMailbox[k])
        invariant forall p :: offset <= p < offset + i ==>
                    inputMailbox[p] == if Taken(a) then chunk[p - offset] else noise(p)
      {
        inputMailbox[offset + i] := if Taken(a) then chunk[i] else noise(offset + i);
      }
    }

    /** A chunk goes out. */
    method Deliver(offset: nat, count: nat) returns (a: Answer, chunk: Bytes)
      requires answers != [] && offset + count <= outputMailbox.Length
      modifies this`answers
      ensures a == old(answers)[0] && answers == old(answers)[1..] && |chunk| == count
      ensures forall k :: 0 <= k < count ==>
                chunk[k] == if Delivered(a) then outputMailbox[offset + k] else noise(offset + k)
    {
      a := answers[0];
      answers := answers[1..];
      chunk := if Delivered(a) then outputMailbox[offset..offset + count] else BytesAt(noise, offset, count);
    }
  }

  // ---------------------------------------------------------------- the transfers

  /** Adding the window to the offset of a chunk never wraps around in 32 bits. */
  predicate NoWrap(n: nat, window: nat)
    requires window > 0
  {
    n < UINT_MODULUS && forall c <- Plan(0, n, window) :: c.offset + window < UINT_MODULUS
  }

  lemma RoomForWindow(n: nat, window: nat)
    requires window > 0 && n + window <= UINT_MODULUS
    ensures NoWrap(n, window)
  {
    OffsetsBelow(0, n, window);
  }

  lemma {:induction false} OffsetsBelow(from: nat, n: nat, window: nat)
    requires window > 0
    ensures forall c <- Plan(from, n, window) :: c.offset < n
    decreases n - from
  {
    if from < n {
      var size := if from + window > n then n - from else window;
      OffsetsBelow(from + size, n, window);
    }
  }

  /** Addition of unsigned int. */
  function WrappedSum(a: nat, b: nat): nat {
    (a + b) % UINT_MODULUS
  }

  /** How much is transferred at an offset, as unsigned ints tell it. */
  function Cut(offset: nat, n: nat, window: nat): nat
    requires offset <= n
  {
    if WrappedSum(offset, window) > n then n - offset else window
  }

  /** A step ends inside the payload if and only if the sum does not wrap around: otherwise the test
      fails, and a whole window is read or written behind its end. It moves on if and only if the
      window is not empty. */
  lemma CutInside(offset: nat, n: nat, window: nat)
    requires offset < n < UINT_MODULUS && window < UINT_MODULUS
    ensures offset + Cut(offset, n, window) <= n <==> offset + window < UINT_MODULUS
    ensures Cut(offset, n, window) > 0 <==> window > 0
  {
    if offset + window >= UINT_MODULUS {
      RemainderOf(offset + window - UINT_MODULUS);
    }
  }

  lemma RemainderOf(x: nat)
    requires x < UINT_MODULUS
    ensures (x + UINT_MODULUS) % UINT_MODULUS == x
  {
  }

  /** So a transfer stays inside the payload if and only if its windows together, the last one whole,
      fit 32 bits. */
  lemma NoWrapExactly(n: nat, window: nat)
    requires window > 0 && n < UINT_MODULUS
    ensures NoWrap(n, window) <==> n == 0 || CeilDiv(n, window) * window < UINT_MODULUS
  {
    WindowsFit(0, n, window);
  }

  lemma {:induction false} WindowsFit(from: nat, n: nat, window: nat)
    requires window > 0 && from <= n
    ensures (forall c <- Plan(from, n, window) :: c.offset + window < UINT_MODULUS)
       <==> from == n || from + CeilDiv(n - from, window) * window < UINT_MODULUS
    decreases n - from
  {
    hide CeilDiv, Plan;
    if from < n {
      PlanStep(from, n, window);
      var size, k := if from + window > n then n - from else window, CeilDiv(n - from, window);
      var rest := Plan(from + size, n, window);
      FirstOrRest(Chunk(from, size), rest, window);
      WindowsFit(from + size, n, window);
      if from + window > n {
        PlanCount(from, n, window);
        PlanDone(n, window);
        assert k == 1;
      } else {
        OneWindowMore(n - from, window);
        var k' := CeilDiv(n - from - window, window);
        assert (1 + k') * window == window + k' * window;
        if from + window == n {
          PlanCount(n, n, window);
          PlanDone(n, window);
          assert k' == 0;
        }
      }
    } else {
      PlanDone(n, window);
    }
  }

  lemma FirstOrRest(c: Chunk, rest: seq<Chunk>, window: nat)
    ensures (forall x <- [c] + rest :: x.offset + window < UINT_MODULUS)
       <==> c.offset + window < UINT_MODULUS && forall x <- rest :: x.offset + window < UINT_MODULUS
  {
    assert c in [c] + rest;
    assert forall x <- rest :: x in [c] + rest;
  }

  lemma PlanDone(n: nat, window: nat)
    requires window > 0
    ensures Plan(n, n, window) == []
  {
  }

  /** A payload of 2^31 + 1 bytes through windows of 2^31: the second window has one byte to carry,
      and carries all it can. */
  lemma WindowBehindPayload()
    ensures var n, window := 0x8000_0001, 0x8000_0000;
            && !NoWrap(n, window) && Chunk(window, 1) in Plan(0, n, window)
            && Cut(window, n, window) == window && window + Cut(window, n, window) > n
  {
    var n, window := 0x8000_0001, 0x8000_0000;
    PlanStep(0, n, window);
    PlanStep(window, n, window);
    assert Plan(0, n, window)[1] == Chunk(window, 1);
  }

  lemma PlanStep(from: nat, n: nat, window: nat)
    requires window > 0 && from < n
    ensures var size := if from + window > n then n - from else window;
            Plan(from, n, window) == [Chunk(from, size)] + Plan(from + size, n, window)
  {
  }

  lemma NextChunk(from: nat, n: nat, window: nat, chunks: seq<Chunk>)
    requires window > 0 && from < n && Plan(0, n, window) == chunks + Plan(from, n, window) && NoWrap(n, window)
    ensures from + window < UINT_MODULUS
    ensures var size := if from + window > n then n - from else window;
            Plan(0, n, window) == (chunks + [Chunk(from, size)]) + Plan(from + size, n, window)
  {
    hide Plan;
    PlanStep(from, n, window);
    var size := if from + window > n then n - from else window;
    ChunkBehind(chunks, Chunk(from, size), Plan(from + size, n, window));
  }

  lemma ChunkBehind(before: seq<Chunk>, c: Chunk, after: seq<Chunk>)
    ensures before + ([c] + after) == (before + [c]) + after
    ensures c in before + ([c] + after)
  {
    assert (before + ([c] + after))[|before|] == c;
  }

  lemma PlanEnds(n: nat, window: nat, chunks: seq<Chunk>, from: nat)
    requires window > 0 && Plan(0, n, window) == chunks + Plan(from, n, window)
    ensures from >= n ==> chunks == Plan(0, n, window)
    ensures from < n ==> |chunks| < |Plan(0, n, window)|
  {
  }

  lemma OneMoreRecorded(used: seq<Answer>, a: Answer, ok: Answer -> bool)
    ensures (used + [a])[..|used|] == used && (used + [a])[|used|] == a
    ensures (forall x <- used + [a] :: ok(x)) <==> (forall x <- used :: ok(x)) && ok(a)
  {
    assert a in used + [a];
  }

  /** The first bytes of the two arrays agree. */
  ghost predicate Same(a: array<Byte>, b: array<Byte>, count: nat)
    reads a, b
  {
    count <= a.Length && count <= b.Length && forall k :: 0 <= k < count ==> a[k] == b[k]
  }

  /** What a transfer has come to: the answers used so far and the chunks they stand for, all
      recorded as successes, or all but the last. */
  ghost predicate Underway(used: seq<Answer>, chunks: seq<Chunk>, offset: nat, n: nat, window: nat,
                           result: PtResult, recorded: Answer -> PtResult)
    requires window > 0
  {
    && offset <= n && Plan(0, n, window) == chunks + Plan(offset, n, window)
    && (if IsSuccess(result) then |used| == |chunks| && forall a <- used :: IsSuccess(recorded(a))
        else
          && offset < n && |used| == |chunks| + 1 && result == recorded(used[|chunks|])
          && forall a <- used[..|chunks|] :: IsSuccess(recorded(a)))
  }

  lemma StepUnderway(used: seq<Answer>, chunks: seq<Chunk>, offset: nat, n: nat, window: nat, a: Answer,
                     recorded: Answer -> PtResult)
    requires window > 0 && offset < n && NoWrap(n, window)
               && Underway(used, chunks, offset, n, window, NO_ERROR, recorded)
    ensures WrappedSum(offset, window) == offset + window
    ensures var size := if offset + window > n then n - offset else window;
            if IsSuccess(recorded(a)) then
              Underway(used + [a], chunks + [Chunk(offset, size)], offset + size, n, window, NO_ERROR, recorded)
            else Underway(used + [a], chunks, offset, n, window, recorded(a), recorded)
  {
    hide NoWrap, Plan;
    NextChunk(offset, n, window, chunks);
    OneMoreRecorded(used, a, x => IsSuccess(recorded(x)));
  }

  lemma AnswersLeft(used: seq<Answer>, chunks: seq<Chunk>, offset: nat, n: nat, window: nat,
                    recorded: Answer -> PtResult)
    requires window > 0 && offset < n && Underway(used, chunks, offset, n, window, NO_ERROR, recorded)
    ensures |used| == |chunks| < CeilDiv(n, window)
  {
    hide Plan;
    PlanCount(0, n, window);
    PlanEnds(n, window, chunks, offset);
  }

  /** How a transfer ends: with success exactly if every chunk of the plan came to be recorded as a
      success, and otherwise with the record of the first failure. */
  ghost predicate Ended(used: seq<Answer>, chunks: seq<Chunk>, n: nat, window: nat, result: PtResult,
                        recorded: Answer -> PtResult)
    requires window > 0
  {
    && chunks <= Plan(0, n, window)
    && (IsSuccess(result) <==> forall a <- used :: IsSuccess(recorded(a)))
    && (IsSuccess(result) ==> chunks == Plan(0, n, window) && |used| == |chunks|)
    && (!IsSuccess(result) ==>
          && |used| == |chunks| + 1
          && (forall a <- used[..|chunks|] :: IsSuccess(recorded(a)))
          && result == recorded(used[|chunks|]).(func := ERR_UNKNOWN))
  }

  lemma UnderwayEnds(used: seq<Answer>, chunks: seq<Chunk>, offset: nat, n: nat, window: nat,
                     result: PtResult, recorded: Answer -> PtResult)
    requires window > 0 && Underway(used, chunks, offset, n, window, result, recorded)
    requires offset == n || !IsSuccess(result)
    ensures Ended(used, chunks, n, window, if offset != n then result.(func := ERR_UNKNOWN) else result, recorded)
    ensures IsSuccess(result) <==> offset == n
  {
    hide Plan;
    PlanEnds(n, window, chunks, offset);
    if !IsSuccess(result) {
      assert used[|chunks|] in used;
    }
  }

  lemma NothingUnderway(n: nat, window: nat, recorded: Answer -> PtResult)
    requires window > 0
    ensures Underway([], [], 0, n, window, NO_ERROR, recorded)
  {
    assert [] + Plan(0, n, window) == Plan(0, n, window);
  }

  // ---------------------------------------------------------------- what arrives

  /** For each byte of the chunks, whether its chunk was really transferred. */
  ghost function Spread(used: seq<Answer>, chunks: seq<Chunk>, ok: Answer -> bool): seq<bool>
    requires |chunks| <= |used|
  {
    if chunks == [] then []
    else
      var k := |chunks| - 1;
      Spread(used[..k], chunks[..k], ok) + seq(chunks[k].size, _ => ok(used[k]))
  }

  lemma SpreadNext(used: seq<Answer>, chunks: seq<Chunk>, ok: Answer -> bool, a: Answer, c: Chunk)
    requires |chunks| == |used|
    ensures Spread(used + [a], chunks + [c], ok) == Spread(used, chunks, ok) + seq(c.size, _ => ok(a))
  {
    assert (used + [a])[..|chunks|] == used && (chunks + [c])[..|chunks|] == chunks;
  }

  lemma SpreadMore(used: seq<Answer>, chunks: seq<Chunk>, ok: Answer -> bool, a: Answer)
    requires |chunks| == |used|
    ensures Spread(used + [a], chunks, ok) == Spread(used, chunks, ok)
  {
    if chunks != [] {
      assert (used + [a])[..|chunks| - 1] == used[..|chunks| - 1];
    }
  }

  lemma {:induction false} SpreadAll(used: seq<Answer>, chunks: seq<Chunk>, ok: Answer -> bool)
    requires |chunks| <= |used| && forall a <- used :: ok(a)
    ensures forall good <- Spread(used, chunks, ok) :: good
    decreases |chunks|
  {
    if chunks != [] {
      var k := |chunks| - 1;
      assert used[k] in used;
      assert forall a <- used[..k] :: a in used;
      SpreadAll(used[..k], chunks[..k], ok);
    }
  }

  /** The first bytes of the target: those of the source where the chunk was transferred, and
      anything elsewhere. */
  ghost predicate Landed(target: array<Byte>, source: array<Byte>, good: seq<bool>, noise: Memory)
    reads target, source
  {
    && |good| <= target.Length && |good| <= source.Length
    && forall p :: 0 <= p < |good| ==> target[p] == if good[p] then source[p] else noise(p)
  }

  /** Exactly when what has landed is what was sent. */
  lemma SameIffLanded(target: array<Byte>, source: array<Byte>, good: seq<bool>, noise: Memory)
    requires Landed(target, source, good, noise)
    ensures Same(target, source, |good|) <==> forall p :: 0 <= p < |good| ==> good[p] || noise(p) == source[p]
  {
  }

  lemma NothingLanded(target: array<Byte>, source: array<Byte>, noise: Memory)
    ensures Landed(target, source, [], noise) && Spread([], [], Taken) == [] && Spread([], [], Delivered) == []
  {
  }

  /** If every answer used was true, all has arrived. */
  lemma AllArrived(target: array<Byte>, source: array<Byte>, used: seq<Answer>, chunks: seq<Chunk>, ok: Answer -> bool,
                   noise: Memory)
    requires |chunks| <= |used| && Landed(target, source, Spread(used, chunks, ok), noise)
    ensures (forall a <- used :: ok(a)) ==> Same(target, source, |Spread(used, chunks, ok)|)
  {
    hide Spread;
    if forall a <- used :: ok(a) {
      SpreadAll(used, chunks, ok);
      var good := Spread(used, chunks, ok);
      assert forall p :: 0 <= p < |good| ==> good[p] in good;
    }
  }

  /** One chunk into the mailbox. */
  method WriteChunk(bios: Bios, payload: array<Byte>, offset: nat, size: nat, ghost good: seq<bool>) returns (a: Answer)
    requires bios.answers != [] && offset + size <= payload.Length <= bios.inputMailbox.Length
    requires bios.inputMailbox != payload && |good| == offset && Landed(bios.inputMailbox, payload, good, bios.noise)
    modifies bios`answers, bios.inputMailbox
    ensures a == old(bios.answers)[0] && bios.answers == old(bios.answers)[1..]
    ensures Landed(bios.inputMailbox, payload, good, bios.noise)
    ensures Landed(bios.inputMailbox, payload, good + seq(size, _ => Taken(a)), bios.noise)
  {
    hide Taken;
    ghost var chunk := payload[offset..offset + size];
    a := bios.Take(offset, payload[offset..offset + size]);
    ghost var all := good + seq(size, _ => Taken(a));
    forall p | 0 <= p < |all|
      ensures bios.inputMailbox[p] == if all[p] then payload[p] else bios.noise(p)
    {
      if p >= offset {
        assert chunk[p - offset] == payload[p];
      }
    }
  }

  /** What a transfer needs if it comes to that: a window, sums that do not wrap around, and an answer
      for every chunk. */
  ghost predicate Ready(bios: Bios, n: nat)
    reads bios`answers
  {
    bios.sizes.window > 0 && NoWrap(n, bios.sizes.window) && |bios.answers| >= CeilDiv(n, bios.sizes.window)
  }

  /** The size query, then one chunk after the other until one is recorded as failed. The mailbox holds
      the payload wherever the BIOS has taken the chunk. */
  method WriteLargePayload(bios: Bios, payload: array<Byte>)
    returns (result: PtResult, ghost used: seq<Answer>, ghost chunks: seq<Chunk>)
    requires IsSuccess(RecordedSizes(bios.sizesAnswer)) && bios.sizes.largeInput >= payload.Length ==>
               Ready(bios, payload.Length) && bios.inputMailbox.Length == bios.sizes.largeInput
    requires bios.inputMailbox != payload
    modifies bios`answers, bios.inputMailbox
    ensures old(bios.answers) == used + bios.answers && |chunks| <= |used|
    ensures !IsSuccess(RecordedSizes(bios.sizesAnswer)) ==> result == RecordedSizes(bios.sizesAnswer) && used == []
    ensures !Answered(bios.sizesAnswer) && !QueryFailureUnseen(bios.sizesAnswer) ==>
              !IsSuccess(result) && used == [] && bios.inputMailbox[..] == old(bios.inputMailbox[..])
    ensures IsSuccess(RecordedSizes(bios.sizesAnswer)) && bios.sizes.largeInput < payload.Length ==>
              result == PtResult(1, 0, 0, 0, 0) && used == []
    ensures used != [] && !IsSuccess(result) ==> result.func == 1
    ensures IsSuccess(RecordedSizes(bios.sizesAnswer)) && bios.sizes.largeInput >= payload.Length ==>
              Ended(used, chunks, payload.Length, bios.sizes.window, result, RecordedWrite)
    ensures Landed(bios.inputMailbox, payload, Spread(used, chunks, Taken), bios.noise)
    ensures IsSuccess(result) ==>
              && |Spread(used, chunks, Taken)| == payload.Length
              && ((forall a <- used :: Taken(a)) ==> Same(bios.inputMailbox, payload, payload.Length))
  {
    hide Plan, Taken, RecordedWrite, RecordedSizes, Answered, QueryFailureUnseen, NoWrap, WrappedSum, CeilDiv, Underway,
         Ended, Same, Landed, Spread;
    result, used, chunks := RecordedSizes(bios.sizesAnswer), [], [];
    UnseenQueryFailure(bios.sizesAnswer);
    NothingLanded(bios.inputMailbox, payload, bios.noise);
    if !IsSuccess(result) {
      return;
    }
    if bios.sizes.largeInput < payload.Length {
      result := result.(func := ERR_UNKNOWN);
      return;
    }
    ghost var n, window := payload.Length, bios.sizes.window;
    ghost var good: seq<bool> := [];
    var transferSize := bios.sizes.window;
    var offset: nat := 0;
    NothingUnderway(n, window, RecordedWrite);
    while offset < payload.Length && IsSuccess(result)
      invariant old(bios.answers) == used + bios.answers && offset <= n
      invariant offset < n ==> transferSize == window || !IsSuccess(result)
      invariant |chunks| <= |used| && Underway(used, chunks, offset, n, window, result, RecordedWrite)
      invariant good == Spread(used, chunks, Taken) && |good| == offset
      invariant Landed(bios.inputMailbox, payload, good, bios.noise)
      decreases n - offset, IsSuccess(result)
    {
      AnswersLeft(used, chunks, offset, n, window, RecordedWrite);
      StepUnderway(used, chunks, offset, n, window, bios.answers[0], RecordedWrite);
      Shift(used, bios.answers);
      if WrappedSum(offset, bios.sizes.window) > payload.Length {
        transferSize := payload.Length - offset;
      }
      var answer := WriteChunk(bios, payload, offset, transferSize, good);
      SpreadNext(used, chunks, Taken, answer, Chunk(offset, transferSize));
      SpreadMore(used, chunks, Taken, answer);
      used := used + [answer];
      result := RecordedWrite(answer);
      if IsSuccess(result) {
        chunks := chunks + [Chunk(offset, transferSize)];
        good := good + seq(transferSize, _ => Taken(answer));
        offset := offset + transferSize;
      }
    }
    AllArrived(bios.inputMailbox, payload, used, chunks, Taken, bios.noise);
    UnderwayEnds(used, chunks, offset, n, window, result, RecordedWrite);
    if offset != payload.Length {
      result := result.(func := ERR_UNKNOWN);
    }
  }

  /** One chunk out of the mailbox; it is copied if the submission counts as a success. */
  method ReadChunk(bios: Bios, destination: array<Byte>, offset: nat, size: nat, ghost good: seq<bool>)
    returns (a: Answer)
    requires bios.answers != [] && offset + size <= destination.Length <= bios.outputMailbox.Length
    requires bios.outputMailbox != destination && |good| == offset
    requires Landed(destination, bios.outputMailbox, good, bios.noise)
    modifies bios`answers, destination
    ensures a == old(bios.answers)[0] && bios.answers == old(bios.answers)[1..]
    ensures Landed(destination, bios.outputMailbox, good, bios.noise)
    ensures IsSuccess(RecordedRead(a)) ==>
              Landed(destination, bios.outputMailbox, good + seq(size, _ => Delivered(a)), bios.noise)
  {
    hide Delivered;
    var chunk;
    a, chunk := bios.Deliver(offset, size);
    if a.memory && a.command && a.input && IsSuccess(RecordedSubmit(a)) {
      for i := 0 to size
        invariant bios.answers == old(bios.answers)[1..]
        invariant forall k :: 0 <= k < destination.Length ==>
                    destination[k] == if offset <= k < offset + i then chunk[k - offset] else old(destination[k])
      {
        destination[offset + i] := chunk[i];
      }
    }
  }

  /** The other direction, by the same protocol. */
  method ReadLargePayload(bios: Bios, destination: array<Byte>)
    returns (result: PtResult, ghost used: seq<Answer>, ghost chunks: seq<Chunk>)
    requires IsSuccess(RecordedSizes(bios.sizesAnswer)) && bios.sizes.largeOutput >= destination.Length ==>
               Ready(bios, destination.Length) && bios.outputMailbox.Length == bios.sizes.largeOutput
    requires bios.outputMailbox != destination
    modifies bios`answers, destination
    ensures old(bios.answers) == used + bios.answers && |chunks| <= |used|
    ensures !IsSuccess(RecordedSizes(bios.sizesAnswer)) ==> result == RecordedSizes(bios.sizesAnswer) && used == []
    ensures !Answered(bios.sizesAnswer) && !QueryFailureUnseen(bios.sizesAnswer) ==>
              !IsSuccess(result) && used == [] && destination[..] == old(destination[..])
    ensures IsSuccess(RecordedSizes(bios.sizesAnswer)) && bios.sizes.largeOutput < destination.Length ==>
              result == PtResult(1, 0, 0, 0, 0) && used == []
    ensures used != [] && !IsSuccess(result) ==> result.func == 1
    ensures IsSuccess(RecordedSizes(bios.sizesAnswer)) && bios.sizes.largeOutput >= destination.Length ==>
              Ended(used, chunks, destination.Length, bios.sizes.window, result, RecordedRead)
    ensures Landed(destination, bios.outputMailbox, Spread(used, chunks, Delivered), bios.noise)
    ensures IsSuccess(result) ==>
              && |Spread(used, chunks, Delivered)| == destination.Length
              && ((forall a <- used :: Delivered(a)) ==> Same(destination, bios.outputMailbox, destination.Length))
  {
    hide Plan, Delivered, RecordedRead, RecordedSizes, Answered, QueryFailureUnseen, NoWrap, WrappedSum, CeilDiv;
    hide Underway, Ended, Same, Landed, Spread;
    result, used, chunks := RecordedSizes(bios.sizesAnswer), [], [];
    UnseenQueryFailure(bios.sizesAnswer);
    NothingLanded(destination, bios.outputMailbox, bios.noise);
    if !IsSuccess(result) {
      return;
    }
    if bios.sizes.largeOutput < destination.Length {
      result := result.(func := ERR_UNKNOWN);
      return;
    }
    ghost var n, window := destination.Length, bios.sizes.window;
    ghost var good: seq<bool> := [];
    var transferSize := bios.sizes.window;
    var offset: nat := 0;
    NothingUnderway(n, window, RecordedRead);
    while offset < destination.Length && IsSuccess(result)
      invariant old(bios.answers) == used + bios.answers && offset <= n
      invariant offset < n ==> transferSize == window || !IsSuccess(result)
      invariant |chunks| <= |used| && Underway(used, chunks, offset, n, window, result, RecordedRead)
      invariant good == Spread(used, chunks, Delivered) && |good| == offset
      invariant Landed(destination, bios.outputMailbox, good, bios.noise)
      decreases n - offset, IsSuccess(result)
    {
      AnswersLeft(used, chunks, offset, n, window, RecordedRead);
      StepUnderway(used, chunks, offset, n, window, bios.answers[0], RecordedRead);
      Shift(used, bios.answers);
      if WrappedSum(offset, bios.sizes.window) > destination.Length {
        transferSize := destination.Length - offset;
      }
      var answer := ReadChunk(bios, destination, offset, transferSize, good);
      SpreadNext(used, chunks, Delivered, answer, Chunk(offset, transferSize));
      SpreadMore(used, chunks, Delivered, answer);
      used := used + [answer];
      result := RecordedRead(answer);
      if IsSuccess(result) {
        chunks := chunks + [Chunk(offset, transferSize)];
        good := good + seq(transferSize, _ => Delivered(answer));
        offset := offset + transferSize;
      }
    }
    AllArrived(destination, bios.outputMailbox, used, chunks, Delivered, bios.noise);
    UnderwayEnds(used, chunks, offset, n, window, result, RecordedRead);
    if offset != destination.Length {
      result := result.(func := ERR_UNKNOWN);
    }
  }

  // ---------------------------------------------------------------- a payload that is lost

  /** One byte is written while the device is busy: the transfer ends with success, and the byte is
      not in the mailbox. */
  method LostWrite() returns (bios: Bios, payload: array<Byte>, result: PtResult)
    ensures IsSuccess(result) && bios.inputMailbox.Length == payload.Length == 1
    ensures bios.inputMailbox[0] != payload[0]
  {
    hide Plan;
    var busy := Answer(true, true, true, -16, 0, true);
    var fine := Answer(true, true, true, 0, 0, true);
    var mailbox := new Byte[1](_ => 0);
    payload := new Byte[1](_ => 1);
    var empty := new Byte[0];
    bios := new Bios(Sizes(1, 0, 1), fine, _ => 0, [busy], mailbox, empty);
    PlanCount(0, 1, 1);
    RoomForWindow(1, 1);
    ghost var used, chunks;
    result, used, chunks := WriteLargePayload(bios, payload);
    OneLost(used, bios.answers, chunks, busy, result);
    assert !Taken(used[0]);
  }

  lemma OneLost(used: seq<Answer>, left: seq<Answer>, chunks: seq<Chunk>, busy: Answer, result: PtResult)
    requires [busy] == used + left && IsSuccess(RecordedWrite(busy)) && Ended(used, chunks, 1, 1, result, RecordedWrite)
    ensures used == [busy] && IsSuccess(result) && Spread(used, chunks, Taken) == [Taken(busy)]
  {
    PlanStep(0, 1, 1);
    assert Plan(1, 1, 1) == [];
    assert [Chunk(0, 1)] + [] == [Chunk(0, 1)];
    assert |used| == 1;
    assert used[0] == (used + left)[0] == [busy][0];
    assert used == [busy];
    SpreadNext([], [], Taken, busy, Chunk(0, 1));
    assert [] + [busy] == [busy] && [] + [Chunk(0, 1)] == [Chunk(0, 1)];
    assert Spread([], [], Taken) == [];
    assert [] + seq(1, _ => Taken(busy)) == [Taken(busy)];
  }
}

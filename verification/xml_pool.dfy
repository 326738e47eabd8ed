/** The pool that nodes, attributes and strings are carved from. Addresses are numbers. */
module XmlPool {
  import opened Basics

  /** sizeof(header): one pointer. */
  const HEADER_SIZE: nat := 8
  const STATIC_POOL_SIZE: nat := 0x1_0000
  const DYNAMIC_POOL_SIZE: nat := 0x1_0000

  datatype Block = Block(base: nat, size: nat)

  /** An allocation, with the number of the block it comes from. */
  datatype Allocation = Allocation(start: nat, size: nat, block: nat)

  predicate Disjoint(a: nat, n: nat, b: nat, m: nat) {
    a + n <= b || b + m <= a
  }

  function AlignUp(address: nat, alignment: nat): (r: nat)
    requires alignment > 0
    ensures address <= r < address + alignment && r % alignment == 0
  {
    PaddingAligns(address, alignment);
    address + (alignment - address % alignment) % alignment
  }

  lemma PaddingAligns(address: nat, alignment: nat)
    requires alignment > 0
    ensures (address + (alignment - address % alignment) % alignment) % alignment == 0
  {
    var rest, quotient := address % alignment, address / alignment;
    if rest == 0 {
      RemainderIs(alignment, 1, 0, alignment);
    } else {
      RemainderIs(alignment - rest, 0, alignment - rest, alignment);
      RemainderIs(address + (alignment - rest), quotient + 1, 0, alignment);
    }
  }

  lemma RemainderIs(x: nat, q: nat, r: nat, d: nat)
    requires r < d && x == q * d + r
    ensures x % d == r
  {
    DivisionUnique(q, r, x / d, x % d, d);
  }

  /** Masking with a power of two, as align() does it, is the same padding; here for the alignments
      that pointers of four, eight and sixteen bytes call for. */
  lemma MaskIsModulo(address: bv64)
    ensures (4 - (address & 3)) & 3 == (4 - address % 4) % 4
    ensures (8 - (address & 7)) & 7 == (8 - address % 8) % 8
    ensures (16 - (address & 15)) & 15 == (16 - address % 16) % 16
  {
  }

  /** What a block for a request of this size is made to hold. */
  function AllocationSize(size: nat, alignment: nat): nat
    requires alignment > 0
  {
    HEADER_SIZE + (2 * alignment - 2) + if DYNAMIC_POOL_SIZE < size then size else DYNAMIC_POOL_SIZE
  }

  /** The slack always suffices: one alignment for the header, one for the allocation. */
  lemma SlackSuffices(raw: nat, size: nat, alignment: nat)
    requires alignment > 0
    ensures AlignUp(AlignUp(raw, alignment) + HEADER_SIZE, alignment) + size <= raw + AllocationSize(size, alignment)
  {
  }

  // ---------------------------------------------------------------- what a pool may look like

  predicate BlocksApart(blocks: seq<Block>) {
    && (forall i :: 0 <= i < |blocks| ==> blocks[i].size > 0)
    && forall i, j :: 0 <= i < j < |blocks| ==> Disjoint(blocks[i].base, blocks[i].size, blocks[j].base, blocks[j].size)
  }

  /** Where the free bytes of a block begin; block 0 is the static memory and has no header. */
  function Payload(blocks: seq<Block>, i: nat, alignment: nat): nat
    requires i < |blocks| && alignment > 0
  {
    AlignUp(blocks[i].base, alignment) + if i == 0 then 0 else HEADER_SIZE
  }

  /** Aligned, behind the header of its block, and inside the block. */
  predicate Within(a: Allocation, blocks: seq<Block>, alignment: nat)
    requires alignment > 0
  {
    && a.block < |blocks|
    && a.start % alignment == 0
    && Payload(blocks, a.block, alignment) <= a.start
    && a.start + a.size <= blocks[a.block].base + blocks[a.block].size
  }

  predicate AllocationsApart(allocations: seq<Allocation>) {
    forall i, j :: 0 <= i < j < |allocations| ==>
      Disjoint(allocations[i].start, allocations[i].size, allocations[j].start, allocations[j].size)
  }

  /** Each dynamic block holds, aligned at its start, the address of the block before it. */
  predicate HeadersIntact(words: map<nat, nat>, blocks: seq<Block>, alignment: nat)
    requires alignment > 0
  {
    forall i :: 0 < i < |blocks| ==>
      && Payload(blocks, i, alignment) <= blocks[i].base + blocks[i].size
      && AlignUp(blocks[i].base, alignment) in words
      && words[AlignUp(blocks[i].base, alignment)] == blocks[i - 1].base
  }

  /** No allocation touches a header, whichever block either belongs to. */
  lemma AllocationsMissHeaders(a: Allocation, words: map<nat, nat>, blocks: seq<Block>, alignment: nat, i: nat)
    requires alignment > 0 && BlocksApart(blocks) && HeadersIntact(words, blocks, alignment)
    requires Within(a, blocks, alignment) && 0 < i < |blocks|
    ensures Disjoint(a.start, a.size, AlignUp(blocks[i].base, alignment), HEADER_SIZE)
  {
    hide AlignUp;
    if a.block < i {
      assert Disjoint(blocks[a.block].base, blocks[a.block].size, blocks[i].base, blocks[i].size);
    } else if a.block > i {
      assert Disjoint(blocks[i].base, blocks[i].size, blocks[a.block].base, blocks[a.block].size);
    }
  }

  /** Allocations from different blocks, or one behind the other, do not overlap. */
  lemma AllocationsDisjoint(a: Allocation, b: Allocation, blocks: seq<Block>, alignment: nat)
    requires alignment > 0 && BlocksApart(blocks) && Within(a, blocks, alignment) && Within(b, blocks, alignment)
    requires a.block < b.block || (a.block == b.block && a.start + a.size <= b.start)
    ensures Disjoint(a.start, a.size, b.start, b.size)
  {
    hide AlignUp;
    if a.block < b.block {
      assert Disjoint(blocks[a.block].base, blocks[a.block].size, blocks[b.block].base, blocks[b.block].size);
    }
  }

  lemma BlocksAlone(staticMemory: nat)
    ensures BlocksApart([Block(staticMemory, STATIC_POOL_SIZE)])
  {
  }

  /** A block in unused memory comes on top. */
  lemma BlocksPushed(blocks: seq<Block>, b: Block)
    requires BlocksApart(blocks) && b.size > 0 && forall c <- blocks :: Disjoint(c.base, c.size, b.base, b.size)
    ensures BlocksApart(blocks + [b])
  {
  }

  lemma HeaderPushed(words: map<nat, nat>, blocks: seq<Block>, alignment: nat, b: Block)
    requires alignment > 0 && blocks != [] && HeadersIntact(words, blocks, alignment)
    requires AlignUp(b.base, alignment) + HEADER_SIZE <= b.base + b.size
    requires forall i :: 0 < i < |blocks| ==> AlignUp(blocks[i].base, alignment) != AlignUp(b.base, alignment)
    ensures HeadersIntact(words[AlignUp(b.base, alignment) := blocks[|blocks| - 1].base], blocks + [b], alignment)
  {
    hide AlignUp;
  }

  lemma WithinPushed(allocations: seq<Allocation>, blocks: seq<Block>, alignment: nat, b: Block)
    requires alignment > 0 && forall a <- allocations :: Within(a, blocks, alignment)
    ensures forall a <- allocations :: Within(a, blocks + [b], alignment) && a.block < |blocks|
  {
    hide AlignUp;
  }

  /** What is left below the top is as good. */
  lemma BlocksPopped(words: map<nat, nat>, blocks: seq<Block>, alignment: nat)
    requires alignment > 0 && blocks != [] && BlocksApart(blocks) && HeadersIntact(words, blocks, alignment)
    ensures BlocksApart(blocks[..|blocks| - 1]) && HeadersIntact(words, blocks[..|blocks| - 1], alignment)
  {
    hide AlignUp;
  }

  lemma BottomReached(blocks: seq<Block>)
    requires blocks != [] && BlocksApart(blocks) && blocks[|blocks| - 1].base == blocks[0].base
    ensures |blocks| == 1
  {
    assert |blocks| > 1 ==>
        Disjoint(blocks[0].base, blocks[0].size, blocks[|blocks| - 1].base, blocks[|blocks| - 1].size);
  }

  /** Where the free bytes of the last block begin: behind the last allocation, if that is in it. */
  function Frontier(blocks: seq<Block>, allocations: seq<Allocation>, alignment: nat): nat
    requires blocks != [] && alignment > 0
  {
    if allocations != [] && allocations[|allocations| - 1].block == |blocks| - 1 then
      allocations[|allocations| - 1].start + allocations[|allocations| - 1].size
    else Payload(blocks, |blocks| - 1, alignment)
  }

  /** The bases of the dynamic blocks, newest first. */
  function Unwound(blocks: seq<Block>): seq<nat> {
    if |blocks| <= 1 then [] else [blocks[|blocks| - 1].base] + Unwound(blocks[..|blocks| - 1])
  }

  lemma UnwoundPopped(blocks: seq<Block>, freed: seq<nat>)
    requires |blocks| > 1
    ensures freed + Unwound(blocks) == (freed + [blocks[|blocks| - 1].base]) + Unwound(blocks[..|blocks| - 1])
  {
    assert forall x: nat, rest: seq<nat> {:trigger [x] + rest} :: freed + ([x] + rest) == (freed + [x]) + rest;
  }

  /** That is every dynamic block, each exactly once. */
  lemma {:induction false} UnwoundOnce(blocks: seq<Block>)
    requires blocks != [] && BlocksApart(blocks)
    ensures |Unwound(blocks)| == |blocks| - 1
    ensures forall k :: 0 <= k < |blocks| - 1 ==> Unwound(blocks)[k] == blocks[|blocks| - 1 - k].base
    ensures forall i, j :: 0 <= i < j < |Unwound(blocks)| ==> Unwound(blocks)[i] != Unwound(blocks)[j]
    decreases |blocks|
  {
    if |blocks| > 1 {
      UnwoundOnce(blocks[..|blocks| - 1]);
      forall i, j | 0 <= i < j < |Unwound(blocks)|
        ensures Unwound(blocks)[i] != Unwound(blocks)[j]
      {
        var x, y := blocks[|blocks| - 1 - j], blocks[|blocks| - 1 - i];
        assert Disjoint(x.base, x.size, y.base, y.size);
      }
    }
  }

  class MemoryPool {
    const alignment: nat
    /** The address of the static memory. */
    const staticMemory: nat
    var begin: nat
    var ptr: nat
    var end: nat
    /** The pointers stored in memory, by address. */
    var words: map<nat, nat>
    /** What has been handed to the free function, in order. */
    var freed: seq<nat>

    ghost var blocks: seq<Block>
    ghost var allocations: seq<Allocation>

    ghost predicate Valid()
      reads this
    {
      && 0 < alignment <= STATIC_POOL_SIZE
      && blocks != [] && blocks[0] == Block(staticMemory, STATIC_POOL_SIZE)
      && BlocksApart(blocks) && HeadersIntact(words, blocks, alignment)
      && (forall a <- allocations :: Within(a, blocks, alignment))
      && (forall a <- allocations :: a.block == |blocks| - 1 ==> a.start + a.size <= ptr)
      && AllocationsApart(allocations)
      && begin == blocks[|blocks| - 1].base && end == begin + blocks[|blocks| - 1].size
      && Payload(blocks, |blocks| - 1, alignment) <= ptr <= end
      && ptr == Frontier(blocks, allocations, alignment)
    }

    constructor (alignment: nat, staticMemory: nat)
      requires 0 < alignment <= STATIC_POOL_SIZE
      ensures Valid() && allocations == [] && freed == [] && |blocks| == 1
      ensures this.alignment == alignment && this.staticMemory == staticMemory
    {
      this.alignment, this.staticMemory := alignment, staticMemory;
      begin, ptr, end := staticMemory, AlignUp(staticMemory, alignment), staticMemory + STATIC_POOL_SIZE;
      words, freed := map[], [];
      blocks, allocations := [Block(staticMemory, STATIC_POOL_SIZE)], [];
    }

    /** The last block has no room left for so many bytes: behind its last allocation, or behind its
        header if it has none. */
    ghost predicate Full(size: nat)
      requires alignment > 0 && blocks != []
      reads this`blocks, this`allocations
    {
      var last := blocks[|blocks| - 1];
      AlignUp(Frontier(blocks, allocations, alignment), alignment) + size > last.base + last.size
    }

    predicate NeedsBlock(size: nat)
      requires alignment > 0
      reads this`ptr, this`end
    {
      AlignUp(ptr, alignment) + size > end
    }

    /** The allocator keeps its side: the memory it returns belongs to no block in use. */
    ghost predicate Unused(raw: nat, size: nat)
      reads this`blocks
    {
      forall b <- blocks :: Disjoint(b.base, b.size, raw, size)
    }

    /** A new current block at the address that the allocator has returned. */
    method StartBlock(raw: nat, size: nat)
      requires Valid() && Unused(raw, AllocationSize(size, alignment))
      modifies this`begin, this`ptr, this`end, this`words, this`blocks
      ensures Valid() && blocks == old(blocks) + [Block(raw, AllocationSize(size, alignment))]
      ensures !NeedsBlock(size) && ptr == AlignUp(raw, alignment) + HEADER_SIZE
    {
      hide AlignUp, AllocationSize, AllocationsApart, BlocksApart, HeadersIntact, Within, Disjoint;
      SlackSuffices(raw, size, alignment);
      var allocSize := AllocationSize(size, alignment);
      var pool := AlignUp(raw, alignment);
      HeadersApart(raw, allocSize);
      BlocksPushed(blocks, Block(raw, allocSize));
      HeaderPushed(words, blocks, alignment, Block(raw, allocSize));
      WithinPushed(allocations, blocks, alignment, Block(raw, allocSize));
      words := words[pool := begin];
      begin := raw;
      ptr := pool + HEADER_SIZE;
      end := raw + allocSize;
      blocks := blocks + [Block(raw, allocSize)];
    }

    /** The new header lies in unused memory, so it replaces no other. */
    lemma HeadersApart(raw: nat, size: nat)
      requires Valid() && Unused(raw, size) && AlignUp(raw, alignment) + HEADER_SIZE <= raw + size
      ensures forall i :: 0 < i < |blocks| ==> AlignUp(blocks[i].base, alignment) != AlignUp(raw, alignment)
    {
      hide AlignUp;
      forall i | 0 < i < |blocks|
        ensures AlignUp(blocks[i].base, alignment) != AlignUp(raw, alignment)
      {
        assert blocks[i] in blocks;
        assert Payload(blocks, i, alignment) <= blocks[i].base + blocks[i].size;
      }
    }

    /** `raw` is what the allocator returns if it is asked, which it is only if the last block is full.
        The result is the first aligned address that is free in the block. */
    method AllocateAligned(size: nat, raw: nat) returns (result: nat)
      requires Valid()
      requires Full(size) ==> Unused(raw, AllocationSize(size, alignment))
      modifies this`begin, this`ptr, this`end, this`words, this`blocks, this`allocations
      ensures Valid()
      ensures allocations == old(allocations) + [Allocation(result, size, |blocks| - 1)]
      ensures !old(Full(size)) ==>
                blocks == old(blocks) && result == AlignUp(old(Frontier(blocks, allocations, alignment)), alignment)
      ensures old(Full(size)) ==>
                && blocks == old(blocks) + [Block(raw, AllocationSize(size, alignment))]
                && result == AlignUp(AlignUp(raw, alignment) + HEADER_SIZE, alignment)
      ensures result % alignment == 0
      ensures forall a <- old(allocations) :: Disjoint(a.start, a.size, result, size)
    {
      hide HeadersIntact, BlocksApart, AllocationsApart, Within, Disjoint, AlignUp, Payload, Full;
      FullNeeds(size);
      if NeedsBlock(size) {
        StartBlock(raw, size);
      }
      result := AlignUp(ptr, alignment);
      Extended(Allocation(result, size, |blocks| - 1));
      ptr := result + size;
      allocations := allocations + [Allocation(result, size, |blocks| - 1)];
    }

    lemma AtStart()
      requires Valid() && |blocks| == 1 && allocations == []
      ensures blocks == [Block(staticMemory, STATIC_POOL_SIZE)]
      ensures Frontier(blocks, allocations, alignment) == AlignUp(staticMemory, alignment)
    {
    }

    lemma FullNeeds(size: nat)
      requires Valid()
      ensures Full(size) <==> NeedsBlock(size)
      ensures ptr == Frontier(blocks, allocations, alignment)
    {
    }

    lemma Extended(a: Allocation)
      requires Valid() && a.block == |blocks| - 1
      requires a.start % alignment == 0 && ptr <= a.start && a.start + a.size <= end
      ensures Within(a, blocks, alignment) && AllocationsApart(allocations + [a])
      ensures forall b <- allocations :: Disjoint(b.start, b.size, a.start, a.size)
    {
      hide AlignUp;
      forall b | b in allocations
        ensures Disjoint(b.start, b.size, a.start, a.size)
      {
        AllocationsDisjoint(b, a, blocks, alignment);
      }
    }

    /** The owner of an allocation writes a byte of it; a stored pointer it overlaps is lost. */
    method Write(address: nat, ghost k: nat)
      requires Valid() && k < |allocations|
      requires allocations[k].start <= address < allocations[k].start + allocations[k].size
      modifies this`words
      ensures Valid()
      ensures words == map w | w in old(words) && !(w <= address < w + HEADER_SIZE) :: old(words)[w]
    {
      hide AlignUp;
      forall i | 0 < i < |blocks|
        ensures !(AlignUp(blocks[i].base, alignment) <= address < AlignUp(blocks[i].base, alignment) + HEADER_SIZE)
      {
        AllocationsMissHeaders(allocations[k], words, blocks, alignment, i);
      }
      words := map w | w in words && !(w <= address < w + HEADER_SIZE) :: words[w];
    }

    /** Frees the dynamic blocks by following the headers, and starts over. */
    method Clear()
      requires Valid()
      modifies this`begin, this`ptr, this`end, this`freed, this`blocks, this`allocations
      ensures Valid() && allocations == [] && blocks == [Block(staticMemory, STATIC_POOL_SIZE)]
      ensures freed == old(freed) + Unwound(old(blocks))
    {
      hide AlignUp, BlocksApart, Within;
      ghost var left := blocks;
      BlocksAlone(staticMemory);
      while begin != staticMemory
        invariant left != [] && left[0] == Block(staticMemory, STATIC_POOL_SIZE)
        invariant BlocksApart(left) && HeadersIntact(words, left, alignment)
        invariant begin == left[|left| - 1].base
        invariant freed + Unwound(left) == old(freed) + Unwound(old(blocks))
        decreases |left|
      {
        BlocksPopped(words, left, alignment);
        UnwoundPopped(left, freed);
        var previous := words[AlignUp(begin, alignment)];
        freed := freed + [begin];
        begin := previous;
        left := left[..|left| - 1];
      }
      BottomReached(left);
      assert Unwound(left) == [];
      assert freed + [] == freed;
      begin, ptr, end := staticMemory, AlignUp(staticMemory, alignment), staticMemory + STATIC_POOL_SIZE;
      blocks, allocations := [Block(staticMemory, STATIC_POOL_SIZE)], [];
    }
  }

  /** Four requests of a new pool: two small ones share the static memory; the third does not fit
      behind them and starts a block of the usual size, and the last, which is larger than that, gets a
      block of its own size. */
  method FirstRequests(raw: nat, other: nat) returns (pool: MemoryPool, a: nat, b: nat, c: nat, d: nat)
    requires raw >= 0x2_0000 && other >= raw + 0x2_0000
    ensures a == 0 && b == 16 && c == AlignUp(AlignUp(raw, 8) + 8, 8) && d == AlignUp(AlignUp(other, 8) + 8, 8)
    ensures pool.blocks == [Block(0, 0x1_0000), Block(raw, 0x1_0000 + 22), Block(other, 0x2_0000 + 22)]
  {
    hide AlignUp, MemoryPool.Valid, Payload, HeadersIntact;
    Multiples();
    pool := new MemoryPool(8, 0);
    pool.AtStart();
    a := pool.AllocateAligned(16, raw);
    b := pool.AllocateAligned(16, raw);
    c := pool.AllocateAligned(0xFFF0, raw);
    d := pool.AllocateAligned(0x2_0000, other);
  }

  lemma Multiples()
    ensures AlignUp(0, 8) == 0 && AlignUp(16, 8) == 16 && AlignUp(32, 8) == 32
  {
  }
}

/** The pool of equal blocks of cpMemMgr.cpp: blocks are carved out of segments and wait in a
    linked list, first in, first out. */
module MemPool {
  import opened Bytes

  const SIZEOF_BLOCK := 16
  const SIZEOF_SEGMENT := 8

  /** Counters have 32 bits. */
  function Wrap(n: int): uint32 { n % 0x1_0000_0000 }

  lemma WrapSum(a: int, b: int)
    ensures Wrap(Wrap(a) + b) == Wrap(a + b)
  {
    var q := a / 0x1_0000_0000;
    assert a == q * 0x1_0000_0000 + Wrap(a);
    Multiples(q, Wrap(a) + b);
  }

  lemma Multiples(q: int, r: int)
    ensures Wrap(q * 0x1_0000_0000 + r) == Wrap(r)
  {
  }

  lemma WrapSteps(n: int)
    ensures Wrap(Wrap(n) + 1) == Wrap(n + 1) && Wrap(Wrap(n) - 1) == Wrap(n - 1)
  {
  }

  class MemBlock {
    const addr: nat
    const size: nat
    var guard: bool
    var useCount: uint16
    var next: MemBlock?

    constructor (addr: nat, size: nat)
      ensures this.addr == addr && this.size == size && !guard && useCount == 0
    {
      this.addr, this.size := addr, size;
      guard, useCount, next := false, 0, null;
    }

    /** Saturates. */
    method UseCountInc()
      modifies this`useCount
      ensures useCount == if old(useCount) == 0xffff then 0xffff else old(useCount) + 1
    {
      if useCount < 0xffff {
        useCount := useCount + 1;
      }
    }
  }

  /** The list leads from head to tail through exactly these blocks. */
  ghost predicate Listed(free: seq<MemBlock>, head: MemBlock?, tail: MemBlock?)
    reads free
  {
    && head == (if free == [] then null else free[0])
    && tail == (if free == [] then null else free[|free| - 1])
    && (forall i {:trigger free[i].next} :: 0 <= i < |free| ==> free[i].next == if i + 1 < |free| then free[i + 1] else null)
    && (forall i, j :: 0 <= i < j < |free| ==> free[i] != free[j])
  }

  /** The memory of a block, with its header. */
  predicate Apart(b: MemBlock, c: MemBlock) {
    b.addr + SIZEOF_BLOCK + b.size <= c.addr || c.addr + SIZEOF_BLOCK + c.size <= b.addr
  }

  /** A chunk of memory from the heap. */
  datatype Chunk = Chunk(base: nat, size: nat)

  predicate Inside(b: MemBlock, c: Chunk) {
    c.base + SIZEOF_SEGMENT <= b.addr && b.addr + SIZEOF_BLOCK + b.size <= c.base + c.size
  }

  predicate ChunksApart(c: Chunk, d: Chunk) {
    c.base + c.size <= d.base || d.base + d.size <= c.base
  }

  class MemPool {
    const blockSize: nat
    const increment: uint32
    var totalBlocks: uint32
    var inventory: uint32
    var peakUsed: uint32
    var segments: seq<Chunk>
    var blkHead: MemBlock?
    var blkTail: MemBlock?
    var next: MemPool?
    ghost var Free: seq<MemBlock>
    ghost var Owned: set<MemBlock>

    /** Every block of the pool is free or deployed; the counters say how many. */
    ghost predicate Valid()
      reads `Free, `Owned, `blkHead, `blkTail, `inventory, `totalBlocks, `segments, Owned
    {
      Stocked() && totalBlocks == Wrap(|Owned|) && Carved()
    }

    /** The list holds the free blocks, and they are the pool's. */
    ghost predicate Stocked()
      reads `Free, `Owned, `blkHead, `blkTail, `inventory, Owned
    {
      (forall b :: b in Free ==> b in Owned) && Stacked()
    }

    /** The list holds blocks that are not guarded. */
    ghost predicate Stacked()
      reads `Free, `blkHead, `blkTail, `inventory, Free
    {
      && (forall b :: b in Free ==> !b.guard)
      && Listed(Free, blkHead, blkTail)
      && inventory == Wrap(|Free|)
    }

    /** The blocks have the pool's size and lie in its segments, one beside the other. */
    ghost predicate Carved()
      reads `Owned, `segments
    {
      && (forall b :: b in Owned ==> b.size == blockSize && exists c :: c in segments && Inside(b, c))
      && (forall b, c :: b in Owned && c in Owned && b != c ==> Apart(b, c))
    }

    ghost function Deployed(): set<MemBlock>
      reads `Owned, `Free
    {
      set b | b in Owned && b !in Free
    }

    /** Marking a block that is not free does not touch the pool. */
    twostate lemma StillValid(mem: MemBlock)
      requires old(Valid()) && unchanged(this) && mem !in Free
      requires forall b :: b in Owned ==> b.next == old(b.next) && (b != mem ==> b.guard == old(b.guard))
      ensures Valid()
    {
      assert forall i :: 0 <= i < |Free| ==> Free[i] in Free;
    }

    lemma Contents()
      requires Valid()
      ensures Stacked()
      ensures forall b :: b in Free ==> b in Owned && !b.guard
      ensures forall b :: b in Owned ==> b.size == blockSize
      ensures Deployed() == set b | b in Owned && b !in Free
    {
    }

    constructor (blockSize: nat, initCount: uint32, increment: uint32)
      ensures Valid() && fresh(Owned) && Deployed() == {} && next == null
      ensures |Free| == initCount && Owned == set b | b in Free
      ensures this.blockSize == blockSize && this.increment == increment
    {
      this.blockSize, this.increment := blockSize, increment;
      totalBlocks, inventory, peakUsed := 0, 0, 0;
      segments, blkHead, blkTail, next := [], null, null, null;
      Free, Owned := [], {};
      new;
      var rv := AllocateSegment(initCount);
      AllFree();
    }

    lemma AllFree()
      requires Valid() && Deployed() == {}
      ensures Owned == set b | b in Free
    {
      forall b | b in Owned
        ensures b in Free
      {
        assert b !in Deployed();
      }
    }

    /** Return a block to the list.  Only its size is checked: a block of another origin is taken
        as well. */
    method MemBlockPut(mem: MemBlock?) returns (rv: bool)
      requires Stacked() && (mem != null && mem.size == blockSize ==> mem !in Free && !mem.guard)
      modifies this`inventory, this`blkHead, this`blkTail, this`Free, Free`next, (if mem == null then {} else {mem})`next
      ensures Stacked() && (rv <==> mem != null && mem.size == blockSize)
      ensures Free == if rv then old(Free) + [mem] else old(Free)
      ensures Deployed() == if rv then old(Deployed()) - {mem} else old(Deployed())
      ensures old(Valid()) ==> (Valid() <==> rv ==> mem in Owned)
    {
      hide Wrap;
      WrapSteps(|Free|);
      rv := true;
      if mem == null {
        rv := false;
      }
      if rv {
        if mem.size != blockSize {
          rv := false;
        }
      }
      if rv {
        if blkHead == null {
          blkHead := mem;
          blkTail := mem;
        } else {
          blkTail.next := mem;
          blkTail := mem;
        }
        mem.next := null;
        inventory := Wrap(inventory + 1);
        Free := Free + [mem];
      }
    }

    /** Take the first free block; the list grows by a segment when it is empty. */
    method MemBlockGet() returns (rv: bool, mem: MemBlock?)
      requires Valid()
      modifies this`segments, this`totalBlocks, this`inventory, this`peakUsed, this`blkHead, this`blkTail, this`Free, this`Owned
      modifies Owned`next, Owned`useCount
      ensures Valid() && (rv <==> old(Free) != [] || increment > 0) && (rv <==> mem != null)
      ensures old(Owned) <= Owned && forall b :: b in Owned ==> b in old(Owned) || fresh(b)
      ensures rv ==> mem in Owned && mem !in old(Deployed()) && Deployed() == old(Deployed()) + {mem} && !mem.guard
      ensures old(Free) != [] ==> Owned == old(Owned) && old(Free) == [mem] + Free
      ensures old(Free) == [] && rv ==> |Free| == increment - 1
      ensures !rv ==> Deployed() == old(Deployed()) && Owned == old(Owned) && Free == old(Free) && peakUsed == old(peakUsed)
      ensures rv ==> var used := Wrap(totalBlocks - inventory); peakUsed == if used > old(peakUsed) then used else old(peakUsed)
      ensures old(Free) != [] ==> mem.useCount == if old(Free[0].useCount) == 0xffff then 0xffff else old(Free[0].useCount) + 1
    {
      hide Carved, Wrap;
      rv, mem := true, null;
      if blkHead == null {
        rv := AllocateSegment(increment);
      }
      if rv {
        mem := blkHead;
        TakeHead();
        mem.UseCountInc();
        if Wrap(totalBlocks - inventory) > peakUsed {
          peakUsed := Wrap(totalBlocks - inventory);
        }
      }
    }

    method TakeHead()
      requires Stocked() && blkHead != null
      modifies this`blkHead, this`blkTail, this`inventory, this`Free
      ensures Stocked() && old(Free) == [old(blkHead)] + Free
      ensures old(blkHead) in Owned && old(blkHead) in old(Free) && Deployed() == old(Deployed()) + {old(blkHead)}
    {
      hide Wrap;
      WrapSteps(|Free|);
      assert Free[0] in Free;
      blkHead := blkHead.next;
      if blkHead == null {
        blkTail := null;
      }
      inventory := Wrap(inventory - 1);
      Free := Free[1..];
    }

    /** Carve a new segment into blocks.  The heap may place the segment anywhere beside the others. */
    method AllocateSegment(blocks: uint32) returns (rv: bool)
      requires Valid()
      modifies this`segments, this`totalBlocks, this`inventory, this`blkHead, this`blkTail, this`Free, this`Owned, Owned`next
      ensures Valid() && (rv <==> blocks > 0) && |Free| == |old(Free)| + blocks
      ensures old(Free) <= Free && Deployed() == old(Deployed())
      ensures old(Owned) <= Owned && forall b :: b in Owned ==> b in old(Owned) || fresh(b)
      ensures blocks == 0 ==> Owned == old(Owned) && Free == old(Free)
    {
      hide Stocked, Carved, MemPool.Clear, Room;
      rv := true;
      if blocks == 0 {
        rv := false;
      }
      if rv {
        var segSize := Room(blocks, blockSize) + SIZEOF_SEGMENT;
        var pRaw: nat := NewChunk(segSize);
        ghost var chunk := segments[0];
        pRaw := pRaw + SIZEOF_SEGMENT;
        var i := 0;
        while i < blocks && rv
          invariant rv && 0 <= i <= blocks && pRaw >= 0 && Valid() && |Free| == |old(Free)| + i
          invariant old(Free) <= Free && Deployed() == old(Deployed())
          invariant old(Owned) <= Owned && forall b :: b in Owned ==> b in old(Owned) || fresh(b)
          invariant segments != [] && segments[0] == chunk
          invariant Clear(chunk, pRaw) && pRaw + Room(blocks - i, blockSize) == chunk.base + chunk.size
        {
          NextBlock(blocks - i, blockSize);
          rv := Carve(pRaw, chunk);
          pRaw := pRaw + (SIZEOF_BLOCK + blockSize);
          i := i + 1;
        }
      }
    }

    /** No block of the pool reaches into the chunk from this address on. */
    ghost predicate Clear(c: Chunk, from: nat)
      reads `Owned
    {
      c.base + SIZEOF_SEGMENT <= from && forall b :: b in Owned ==> b.addr + SIZEOF_BLOCK + b.size <= from || c.base + c.size <= b.addr
    }

    /** A chunk from the heap becomes a segment. */
    method NewChunk(size: nat) returns (pRaw: nat)
      requires Valid() && size >= SIZEOF_SEGMENT
      modifies this`segments
      ensures Valid() && segments == [Chunk(pRaw, size)] + old(segments)
      ensures Clear(segments[0], pRaw + SIZEOF_SEGMENT)
    {
      ghost var top := Top(segments);
      assert forall c :: c in segments ==> ChunksApart(Chunk(top, size), c);
      pRaw :| forall c :: c in segments ==> ChunksApart(Chunk(pRaw, size), c);
      forall b | b in Owned
        ensures b.addr + SIZEOF_BLOCK + b.size <= pRaw + SIZEOF_SEGMENT || pRaw + size <= b.addr
      {
        var c :| c in segments && Inside(b, c);
        assert ChunksApart(Chunk(pRaw, size), c);
      }
      segments := [Chunk(pRaw, size)] + segments;
    }

    /** One block out of a segment */
    method Carve(pRaw: nat, ghost chunk: Chunk) returns (rv: bool)
      requires Valid() && chunk in segments && Clear(chunk, pRaw)
      requires pRaw + blockSize + SIZEOF_BLOCK <= chunk.base + chunk.size
      modifies this`totalBlocks, this`inventory, this`blkHead, this`blkTail, this`Free, this`Owned, Owned`next
      ensures rv && Valid() && |Free| == |old(Free)| + 1 && old(Free) <= Free
      ensures Deployed() == old(Deployed())
      ensures old(Owned) <= Owned && forall b :: b in Owned ==> b in old(Owned) || fresh(b)
      ensures Clear(chunk, pRaw + blockSize + SIZEOF_BLOCK)
    {
      hide Stacked, Carved, MemPool.Clear, Deployed, Wrap;
      WrapSteps(|Owned|);
      var pBlk := new MemBlock(pRaw, blockSize);
      Adopt(pBlk, chunk);
      rv := MemBlockPut(pBlk);
      if rv {
        totalBlocks := Wrap(totalBlocks + 1);
      }
    }

    /** A block that was made in the clear part of a segment belongs to the pool. */
    ghost method Adopt(pBlk: MemBlock, chunk: Chunk)
      requires Valid() && chunk in segments && Clear(chunk, pBlk.addr) && pBlk !in Owned && pBlk.size == blockSize
      requires pBlk.addr + blockSize + SIZEOF_BLOCK <= chunk.base + chunk.size
      modifies this`Owned
      ensures Stocked() && Carved() && Owned == old(Owned) + {pBlk} && |Owned| == |old(Owned)| + 1
      ensures pBlk !in Free && pBlk !in old(Deployed()) && Deployed() == old(Deployed()) + {pBlk}
      ensures Clear(chunk, pBlk.addr + blockSize + SIZEOF_BLOCK)
    {
      hide Listed, Apart, Inside, MemPool.Clear, Wrap, Stacked;
      ghost var before := Owned;
      ClearApart(pBlk, chunk);
      Owned := Owned + {pBlk};
      NowClear(before, pBlk, chunk);
    }

    /** A block placed in the clear part of a chunk is apart from all others. */
    lemma ClearApart(b: MemBlock, c: Chunk)
      requires Clear(c, b.addr) && b.addr + b.size + SIZEOF_BLOCK <= c.base + c.size
      ensures Inside(b, c) && c.base + SIZEOF_SEGMENT <= b.addr
      ensures forall d :: d in Owned ==> Apart(b, d) && Apart(d, b)
      ensures forall d :: d in Owned ==> d.addr + SIZEOF_BLOCK + d.size <= b.addr || c.base + c.size <= d.addr
    {
    }

    lemma NowClear(before: set<MemBlock>, b: MemBlock, c: Chunk)
      requires Owned == before + {b} && c.base + SIZEOF_SEGMENT <= b.addr
      requires forall d :: d in before ==> d.addr + SIZEOF_BLOCK + d.size <= b.addr || c.base + c.size <= d.addr
      ensures Clear(c, b.addr + b.size + SIZEOF_BLOCK)
    {
    }
  }

  /** The memory that n blocks take. */
  function Room(n: nat, size: nat): nat { n * (size + SIZEOF_BLOCK) }

  lemma NextBlock(n: nat, size: nat)
    requires n > 0
    ensures Room(n, size) == size + SIZEOF_BLOCK + Room(n - 1, size)
  {
  }

  /** An address behind all chunks */
  function Top(cs: seq<Chunk>): (t: nat)
    ensures forall c :: c in cs ==> c.base + c.size <= t
  {
    if cs == [] then 0
    else
      var t := Top(cs[1..]);
      assert cs == [cs[0]] + cs[1..];
      if t < cs[0].base + cs[0].size then cs[0].base + cs[0].size else t
  }
}

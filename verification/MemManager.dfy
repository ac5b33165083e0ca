/** The manager of cpMemMgr.cpp: a list of pools in ascending order of block size, and the heap for
    what no pool can hold. */
module MemManager {
  import opened Bytes
  import opened MemPool

  const MIN_MEM_BLOCK_SIZE := 16

  ghost function SumSizes(s: set<MemBlock>): nat {
    if s == {} then 0
    else
      var b :| b in s;
      b.size + SumSizes(s - {b})
  }

  lemma {:induction false} SumRemove(s: set<MemBlock>, b: MemBlock)
    requires b in s
    ensures SumSizes(s) == b.size + SumSizes(s - {b})
    decreases s
  {
    var c :| c in s && SumSizes(s) == c.size + SumSizes(s - {c});
    if b != c {
      SumRemove(s - {c}, b);
      SumRemove(s - {b}, c);
      assert s - {b} - {c} == s - {c} - {b};
    }
  }

  lemma SumAdd(s: set<MemBlock>, b: MemBlock)
    requires b !in s
    ensures SumSizes(s + {b}) == SumSizes(s) + b.size
  {
    SumRemove(s + {b}, b);
    assert s + {b} - {b} == s;
  }

  // -------------------------------------------------------------------------
  // Which block is where

  /** A pool's blocks: the free ones, in the order in which they will be taken, and all. */
  datatype Shelf = Shelf(size: nat, free: seq<MemBlock>, owned: set<MemBlock>) {
    ghost function Deployed(): set<MemBlock> { set b | b in owned && b !in free }
  }

  ghost function Refilled(s: Shelf, mem: MemBlock): Shelf { s.(free := s.free + [mem]) }

  /** One more block of shelf k is deployed: the first free one, or else one of the new blocks by
      which the pool grew. */
  ghost predicate Taken(before: seq<Shelf>, shelves: seq<Shelf>, k: nat, mem: MemBlock, increment: nat) {
    k < |before| == |shelves| && shelves == before[k := shelves[k]] && Drawn(before[k], shelves[k], mem, increment)
  }

  ghost predicate Drawn(before: Shelf, s: Shelf, mem: MemBlock, increment: nat) {
    && s.size == before.size == mem.size && before.owned <= s.owned && mem in s.owned && mem !in before.Deployed()
    && s.Deployed() == before.Deployed() + {mem}
    && if before.free != [] then before.free == [mem] + s.free && s.owned == before.owned else |s.free| == increment - 1
  }

  ghost predicate Ascending(shelves: seq<Shelf>) {
    forall i, j :: 0 <= i < j < |shelves| ==> shelves[i].size < shelves[j].size
  }

  ghost predicate Pooled(shelves: seq<Shelf>, b: MemBlock) {
    exists i :: 0 <= i < |shelves| && b in shelves[i].owned
  }

  /** A client's block comes from a pool, or no pool could hold it. */
  ghost predicate Placed(shelves: seq<Shelf>, b: MemBlock) {
    Pooled(shelves, b) || forall i :: 0 <= i < |shelves| ==> shelves[i].size < b.size
  }

  /** One pool: what it has deployed is with clients or on the way, what is free is not. */
  ghost predicate Sound(s: Shelf, live: set<MemBlock>, onTheWay: set<MemBlock>, blocks: set<MemBlock>) {
    && s.owned <= blocks
    && s.Deployed() <= live + onTheWay
    && (forall b :: b in s.free ==> b in s.owned && b !in live && b !in onTheWay)
    && (forall b :: b in s.owned ==> b.size == s.size)
  }

  ghost predicate Tidy(shelves: seq<Shelf>, live: set<MemBlock>, onTheWay: set<MemBlock>, blocks: set<MemBlock>) {
    && Ascending(shelves)
    && (forall i :: 0 <= i < |shelves| ==> Sound(shelves[i], live, onTheWay, blocks))
    && (forall i, j :: 0 <= i < j < |shelves| ==> shelves[i].owned !! shelves[j].owned)
    && live <= blocks
    && (forall b :: b in blocks ==> b in live || b in onTheWay || Pooled(shelves, b))
  }

  /** Every client's block has a place to return to. */
  ghost predicate Homed(shelves: seq<Shelf>, live: set<MemBlock>) {
    forall b :: b in live ==> Placed(shelves, b)
  }

  // -------------------------------------------------------------------------
  // The manager

  class MemManager {
    var deployedCount: uint32
    var returnedCount: uint32
    var deployedSize: uint32
    var failedGets: uint32
    var failedPuts: uint32
    var poolHead: MemPool?
    ghost var Pools: seq<MemPool>
    ghost var Shelves: seq<Shelf>
    /** The blocks that clients hold, and all blocks whose memory is still there. */
    ghost var Live: set<MemBlock>
    ghost var Blocks: set<MemBlock>

    ghost predicate Valid()
      reads this, Pools, Blocks
    {
      Sane() && Homed(Shelves, Live)
    }

    /** The accounts are in order, although a client's block may have no place to return to. */
    ghost predicate Sane()
      reads this, Pools, Blocks
    {
      Consistent({}) && Counted(Live)
    }

    /** Every deployed block is with a client, but for those on their way. */
    ghost predicate Consistent(onTheWay: set<MemBlock>)
      reads `Pools, `Shelves, `poolHead, `Blocks, `Live, Pools, Blocks
    {
      && Tidy(Shelves, Live, onTheWay, Blocks)
      && Linked(Pools, poolHead)
      && |Pools| == |Shelves| && (forall i :: 0 <= i < |Pools| ==> Shelves[i].owned <= Blocks && Backs(Pools[i], Shelves[i]))
      && (forall b :: b in Live ==> b.guard)
    }

    /** What the counters say about the blocks that clients hold. */
    ghost predicate Counted(live: set<MemBlock>)
      reads `deployedCount, `returnedCount, `deployedSize
    {
      deployedSize == Wrap(SumSizes(live)) && Wrap(deployedCount - returnedCount) == Wrap(|live|)
    }

    /** The list leads through the pools, each once. */
    static ghost predicate Linked(pools: seq<MemPool>, head: MemPool?)
      reads pools`next
    {
      && head == (if pools == [] then null else pools[0])
      && (forall i {:trigger pools[i].next} :: 0 <= i < |pools| ==> pools[i].next == if i + 1 < |pools| then pools[i + 1] else null)
      && (forall i, j :: 0 <= i < j < |pools| ==> pools[i] != pools[j])
    }

    static ghost predicate Backs(p: MemPool, s: Shelf)
      reads p`Free, p`Owned, p`blkHead, p`blkTail, p`inventory, p`totalBlocks, p`segments, s.owned
    {
      p.blockSize == s.size && p.Free == s.free && p.Owned == s.owned && p.Valid()
    }

    constructor ()
      ensures Valid() && Pools == [] && Shelves == [] && Live == {} && Blocks == {}
    {
      deployedCount, returnedCount, deployedSize, failedGets, failedPuts := 0, 0, 0, 0, 0;
      poolHead := null;
      Pools, Shelves, Live, Blocks := [], [], {}, {};
    }

    /** `PoolGet`: the first pool with blocks of at least this size. */
    method PoolGet(size: nat) returns (pool: MemPool?, ghost k: nat)
      requires Linked(Pools, poolHead)
      ensures k <= |Pools| && pool == if k < |Pools| then Pools[k] else null
      ensures forall i :: 0 <= i < k ==> Pools[i].blockSize < size
      ensures k < |Pools| ==> Pools[k].blockSize >= size
    {
      pool := poolHead;
      k := 0;
      while pool != null
        invariant k <= |Pools| && pool == if k < |Pools| then Pools[k] else null
        invariant forall i :: 0 <= i < k ==> Pools[i].blockSize < size
        decreases |Pools| - k
      {
        if pool.blockSize >= size {
          break;
        }
        pool := pool.next;
        k := k + 1;
      }
    }

    /** A block out of a pool, unless that is empty and may not grow. */
    method FromPool(pool: MemPool, ghost k: nat) returns (rv: bool, mem: MemBlock?)
      requires Consistent({}) && k < |Pools| && pool == Pools[k]
      modifies this`Blocks, this`Shelves, pool, pool.Owned`next, pool.Owned`useCount
      ensures pool.next == old(pool.next) && (rv <==> old(pool.Free) != [] || pool.increment > 0) && (rv <==> mem != null)
      ensures rv ==> Consistent({mem}) && mem in Blocks && mem !in Live && !mem.guard
      ensures rv ==> Taken(old(Shelves), Shelves, k, mem, Pools[k].increment)
      ensures !rv ==> Consistent({}) && Shelves == old(Shelves) && Blocks == old(Blocks)
      ensures old(Blocks) <= Blocks && forall b :: b in Blocks ==> b in old(Blocks) || fresh(b)
    {
      hide Placed, Linked, MemPool.Valid, Shelf.Deployed;
      ghost var s;
      rv, mem, s := Draw(pool, k);
      if rv {
        TakenTidy(Shelves, Live, Blocks, k, s, mem);
      }
      assert !rv ==> Shelves[k := s] == Shelves && Blocks + s.owned == Blocks;
      Shelves := Shelves[k := s];
      Blocks := Blocks + s.owned;
    }

    /** What that does to the pool; the others still back their shelves. */
    method Draw(pool: MemPool, ghost k: nat) returns (rv: bool, mem: MemBlock?, ghost s: Shelf)
      requires Consistent({}) && k < |Pools| && pool == Pools[k]
      modifies pool, pool.Owned`next, pool.Owned`useCount
      ensures pool.next == old(pool.next) && (rv <==> old(pool.Free) != [] || pool.increment > 0) && (rv <==> mem != null)
      ensures Shelves[k].owned <= s.owned && (forall b :: b in s.owned ==> b in Shelves[k].owned || fresh(b))
      ensures (forall b :: b in s.free ==> b in s.owned) && (forall b :: b in s.owned ==> b.size == s.size)
      ensures if rv then Drawn(Shelves[k], s, mem, pool.increment) && !mem.guard else s == Shelves[k]
      ensures forall i :: 0 <= i < |Pools| ==> Backs(Pools[i], if i == k then s else Shelves[i])
    {
      hide Tidy, Linked, Placed, MemPool.Valid, MemPool.Stacked;
      pool.Contents();
      forall i | 0 <= i < |Pools| && i != k
        ensures pool.Owned !! Pools[i].Owned && Pools[i] != pool
      {
        TidyApart(Shelves, Live, {}, Blocks, i, k);
        Different(Pools, poolHead, i, k);
      }
      rv, mem := pool.MemBlockGet();
      pool.Contents();
      s := Shelf(pool.blockSize, pool.Free, pool.Owned);
      forall i | 0 <= i < |Pools| && i != k
        ensures Backs(Pools[i], Shelves[i])
      {
        assert old(Backs(Pools[i], Shelves[i]));
      }
    }

    method FromHeap(size: nat) returns (mem: MemBlock)
      requires Consistent({}) && forall i :: 0 <= i < |Pools| ==> Pools[i].blockSize < size
      modifies this`Blocks
      ensures Consistent({mem}) && mem in Blocks && mem !in Live && !mem.guard && Placed(Shelves, mem)
      ensures fresh(mem) && mem.size == size && Blocks == old(Blocks) + {mem}
    {
      hide Tidy, Linked;
      var pRaw: nat := *;
      mem := new MemBlock(pRaw, size);
      MadeTidy(Shelves, Live, Blocks, mem);
      Blocks := Blocks + {mem};
    }

    /** The statistics of a successful get and of a successful put */
    method CountGet(mem: MemBlock)
      requires Counted(Live) && mem !in Live
      modifies this`deployedCount, this`deployedSize
      ensures Counted(Live + {mem}) && deployedCount == Wrap(old(deployedCount) + 1)
    {
      hide Wrap, SumSizes;
      SumAdd(Live, mem);
      WrapSum(SumSizes(Live), mem.size);
      ghost var d: int, r: int := deployedCount, returnedCount;
      WrapSum(d + 1, 0 - r);
      WrapSum(deployedCount - returnedCount, 1);
      WrapSum(|Live|, 1);
      deployedCount := Wrap(deployedCount + 1);
      deployedSize := Wrap(deployedSize + mem.size);
    }

    method CountPut(mem: MemBlock, size: nat)
      requires Counted(Live + {mem}) && mem !in Live && size == mem.size
      modifies this`returnedCount, this`deployedSize
      ensures Counted(Live) && returnedCount == Wrap(old(returnedCount) + 1)
    {
      hide Wrap, SumSizes;
      SumAdd(Live, mem);
      ghost var n: int := size;
      WrapSum(SumSizes(Live) + n, 0 - n);
      WrapMinus(deployedCount, returnedCount + 1);
      WrapSum(deployedCount - returnedCount, -1);
      WrapSum(|Live| + 1, -1);
      returnedCount := Wrap(returnedCount + 1);
      deployedSize := Wrap(deployedSize - size);
    }

    /** Count a block and mark it. */
    method Deploy(mem: MemBlock)
      requires Consistent({mem}) && Counted(Live) && mem in Blocks && mem !in Live && !mem.guard && Placed(Shelves, mem)
      modifies this`deployedCount, this`deployedSize, this`Live, mem`guard
      ensures Sane() && Live == old(Live) + {mem} && deployedCount == Wrap(old(deployedCount) + 1)
      ensures old(Homed(Shelves, Live)) ==> Homed(Shelves, Live)
    {
      hide Tidy, Linked, Placed, MemPool.Valid;
      DeployedTidy(Shelves, Live, Blocks, mem);
      CountGet(mem);
      mem.guard := true;
      Live := Live + {mem};
      forall i | 0 <= i < |Pools|
        ensures Backs(Pools[i], Shelves[i])
      {
        assert old(Backs(Pools[i], Shelves[i]));
        Pools[i].StillValid(mem);
      }
    }

    lemma Within()
      requires Consistent({})
      ensures Linked(Pools, poolHead) && |Pools| == |Shelves|
      ensures forall i :: 0 <= i < |Pools| ==> Pools[i].Owned <= Blocks && Pools[i].blockSize == Shelves[i].size
      ensures forall i :: 0 <= i < |Pools| ==> forall b :: b in Pools[i].Free ==> b in Blocks
      ensures forall i :: 0 <= i < |Pools| ==> forall b :: b in Shelves[i].owned ==> b.size == Shelves[i].size
    {
      hide Linked, MemPool.Valid;
      assert forall i :: 0 <= i < |Shelves| ==> Sound(Shelves[i], Live, {}, Blocks);
    }

    /** The pool that serves a request, if any, has a block or can make one. */
    ghost predicate CanServe(size: nat)
      reads this, Pools
    {
      forall i :: 0 <= i < |Pools| && Pools[i].blockSize >= size && (forall j :: 0 <= j < i ==> Pools[j].blockSize < size)
        ==> Pools[i].Free != [] || Pools[i].increment > 0
    }

    /** Take a block from the smallest pool that fits, or a new one from the heap. */
    method Obtain(size: nat) returns (rv: bool, mem: MemBlock?, ghost k: nat)
      requires Sane()
      modifies this`Blocks, this`Shelves, Pools, Blocks
      ensures (rv <==> old(CanServe(size))) && (rv <==> mem != null) && Counted(Live)
      ensures rv ==> Consistent({mem}) && mem in Blocks && mem !in Live && !mem.guard && Placed(Shelves, mem)
      ensures !rv ==> Consistent({}) && Shelves == old(Shelves) && Blocks == old(Blocks)
      ensures old(Blocks) <= Blocks && forall b :: b in Blocks ==> b in old(Blocks) || fresh(b)
      ensures k <= |old(Shelves)| && (forall i :: 0 <= i < k ==> old(Shelves)[i].size < size)
      ensures rv ==> if k < |old(Shelves)| then Taken(old(Shelves), Shelves, k, mem, Pools[k].increment) && Shelves[k].size >= size
                     else Shelves == old(Shelves) && fresh(mem) && mem.size == size
      ensures old(Homed(Shelves, Live)) ==> Homed(Shelves, Live)
    {
      hide Tidy, Placed, Homed, Counted, Linked, Consistent, Taken, MemPool.Valid;
      Within();
      ghost var before := Shelves;
      var pool;
      pool, k := PoolGet(size);
      if pool != null {
        rv, mem := FromPool(pool, k);
        if rv {
          TakenHomed(before, Shelves, Live, k, mem, Pools[k].increment);
        }
      } else {
        rv := true;
        mem := FromHeap(size);
      }
    }

    /** Hand out a block that no client holds, from the smallest pool that fits.  When there is
        none, nothing changes. */
    method MemBlockGet(size: nat) returns (rv: bool, mem: MemBlock?, ghost k: nat)
      requires Sane()
      modifies this`Blocks, this`Shelves, this`deployedCount, this`deployedSize, this`failedGets, this`Live, Pools, Blocks
      ensures Sane() && (old(Valid()) ==> Valid()) && (rv <==> old(CanServe(size))) && (rv <==> mem != null)
      ensures rv ==> mem !in old(Live) && Live == old(Live) + {mem} && mem in Blocks
      ensures rv ==> deployedCount == Wrap(old(deployedCount) + 1) && failedGets == old(failedGets)
      ensures !rv ==> Live == old(Live) && Shelves == old(Shelves) && Blocks == old(Blocks)
                      && deployedCount == old(deployedCount) && failedGets == Wrap(old(failedGets) + 1)
      ensures old(Blocks) <= Blocks && forall b :: b in Blocks ==> b in old(Blocks) || fresh(b)
      ensures k <= |old(Shelves)| && (forall i :: 0 <= i < k ==> old(Shelves)[i].size < size)
      ensures rv ==> if k < |old(Shelves)| then Taken(old(Shelves), Shelves, k, mem, Pools[k].increment) && Shelves[k].size >= size
                     else Shelves == old(Shelves) && fresh(mem) && mem.size == size
    {
      hide Tidy, Placed, Homed, Counted, Linked, Consistent, Taken, MemPool.Valid, Wrap;
      rv, mem, k := Obtain(size);
      if rv {
        Deploy(mem);
      } else {
        failedGets := Wrap(failedGets + 1);
      }
    }

    /** The guard of a block tells whether a client holds it. */
    lemma GuardTells(mem: MemBlock)
      requires Consistent({}) && mem in Blocks
      ensures mem.guard <==> mem in Live
    {
      hide Linked, MemPool.Valid;
      if mem !in Live {
        assert Pooled(Shelves, mem);
        var i :| 0 <= i < |Shelves| && mem in Shelves[i].owned;
        assert Backs(Pools[i], Shelves[i]);
        Pools[i].Contents();
        assert mem in Shelves[i].free by {
          assert mem !in Shelves[i].Deployed();
        }
      }
    }

    lemma Home(mem: MemBlock)
      requires Consistent({}) && mem in Live
      ensures forall k :: 0 <= k < |Shelves| && FirstFit(Shelves, k, mem.size) ==>
        (mem in Shelves[k].owned <==> Pooled(Shelves, mem)) && (mem in Shelves[k].owned <==> Placed(Shelves, mem))
      ensures (forall i :: 0 <= i < |Shelves| ==> Shelves[i].size < mem.size) ==> !Pooled(Shelves, mem) && Placed(Shelves, mem)
    {
      hide Tidy, Linked, MemPool.Valid;
      HomePool(Shelves, Live, Blocks, mem);
    }

    /** Remove the mark of a returned block. */
    method Release(mem: MemBlock)
      requires Sane() && mem in Live
      modifies this`Live, mem`guard
      ensures Consistent({mem}) && Counted(Live + {mem}) && Live == old(Live) - {mem} && !mem.guard
      ensures old(Homed(Shelves, Live)) ==> Homed(Shelves, Live)
    {
      hide Tidy, Linked, Placed, MemPool.Valid, Counted;
      ReleasedTidy(Shelves, Live, Blocks, mem);
      mem.guard := false;
      assert Live - {mem} + {mem} == Live;
      Live := Live - {mem};
      forall i | 0 <= i < |Pools|
        ensures Backs(Pools[i], Shelves[i])
      {
        assert old(Backs(Pools[i], Shelves[i]));
        Pools[i].StillValid(mem);
      }
    }

    /** The first pool that fits takes a block if the size is its own.  If the block is not its own,
        its list now has a block that it does not own. */
    method ToPool(pool: MemPool, mem: MemBlock, ghost k: nat) returns (rv: bool)
      requires Consistent({mem}) && k < |Pools| && pool == Pools[k] && mem !in Live && !mem.guard
      requires mem in Shelves[k].owned || !Pooled(Shelves, mem)
      modifies this`Shelves, pool`inventory, pool`blkHead, pool`blkTail, pool`Free, pool.Free`next, mem`next
      ensures |old(Shelves)| == |Pools| > k && (rv <==> mem.size == old(Shelves[k]).size)
      ensures
        if mem in old(Shelves[k]).owned then
          rv && Consistent({}) && Shelves == old(Shelves)[k := Refilled(old(Shelves[k]), mem)]
        else
          Shelves == old(Shelves) && if rv then Foreign(pool, old(Shelves[k]), mem) else Consistent({mem})
      ensures old(Homed(Shelves, Live)) ==> Homed(Shelves, Live)
    {
      hide Tidy, Placed, Homed, Linked, MemPool.Deployed, MemPool.Valid, MemPool.Stocked, MemPool.Stacked;
      pool.Contents();
      ghost var own := mem in Shelves[k].owned;
      if own {
        ReturnedTidy(Shelves, Live, Blocks, k, mem);
        HomedGrows(Shelves, Live, k, Refilled(Shelves[k], mem));
      } else {
        Outside(Shelves, mem);
      }
      OneSize(Shelves, Live, {mem}, Blocks, k);
      forall i | 0 <= i < |Pools| && i != k
        ensures pool.Owned !! Pools[i].Owned && Backs(Pools[i], Shelves[i]) && mem !in Pools[i].Owned && Pools[i] != pool
      {
        TidyApart(Shelves, Live, {mem}, Blocks, i, k);
        Different(Pools, poolHead, i, k);
      }
      rv := pool.MemBlockPut(mem);
      forall i | 0 <= i < |Pools| && i != k
        ensures Backs(Pools[i], Shelves[i])
      {
        assert old(Backs(Pools[i], Shelves[i]));
      }
      if own {
        Shelves := Shelves[k := Refilled(Shelves[k], mem)];
      }
    }

    static lemma Different(pools: seq<MemPool>, head: MemPool?, i: nat, k: nat)
      requires Linked(pools, head) && i < |pools| && k < |pools| && i != k
      ensures pools[i] != pools[k]
    {
    }

    /** The pool's list ends with a block that is not the pool's. */
    static ghost predicate Foreign(p: MemPool, s: Shelf, mem: MemBlock)
      reads p, p.Owned
    {
      p.Free == s.free + [mem] && p.Owned == s.owned && mem !in p.Owned && !p.Valid()
    }

    /** What a put does with a block that has no place to return to: the first pool that fits puts
        it in its list, or refuses it, and then nobody can return it any more. */
    ghost predicate Misplaced(rv: bool, mem: MemBlock, k: nat, shelves: seq<Shelf>)
      reads this, Pools, Blocks, set p, b | p in Pools && b in p.Owned :: b
    {
      && |shelves| == |Pools| > k && FirstFit(shelves, k, mem.size) && mem !in shelves[k].owned && Shelves == shelves
      && (rv <==> mem.size == shelves[k].size)
      && if rv then Foreign(Pools[k], shelves[k], mem) && Counted(Live) else Consistent({mem}) && Counted(Live + {mem})
    }

    /** What a put does with any other block. */
    ghost predicate Returned(rv: bool, mem: MemBlock, k: nat, shelves: seq<Shelf>, blocks: set<MemBlock>)
      reads this, Pools, Blocks
    {
      rv && Sane() &&
      if k < |shelves| then mem in shelves[k].owned && Blocks == blocks && Shelves == shelves[k := Refilled(shelves[k], mem)]
      else !Pooled(shelves, mem) && Shelves == shelves && Blocks == blocks - {mem}
    }

    /** Take back a block: a pooled one goes to the end of its pool's list, any other is deleted.
        A second return is refused. */
    method MemBlockPut(mem: MemBlock?) returns (rv: bool, ghost k: nat)
      requires Sane() && (mem != null ==> mem in Blocks)
      modifies this`Blocks, this`Shelves, this`returnedCount, this`deployedSize, this`failedPuts, this`Live, Pools, Blocks
      ensures old(Valid()) ==> Valid() && (rv <==> mem == null || mem in old(Live))
      ensures
        if mem == null || mem !in old(Live) then
          Sane() && (rv <==> mem == null) && Live == old(Live) && Shelves == old(Shelves) && Blocks == old(Blocks)
        else
          && Live == old(Live) - {mem} && !mem.guard
          && if old(Placed(Shelves, mem)) then Returned(rv, mem, k, old(Shelves), old(Blocks))
             else Misplaced(rv, mem, k, old(Shelves)) && Blocks == old(Blocks)
      ensures returnedCount == if rv && mem != null then Wrap(old(returnedCount) + 1) else old(returnedCount)
    {
      hide Homed, Placed, Counted, Consistent, Returned, Misplaced, Wrap;
      rv, k := true, 0;
      if mem == null {
        return;
      }
      GuardTells(mem);
      AllHomed(mem);
      if !mem.guard {
        return false, 0;
      }
      rv, k := PutLive(mem);
    }

    lemma AllHomed(mem: MemBlock)
      requires Valid() || Sane()
      ensures Homed(Shelves, Live) && mem in Live ==> Placed(Shelves, mem)
    {
    }

    /** The way of a block that a client holds. */
    method PutLive(mem: MemBlock) returns (rv: bool, ghost k: nat)
      requires Sane() && mem in Live && mem in Blocks
      modifies this`Blocks, this`Shelves, this`returnedCount, this`deployedSize, this`failedPuts, this`Live, Pools, Blocks
      ensures Live == old(Live) - {mem} && !mem.guard
      ensures if old(Placed(Shelves, mem)) then Returned(rv, mem, k, old(Shelves), old(Blocks))
              else Misplaced(rv, mem, k, old(Shelves)) && Blocks == old(Blocks)
      ensures old(Placed(Shelves, mem)) ==> rv && Sane()
      ensures old(Homed(Shelves, Live)) ==> Homed(Shelves, Live)
      ensures returnedCount == if rv then Wrap(old(returnedCount) + 1) else old(returnedCount)
    {
      hide Tidy, Placed, Homed, Counted, Linked, Consistent, MemPool.Valid, Wrap;
      var size := mem.size;
      Within();
      Home(mem);
      Release(mem);
      var pool;
      pool, k := PoolGet(size);
      if pool != null {
        assert FirstFit(Shelves, k, size);
        rv := ToPool(pool, mem, k);
      } else {
        rv := true;
        ToHeap(mem);
      }
      if rv {
        CountPut(mem, size);
      } else {
        failedPuts := Wrap(failedPuts + 1);
      }
    }

    method ToHeap(mem: MemBlock)
      requires Consistent({mem}) && mem !in Live && !Pooled(Shelves, mem)
      modifies this`Blocks
      ensures Consistent({}) && Blocks == old(Blocks) - {mem}
    {
      hide Tidy, Linked, MemPool.Valid;
      DeletedTidy(Shelves, Live, Blocks, mem);
      Blocks := Blocks - {mem};
    }

    /** Where a pool of a new size belongs: behind the k smaller ones. */
    method FindSlot(size: nat) returns (found: bool, prev: MemPool?, ghost k: nat)
      requires Consistent({})
      ensures found <==> exists i :: 0 <= i < |Shelves| && Shelves[i].size == size
      ensures !found ==> k <= |Pools| == |Shelves| && prev == if k == 0 then null else Pools[k - 1]
      ensures !found ==> forall i :: 0 <= i < |Shelves| ==> (i < k <==> Shelves[i].size < size)
    {
      hide Placed, Sound, MemPool.Valid;
      var pool := poolHead;
      prev := null;
      found := false;
      ghost var n := 0;
      k := 0;
      while pool != null
        invariant k <= n <= |Pools| && pool == if n < |Pools| then Pools[n] else null
        invariant prev == if k == 0 then null else Pools[k - 1]
        invariant !found && forall i :: 0 <= i < n ==> Shelves[i].size != size && (i < k <==> Shelves[i].size < size)
        decreases |Pools| - n
      {
        assert Backs(Pools[n], Shelves[n]);
        if pool.blockSize == size {
          found := true;
          break;
        }
        if pool.blockSize < size {
          assert forall i :: 0 <= i < n ==> Shelves[i].size < Shelves[n].size;
          prev := pool;
          k := n + 1;
        }
        pool := pool.next;
        n := n + 1;
      }
    }

    /** A new pool goes into the list. */
    method LinkPool(pool: MemPool, prev: MemPool?, ghost k: nat)
      requires Linked(Pools, poolHead) && k <= |Pools| && prev == (if k == 0 then null else Pools[k - 1])
      requires forall i :: 0 <= i < |Pools| ==> Pools[i] != pool
      modifies this`poolHead, this`Pools, pool`next, Pools`next
      ensures Linked(Pools, poolHead) && Pools == old(Pools)[..k] + [pool] + old(Pools)[k..]
    {
      ghost var ps := Pools;
      if prev == null {
        pool.next := poolHead;
        poolHead := pool;
      } else {
        pool.next := prev.next;
        prev.next := pool;
      }
      Pools := ps[..k] + [pool] + ps[k..];
      forall i | 0 <= i < |Pools|
        ensures Pools[i].next == if i + 1 < |Pools| then Pools[i + 1] else null
      {
        if i < k {
          assert Pools[i] == ps[i];
        } else if i > k {
          assert Pools[i] == ps[i - 1];
        }
      }
    }

    /** Add a pool unless there is one of that size: its blocks are new and free.  Every client's
        block still has a place to return to if and only if none holds a block from the heap that
        the new pool could have held. */
    method CreatePool(blockSize: nat, initial: uint32, increment: uint32) returns (rv: bool, ghost k: nat)
      requires Sane()
      modifies this`poolHead, this`Pools, this`Shelves, this`Blocks, Pools`next
      ensures var size := if blockSize < 16 then 16 else blockSize;
        && Sane() && (rv <==> forall i :: 0 <= i < |old(Shelves)| ==> old(Shelves)[i].size != size)
        && (!rv ==> Shelves == old(Shelves) && Blocks == old(Blocks))
        && (rv ==> NewShelf(old(Shelves), Shelves, k, size, initial) && old(Blocks) <= Blocks && fresh(Blocks - old(Blocks)))
        && (if rv then NewPoolAt(old(Pools), Pools, k, increment) && fresh(Pools[k]) else Pools == old(Pools))
        && (rv ==> (Valid() <==> old(Valid()) && forall b :: b in Live && !Pooled(old(Shelves), b) ==> b.size > size))
    {
      hide Consistent, Counted, Pooled, Homed, NewShelf;
      var size := if blockSize < MIN_MEM_BLOCK_SIZE then MIN_MEM_BLOCK_SIZE else blockSize;
      var found, prev;
      found, prev, k := FindSlot(size);
      rv := !found;
      if rv {
        AddPool(size, initial, increment, prev, k);
      }
    }

    method AddPool(size: nat, initial: uint32, increment: uint32, prev: MemPool?, ghost k: nat)
      requires Consistent({}) && k <= |Pools| == |Shelves| && prev == if k == 0 then null else Pools[k - 1]
      requires forall i :: 0 <= i < |Shelves| ==> Shelves[i].size != size && (i < k <==> Shelves[i].size < size)
      modifies this`poolHead, this`Pools, this`Shelves, this`Blocks, Pools`next
      ensures Consistent({}) && NewShelf(old(Shelves), Shelves, k, size, initial) && old(Blocks) <= Blocks && fresh(Blocks - old(Blocks))
      ensures NewPoolAt(old(Pools), Pools, k, increment) && fresh(Pools[k])
      ensures Homed(Shelves, Live) <==> old(Homed(Shelves, Live)) && forall b :: b in Live && !Pooled(old(Shelves), b) ==> b.size > size
    {
      hide Tidy, Linked, Placed, Homed, Pooled, MemPool.Valid, MemPool.Deployed;
      ghost var s;
      var pool;
      pool, s := NewPool(size, initial, increment, k);
      LinkNew(pool, prev, k, s);
      Blocks := Blocks + s.owned;
      Shelves := Added(Shelves, k, s);
    }

    method NewPool(size: nat, initial: uint32, increment: uint32, ghost k: nat) returns (pool: MemPool, ghost s: Shelf)
      requires Consistent({}) && k <= |Shelves|
      requires forall i :: 0 <= i < |Shelves| ==> Shelves[i].size != size && (i < k <==> Shelves[i].size < size)
      ensures fresh(pool) && fresh(s.owned) && Backs(pool, s) && s.size == size && pool.increment == increment
      ensures |s.free| == initial && s.owned == set b | b in s.free
      ensures Tidy(Added(Shelves, k, s), Live, {}, Blocks + s.owned)
      ensures Homed(Added(Shelves, k, s), Live)
        <==> Homed(Shelves, Live) && forall b :: b in Live && !Pooled(Shelves, b) ==> b.size > size
    {
      hide Tidy, Linked, Placed, Homed, Pooled, Added, MemPool.Valid, MemPool.Deployed;
      pool := new MemPool(size, initial, increment);
      pool.Contents();
      s := Shelf(size, pool.Free, pool.Owned);
      AddedTidy(Shelves, Live, Blocks, k, s);
      LiveWithin(Shelves, Live, Blocks);
      AddedHomed(Shelves, Live, k, s);
    }

    /** Link a new pool; every pool still backs its shelf. */
    method LinkNew(pool: MemPool, prev: MemPool?, ghost k: nat, ghost s: Shelf)
      requires Consistent({}) && k <= |Pools| == |Shelves| && prev == (if k == 0 then null else Pools[k - 1])
      requires Backs(pool, s) && pool !in Pools
      modifies this`poolHead, this`Pools, pool`next, Pools`next
      ensures Linked(Pools, poolHead) && |Pools| == |Shelves| + 1 && Pools == old(Pools)[..k] + [pool] + old(Pools)[k..]
      ensures forall i :: 0 <= i < |Pools| ==> Added(Shelves, k, s)[i].owned <= Blocks + s.owned && Backs(Pools[i], Added(Shelves, k, s)[i])
    {
      hide Tidy, Linked, MemPool.Valid;
      ghost var ps := Pools;
      LinkPool(pool, prev, k);
      forall i | 0 <= i < |Pools|
        ensures Added(Shelves, k, s)[i].owned <= Blocks + s.owned && Backs(Pools[i], Added(Shelves, k, s)[i])
      {
        if i < k {
          assert Pools[i] == ps[i] && old(Backs(ps[i], Shelves[i]));
        } else if i > k {
          assert Pools[i] == ps[i - 1] && old(Backs(ps[i - 1], Shelves[i - 1]));
        }
      }
    }
  }

  ghost function Added(shelves: seq<Shelf>, k: nat, s: Shelf): (r: seq<Shelf>)
    requires k <= |shelves|
    ensures |r| == |shelves| + 1
    ensures forall i :: 0 <= i < |r| ==> r[i] == if i < k then shelves[i] else if i == k then s else shelves[i - 1]
  {
    shelves[..k] + [s] + shelves[k..]
  }

  /** One more pool behind k others, with this number of blocks to grow by. */
  ghost predicate NewPoolAt(before: seq<MemPool>, pools: seq<MemPool>, k: nat, increment: nat) {
    k <= |before| && k < |pools| && pools == before[..k] + [pools[k]] + before[k..] && pools[k].increment == increment
  }

  /** One more shelf behind k others, with so many blocks, all of them free. */
  ghost predicate NewShelf(before: seq<Shelf>, shelves: seq<Shelf>, k: nat, size: nat, initial: nat) {
    && k <= |before| && |shelves| == |before| + 1 && shelves == Added(before, k, shelves[k])
    && shelves[k].size == size && |shelves[k].free| == initial && shelves[k].owned == set b | b in shelves[k].free
  }

  lemma AddedPooled(shelves: seq<Shelf>, k: nat, s: Shelf, b: MemBlock)
    requires k <= |shelves|
    ensures Pooled(Added(shelves, k, s), b) <==> Pooled(shelves, b) || b in s.owned
    ensures var r := Added(shelves, k, s);
      (forall i :: 0 <= i < |r| ==> r[i].size < b.size) <==> s.size < b.size && forall i :: 0 <= i < |shelves| ==> shelves[i].size < b.size
  {
    var r := Added(shelves, k, s);
    assert r[k] == s;
    forall i | 0 <= i < |shelves|
      ensures r[if i < k then i else i + 1] == shelves[i]
    {
    }
  }

  lemma LiveWithin(shelves: seq<Shelf>, live: set<MemBlock>, blocks: set<MemBlock>)
    requires Tidy(shelves, live, {}, blocks)
    ensures live <= blocks
  {
  }

  lemma AddedHomed(shelves: seq<Shelf>, live: set<MemBlock>, k: nat, s: Shelf)
    requires k <= |shelves| && s.owned !! live
    ensures Homed(Added(shelves, k, s), live) <==> Homed(shelves, live) && forall b :: b in live && !Pooled(shelves, b) ==> b.size > s.size
  {
    hide Pooled, Added;
    forall b | b in live
      ensures Placed(Added(shelves, k, s), b) <==> Placed(shelves, b) && (Pooled(shelves, b) || b.size > s.size)
    {
      AddedPooled(shelves, k, s, b);
    }
  }

  /** A pool with new, free blocks is put among the others. */
  lemma AddedTidy(shelves: seq<Shelf>, live: set<MemBlock>, blocks: set<MemBlock>, k: nat, s: Shelf)
    requires Tidy(shelves, live, {}, blocks) && k <= |shelves| && s.owned !! blocks && s.Deployed() == {}
    requires forall i :: 0 <= i < |shelves| ==> shelves[i].size != s.size && (i < k <==> shelves[i].size < s.size)
    requires (forall b :: b in s.free ==> b in s.owned) && forall b :: b in s.owned ==> b.size == s.size
    ensures Tidy(Added(shelves, k, s), live, {}, blocks + s.owned)
  {
    hide Pooled;
    var r := Added(shelves, k, s);
    forall b
      ensures Pooled(r, b) <==> Pooled(shelves, b) || b in s.owned
    {
      AddedPooled(shelves, k, s, b);
    }
    assert Sound(s, live, {}, blocks + s.owned);
    forall i | 0 <= i < |r|
      ensures Sound(r[i], live, {}, blocks + s.owned)
    {
      if i < k {
        assert Sound(shelves[i], live, {}, blocks);
      } else if i > k {
        assert Sound(shelves[i - 1], live, {}, blocks);
      }
    }
    assert Ascending(r);
    forall i, j | 0 <= i < j < |r|
      ensures r[i].owned !! r[j].owned
    {
      assert i != k ==> r[i].owned <= blocks;
      assert j != k ==> r[j].owned <= blocks;
    }
  }

  lemma ReleasedTidy(shelves: seq<Shelf>, live: set<MemBlock>, blocks: set<MemBlock>, mem: MemBlock)
    requires Tidy(shelves, live, {}, blocks) && mem in live
    ensures Tidy(shelves, live - {mem}, {mem}, blocks) && forall i :: 0 <= i < |shelves| ==> mem !in shelves[i].free
  {
    hide Pooled;
    assert forall i :: 0 <= i < |shelves| ==> Sound(shelves[i], live, {}, blocks);
  }

  lemma ReturnedTidy(shelves: seq<Shelf>, live: set<MemBlock>, blocks: set<MemBlock>, k: nat, mem: MemBlock)
    requires Tidy(shelves, live, {mem}, blocks) && k < |shelves| && mem in shelves[k].owned && mem !in live
    ensures Tidy(shelves[k := Refilled(shelves[k], mem)], live, {}, blocks)
    ensures mem !in shelves[k].free && shelves[k].size == mem.size
  {
    hide Pooled;
    var s := Refilled(shelves[k], mem);
    assert Sound(shelves[k], live, {mem}, blocks);
    assert Sound(s, live, {}, blocks);
    forall b
      ensures Pooled(shelves, b) <==> Pooled(shelves[k := s], b)
      ensures Placed(shelves, b) <==> Placed(shelves[k := s], b)
    {
      PooledStill(shelves, b, k, s);
    }
    forall i | 0 <= i < |shelves| && i != k
      ensures Sound(shelves[i], live, {}, blocks)
    {
      assert Sound(shelves[i], live, {mem}, blocks);
      assert mem !in shelves[i].owned;
    }
    PooledAt(shelves, mem, k);
  }

  lemma PooledAt(shelves: seq<Shelf>, b: MemBlock, k: nat)
    requires k < |shelves| && b in shelves[k].owned
    ensures Pooled(shelves, b)
  {
  }

  lemma DeletedTidy(shelves: seq<Shelf>, live: set<MemBlock>, blocks: set<MemBlock>, mem: MemBlock)
    requires Tidy(shelves, live, {mem}, blocks) && !Pooled(shelves, mem) && mem !in live
    ensures Tidy(shelves, live, {}, blocks - {mem})
    ensures forall i :: 0 <= i < |shelves| ==> shelves[i].owned <= blocks - {mem}
  {
  }

  /** The first pool with blocks of at least this size */
  ghost predicate FirstFit(shelves: seq<Shelf>, k: nat, size: nat)
    requires k < |shelves|
  {
    shelves[k].size >= size && forall i :: 0 <= i < k ==> shelves[i].size < size
  }

  /** The first pool that could hold a client's block is the one that it came from, if it came from
      a pool. */
  lemma HomePool(shelves: seq<Shelf>, live: set<MemBlock>, blocks: set<MemBlock>, mem: MemBlock)
    requires Tidy(shelves, live, {}, blocks) && mem in live
    ensures forall k :: 0 <= k < |shelves| && FirstFit(shelves, k, mem.size) ==>
      (mem in shelves[k].owned <==> Pooled(shelves, mem)) && (mem in shelves[k].owned <==> Placed(shelves, mem))
    ensures (forall i :: 0 <= i < |shelves| ==> shelves[i].size < mem.size) ==> !Pooled(shelves, mem) && Placed(shelves, mem)
  {
  }

  lemma OneSize(shelves: seq<Shelf>, live: set<MemBlock>, onTheWay: set<MemBlock>, blocks: set<MemBlock>, k: nat)
    requires Tidy(shelves, live, onTheWay, blocks) && k < |shelves|
    ensures forall b :: b in shelves[k].owned ==> b.size == shelves[k].size
    ensures forall b :: b in shelves[k].free ==> b in shelves[k].owned && b !in onTheWay
  {
    assert Sound(shelves[k], live, onTheWay, blocks);
  }

  lemma Outside(shelves: seq<Shelf>, mem: MemBlock)
    requires !Pooled(shelves, mem)
    ensures forall i :: 0 <= i < |shelves| ==> mem !in shelves[i].owned
  {
  }

  lemma TakenHomed(before: seq<Shelf>, shelves: seq<Shelf>, live: set<MemBlock>, k: nat, mem: MemBlock, increment: nat)
    requires Taken(before, shelves, k, mem, increment)
    ensures Placed(shelves, mem) && |shelves| == |before| > k && shelves[k].size == before[k].size && (Homed(before, live) ==> Homed(shelves, live))
  {
    hide Homed, Pooled, Shelf.Deployed;
    PlacedIn(shelves, mem, k);
    HomedGrows(before, live, k, shelves[k]);
  }

  lemma HomedGrows(shelves: seq<Shelf>, live: set<MemBlock>, k: nat, s: Shelf)
    requires k < |shelves| && s.size == shelves[k].size && shelves[k].owned <= s.owned
    ensures Homed(shelves, live) ==> Homed(shelves[k := s], live)
  {
    forall b | Placed(shelves, b)
      ensures Placed(shelves[k := s], b)
    {
      if Pooled(shelves, b) {
        var i :| 0 <= i < |shelves| && b in shelves[i].owned;
        assert b in shelves[k := s][i].owned;
      }
    }
  }

  lemma WrapMinus(a: int, b: int)
    ensures Wrap(a - Wrap(b)) == Wrap(a - b)
  {
    var q := b / 0x1_0000_0000;
    assert b == q * 0x1_0000_0000 + Wrap(b);
    Multiples(-q, a - Wrap(b));
  }

  lemma TidyApart(shelves: seq<Shelf>, live: set<MemBlock>, onTheWay: set<MemBlock>, blocks: set<MemBlock>, i: nat, k: nat)
    requires Tidy(shelves, live, onTheWay, blocks) && i < |shelves| && k < |shelves| && i != k
    ensures shelves[i].owned !! shelves[k].owned && shelves[i].owned <= blocks
  {
  }

  /** A pool hands out a block that was free or is new. */
  lemma TakenTidy(shelves: seq<Shelf>, live: set<MemBlock>, blocks: set<MemBlock>, k: nat, s: Shelf, mem: MemBlock)
    requires Tidy(shelves, live, {}, blocks) && k < |shelves| && s.size == shelves[k].size
    requires shelves[k].owned <= s.owned && (forall b :: b in s.owned ==> b in shelves[k].owned || b !in blocks)
    requires (forall b :: b in s.free ==> b in s.owned) && (forall b :: b in s.owned ==> b.size == s.size)
    requires s.Deployed() == shelves[k].Deployed() + {mem} && mem in s.owned && mem !in shelves[k].Deployed()
    ensures Tidy(shelves[k := s], live, {mem}, blocks + s.owned) && mem !in live && Placed(shelves[k := s], mem)
  {
    hide Placed;
    var shelves' := shelves[k := s];
    assert Sound(shelves[k], live, {}, blocks);
    PlacedIn(shelves', mem, k);
    assert mem !in live by {
      assert mem in shelves[k].owned ==> mem in shelves[k].free;
    }
    assert Sound(s, live, {mem}, blocks + s.owned) by {
      forall b | b in s.free
        ensures b !in live
      {
        assert b !in s.Deployed();
        assert b in shelves[k].owned ==> b in shelves[k].free;
      }
    }
    forall b | b in blocks + s.owned
      ensures b in live || Pooled(shelves', b)
    {
      if b in blocks {
        PooledStill(shelves, b, k, s);
      } else {
        assert b in shelves'[k].owned;
      }
    }
  }

  lemma PlacedIn(shelves: seq<Shelf>, b: MemBlock, i: nat)
    requires i < |shelves| && b in shelves[i].owned
    ensures Placed(shelves, b)
  {
  }

  lemma PooledStill(shelves: seq<Shelf>, b: MemBlock, k: nat, s: Shelf)
    requires k < |shelves| && s.size == shelves[k].size
    requires b in s.owned <==> b in shelves[k].owned
    ensures Pooled(shelves, b) <==> Pooled(shelves[k := s], b)
    ensures Placed(shelves, b) <==> Placed(shelves[k := s], b)
  {
    var shelves' := shelves[k := s];
    assert forall i :: 0 <= i < |shelves| ==> (b in shelves[i].owned <==> b in shelves'[i].owned);
    assert forall i :: 0 <= i < |shelves| ==> shelves[i].size == shelves'[i].size;
  }

  lemma MadeTidy(shelves: seq<Shelf>, live: set<MemBlock>, blocks: set<MemBlock>, mem: MemBlock)
    requires Tidy(shelves, live, {}, blocks) && mem !in blocks && forall i :: 0 <= i < |shelves| ==> shelves[i].size < mem.size
    ensures Tidy(shelves, live, {mem}, blocks + {mem}) && Placed(shelves, mem)
  {
  }

  lemma DeployedTidy(shelves: seq<Shelf>, live: set<MemBlock>, blocks: set<MemBlock>, mem: MemBlock)
    requires Tidy(shelves, live, {mem}, blocks) && mem in blocks && mem !in live && Placed(shelves, mem)
    ensures Tidy(shelves, live + {mem}, {}, blocks) && forall i :: 0 <= i < |shelves| ==> mem !in shelves[i].free
  {
  }

  /** What a pool has to give: from a new manager with one pool, and any requests that fit its blocks,
      exactly the first `initial` are served when the pool may not grow, and all when it may. */
  method PoolServes(blockSize: nat, initial: uint32, increment: uint32, sizes: seq<nat>) returns (manager: MemManager, served: seq<bool>)
    requires forall i :: 0 <= i < |sizes| ==> sizes[i] <= blockSize
    ensures |served| == |sizes| && forall i :: 0 <= i < |served| ==> (served[i] <==> i < initial || increment > 0)
    ensures manager.Valid() && |manager.Live| == if increment > 0 || |sizes| < initial then |sizes| else initial
  {
    hide MemManager.Consistent, MemManager.Counted, MemManager.Sane, MemManager.Valid, Stock;
    manager := NewStock(blockSize, initial, increment);
    served := [];
    while |served| < |sizes|
      invariant |served| <= |sizes| && manager.Valid()
      invariant fresh(manager) && fresh(manager.Blocks) && forall i :: 0 <= i < |manager.Pools| ==> fresh(manager.Pools[i])
      invariant Stock(manager, blockSize, increment, if |served| < initial then initial - |served| else 0)
      invariant |manager.Live| == if increment > 0 || |served| < initial then |served| else initial
      invariant forall i :: 0 <= i < |served| ==> (served[i] <==> i < initial || increment > 0)
    {
      var got := ServeOne(manager, sizes[|served|], blockSize, increment, if |served| < initial then initial - |served| else 0);
      served := served + [got];
    }
  }

  method NewStock(blockSize: nat, initial: uint32, increment: uint32) returns (manager: MemManager)
    ensures manager.Valid() && fresh(manager) && fresh(manager.Blocks) && manager.Live == {}
    ensures Stock(manager, blockSize, increment, initial) && forall i :: 0 <= i < |manager.Pools| ==> fresh(manager.Pools[i])
  {
    hide MemManager.Consistent, MemManager.Counted;
    manager := new MemManager();
    ghost var none := manager.Shelves;
    var created;
    ghost var k;
    created, k := manager.CreatePool(blockSize, initial, increment);
  }

  method ServeOne(manager: MemManager, size: nat, blockSize: nat, increment: nat, free: nat) returns (got: bool)
    requires manager.Valid() && Stock(manager, blockSize, increment, free) && size <= blockSize
    modifies manager, manager.Pools, manager.Blocks
    ensures manager.Valid() && manager.Pools == old(manager.Pools)
    ensures Stock(manager, blockSize, increment, if free > 0 then free - 1 else 0) && (got <==> free > 0 || increment > 0)
    ensures |manager.Live| == |old(manager.Live)| + if got then 1 else 0
    ensures forall b :: b in manager.Blocks ==> b in old(manager.Blocks) || fresh(b)
  {
    hide MemManager.Consistent, MemManager.Counted, Homed, Pooled, Shelf.Deployed;
    OnlyPool(manager, size, blockSize, increment, free);
    var mem;
    ghost var k;
    got, mem, k := manager.MemBlockGet(size);
  }

  lemma OnlyPool(manager: MemManager, size: nat, blockSize: nat, increment: nat, free: nat)
    requires manager.Sane() && Stock(manager, blockSize, increment, free) && size <= blockSize
    ensures manager.CanServe(size) <==> manager.Shelves[0].free != [] || increment > 0
  {
    hide MemPool.Valid, Tidy, MemManager.Linked;
    assert MemManager.Backs(manager.Pools[0], manager.Shelves[0]);
    assert manager.Pools[0].blockSize >= size;
  }

  /** The manager's only pool, with so many free blocks, or with any number of them if it may grow */
  ghost predicate Stock(manager: MemManager, blockSize: nat, increment: nat, free: nat)
    reads manager, manager.Pools
  {
    && |manager.Pools| == |manager.Shelves| == 1 && manager.Shelves[0].size >= blockSize
    && manager.Pools[0].increment == increment && (increment == 0 ==> |manager.Shelves[0].free| == free)
  }

  /** How a block loses its place to return to: it comes from the heap, and then a pool is created
      that could have held it. */
  method StrayBlock(size: nat, poolSize: nat) returns (manager: MemManager, mem: MemBlock)
    requires size <= poolSize && MIN_MEM_BLOCK_SIZE <= poolSize
    ensures manager.Sane() && !manager.Valid() && mem in manager.Live && mem in manager.Blocks && mem.size == size
    ensures fresh(manager) && |manager.Shelves| == 1 && manager.Shelves[0].size == poolSize && !Placed(manager.Shelves, mem)
    ensures fresh(manager.Blocks) && forall i :: 0 <= i < |manager.Pools| ==> fresh(manager.Pools[i])
  {
    hide MemManager.Consistent, MemManager.Counted, Shelf.Deployed;
    manager := new MemManager();
    var got, m, k := manager.MemBlockGet(size);
    mem := m;
    ghost var before := manager.Shelves;
    var created;
    created, k := manager.CreatePool(poolSize, 1, 1);
    OnlyShelf(manager, before, k, poolSize, mem);
    assert forall i :: 0 <= i < |manager.Pools| ==> manager.Pools[i] in manager.Pools;
  }

  lemma OnlyShelf(manager: MemManager, before: seq<Shelf>, k: nat, poolSize: nat, mem: MemBlock)
    requires before == [] && manager.Live == {mem} && mem.size <= poolSize && manager.Sane()
    requires NewShelf(before, manager.Shelves, k, poolSize, 1)
    requires manager.Valid() <==> forall b :: b in manager.Live && !Pooled(before, b) ==> b.size > poolSize
    ensures !manager.Valid() && |manager.Shelves| == 1 && manager.Shelves[0].size == poolSize && !Placed(manager.Shelves, mem)
  {
    assert !Pooled(before, mem);
  }

  /** When it is returned, a pool of the same size lists it as its own, and a larger one refuses it
      when its guard is already gone: it is neither deployed nor free, and no later put can change
      that. */
  method LatePool(size: nat, poolSize: nat) returns (manager: MemManager, mem: MemBlock, rv: bool)
    requires size <= poolSize && MIN_MEM_BLOCK_SIZE <= poolSize
    ensures mem !in manager.Live && !mem.guard && |manager.Pools| == 1 && (rv <==> size == poolSize)
    ensures mem !in manager.Pools[0].Owned
    ensures if rv then mem in manager.Pools[0].Free && !manager.Pools[0].Valid() else mem in manager.Blocks && mem !in manager.Pools[0].Free
  {
    hide MemManager.Sane, MemManager.Valid, MemManager.Returned, Placed;
    ghost var k;
    manager, mem := StrayBlock(size, poolSize);
    rv, k := manager.MemBlockPut(mem);
    StrayPut(manager, mem, rv, k, manager.Shelves);
  }

  lemma StrayPut(manager: MemManager, mem: MemBlock, rv: bool, k: nat, shelves: seq<Shelf>)
    requires manager.Misplaced(rv, mem, k, shelves) && |shelves| == 1
    ensures |manager.Pools| == 1 && (rv <==> mem.size == shelves[0].size) && mem !in manager.Pools[0].Owned
    ensures if rv then mem in manager.Pools[0].Free && !manager.Pools[0].Valid() else mem !in manager.Pools[0].Free
  {
    assert k == 0;
    if !rv {
      assert MemManager.Backs(manager.Pools[0], shelves[0]);
      manager.Pools[0].Contents();
    }
  }
}

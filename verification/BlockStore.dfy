/** The two block providers under StreamBase: the vector of pooled blocks of cpStreamBuf.cpp and
    the linked segments of cpIpcStreamSeg.cpp.  The source selects between them by virtual
    methods; here the constant `provider` does. */
module BlockStore {
  import opened Bytes
  import opened Flat
  import opened Segment
  import opened Fragment

  const MIN_STREAM_BLOCK_SIZE := 256

  datatype Provider = PooledBlocks | SegmentChain

  class BlockStore {
    const provider: Provider
    var vecBlocks: seq<seq<byte>>
    var head: IpcSegment?
    var tail: IpcSegment?
    var blockCount: nat
    var template: SegBuffer

    /** The segments of the chain and their buffers, in order. */
    ghost var Segs: seq<IpcSegment>
    ghost var Bufs: seq<SegBuffer>
    /** The header of the message that is being filled. */
    ghost var Origin: HeaderImage

    ghost predicate Valid()
      reads this, Segs
    {
      && Chained(Segs, Bufs)
      && head == (if Segs == [] then null else Segs[0])
      && tail == (if Segs == [] then null else Segs[|Segs| - 1])
      && blockCount == |Segs|
      && (provider.SegmentChain? ==> vecBlocks == [])
      && (provider.PooledBlocks? ==> Segs == [] && forall i :: 0 <= i < |vecBlocks| ==> vecBlocks[i] != [])
    }

    /** The contents of the blocks, one after the other. */
    ghost function Contents(): (bs: seq<seq<byte>>)
      reads this
    {
      match provider
      case PooledBlocks => vecBlocks
      case SegmentChain => Datas(Bufs)
    }

    /** The chain is being filled with a message whose header is `Origin`. */
    ghost predicate Headed()
      reads this
    {
      provider.SegmentChain? && Filling(Bufs, Origin) && (Bufs == [] ==> Origin == Segment.Header(template))
    }

    constructor (provider: Provider)
      ensures provider.SegmentChain? ==> Headed()
      ensures Valid() && this.provider == provider && Segs == [] && Contents() == []
    {
      this.provider := provider;
      vecBlocks := [];
      head, tail, blockCount := null, null, 0;
      Segs, Bufs := [], [];
      Origin := Segment.Header(Cleared());
      template := Cleared();
    }

    /** `Template`: the header that the first segment will be given. */
    method TemplateSet(b: SegBuffer)
      requires Valid()
      modifies this`template, this`Origin
      ensures Valid() && Contents() == old(Contents())
      ensures Segment.Header(template) == Segment.Header(b)
      ensures provider.SegmentChain? && Bufs == [] ==> Headed() && Origin == Segment.Header(b)
    {
      AssignedImage(template, b);
      template := Assigned(template, b);
      if Bufs == [] {
        Origin := Segment.Header(b);
      }
    }

    // -----------------------------------------------------------------------
    // The virtual methods

    /** True when the store holds some memory. */
    predicate MemoryChk()
      requires Valid()
      reads this, Segs
      ensures MemoryChk() <==> Contents() != []
    {
      match provider
      case PooledBlocks => |vecBlocks| > 0
      case SegmentChain => head != null
    }

    predicate ValidBlock(block: nat)
      requires Valid()
      reads this, Segs
      ensures ValidBlock(block) <==> block < |Contents()|
    {
      match provider
      case PooledBlocks => block < |vecBlocks|
      case SegmentChain => block < blockCount
    }

    function BlockSize(block: nat): (n: nat)
      requires Valid()
      reads this, Segs
      ensures block < |Contents()| ==> n == |Contents()[block]| > 0
    {
      match provider
      case PooledBlocks => if block < |vecBlocks| then |vecBlocks[block]| else 0
      case SegmentChain => CAPACITY
    }

    /** `BlockMemPtr` in a chain: the segment is found by walking the links. */
    method SegmentAt(block: nat) returns (seg: IpcSegment?)
      requires Valid() && provider.SegmentChain?
      ensures seg == if block < |Segs| then Segs[block] else null
    {
      seg := head;
      var left := block;
      ghost var k := 0;
      while left > 0 && seg != null
        invariant left == block - k && k <= |Segs|
        invariant seg == if k < |Segs| then Segs[k] else null
      {
        seg := seg.next;
        left := left - 1;
        k := k + 1;
      }
      if left > 0 {
        seg := null;
      }
    }

    /** `memcpy` out of block memory */
    method CopyOut(block: nat, at: nat, n: nat) returns (v: seq<byte>)
      requires Valid() && block < |Contents()| && at + n <= |Contents()[block]|
      ensures v == Contents()[block][at..at + n]
    {
      if provider.PooledBlocks? {
        v := vecBlocks[block][at..at + n];
      } else {
        var seg := SegmentAt(block);
        v := Data(seg.buffer)[at..at + n];
      }
    }

    /** `memcpy` into block memory */
    method CopyIn(block: nat, at: nat, v: seq<byte>)
      requires Valid() && block < |Contents()| && at + |v| <= |Contents()[block]|
      modifies this`vecBlocks, this`Bufs, Segs`buffer
      ensures Valid()
      ensures var bs := old(Contents()); Contents() == bs[block := Overlay(bs[block], at, v)]
      ensures old(Headed()) ==> Headed()
    {
      hide PutData, Overlay;
      if provider.PooledBlocks? {
        vecBlocks := vecBlocks[block := Overlay(vecBlocks[block], at, v)];
      } else {
        var seg := SegmentAt(block);
        PutDataOnly(seg.buffer, at, v);
        SetBuffer(seg, block, PutData(seg.buffer, at, v));
      }
    }

    /** `BlockMemPtr`, for reading a whole block */
    method BlockMem(block: nat) returns (p: Pointer)
      requires Valid()
      ensures p == if block < |Contents()| then To(Contents()[block]) else Null
    {
      if provider.PooledBlocks? {
        p := if block < |vecBlocks| then To(vecBlocks[block]) else Null;
      } else {
        var seg := SegmentAt(block);
        p := if seg != null then To(Data(seg.buffer)) else Null;
      }
    }

    /** Release all blocks. */
    method MemoryFree()
      requires Valid()
      modifies this
      ensures Valid() && Contents() == [] && Segs == []
      ensures template == old(template) && (provider.SegmentChain? ==> Headed() && Origin == Segment.Header(template))
    {
      while |vecBlocks| > 0
        invariant Valid() && template == old(template)
      {
        vecBlocks := vecBlocks[..|vecBlocks| - 1];
      }
      blockCount := 0;
      head, tail := null, null;
      Segs, Bufs := [], [];
      Origin := Segment.Header(template);
    }

    // -----------------------------------------------------------------------
    // Handing a message over

    /** `Finalize`: the last segment gets its actual length, and the option that tells the receiver
        how many segments to expect. */
    method Finalize(lastPos: nat)
      requires Valid() && provider.SegmentChain? && lastPos <= CAPACITY
      modifies this`Bufs, Segs`buffer
      ensures Valid() && Bufs == Finalized(old(Bufs), lastPos)
    {
      hide PutDataLen, WithLen, PutOptions, Options, Chained;
      ChainCount(Segs, Bufs);
      if tail != null {
        ghost var n := |Segs|;
        ChainEnds(Segs, Bufs);
        SetBuffer(tail, n - 1, WithLen(PutDataLen(tail.buffer, lastPos), lastPos + SEG_DATA));
        if head != tail {
          ChainEnds(Segs, Bufs);
          SetBuffer(tail, n - 1, PutOptions(tail.buffer, Options(tail.buffer.mem) | OPT_INITIAL));
        }
      }
    }

    /** The part of `SegmentInject` that adopts a list of segments and finds its end. */
    method Adopt(seg: IpcSegment?, ghost segs: seq<IpcSegment>, ghost bufs: seq<SegBuffer>) returns (lastBlock: nat, lastPos: nat)
      requires Valid() && provider.SegmentChain? && Contents() == []
      requires Chained(segs, bufs) && seg == if segs == [] then null else segs[0]
      modifies this
      ensures Valid() && Segs == segs && Bufs == bufs && template == old(template)
      ensures segs == [] ==> lastBlock == lastPos == 0
      ensures segs != [] ==> lastBlock + 1 == |segs| && lastPos == DataLen(bufs[|bufs| - 1].mem)
    {
      lastBlock, lastPos := 0, 0;
      Segs, Bufs := segs, bufs;
      head, tail := null, null;
      if seg != null {
        head := seg;
        blockCount := blockCount + 1;
        tail := head;
        var ptr := head.next;
        while ptr != null
          invariant lastBlock + 1 == blockCount <= |segs| && tail == segs[lastBlock]
          invariant Segs == segs && Bufs == bufs && head == seg && template == old(template) && vecBlocks == []
          invariant ptr == if blockCount < |segs| then segs[blockCount] else null
          decreases |segs| - lastBlock
        {
          lastBlock := lastBlock + 1;
          blockCount := blockCount + 1;
          tail := ptr;
          ptr := ptr.next;
        }
        lastPos := DataLen(tail.buffer.mem);
      }
    }

    // -----------------------------------------------------------------------
    // Adding memory

    method MemoryAdd(size: nat) returns (rv: bool)
      requires Valid()
      modifies this, Segs
      ensures Valid() && old(Segs) <= Segs && forall i :: |old(Segs)| <= i < |Segs| ==> fresh(Segs[i])
      ensures rv <==> provider.PooledBlocks? || size > 0
      ensures old(Contents()) <= Contents()
      ensures |Contents()| == |old(Contents())| + if provider.SegmentChain? then FragCount(size) else 1
      ensures Origin == old(Origin) && (old(Headed()) ==> Headed())
    {
      hide Chained, Filling, Extended;
      if provider.PooledBlocks? {
        PoolBlockAdd(size);
        rv := true;
      } else {
        var i := size / CAPACITY;
        if size % CAPACITY > 0 {
          i := i + 1;
        }
        rv := SegmentsAdd(i);
      }
    }

    /** The loop in `MemoryAdd` of a chain. */
    method SegmentsAdd(n: nat) returns (rv: bool)
      requires Valid() && provider.SegmentChain?
      modifies this, Segs
      ensures Valid() && old(Segs) <= Segs && forall i :: |old(Segs)| <= i < |Segs| ==> fresh(Segs[i])
      ensures (rv <==> n > 0) && old(Contents()) <= Contents() && |Contents()| == |old(Contents())| + n
      ensures Origin == old(Origin) && (old(Headed()) ==> Headed())
    {
      hide Chained, Filling, Extended;
      rv := false;
      var i := n;
      while i > 0
        invariant Valid() && 0 <= i <= n
        invariant old(Segs) <= Segs && forall i :: |old(Segs)| <= i < |Segs| ==> fresh(Segs[i])
        invariant |Bufs| == |old(Bufs)| + (n - i) && Datas(old(Bufs)) <= Datas(Bufs)
        invariant Origin == old(Origin) && (old(Headed()) ==> Headed())
        invariant rv <==> i < n
      {
        ExtendedDatas(Bufs, template);
        ExtendedFilling(Bufs, template, Origin);
        SegmentAdd();
        rv := true;
        i := i - 1;
      }
    }

    /** The pool may hand out a larger block than was asked for. */
    method PoolBlockAdd(size: nat)
      requires Valid() && provider.PooledBlocks?
      modifies this`vecBlocks
      ensures Valid() && old(Contents()) <= Contents() && |Contents()| == |old(Contents())| + 1
      ensures var n := |Contents()[|old(Contents())|]|; n >= size && n >= 256
    {
      var blkSize := MIN_STREAM_BLOCK_SIZE;
      if size > blkSize {
        blkSize := size;
      }
      ghost var zeros: seq<byte> := seq(blkSize, _ => 0);
      assert |zeros| >= blkSize;
      var mem: seq<byte> :| |mem| >= blkSize;
      vecBlocks := vecBlocks + [mem];
    }

    /** One pass of the loop in `MemoryAdd`. */
    method SegmentAdd()
      requires Valid() && provider.SegmentChain?
      modifies this, Segs
      ensures Valid() && old(Segs) <= Segs && forall i :: |old(Segs)| <= i < |Segs| ==> fresh(Segs[i])
      ensures Bufs == Extended(old(Bufs), template) && template == old(template)
      ensures Origin == old(Origin)
    {
      if head == null {
        FirstSegmentAdd();
      } else {
        NextSegmentAdd();
      }
    }

    /** The first segment takes its header from the template. */
    method FirstSegmentAdd()
      requires Valid() && provider.SegmentChain? && head == null
      modifies this
      ensures Valid() && |Segs| == 1 && fresh(Segs[0])
      ensures Bufs == Extended([], template) && template == old(template)
      ensures Origin == old(Origin)
    {
      hide Put, Assigned, Segment.Header, Cleared;
      var ptr := new IpcSegment();
      blockCount := blockCount + 1;
      head := ptr;
      tail := ptr;
      ptr.buffer := Assigned(ptr.buffer, template);
      ptr.buffer := Put(ptr.buffer, SEG_FRAGNUM, Be16(Truncate16(blockCount)));
      Segs := [ptr];
      Bufs := [ptr.buffer];
    }

    /** Every further segment takes its header from the one before it, which is now full. */
    method NextSegmentAdd()
      requires Valid() && provider.SegmentChain? && head != null
      modifies this, Segs
      ensures Valid() && |Segs| == |old(Segs)| + 1 && old(Segs) <= Segs && fresh(Segs[|Segs| - 1])
      ensures Bufs == Extended(old(Bufs), template) && template == old(template)
      ensures Origin == old(Origin)
    {
      hide Put, PutOptions, PutDataLen, WithLen, Assigned, Data, Options, Cleared, Chained;
      var ptr := new IpcSegment();
      blockCount := blockCount + 1;
      ghost var n := |Segs|;
      ChainEnds(Segs, Bufs);
      if head == tail {
        SetBuffer(head, 0, PutOptions(head.buffer, Options(head.buffer.mem) | OPT_MULTIPART));
      }
      ChainEnds(Segs, Bufs);
      ptr.buffer := Put(Assigned(ptr.buffer, tail.buffer), SEG_FRAGNUM, Be16(Truncate16(blockCount)));
      SetBuffer(tail, n - 1, WithLen(PutDataLen(tail.buffer, CAPACITY), CAPACITY + SEG_DATA));
      Link(ptr);
    }

    /** One segment of the chain gets a new buffer content. */
    method SetBuffer(seg: IpcSegment, ghost k: nat, b: SegBuffer)
      requires Chained(Segs, Bufs) && k < |Segs| && Segs[k] == seg
      modifies seg`buffer, this`Bufs
      ensures Chained(Segs, Bufs) && Bufs == old(Bufs)[k := b]
    {
      seg.buffer := b;
      Bufs := Bufs[k := b];
    }

    /** A new segment is linked behind the last one. */
    method Link(ptr: IpcSegment)
      requires Chained(Segs, Bufs) && Segs != [] && ptr !in Segs && ptr.next == null
      requires tail == Segs[|Segs| - 1]
      modifies tail`next, this`tail, this`Segs, this`Bufs
      ensures Chained(Segs, Bufs) && Segs == old(Segs) + [ptr] && Bufs == old(Bufs) + [ptr.buffer] && tail == ptr
    {
      tail.next := ptr;
      tail := ptr;
      Segs := Segs + [ptr];
      Bufs := Bufs + [ptr.buffer];
    }
  }

  /** The links lead through exactly the segments listed, each once, and these are their buffers. */
  ghost predicate Chained(segs: seq<IpcSegment>, bufs: seq<SegBuffer>)
    reads segs
  {
    && |bufs| == |segs|
    && (forall i {:trigger segs[i].buffer} {:trigger bufs[i]} :: 0 <= i < |segs| ==> segs[i].buffer == bufs[i])
    && (forall i {:trigger segs[i].next} :: 0 <= i < |segs| ==> segs[i].next == if i + 1 < |segs| then segs[i + 1] else null)
    && (forall i, j :: 0 <= i < j < |segs| ==> segs[i] != segs[j])
  }

  lemma ChainCount(segs: seq<IpcSegment>, bufs: seq<SegBuffer>)
    requires Chained(segs, bufs)
    ensures |bufs| == |segs|
  {
  }

  lemma ChainEnds(segs: seq<IpcSegment>, bufs: seq<SegBuffer>)
    requires Chained(segs, bufs) && segs != []
    ensures |bufs| == |segs| && segs[0].buffer == bufs[0] && segs[|segs| - 1].buffer == bufs[|segs| - 1]
    ensures |segs| > 1 ==> segs[0] != segs[|segs| - 1]
  {
  }

  function Datas(bufs: seq<SegBuffer>): (bs: seq<seq<byte>>)
    ensures |bs| == |bufs|
    ensures forall i :: 0 <= i < |bs| ==> bs[i] == Data(bufs[i])
  {
    seq(|bufs|, i requires 0 <= i < |bufs| => Data(bufs[i]))
  }

  /** The buffers after one more segment was added. */
  function Extended(bufs: seq<SegBuffer>, template: SegBuffer): (r: seq<SegBuffer>)
    ensures |r| == |bufs| + 1
  {
    var n := |bufs|;
    if n == 0 then [Put(Assigned(Cleared(), template), SEG_FRAGNUM, Be16(1))]
    else
      var last := if n == 1 then PutOptions(bufs[0], Options(bufs[0].mem) | OPT_MULTIPART) else bufs[n - 1];
      var full := WithLen(PutDataLen(last, CAPACITY), CAPACITY + SEG_DATA);
      bufs[..n - 1] + [full, Put(Assigned(Cleared(), last), SEG_FRAGNUM, Be16(Truncate16(n + 1)))]
  }

  /** The headers are those of a message that is being filled: all segments but the last are
      marked full, and the last still has the data length of the template. */
  ghost predicate Filling(bufs: seq<SegBuffer>, origin: HeaderImage) {
    forall i :: 0 <= i < |bufs| ==> HeaderAt(bufs[i], origin, i, |bufs|)
  }

  /** The buffers after `Finalize`. */
  function Finalized(bufs: seq<SegBuffer>, lastPos: nat): (r: seq<SegBuffer>)
    requires lastPos <= CAPACITY
    ensures |r| == |bufs|
  {
    if bufs == [] then []
    else
      var n := |bufs|;
      var b := WithLen(PutDataLen(bufs[n - 1], lastPos), lastPos + SEG_DATA);
      bufs[n - 1 := if n > 1 then PutOptions(b, Options(b.mem) | OPT_INITIAL) else b]
  }

  function Images(bufs: seq<SegBuffer>): (ws: seq<Wire>)
    ensures |ws| == |bufs|
  {
    seq(|bufs|, i requires 0 <= i < |bufs| => Image(bufs[i]))
  }

  lemma ExtendedDatas(bufs: seq<SegBuffer>, template: SegBuffer)
    ensures Datas(bufs) <= Datas(Extended(bufs, template))
  {
    hide Put, Assigned, WithLen, PutDataLen, Data;
    var n := |bufs|;
    if n > 0 {
      var r := Extended(bufs, template);
      var last := if n == 1 then PutOptions(bufs[0], Options(bufs[0].mem) | OPT_MULTIPART) else bufs[n - 1];
      FilledBuffer(last);
      if n == 1 {
        PutHeader(bufs[0], SEG_OPTIONS, [OptionsSet(bufs[0].mem[SEG_OPTIONS], Options(bufs[0].mem) | OPT_MULTIPART)]);
      }
      assert Data(r[n - 1]) == Data(bufs[n - 1]);
    }
  }

  lemma FilledBuffer(b: SegBuffer)
    ensures var r := WithLen(PutDataLen(b, CAPACITY), CAPACITY + SEG_DATA);
            && Header(r) == Overlay(Header(b), SEG_DATALEN, Be16(CAPACITY)) && Data(r) == Data(b) && r.len == SEG_MAXLEN
  {
    PutHeader(b, SEG_DATALEN, Be16(CAPACITY));
  }

  /** Adding a segment keeps the headers those of a message that is being filled. */
  lemma ExtendedFilling(bufs: seq<SegBuffer>, template: SegBuffer, origin: HeaderImage)
    ensures bufs == [] ==> Filling(Extended(bufs, template), Header(template))
    ensures bufs != [] && Filling(bufs, origin) ==> Filling(Extended(bufs, template), origin)
  {
    hide HeaderAt;
    var n := |bufs|;
    if n == 0 {
      FirstHeader(template);
    } else if Filling(bufs, origin) {
      var last := if n == 1 then PutOptions(bufs[0], Options(bufs[0].mem) | OPT_MULTIPART) else bufs[n - 1];
      if n == 1 {
        MultipartHeader(bufs[0], origin);
      } else {
        LastHeader(bufs[n - 1], origin, n);
      }
      NextHeaders(last, origin, n);
      forall i | 0 <= i < n - 1
        ensures HeaderAt(bufs[i], origin, i, n + 1)
      {
        FullHeader(bufs[i], origin, i, n);
      }
    }
  }

  /** The last segment before another one is added, its options already those of a longer message. */
  ghost predicate LastReady(b: SegBuffer, origin: HeaderImage, n: nat) {
    Header(b) == Stamp(origin, FragOptions(origin[SEG_OPTIONS], n + 1), Truncate16(n), DataLen(origin))
  }

  lemma FirstHeader(template: SegBuffer)
    ensures HeaderAt(Put(Assigned(Cleared(), template), SEG_FRAGNUM, Be16(1)), Header(template), 0, 1)
  {
    hide Put, Assigned;
    var h := Header(template);
    AssignedImage(Cleared(), template);
    PutHeader(Assigned(Cleared(), template), SEG_FRAGNUM, Be16(1));
    StampNothing(h);
    Restamp(h, h[SEG_OPTIONS], FragNum(h), DataLen(h), 0, 1, 0);
  }

  lemma MultipartHeader(b: SegBuffer, origin: HeaderImage)
    requires HeaderAt(b, origin, 0, 1)
    ensures LastReady(PutOptions(b, Options(b.mem) | OPT_MULTIPART), origin, 1)
  {
    hide Put, Stamp;
    var o, d := origin[SEG_OPTIONS], DataLen(origin);
    StampFields(origin, o, 1, d);
    assert b.mem[SEG_OPTIONS] == Header(b)[SEG_OPTIONS];
    PutHeader(b, SEG_OPTIONS, [OptionsOr(o, OPT_MULTIPART)]);
    Restamp(origin, o, 1, d, OptionsOr(o, OPT_MULTIPART), 1, d);
  }

  lemma LastHeader(b: SegBuffer, origin: HeaderImage, n: nat)
    requires n > 1 && HeaderAt(b, origin, n - 1, n)
    ensures LastReady(b, origin, n)
  {
  }

  lemma FullHeader(b: SegBuffer, origin: HeaderImage, i: nat, n: nat)
    requires i + 1 < n && HeaderAt(b, origin, i, n)
    ensures HeaderAt(b, origin, i, n + 1)
  {
  }

  lemma NextHeaders(last: SegBuffer, origin: HeaderImage, n: nat)
    requires n > 0 && LastReady(last, origin, n)
    ensures HeaderAt(WithLen(PutDataLen(last, CAPACITY), CAPACITY + SEG_DATA), origin, n - 1, n + 1)
    ensures HeaderAt(Put(Assigned(Cleared(), last), SEG_FRAGNUM, Be16(Truncate16(n + 1))), origin, n, n + 1)
  {
    hide Put, Stamp, Assigned, PutDataLen, WithLen, FragOptions;
    var o, d := FragOptions(origin[SEG_OPTIONS], n + 1), DataLen(origin);
    FilledBuffer(last);
    AssignedImage(Cleared(), last);
    PutHeader(Assigned(Cleared(), last), SEG_FRAGNUM, Be16(Truncate16(n + 1)));
    Restamp(origin, o, Truncate16(n), d, o, Truncate16(n + 1), CAPACITY);
  }

  /** Segment i of n while the message is being filled. */
  ghost predicate HeaderAt(b: SegBuffer, origin: HeaderImage, i: nat, n: nat) {
    && Header(b) == Stamp(origin, FragOptions(origin[SEG_OPTIONS], n), Truncate16(i + 1),
                          if i + 1 < n then CAPACITY else DataLen(origin))
    && (i + 1 < n ==> b.len == SEG_MAXLEN)
  }
}

/** StreamBase: a cursor over the blocks of a store.  Every method is specified by the flat
    sequence `Flat()` of the octets written so far and the flat position `Pos()`. */
module Stream {
  import opened Bytes
  import opened Flat
  import opened Segment
  import opened Fragment
  import opened BlockStore
  import opened Crc32
  import opened Cascade

  const SIZE_MAX := 0xffff_ffff_ffff_ffff

  /** The cursor (c, p) and the end (l, e) lie in the blocks, the cursor not behind the end. */
  predicate Placed(bs: seq<seq<byte>>, c: nat, p: nat, l: nat, e: nat) {
    if bs == [] then c == p == l == e == 0
    else l < |bs| && e <= |bs[l]| && c <= l && p <= |bs[c]| && (c == l ==> p <= e)
  }

  /** `s` after v was written at `at`: what was there is overwritten, then the end moves. */
  function Written(s: seq<byte>, at: nat, v: seq<byte>): seq<byte>
    requires at <= |s|
  {
    s[..at] + v + if at + |v| < |s| then s[at + |v|..] else []
  }

  /** Octet by octet: the stream is as long as before or ends where v ends, v is at its place, and
      nothing else has changed. */
  lemma WrittenAt(s: seq<byte>, at: nat, v: seq<byte>)
    requires at <= |s|
    ensures var r := Written(s, at, v);
      && |r| == (if at + |v| < |s| then |s| else at + |v|)
      && forall k :: 0 <= k < |r| ==> r[k] == if at <= k < at + |v| then v[k - at] else s[k]
  {
  }

  class StreamBase {
    const store: BlockStore
    var curBlock: nat
    var curPos: nat
    var lastBlock: nat
    var lastPos: nat

    ghost function Repr(): set<object>
      reads this, store
    {
      {this, store} + set s | s in store.Segs
    }

    ghost predicate Valid()
      reads this, store, store.Segs
    {
      store.Valid() && Placed(store.Contents(), curBlock, curPos, lastBlock, lastPos)
    }

    ghost function Pos(): nat
      requires Valid()
      reads this, store, store.Segs
    {
      Offset(store.Contents(), curBlock) + curPos
    }

    ghost function Len(): nat
      requires Valid()
      reads this, store, store.Segs
    {
      Offset(store.Contents(), lastBlock) + lastPos
    }

    /** The octets of the stream. */
    ghost function Flat(): (s: seq<byte>)
      requires Valid()
      reads this, store, store.Segs
      ensures |s| == Len() && Pos() <= Len()
    {
      PlacedBounds(store.Contents(), curBlock, curPos, lastBlock, lastPos);
      Flatten(store.Contents())[..Len()]
    }

    constructor (provider: Provider)
      ensures Valid() && fresh(Repr()) && store.provider == provider
      ensures Flat() == [] && Pos() == 0 && store.Contents() == []
    {
      store := new BlockStore(provider);
      curBlock, curPos, lastBlock, lastPos := 0, 0, 0, 0;
    }

    predicate Readable()
      requires Valid()
      reads this, store, store.Segs
    {
      store.MemoryChk() && (curBlock < lastBlock || curPos < lastPos)
    }

    /** `Pos` */
    method PosGet() returns (pos: nat)
      requires Valid()
      ensures pos == Pos()
    {
      hide Flatten, Chained, Offset;
      ghost var bs := store.Contents();
      OffsetZero(bs);
      PlacedBounds(bs, curBlock, curPos, lastBlock, lastPos);
      var i := 0;
      pos := 0;
      while i < curBlock
        invariant i <= curBlock && pos == Offset(bs, i)
      {
        BlockAt(bs, i);
        pos := pos + store.BlockSize(i);
        i := i + 1;
      }
      pos := pos + curPos;
    }

    /** `LenGet` */
    method LenGet() returns (len: nat)
      requires Valid()
      ensures len == |Flat()|
    {
      hide Flatten, Chained, Offset;
      ghost var bs := store.Contents();
      OffsetZero(bs);
      PlacedBounds(bs, curBlock, curPos, lastBlock, lastPos);
      var i := 0;
      len := 0;
      while i < lastBlock
        invariant i <= lastBlock && len == Offset(bs, i)
      {
        BlockAt(bs, i);
        len := len + store.BlockSize(i);
        i := i + 1;
      }
      len := len + lastPos;
    }

    /** Copy `n` octets of the current block behind the `done` octets already read. */
    method ReadChunk(pBuf: array<byte>, done: nat, n: nat, ghost was: seq<byte>, ghost p0: nat)
      requires Valid() && store.Contents() != [] && curPos + n <= |store.Contents()[curBlock]|
      requires curBlock == lastBlock ==> curPos + n <= lastPos
      requires Pos() == p0 + done && done + n <= |was| == pBuf.Length
      requires pBuf[..] == Overlay(was, 0, Flat()[p0..p0 + done])
      modifies pBuf
      ensures Placed(store.Contents(), curBlock, curPos + n, lastBlock, lastPos) && p0 + done + n <= |Flat()|
      ensures pBuf[..] == Overlay(was, 0, Flat()[p0..p0 + done + n])
    {
      hide Flatten, Chained, Offset, Overlay, Placed;
      ghost var f := Flat();
      InBlock(store.Contents(), curBlock, curPos, n, lastBlock, lastPos);
      var v := store.CopyOut(curBlock, curPos, n);
      CopyTo(pBuf, done, v);
      SliceGrows(f, p0, done, n, v);
      OverlayGrows(was, f[p0..p0 + done], v);
    }

    /** Read the next octets into a buffer: as many as asked for, or all that remain. */
    method ArrayRd(pBuf: array?<byte>, len: nat) returns (numRead: nat)
      requires Valid() && (pBuf != null ==> len <= pBuf.Length)
      modifies this`curBlock, this`curPos, pBuf
      ensures Valid() && Flat() == old(Flat())
      ensures numRead == if pBuf == null then 0 else Min(len, Len() - old(Pos()))
      ensures Pos() == old(Pos()) + numRead
      ensures pBuf != null ==> pBuf[..] == Overlay(old(pBuf[..]), 0, Flat()[old(Pos())..old(Pos()) + numRead])
    {
      hide Flatten, Chained, Offset, Overlay, Placed;
      numRead := 0;
      var leftToRead := len;
      ghost var bs, p0, f, l, e := store.Contents(), Pos(), Flat(), lastBlock, lastPos;
      if pBuf != null {
        OverlayNothing(pBuf[..]);
        assert f[p0..p0] == [];
      }
      if pBuf == null || len == 0 {
        return;
      }
      ReadableIff(bs, curBlock, curPos, l, e);
      if Readable() {
        while leftToRead > 0
          invariant Placed(bs, curBlock, curPos, l, e) && curBlock <= l < |bs|
          invariant Offset(bs, curBlock) + curPos == p0 + numRead && p0 + numRead <= |f| && numRead <= len
          invariant pBuf[..] == Overlay(old(pBuf[..]), 0, f[p0..p0 + numRead])
          invariant leftToRead == len - numRead || (leftToRead == 0 && p0 + numRead == |f|)
          decreases leftToRead, l - curBlock
        {
          var readSize := 0;
          var blockSize := store.BlockSize(curBlock);
          PlacedInside(bs, curBlock, curPos, l, e);
          if curBlock < lastBlock {
            if curPos < blockSize {
              readSize := blockSize - curPos;
            } else {
              NextBlock(bs, curBlock, curPos, l, e);
              curBlock := curBlock + 1;
              curPos := 0;
            }
          } else {
            if curPos < lastPos {
              readSize := lastPos - curPos;
            } else {
              leftToRead := 0;
            }
          }
          if readSize > leftToRead {
            readSize := leftToRead;
          }
          if readSize > 0 {
            ReadChunk(pBuf, numRead, readSize, old(pBuf[..]), p0);
            leftToRead := leftToRead - readSize;
            curPos := curPos + readSize;
            numRead := numRead + readSize;
          }
        }
      }
    }

    /** No block beyond the one the stream ends in, and that one is in use. */
    ghost predicate Tight()
      requires Valid()
      reads this, store, store.Segs
    {
      store.Contents() == [] || (lastBlock + 1 == |store.Contents()| && lastPos > 0)
    }

    /** The state between two passes of the write loop: v is written, `ahead` octets counted from
        the start of the current block are still to be accounted for. */
    ghost predicate Writing(n0: nat, all0: seq<byte>, p0: nat, len0: nat, v: seq<byte>, ahead: nat)
      reads this, store, store.Segs
    {
      && store.Valid()
      && Underway(store.Contents(), all0, p0, v, curBlock, curPos)
      && lastBlock < |store.Contents()| && lastPos <= |store.Contents()[lastBlock]|
      && Offset(store.Contents(), lastBlock) + lastPos == len0 && p0 <= len0 <= |all0|
      && (store.provider.SegmentChain? ==> Exact(store.Contents(), n0, curBlock, ahead))
    }

    lemma WritingInside(n0: nat, all0: seq<byte>, p0: nat, len0: nat, v: seq<byte>, ahead: nat)
      requires Writing(n0, all0, p0, len0, v, ahead)
      ensures store.Valid() && curPos <= store.BlockSize(curBlock)
    {
    }

    /** Make sure that there is a block, and begin. */
    method BeginWrite(len: nat) returns (ok: bool, ghost all0: seq<byte>)
      requires Valid() && len > 0
      modifies store, store.Segs
      ensures ok && fresh(Repr() - old(Repr())) && store.Valid()
      ensures Writing(|old(store.Contents())|, all0, old(Pos()), old(Len()), [], curPos + len)
      ensures all0[..old(Len())] == old(Flat())
      ensures store.Origin == old(store.Origin) && (old(store.Headed()) ==> store.Headed())
    {
      hide Flatten, Offset, Overlay, Chained, Underway, Exact, Written, FragCount;
      FlatIsPrefix(store.Contents(), curBlock, curPos, lastBlock, lastPos);
      ok := true;
      if !store.MemoryChk() {
        ok := store.MemoryAdd(len);
        FirstBlocks(store.Contents(), len);
        SomeFragments(len);
      }
      all0 := Flatten(store.Contents());
      SomeBlocks(store.Contents(), curBlock, curPos + len);
      UnderwayStart(store.Contents(), curBlock, curPos);
      UnderwayStart(store.Contents(), lastBlock, lastPos);
    }

    /** Step to the next block, adding memory when there is none. */
    method NextWriteBlock(left: nat, ghost n0: nat, ghost all0: seq<byte>, ghost p0: nat, ghost len0: nat, ghost v: seq<byte>)
      returns (ok: bool)
      requires Writing(n0, all0, p0, len0, v, curPos + left) && curPos == store.BlockSize(curBlock) && left > 0
      modifies this`curBlock, this`curPos, store, store.Segs
      ensures ok && fresh(Repr() - old(Repr())) && curPos == 0
      ensures Writing(n0, all0, p0, len0, v, curPos + left) && store.Valid() && curPos < store.BlockSize(curBlock)
      ensures store.Origin == old(store.Origin) && (old(store.Headed()) ==> store.Headed())
    {
      hide Flatten, Offset, Overlay, Chained, Underway, Exact, Written, FragCount;
      ghost var bs, c := store.Contents(), curBlock;
      UnderwayInside(bs, all0, p0, v, c, curPos);
      ok := true;
      curBlock := curBlock + 1;
      curPos := 0;
      if !store.ValidBlock(curBlock) {
        ok := store.MemoryAdd(left);
        SomeFragments(left);
      }
      StepOn(bs, store.Contents(), all0, p0, v, c, old(curPos), lastBlock, lastPos);
      if store.provider.SegmentChain? {
        ExactNext(bs, store.Contents(), n0, c, left);
      }
    }

    /** Fill the current block with the next octets x. */
    method WriteChunk(x: seq<byte>, ghost n0: nat, ghost all0: seq<byte>, ghost p0: nat, ghost len0: nat, ghost v: seq<byte>, ghost ahead: nat)
      requires Writing(n0, all0, p0, len0, v, ahead) && curPos + |x| <= store.BlockSize(curBlock)
      modifies this`curPos, store`vecBlocks, store`Bufs, store.Segs`buffer
      ensures Writing(n0, all0, p0, len0, v + x, ahead) && curPos == old(curPos) + |x| && store.Valid()
      ensures old(store.Headed()) ==> store.Headed()
    {
      hide Flatten, Offset, Overlay, Chained, Underway, Exact, Written, FragCount;
      ghost var bs := store.Contents();
      UnderwayInside(bs, all0, p0, v, curBlock, curPos);
      UnderwayChunk(bs, all0, p0, v, curBlock, curPos, x);
      OffsetOverlay(bs, curBlock, curPos, x, lastBlock);
      store.CopyIn(curBlock, curPos, x);
      ExactSameCount(bs, store.Contents(), n0, curBlock, ahead);
      curPos := curPos + |x|;
    }

    /** Write octets at the cursor: what is there is overwritten, and the stream grows as needed. */
    method ArrayWr(pBuf: array?<byte>, len: nat) returns (numWritten: nat)
      requires Valid() && (pBuf != null ==> len <= pBuf.Length)
      modifies Repr()
      ensures Valid() && fresh(Repr() - old(Repr()))
      ensures numWritten == if pBuf == null then 0 else len
      ensures Pos() == old(Pos()) + numWritten
      ensures Flat() == if pBuf == null then old(Flat()) else Written(old(Flat()), old(Pos()), pBuf[..len])
      ensures store.Origin == old(store.Origin) && (old(store.Headed()) ==> store.Headed())
      ensures store.provider.SegmentChain? && old(Tight()) ==> Tight()
    {
      hide Flatten, Offset, Chained, Placed, Overlay;
      numWritten := 0;
      if pBuf == null || len == 0 {
        WrittenNothing(Flat(), Pos());
        return;
      }
      numWritten := WriteAll(pBuf[..len]);
    }

    /** One pass of the write loop: the rest of the current block, or the step to the next one. */
    method WritePass(rest: seq<byte>, ghost n0: nat, ghost all0: seq<byte>, ghost p0: nat, ghost len0: nat, ghost v: seq<byte>)
      returns (writeSize: nat)
      requires store.Valid() && Writing(n0, all0, p0, len0, v, curPos + |rest|) && rest != []
      modifies this`curBlock, this`curPos, store, store.Segs
      ensures fresh(Repr() - old(Repr())) && store.Valid() && writeSize <= |rest|
      ensures Writing(n0, all0, p0, len0, v + rest[..writeSize], curPos + |rest| - writeSize)
      ensures writeSize > 0 || (old(curPos >= store.BlockSize(curBlock)) && curPos < store.BlockSize(curBlock))
      ensures store.Origin == old(store.Origin) && (old(store.Headed()) ==> store.Headed())
    {
      hide Flatten, Offset, Overlay, Chained, Underway, Exact, Placed, Written, FragCount, Writing;
      WritingInside(n0, all0, p0, len0, v, curPos + |rest|);
      var blockSize := store.BlockSize(curBlock);
      if curPos < blockSize {
        writeSize := blockSize - curPos;
        if writeSize > |rest| {
          writeSize := |rest|;
        }
        WriteChunk(rest[..writeSize], n0, all0, p0, len0, v, curPos + |rest|);
        return;
      }
      writeSize := 0;
      var ok := NextWriteBlock(|rest|, n0, all0, p0, len0, v);
      assert v + rest[..0] == v;
    }

    /** The write loop of `ArrayWr`. */
    method WriteAll(data: seq<byte>) returns (numWritten: nat)
      requires Valid() && data != []
      modifies Repr()
      ensures Valid() && fresh(Repr() - old(Repr())) && numWritten == |data|
      ensures Pos() == old(Pos()) + |data| && Flat() == Written(old(Flat()), old(Pos()), data)
      ensures store.Origin == old(store.Origin) && (old(store.Headed()) ==> store.Headed())
      ensures store.provider.SegmentChain? && old(Tight()) ==> Tight()
    {
      hide Flatten, Offset, Overlay, Chained, Underway, Exact, Placed, Written, FragCount, Writing;
      ghost var n0, len0, p0, l0, e0 := |store.Contents()|, Len(), Pos(), lastBlock, lastPos;
      numWritten := 0;
      var ok, all0 := BeginWrite(|data|);
      ghost var v: seq<byte> := [];
      while numWritten < |data|
        invariant fresh(Repr() - old(Repr())) && lastBlock == l0 && lastPos == e0 && store.Valid()
        invariant numWritten <= |data| && v == data[..numWritten]
        invariant Writing(n0, all0, p0, len0, v, curPos + |data| - numWritten)
        invariant store.Origin == old(store.Origin) && (old(store.Headed()) ==> store.Headed())
        decreases |data| - numWritten, if curPos < store.BlockSize(curBlock) then 0 else 1
      {
        var rest := data[numWritten..];
        var writeSize := WritePass(rest, n0, all0, p0, len0, v);
        v := v + rest[..writeSize];
        Prefixes(data, numWritten, writeSize);
        numWritten := numWritten + writeSize;
      }
      assert v == data;
      EndWrite(n0, all0, p0, len0, v);
    }

    /** Move the end of the stream when the cursor has passed it. */
    method EndWrite(ghost n0: nat, ghost all0: seq<byte>, ghost p0: nat, ghost len0: nat, ghost v: seq<byte>)
      requires Writing(n0, all0, p0, len0, v, curPos) && v != []
      modifies this`lastBlock, this`lastPos
      ensures Valid() && Pos() == p0 + |v| && Flat() == Written(all0[..len0], p0, v)
      ensures store.provider.SegmentChain? && (n0 == 0 || (old(lastBlock) + 1 == n0 && old(lastPos) > 0)) ==> Tight()
    {
      hide Flatten, Offset, Overlay, Chained, Exact, Written, FragCount;
      if store.provider.SegmentChain? && (n0 == 0 || (lastBlock + 1 == n0 && lastPos > 0)) {
        ExactEnds(store.Contents(), n0, curBlock, curPos, lastBlock, lastPos);
      }
      UnderwayEnds(store.Contents(), all0, p0, v, curBlock, curPos, lastBlock, lastPos, len0);
      if lastBlock < curBlock {
        lastBlock := curBlock;
        lastPos := curPos;
      } else if lastBlock == curBlock {
        if lastPos < curPos {
          lastPos := curPos;
        }
      }
    }

    // -----------------------------------------------------------------------
    // Positioning

    /** Seek to a flat position.  Beyond the end the cursor is left at the end and the result is
        false; a stream without memory is left alone, also with result false. */
    method Seek(pos: nat) returns (rv: bool)
      requires Valid()
      modifies this`curBlock, this`curPos
      ensures Valid() && Flat() == old(Flat())
      ensures rv <==> store.Contents() != [] && pos <= Len()
      ensures Pos() == Min(pos, Len())
    {
      hide Flatten, Offset, Chained, Placed;
      ghost var bs, l, e, f := store.Contents(), lastBlock, lastPos, Flat();
      FlatIsPrefix(bs, curBlock, curPos, l, e);
      OffsetZero(bs);
      var loc, size, i := 0, 0, 0;
      rv := false;
      while store.ValidBlock(i) && !rv
        invariant Placed(bs, curBlock, curPos, l, e) && i <= l + 1 && curBlock <= l <= |bs|
        invariant rv ==> bs != []
        invariant rv ==> Offset(bs, curBlock) + curPos == pos <= |f|
        invariant !rv && i <= l < |bs| ==> loc == Offset(bs, i) <= pos
        invariant !rv && i == l + 1 ==> Offset(bs, curBlock) + curPos == |f| < pos
        decreases |bs| - i, !rv
      {
        if i < lastBlock {
          size := store.BlockSize(i);
        } else if i == lastBlock {
          size := lastPos;
        } else {
          size := 0;
          break;
        }
        SeekInto(bs, curBlock, curPos, l, e, i, size);
        if loc + size >= pos {
          curPos := pos - loc;
          rv := true;
        } else {
          loc := loc + size;
          curPos := size;
        }
        curBlock := i;
        i := i + 1;
      }
    }

    /** Skip forward.  The sum is one of 64-bit words; when it does not exceed the position (a
        wrap-around, or a count of zero) the source seeks to the largest position instead. */
    method Skip(num: nat) returns (rv: bool)
      requires Valid() && num <= SIZE_MAX && Len() <= SIZE_MAX
      modifies this`curBlock, this`curPos
      ensures Valid() && Flat() == old(Flat())
      ensures var target := if 0 < num && old(Pos()) + num <= SIZE_MAX then old(Pos()) + num else SIZE_MAX;
              && Pos() == Min(target, Len())
              && (rv <==> store.Contents() != [] && target <= Len())
    {
      hide Flatten, Offset, Chained, Placed;
      FlatIsPrefix(store.Contents(), curBlock, curPos, lastBlock, lastPos);
      var pos := PosGet();
      var sum := (pos + num) % (SIZE_MAX + 1);
      if sum > pos {
        rv := Seek(sum);
      } else {
        rv := Seek(SIZE_MAX);
      }
    }

    /** Skip backward; before the start the cursor is left at the start and the result is false. */
    method Back(num: nat) returns (rv: bool)
      requires Valid()
      modifies this`curBlock, this`curPos
      ensures Valid() && Flat() == old(Flat())
      ensures Pos() == if num <= old(Pos()) then old(Pos()) - num else 0
      ensures rv <==> store.Contents() != [] && num <= old(Pos())
    {
      hide Flatten, Offset, Chained, Placed;
      FlatIsPrefix(store.Contents(), curBlock, curPos, lastBlock, lastPos);
      rv := false;
      var pos := PosGet();
      if pos >= num {
        rv := Seek(pos - num);
      } else {
        var ignored := Seek(0);
      }
    }

    // -----------------------------------------------------------------------
    // Single octets

    /** `Read` of one octet: fails only at the end of the stream. */
    method ReadOctet() returns (ok: bool, ch: byte)
      requires Valid()
      modifies this`curBlock, this`curPos
      ensures Valid() && Flat() == old(Flat())
      ensures ok <==> old(Pos()) < Len()
      ensures ok ==> ch == Flat()[old(Pos())] && Pos() == old(Pos()) + 1
      ensures !ok ==> Pos() == old(Pos())
    {
      hide Flatten, Offset, Chained, Placed;
      var buf := new byte[1];
      var n := ArrayRd(buf, 1);
      ok := n == 1;
      if ok {
        OneOctet(buf[..], Flat(), old(Pos()));
      }
      ch := buf[..][0];
    }

    /** `Write` of one octet */
    method WriteOctet(ch: byte)
      requires Valid()
      modifies Repr()
      ensures Valid() && fresh(Repr() - old(Repr()))
      ensures Pos() == old(Pos()) + 1 && Flat() == Written(old(Flat()), old(Pos()), [ch])
      ensures store.Origin == old(store.Origin) && (old(store.Headed()) ==> store.Headed())
      ensures store.provider.SegmentChain? && old(Tight()) ==> Tight()
    {
      hide Flatten, Offset, Chained, Placed, Written;
      var buf := new byte[1](_ => ch);
      assert buf[..1] == [ch];
      var n := ArrayWr(buf, 1);
    }

    // -----------------------------------------------------------------------
    // Whole-stream operations

    /** The sizes of the blocks. */
    ghost function Sizes(): seq<nat>
      requires Valid()
      reads this, store, store.Segs
    {
      Lengths(store.Contents())
    }

    /** `Crc32Get`: the CRC of the first len octets, of the whole stream when len is 0, cascaded over
        the blocks.  A len beyond the end of the stream runs on into the rest of its memory. */
    method Crc32Get(len: nat) returns (cascade: word)
      requires Valid()
      ensures var n, all := if len == 0 then Len() else len, Flatten(store.Contents());
              && cascade == Cascaded(Sizes(), all[..Min(n, |all|)], XOR_OUT)
              && (n <= Len() ==> n <= |all| && all[..n] == Flat()[..n])
    {
      hide Flatten, Offset, Chained, Placed, Crc, Pending;
      ghost var bs := store.Contents();
      FlatIsPrefix(bs, curBlock, curPos, lastBlock, lastPos);
      var i, left := 0, len;
      cascade := XOR_OUT;
      if left == 0 {
        left := LenGet();
      }
      ghost var n := left;
      ghost var d := Flatten(bs)[..Min(n, |Flatten(bs)|)];
      OffsetZero(bs);
      assert n <= Len() ==> d == Flat()[..n];
      PendingStart(bs, d, XOR_OUT);
      while store.ValidBlock(i) && left > 0
        invariant i <= |bs| && Offset(bs, i) <= |Flatten(bs)|
        invariant left == if Offset(bs, i) < n then n - Offset(bs, i) else 0
        invariant Cascaded(Lengths(bs), d, XOR_OUT) == Pending(bs, d, i, cascade)
        decreases |bs| - i
      {
        var size := store.BlockSize(i);
        if size > left {
          size := left;
        }
        CascadeStep(bs, d, i, n, cascade);
        var p := store.BlockMem(i);
        cascade := CalcCrc32(p, size, cascade);
        i := i + 1;
        left := left - size;
      }
      CascadeDone(bs, d, i, n, cascade);
    }

    /** Free the memory and return to the start. */
    method Clear()
      requires store.Valid()
      modifies this, store
      ensures Valid() && Flat() == [] && Pos() == 0 && store.Contents() == [] && store.Segs == [] && Tight()
      ensures curBlock == 0 && curPos == 0
      ensures store.template == old(store.template)
      ensures store.provider.SegmentChain? ==> store.Headed() && store.Origin == Header(store.template)
    {
      store.MemoryFree();
      lastBlock, lastPos, curBlock, curPos := 0, 0, 0, 0;
    }

    // -----------------------------------------------------------------------
    // StreamBuf

    /** `TransferBlocksFrom`: the blocks and the cursor move over without being copied; a transfer
        from itself loses them. */
    method TransferBlocksFrom(src: StreamBase)
      requires Valid() && src.Valid() && store.provider.PooledBlocks? && src.store.provider.PooledBlocks?
      requires src != this ==> src.store != store
      modifies this, store, src, src.store
      ensures Valid() && src.Valid() && src.Flat() == [] && src.Pos() == 0
      ensures src != this ==> Flat() == old(src.Flat()) && Pos() == old(src.Pos()) && store.Contents() == old(src.store.Contents())
    {
      hide Flatten, Offset, Chained, Placed;
      Clear();
      store.vecBlocks := src.store.vecBlocks;
      src.store.vecBlocks := [];
      curBlock := src.curBlock;
      curPos := src.curPos;
      lastBlock := src.lastBlock;
      lastPos := src.lastPos;
      src.Clear();
    }

    // -----------------------------------------------------------------------
    // Messages (IpcStreamSeg)

    /** Prepare the segments for transmission. */
    method Finalize()
      requires Valid() && store.provider.SegmentChain?
      modifies store`Bufs, store.Segs`buffer
      ensures store.Valid() && store.Bufs == Finalized(old(store.Bufs), lastPos)
    {
      hide Flatten, Offset, Chained, Finalized;
      store.Finalize(lastPos);
    }

    /** Take over a received message for reading; null leaves the stream empty.  The length that the
        last segment claims is not checked: if it is more than a segment holds, the stream ends
        behind its memory. */
    method SegmentInject(seg: IpcSegment?, ghost segs: seq<IpcSegment>, ghost bufs: seq<SegBuffer>)
      requires Valid() && store.provider.SegmentChain?
      requires Chained(segs, bufs) && seg == if segs == [] then null else segs[0]
      modifies this, store
      ensures store.Valid() && store.Segs == segs && store.Bufs == bufs && |bufs| == |segs|
      ensures Valid() <==> segs == [] || DataLen(bufs[|bufs| - 1].mem) <= CAPACITY
      ensures Valid() ==> Pos() == 0 && Flat() == if segs == [] then [] else Injected(bufs)
    {
      hide Flatten, Chained, Offset, Datas, Placed;
      Clear();
      ChainCount(segs, bufs);
      lastBlock, lastPos := store.Adopt(seg, segs, bufs);
      InjectedEnd(bufs, lastBlock, lastPos);
    }

    /** Hand the segments out and forget them. */
    method SegmentExtract() returns (seg: IpcSegment?, ghost segs: seq<IpcSegment>, ghost bufs: seq<SegBuffer>)
      requires store.Valid() && store.provider.SegmentChain?
      modifies this, store
      ensures segs == old(store.Segs) && bufs == old(store.Bufs) && Chained(segs, bufs)
      ensures seg == if segs == [] then null else segs[0]
      ensures Valid() && Flat() == [] && store.Contents() == []
    {
      seg, segs, bufs := store.head, store.Segs, store.Bufs;
      store.head := null;
      store.tail := null;
      store.Segs, store.Bufs, store.blockCount := [], [], 0;
      lastBlock, lastPos, curBlock, curPos := 0, 0, 0, 0;
      Clear();
    }
  }

  /** `memcpy` into a caller's buffer */
  method CopyTo(pBuf: array<byte>, at: nat, v: seq<byte>)
    requires at + |v| <= pBuf.Length
    modifies pBuf
    ensures pBuf[..] == Overlay(old(pBuf[..]), at, v)
  {
    forall k | 0 <= k < |v| {
      pBuf[at + k] := v[k];
    }
  }

  lemma SliceGrows(f: seq<byte>, p0: nat, done: nat, n: nat, v: seq<byte>)
    requires p0 + done + n <= |f| && v == f[p0 + done..p0 + done + n]
    ensures f[p0..p0 + done] + v == f[p0..p0 + done + n]
  {
  }

  lemma OverlayNothing(s: seq<byte>)
    ensures Overlay(s, 0, []) == s
  {
  }

  lemma OverlayGrows(s: seq<byte>, a: seq<byte>, b: seq<byte>)
    requires |a| + |b| <= |s|
    ensures Overlay(Overlay(s, 0, a), |a|, b) == Overlay(s, 0, a + b)
  {
  }

  lemma ReadableIff(bs: seq<seq<byte>>, c: nat, p: nat, l: nat, e: nat)
    requires Placed(bs, c, p, l, e)
    ensures c <= |bs| && l <= |bs|
    ensures (bs != [] && (c < l || p < e)) || Offset(bs, c) + p == Offset(bs, l) + e
    ensures bs != [] ==> c <= l < |bs|
  {
  }

  lemma PlacedInside(bs: seq<seq<byte>>, c: nat, p: nat, l: nat, e: nat)
    requires Placed(bs, c, p, l, e) && bs != []
    ensures c <= l < |bs| && p <= |bs[c]| && e <= |bs[l]| && (c == l ==> p <= e)
  {
  }

  lemma NextBlock(bs: seq<seq<byte>>, c: nat, p: nat, l: nat, e: nat)
    requires Placed(bs, c, p, l, e) && c < l && p == |bs[c]|
    ensures Placed(bs, c + 1, 0, l, e) && Offset(bs, c + 1) == Offset(bs, c) + p
  {
    BlockAt(bs, c);
  }

  lemma PlacedBounds(bs: seq<seq<byte>>, c: nat, p: nat, l: nat, e: nat)
    requires Placed(bs, c, p, l, e)
    ensures c <= |bs| && l <= |bs|
    ensures Offset(bs, c) + p <= Offset(bs, l) + e <= |Flatten(bs)|
  {
    if bs != [] {
      BlockAt(bs, l);
      if c < l {
        BlockAt(bs, c);
        OffsetMonotone(bs, c + 1, l);
      }
    }
  }

  lemma OffsetZero(bs: seq<seq<byte>>)
    ensures Offset(bs, 0) == 0
  {
  }

  /** Octets of one block, read from the flat sequence. */
  lemma InBlock(bs: seq<seq<byte>>, c: nat, p: nat, n: nat, l: nat, e: nat)
    requires Placed(bs, c, p, l, e) && bs != [] && p + n <= |bs[c]| && (c == l ==> p + n <= e)
    ensures Placed(bs, c, p + n, l, e)
    ensures Offset(bs, c) + p + n <= Offset(bs, l) + e <= |Flatten(bs)|
    ensures Flatten(bs)[..Offset(bs, l) + e][Offset(bs, c) + p..Offset(bs, c) + p + n] == bs[c][p..p + n]
  {
    BlockAt(bs, c);
    PlacedBounds(bs, c, p + n, l, e);
    SubSlice(Flatten(bs), bs[c], Offset(bs, c), p, n, Offset(bs, l) + e);
  }

  lemma SubSlice(f: seq<byte>, b: seq<byte>, o: nat, p: nat, n: nat, k: nat)
    requires o + |b| <= |f| && f[o..o + |b|] == b && p + n <= |b| && o + p + n <= k <= |f|
    ensures f[..k][o + p..o + p + n] == b[p..p + n]
  {
    assert forall i :: 0 <= i < |b| ==> f[o + i] == b[i];
  }

  // -------------------------------------------------------------------------
  // Writing

  /** In the course of a write: v has been written at flat position p0, the cursor (c, p) stands
      behind it, and all0 is what the blocks held before. */
  ghost predicate Underway(bs: seq<seq<byte>>, all0: seq<byte>, p0: nat, v: seq<byte>, c: nat, p: nat) {
    && c < |bs| && p <= |bs[c]| && p0 <= |all0|
    && Offset(bs, c) + p == p0 + |v|
    && Written(all0, p0, v) <= Flatten(bs)
  }

  /** How many blocks a write may leave: none beyond those it needs, if it had to add any. */
  ghost predicate Exact(bs: seq<seq<byte>>, n0: nat, c: nat, ahead: nat) {
    |bs| == n0 || |bs| == c + FragCount(ahead)
  }

  lemma UnderwayStart(bs: seq<seq<byte>>, c: nat, p: nat)
    requires c < |bs| && p <= |bs[c]|
    ensures Offset(bs, c) + p <= |Flatten(bs)|
    ensures Underway(bs, Flatten(bs), Offset(bs, c) + p, [], c, p)
  {
    hide Flatten;
    BlockAt(bs, c);
    var all, p0 := Flatten(bs), Offset(bs, c) + p;
    assert Written(all, p0, []) == all;
  }

  lemma UnderwayChunk(bs: seq<seq<byte>>, all0: seq<byte>, p0: nat, v: seq<byte>, c: nat, p: nat, x: seq<byte>)
    requires Underway(bs, all0, p0, v, c, p) && p + |x| <= |bs[c]|
    ensures Underway(bs[c := Overlay(bs[c], p, x)], all0, p0, v + x, c, p + |x|)
  {
    hide Flatten, Offset, Overlay;
    OverlayBlock(bs, c, p, x);
    WrittenGrows(all0, p0, v, x, Flatten(bs));
  }

  lemma WrittenGrows(a: seq<byte>, p0: nat, v: seq<byte>, x: seq<byte>, f: seq<byte>)
    requires p0 <= |a| && Written(a, p0, v) <= f && p0 + |v| + |x| <= |f|
    ensures Written(a, p0, v + x) <= Overlay(f, p0 + |v|, x)
  {
    var w := Written(a, p0, v);
    assert forall k :: 0 <= k < |w| ==> f[k] == w[k];
  }

  /** Moving to the next block, which may just have been added. */
  lemma UnderwayNext(bs: seq<seq<byte>>, more: seq<seq<byte>>, all0: seq<byte>, p0: nat, v: seq<byte>, c: nat, p: nat)
    requires Underway(bs, all0, p0, v, c, p) && p == |bs[c]| && c + 1 < |bs + more|
    ensures Underway(bs + more, all0, p0, v, c + 1, 0)
  {
    hide Flatten;
    BlockAt(bs, c);
    OffsetExtends(bs, more, c + 1);
    FlattenAppends(bs, more);
  }

  /** The end of the stream after a write. */
  function EndOf(c: nat, p: nat, l: nat, e: nat): (nat, nat) {
    if l < c then (c, p) else if l == c && e < p then (l, p) else (l, e)
  }

  /** When the write is done the stream is the old one, overwritten and extended. */
  lemma UnderwayEnds(bs: seq<seq<byte>>, all0: seq<byte>, p0: nat, v: seq<byte>, c: nat, p: nat, l: nat, e: nat, len0: nat)
    requires Underway(bs, all0, p0, v, c, p) && l < |bs| && e <= |bs[l]|
    requires Offset(bs, l) + e == len0 && p0 <= len0 <= |all0|
    ensures var (l', e') := EndOf(c, p, l, e);
            && Placed(bs, c, p, l', e')
            && Offset(bs, l') + e' <= |Flatten(bs)|
            && Flatten(bs)[..Offset(bs, l') + e'] == Written(all0[..len0], p0, v)
  {
    hide Flatten, Offset;
    var (l', e') := EndOf(c, p, l, e);
    var n := p0 + |v|;
    EndPosition(bs, c, p, l, e);
    PlacedBounds(bs, c, p, l', e');
    assert Offset(bs, l') + e' == if len0 < n then n else len0;
    var w := Written(all0, p0, v);
    assert forall k :: 0 <= k < |w| ==> Flatten(bs)[k] == w[k];
  }

  lemma EndPosition(bs: seq<seq<byte>>, c: nat, p: nat, l: nat, e: nat)
    requires c < |bs| && p <= |bs[c]| && l < |bs| && e <= |bs[l]|
    ensures var (l', e') := EndOf(c, p, l, e);
            Offset(bs, l') + e' == if Offset(bs, l) + e < Offset(bs, c) + p then Offset(bs, c) + p else Offset(bs, l) + e
  {
    hide Flatten, Offset;
    BlockAt(bs, c);
    BlockAt(bs, l);
    if l < c {
      OffsetMonotone(bs, l + 1, c);
    } else if c < l {
      OffsetMonotone(bs, c + 1, l);
    }
  }

  lemma UnderwayInside(bs: seq<seq<byte>>, all0: seq<byte>, p0: nat, v: seq<byte>, c: nat, p: nat)
    requires Underway(bs, all0, p0, v, c, p)
    ensures c < |bs| && p <= |bs[c]| && Offset(bs, c) + p == p0 + |v|
  {
  }

  lemma FlatIsPrefix(bs: seq<seq<byte>>, c: nat, p: nat, l: nat, e: nat)
    requires Placed(bs, c, p, l, e)
    ensures c <= |bs| && l <= |bs| && Offset(bs, c) + p <= Offset(bs, l) + e <= |Flatten(bs)|
    ensures bs != [] ==> c <= l < |bs| && p <= |bs[c]| && e <= |bs[l]|
    ensures bs == [] ==> c == p == l == e == 0 && Flatten(bs) == []
  {
    PlacedBounds(bs, c, p, l, e);
  }

  lemma FirstBlocks(bs: seq<seq<byte>>, len: nat)
    ensures Offset(bs, 0) == 0
    ensures |bs| == FragCount(len) ==> Exact(bs, 0, 0, len)
  {
  }

  lemma ExactNext(bs: seq<seq<byte>>, bs': seq<seq<byte>>, n0: nat, c: nat, left: nat)
    requires Exact(bs, n0, c, CAPACITY + left)
    requires c < |bs| && (bs' == bs || (c + 1 == |bs| && |bs'| == |bs| + FragCount(left)))
    ensures Exact(bs', n0, c + 1, left)
  {
  }

  lemma {:induction false} SameSizes(bs: seq<seq<byte>>, bs': seq<seq<byte>>, l: nat)
    requires |bs| == |bs'| && l <= |bs| && forall i :: 0 <= i < |bs| ==> |bs[i]| == |bs'[i]|
    ensures Offset(bs, l) == Offset(bs', l)
  {
    if l > 0 {
      SameSizes(bs, bs', l - 1);
      BlockAt(bs, l - 1);
      BlockAt(bs', l - 1);
    }
  }

  lemma OffsetOverlay(bs: seq<seq<byte>>, c: nat, p: nat, x: seq<byte>, l: nat)
    requires c < |bs| && p + |x| <= |bs[c]| && l < |bs|
    ensures var bs' := bs[c := Overlay(bs[c], p, x)];
            Offset(bs', l) == Offset(bs, l) && |bs'[l]| == |bs[l]|
  {
    SameSizes(bs, bs[c := Overlay(bs[c], p, x)], l);
  }

  lemma SomeBlocks(bs: seq<seq<byte>>, c: nat, ahead: nat)
    ensures Exact(bs, |bs|, c, ahead)
  {
  }

  lemma SomeFragments(n: nat)
    requires n > 0
    ensures FragCount(n) > 0
  {
  }

  lemma ExactSameCount(bs: seq<seq<byte>>, bs': seq<seq<byte>>, n0: nat, c: nat, ahead: nat)
    requires |bs| == |bs'|
    ensures Exact(bs, n0, c, ahead) ==> Exact(bs', n0, c, ahead)
  {
  }

  lemma ExactEnds(bs: seq<seq<byte>>, n0: nat, c: nat, p: nat, l: nat, e: nat)
    requires Exact(bs, n0, c, p) && c < |bs| && l < |bs| && p <= CAPACITY
    requires n0 == 0 || (l + 1 == n0 && e > 0)
    ensures var (l', e') := EndOf(c, p, l, e);
            |bs| == l' + 1 && e' > 0
  {
  }

  lemma WrittenNothing(s: seq<byte>, at: nat)
    requires at <= |s|
    ensures Written(s, at, []) == s
  {
  }

  lemma Prefixes(s: seq<byte>, a: nat, n: nat)
    requires a + n <= |s|
    ensures s[..a] + s[a..][..n] == s[..a + n] && s[..|s|] == s
  {
  }

  /** Stepping to the next block keeps everything that a write in progress relies on. */
  lemma StepOn(bs: seq<seq<byte>>, bs': seq<seq<byte>>, all0: seq<byte>, p0: nat, v: seq<byte>, c: nat, p: nat, l: nat, e: nat)
    requires Underway(bs, all0, p0, v, c, p) && p == |bs[c]| && bs <= bs' && c + 1 < |bs'| && l < |bs| && e <= |bs[l]|
    ensures Underway(bs', all0, p0, v, c + 1, 0)
    ensures l < |bs'| && e <= |bs'[l]| && Offset(bs', l) == Offset(bs, l)
  {
    hide Flatten, Offset, Underway;
    var more := bs'[|bs|..];
    assert bs' == bs + more;
    UnderwayNext(bs, more, all0, p0, v, c, p);
    OffsetExtends(bs, more, l);
  }

  /** What a pass of the search in `Seek` over block i needs. */
  lemma SeekInto(bs: seq<seq<byte>>, c: nat, p: nat, l: nat, e: nat, i: nat, size: nat)
    requires Placed(bs, c, p, l, e) && i <= l && i < |bs|
    requires size == if i < l then |bs[i]| else e
    ensures Offset(bs, i) + size == if i < l then Offset(bs, i + 1) else Offset(bs, l) + e
    ensures Offset(bs, i) + size <= Offset(bs, l) + e
    ensures forall q: nat :: q <= size ==> Placed(bs, i, q, l, e)
  {
    BlockAt(bs, i);
    if i < l {
      OffsetMonotone(bs, i + 1, l);
    }
  }

  lemma OneOctet(buf: seq<byte>, f: seq<byte>, p: nat)
    requires p < |f| && |buf| == 1 && (exists was: seq<byte> :: |was| == 1 && buf == Overlay(was, 0, f[p..p + 1]))
    ensures buf[0] == f[p]
  {
  }

  // -------------------------------------------------------------------------
  // The cascade over the blocks

  function Lengths(bs: seq<seq<byte>>): (r: seq<nat>)
    ensures |r| == |bs|
  {
    seq(|bs|, i requires 0 <= i < |bs| => |bs[i]|)
  }

  /** The cascade over the blocks from i on, of the part of d that lies in them */
  function Pending(bs: seq<seq<byte>>, d: seq<byte>, i: nat, c: word): word {
    if i <= |bs| then Cascaded(Lengths(bs)[i..], d[Min(Offset(bs, i), |d|)..], c) else c
  }

  lemma PendingStart(bs: seq<seq<byte>>, d: seq<byte>, c: word)
    ensures Pending(bs, d, 0, c) == Cascaded(Lengths(bs), d, c)
  {
    hide Cascaded;
    assert bs[..0] == [] && Lengths(bs)[0..] == Lengths(bs) && d[0..] == d;
  }

  lemma CascadeStep(bs: seq<seq<byte>>, d: seq<byte>, i: nat, n: nat, c: word)
    requires i < |bs| && d == Flatten(bs)[..Min(n, |Flatten(bs)|)] && Offset(bs, i) < n && bs[i] != []
    requires Offset(bs, i) <= |Flatten(bs)|
    ensures var size := Min(|bs[i]|, n - Offset(bs, i));
            && Offset(bs, i + 1) == Offset(bs, i) + |bs[i]| <= |Flatten(bs)|
            && Pending(bs, d, i, c) == Pending(bs, d, i + 1, Crc(bs[i][..size], c))
  {
    hide Flatten, Crc, Offset, Cascaded;
    BlockAt(bs, i);
    var o, size := Offset(bs, i), Min(|bs[i]|, n - Offset(bs, i));
    SubSlice(Flatten(bs), bs[i], o, 0, size, |d|);
    CascadedOnce(Lengths(bs), d, i, o, size, c);
  }

  lemma CascadedOnce(sizes: seq<nat>, d: seq<byte>, i: nat, o: nat, size: nat, c: word)
    requires i < |sizes| && sizes[i] > 0 && o < |d| && size == Min(sizes[i], |d| - o)
    ensures Cascaded(sizes[i..], d[o..], c) == Cascaded(sizes[i + 1..], d[Min(o + sizes[i], |d|)..], Crc(d[o..o + size], c))
  {
    hide Crc;
    var rest := d[o..];
    assert rest[..size] == d[o..o + size];
    assert rest[size..] == d[Min(o + sizes[i], |d|)..];
    assert sizes[i..][1..] == sizes[i + 1..];
  }

  lemma CascadeDone(bs: seq<seq<byte>>, d: seq<byte>, i: nat, n: nat, c: word)
    requires i <= |bs| && d == Flatten(bs)[..Min(n, |Flatten(bs)|)]
    requires i == |bs| || Offset(bs, i) >= n
    ensures Pending(bs, d, i, c) == c
  {
  }

  // -------------------------------------------------------------------------
  // Messages

  /** The octets that a stream over received buffers yields: all blocks but the last are read in
      full. */
  function Injected(bufs: seq<SegBuffer>): seq<byte>
    requires bufs != [] && DataLen(bufs[|bufs| - 1].mem) <= CAPACITY
  {
    InjectedBounds(bufs);
    Flatten(Datas(bufs))[..Offset(Datas(bufs), |bufs| - 1) + DataLen(bufs[|bufs| - 1].mem)]
  }

  /** The cursor at the start and the end where the last segment says. */
  lemma InjectedEnd(bufs: seq<SegBuffer>, l: nat, e: nat)
    requires if bufs == [] then l == e == 0 else l + 1 == |bufs| && e == DataLen(bufs[l].mem)
    ensures Placed(Datas(bufs), 0, 0, l, e) <==> bufs == [] || e <= CAPACITY
    ensures Offset(Datas(bufs), 0) == 0 && (bufs == [] ==> Flatten(Datas(bufs)) == [])
    ensures bufs != [] ==> Offset(Datas(bufs), l) + CAPACITY == |Flatten(Datas(bufs))|
  {
    hide Flatten, Offset, DataLen;
    OffsetZero(Datas(bufs));
    FlattenNone<byte>();
    assert bufs == [] ==> Datas(bufs) == [];
    InjectedBounds(bufs);
  }

  lemma InjectedBounds(bufs: seq<SegBuffer>)
    ensures bufs != [] ==> Offset(Datas(bufs), |bufs| - 1) + CAPACITY == |Flatten(Datas(bufs))|
  {
    hide Flatten, Data;
    if bufs != [] {
      var bs := Datas(bufs);
      BlockAt(bs, |bs| - 1);
      OffsetEnd(bs);
    }
  }

  // -------------------------------------------------------------------------
  // The CRC of a stream

  lemma {:induction false} TotalLength(bs: seq<seq<byte>>)
    ensures Total(Lengths(bs)) == |Flatten(bs)|
  {
    if bs != [] {
      BlockAt(bs, 0);
      TotalLength(bs[1..]);
      assert bs[..0] == [] && Lengths(bs)[1..] == Lengths(bs[1..]);
    }
  }

  lemma NoEmptyBlock(store: BlockStore)
    requires store.Valid()
    ensures forall i :: 0 <= i < |store.Contents()| ==> store.Contents()[i] != []
  {
    hide Chained;
  }

  lemma {:induction false} ChainOffset(bufs: seq<SegBuffer>, k: nat)
    requires k <= |bufs|
    ensures Offset(Datas(bufs), k) == CAPACITY * k
  {
    hide Data, Flatten;
    var bs := Datas(bufs);
    if k > 0 {
      ChainOffset(bufs, k - 1);
      BlockAt(bs, k - 1);
    } else {
      OffsetZero(bs);
    }
  }

  /** What `Crc32Get` returns for the first n octets is their CRC if and only if the octets before
      the last fresh start have the CRC 0.  Without a block boundary behind octets whose CRC is
      0xffffffff there is no fresh start. */
  lemma StreamCrc(strm: StreamBase, n: nat)
    requires strm.Valid() && 0 < n <= strm.Len()
    ensures var d := strm.Flat()[..n];
            var l := FreshStart(strm.Sizes(), [], d);
            && l < n && (Cascaded(strm.Sizes(), d, XOR_OUT) == Crc(d) <==> Crc(d[..l]) == 0)
            && (NoBadBoundary(strm.Sizes(), [], d) ==> l == 0 && Cascaded(strm.Sizes(), d, XOR_OUT) == Crc(d))
  {
    hide Flatten, Offset, Chained, Placed, Cascaded, Crc, NoBadBoundary, FreshStart;
    var bs, d := strm.store.Contents(), strm.Flat()[..n];
    FlatIsPrefix(bs, strm.curBlock, strm.curPos, strm.lastBlock, strm.lastPos);
    TotalLength(bs);
    NoEmptyBlock(strm.store);
    CascadeExactly(strm.Sizes(), d);
    if NoBadBoundary(strm.Sizes(), [], d) {
      NoFreshStart(strm.Sizes(), [], d);
      CascadeIsCrc(strm.Sizes(), d);
    }
  }

  /** It goes wrong on real streams: whatever the first 996 octets of a segment stream and those
      from 1000 on, four octets in between make the first segment end where the cascade fails. */
  method WrongCrc(p: seq<byte>, b: seq<byte>) returns (strm: StreamBase, crc: word)
    requires |p| == CAPACITY - 4 && 0 < |b| <= CAPACITY
    ensures strm.Valid() && strm.store.provider.SegmentChain? && strm.Sizes() == [CAPACITY, CAPACITY]
    ensures strm.Flat() == p + Closing(p) + b && crc != Crc(strm.Flat())
  {
    hide Flatten, Offset, Chained, Placed, Cascaded, Crc, FreshStart, Closing;
    strm := new StreamBase(SegmentChain);
    var data := p + Closing(p) + b;
    var n := strm.WriteAll(data);
    WrittenInto(data);
    crc := strm.Crc32Get(0);
    TightSizes(strm);
    assert data[..|data|] == data;
    AnyBlockCanFail(p, b, strm.Sizes());
  }

  /** More than one segment and no more than two */
  lemma TightSizes(strm: StreamBase)
    requires strm.Valid() && strm.store.provider.SegmentChain? && strm.Tight() && CAPACITY < strm.Len() <= 2 * CAPACITY
    ensures strm.Sizes() == [CAPACITY, CAPACITY]
  {
    hide Flatten, Chained, Offset;
    var bs := strm.store.Contents();
    FlatIsPrefix(bs, strm.curBlock, strm.curPos, strm.lastBlock, strm.lastPos);
    if bs == [] {
      OffsetZero(bs);
    } else {
      ChainOffset(strm.store.Bufs, strm.lastBlock);
      assert strm.lastBlock == 1;
    }
  }

  lemma WrittenInto(v: seq<byte>)
    ensures Written([], 0, v) == v
  {
  }
}

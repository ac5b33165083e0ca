/** A datum from one node to another: encoded, checked, cut into segments, and decoded. */
module DatumTransfer {
  import opened Bytes
  import opened Flat
  import opened Segment
  import opened Fragment
  import opened BlockStore
  import opened Stream
  import opened Message
  import opened Crc32
  import opened Cascade
  import opened NativeFormat
  import opened NativeRoundTrip
  import opened DatumTree
  import opened NativeEncoder
  import opened NativeDecoder
  import opened EndToEnd
  import TQ = TransmitQueue

  // -------------------------------------------------------------------------
  // The checksum

  lemma AsUintInjective(a: word, b: word)
    ensures AsUint(a) == AsUint(b) ==> a == b
  {
    assert (AsUint(a) as word) == a && (AsUint(b) as word) == b;
  }

  lemma TrailerSplit(pkg: seq<byte>, trailer: seq<byte>)
    ensures (pkg + trailer)[..|pkg + trailer| - |trailer|] == pkg
  {
  }

  lemma AcceptedIfEqual(t: Tree, sizes: seq<nat>, crc: uint32, sizes': seq<nat>, name: CString)
    requires Encodable(t) && CascadedOver(sizes, PackageBytes(t), crc)
    ensures Accepted(sizes', PackageBytes(t) + Trailer(CkCrc32, crc), name, true)
      <==> Cascaded(sizes', PackageBytes(t), XOR_OUT) == Cascaded(sizes, PackageBytes(t), XOR_OUT)
    ensures Accepted(sizes', PackageBytes(t) + Trailer(CkCrc32, crc), name, false)
  {
    hide TreeBytes, Trailer, TrailerOk, Cascaded, Crc, AsUint, Package, Encodable, PackageBytes;
    var pkg, trailer := PackageBytes(t), Trailer(CkCrc32, crc);
    PackageRoundTrip(t, name, trailer);
    TrailerSplit(pkg, trailer);
    TrailerAccepted(CkCrc32, crc, AsUint(Cascaded(sizes', pkg, XOR_OUT)), []);
    assert trailer + [] == trailer;
    AsUintInjective(Cascaded(sizes', pkg, XOR_OUT), Cascaded(sizes, pkg, XOR_OUT));
  }

  /** A package with a CRC is accepted if and only if the octets between the places where the
      sender's and the receiver's cascade last started afresh have the CRC 0. */
  lemma CheckedExactly(t: Tree, sizes: seq<nat>, crc: uint32, sizes': seq<nat>, name: CString)
    requires Encodable(t) && CascadedOver(sizes, PackageBytes(t), crc)
    requires |PackageBytes(t)| <= Total(sizes') && forall i :: 0 <= i < |sizes'| ==> sizes'[i] > 0
    ensures var d := PackageBytes(t);
            var l, r := FreshStart(sizes, [], d), FreshStart(sizes', [], d);
            && l < |d| && r < |d|
            && (Accepted(sizes', d + Trailer(CkCrc32, crc), name, true) <==> Crc(if l <= r then d[l..r] else d[r..l]) == 0)
  {
    hide TreeBytes, Trailer, Cascaded, FreshStart, Crc, AsUint, Accepted, Encodable;
    AcceptedIfEqual(t, sizes, crc, sizes', name);
    CascadesAgree(sizes, sizes', PackageBytes(t));
  }

  /** A tree whose package has 1003 octets, of which the first 1000 have the CRC 0xffffffff. */
  function Unlucky(q: seq<byte>): Tree {
    Tree(map[ATTR_LAST := Blob(q + Closing(UnluckyStart() + q) + [0])], [])
  }

  /** What the package has in front of q */
  function UnluckyStart(): seq<byte> {
    [MK_MAGIC, MK_PKG, 0, MK_DAT, Marker(ATTR_LAST), 14] + LenBytes(992)
  }

  /** Such packages exist: written to one block and received intact in segments, this one is
      rejected. */
  lemma IntactButRejected(q: seq<byte>, n: nat, crc: uint32, name: CString)
    requires |q| == 987 && n >= 1003 && CascadedOver([n], PackageBytes(Unlucky(q)), crc)
    ensures Encodable(Unlucky(q))
    ensures var s := PackageBytes(Unlucky(q)) + Trailer(CkCrc32, crc);
            Accepted([CAPACITY, CAPACITY], s, name, false) && !Accepted([CAPACITY, CAPACITY], s, name, true)
  {
    hide TreeBytes, Trailer, Cascaded, FreshStart, Crc, AsUint, Accepted, PackageBytes, Closing, UnluckyStart;
    var t, p, b: seq<byte> := Unlucky(q), UnluckyStart() + q, [0, MK_DAT_END, MK_PKG_END];
    var d := PackageBytes(t);
    UnluckyBytes(q);
    AcceptedIfEqual(t, [n], crc, [CAPACITY, CAPACITY], name);
    AnyBlockCanFail(p, b, [CAPACITY, CAPACITY]);
    WholeCascade(d, n);
  }

  lemma WholeCascade(d: seq<byte>, n: nat)
    requires d != [] && |d| <= n
    ensures Cascaded([n], d, XOR_OUT) == Crc(d)
  {
    hide Crc;
    assert d[..|d|] == d && d[|d|..] == [];
  }

  lemma UnluckyBytes(q: seq<byte>)
    requires |q| == 987
    ensures Encodable(Unlucky(q)) && |UnluckyStart() + q| == CAPACITY - 4
    ensures var p := UnluckyStart() + q; PackageBytes(Unlucky(q)) == p + Closing(p) + [0, MK_DAT_END, MK_PKG_END]
  {
    hide Closing, LenBytes, Be;
    var t := Unlucky(q);
    var m, x := t.attribs, Closing(UnluckyStart() + q);
    assert |LenBytes(992)| == 3 by { LenOf992(); }
    assert AttrBytes(m, ATTR_LAST + 1) == [];
    NoAttrsBefore(m, 0);
    assert AttrBytes(m, 0) == [Marker(ATTR_LAST), 14] + (LenBytes(992) + (q + x + [0]));
    assert SubsBytes([]) == [];
  }

  lemma LenOf992()
    ensures |LenBytes(992)| == 3
  {
  }

  lemma {:induction false} NoAttrsBefore(m: Attribs, a: Attrib)
    requires m.Keys == {ATTR_LAST}
    ensures AttrBytes(m, a) == AttrBytes(m, ATTR_LAST)
    decreases ATTR_LAST - a
  {
    if a < ATTR_LAST {
      NoAttrsBefore(m, a + 1);
    }
  }

  /** With the sender's blocks, and any behind them, it is always accepted. */
  lemma SameBlocksAccept(t: Tree, sizes: seq<nat>, crc: uint32, more: seq<nat>, name: CString)
    requires Encodable(t) && CascadedOver(sizes, PackageBytes(t), crc)
    ensures Accepted(sizes + more, PackageBytes(t) + Trailer(CkCrc32, crc), name, true)
  {
    hide PackageBytes, Encodable, Cascaded, Accepted, Trailer, AsUint;
    CascadeIgnoresSpare(sizes, more, PackageBytes(t), XOR_OUT);
    AcceptedIfEqual(t, sizes, crc, sizes + more, name);
  }

  /** An encoded tree is accepted unchecked; with its CRC it is accepted when checked, too, even
      if the receiver's blocks are not the sender's, as long as no block boundary on either side
      lies behind octets whose CRC is 0xffffffff. */
  lemma CheckedRoundTrip(t: Tree, sizes: seq<nat>, crc: uint32, sizes': seq<nat>, name: CString)
    requires Encodable(t) && CascadedOver(sizes, PackageBytes(t), crc)
    requires |PackageBytes(t)| <= Total(sizes') && forall i :: 0 <= i < |sizes'| ==> sizes'[i] > 0
    requires NoBadBoundary(sizes, [], PackageBytes(t)) && NoBadBoundary(sizes', [], PackageBytes(t))
    ensures var s := PackageBytes(t) + Trailer(CkCrc32, crc);
            && Accepted(sizes', s, name, true) && Accepted(sizes', s, name, false)
            && Package(s, name) == Got([Tree(Named(name) + t.attribs, t.subs)], Trailer(CkCrc32, crc))
  {
    hide TreeBytes, Trailer, TrailerOk, NoBadBoundary, Cascaded, Crc, AsUint, Package, Encodable, PackageBytes;
    var pkg, trailer := PackageBytes(t), Trailer(CkCrc32, crc);
    PackageRoundTrip(t, name, trailer);
    CascadeIsCrc(sizes, pkg);
    CascadeIsCrc(sizes', pkg);
    TrailerSplit(pkg, trailer);
    TrailerAccepted(CkCrc32, crc, crc, []);
    assert trailer + [] == trailer;
  }

  /** A package that was damaged within four octets in a row is not accepted if it still ends in
      the same place and the receiver's cascade is the CRC of what arrived. */
  lemma DamageIsRejected(pre: seq<byte>, x: seq<byte>, y: seq<byte>, post: seq<byte>, crc: uint32, sizes: seq<nat>, name: CString)
    requires |x| == |y| <= 4 && x != y && pre + x + post != []
    requires crc == AsUint(Crc(pre + x + post))
    requires |pre + y + post| <= Total(sizes) && forall i :: 0 <= i < |sizes| ==> sizes[i] > 0
    requires var d := pre + y + post; FreshStart(sizes, [], d) <= |d| && Crc(d[..FreshStart(sizes, [], d)]) == 0
    ensures var s := pre + y + post + Trailer(CkCrc32, crc);
            Package(s, name).Got? && Package(s, name).rest == Trailer(CkCrc32, crc) ==> !Accepted(sizes, s, name, true)
  {
    hide Trailer, TrailerOk, FreshStart, Cascaded, Crc, AsUint, Package;
    var pkg, trailer := pre + y + post, Trailer(CkCrc32, crc);
    BurstIsDetected(pre, x, y, post, XOR_OUT);
    AsUintInjective(Crc(pre + x + post), Crc(pkg));
    CascadeExactly(sizes, pkg);
    TrailerSplit(pkg, trailer);
    TrailerAccepted(CkCrc32, crc, AsUint(Crc(pkg)), []);
    assert trailer + [] == trailer;
  }

  /** One wrong octet in the trailer: it goes unnoticed exactly if it is the end marker, or the
      type and not one of the digests'.  A wrong type switches the check off: then the package is
      accepted whatever its CRC is. */
  lemma TrailerDamage(t: Tree, sizes: seq<nat>, crc: uint32, i: nat, b: byte, name: CString)
    requires Encodable(t) && i < 7 && b != Trailer(CkCrc32, crc)[i]
    ensures var ok := Accepted(sizes, PackageBytes(t) + Trailer(CkCrc32, crc)[i := b], name, true);
            && (CascadedOver(sizes, PackageBytes(t), crc) ==> (ok <==> i == 6 || (i == 1 && b != 2 && b != 3)))
            && (i == 1 ==> (ok <==> b != 2 && b != 3))
  {
    hide TreeBytes, TrailerOk, Cascaded, Crc, AsUint, Package, Encodable, PackageBytes;
    var pkg, trailer := PackageBytes(t), Trailer(CkCrc32, crc)[i := b];
    PackageRoundTrip(t, name, trailer);
    TrailerSplit(pkg, trailer);
    DamagedTrailer(crc, i, b, AsUint(Cascaded(sizes, pkg, XOR_OUT)));
  }

  // -------------------------------------------------------------------------
  // From tree to tree

  /** `IpcNode::SendDat` from the created segment on: encode a datum into segments and queue
      them; the result is the message id. */
  method SendDat(queue: TQ.IpcTransmitQueue, template: SegBuffer, dat: Datum, ghost t: Tree, ghost nodes: set<Datum>) returns (rv: uint32)
    requires queue.Valid() && Denotes(dat, t, nodes)
    modifies queue
    ensures queue.Valid() && old(queue.Value()).Valid() && rv == queue.msgId
    ensures var msg := Fragments(Header(template), PackageBytes(t));
            msg != [] && queue.Value() == old(queue.Value()).Transmitted(msg)
  {
    hide Fragments, Chained, Images, FragCount, TQ.IpcTransmitQueue.Valid, TQ.IpcTransmitQueue.Value, Denotes;
    queue.NonEmpty();
    var seg, segs, bufs := CutDatum(template, dat, t, nodes);
    rv := queue.TransmitMessage(seg, segs, bufs);
  }

  method CutDatum(template: SegBuffer, dat: Datum, ghost t: Tree, ghost nodes: set<Datum>)
    returns (seg: IpcSegment?, ghost segs: seq<IpcSegment>, ghost bufs: seq<SegBuffer>)
    requires Denotes(dat, t, nodes)
    ensures Chained(segs, bufs) && Images(bufs) == Fragments(Header(template), PackageBytes(t))
    ensures seg == if segs == [] then null else segs[0]
    ensures segs != [] && forall i :: 0 <= i < |segs| ==> fresh(segs[i])
  {
    hide Fragments, Finalized, Filling, Chained, Images, FragCount, Flatten, Placed, Offset, TreeBytes;
    ghost var data := PackageBytes(t);
    var strm := EncodedStream(template, dat, t, nodes);
    StreamIsFragments(strm, data);
    strm.Finalize();
    seg, segs, bufs := strm.SegmentExtract();
    ChainCount(segs, bufs);
    SomeFragments(|data|);
  }

  /** Encode a datum into a new segment stream. */
  method EncodedStream(template: SegBuffer, dat: Datum, ghost t: Tree, ghost nodes: set<Datum>) returns (strm: StreamBase)
    requires Denotes(dat, t, nodes)
    ensures strm.Valid() && fresh(strm) && fresh(strm.store) && strm.store.provider.SegmentChain?
    ensures forall i :: 0 <= i < |strm.store.Segs| ==> fresh(strm.store.Segs[i])
    ensures strm.store.Headed() && strm.store.Origin == Header(template)
    ensures strm.Tight() && strm.Flat() == PackageBytes(t)
  {
    hide Header, Filling, Chained, Flatten, Placed, Offset, PackageBytes, Denotes, BlockStore.Headed, StreamBase.Tight;
    strm := new StreamBase(SegmentChain);
    strm.store.TemplateSet(template);
    var rv, sizes, crc := EncodeStream(strm, dat, CkNone, t, nodes);
    assert PackageBytes(t) + [] == PackageBytes(t);
    forall i | 0 <= i < |strm.store.Segs|
      ensures fresh(strm.store.Segs[i])
    {
      assert strm.store.Segs[i] in strm.Repr();
    }
  }

  /** What a receiver does with a delivered datum message. */
  method ReceiveDat(seg: IpcSegment, dat: Datum, text: Variant -> CString, ghost segs: seq<IpcSegment>, ghost bufs: seq<SegBuffer>, ghost h: HeaderImage, ghost t: Tree)
    returns (rv: bool, ghost nodes: set<Datum>)
    requires Chained(segs, bufs) && segs != [] && seg == segs[0]
    requires Images(bufs) == Fragments(h, PackageBytes(t))
    modifies dat
    ensures Encodable(t) ==> rv && Denotes(dat, Tree(Named(NameOf(old(dat.attribs), text)) + t.attribs, t.subs), nodes)
    ensures !rv ==> dat.datums == [] && exists name: CString :: dat.attribs == Named(name)
  {
    hide Fragments, FragmentAt, Chained, Images, Injected, PackageBytes, TreeBytes, Denotes, Package, Encodable;
    ghost var name := NameOf(dat.attribs, text);
    ReceivedPackage(bufs, h, t, name);
    var strm := new StreamBase(SegmentChain);
    strm.SegmentInject(seg, segs, bufs);
    var serDes := new SerDesNative();
    rv, nodes := serDes.Decode(strm, dat, false, text);
  }

  lemma ReceivedPackage(bufs: seq<SegBuffer>, h: HeaderImage, t: Tree, name: CString)
    requires Images(bufs) == Fragments(h, PackageBytes(t))
    ensures bufs != [] && DataLen(bufs[|bufs| - 1].mem) <= CAPACITY && Injected(bufs) == PackageBytes(t)
    ensures Encodable(t) ==> Package(PackageBytes(t), name) == Got([Tree(Named(name) + t.attribs, t.subs)], [])
  {
    hide FragmentAt, Injected, TreeBytes, Package, Encodable, DataLen;
    var p := PackageBytes(t);
    forall i | 0 <= i < |bufs|
      ensures Image(bufs[i]) == FragmentAt(h, p, i)
    {
      assert Images(bufs)[i] == Fragments(h, p)[i];
    }
    ReceivedIsPayload(bufs, h, p);
    if Encodable(t) {
      PackageRoundTrip(t, name, []);
      assert p + [] == p;
    }
  }
}

/** The encoder of cpSerDesNative.cpp, which appends octets to a stream. */
module NativeEncoder {
  import opened Bytes
  import opened Flat
  import opened Segment
  import opened BlockStore
  import opened Stream
  import opened NativeFormat
  import opened DatumTree
  import opened Crc32
  import opened Cascade

  /** Ready for appending. */
  ghost predicate AtEnd(strm: StreamBase)
    reads strm, strm.store, strm.store.Segs
  {
    strm.Valid() && strm.Pos() == |strm.Flat()|
  }

  /** What `Finalize` needs of a segment stream. */
  ghost predicate Whole(strm: StreamBase)
    reads strm, strm.store, strm.store.Segs
  {
    strm.store.provider.SegmentChain? && strm.store.Headed() && strm.Valid() && strm.Tight()
  }

  /** The octets written so far. */
  ghost function Out(strm: StreamBase): seq<byte>
    reads strm, strm.store, strm.store.Segs
  {
    if strm.Valid() then strm.Flat() else []
  }

  lemma WrittenAtEnd(f: seq<byte>, v: seq<byte>)
    ensures Written(f, |f|, v) == f + v
  {
  }

  method OctetInsert(strm: StreamBase, val: byte) returns (rv: bool)
    requires AtEnd(strm)
    modifies strm.Repr()
    ensures rv && AtEnd(strm) && Out(strm) == old(Out(strm)) + [val]
    ensures fresh(strm.Repr() - old(strm.Repr())) && strm.store.Origin == old(strm.store.Origin)
    ensures old(Whole(strm)) ==> Whole(strm)
  {
    hide StreamBase.Valid, StreamBase.Flat, StreamBase.Pos, StreamBase.Tight, BlockStore.Headed, Written;
    WrittenAtEnd(strm.Flat(), [val]);
    strm.WriteOctet(val);
    rv := true;
  }

  /** `ArrayWr` of a string or a buffer */
  method BytesInsert(strm: StreamBase, d: seq<byte>) returns (rv: bool)
    requires AtEnd(strm)
    modifies strm.Repr()
    ensures rv && AtEnd(strm) && Out(strm) == old(Out(strm)) + d
    ensures fresh(strm.Repr() - old(strm.Repr())) && strm.store.Origin == old(strm.store.Origin)
    ensures old(Whole(strm)) ==> Whole(strm)
  {
    hide StreamBase.Valid, StreamBase.Flat, StreamBase.Pos, StreamBase.Tight, BlockStore.Headed, Written;
    WrittenAtEnd(strm.Flat(), d);
    var buf := new byte[|d|](i requires 0 <= i < |d| => d[i]);
    assert buf[..|d|] == d;
    var n := strm.ArrayWr(buf, |d|);
    rv := n == |d|;
  }

  /** An octet of an integer's memory, counted from the least significant one. */
  function OctetAt(v: nat, i: nat): byte {
    if i == 0 then v % 0x100 else OctetAt(v / 0x100, i - 1)
  }

  lemma {:induction false} BeAt(n: nat, v: nat, i: nat)
    requires i < n
    ensures Be(n, v)[n - 1 - i] == OctetAt(v, i)
  {
    if i > 0 {
      BeAt(n - 1, v / 0x100, i - 1);
    }
  }

  /** `ShortInsert`, `LongInsert`, `LongLongInsert`, `Float32Insert` and `Float64Insert`: the
      octets of a number in memory, the most significant first. */
  method UintInsert(strm: StreamBase, n: nat, v: nat) returns (rv: bool)
    requires AtEnd(strm)
    modifies strm.Repr()
    ensures rv && AtEnd(strm) && Out(strm) == old(Out(strm)) + Be(n, v)
    ensures fresh(strm.Repr() - old(strm.Repr())) && strm.store.Origin == old(strm.store.Origin)
    ensures old(Whole(strm)) ==> Whole(strm)
  {
    hide AtEnd, Out, Whole, Be, OctetAt;
    rv := true;
    var i := n;
    ghost var w := Be(n, v);
    while i > 0
      invariant 0 <= i <= n == |w| && rv && AtEnd(strm) && Out(strm) == old(Out(strm)) + w[..n - i]
      invariant fresh(strm.Repr() - old(strm.Repr())) && strm.store.Origin == old(strm.store.Origin)
      invariant old(Whole(strm)) ==> Whole(strm)
    {
      BeAt(n, v, i - 1);
      rv := OctetInsert(strm, OctetAt(v, i - 1));
      i := i - 1;
    }
    assert w[..n] == w;
  }

  method LenInsert(strm: StreamBase, len: nat) returns (rv: bool)
    requires AtEnd(strm)
    modifies strm.Repr()
    ensures rv && AtEnd(strm) && Out(strm) == old(Out(strm)) + LenBytes(len)
    ensures fresh(strm.Repr() - old(strm.Repr())) && strm.store.Origin == old(strm.store.Origin)
    ensures old(Whole(strm)) ==> Whole(strm)
  {
    hide AtEnd, Out, Whole;
    if len < 128 {
      rv := OctetInsert(strm, len);
    } else if len < 0x1_0000 {
      TwoOctets(len);
      rv := OctetInsert(strm, 128);
      rv := OctetInsert(strm, len / 0x100 % 0x100);
      rv := OctetInsert(strm, len % 0x100);
    } else {
      rv := OctetInsert(strm, 129);
      rv := UintInsert(strm, 4, len % 0x1_0000_0000);
    }
  }

  lemma TwoOctets(v: nat)
    ensures Be(2, v) == [v / 0x100 % 0x100, v % 0x100]
  {
    assert Be(1, v / 0x100) == [v / 0x100 % 0x100];
  }

  /** `StringInsert` and `BlobInsert` */
  method BlockInsert(strm: StreamBase, d: seq<byte>) returns (rv: bool)
    requires AtEnd(strm)
    modifies strm.Repr()
    ensures rv && AtEnd(strm) && Out(strm) == old(Out(strm)) + BlockBytes(d)
    ensures fresh(strm.Repr() - old(strm.Repr())) && strm.store.Origin == old(strm.store.Origin)
    ensures old(Whole(strm)) ==> Whole(strm)
  {
    hide AtEnd, Out, Whole, LenBytes;
    rv := LenInsert(strm, |d|);
    rv := BytesInsert(strm, d);
  }

  /** The value of an attribute; there is none for an inert variant. */
  method BodyInsert(strm: StreamBase, v: Variant) returns (rv: bool)
    requires AtEnd(strm)
    modifies strm.Repr()
    ensures (rv <==> !v.Inert?) && AtEnd(strm) && Out(strm) == old(Out(strm)) + Body(v)
    ensures fresh(strm.Repr() - old(strm.Repr())) && strm.store.Origin == old(strm.store.Origin)
    ensures old(Whole(strm)) ==> Whole(strm)
  {
    hide AtEnd, Out, Whole, Be, BlockBytes;
    rv := true;
    match v
    case Inert => rv := false;
    case NoValue =>
    case Octet(_, x) => rv := OctetInsert(strm, x);
    case Short(_, x) => rv := UintInsert(strm, 2, x);
    case Long(_, x) => rv := UintInsert(strm, 4, x);
    case LongLong(_, x) => rv := UintInsert(strm, 8, x);
    case Bool(b) => rv := OctetInsert(strm, if b then 1 else 0);
    case Str(s) => rv := BlockInsert(strm, s);
    case Blob(d) => rv := BlockInsert(strm, d);
  }

  method AttrInsert(strm: StreamBase, a: Attrib, v: Variant) returns (rv: bool)
    requires AtEnd(strm)
    modifies strm.Repr()
    ensures (rv <==> !v.Inert?) && AtEnd(strm) && Out(strm) == old(Out(strm)) + ([Marker(a), TypeCode(v)] + Body(v))
    ensures fresh(strm.Repr() - old(strm.Repr())) && strm.store.Origin == old(strm.store.Origin)
    ensures old(Whole(strm)) ==> Whole(strm)
  {
    hide AtEnd, Out, Whole, Body, Marker, TypeCode;
    rv := OctetInsert(strm, Marker(a));
    rv := OctetInsert(strm, TypeCode(v));
    rv := BodyInsert(strm, v);
  }

  lemma AttrBytesStep(m: Attribs, a: nat)
    ensures AttrBytes(m, a) ==
      if a > ATTR_LAST then []
      else if a !in m then AttrBytes(m, a + 1)
      else [Marker(a), TypeCode(m[a])] + Body(m[a]) + if m[a].Inert? then [] else AttrBytes(m, a + 1)
  {
    hide Marker, TypeCode;
  }

  /** `Start`: the start marker and the attributes; an inert value stops it. */
  method Start(strm: StreamBase, attribs: Attribs) returns (rv: bool)
    requires AtEnd(strm)
    modifies strm.Repr()
    ensures rv <==> forall a :: a in attribs ==> !attribs[a].Inert?
    ensures AtEnd(strm) && Out(strm) == old(Out(strm)) + [MK_DAT] + AttrBytes(attribs, 0)
    ensures fresh(strm.Repr() - old(strm.Repr())) && strm.store.Origin == old(strm.store.Origin)
    ensures old(Whole(strm)) ==> Whole(strm)
  {
    hide AtEnd, Out, Whole, Body, Marker, TypeCode, AttrBytes;
    AttrBytesStep(attribs, ATTR_LAST + 1);
    rv := OctetInsert(strm, MK_DAT);
    var a := 0;
    ghost var all := old(Out(strm)) + [MK_DAT] + AttrBytes(attribs, 0);
    while a <= ATTR_LAST
      invariant 0 <= a <= ATTR_LAST + 1 && AtEnd(strm)
      invariant all == Out(strm) + if rv then AttrBytes(attribs, a) else []
      invariant rv <==> forall k :: k in attribs && k < a ==> !attribs[k].Inert?
      invariant fresh(strm.Repr() - old(strm.Repr())) && strm.store.Origin == old(strm.store.Origin)
      invariant old(Whole(strm)) ==> Whole(strm)
    {
      AttrBytesStep(attribs, a);
      if a in attribs && rv {
        rv := AttrInsert(strm, a, attribs[a]);
      }
      a := a + 1;
    }
  }

  lemma DenotesParts(d: Datum, t: Tree, nodes: set<Datum>)
    requires Denotes(d, t, nodes)
    ensures d.attribs == t.attribs && |d.datums| == |t.subs|
    ensures forall i :: 0 <= i < |t.subs| ==> Denotes(d.datums[i], t.subs[i], nodes)
  {
  }

  lemma TreeParts(t: Tree)
    ensures TreeBytes(t) == [MK_DAT] + AttrBytes(t.attribs, 0) + SubsBytes(t.subs) + [MK_DAT_END]
    ensures SubsBytes(t.subs[..0]) == [] && t.subs[..|t.subs|] == t.subs
  {
  }

  lemma SubsBytesStep(ts: seq<Tree>, i: nat)
    requires i < |ts|
    ensures SubsBytes(ts[..i + 1]) == SubsBytes(ts[..i]) + TreeBytes(ts[i])
  {
    assert ts[..i + 1][..i] == ts[..i];
  }

  /** `Datum::Encode` of a serializer: the datum, its sub-data, and the end marker.  The counts
      that the source adds up are positive even if `Start` failed. */
  method Encode(strm: StreamBase, dat: Datum, ghost t: Tree, ghost nodes: set<Datum>) returns (size: nat)
    requires AtEnd(strm) && Denotes(dat, t, nodes) && forall d :: d in nodes ==> d !in strm.Repr()
    modifies strm.Repr()
    decreases t
    ensures size > 0 && AtEnd(strm) && Out(strm) == old(Out(strm)) + TreeBytes(t)
    ensures fresh(strm.Repr() - old(strm.Repr())) && strm.store.Origin == old(strm.store.Origin)
    ensures old(Whole(strm)) ==> Whole(strm)
  {
    hide AtEnd, Out, Whole, AttrBytes, SubsBytes, TreeBytes, Denotes;
    ghost var f := Out(strm);
    DenotesParts(dat, t, nodes);
    TreeParts(t);
    var started := Start(strm, dat.attribs);
    size := if started then 1 else 0;
    var i := 0;
    while i < |dat.datums|
      invariant i <= |dat.datums| == |t.subs| && AtEnd(strm)
      invariant Out(strm) == f + [MK_DAT] + AttrBytes(t.attribs, 0) + SubsBytes(t.subs[..i])
      invariant fresh(strm.Repr() - old(strm.Repr())) && strm.store.Origin == old(strm.store.Origin)
      invariant old(Whole(strm)) ==> Whole(strm)
      invariant Denotes(dat, t, nodes)
    {
      DenotesParts(dat, t, nodes);
      SubsBytesStep(t.subs, i);
      var n := Encode(strm, dat.datums[i], t.subs[i], nodes);
      size := size + n;
      i := i + 1;
    }
    var ended := OctetInsert(strm, MK_DAT_END);
    size := size + if ended then 1 else 0;
  }

  function ModeCode(mode: CheckMode): byte {
    match mode
    case CkNone => 0
    case CkCrc32 => CK_CRC32
    case CkMd5Sum => 2
    case CkSha1Sum => 3
  }

  /** `Open`: empty the stream and write the header. */
  method Open(strm: StreamBase, ver: byte) returns (rv: bool)
    requires strm.Valid()
    modifies strm.Repr()
    ensures rv && AtEnd(strm) && Out(strm) == [MK_MAGIC, MK_PKG, ver]
    ensures fresh(strm.Repr() - old(strm.Repr()))
    ensures strm.store.provider.SegmentChain? ==> Whole(strm) && strm.store.Origin == Header(old(strm.store.template))
  {
    hide AtEnd, Out, Whole, Header;
    Restart(strm);
    rv := HeaderInsert(strm, ver);
  }

  method HeaderInsert(strm: StreamBase, ver: byte) returns (rv: bool)
    requires AtEnd(strm)
    modifies strm.Repr()
    ensures rv && AtEnd(strm) && Out(strm) == old(Out(strm)) + [MK_MAGIC, MK_PKG, ver]
    ensures fresh(strm.Repr() - old(strm.Repr())) && strm.store.Origin == old(strm.store.Origin)
    ensures old(Whole(strm)) ==> Whole(strm)
  {
    hide AtEnd, Out, Whole;
    rv := OctetInsert(strm, MK_MAGIC);
    rv := OctetInsert(strm, MK_PKG);
    rv := OctetInsert(strm, ver);
  }

  method Restart(strm: StreamBase)
    requires strm.Valid()
    modifies strm.Repr()
    ensures AtEnd(strm) && Out(strm) == []
    ensures fresh(strm.Repr() - old(strm.Repr()))
    ensures strm.store.provider.SegmentChain? ==> Whole(strm) && strm.store.Origin == Header(old(strm.store.template))
  {
    hide Header, BlockStore.Headed;
    strm.Clear();
  }

  function AsUint(c: word): uint32 { c as int }

  /** A CRC that was cascaded over some blocks which hold d. */
  ghost predicate CascadedOver(sizes: seq<nat>, d: seq<byte>, crc: uint32) {
    && |d| <= Total(sizes) && (forall i :: 0 <= i < |sizes| ==> sizes[i] > 0)
    && crc == AsUint(Cascaded(sizes, d, XOR_OUT))
  }

  method PosAtEnd(strm: StreamBase) returns (pos: nat)
    requires AtEnd(strm)
    ensures pos == |Out(strm)|
  {
    hide StreamBase.Valid, StreamBase.Flat, StreamBase.Pos;
    pos := strm.PosGet();
  }

  /** The CRC of the first octets of a stream. */
  method PrefixCrc(strm: StreamBase, pos: nat, ghost body: seq<byte>) returns (c: uint32, ghost sizes: seq<nat>)
    requires AtEnd(strm) && body <= Out(strm) && pos == |body| > 0
    ensures CascadedOver(sizes, body, c)
  {
    hide Flatten, Offset, Chained, Placed, Cascaded, AsUint;
    ghost var bs := strm.store.Contents();
    FlatIsPrefix(bs, strm.curBlock, strm.curPos, strm.lastBlock, strm.lastPos);
    TotalLength(bs);
    NoEmptyBlock(strm.store);
    sizes := strm.Sizes();
    var crc := strm.Crc32Get(pos);
    assert body == strm.Flat()[..pos];
    c := AsUint(crc);
  }

  /** `Close`: the end marker and, on request, the checksum of all that precedes it. */
  method Close(strm: StreamBase, mode: CheckMode) returns (rv: bool, ghost sizes: seq<nat>, ghost crc: uint32)
    requires AtEnd(strm)
    modifies strm.Repr()
    ensures rv && AtEnd(strm)
    ensures var body := old(Out(strm)) + [MK_PKG_END];
            Out(strm) == body + Trailer(mode, crc) && (mode == CkCrc32 ==> CascadedOver(sizes, body, crc))
    ensures fresh(strm.Repr() - old(strm.Repr())) && strm.store.Origin == old(strm.store.Origin)
    ensures old(Whole(strm)) ==> Whole(strm)
  {
    hide Out, Whole, AtEnd, CascadedOver, Trailer;
    sizes, crc := [], 0;
    rv := OctetInsert(strm, MK_PKG_END);
    var pos := PosAtEnd(strm);
    if mode != CkNone {
      rv, sizes, crc := ChecksumInsert(strm, mode, pos);
    }
    NoTrailer(Out(strm));
  }

  /** The checksum of the octets before pos, the end of the stream. */
  method ChecksumInsert(strm: StreamBase, mode: CheckMode, pos: nat) returns (rv: bool, ghost sizes: seq<nat>, ghost crc: uint32)
    requires AtEnd(strm) && pos == |Out(strm)| > 0 && mode != CkNone
    modifies strm.Repr()
    ensures rv && AtEnd(strm) && Out(strm) == old(Out(strm)) + Trailer(mode, crc)
    ensures mode == CkCrc32 ==> CascadedOver(sizes, old(Out(strm)), crc)
    ensures fresh(strm.Repr() - old(strm.Repr())) && strm.store.Origin == old(strm.store.Origin)
    ensures old(Whole(strm)) ==> Whole(strm)
  {
    hide Out, Whole, AtEnd, CascadedOver, Trailer, Be;
    sizes, crc := [], 0;
    ghost var body := Out(strm);
    rv := OctetInsert(strm, MK_CHK);
    rv := OctetInsert(strm, ModeCode(mode));
    if mode == CkCrc32 {
      var c;
      c, sizes := PrefixCrc(strm, pos, body);
      crc := c;
      rv := UintInsert(strm, 4, c);
    }
    rv := OctetInsert(strm, MK_CHK_END);
    TrailerIs(body, mode, crc);
  }

  lemma TrailerIs(body: seq<byte>, mode: CheckMode, crc: uint32)
    requires mode != CkNone
    ensures var head := body + [MK_CHK] + [ModeCode(mode)];
            body + Trailer(mode, crc) == (if mode == CkCrc32 then head + Be(4, crc) else head) + [MK_CHK_END]
  {
    hide Be;
  }

  lemma NoTrailer(body: seq<byte>)
    ensures Trailer(CkNone, 0) == [] && body + [] == body
  {
  }

  const DATUM_VERSION: byte := 0

  /** `Datum::Encode` of a stream: always reports success. */
  method EncodeStream(strm: StreamBase, dat: Datum, mode: CheckMode, ghost t: Tree, ghost nodes: set<Datum>)
    returns (rv: bool, ghost sizes: seq<nat>, ghost crc: uint32)
    requires strm.Valid() && Denotes(dat, t, nodes) && forall d :: d in nodes ==> d !in strm.Repr()
    modifies strm.Repr()
    ensures rv && AtEnd(strm) && Out(strm) == PackageBytes(t) + Trailer(mode, crc)
    ensures mode == CkCrc32 ==> CascadedOver(sizes, PackageBytes(t), crc)
    ensures fresh(strm.Repr() - old(strm.Repr()))
    ensures strm.store.provider.SegmentChain? ==> Whole(strm) && strm.store.Origin == Header(old(strm.store.template))
  {
    hide Out, Whole, AtEnd, CascadedOver, Trailer, TreeBytes, Denotes, Header;
    rv := Open(strm, DATUM_VERSION);
    var n := Encode(strm, dat, t, nodes);
    rv := rv && n != 0;
    var closed;
    closed, sizes, crc := Close(strm, mode);
    rv := rv && closed;
  }
}

/** A message from the sending node to the receiving one: cut, scheduled, interleaved, collected
    and read. */
module EndToEnd {
  import opened Bytes
  import opened Flat
  import opened Segment
  import opened Fragment
  import opened BlockStore
  import opened Stream
  import opened Message
  import opened Delivery
  import opened FragmentLimit
  import opened Schedule
  import Accum
  import TQ = TransmitQueue

  /** What a caller asks a node to send. */
  datatype Outgoing = Outgoing(header: HeaderImage, payload: seq<byte>) {
    predicate Sendable() { Plain(header) && 0 < |payload| <= MAX_PAYLOAD }
  }

  function Cut(o: Outgoing): seq<Wire> { Fragments(o.header, o.payload) }

  function CutAll(sends: seq<Outgoing>): (msgs: seq<seq<Wire>>)
    ensures |msgs| == |sends|
  {
    seq(|sends|, k requires 0 <= k < |sends| => Cut(sends[k]))
  }

  // -------------------------------------------------------------------------
  // Any arrival order

  lemma SendableNumbered(sends: seq<Outgoing>)
    requires forall k :: 0 <= k < |sends| ==> sends[k].Sendable()
    ensures AllNumbered(CutAll(sends))
    ensures forall k :: 0 <= k < |sends| ==> |Cut(sends[k])| > 0 && Guid(Cut(sends[k])[0]) == Guid(sends[k].header)
  {
    hide Cut, Guid, Numbered, Outgoing.Sendable;
    forall k | 0 <= k < |sends|
      ensures Numbered(CutAll(sends)[k]) && |Cut(sends[k])| > 0 && Guid(Cut(sends[k])[0]) == Guid(sends[k].header)
    {
      CutNumbered(sends[k]);
    }
  }

  /** However the segments of different messages interleave, every payload reaches the receiver
      once and unchanged, as long as messages with the same guid take turns: the k-th message
      delivered is message done[k], and any buffers that hold the delivered segments read as its
      payload. */
  lemma PayloadsArrive(sends: seq<Outgoing>, order: seq<(nat, nat)>)
    requires forall k :: 0 <= k < |sends| ==> sends[k].Sendable()
    requires AllNumbered(CutAll(sends)) && Order(CutAll(sends), order) && InTurn(CutAll(sends), order)
    requires forall i, j :: 0 <= i < |sends| && 0 <= j < |Cut(sends[i])| ==> (i, j) in order
    ensures var (m, d) := Run(map[], Arrivals(CutAll(sends), order));
            var done := Completed(CutAll(sends), order);
            && m == map[] && |d| == |done| == |sends|
            && (forall i :: 0 <= i < |sends| ==> i in done)
            && (forall x :: 0 <= x < |d| ==> d[x] == Cut(sends[done[x]]) && Reads(d[x], sends[done[x]].payload))
  {
    hide Cut, Run, Guid, Numbered, Reads, Completed, Outgoing.Sendable;
    var msgs := CutAll(sends);
    forall k | 0 <= k < |sends|
      ensures Reads(msgs[k], sends[k].payload)
    {
      CutNumbered(sends[k]);
    }
    EveryMessageOnce(msgs, order);
  }

  /** Received buffers that are read as p: `SegmentInject` makes `Injected` the stream. */
  ghost predicate Carries(bufs: seq<SegBuffer>, p: seq<byte>) {
    bufs != [] && DataLen(bufs[|bufs| - 1].mem) <= CAPACITY && Injected(bufs) == p
  }

  /** All buffers with these contents are. */
  ghost predicate Reads(ws: seq<Wire>, p: seq<byte>) {
    forall bufs: seq<SegBuffer> {:trigger Images(bufs)} :: Images(bufs) == ws ==> Carries(bufs, p)
  }

  lemma CutNumbered(o: Outgoing)
    requires o.Sendable()
    ensures Numbered(Cut(o)) && |Cut(o)| > 0 && Guid(Cut(o)[0]) == Guid(o.header)
    ensures Reads(Cut(o), o.payload)
  {
    hide FragmentAt, Guid, Injected, Plain, DataLen;
    FragmentsAreNumbered(o.header, o.payload);
    forall bufs: seq<SegBuffer> | Images(bufs) == Cut(o)
      ensures Carries(bufs, o.payload)
    {
      forall i | 0 <= i < |bufs|
        ensures Image(bufs[i]) == FragmentAt(o.header, o.payload, i)
      {
        assert Images(bufs)[i] == Cut(o)[i];
      }
      ReceivedIsPayload(bufs, o.header, o.payload);
    }
  }

  // -------------------------------------------------------------------------
  // From one node's transmit queue

  /** The header with the id that the transmit queue assigns. */
  function WithHeaderId(h: HeaderImage, id: uint32): HeaderImage {
    Overlay(h, SEG_MSGID, Be32(id))
  }

  /** The k-th message of a node, as it leaves. */
  function Identified(sends: seq<Outgoing>): (r: seq<Outgoing>)
    ensures |r| == |sends|
  {
    seq(|sends|, k requires 0 <= k < |sends| => sends[k].(header := WithHeaderId(sends[k].header, IdAt(k))))
  }

  lemma IdFields(h: HeaderImage, id: uint32)
    ensures var r := WithHeaderId(h, id);
            && MsgId(r) == id && SrcAddr(r) == SrcAddr(h)
            && Guid(r) == SrcAddr(h) * 0x1_0000_0000 + id
            && r[SEG_OPTIONS] == h[SEG_OPTIONS] && (Plain(r) <==> Plain(h))
  {
    hide U32, Be32;
    var r := WithHeaderId(h, id);
    OverlayAt(h, SEG_MSGID, Be32(id));
    BigEndian32(id, Be32(id));
    assert r[SEG_MSGID..SEG_MSGID + 4] == Be32(id);
    assert r[SEG_SRCADDR..SEG_SRCADDR + 4] == h[SEG_SRCADDR..SEG_SRCADDR + 4];
  }

  /** Giving every segment the id is the same as cutting with the id in the header. */
  lemma TagIsCut(o: Outgoing, id: uint32)
    ensures Tag(Cut(o), id) == Cut(o.(header := WithHeaderId(o.header, id)))
  {
    hide FragmentAt, TQ.WithId, WithHeaderId;
    var ws := Cut(o);
    forall i | 0 <= i < |ws|
      ensures TQ.WithId(ws[i], id) == FragmentAt(WithHeaderId(o.header, id), o.payload, i)
    {
      TagFragment(o.header, o.payload, i, id);
    }
  }

  lemma TagFragment(h: HeaderImage, p: seq<byte>, i: nat, id: uint32)
    requires i < FragCount(|p|)
    ensures TQ.WithId(FragmentAt(h, p, i), id) == FragmentAt(WithHeaderId(h, id), p, i)
  {
    hide Stamp, FinalOptions, Chunk, Be32, Plain;
    var c := Chunk(p, i);
    IdFields(h, id);
    var s := Stamp(h, FinalOptions(h[SEG_OPTIONS], i, FragCount(|p|)), Truncate16(i + 1), |c|);
    StampApart(h, FinalOptions(h[SEG_OPTIONS], i, FragCount(|p|)), Truncate16(i + 1), |c|, id);
    OverlayMiddle([], s, c, SEG_MSGID, Be32(id));
    assert [] + s + c == s + c && [] + Overlay(s, SEG_MSGID, Be32(id)) + c == Overlay(s, SEG_MSGID, Be32(id)) + c;
  }

  lemma StampApart(h: HeaderImage, options: byte, frag: uint16, len: uint16, id: uint32)
    ensures Overlay(Stamp(h, options, frag, len), SEG_MSGID, Be32(id)) == Stamp(WithHeaderId(h, id), options, frag, len)
  {
    hide Overlay, Be32, Be16;
    var h1 := Overlay(h, SEG_OPTIONS, [options]);
    var h2 := Overlay(h1, SEG_FRAGNUM, Be16(frag));
    OverlayApart(h, SEG_OPTIONS, [options], SEG_MSGID, Be32(id));
    OverlayApart(h1, SEG_FRAGNUM, Be16(frag), SEG_MSGID, Be32(id));
    OverlayApart(h2, SEG_MSGID, Be32(id), SEG_DATALEN, Be16(len));
  }

  lemma CutPriority(o: Outgoing)
    requires o.Sendable()
    ensures |Cut(o)| > 0
    ensures forall j :: 0 <= j < |Cut(o)| ==> Priority(Cut(o)[j]) == Priority(o.header)
  {
    hide FragmentAt, Priority, Plain;
    forall j | 0 <= j < |Cut(o)|
      ensures Priority(Cut(o)[j]) == Priority(o.header)
    {
      FragmentFields(o.header, o.payload, j);
    }
  }

  lemma SendsAreUniform(sends: seq<Outgoing>)
    requires forall k :: 0 <= k < |sends| ==> sends[k].Sendable()
    ensures Uniform(CutAll(sends))
    ensures Tagged(CutAll(sends)) == CutAll(Identified(sends))
  {
    hide Cut, Priority, Outgoing.Sendable, Tag, WithHeaderId;
    var msgs := CutAll(sends);
    forall k | 0 <= k < |sends|
      ensures |msgs[k]| > 0
      ensures forall j :: 0 <= j < |msgs[k]| ==> Priority(msgs[k][j]) == Priority(sends[k].header)
      ensures Tagged(msgs)[k] == CutAll(Identified(sends))[k]
    {
      CutPriority(sends[k]);
      TagIsCut(sends[k], IdAt(k));
    }
  }

  /** What one node sends is an arrival order of the identified messages, with all their segments. */
  lemma NodeOrder(sends: seq<Outgoing>, turns: seq<TQ.Turn>) returns (order: seq<Mark>)
    requires forall k :: 0 <= k < |sends| ==> sends[k].Sendable()
    requires forall k, l :: 0 <= k < l < |sends| ==> SrcAddr(sends[k].header) == SrcAddr(sends[l].header)
    requires TQ.NoneEmpty(CutAll(sends)) && TQ.Submitted(turns) == |sends| && TQ.Run(CutAll(sends), turns).0.queue == []
    ensures var msgs := CutAll(Identified(sends));
            && (forall k :: 0 <= k < |sends| ==> Identified(sends)[k].Sendable())
            && AllNumbered(msgs) && Order(msgs, order) && TQ.Run(CutAll(sends), turns).1 == Arrivals(msgs, order)
            && (forall i, j :: 0 <= i < |sends| && 0 <= j < |msgs[i]| ==> (i, j) in order)
            && (InTurn(msgs, order) <==> TookTurns(CutAll(sends), order))
    ensures IdsFree(CutAll(sends), turns) ==> TookTurns(CutAll(sends), order)
  {
    hide TQ.Run, Cut, Guid, Schedule.Tracks, TQ.NoneEmpty, Uniform, Tagged, Outgoing.Sendable, WithHeaderId, IdsFree, TookTurns, InTurn, AllNumbered, OneEach;
    var msgs := CutAll(sends);
    SendsAreUniform(sends);
    var pend;
    order, pend := EveryRunTracks(msgs, turns);
    var (s, out) := TQ.Run(msgs, turns);
    RunIsOrder(msgs, |sends|, s, out, order, pend);
    OutputIsArrivals(sends, |sends|, s, out, order, pend);
    forall k | 0 <= k < |sends|
      ensures Identified(sends)[k].Sendable()
    {
      IdentifiedSendable(sends[k], IdAt(k));
    }
    TurnsOfIds(sends, order);
  }

  /** Everything that one node sends, in any interleaving of submissions and emissions, arrives at
      the receiver that accumulates its output: once the queue is empty every payload has been
      delivered once and unchanged, under its own id.  The run may be of any length, so that ids
      come up again, as long as none is given that a waiting message has. */
  lemma NodeToNode(sends: seq<Outgoing>, turns: seq<TQ.Turn>) returns (done: seq<nat>)
    requires forall k :: 0 <= k < |sends| ==> sends[k].Sendable()
    requires forall k, l :: 0 <= k < l < |sends| ==> SrcAddr(sends[k].header) == SrcAddr(sends[l].header)
    requires TQ.NoneEmpty(CutAll(sends)) && TQ.Submitted(turns) == |sends|
    requires IdsFree(CutAll(sends), turns) && TQ.Run(CutAll(sends), turns).0.queue == []
    ensures var out := TQ.Run(CutAll(sends), turns).1;
            var (m, d) := Run(map[], out);
            && m == map[] && |d| == |done| == |sends|
            && (forall i :: 0 <= i < |sends| ==> i in done)
            && (forall x :: 0 <= x < |d| ==> done[x] < |sends| && d[x] == Cut(Identified(sends)[done[x]]) && Reads(d[x], sends[done[x]].payload))
  {
    hide Run, TQ.Run, Cut, Guid, Reads, Completed, TQ.NoneEmpty, Outgoing.Sendable, WithHeaderId, IdsFree, TookTurns, InTurn, AllNumbered;
    var order := NodeOrder(sends, turns);
    PayloadsArrive(Identified(sends), order);
    done := Completed(CutAll(Identified(sends)), order);
  }

  /** Exactly which runs deliver everything, when messages with the same id differ: those in which no
      segment of a longer message is emitted while another message with its id has been emitted in
      part. */
  lemma NodeToNodeExactly(sends: seq<Outgoing>, turns: seq<TQ.Turn>) returns (order: seq<Mark>)
    requires forall k :: 0 <= k < |sends| ==> sends[k].Sendable()
    requires forall k, l :: 0 <= k < l < |sends| ==> SrcAddr(sends[k].header) == SrcAddr(sends[l].header)
    requires TQ.NoneEmpty(CutAll(sends)) && TQ.Submitted(turns) == |sends| && TQ.Run(CutAll(sends), turns).0.queue == []
    requires AllNumbered(CutAll(Identified(sends))) && DifferThroughout(CutAll(Identified(sends)))
    ensures var ids, out := Identified(sends), TQ.Run(CutAll(sends), turns).1;
            && Order(CutAll(ids), order) && out == Arrivals(CutAll(ids), order)
            && ((forall i :: 0 <= i < |sends| ==> Cut(ids[i]) in Run(map[], out).1) <==> TookTurns(CutAll(sends), order))
  {
    hide Run, TQ.Run, Cut, Guid, TQ.NoneEmpty, Outgoing.Sendable, WithHeaderId, TookTurns, InTurn, AllNumbered, DifferThroughout, IdsFree;
    order := NodeOrder(sends, turns);
    WholeExactlyInTurn(CutAll(Identified(sends)), order);
    assert forall i :: 0 <= i < |sends| ==> CutAll(Identified(sends))[i] == Cut(Identified(sends)[i]);
  }

  /** A node that sends no more than 2^32 - 1 messages gives no id twice. */
  lemma FewSends(sends: seq<Outgoing>, turns: seq<TQ.Turn>)
    requires forall k :: 0 <= k < |sends| ==> sends[k].Sendable()
    requires TQ.Submitted(turns) <= |sends| <= 0xffff_ffff
    ensures TQ.NoneEmpty(CutAll(sends)) && IdsFree(CutAll(sends), turns)
  {
    hide Cut, Uniform, Tagged, Outgoing.Sendable, IdsFree;
    SendsAreUniform(sends);
    FewMessages(CutAll(sends), turns);
  }

  /** The messages of one node that share a guid share an id. */
  lemma TurnsOfIds(sends: seq<Outgoing>, order: seq<Mark>)
    requires forall k :: 0 <= k < |sends| ==> sends[k].Sendable()
    requires forall k :: 0 <= k < |sends| ==> Identified(sends)[k].Sendable()
    requires forall k, l :: 0 <= k < l < |sends| ==> SrcAddr(sends[k].header) == SrcAddr(sends[l].header)
    requires Order(CutAll(Identified(sends)), order)
    ensures AllNumbered(CutAll(Identified(sends)))
    ensures InTurn(CutAll(Identified(sends)), order) <==> TookTurns(CutAll(sends), order)
  {
    hide Cut, Outgoing.Sendable, WithHeaderId, TookTurn, Guid, SrcAddr, IdAt, Numbered, Seen, Order, Waits;
    var ids := Identified(sends);
    var msgs := CutAll(ids);
    SendableNumbered(ids);
    OrderBounds(msgs, order);
    forall x, i | 0 <= x < |order| && 0 <= i < |msgs|
      ensures Waits(msgs, order[..x], order[x].0, i) <==> TookTurn(CutAll(sends), order[..x], order[x].0, i)
    {
      WaitsItsTurn(sends, order[..x], order[x].0, i);
    }
  }

  lemma OrderBounds(msgs: seq<seq<Wire>>, order: seq<Mark>)
    requires Order(msgs, order)
    ensures forall x :: 0 <= x < |order| ==> order[x].0 < |msgs| && order[x].1 < |msgs[order[x].0]|
    ensures forall x :: 0 <= x <= |order| ==> Order(msgs, order[..x])
  {
  }

  lemma WaitsItsTurn(sends: seq<Outgoing>, before: seq<Mark>, k: nat, i: nat)
    requires forall k :: 0 <= k < |sends| ==> sends[k].Sendable()
    requires forall k :: 0 <= k < |sends| ==> Identified(sends)[k].Sendable()
    requires forall k, l :: 0 <= k < l < |sends| ==> SrcAddr(sends[k].header) == SrcAddr(sends[l].header)
    requires Order(CutAll(Identified(sends)), before) && k < |sends| && i < |sends|
    requires AllNumbered(CutAll(Identified(sends)))
    ensures Waits(CutAll(Identified(sends)), before, k, i) <==> TookTurn(CutAll(sends), before, k, i)
  {
    hide Cut, Outgoing.Sendable, WithHeaderId, NoneOrAll, Guid, SrcAddr, IdAt, Numbered, Seen, Order;
    var ids := Identified(sends);
    SendableNumbered(ids);
    SameCounts(sends);
    IdFields(sends[k].header, IdAt(k));
    IdFields(sends[i].header, IdAt(i));
    NotPartial(sends, before, i);
  }

  lemma SameCounts(sends: seq<Outgoing>)
    requires forall k :: 0 <= k < |sends| ==> sends[k].Sendable()
    ensures forall k :: 0 <= k < |sends| ==> |Cut(Identified(sends)[k])| == |Cut(sends[k])|
  {
    hide Cut, Outgoing.Sendable, Tag, WithHeaderId;
    SendsAreUniform(sends);
    forall k | 0 <= k < |sends|
      ensures |Cut(Identified(sends)[k])| == |Cut(sends[k])|
    {
      assert Tagged(CutAll(sends))[k] == CutAll(Identified(sends))[k];
    }
  }

  lemma NotPartial(sends: seq<Outgoing>, before: seq<Mark>, i: nat)
    requires Order(CutAll(Identified(sends)), before) && i < |sends|
    requires |Cut(Identified(sends)[i])| == |Cut(sends[i])|
    ensures NoneOrAll(CutAll(sends), before, i) <==> !Partial(CutAll(Identified(sends))[i], Seen(before, i))
  {
    hide Cut, Seen, WithHeaderId;
    var msgs, s := CutAll(Identified(sends)), Seen(before, i);
    SeenBounds(msgs, before, i);
    FullSet(s, |msgs[i]|);
    forall y: nat
      ensures y in s <==> (i, y) in before
    {
      SeenMember(before, i, y);
    }
    if s == {} {
      assert forall m: Mark :: m in before && m.0 == i ==> m == (i, m.1) && m.1 in s;
    } else if NoneOrAll(CutAll(sends), before, i) {
      var y :| y in s;
      assert (i, y) in before;
      AllSeen(msgs, before, i);
    }
  }

  lemma IdentifiedSendable(o: Outgoing, id: uint32)
    requires o.Sendable()
    ensures o.(header := WithHeaderId(o.header, id)).Sendable()
  {
    hide Plain;
    IdFields(o.header, id);
  }

  /** The output of the queue is an arrival order of the identified messages, in which each of
      their segments occurs once. */
  lemma OutputIsArrivals(sends: seq<Outgoing>, c: nat, s: TQ.Sender, out: seq<Wire>, order: seq<Mark>, pend: seq<Mark>)
    requires forall k :: 0 <= k < |sends| ==> sends[k].Sendable()
    requires Schedule.Tracks(CutAll(sends), c, s, out, order, pend)
    requires forall x, y :: 0 <= x < y < |order| ==> order[x] != order[y]
    ensures Order(CutAll(Identified(sends)), order) && out == Arrivals(CutAll(Identified(sends)), order)
    ensures forall i, j :: 0 <= i < |sends| && 0 <= j < |Cut(Identified(sends)[i])| ==> Marks(CutAll(sends), (i, j))
  {
    hide Cut, Outgoing.Sendable, Tag, WithHeaderId, Queued, Balanced, Ordered;
    SendsAreUniform(sends);
    SameCounts(sends);
  }

  // -------------------------------------------------------------------------
  // The two ends

  /** A full stream, finalized, is the fragments of its octets. */
  lemma StreamIsFragments(strm: StreamBase, data: seq<byte>)
    requires strm.Valid() && strm.store.Headed() && strm.Tight() && strm.Flat() == data && data != []
    ensures strm.lastPos <= CAPACITY
    ensures Images(Finalized(strm.store.Bufs, strm.lastPos)) == Fragments(strm.store.Origin, data)
  {
    hide Flatten, Images, Fragments, Filling, Chained, Data;
    var bufs, e := strm.store.Bufs, strm.lastPos;
    FlatIsPrefix(Datas(bufs), strm.curBlock, strm.curPos, strm.lastBlock, e);
    ChainOffset(bufs, strm.lastBlock);
    FinalizedIsFragments(bufs, strm.store.Origin, e);
  }

  /** `IpcNode::SendBuf` from the created segment on: cut the buffer into segments and queue them;
      the result is the message id, 0 if there is nothing to send. */
  method SendBuf(queue: TQ.IpcTransmitQueue, template: SegBuffer, pBuf: array?<byte>, msgLen: nat) returns (rv: uint32)
    requires queue.Valid() && (pBuf != null ==> msgLen <= pBuf.Length)
    modifies queue
    ensures queue.Valid() && old(queue.Value()).Valid()
    ensures pBuf == null || msgLen == 0 ==> rv == 0 && queue.Value() == old(queue.Value())
    ensures pBuf != null && msgLen > 0 ==>
      var msg := Fragments(Header(template), pBuf[..msgLen]);
      msg != [] && queue.Value() == old(queue.Value()).Transmitted(msg) && rv == queue.msgId
  {
    hide Fragments, Chained, Images, FragCount, TQ.IpcTransmitQueue.Valid, TQ.IpcTransmitQueue.Value;
    queue.NonEmpty();
    if pBuf == null || msgLen == 0 {
      return 0;
    }
    var seg, segs, bufs := CutBuf(template, pBuf, msgLen);
    rv := queue.TransmitMessage(seg, segs, bufs);
  }

  /** Load a buffer into a new segment stream. */
  method FilledStream(template: SegBuffer, pBuf: array<byte>, msgLen: nat) returns (strm: StreamBase)
    requires 0 < msgLen <= pBuf.Length
    ensures strm.Valid() && fresh(strm) && fresh(strm.store) && strm.store.provider.SegmentChain?
    ensures forall i :: 0 <= i < |strm.store.Segs| ==> fresh(strm.store.Segs[i])
    ensures strm.store.Headed() && strm.store.Origin == Header(template)
    ensures strm.Tight() && strm.Flat() == pBuf[..msgLen]
  {
    hide Header, Filling, Chained, Flatten, Placed, Offset;
    strm := new StreamBase(SegmentChain);
    strm.store.TemplateSet(template);
    var n := strm.ArrayWr(pBuf, msgLen);
    WrittenInto(pBuf[..msgLen]);
    forall i | 0 <= i < |strm.store.Segs|
      ensures fresh(strm.store.Segs[i])
    {
      assert strm.store.Segs[i] in strm.Repr();
    }
  }

  /** Prepare it for transmission. */
  method CutBuf(template: SegBuffer, pBuf: array<byte>, msgLen: nat)
    returns (seg: IpcSegment?, ghost segs: seq<IpcSegment>, ghost bufs: seq<SegBuffer>)
    requires 0 < msgLen <= pBuf.Length
    ensures Chained(segs, bufs) && Images(bufs) == Fragments(Header(template), pBuf[..msgLen])
    ensures seg == if segs == [] then null else segs[0]
    ensures segs != [] && forall i :: 0 <= i < |segs| ==> fresh(segs[i])
  {
    hide Fragments, Finalized, Filling, Chained, Images, FragCount, Flatten, Placed, Offset;
    ghost var data := pBuf[..msgLen];
    var strm := FilledStream(template, pBuf, msgLen);
    StreamIsFragments(strm, data);
    strm.Finalize();
    seg, segs, bufs := strm.SegmentExtract();
    ChainCount(segs, bufs);
    SomeFragments(|data|);
  }

  /** A stream over received segments */
  method ReceivedStream(seg: IpcSegment, ghost segs: seq<IpcSegment>, ghost bufs: seq<SegBuffer>, ghost p: seq<byte>)
    returns (strm: StreamBase)
    requires Chained(segs, bufs) && segs != [] && seg == segs[0] && Carries(bufs, p)
    ensures fresh(strm) && strm.Valid() && strm.Flat() == p && strm.Pos() == 0 && strm.Len() == |p|
  {
    hide Injected, Chained, DataLen;
    strm := new StreamBase(SegmentChain);
    strm.SegmentInject(seg, segs, bufs);
  }

  /** What a receiver does with a delivered message: read it out of the segments. */
  method ReceiveBuf(seg: IpcSegment, ghost segs: seq<IpcSegment>, ghost bufs: seq<SegBuffer>, ghost o: Outgoing, pBuf: array<byte>)
    returns (len: nat)
    requires Chained(segs, bufs) && segs != [] && seg == segs[0]
    requires Images(bufs) == Cut(o) && Reads(Cut(o), o.payload)
    modifies pBuf
    ensures len == Min(pBuf.Length, |o.payload|) && pBuf[..len] == o.payload[..len]
  {
    hide Images, Cut, Reads, Carries, Chained, Overlay, StreamBase.Valid, StreamBase.Flat, StreamBase.Pos, StreamBase.Len;
    ReadsAs(bufs, o.payload);
    var strm := ReceivedStream(seg, segs, bufs, o.payload);
    ghost var was := pBuf[..];
    len := strm.ArrayRd(pBuf, pBuf.Length);
    OverlayFront(was, o.payload, len);
    assert pBuf[..len] == pBuf[..][..len];
  }

  lemma OverlayFront(s: seq<byte>, v: seq<byte>, n: nat)
    requires n <= |v| && n <= |s|
    ensures Overlay(s, 0, v[0..n])[..n] == v[..n]
  {
  }

  /** The accumulator thread of a node that receives the segments of any messages, of any number of
      nodes and in any order in which messages with the same guid take turns: it notifies its node
      of one list of segments per message, each with that message's payload. */
  method ReceiveAll(queue: seq<IpcSegment>, ghost queued: seq<SegBuffer>, ghost sends: seq<Outgoing>, ghost order: seq<Mark>)
    returns (heads: seq<IpcSegment>, ghost lists: seq<seq<IpcSegment>>, ghost bufs: seq<seq<SegBuffer>>, ghost gone: set<IpcSegment>, ghost done: seq<nat>)
    requires forall k :: 0 <= k < |sends| ==> sends[k].Sendable()
    requires AllNumbered(CutAll(sends)) && Order(CutAll(sends), order) && InTurn(CutAll(sends), order)
    requires forall i, j :: 0 <= i < |sends| && 0 <= j < |Cut(sends[i])| ==> (i, j) in order
    requires (forall i, j :: 0 <= i < j < |queue| ==> queue[i] != queue[j]) && Coming(queue, 0, {}, {})
    requires |queued| == |queue| && (forall i :: 0 <= i < |queue| ==> queue[i].buffer == queued[i])
    requires Images(queued) == Arrivals(CutAll(sends), order)
    modifies queue`next
    ensures HandedOver(heads, lists, bufs, gone) && |heads| == |lists| == |bufs| == |done| == |sends|
    ensures forall i :: 0 <= i < |sends| ==> i in done
    ensures forall x :: 0 <= x < |heads| ==> done[x] < |sends| && Images(bufs[x]) == Cut(sends[done[x]]) && Carries(bufs[x], sends[done[x]].payload)
  {
    hide Run, Cut, Reads, Outgoing.Sendable, InTurn, AllNumbered, HandedOver, Carries, Completed;
    PayloadsArrive(sends, order);
    done := Completed(CutAll(sends), order);
    var accums := new Accum.IpcAccumMap();
    heads, lists, bufs, gone := AccumThread(accums, queue, queued);
    OneListEach(heads, lists, bufs, gone);
    forall x | 0 <= x < |heads|
      ensures done[x] < |sends| && Images(bufs[x]) == Cut(sends[done[x]]) && Carries(bufs[x], sends[done[x]].payload)
    {
      assert Contents(bufs)[x] == Images(bufs[x]);
      ReadsAs(bufs[x], sends[done[x]].payload);
    }
  }

  /** The same for everything that one node sent. */
  method ReceiveNode(queue: seq<IpcSegment>, ghost queued: seq<SegBuffer>, ghost sends: seq<Outgoing>, ghost turns: seq<TQ.Turn>)
    returns (heads: seq<IpcSegment>, ghost lists: seq<seq<IpcSegment>>, ghost bufs: seq<seq<SegBuffer>>, ghost gone: set<IpcSegment>, ghost done: seq<nat>)
    requires forall k :: 0 <= k < |sends| ==> sends[k].Sendable()
    requires forall k, l :: 0 <= k < l < |sends| ==> SrcAddr(sends[k].header) == SrcAddr(sends[l].header)
    requires TQ.NoneEmpty(CutAll(sends)) && TQ.Submitted(turns) == |sends|
    requires IdsFree(CutAll(sends), turns) && TQ.Run(CutAll(sends), turns).0.queue == []
    requires (forall i, j :: 0 <= i < j < |queue| ==> queue[i] != queue[j]) && Coming(queue, 0, {}, {})
    requires |queued| == |queue| && (forall i :: 0 <= i < |queue| ==> queue[i].buffer == queued[i])
    requires Images(queued) == TQ.Run(CutAll(sends), turns).1
    modifies queue`next
    ensures HandedOver(heads, lists, bufs, gone) && |heads| == |lists| == |bufs| == |done| == |sends|
    ensures forall i :: 0 <= i < |sends| ==> i in done
    ensures forall x :: 0 <= x < |heads| ==> done[x] < |sends| && Carries(bufs[x], sends[done[x]].payload)
  {
    hide TQ.Run, Cut, TQ.NoneEmpty, Outgoing.Sendable, IdsFree, TookTurns, InTurn, AllNumbered, HandedOver, Carries, WithHeaderId;
    ghost var order := NodeOrder(sends, turns);
    heads, lists, bufs, gone, done := ReceiveAll(queue, queued, Identified(sends), order);
  }

  lemma ReadsAs(bufs: seq<SegBuffer>, p: seq<byte>)
    requires Reads(Images(bufs), p)
    ensures Carries(bufs, p)
  {
  }

  lemma OneListEach(heads: seq<IpcSegment>, lists: seq<seq<IpcSegment>>, bufs: seq<seq<SegBuffer>>, gone: set<IpcSegment>)
    requires HandedOver(heads, lists, bufs, gone)
    ensures |heads| == |lists| == |bufs|
  {
  }
}

/** A message between its two ends: what `Finalize` hands to the transport, and what a receiver
    reads from the segments that arrive. */
module Message {
  import opened Bytes
  import opened Flat
  import opened Segment
  import opened Fragment
  import opened BlockStore
  import opened Stream

  /** The octets written to a chain whose last segment l holds e of them. */
  function Content(bufs: seq<SegBuffer>, l: nat, e: nat): (p: seq<byte>)
    requires l < |bufs| && e <= CAPACITY
    ensures |p| == CAPACITY * l + e
  {
    ContentBounds(bufs, l);
    Flatten(Datas(bufs))[..CAPACITY * l + e]
  }

  lemma ContentBounds(bufs: seq<SegBuffer>, l: nat)
    requires l < |bufs|
    ensures CAPACITY * l + CAPACITY <= |Flatten(Datas(bufs))|
    ensures Flatten(Datas(bufs))[CAPACITY * l..CAPACITY * l + CAPACITY] == Data(bufs[l])
  {
    hide Data, Flatten, Offset;
    ChainOffset(bufs, l);
    BlockAt(Datas(bufs), l);
  }

  /** When no block is to spare, the finalized segments are exactly the fragments of the message. */
  lemma FinalizedIsFragments(bufs: seq<SegBuffer>, origin: HeaderImage, e: nat)
    requires Filling(bufs, origin) && bufs != [] && 0 < e <= CAPACITY
    ensures Images(Finalized(bufs, e)) == Fragments(origin, Content(bufs, |bufs| - 1, e))
  {
    hide Image, FragmentAt, Finalized, HeaderAt;
    var n := |bufs|;
    var p := Content(bufs, n - 1, e);
    assert FragCount(|p|) == n;
    forall i | 0 <= i < n
      ensures Image(Finalized(bufs, e)[i]) == FragmentAt(origin, p, i)
    {
      if i + 1 < n {
        FinalizedKeeps(bufs, e, i);
        FullImage(bufs, origin, e, i);
      } else {
        LastImage(bufs, origin, e);
      }
    }
  }

  lemma FinalizedKeeps(bufs: seq<SegBuffer>, e: nat, i: nat)
    requires i + 1 < |bufs| && e <= CAPACITY
    ensures Finalized(bufs, e)[i] == bufs[i]
  {
  }

  lemma ContentChunk(bufs: seq<SegBuffer>, l: nat, e: nat, i: nat)
    requires i <= l < |bufs| && 0 < e <= CAPACITY
    ensures var p := Content(bufs, l, e);
            i < FragCount(|p|) && Chunk(p, i) == if i < l then Data(bufs[i]) else Data(bufs[l])[..e]
  {
    hide Data, Flatten;
    ContentBounds(bufs, i);
    ContentBounds(bufs, l);
    var f, p := Flatten(Datas(bufs)), Content(bufs, l, e);
    if i < l {
      assert p[CAPACITY * i..CAPACITY * i + CAPACITY] == f[CAPACITY * i..CAPACITY * i + CAPACITY];
    } else {
      assert p[CAPACITY * l..CAPACITY * l + e] == f[CAPACITY * l..CAPACITY * l + CAPACITY][..e];
    }
  }

  lemma FullImage(bufs: seq<SegBuffer>, origin: HeaderImage, e: nat, i: nat)
    requires Filling(bufs, origin) && i + 1 < |bufs| && 0 < e <= CAPACITY
    ensures var p := Content(bufs, |bufs| - 1, e);
            i < FragCount(|p|) && Image(bufs[i]) == FragmentAt(origin, p, i)
  {
    hide Stamp, Content, Data, Chunk;
    ContentChunk(bufs, |bufs| - 1, e, i);
    ImageParts(bufs[i]);
    assert HeaderAt(bufs[i], origin, i, |bufs|);
  }

  lemma ImageParts(b: SegBuffer)
    ensures Image(b) == Header(b) + Data(b)[..b.len - SEG_DATA]
  {
  }

  lemma LastImage(bufs: seq<SegBuffer>, origin: HeaderImage, e: nat)
    requires Filling(bufs, origin) && bufs != [] && 0 < e <= CAPACITY
    ensures var n, p := |bufs|, Content(bufs, |bufs| - 1, e);
            n - 1 < FragCount(|p|) == n && Image(Finalized(bufs, e)[n - 1]) == FragmentAt(origin, p, n - 1)
  {
    hide Stamp, Content, Data, Chunk;
    var n := |bufs|;
    ContentChunk(bufs, n - 1, e, n - 1);
    assert HeaderAt(bufs[n - 1], origin, n - 1, n);
    LastFinalized(bufs[n - 1], origin, n, e);
    ImageParts(Finalized(bufs, e)[n - 1]);
  }

  lemma LastFinalized(b: SegBuffer, origin: HeaderImage, n: nat, e: nat)
    requires n > 0 && HeaderAt(b, origin, n - 1, n) && e <= CAPACITY
    ensures var c := WithLen(PutDataLen(b, e), e + SEG_DATA);
            var r := if n > 1 then PutOptions(c, Options(c.mem) | OPT_INITIAL) else c;
            && Header(r) == Stamp(origin, FinalOptions(origin[SEG_OPTIONS], n - 1, n), Truncate16(n), e)
            && Data(r) == Data(b) && r.len == e + SEG_DATA
  {
    hide Stamp, Put, FragOptions;
    var o, d := FragOptions(origin[SEG_OPTIONS], n), DataLen(origin);
    var c := WithLen(PutDataLen(b, e), e + SEG_DATA);
    PutHeader(b, SEG_DATALEN, Be16(e));
    Restamp(origin, o, Truncate16(n), d, OptionsOr(o, OPT_INITIAL), Truncate16(n), e);
    Restamp(origin, o, Truncate16(n), e, OptionsOr(o, OPT_INITIAL), Truncate16(n), e);
    StampFields(origin, o, Truncate16(n), e);
    assert c.mem[SEG_OPTIONS] == Header(c)[SEG_OPTIONS];
    PutHeader(c, SEG_OPTIONS, [OptionsOr(o, OPT_INITIAL)]);
  }

  /** `Finalize` marks the last block allocated, not the last one written: the segments carry the
      octets of the stream exactly when no allocated block is to spare. */
  lemma FinalizeExact(bufs: seq<SegBuffer>, origin: HeaderImage, l: nat, e: nat)
    requires Filling(bufs, origin) && l < |bufs| && 0 < e <= CAPACITY
    ensures Flatten(Payloads(Images(Finalized(bufs, e)))) == Content(bufs, l, e) <==> l + 1 == |bufs|
  {
    FinalizedIsFragments(bufs, origin, e);
    FragmentsJoin(origin, Content(bufs, |bufs| - 1, e));
  }

  /** The smallest such stream: created with room for two segments and filled with one octet. */
  lemma SpareBlockBreaksMessage(template: SegBuffer)
    ensures var bufs := Extended(Extended([], template), template);
            && Filling(bufs, Header(template))
            && Flatten(Payloads(Images(Finalized(bufs, 1)))) != Content(bufs, 0, 1)
  {
    hide Finalized, Extended, Filling, Content;
    var bufs := Extended(Extended([], template), template);
    ExtendedFilling([], template, Header(template));
    ExtendedFilling(Extended([], template), template, Header(template));
    FinalizeExact(bufs, Header(template), 0, 1);
  }

  /** Buffers that hold the fragments of a payload, in order, are read back as that payload. */
  lemma ReceivedIsPayload(bufs: seq<SegBuffer>, h: HeaderImage, p: seq<byte>)
    requires p != [] && |bufs| == FragCount(|p|)
    requires forall i :: 0 <= i < |bufs| ==> Image(bufs[i]) == FragmentAt(h, p, i)
    ensures bufs != [] && DataLen(bufs[|bufs| - 1].mem) <= CAPACITY && Injected(bufs) == p
  {
    hide Image, FragmentAt, Flatten, Offset, Content, Chunk, Data;
    var n := |bufs|;
    forall i | 0 <= i < n
      ensures DataLen(bufs[i].mem) == |Chunk(p, i)| && Data(bufs[i])[..|Chunk(p, i)|] == Chunk(p, i)
    {
      ReceivedFragment(bufs[i], h, p, i);
    }
    var l, e := n - 1, DataLen(bufs[n - 1].mem);
    var q := Content(bufs, l, e);
    InjectedIsContent(bufs);
    LastChunk(p);
    forall i | 0 <= i < n
      ensures Chunk(q, i) == Chunk(p, i)
    {
      ContentChunk(bufs, l, e, i);
      assert Data(bufs[i])[..CAPACITY] == Data(bufs[i]);
    }
    SameChunks(h, p, q);
  }

  lemma LastChunk(p: seq<byte>)
    requires p != []
    ensures FragCount(|p|) > 0 && |p| == CAPACITY * (FragCount(|p|) - 1) + |Chunk(p, FragCount(|p|) - 1)|
  {
  }

  lemma InjectedIsContent(bufs: seq<SegBuffer>)
    requires bufs != [] && DataLen(bufs[|bufs| - 1].mem) <= CAPACITY
    ensures Injected(bufs) == Content(bufs, |bufs| - 1, DataLen(bufs[|bufs| - 1].mem))
  {
    InjectedBounds(bufs);
    ChainOffset(bufs, |bufs| - 1);
  }

  /** A payload is determined by its length and its chunks. */
  lemma SameChunks(h: HeaderImage, p: seq<byte>, q: seq<byte>)
    requires |p| == |q| && forall i :: 0 <= i < FragCount(|p|) ==> Chunk(q, i) == Chunk(p, i)
    ensures p == q
  {
    hide Chunk, Stamp, Flatten;
    FragmentsJoin(h, p);
    FragmentsJoin(h, q);
    assert Payloads(Fragments(h, p)) == Payloads(Fragments(h, q));
  }

  lemma ReceivedFragment(b: SegBuffer, h: HeaderImage, p: seq<byte>, i: nat)
    requires i < FragCount(|p|) && Image(b) == FragmentAt(h, p, i)
    ensures DataLen(b.mem) == |Chunk(p, i)| && Data(b)[..|Chunk(p, i)|] == Chunk(p, i)
  {
    hide Stamp, Chunk;
    var w, c := FragmentAt(h, p, i), Chunk(p, i);
    var o, f := FinalOptions(h[SEG_OPTIONS], i, FragCount(|p|)), Truncate16(i + 1);
    var s := Stamp(h, o, f, |c|);
    StampFields(h, o, f, |c|);
    ImageParts(b);
    assert w[..SEG_DATA] == s && w[SEG_DATA..] == c;
    assert Image(b)[..SEG_DATA] == b.mem[..SEG_DATA];
    SameFields(b.mem, s);
  }
}

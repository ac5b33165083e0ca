/** What cutting a payload into segments produces, as a function; cpIpcStreamSeg.cpp computes it. */
module Fragment {
  import opened Bytes
  import opened Flat
  import opened Segment

  /** How many segments a payload of n octets needs. */
  function FragCount(n: nat): nat {
    n / CAPACITY + if n % CAPACITY > 0 then 1 else 0
  }

  /** The option octet in all n segments before finalization. */
  function FragOptions(o: byte, n: nat): byte {
    if n > 1 then OptionsOr(o, OPT_MULTIPART) else o
  }

  /** The option octet of segment i of n. */
  function FinalOptions(o: byte, i: nat, n: nat): byte {
    if n > 1 && i + 1 == n then OptionsOr(FragOptions(o, n), OPT_INITIAL) else FragOptions(o, n)
  }

  function Truncate16(n: nat): uint16 { n % 0x1_0000 }

  function Chunk(p: seq<byte>, i: nat): (c: seq<byte>)
    requires i < FragCount(|p|)
    ensures 0 < |c| <= CAPACITY
    ensures i + 1 < FragCount(|p|) ==> |c| == CAPACITY
  {
    p[CAPACITY * i..if |p| < CAPACITY * (i + 1) then |p| else CAPACITY * (i + 1)]
  }

  /** Segment i of the message with header template h and payload p. */
  function FragmentAt(h: HeaderImage, p: seq<byte>, i: nat): (w: Wire)
    requires i < FragCount(|p|)
  {
    Stamp(h, FinalOptions(h[SEG_OPTIONS], i, FragCount(|p|)), Truncate16(i + 1), |Chunk(p, i)|) + Chunk(p, i)
  }

  function Fragments(h: HeaderImage, p: seq<byte>): (ws: seq<Wire>)
    ensures |ws| == FragCount(|p|)
  {
    seq(FragCount(|p|), i requires 0 <= i < FragCount(|p|) => FragmentAt(h, p, i))
  }

  function Payloads(ws: seq<Wire>): (ps: seq<seq<byte>>)
    ensures |ps| == |ws|
  {
    seq(|ws|, i requires 0 <= i < |ws| => Payload(ws[i]))
  }

  /** Nothing of the payload is lost, repeated or reordered: the segments' payloads join to it. */
  lemma FragmentsJoin(h: HeaderImage, p: seq<byte>)
    ensures Flatten(Payloads(Fragments(h, p))) == p
  {
    var ps := Payloads(Fragments(h, p));
    ChunksJoin(h, p, |ps|);
    assert ps[..|ps|] == ps;
  }

  lemma {:induction false} ChunksJoin(h: HeaderImage, p: seq<byte>, k: nat)
    requires k <= FragCount(|p|)
    ensures Flatten(Payloads(Fragments(h, p))[..k]) == p[..Min(CAPACITY * k, |p|)]
  {
    hide Stamp, FinalOptions, Flatten;
    FlattenNone<byte>();
    var ps := Payloads(Fragments(h, p));
    if k > 0 {
      ChunksJoin(h, p, k - 1);
      FlattenSnoc(ps, k - 1);
      assert ps[k - 1] == Chunk(p, k - 1);
    }
  }

  /** A header template that asks for no fragmentation option of its own. */
  predicate Plain(h: HeaderImage) { !Multipart(h) && !Initial(h) }

  /** What a receiver reads from segment i of n. */
  lemma FragmentFields(h: HeaderImage, p: seq<byte>, i: nat)
    requires Plain(h) && i < FragCount(|p|)
    ensures var w, n := FragmentAt(h, p, i), FragCount(|p|);
            && (Multipart(w) <==> n > 1)
            && (Initial(w) <==> n > 1 && i + 1 == n)
            && FragNum(w) == Truncate16(i + 1)
            && Guid(w) == Guid(h) && Priority(w) == Priority(h)
            && |w| == SEG_DATA + DataLen(w) && Payload(w) == Chunk(p, i)
  {
    var n, o := FragCount(|p|), h[SEG_OPTIONS];
    var s := Stamp(h, FinalOptions(o, i, n), Truncate16(i + 1), |Chunk(p, i)|);
    var w := FragmentAt(h, p, i);
    StampFields(h, FinalOptions(o, i, n), Truncate16(i + 1), |Chunk(p, i)|);
    SameFields(w, s);
    OptionBits(o, OPT_MULTIPART);
    OptionBits(FragOptions(o, n), OPT_INITIAL);
    FlagBits(Bits(o));
  }

  lemma SameFields(w: Wire, s: Wire)
    requires w[..SEG_DATA] == s[..SEG_DATA]
    ensures FragNum(w) == FragNum(s) && DataLen(w) == DataLen(s) && Guid(w) == Guid(s)
    ensures w[SEG_OPTIONS] == s[SEG_OPTIONS]
  {
    assert forall k :: 0 <= k < SEG_DATA ==> w[k] == w[..SEG_DATA][k] && s[k] == s[..SEG_DATA][k];
    assert w[SEG_FRAGNUM..SEG_FRAGNUM + 2] == s[SEG_FRAGNUM..SEG_FRAGNUM + 2];
    assert w[SEG_DATALEN..SEG_DATALEN + 2] == s[SEG_DATALEN..SEG_DATALEN + 2];
    assert w[SEG_SRCADDR..SEG_SRCADDR + 4] == s[SEG_SRCADDR..SEG_SRCADDR + 4];
    assert w[SEG_MSGID..SEG_MSGID + 4] == s[SEG_MSGID..SEG_MSGID + 4];
  }

  lemma FlagBits(v: bv8)
    ensures (v & 0xfc) & OPT_MULTIPART == v & OPT_MULTIPART && (v & 0xfc) & OPT_INITIAL == v & OPT_INITIAL
    ensures (v | OPT_MULTIPART) & 0xfc & OPT_MULTIPART != 0
    ensures (v | OPT_MULTIPART) & 0xfc & OPT_INITIAL == (v & 0xfc) & OPT_INITIAL
    ensures (v | OPT_MULTIPART | OPT_INITIAL) & 0xfc & OPT_MULTIPART != 0
    ensures (v | OPT_MULTIPART | OPT_INITIAL) & 0xfc & OPT_INITIAL != 0
    ensures (v | OPT_MULTIPART) & 0x03 == v & 0x03
    ensures (v | OPT_MULTIPART | OPT_INITIAL) & 0x03 == v & 0x03
  {
  }
}

/** The octets of IPC segments one by one: the header's layout spelt out by its numbers. */
module SegmentWire {
  import opened Bytes
  import opened Flat
  import opened Segment
  import opened Fragment
  import TQ = TransmitQueue

  /** What a receiver reads, by position: the priority is in the two low bits of the second octet, the
      two options are bits of it, and the numbers are stored with their high octets first. */
  lemma FieldsRead(w: Wire)
    ensures Priority(w) == (Bits(w[1]) & 0x03) as int
    ensures (Multipart(w) <==> Bits(w[1]) & 0x20 != 0) && (Initial(w) <==> Bits(w[1]) & 0x40 != 0)
    ensures FragNum(w) == U16(w[2..4]) && SrcAddr(w) == U32(w[4..8]) && MsgId(w) == U32(w[12..16])
    ensures DataLen(w) == U16(w[22..24]) && Payload(w) == w[24..]
    ensures Guid(w) == U32(w[4..8]) * 0x1_0000_0000 + U32(w[12..16])
  {
    hide U16, U32;
    OptionMask(Bits(w[1]));
  }

  lemma OptionMask(v: bv8)
    ensures v & 0xfc & 0x20 == v & 0x20 && v & 0xfc & 0x40 == v & 0x40
  {
  }

  /** Segment i of the message with header h and payload p: the header's octets but for the options,
      the number and the length, and behind them the next thousand octets of the payload or what is
      left of it.  The multipart option is 0x20, the last segment of several has 0x40 as well. */
  lemma SegmentOctets(h: HeaderImage, p: seq<byte>, i: nat)
    requires 1000 * i < |p|
    ensures var n := (|p| + 999) / 1000;
      var options := if n == 1 then h[1] else if i + 1 < n then (Bits(h[1]) | 0x20) as int else (Bits(h[1]) | 0x60) as int;
      var len := if |p| < 1000 * (i + 1) then |p| - 1000 * i else 1000;
      && n == FragCount(|p|) && i < n
      && FragmentAt(h, p, i) == [h[0], options] + Be16((i + 1) % 0x1_0000) + h[4..22] + Be16(len) + p[1000 * i..1000 * i + len]
  {
    hide OptionsOr, Be16, OctetOf, Bits, Stamp;
    var n, o := FragCount(|p|), h[1];
    assert n == (|p| + 999) / 1000 && i < n;
    var w := FragmentAt(h, p, i);
    StampOctets(h, FinalOptions(o, i, n), Truncate16(i + 1), |Chunk(p, i)|);
    MultipartOctet(o);
    InitialOctet(o);
  }

  lemma StampOctets(h: HeaderImage, options: byte, frag: uint16, len: uint16)
    ensures Stamp(h, options, frag, len) == [h[0], options] + Be16(frag) + h[4..22] + Be16(len)
  {
    hide Be16, Overlay;
    var h1 := Overlay(h, 1, [options]);
    var h2 := Overlay(h1, 2, Be16(frag));
    OverlayAt(h, 1, [options]);
    OverlayAt(h1, 2, Be16(frag));
    OverlayAt(h2, 22, Be16(len));
  }

  lemma MultipartOctet(o: byte)
    ensures OptionsOr(o, 0x20) == (Bits(o) | 0x20) as int
  {
    hide Bits;
    OptionBits(o, 0x20);
    SameOctet(OptionsOr(o, 0x20), Bits(o) | 0x20);
  }

  lemma InitialOctet(o: byte)
    ensures OptionsOr(OptionsOr(o, 0x20), 0x40) == (Bits(o) | 0x60) as int
  {
    hide Bits;
    OptionBits(o, 0x20);
    OptionBits(OptionsOr(o, 0x20), 0x40);
    BothOptions(Bits(o));
    SameOctet(OptionsOr(OptionsOr(o, 0x20), 0x40), Bits(o) | 0x60);
  }

  lemma BothOptions(v: bv8)
    ensures v | 0x20 | 0x40 == v | 0x60
  {
  }

  lemma SameOctet(b: byte, v: bv8)
    requires Bits(b) == v
    ensures b == v as int
  {
    OctetOfBits(b);
  }

  /** The octets of a cleared segment: normal priority, everything else 0. */
  lemma ClearedOctets()
    ensures Header(Cleared()) == [0, 2] + seq(22, _ => 0) && Image(Cleared()) == Header(Cleared())
  {
    hide Overlay, PrioritySet;
    NormalPriority();
    var zeros: seq<byte> := seq(1024, _ => 0);
    OverlayAt(zeros, 1, [PrioritySet(0, 2)]);
    var h := Header(Cleared());
    forall k | 0 <= k < 24
      ensures h[k] == ([0, 2] + seq(22, _ => 0))[k]
    {
      assert h[k] == Overlay(zeros, 1, [PrioritySet(0, 2)])[k];
    }
  }

  /** Setting the priority replaces the two low bits by at most 3. */
  lemma PriorityOctet(o: byte, data: byte)
    ensures Bits(PrioritySet(o, data)) == (Bits(o) & 0xfc) | Bits(if data > 3 then 3 else data)
  {
    hide Bits, OctetOf;
    var d: byte := if data > 3 then 3 else data;
    SmallBits(d);
    BitsOfOctet((Bits(o) & 0xfc) | (Bits(d) & 0x03));
  }

  lemma SmallBits(d: int)
    requires 0 <= d < 4
    ensures Bits(d) & 0x03 == Bits(d)
  {
  }

  lemma NormalPriority()
    ensures PrioritySet(0, 2) == 2
  {
    assert (0 as bv8 & 0xfc) | (2 as bv8 & 0x03) == 2;
  }

  /** What the transmit queue changes in a segment */
  lemma TaggedOctets(w: Wire, id: uint32)
    ensures TQ.WithId(w, id) == w[..12] + Be32(id) + w[16..]
  {
  }
}

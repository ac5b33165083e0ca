/** The IPC segment of cpIpcSegment.cpp: a 24-octet header and up to 1000 octets of payload in
    one buffer of 1024 octets, with an intrusive link to the next segment of a message. */
module Segment {
  import opened Bytes
  import opened Flat

  const SEG_OPTIONS := 1
  const SEG_FRAGNUM := 2
  const SEG_SRCADDR := 4
  const SEG_MSGID := 12
  const SEG_DATALEN := 22
  const SEG_DATA := 24
  const SEG_MAXLEN := 1024
  const CAPACITY := SEG_MAXLEN - SEG_DATA

  const OPT_MULTIPART: bv8 := 0x20
  const OPT_INITIAL: bv8 := 0x40
  const DEFAULT_PRIORITY: byte := 2
  const MINIMUM_PRIORITY: byte := 3

  /** The octets of a segment, from the version octet on; at least a whole header. */
  type Wire = w: seq<byte> | |w| >= SEG_DATA witness seq(SEG_DATA, _ => 0)

  type HeaderImage = h: seq<byte> | |h| == SEG_DATA witness seq(SEG_DATA, _ => 0)

  // -------------------------------------------------------------------------
  // Header fields

  function Options(w: Wire): bv8 { Bits(w[SEG_OPTIONS]) & 0xfc }

  function Priority(w: Wire): byte { OctetOf(Bits(w[SEG_OPTIONS]) & 0x03) }

  function FragNum(w: Wire): uint16 { U16(w[SEG_FRAGNUM..SEG_FRAGNUM + 2]) }

  function SrcAddr(w: Wire): uint32 { U32(w[SEG_SRCADDR..SEG_SRCADDR + 4]) }

  function MsgId(w: Wire): uint32 { U32(w[SEG_MSGID..SEG_MSGID + 4]) }

  function DataLen(w: Wire): uint16 { U16(w[SEG_DATALEN..SEG_DATALEN + 2]) }

  function Guid(w: Wire): int { SrcAddr(w) * 0x1_0000_0000 + MsgId(w) }

  function Payload(w: Wire): seq<byte> { w[SEG_DATA..] }

  predicate Multipart(w: Wire) { Options(w) & OPT_MULTIPART != 0 }

  predicate Initial(w: Wire) { Options(w) & OPT_INITIAL != 0 }

  function MergeBits(v: bv8, data: bv8): bv8 { (v & 0x03) | (data & 0xfc) }

  function OrBits(v: bv8, bits: bv8): bv8 { (v & 0xfc) | bits }

  /** The option octet after `Options(data)`: the priority bits stay. */
  function OptionsSet(o: byte, data: bv8): byte {
    OctetOf(MergeBits(Bits(o), data))
  }

  /** The option octet after `Options(Options() | bits)`. */
  function OptionsOr(o: byte, bits: bv8): byte {
    OptionsSet(o, OrBits(Bits(o), bits))
  }

  /** The option octet after `Priority(data)`: the option bits stay, the priority is capped. */
  function PrioritySet(o: byte, data: byte): byte {
    var d := if data > MINIMUM_PRIORITY then MINIMUM_PRIORITY else data;
    OctetOf((Bits(o) & 0xfc) | (Bits(d) & 0x03))
  }

  /** The header fields that fragmentation sets, and no other octet of the header. */
  function Stamp(h: HeaderImage, options: byte, frag: uint16, len: uint16): HeaderImage {
    Overlay(Overlay(Overlay(h, SEG_OPTIONS, [options]), SEG_FRAGNUM, Be16(frag)), SEG_DATALEN, Be16(len))
  }

  // -------------------------------------------------------------------------
  // Reading back what was stored

  /** Setting an option bit sets that bit and leaves the others and the priority. */
  lemma OptionBits(o: byte, bits: bv8)
    requires bits & 0x03 == 0
    ensures Bits(OptionsOr(o, bits)) == Bits(o) | bits
  {
    hide Bits, OctetOf, MergeBits, OrBits;
    MergedBits(Bits(o), bits);
    BitsOfOctet(MergeBits(Bits(o), OrBits(Bits(o), bits)));
  }

  lemma MergedBits(v: bv8, bits: bv8)
    requires bits & 0x03 == 0
    ensures MergeBits(v, OrBits(v, bits)) == v | bits
  {
  }

  /** Stamping a field again replaces it. */
  lemma Restamp(h: HeaderImage, options: byte, frag: uint16, len: uint16, options': byte, frag': uint16, len': uint16)
    ensures var r := Stamp(h, options, frag, len);
            && Overlay(r, SEG_OPTIONS, [options']) == Stamp(h, options', frag, len)
            && Overlay(r, SEG_FRAGNUM, Be16(frag')) == Stamp(h, options, frag', len)
            && Overlay(r, SEG_DATALEN, Be16(len')) == Stamp(h, options, frag, len')
  {
    hide Overlay;
    var o, f, d := [options], Be16(frag), Be16(len);
    var o', f', d' := [options'], Be16(frag'), Be16(len');
    var h1 := Overlay(h, SEG_OPTIONS, o);
    var h2 := Overlay(h1, SEG_FRAGNUM, f);
    OverlayAgain(h, SEG_OPTIONS, o, o');
    OverlayAgain(h1, SEG_FRAGNUM, f, f');
    OverlayAgain(h2, SEG_DATALEN, d, d');
    OverlayApart(h1, SEG_OPTIONS, o', SEG_FRAGNUM, f);
    OverlayApart(h2, SEG_OPTIONS, o', SEG_DATALEN, d);
    OverlayApart(h2, SEG_FRAGNUM, f', SEG_DATALEN, d);
  }

  lemma StampNothing(h: HeaderImage)
    ensures Stamp(h, h[SEG_OPTIONS], FragNum(h), DataLen(h)) == h
  {
    var f, d := h[SEG_FRAGNUM..SEG_FRAGNUM + 2], h[SEG_DATALEN..SEG_DATALEN + 2];
    assert Be16(U16(f)) == f && Be16(U16(d)) == d;
  }

  lemma StampFields(h: HeaderImage, options: byte, frag: uint16, len: uint16)
    ensures var r := Stamp(h, options, frag, len);
            && r[SEG_OPTIONS] == options && FragNum(r) == frag && DataLen(r) == len
            && SrcAddr(r) == SrcAddr(h) && MsgId(r) == MsgId(h)
  {
    var r := Stamp(h, options, frag, len);
    var h1 := Overlay(h, SEG_OPTIONS, [options]);
    var h2 := Overlay(h1, SEG_FRAGNUM, Be16(frag));
    OverlayAt(h, SEG_OPTIONS, [options]);
    OverlayAt(h1, SEG_FRAGNUM, Be16(frag));
    OverlayAt(h2, SEG_DATALEN, Be16(len));
    assert h1[SEG_OPTIONS] == h2[SEG_OPTIONS] == r[SEG_OPTIONS] == options;
    BigEndian16(frag);
    BigEndian16(len);
    assert r[SEG_FRAGNUM..SEG_FRAGNUM + 2] == Be16(frag);
    assert r[SEG_DATALEN..SEG_DATALEN + 2] == Be16(len);
    assert r[SEG_SRCADDR..SEG_SRCADDR + 4] == h[SEG_SRCADDR..SEG_SRCADDR + 4];
    assert r[SEG_MSGID..SEG_MSGID + 4] == h[SEG_MSGID..SEG_MSGID + 4];
  }

  // -------------------------------------------------------------------------
  // The buffer that a segment owns

  datatype Buffer = Buffer(mem: seq<byte>, len: nat)

  type SegBuffer = b: Buffer | |b.mem| == SEG_MAXLEN && SEG_DATA <= b.len <= SEG_MAXLEN
    witness Buffer(seq(SEG_MAXLEN, _ => 0), SEG_DATA)

  /** What the transport sends: the buffer up to its length. */
  function Image(b: SegBuffer): Wire { b.mem[..b.len] }

  function Header(b: SegBuffer): HeaderImage { b.mem[..SEG_DATA] }

  function Data(b: SegBuffer): (d: seq<byte>)
    ensures |d| == CAPACITY
  {
    b.mem[SEG_DATA..]
  }

  /** The buffer of a cleared segment. */
  function Cleared(): SegBuffer {
    Buffer(Overlay(seq(SEG_MAXLEN, _ => 0), SEG_OPTIONS, [PrioritySet(0, DEFAULT_PRIORITY)]), SEG_DATA)
  }

  /** A header field stored. */
  function Put(b: SegBuffer, at: nat, v: seq<byte>): SegBuffer
    requires at + |v| <= SEG_DATA
  {
    b.(mem := Overlay(b.mem, at, v))
  }

  lemma PutHeader(b: SegBuffer, at: nat, v: seq<byte>)
    requires at + |v| <= SEG_DATA
    ensures var r := Put(b, at, v);
            Header(r) == Overlay(Header(b), at, v) && Data(r) == Data(b) && r.len == b.len
  {
  }

  function PutOptions(b: SegBuffer, data: bv8): SegBuffer {
    Put(b, SEG_OPTIONS, [OptionsSet(b.mem[SEG_OPTIONS], data)])
  }

  /** The stored length is capped at the capacity. */
  function PutDataLen(b: SegBuffer, n: nat): SegBuffer {
    Put(b, SEG_DATALEN, Be16(if n < CAPACITY then n else CAPACITY))
  }

  /** `LenSet`: capped at the buffer's size */
  function WithLen(b: SegBuffer, n: nat): SegBuffer
    requires SEG_DATA <= n
  {
    b.(len := if n < SEG_MAXLEN then n else SEG_MAXLEN)
  }

  /** Payload octets stored. */
  function PutData(b: SegBuffer, at: nat, v: seq<byte>): SegBuffer
    requires at + |v| <= CAPACITY
  {
    b.(mem := Overlay(b.mem, SEG_DATA + at, v))
  }

  lemma PutDataOnly(b: SegBuffer, at: nat, v: seq<byte>)
    requires at + |v| <= CAPACITY
    ensures var r := PutData(b, at, v);
            Header(r) == Header(b) && Data(r) == Overlay(Data(b), at, v) && r.len == b.len
  {
  }

  /** The assignment operator copies the used part of the buffer. */
  function Assigned(b: SegBuffer, rhs: SegBuffer): SegBuffer {
    Buffer(rhs.mem[..rhs.len] + b.mem[rhs.len..], rhs.len)
  }

  lemma AssignedImage(b: SegBuffer, rhs: SegBuffer)
    ensures var r := Assigned(b, rhs);
            Header(r) == Header(rhs) && Image(r) == Image(rhs) && r.len == rhs.len
  {
  }

  // -------------------------------------------------------------------------
  // The segment object

  class IpcSegment {
    var buffer: SegBuffer
    var next: IpcSegment?

    constructor ()
      ensures buffer == Cleared() && next == null
    {
      buffer := Cleared();
      next := null;
    }
  }
}

/** Octets and the big-endian integer helpers of cpUtil.cpp. */
module Bytes {

  type byte = x: int | 0 <= x < 256

  type uint16 = x: int | 0 <= x < 0x1_0000

  type uint32 = x: int | 0 <= x < 0x1_0000_0000

  /** An octet as eight bits, and back. */
  function Bits(b: byte): bv8 { b as bv8 }

  function OctetOf(v: bv8): byte { v as int }

  lemma BitsOfOctet(v: bv8)
    ensures Bits(OctetOf(v)) == v
  {
  }

  lemma OctetOfBits(b: int)
    requires 0 <= b < 256
    ensures (b as bv8) as int == b
  {
    assert b % 256 == b;
  }

  /** A pointer that may be null: to the memory from an address on, or to nothing. */
  datatype Pointer = Null | To(mem: seq<byte>)

  /** What `WriteUint16B` leaves in memory. */
  function Be16(v: uint16): (s: seq<byte>)
    ensures |s| == 2
  {
    [v / 0x100, v % 0x100]
  }

  /** What `WriteUint32B` leaves in memory. */
  function Be32(v: uint32): (s: seq<byte>)
    ensures |s| == 4
  {
    [v / 0x100_0000, v / 0x1_0000 % 0x100, v / 0x100 % 0x100, v % 0x100]
  }

  /** `ReadUint16B` */
  function U16(s: seq<byte>): (v: uint16)
    requires |s| == 2
  {
    (s[0] as int) * 0x100 + s[1] as int
  }

  /** `ReadUint32B` */
  function U32(s: seq<byte>): (v: uint32)
    requires |s| == 4
  {
    (s[0] as int) * 0x100_0000 + (s[1] as int) * 0x1_0000 + (s[2] as int) * 0x100 + s[3] as int
  }

  /** The high octets stand first. */
  lemma OctetOrder(v: uint16, w: uint32)
    ensures (Be16(v)[0] as int) * 0x100 + Be16(v)[1] as int == v
    ensures (Be32(w)[0] as int) * 0x100_0000 + (Be32(w)[1] as int) * 0x1_0000 + (Be32(w)[2] as int) * 0x100 + Be32(w)[3] as int == w
    ensures U16([0x12, 0x34]) == 0x1234 && U32([0x12, 0x34, 0x56, 0x78]) == 0x1234_5678
  {
    assert w / 0x100 == w / 0x1_0000 * 0x100 + w / 0x100 % 0x100;
    assert w / 0x1_0000 == w / 0x100_0000 * 0x100 + w / 0x1_0000 % 0x100;
  }

  lemma BigEndian16(v: uint16)
    ensures U16(Be16(v)) == v
  {
  }

  /** Reading undoes writing, and no other four octets read as the same value. */
  lemma BigEndian32(v: uint32, s: seq<byte>)
    requires |s| == 4
    ensures U32(Be32(v)) == v
    ensures U32(s) == v ==> s == Be32(v)
  {
    var a, b, c, d := v / 0x100_0000, v / 0x1_0000 % 0x100, v / 0x100 % 0x100, v % 0x100;
    assert v / 0x100 == (v / 0x1_0000) * 0x100 + c;
    assert v / 0x1_0000 == a * 0x100 + b;
    if U32(s) == v {
      Quotients(s[0], s[1], s[2], s[3]);
    }
  }

  lemma Quotients(a: byte, b: byte, c: byte, d: byte)
    ensures var v := a * 0x100_0000 + b * 0x1_0000 + c * 0x100 + d;
            && v / 0x100_0000 == a
            && v / 0x1_0000 % 0x100 == b
            && v / 0x100 % 0x100 == c
            && v % 0x100 == d
  {
    var v := a * 0x100_0000 + b * 0x1_0000 + c * 0x100 + d;
    assert v / 0x100 == a * 0x1_0000 + b * 0x100 + c;
    assert v / 0x1_0000 == a * 0x100 + b;
  }
}

/** The native encoding of a datum tree, as functions: what cpSerDesNative.cpp writes, and what its
    decoder makes of any octets. */
module NativeFormat {
  import opened Bytes

  // -------------------------------------------------------------------------
  // Data

  /** An attribute type, from attr_None to attr_Choices. */
  type Attrib = a: int | 0 <= a <= 8

  const ATTR_NAME: Attrib := 1
  const ATTR_LAST: Attrib := 8

  type uint64 = x: int | 0 <= x < 0x1_0000_0000_0000_0000

  /** A string as a Variant holds it, without its terminator. */
  type CString = s: seq<byte> | 0 !in s

  datatype Kind = Unsigned | Signed | Float

  /** A variant; signed integers and floats are held by their bit patterns. */
  datatype Variant =
    | Inert
    | NoValue
    | Octet(signed: bool, v8: byte)
    | Short(signed: bool, v16: uint16)
    | Long(kind: Kind, v32: uint32)
    | LongLong(kind: Kind, v64: uint64)
    | Bool(b: bool)
    | Str(s: CString)
    | Blob(d: seq<byte>)

  type Attribs = map<Attrib, Variant>

  /** A datum with its sub-data. */
  datatype Tree = Tree(attribs: Attribs, subs: seq<Tree>)

  // -------------------------------------------------------------------------
  // Markers

  const MK_MAGIC: byte := 0x88
  const MK_PKG: byte := 0xa0
  const MK_PKG_END: byte := 0xa1
  const MK_DAT: byte := 0xa2
  const MK_DAT_END: byte := 0xa3
  const MK_CHK: byte := 0xa4
  const MK_CHK_END: byte := 0xa5

  const CK_CRC32: byte := 1

  /** The marker of an attribute; a missing map entry reads as 0. */
  function Marker(a: Attrib): byte {
    if a == 0 then 0 else if a == ATTR_NAME then 0xb0 else 0xbe + a
  }

  predicate IsMarker(c: byte) { c == 0xb0 || 0xc0 <= c <= 0xc6 }

  function Marked(c: byte): Attrib
    requires IsMarker(c)
  {
    if c == 0xb0 then ATTR_NAME else c - 0xbe
  }

  function TypeCode(v: Variant): byte {
    match v
    case Inert => 0
    case NoValue => 1
    case Octet(signed, _) => if signed then 3 else 2
    case Short(signed, _) => if signed then 5 else 4
    case Long(kind, _) => (match kind case Unsigned => 6 case Signed => 7 case Float => 10)
    case LongLong(kind, _) => (match kind case Unsigned => 8 case Signed => 9 case Float => 11)
    case Bool(_) => 12
    case Str(_) => 13
    case Blob(_) => 14
  }

  // -------------------------------------------------------------------------
  // Integers and blocks

  /** The n low octets of v, the most significant first. */
  function Be(n: nat, v: nat): (s: seq<byte>)
    ensures |s| == n
  {
    if n == 0 then [] else Be(n - 1, v / 0x100) + [v % 0x100]
  }

  function Un(s: seq<byte>): nat {
    if s == [] then 0 else Un(s[..|s| - 1]) * 0x100 + s[|s| - 1]
  }

  function Power(n: nat): nat {
    if n == 0 then 1 else 0x100 * Power(n - 1)
  }

  lemma {:induction false} UnBe(n: nat, v: nat)
    requires v < Power(n)
    ensures Un(Be(n, v)) == v
  {
    if n > 0 {
      UnBe(n - 1, v / 0x100);
      assert Be(n, v)[..n - 1] == Be(n - 1, v / 0x100);
    }
  }

  lemma {:induction false} UnBound(s: seq<byte>)
    ensures Un(s) < Power(|s|)
  {
    if s != [] {
      UnBound(s[..|s| - 1]);
    }
  }

  lemma Powers()
    ensures Power(1) == 0x100 && Power(2) == 0x1_0000 && Power(4) == 0x1_0000_0000
    ensures Power(8) == 0x1_0000_0000_0000_0000
  {
    assert Power(3) == 0x100_0000;
    assert Power(5) == 0x100_0000_0000;
    assert Power(6) == 0x1_0000_0000_0000;
    assert Power(7) == 0x100_0000_0000_0000;
  }

  /** `LenInsert`: one, three or five octets; a length of 2^32 or more is truncated. */
  function LenBytes(n: nat): seq<byte> {
    if n < 128 then [n]
    else if n < 0x1_0000 then [128] + Be(2, n)
    else [129] + Be(4, n % 0x1_0000_0000)
  }

  function BlockBytes(d: seq<byte>): seq<byte> { LenBytes(|d|) + d }

  function Body(v: Variant): seq<byte> {
    match v
    case Inert => []
    case NoValue => []
    case Octet(_, x) => [x]
    case Short(_, x) => Be(2, x)
    case Long(_, x) => Be(4, x)
    case LongLong(_, x) => Be(8, x)
    case Bool(b) => [if b then 1 else 0]
    case Str(s) => BlockBytes(s)
    case Blob(d) => BlockBytes(d)
  }

  // -------------------------------------------------------------------------
  // Encoding

  /** The attributes from a on, in the order of their types; an inert value ends them. */
  function AttrBytes(m: Attribs, a: nat): seq<byte>
    decreases ATTR_LAST + 1 - a
  {
    if a > ATTR_LAST then []
    else if a !in m then AttrBytes(m, a + 1)
    else if m[a].Inert? then [Marker(a), TypeCode(m[a])]
    else [Marker(a), TypeCode(m[a])] + Body(m[a]) + AttrBytes(m, a + 1)
  }

  function TreeBytes(t: Tree): seq<byte> {
    [MK_DAT] + AttrBytes(t.attribs, 0) + SubsBytes(t.subs) + [MK_DAT_END]
  }

  function SubsBytes(ts: seq<Tree>): seq<byte> {
    if ts == [] then [] else SubsBytes(ts[..|ts| - 1]) + TreeBytes(ts[|ts| - 1])
  }

  /** A whole package up to its end marker. */
  function PackageBytes(t: Tree): seq<byte> {
    [MK_MAGIC, MK_PKG, 0] + TreeBytes(t) + [MK_PKG_END]
  }

  // -------------------------------------------------------------------------
  // Decoding

  datatype Parsed<T> = Fail | Got(value: T, rest: seq<byte>)

  /** n octets from the front. */
  function GetOctets(s: seq<byte>, n: nat): Parsed<seq<byte>> {
    if n <= |s| then Got(s[..n], s[n..]) else Fail
  }

  function GetUint(s: seq<byte>, n: nat): (p: Parsed<nat>)
    ensures p.Got? ==> p.value < Power(n)
  {
    if n <= |s| then UnBound(s[..n]); Got(Un(s[..n]), s[n..]) else Fail
  }

  function GetLen(s: seq<byte>): (p: Parsed<nat>) {
    if s == [] then Fail
    else if s[0] < 128 then Got(s[0], s[1..])
    else if s[0] == 128 then GetUint(s[1..], 2)
    else if s[0] == 129 then GetUint(s[1..], 4)
    else Fail
  }

  function GetBlock(s: seq<byte>): Parsed<seq<byte>> {
    match GetLen(s)
    case Fail => Fail
    case Got(n, rest) => GetOctets(rest, n)
  }

  /** A block read as a string ends at its first zero octet. */
  function CText(s: seq<byte>): (r: CString)
    ensures r <= s
    ensures 0 !in s ==> r == s
  {
    if s == [] || s[0] == 0 then []
    else
      var r := CText(s[1..]);
      assert s == [s[0]] + s[1..];
      [s[0]] + r
  }

  function GetVariant(s: seq<byte>, code: byte): Parsed<Variant> {
    Powers();
    if code == 1 then Got(NoValue, s)
    else if code == 2 || code == 3 then
      (match GetUint(s, 1) case Fail => Fail case Got(v, r) => Got(Octet(code == 3, v), r))
    else if code == 4 || code == 5 then
      (match GetUint(s, 2) case Fail => Fail case Got(v, r) => Got(Short(code == 5, v), r))
    else if code == 6 || code == 7 || code == 10 then
      (match GetUint(s, 4) case Fail => Fail case Got(v, r) => Got(Long(KindOf(code), v), r))
    else if code == 8 || code == 9 || code == 11 then
      (match GetUint(s, 8) case Fail => Fail case Got(v, r) => Got(LongLong(KindOf(code), v), r))
    else if code == 12 then
      (match GetUint(s, 1) case Fail => Fail case Got(v, r) => Got(Bool(v != 0), r))
    else if code == 13 then
      (match GetBlock(s) case Fail => Fail case Got(d, r) => Got(Str(CText(d)), r))
    else if code == 14 then
      (match GetBlock(s) case Fail => Fail case Got(d, r) => Got(Blob(d), r))
    else Fail
  }

  function KindOf(code: byte): Kind {
    if code == 6 || code == 8 then Unsigned else if code == 7 || code == 9 then Signed else Float
  }

  /** An attribute's type octet and value. */
  function GetAttr(s: seq<byte>): Parsed<Variant> {
    if s == [] then Fail else GetVariant(s[1..], s[0])
  }

  lemma AttrShrinks(s: seq<byte>)
    ensures GetAttr(s).Got? ==> |GetAttr(s).rest| < |s|
  {
  }

  function AttrSet(frames: seq<Tree>, a: Attrib, v: Variant): (r: seq<Tree>)
    requires frames != []
    ensures |r| == |frames|
  {
    [frames[0].(attribs := frames[0].attribs[a := v])] + frames[1..]
  }

  /** The end of a datum that is not the root. */
  function Popped(frames: seq<Tree>): (r: seq<Tree>)
    requires frames != []
    ensures |r| == if |frames| == 1 then 1 else |frames| - 1
  {
    if |frames| == 1 then frames
    else [frames[1].(subs := frames[1].subs + [frames[0]])] + frames[2..]
  }

  /** `DecodeElement`: `frames` are the data that are open, the innermost first; `root` is true
      until the root's own start marker was seen. */
  function Elements(s: seq<byte>, frames: seq<Tree>, root: bool): (p: Parsed<seq<Tree>>)
    requires frames != []
    ensures p.Got? ==> p.value != [] && |p.rest| < |s|
    decreases |s|
  {
    if s == [] then Fail
    else if s[0] == MK_PKG_END then Got(frames, s[1..])
    else if s[0] == MK_DAT then Elements(s[1..], if root then frames else [Tree(map[], [])] + frames, false)
    else if s[0] == MK_DAT_END then Elements(s[1..], Popped(frames), root)
    else if s[0] == MK_CHK || s[0] == MK_CHK_END then Elements(s[1..], frames, root)
    else if IsMarker(s[0]) then
      AttrShrinks(s[1..]);
      match GetAttr(s[1..])
      case Fail => Fail
      case Got(v, rest) => Elements(rest, AttrSet(frames, Marked(s[0]), v), root)
    else Fail
  }

  /** Data that are still open at the end marker are already in the tree. */
  function Collapse(frames: seq<Tree>): Tree
    requires frames != []
    decreases |frames|
  {
    if |frames| == 1 then frames[0] else Collapse(Popped(frames))
  }

  /** What is left of a datum after `Clear`: its name. */
  function Named(name: CString): Attribs {
    if name == [] then map[] else map[ATTR_NAME := Str(name)]
  }

  /** `DecodeIdent` and `DecodeVersion`, then the elements. */
  function Package(s: seq<byte>, name: CString): Parsed<seq<Tree>> {
    if |s| >= 3 && s[0] == MK_MAGIC && s[1] == MK_PKG then Elements(s[3..], [Tree(Named(name), [])], true)
    else Fail
  }

  // -------------------------------------------------------------------------
  // Checksum

  datatype CheckMode = CkNone | CkCrc32 | CkMd5Sum | CkSha1Sum

  /** What `Close` writes behind the end marker; of the digests only the CRC has a value. */
  function Trailer(mode: CheckMode, crc: uint32): seq<byte> {
    match mode
    case CkNone => []
    case CkCrc32 => [MK_CHK, CK_CRC32] + Be(4, crc) + [MK_CHK_END]
    case CkMd5Sum => [MK_CHK, 2, MK_CHK_END]
    case CkSha1Sum => [MK_CHK, 3, MK_CHK_END]
  }

  /** `DecodeChecksum`, given the CRC of the octets before it; the last octet may be anything. */
  predicate TrailerOk(s: seq<byte>, crc: uint32) {
    && |s| >= 3 && s[0] == MK_CHK && s[1] != 2 && s[1] != 3
    && (s[1] == CK_CRC32 ==> |s| >= 7 && Un(s[2..6]) == crc)
  }

  /** A CRC trailer is accepted exactly with the CRC it was made from, the digests never are. */
  lemma TrailerAccepted(mode: CheckMode, crc: uint32, crc': uint32, rest: seq<byte>)
    requires mode != CkNone
    ensures TrailerOk(Trailer(mode, crc) + rest, crc') <==> mode == CkCrc32 && crc == crc'
  {
    hide Be, Un;
    Powers();
    UnBe(4, crc);
    if mode == CkCrc32 {
      assert (Trailer(mode, crc) + rest)[2..6] == Be(4, crc);
    }
  }

  lemma {:induction false} UnInjective(s: seq<byte>, t: seq<byte>)
    requires |s| == |t| && Un(s) == Un(t)
    ensures s == t
  {
    if s != [] {
      var n := |s| - 1;
      UnInjective(s[..n], t[..n]);
      assert s == s[..n] + [s[n]] && t == t[..n] + [t[n]];
    }
  }

  /** One wrong octet in a CRC trailer: the digests' types are refused, and so is another number.
      But any further type octet passes, whatever the CRC, and so does any end marker. */
  lemma DamagedTrailer(crc: uint32, i: nat, b: byte, crc': uint32)
    requires i < 7 && b != Trailer(CkCrc32, crc)[i]
    ensures TrailerOk(Trailer(CkCrc32, crc)[i := b], crc) <==> i == 6 || (i == 1 && b != 2 && b != 3)
    ensures i == 1 ==> (TrailerOk(Trailer(CkCrc32, crc)[i := b], crc') <==> b != 2 && b != 3)
  {
    hide Be, Un;
    Powers();
    UnBe(4, crc);
    var t := Trailer(CkCrc32, crc);
    var d := t[i := b];
    assert t[2..6] == Be(4, crc);
    if 2 <= i < 6 {
      assert d[2..6][i - 2] != t[2..6][i - 2];
      if Un(d[2..6]) == crc {
        UnInjective(d[2..6], t[2..6]);
      }
    } else {
      assert d[2..6] == t[2..6];
    }
  }
}

/** The octets of the native encoding one by one: the layout of a package spelt out by its numbers,
    for writing and for reading. */
module NativeWire {
  import opened Bytes
  import opened NativeFormat

  // -------------------------------------------------------------------------
  // Numbers and lengths

  /** The integers are those of cpUtil.cpp; one of 64 bits is two of 32, the high half first. */
  lemma NumberOctets(v8: byte, v16: uint16, v32: uint32, v64: uint64)
    ensures Be(1, v8) == [v8] && Be(2, v16) == Be16(v16) && Be(4, v32) == Be32(v32)
    ensures Be(8, v64) == Be32(v64 / 0x1_0000_0000) + Be32(v64 % 0x1_0000_0000)
  {
    hide Be, Be32;
    OneOctet(v8);
    TwoOctets(v16);
    FourOctets(v32);
    LowFour(4, v64);
    FourOctets(v64 / 0x1_0000_0000);
  }

  lemma OneOctet(v: nat)
    ensures Be(1, v) == [v % 0x100]
  {
    assert Be(0, v / 0x100) == [];
  }

  lemma BeStep(n: nat, v: nat)
    ensures Be(n + 1, v) == Be(n, v / 0x100) + [v % 0x100]
  {
  }

  lemma TwoOctets(v: uint16)
    ensures Be(2, v) == Be16(v)
  {
    hide Be;
    OneOctet(v / 0x100);
    BeStep(1, v);
  }

  lemma FourOctets(v: uint32)
    ensures Be(4, v) == Be32(v)
  {
    hide Be32;
    LowFour(0, v);
    assert Be(0, v / 0x1_0000_0000) == [];
  }

  /** The four low octets stand behind the others. */
  lemma LowFour(n: nat, v: nat)
    ensures Be(n + 4, v) == Be(n, v / 0x1_0000_0000) + Be32(v % 0x1_0000_0000)
  {
    hide Be;
    var w := v / 0x100;
    var x := w / 0x100;
    var y := x / 0x100;
    Digits(v);
    BeStep(n + 3, v);
    BeStep(n + 2, w);
    BeStep(n + 1, x);
    BeStep(n, y);
    assert Be32(v % 0x1_0000_0000) == [y % 0x100, x % 0x100, w % 0x100, v % 0x100];
  }

  lemma Digits(v: nat)
    ensures var w := v / 0x100;
      var x := w / 0x100;
      var y := x / 0x100;
      && v / 0x1_0000_0000 == y / 0x100
      && var u := v % 0x1_0000_0000;
         u / 0x100_0000 == y % 0x100 && u / 0x1_0000 % 0x100 == x % 0x100 && u / 0x100 % 0x100 == w % 0x100 && u % 0x100 == v % 0x100
  {
    var w := v / 0x100;
    var x := w / 0x100;
    var y := x / 0x100;
    var u := (y % 0x100) * 0x100_0000 + (x % 0x100) * 0x1_0000 + (w % 0x100) * 0x100 + v % 0x100;
    assert v == y / 0x100 * 0x1_0000_0000 + u;
    Quotients(y % 0x100, x % 0x100, w % 0x100, v % 0x100);
  }

  /** A length takes one, three or five octets. */
  lemma LengthOctets(n: nat)
    ensures n <= 127 ==> LenBytes(n) == [n]
    ensures 128 <= n <= 65535 ==> LenBytes(n) == [0x80] + Be16(n)
    ensures 65536 <= n ==> LenBytes(n) == [0x81] + Be32(n % 0x1_0000_0000)
  {
    hide Be16, Be32, Be;
    if n <= 127 {
    } else if n <= 65535 {
      TwoOctets(n);
    } else {
      FourOctets(n % 0x1_0000_0000);
    }
  }

  /** Those are as few as a reader takes for n, and no other octets of that number read as n. */
  lemma ShortestLength(s: seq<byte>)
    requires GetLen(s).Got?
    ensures var n, taken := GetLen(s).value, |s| - |GetLen(s).rest|;
            n <= 0xffff_ffff && taken >= |LenBytes(n)| && (taken == |LenBytes(n)| ==> s == LenBytes(n) + GetLen(s).rest)
  {
    hide Be, Un;
    Powers();
    var n, rest := GetLen(s).value, GetLen(s).rest;
    if s[0] >= 128 {
      var k := if s[0] == 128 then 2 else 4;
      var d := s[1..][..k];
      assert n == Un(d) && s == [s[0]] + d + rest;
      UnBound(d);
      UnBe(k, n);
      UnInjective(Be(k, n), d);
    }
  }

  // -------------------------------------------------------------------------
  // Writing

  /** A datum with one attribute: its marker, the type octet, the value. */
  lemma AttributeOctets(a: Attrib, v: Variant)
    ensures TreeBytes(Tree(map[a := v], [])) ==
      [0xa2, [0x00, 0xb0, 0xc0, 0xc1, 0xc2, 0xc3, 0xc4, 0xc5, 0xc6][a]] +
      (match v
       case Inert => [0]
       case NoValue => [1]
       case Octet(signed, x) => [if signed then 3 else 2, x]
       case Short(signed, x) => [if signed then 5 else 4] + Be16(x)
       case Long(Unsigned, x) => [6] + Be32(x)
       case Long(Signed, x) => [7] + Be32(x)
       case Long(Float, x) => [10] + Be32(x)
       case LongLong(Unsigned, x) => [8] + Be32(x / 0x1_0000_0000) + Be32(x % 0x1_0000_0000)
       case LongLong(Signed, x) => [9] + Be32(x / 0x1_0000_0000) + Be32(x % 0x1_0000_0000)
       case LongLong(Float, x) => [11] + Be32(x / 0x1_0000_0000) + Be32(x % 0x1_0000_0000)
       case Bool(b) => [12, if b then 1 else 0]
       case Str(s) =>
         [13] + (if |s| <= 127 then [|s|] else if |s| <= 65535 then [0x80] + Be16(|s|) else [0x81] + Be32(|s| % 0x1_0000_0000)) + s
       case Blob(d) =>
         [14] + (if |d| <= 127 then [|d|] else if |d| <= 65535 then [0x80] + Be16(|d|) else [0x81] + Be32(|d| % 0x1_0000_0000)) + d) +
      [0xa3]
  {
    hide Be, Be16, Be32, LenBytes, AttrBytes, TreeBytes, Marker;
    OneAttribute(a, v);
    MarkerOctets(a);
    match v
    case Octet(_, x) => assert [TypeCode(v)] + Body(v) == [TypeCode(v), x];
    case Short(_, x) => NumberOctets(0, x, 0, 0);
    case Long(_, x) => NumberOctets(0, 0, x, 0);
    case LongLong(_, x) => WideOctets(TypeCode(v), x);
    case Bool(b) => assert [TypeCode(v)] + Body(v) == [12, if b then 1 else 0];
    case Str(s) => BlockOctets(13, s);
    case Blob(d) => BlockOctets(14, d);
    case _ => assert [TypeCode(v)] + [] == [TypeCode(v)];
  }

  lemma WideOctets(code: byte, x: uint64)
    ensures [code] + Be(8, x) == [code] + Be32(x / 0x1_0000_0000) + Be32(x % 0x1_0000_0000)
  {
    hide Be, Be32;
    NumberOctets(0, 0, 0, x);
  }

  lemma BlockOctets(code: byte, d: seq<byte>)
    ensures [code] + BlockBytes(d) ==
      [code] + (if |d| <= 127 then [|d|] else if |d| <= 65535 then [0x80] + Be16(|d|) else [0x81] + Be32(|d| % 0x1_0000_0000)) + d
  {
    hide LenBytes, Be16, Be32;
    LengthOctets(|d|);
  }

  lemma MarkerOctets(a: Attrib)
    ensures Marker(a) == [0x00, 0xb0, 0xc0, 0xc1, 0xc2, 0xc3, 0xc4, 0xc5, 0xc6][a]
    ensures a > 0 ==> IsMarker(Marker(a)) && Marked(Marker(a)) == a
  {
  }

  lemma OneAttribute(a: Attrib, v: Variant)
    ensures TreeBytes(Tree(map[a := v], [])) == [0xa2, Marker(a)] + ([TypeCode(v)] + Body(v)) + [0xa3]
  {
    hide Marker, TypeCode, Body, AttrBytes;
    var m := map[a := v];
    AttrsFrom(m, 0, a);
    AttrsStep(m, a);
    AttrsNone(m, a + 1);
    InertBody(v);
    assert SubsBytes([]) == [];
  }

  lemma InertBody(v: Variant)
    ensures v.Inert? ==> Body(v) == []
  {
  }

  lemma AttrsStep(m: Attribs, a: Attrib)
    requires a in m
    ensures AttrBytes(m, a) == [Marker(a), TypeCode(m[a])] + if m[a].Inert? then [] else Body(m[a]) + AttrBytes(m, a + 1)
  {
    hide Marker, TypeCode, Body;
  }

  /** No attributes between b and a */
  lemma {:induction false} AttrsFrom(m: Attribs, b: nat, a: nat)
    requires b <= a <= 9 && forall c :: c in m ==> c < b || a <= c
    ensures AttrBytes(m, b) == AttrBytes(m, a)
    decreases a - b
  {
    if b < a {
      AttrsFrom(m, b + 1, a);
    }
  }

  lemma AttrsNone(m: Attribs, a: nat)
    requires forall c :: c in m ==> c < a
    ensures AttrBytes(m, a) == []
  {
    if a <= 9 {
      AttrsFrom(m, a, 9);
    }
  }

  /** All but the end marker of a datum */
  function Front(octets: seq<byte>): seq<byte>
    requires octets != []
  {
    octets[..|octets| - 1]
  }

  /** How a datum's octets are made of its parts: an attribute with a greater number than the others
      is written behind them, unless one of them has an inert value; and sub-data follow the
      attributes in their order. */
  lemma DatumOctets(m: Attribs, a: Attrib, v: Variant, ts: seq<Tree>, t: Tree)
    requires forall b :: b in m ==> b < a
    ensures TreeBytes(Tree(map[], [])) == [0xa2, 0xa3]
    ensures (forall b :: b in m ==> !m[b].Inert?) ==>
      TreeBytes(Tree(m[a := v], [])) == Front(TreeBytes(Tree(m, []))) + TreeBytes(Tree(map[a := v], []))[1..]
    ensures (exists b :: b in m && m[b].Inert?) ==> TreeBytes(Tree(m[a := v], [])) == TreeBytes(Tree(m, []))
    ensures TreeBytes(Tree(m, ts + [t])) == Front(TreeBytes(Tree(m, ts))) + TreeBytes(t) + [0xa3]
  {
    hide TreeBytes, AttrBytes, Front;
    AttrsNone(map[], 0);
    JustAttributes(map[]);
    SubAdded(m, ts, t);
    if forall b :: b in m ==> !m[b].Inert? {
      AttributeBehind(m, a, v);
    } else {
      AttributeHidden(m, a, v);
    }
  }

  lemma AttributeBehind(m: Attribs, a: Attrib, v: Variant)
    requires (forall b :: b in m ==> b < a) && forall b :: b in m ==> !m[b].Inert?
    ensures TreeBytes(Tree(m[a := v], [])) == Front(TreeBytes(Tree(m, []))) + TreeBytes(Tree(map[a := v], []))[1..]
  {
    hide TreeBytes, AttrBytes, Front;
    AttrsAdd(m, a, v, 0);
    AttrsFrom(map[a := v], 0, a);
    JustAttributes(m);
    JustAttributes(m[a := v]);
    JustAttributes(map[a := v]);
    Around(AttrBytes(m, 0), AttrBytes(map[a := v], 0));
  }

  lemma Around(x: seq<byte>, y: seq<byte>)
    ensures [0xa2] + (x + y) + [0xa3] == [0xa2] + x + (y + [0xa3])
  {
  }

  lemma AttributeHidden(m: Attribs, a: Attrib, v: Variant)
    requires (forall b :: b in m ==> b < a) && exists b :: b in m && m[b].Inert?
    ensures TreeBytes(Tree(m[a := v], [])) == TreeBytes(Tree(m, []))
  {
    hide TreeBytes, AttrBytes;
    AttrsAdd(m, a, v, 0);
    JustAttributes(m);
    JustAttributes(m[a := v]);
  }

  lemma JustAttributes(m: Attribs)
    ensures TreeBytes(Tree(m, [])) == [0xa2] + AttrBytes(m, 0) + [0xa3]
    ensures Front(TreeBytes(Tree(m, []))) == [0xa2] + AttrBytes(m, 0) && TreeBytes(Tree(m, []))[1..] == AttrBytes(m, 0) + [0xa3]
  {
    hide AttrBytes;
    assert SubsBytes([]) == [];
  }

  lemma SubAdded(m: Attribs, ts: seq<Tree>, t: Tree)
    ensures TreeBytes(Tree(m, ts + [t])) == Front(TreeBytes(Tree(m, ts))) + TreeBytes(t) + [0xa3]
  {
    hide AttrBytes;
    assert (ts + [t])[..|ts|] == ts;
    assert SubsBytes(ts + [t]) == SubsBytes(ts) + TreeBytes(t);
  }

  /** The attributes from c on, with one more behind them */
  lemma {:induction false} AttrsAdd(m: Attribs, a: Attrib, v: Variant, c: nat)
    requires c <= a && forall b :: b in m ==> b < a
    ensures (forall b :: b in m && c <= b ==> !m[b].Inert?) ==> AttrBytes(m[a := v], c) == AttrBytes(m, c) + AttrBytes(map[a := v], a)
    ensures (exists b :: b in m && c <= b && m[b].Inert?) ==> AttrBytes(m[a := v], c) == AttrBytes(m, c)
    decreases a - c
  {
    hide Marker, TypeCode, Body, AttrBytes;
    var m' := m[a := v];
    if c == a {
      AttrsNone(m, a);
      AttrsStep(m', a);
      AttrsStep(map[a := v], a);
      AttrsNone(m', a + 1);
      AttrsNone(map[a := v], a + 1);
    } else {
      AttrsAdd(m, a, v, c + 1);
      if c in m {
        AttrsStep(m, c);
        AttrsStep(m', c);
      } else {
        AttrsFrom(m, c, c + 1);
        AttrsFrom(m', c, c + 1);
      }
    }
  }

  /** A package around its tree, and the trailers */
  lemma PackageOctets(t: Tree, crc: uint32)
    ensures PackageBytes(t) == [0x88, 0xa0, 0x00] + TreeBytes(t) + [0xa1]
    ensures Trailer(CkNone, crc) == [] && Trailer(CkCrc32, crc) == [0xa4, 1] + Be32(crc) + [0xa5]
    ensures Trailer(CkMd5Sum, crc) == [0xa4, 2, 0xa5] && Trailer(CkSha1Sum, crc) == [0xa4, 3, 0xa5]
  {
    hide Be, Be32, TreeBytes;
    FourOctets(crc);
  }

  // -------------------------------------------------------------------------
  // Reading

  lemma NumberRead(s: seq<byte>)
    ensures |s| == 1 ==> Un(s) == s[0]
    ensures |s| == 2 ==> Un(s) == U16(s)
    ensures |s| == 4 ==> Un(s) == U32(s)
    ensures |s| == 8 ==> Un(s) == U32(s[..4]) * 0x1_0000_0000 + U32(s[4..])
  {
    hide Un;
    assert Un([]) == 0 by {
      UnNone();
    }
    if |s| == 1 || |s| == 2 {
      UnStep(s);
      UnStep(s[..1]);
      assert s[..1][..0] == [] && (|s| == 1 ==> s[..0] == []);
    } else if |s| == 4 {
      UnFour([], s);
      assert [] + s == s;
    } else if |s| == 8 {
      UnFour([], s[..4]);
      UnFour(s[..4], s[4..]);
      assert [] + s[..4] == s[..4] && s[..4] + s[4..] == s;
    }
  }

  lemma UnNone()
    ensures Un([]) == 0
  {
  }

  lemma UnStep(s: seq<byte>)
    requires s != []
    ensures Un(s) == Un(s[..|s| - 1]) * 0x100 + s[|s| - 1]
  {
  }

  lemma UnFour(s: seq<byte>, t: seq<byte>)
    requires |t| == 4
    ensures Un(s + t) == Un(s) * 0x1_0000_0000 + U32(t)
  {
    hide Un;
    var n := |s|;
    UnStep(s + t);
    assert (s + t)[..n + 3] == s + t[..3];
    UnStep(s + t[..3]);
    assert (s + t[..3])[..n + 2] == s + t[..2];
    UnStep(s + t[..2]);
    assert (s + t[..2])[..n + 1] == s + t[..1];
    UnStep(s + t[..1]);
    assert (s + t[..1])[..n] == s;
  }

  /** What a block begins with */
  lemma BlockRead(s: seq<byte>)
    ensures GetBlock(s) ==
      if s == [] || s[0] > 0x81 then Fail
      else
        var width := if s[0] < 0x80 then 1 else if s[0] == 0x80 then 3 else 5;
        if |s| < width then Fail
        else
          var n := if s[0] < 0x80 then s[0] else if s[0] == 0x80 then U16(s[1..3]) else U32(s[1..5]);
          if |s| < width + n then Fail else Got(s[width..width + n], s[width + n..])
  {
    hide Un, U16, U32;
    if s != [] && s[0] < 0x80 && s[0] < |s| {
      assert s[1..][..s[0]] == s[1..1 + s[0]] && s[1..][s[0]..] == s[1 + s[0]..];
    }
    if s != [] && 0x80 <= s[0] <= 0x81 {
      var k := if s[0] == 128 then 2 else 4;
      if |s| > k {
        var d, rest := s[1..1 + k], s[1 + k..];
        assert s[1..][..k] == d && s[1..][k..] == rest;
        NumberRead(d);
        assert GetLen(s) == Got(Un(d), rest);
        var n := Un(d);
        assert n <= |rest| ==> rest[..n] == s[1 + k..1 + k + n] && rest[n..] == s[1 + k + n..];
      }
    }
  }

  /** What the decoder makes of any octets behind a type octet. */
  lemma ValueRead(s: seq<byte>, code: byte)
    ensures code == 1 ==> GetVariant(s, code) == Got(NoValue, s)
    ensures code == 2 || code == 3 ==> GetVariant(s, code) == if |s| < 1 then Fail else Got(Octet(code == 3, s[0]), s[1..])
    ensures code == 4 || code == 5 ==> GetVariant(s, code) == if |s| < 2 then Fail else Got(Short(code == 5, U16(s[..2])), s[2..])
    ensures code == 6 ==> GetVariant(s, code) == if |s| < 4 then Fail else Got(Long(Unsigned, U32(s[..4])), s[4..])
    ensures code == 7 ==> GetVariant(s, code) == if |s| < 4 then Fail else Got(Long(Signed, U32(s[..4])), s[4..])
    ensures code == 10 ==> GetVariant(s, code) == if |s| < 4 then Fail else Got(Long(Float, U32(s[..4])), s[4..])
    ensures code == 8 || code == 9 || code == 11 ==>
      if |s| < 8 then GetVariant(s, code) == Fail
      else
        var kind := if code == 8 then Unsigned else if code == 9 then Signed else Float;
        GetVariant(s, code) == Got(LongLong(kind, U32(s[..4]) * 0x1_0000_0000 + U32(s[4..8])), s[8..])
    ensures code == 12 ==> GetVariant(s, code) == if |s| < 1 then Fail else Got(Bool(s[0] != 0), s[1..])
    ensures code == 13 || code == 14 ==>
      match GetBlock(s)
      case Fail => GetVariant(s, code) == Fail
      case Got(d, rest) => GetVariant(s, code) == Got(if code == 13 then Str(CText(d)) else Blob(d), rest)
    ensures code == 0 || code > 14 ==> GetVariant(s, code) == Fail
  {
    hide Un, U16, U32, GetBlock, CText;
    if |s| >= 1 {
      NumberRead(s[..1]);
    }
    if |s| >= 2 {
      NumberRead(s[..2]);
    }
    if |s| >= 4 {
      NumberRead(s[..4]);
    }
    if |s| >= 8 {
      NumberRead(s[..8]);
      assert s[..8][..4] == s[..4] && s[..8][4..] == s[4..8];
    }
  }

  /** A string ends at its first zero octet. */
  lemma {:induction false} TextRead(d: seq<byte>)
    ensures var t := CText(d);
            t <= d && 0 !in t && (|t| < |d| ==> d[|t|] == 0)
  {
    if d != [] && d[0] != 0 {
      TextRead(d[1..]);
      assert d == [d[0]] + d[1..];
    }
  }

  /** What each octet does that can stand between two values. */
  lemma MarkerRead(rest: seq<byte>, frames: seq<Tree>, root: bool, c: byte)
    requires frames != []
    ensures Elements([0xa1] + rest, frames, root) == Got(frames, rest)
    ensures Elements([0xa2] + rest, frames, true) == Elements(rest, frames, false)
    ensures Elements([0xa2] + rest, frames, false) == Elements(rest, [Tree(map[], [])] + frames, false)
    ensures |frames| == 1 ==> Elements([0xa3] + rest, frames, root) == Elements(rest, frames, root)
    ensures |frames| > 1 ==>
      Elements([0xa3] + rest, frames, root) ==
      Elements(rest, [frames[1].(subs := frames[1].subs + [frames[0]])] + frames[2..], root)
    ensures c == 0xa4 || c == 0xa5 ==> Elements([c] + rest, frames, root) == Elements(rest, frames, root)
    ensures c < 0xa1 || 0xa6 <= c <= 0xaf || 0xb1 <= c <= 0xbf || c > 0xc6 ==> Elements([c] + rest, frames, root) == Fail
    ensures Elements([], frames, root) == Fail
  {
    hide GetAttr;
    assert forall b: byte :: ([b] + rest)[0] == b && ([b] + rest)[1..] == rest;
  }

  /** An attribute replaces that of the innermost open datum. */
  lemma AttributeRead(a: Attrib, code: byte, s: seq<byte>, frames: seq<Tree>, root: bool)
    requires frames != [] && a > 0
    ensures var octets := [[0x00, 0xb0, 0xc0, 0xc1, 0xc2, 0xc3, 0xc4, 0xc5, 0xc6][a], code] + s;
      match GetVariant(s, code)
      case Fail => Elements(octets, frames, root) == Fail
      case Got(v, rest) =>
        Elements(octets, frames, root) ==
        Elements(rest, [Tree(frames[0].attribs[a := v], frames[0].subs)] + frames[1..], root)
  {
    hide GetVariant, Marker, Elements;
    MarkerOctets(a);
    var octets := [Marker(a), code] + s;
    assert octets[1..] == [code] + s && octets[1..][1..] == s;
    ElementRead(octets, frames, root);
  }

  lemma ElementRead(s: seq<byte>, frames: seq<Tree>, root: bool)
    requires frames != [] && s != [] && IsMarker(s[0])
    ensures Elements(s, frames, root) ==
      match GetAttr(s[1..])
      case Fail => Fail
      case Got(v, rest) => Elements(rest, AttrSet(frames, Marked(s[0]), v), root)
  {
    hide GetAttr;
  }

  /** A package begins with two fixed octets and a version that is not looked at; the name of the
      receiver is its first attribute to begin with. */
  lemma PackageRead(s: seq<byte>, name: CString)
    ensures |s| >= 3 && s[0] == 0x88 && s[1] == 0xa0 ==>
      Package(s, name) == Elements(s[3..], [Tree(if name == [] then map[] else map[1 := Str(name)], [])], true)
    ensures |s| < 3 || s[0] != 0x88 || s[1] != 0xa0 ==> Package(s, name) == Fail
  {
    hide Elements;
  }

  /** A datum whose end marker is missing is part of the tree all the same. */
  lemma UnclosedRead(a: Tree, b: Tree, outer: seq<Tree>)
    ensures Collapse([a]) == a
    ensures Collapse([a, b] + outer) == Collapse([Tree(b.attribs, b.subs + [a])] + outer)
  {
    var frames := [a, b] + outer;
    assert frames[2..] == outer;
    assert Popped(frames) == [Tree(b.attribs, b.subs + [a])] + outer;
  }
}

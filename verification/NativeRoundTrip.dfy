/** Decoding undoes encoding, and exactly when. */
module NativeRoundTrip {
  import opened Bytes
  import opened NativeFormat

  // -------------------------------------------------------------------------
  // Values

  /** A value that the format can carry: not inert, and its length fits in 32 bits. */
  predicate Carried(v: Variant) {
    match v
    case Inert => false
    case Str(s) => |s| < 0x1_0000_0000
    case Blob(d) => |d| < 0x1_0000_0000
    case _ => true
  }

  predicate CarriedAttribs(m: Attribs) {
    forall a :: a in m ==> a != 0 && Carried(m[a])
  }

  predicate Encodable(t: Tree) {
    CarriedAttribs(t.attribs) && forall i :: 0 <= i < |t.subs| ==> Encodable(t.subs[i])
  }

  lemma UintRoundTrip(n: nat, v: nat, rest: seq<byte>)
    requires v < Power(n)
    ensures GetUint(Be(n, v) + rest, n) == Got(v, rest)
  {
    UnBe(n, v);
    assert (Be(n, v) + rest)[..n] == Be(n, v);
  }

  lemma LenRoundTrip(n: nat, rest: seq<byte>)
    requires n < 0x1_0000_0000
    ensures GetLen(LenBytes(n) + rest) == Got(n, rest)
  {
    hide Be, GetUint, Power;
    Powers();
    var s := LenBytes(n) + rest;
    if n < 128 {
      assert s[1..] == rest;
    } else if n < 0x1_0000 {
      UintRoundTrip(2, n, rest);
      assert s[1..] == Be(2, n) + rest;
    } else {
      UintRoundTrip(4, n, rest);
      assert s[1..] == Be(4, n) + rest;
    }
  }

  lemma BlockRoundTrip(d: seq<byte>, rest: seq<byte>)
    requires |d| < 0x1_0000_0000
    ensures GetBlock(BlockBytes(d) + rest) == Got(d, rest)
  {
    hide GetLen, LenBytes;
    LenRoundTrip(|d|, d + rest);
    assert BlockBytes(d) + rest == LenBytes(|d|) + (d + rest);
    assert (d + rest)[..|d|] == d && (d + rest)[|d|..] == rest;
  }

  lemma VariantRoundTrip(v: Variant, rest: seq<byte>)
    requires Carried(v)
    ensures GetVariant(Body(v) + rest, TypeCode(v)) == Got(v, rest)
  {
    hide Be, GetUint, Power, GetBlock, BlockBytes, CText;
    Powers();
    match v
    case NoValue => assert [] + rest == rest;
    case Octet(_, x) => OctetRoundTrip(x, rest);
    case Short(_, x) => UintRoundTrip(2, x, rest);
    case Long(_, x) => UintRoundTrip(4, x, rest);
    case LongLong(_, x) => UintRoundTrip(8, x, rest);
    case Bool(b) => OctetRoundTrip(if b then 1 else 0, rest);
    case Str(s) => BlockRoundTrip(s, rest);
    case Blob(d) => BlockRoundTrip(d, rest);
  }

  lemma OctetRoundTrip(x: byte, rest: seq<byte>)
    ensures GetUint([x] + rest, 1) == Got(x, rest)
  {
    var s := [x] + rest;
    assert s[..1] == [x] && s[1..] == rest;
    assert [x][..0] == [];
    assert Un([]) == 0;
  }

  // -------------------------------------------------------------------------
  // Elements, one at a time

  lemma DatElement(rest: seq<byte>, frames: seq<Tree>, root: bool)
    requires frames != []
    ensures Elements([MK_DAT] + rest, frames, root)
         == Elements(rest, if root then frames else [Tree(map[], [])] + frames, false)
  {
    assert ([MK_DAT] + rest)[1..] == rest;
  }

  lemma DatEndElement(rest: seq<byte>, frames: seq<Tree>, root: bool)
    requires frames != []
    ensures Elements([MK_DAT_END] + rest, frames, root) == Elements(rest, Popped(frames), root)
  {
    assert ([MK_DAT_END] + rest)[1..] == rest;
  }

  lemma PkgEndElement(rest: seq<byte>, frames: seq<Tree>, root: bool)
    requires frames != []
    ensures Elements([MK_PKG_END] + rest, frames, root) == Got(frames, rest)
  {
    assert ([MK_PKG_END] + rest)[1..] == rest;
  }

  lemma AttrElement(a: Attrib, v: Variant, rest: seq<byte>, frames: seq<Tree>, root: bool)
    requires frames != [] && a != 0 && Carried(v)
    ensures Elements([Marker(a), TypeCode(v)] + Body(v) + rest, frames, root) == Elements(rest, AttrSet(frames, a, v), root)
  {
    hide GetVariant, Body, TypeCode;
    VariantRoundTrip(v, rest);
    var s := [Marker(a), TypeCode(v)] + Body(v) + rest;
    assert s[1..] == [TypeCode(v)] + (Body(v) + rest);
    assert s[1..][1..] == Body(v) + rest;
  }

  // -------------------------------------------------------------------------
  // A tree

  /** The attributes from a on. */
  function AttrsFrom(m: Attribs, a: nat): Attribs { map k | k in m && k >= a :: m[k] }

  lemma {:induction false} AttrsRoundTrip(m: Attribs, a: nat, rest: seq<byte>, f: Tree, fs: seq<Tree>)
    requires CarriedAttribs(m)
    ensures Elements(AttrBytes(m, a) + rest, [f] + fs, false)
         == Elements(rest, [f.(attribs := f.attribs + AttrsFrom(m, a))] + fs, false)
    decreases ATTR_LAST + 1 - a
  {
    hide Elements, Marker, TypeCode, Body, AttrBytes, AttrsFrom, CarriedAttribs;
    MissingAttr(m, a, f.attribs);
    if a <= ATTR_LAST {
      if a !in m {
        AttrsRoundTrip(m, a + 1, rest, f, fs);
      } else {
        FirstAttr(m, a, f.attribs);
        var head, tail := [Marker(a), TypeCode(m[a])] + Body(m[a]), AttrBytes(m, a + 1) + rest;
        assert AttrBytes(m, a) + rest == head + tail;
        AttrElement(a, m[a], tail, [f] + fs, false);
        var g := f.(attribs := f.attribs[a := m[a]]);
        assert AttrSet([f] + fs, a, m[a]) == [g] + fs;
        AttrsRoundTrip(m, a + 1, rest, g, fs);
      }
    } else {
      assert AttrBytes(m, a) + rest == rest;
    }
  }

  lemma FirstAttr(m: Attribs, a: Attrib, before: Attribs)
    requires CarriedAttribs(m) && a in m
    ensures a != 0 && Carried(m[a])
    ensures AttrBytes(m, a) == [Marker(a), TypeCode(m[a])] + Body(m[a]) + AttrBytes(m, a + 1)
    ensures before[a := m[a]] + AttrsFrom(m, a + 1) == before + AttrsFrom(m, a)
  {
    hide Marker, TypeCode, Body;
    assert Carried(m[a]);
  }

  lemma MissingAttr(m: Attribs, a: nat, before: Attribs)
    ensures a > ATTR_LAST ==> AttrBytes(m, a) == [] && before + AttrsFrom(m, a) == before
    ensures a <= ATTR_LAST && a !in m ==> AttrBytes(m, a) == AttrBytes(m, a + 1) && AttrsFrom(m, a) == AttrsFrom(m, a + 1)
  {
    hide Marker, TypeCode, Body;
  }

  /** The attributes and the sub-data of t, read into the innermost open datum. */
  lemma ContentRoundTrip(t: Tree, rest: seq<byte>, f: Tree, fs: seq<Tree>)
    requires Encodable(t)
    ensures Elements(AttrBytes(t.attribs, 0) + SubsBytes(t.subs) + rest, [f] + fs, false)
         == Elements(rest, [Tree(f.attribs + t.attribs, f.subs + t.subs)] + fs, false)
    decreases t, 1
  {
    hide Elements, AttrBytes, SubsBytes, Carried, CarriedAttribs;
    assert AttrBytes(t.attribs, 0) + SubsBytes(t.subs) + rest == AttrBytes(t.attribs, 0) + (SubsBytes(t.subs) + rest);
    AttrsRoundTrip(t.attribs, 0, SubsBytes(t.subs) + rest, f, fs);
    assert AttrsFrom(t.attribs, 0) == t.attribs;
    SubsRoundTrip(t.subs, rest, f.(attribs := f.attribs + t.attribs), fs);
  }

  lemma {:induction false} SubsRoundTrip(ts: seq<Tree>, rest: seq<byte>, f: Tree, fs: seq<Tree>)
    requires forall i :: 0 <= i < |ts| ==> Encodable(ts[i])
    ensures Elements(SubsBytes(ts) + rest, [f] + fs, false) == Elements(rest, [f.(subs := f.subs + ts)] + fs, false)
    decreases ts
  {
    hide Elements, TreeBytes, Encodable;
    if ts == [] {
      assert SubsBytes(ts) + rest == rest;
      assert f.subs + ts == f.subs;
    } else {
      var init, last := ts[..|ts| - 1], ts[|ts| - 1];
      assert SubsBytes(ts) + rest == SubsBytes(init) + (TreeBytes(last) + rest);
      SubsRoundTrip(init, TreeBytes(last) + rest, f, fs);
      TreeRoundTrip(last, rest, f.(subs := f.subs + init), fs);
      assert f.subs + init + [last] == f.subs + ts;
    }
  }

  /** An encoded sub-datum is read as one more sub-datum of the innermost open datum. */
  lemma TreeRoundTrip(t: Tree, rest: seq<byte>, f: Tree, fs: seq<Tree>)
    requires Encodable(t)
    ensures Elements(TreeBytes(t) + rest, [f] + fs, false) == Elements(rest, [f.(subs := f.subs + [t])] + fs, false)
    decreases t, 2
  {
    hide Elements, AttrBytes, SubsBytes, Encodable, Popped;
    var content, tail := AttrBytes(t.attribs, 0) + SubsBytes(t.subs), [MK_DAT_END] + rest;
    var open, frames := Tree(map[], []), [f] + fs;
    Wrapped(AttrBytes(t.attribs, 0), SubsBytes(t.subs), rest);
    DatElement(content + tail, frames, false);
    ContentRoundTrip(t, tail, open, frames);
    assert Tree(open.attribs + t.attribs, open.subs + t.subs) == t;
    DatEndElement(rest, [t] + frames, false);
    PoppedTwo(t, f, fs);
  }

  lemma Wrapped(a: seq<byte>, b: seq<byte>, rest: seq<byte>)
    ensures [MK_DAT] + a + b + [MK_DAT_END] + rest == [MK_DAT] + (a + b + ([MK_DAT_END] + rest))
  {
  }

  lemma PoppedTwo(t: Tree, f: Tree, fs: seq<Tree>)
    ensures Popped([t] + ([f] + fs)) == [f.(subs := f.subs + [t])] + fs
  {
    var frames := [t] + ([f] + fs);
    assert frames[2..] == fs;
  }

  /** The package is read back up to its end marker, with nothing left open; a name that the
      receiver had is kept unless the package holds one. */
  lemma PackageRoundTrip(t: Tree, name: CString, rest: seq<byte>)
    requires Encodable(t)
    ensures Package(PackageBytes(t) + rest, name) == Got([Tree(Named(name) + t.attribs, t.subs)], rest)
  {
    hide Elements, AttrBytes, SubsBytes, Encodable, Named;
    var content := AttrBytes(t.attribs, 0) + SubsBytes(t.subs);
    var s := PackageBytes(t) + rest;
    var root := Tree(Named(name), []);
    assert s[3..] == [MK_DAT] + (content + ([MK_DAT_END] + ([MK_PKG_END] + rest)));
    DatElement(content + ([MK_DAT_END] + ([MK_PKG_END] + rest)), [root], true);
    ContentRoundTrip(t, [MK_DAT_END] + ([MK_PKG_END] + rest), root, []);
    var done := Tree(root.attribs + t.attribs, root.subs + t.subs);
    assert [root] + [] == [root] && [done] + [] == [done] && root.subs + t.subs == t.subs;
    DatEndElement([MK_PKG_END] + rest, [done], false);
    assert Popped([done]) == [done];
    PkgEndElement(rest, [done], false);
  }

  // -------------------------------------------------------------------------
  // Exactness

  lemma VariantCarried(s: seq<byte>, code: byte)
    ensures GetVariant(s, code).Got? ==> Carried(GetVariant(s, code).value)
  {
    hide Power, Un;
    Powers();
    match GetLen(s)
    case Fail =>
    case Got(n, _) => assert n < 0x1_0000_0000;
  }

  ghost predicate AllEncodable(ts: seq<Tree>) {
    forall i :: 0 <= i < |ts| ==> Encodable(ts[i])
  }

  lemma PoppedEncodable(frames: seq<Tree>)
    requires frames != [] && AllEncodable(frames)
    ensures AllEncodable(Popped(frames))
  {
    if |frames| > 1 {
      assert Encodable(frames[0]) && Encodable(frames[1]);
      AppendEncodable(frames[1], frames[0]);
    }
  }

  lemma AppendEncodable(t: Tree, u: Tree)
    requires Encodable(t) && Encodable(u)
    ensures Encodable(t.(subs := t.subs + [u]))
  {
  }

  /** Whatever octets are decoded, the result is a tree that can be encoded. */
  lemma {:induction false} ElementsEncodable(s: seq<byte>, frames: seq<Tree>, root: bool)
    requires frames != [] && AllEncodable(frames)
    ensures Elements(s, frames, root).Got? ==> AllEncodable(Elements(s, frames, root).value)
    decreases |s|
  {
    hide Encodable, GetVariant, Popped;
    if s != [] {
      if s[0] == MK_DAT {
        EmptyEncodable();
        ElementsEncodable(s[1..], if root then frames else [Tree(map[], [])] + frames, false);
      } else if s[0] == MK_DAT_END {
        PoppedEncodable(frames);
        ElementsEncodable(s[1..], Popped(frames), root);
      } else if s[0] == MK_CHK || s[0] == MK_CHK_END {
        ElementsEncodable(s[1..], frames, root);
      } else if IsMarker(s[0]) && GetAttr(s[1..]).Got? {
        AttrShrinks(s[1..]);
        VariantCarried(s[2..], s[1]);
        assert s[1..][1..] == s[2..];
        var v := GetAttr(s[1..]).value;
        assert Encodable(frames[0]);
        SetEncodable(frames[0], Marked(s[0]), v);
        ElementsEncodable(GetAttr(s[1..]).rest, AttrSet(frames, Marked(s[0]), v), root);
      }
    }
  }

  lemma EmptyEncodable()
    ensures Encodable(Tree(map[], []))
  {
  }

  lemma SetEncodable(t: Tree, a: Attrib, v: Variant)
    requires Encodable(t) && a != 0 && Carried(v)
    ensures Encodable(t.(attribs := t.attribs[a := v]))
  {
    var m := t.attribs[a := v];
    assert CarriedAttribs(m);
  }

  lemma {:induction false} CollapseEncodable(frames: seq<Tree>)
    requires frames != [] && AllEncodable(frames)
    ensures Encodable(Collapse(frames))
    decreases |frames|
  {
    hide Encodable, Popped;
    if |frames| > 1 {
      PoppedEncodable(frames);
      CollapseEncodable(Popped(frames));
    }
  }

  /** What a receiver has after decoding. */
  function Decoded(s: seq<byte>, name: CString): Parsed<Tree> {
    match Package(s, name)
    case Fail => Fail
    case Got(frames, rest) => if frames == [] then Fail else Got(Collapse(frames), rest)
  }

  /** The format carries a tree if and only if no value in it is inert, no attribute is of the
      type attr_None, and no string or blob has 2^32 octets or more.  The encoder reports success
      in every case. */
  lemma RoundTripExactly(t: Tree, rest: seq<byte>)
    ensures Decoded(PackageBytes(t) + rest, []) == Got(t, rest) <==> Encodable(t)
  {
    hide Elements, TreeBytes, PackageBytes, Encodable;
    if Encodable(t) {
      PackageRoundTrip(t, [], rest);
      assert Named([]) + t.attribs == t.attribs;
    }
    var s := PackageBytes(t) + rest;
    if Package(s, []).Got? {
      EmptyEncodable();
      ElementsEncodable(s[3..], [Tree(Named([]), [])], true);
      CollapseEncodable(Package(s, []).value);
    }
  }

  /** A receiver that has a name of its own gets the tree unchanged exactly if the root is named
      too. */
  lemma NamedReceiver(t: Tree, name: CString, rest: seq<byte>)
    requires Encodable(t) && name != []
    ensures Decoded(PackageBytes(t) + rest, name) == Got(t, rest) <==> ATTR_NAME in t.attribs
  {
    hide Elements, TreeBytes, PackageBytes, Encodable;
    PackageRoundTrip(t, name, rest);
    var m := Named(name) + t.attribs;
    assert ATTR_NAME in m;
    if ATTR_NAME in t.attribs {
      assert m == t.attribs;
    }
  }
}

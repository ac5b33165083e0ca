/** The decoder of cpSerDesNative.cpp and cpSerDes.cpp: a loop over the elements of a stream with a
    stack of open data, driven by a small state machine. */
module NativeDecoder {
  import opened Bytes
  import opened Flat
  import opened Stream
  import opened NativeFormat
  import opened DatumTree
  import opened NativeEncoder
  import opened Crc32
  import opened Cascade

  /** The octets not yet read. */
  ghost function Rest(strm: StreamBase): seq<byte>
    reads strm, strm.store, strm.store.Segs
  {
    if strm.Valid() then strm.Flat()[strm.Pos()..] else []
  }

  /** A parse that the decoder did: it either failed or left this value and the unread octets. */
  function Parse<T>(rv: bool, value: T, rest: seq<byte>): Parsed<T> {
    if rv then Got(value, rest) else Fail
  }

  method OctetExtract(strm: StreamBase) returns (rv: bool, val: byte)
    requires strm.Valid()
    modifies strm`curBlock, strm`curPos
    ensures strm.Valid() && Out(strm) == old(Out(strm))
    ensures rv <==> old(Rest(strm)) != []
    ensures rv ==> [val] + Rest(strm) == old(Rest(strm))
    ensures !rv ==> Rest(strm) == []
  {
    hide StreamBase.Valid, StreamBase.Flat, StreamBase.Pos;
    rv, val := strm.ReadOctet();
  }

  /** `ShortExtract`, `LongExtract`, `LongLongExtract`, `Float32Extract` and `Float64Extract`: the
      octets of a number go to its memory, the most significant first. */
  method UintExtract(strm: StreamBase, n: nat) returns (rv: bool, val: nat)
    requires strm.Valid()
    modifies strm`curBlock, strm`curPos
    ensures strm.Valid() && Out(strm) == old(Out(strm))
    ensures GetUint(old(Rest(strm)), n) == Parse(rv, val, Rest(strm))
  {
    hide StreamBase.Valid, Rest, Out;
    rv, val := true, 0;
    ghost var s := Rest(strm);
    var i := n;
    while i > 0
      invariant 0 <= i <= n && strm.Valid() && Out(strm) == old(Out(strm))
      invariant if rv then n - i <= |s| && val == Un(s[..n - i]) && Rest(strm) == s[n - i..] else n > |s|
    {
      if rv {
        var ch;
        rv, ch := OctetExtract(strm);
        val := val * 0x100 + ch;
        if rv {
          assert s[..n - i + 1][..n - i] == s[..n - i];
        }
      }
      i := i - 1;
    }
  }

  method LenExtract(strm: StreamBase) returns (rv: bool, len: nat)
    requires strm.Valid()
    modifies strm`curBlock, strm`curPos
    ensures strm.Valid() && Out(strm) == old(Out(strm))
    ensures GetLen(old(Rest(strm))) == Parse(rv, len, Rest(strm))
  {
    hide StreamBase.Valid, Rest, Out, Un;
    len := 0;
    var ch;
    ghost var s := Rest(strm);
    rv, ch := OctetExtract(strm);
    if rv {
      assert s[1..] == Rest(strm);
      if ch < 128 {
        len := ch;
      } else if ch == 128 {
        rv, len := UintExtract(strm, 2);
      } else if ch == 129 {
        rv, len := UintExtract(strm, 4);
      } else {
        rv := false;
      }
    }
  }

  /** `Read` of up to len octets into a buffer. */
  method BytesExtract(strm: StreamBase, len: nat) returns (n: nat, d: seq<byte>)
    requires strm.Valid()
    modifies strm`curBlock, strm`curPos
    ensures strm.Valid() && Out(strm) == old(Out(strm))
    ensures n == |d| == Min(len, |old(Rest(strm))|) && d + Rest(strm) == old(Rest(strm))
  {
    hide StreamBase.Valid, StreamBase.Flat, StreamBase.Pos;
    var length := strm.LenGet();
    if len < length {
      length := len;
    }
    var buf := new byte[length];
    n := strm.ArrayRd(buf, length);
    d := buf[..n];
  }

  /** `BlobExtract`, and `StringExtract` up to the terminator. */
  method BlockExtract(strm: StreamBase) returns (rv: bool, d: seq<byte>)
    requires strm.Valid()
    modifies strm`curBlock, strm`curPos
    ensures strm.Valid() && Out(strm) == old(Out(strm))
    ensures GetBlock(old(Rest(strm))) == Parse(rv, d, Rest(strm))
  {
    hide StreamBase.Valid, Rest, Out, GetLen;
    d := [];
    var len;
    rv, len := LenExtract(strm);
    if rv && len > 0 {
      ghost var s := Rest(strm);
      var n;
      n, d := BytesExtract(strm, len);
      rv := n == len;
      assert rv ==> s[..len] == d && s[len..] == Rest(strm);
    }
  }

  method VariantExtract(strm: StreamBase, code: byte) returns (rv: bool, v: Variant)
    requires strm.Valid()
    modifies strm`curBlock, strm`curPos
    ensures strm.Valid() && Out(strm) == old(Out(strm))
    ensures GetVariant(old(Rest(strm)), code) == Parse(rv, v, Rest(strm))
  {
    hide StreamBase.Valid, Rest, Out, GetBlock, GetUint, CText, Power;
    Powers();
    rv, v := false, NoValue;
    var n, d := 0, [];
    if code == 1 {
      rv := true;
    } else if code == 2 || code == 3 {
      rv, n := UintExtract(strm, 1);
      if rv { v := Octet(code == 3, n); }
    } else if code == 4 || code == 5 {
      rv, n := UintExtract(strm, 2);
      if rv { v := Short(code == 5, n); }
    } else if code == 6 || code == 7 || code == 10 {
      rv, n := UintExtract(strm, 4);
      if rv { v := Long(KindOf(code), n); }
    } else if code == 8 || code == 9 || code == 11 {
      rv, n := UintExtract(strm, 8);
      if rv { v := LongLong(KindOf(code), n); }
    } else if code == 12 {
      rv, n := UintExtract(strm, 1);
      v := Bool(n != 0);
    } else if code == 13 {
      rv, d := BlockExtract(strm);
      v := Str(CText(d));
    } else if code == 14 {
      rv, d := BlockExtract(strm);
      v := Blob(d);
    }
  }

  // -------------------------------------------------------------------------
  // Elements

  /** The decoder's stack holds these open data, and all objects that it may change are in it or
      were made by it. */
  class SerDesNative {
    var datStack: seq<Datum>

    constructor ()
      ensures datStack == []
    {
      datStack := [];
    }

    /** A start marker: a new sub-datum is added and becomes the innermost open datum. */
    method PushDatum(pDat: Datum, ghost frames: seq<Tree>, ghost done: set<Datum>) returns (d: Datum)
      requires datStack != [] && pDat == datStack[0] && Nested([], datStack, frames, done)
      modifies this`datStack, pDat
      ensures fresh(d) && datStack == [d] + old(datStack)
      ensures Nested([], datStack, [Tree(map[], [])] + frames, done)
    {
      hide Denotes;
      ghost var stack := datStack;
      pDat.Add();
      d := pDat.Get();
      datStack := [d] + datStack;
      assert datStack[1..] == stack && ([Tree(map[], [])] + frames)[1..] == frames;
    }

    /** An end marker: the innermost datum is finished unless it is the root. */
    method PopDatum(pDat: Datum, ghost frames: seq<Tree>, ghost done: set<Datum>) returns (d: Datum, ghost done': set<Datum>)
      requires datStack != [] && pDat == datStack[0] && Nested([], datStack, frames, done)
      modifies this`datStack
      ensures frames != [] && Nested([], datStack, Popped(frames), done')
      ensures datStack != [] && d == datStack[0]
      ensures if |old(datStack)| > 1 then datStack == old(datStack)[1..] && done' == done + {pDat}
              else datStack == old(datStack) && done' == done
    {
      hide Nested, OpenAt;
      SameCount([], datStack, frames, done);
      d, done' := pDat, done;
      if |datStack| > 1 {
        OpenPopped(datStack, frames, done);
        done' := done + {pDat};
        datStack := datStack[1..];
        d := datStack[0];
      }
    }

    /** An attribute of the innermost datum is set. */
    method SetAttrib(pDat: Datum, a: Attrib, v: Variant, ghost frames: seq<Tree>, ghost done: set<Datum>)
      requires datStack != [] && pDat == datStack[0] && Nested([], datStack, frames, done)
      modifies pDat`attribs
      ensures frames != [] && Nested([], datStack, AttrSet(frames, a, v), done)
    {
      hide Denotes;
      assert AttrSet(frames, a, v)[1..] == frames[1..];
      pDat.attribs := pDat.attribs[a := v];
    }

    /** Decode elements up to the end marker of the package. */
    method DecodeElement(strm: StreamBase, ghost frames0: seq<Tree>) returns (rv: bool, ghost frames: seq<Tree>, ghost done: set<Datum>)
      requires strm.Valid() && Nested([], datStack, frames0, {})
      modifies this`datStack, datStack, strm`curBlock, strm`curPos
      ensures strm.Valid() && Out(strm) == old(Out(strm))
      ensures old(datStack) == [] ==> !rv
      ensures old(datStack) != [] ==> frames0 != [] && Elements(old(Rest(strm)), frames0, true) == Parse(rv, frames, Rest(strm))
      ensures rv ==> Nested([], datStack, frames, done)
      ensures old(datStack) != [] ==> datStack != [] && datStack[|datStack| - 1] == old(datStack[|datStack| - 1])
      ensures forall d :: d in datStack ==> d in old(datStack) || fresh(d)
      ensures forall d :: d in done ==> d in old(datStack) || fresh(d)
    {
      hide StreamBase.Valid, Rest, Out, Nested, Elements;
      rv, frames, done := true, frames0, {};
      ghost var s0, stack0 := Rest(strm), datStack;
      if |datStack| == 0 {
        return false, frames, done;
      }
      SameCount([], datStack, frames, done);
      var pDat := datStack[0];
      var rootDatum, exitFlag := true, false;
      while rv && !exitFlag
        invariant strm.Valid() && Out(strm) == old(Out(strm))
        invariant datStack != [] && pDat == datStack[0] && datStack[|datStack| - 1] == stack0[|stack0| - 1]
        invariant forall d :: d in datStack ==> d in stack0 || fresh(d)
        invariant forall d :: d in done ==> d in stack0 || fresh(d)
        invariant frames != [] && Nested([], datStack, frames, done)
        invariant Elements(s0, frames0, true) ==
          if !rv then Fail else if exitFlag then Got(frames, Rest(strm)) else Elements(Rest(strm), frames, rootDatum)
        decreases rv && !exitFlag, |Rest(strm)|
      {
        ghost var s := Rest(strm);
        assert pDat in datStack;
        var ch;
        rv, ch := OctetExtract(strm);
        ElementsStep(s, frames, rootDatum);
        if rv {
          assert s[1..] == Rest(strm);
          if ch == MK_PKG_END {
            exitFlag := true;
          } else if ch == MK_DAT {
            if rootDatum {
              rootDatum := false;
            } else {
              pDat := PushDatum(pDat, frames, done);
              frames := [Tree(map[], [])] + frames;
            }
          } else if ch == MK_DAT_END {
            pDat, done := PopDatum(pDat, frames, done);
            frames := Popped(frames);
          } else if ch == MK_CHK || ch == MK_CHK_END {
          } else if IsMarker(ch) {
            var v;
            rv, v := AttrExtract(strm);
            if rv {
              SetAttrib(pDat, Marked(ch), v, frames, done);
              frames := AttrSet(frames, Marked(ch), v);
            }
          } else {
            rv := false;
          }
        }
      }
    }

    /** One step of the decoder state machine. */
    method ExecDecodeState(strm: StreamBase, state: DecoderStates, check: bool, ghost name: CString, ghost frames0: seq<Tree>, ghost done0: set<Datum>)
      returns (rv: bool, next: DecoderStates, ghost frames: seq<Tree>, ghost done: set<Datum>)
      requires strm.Valid() && datStack != [] && frames0 != [] && Nested([], datStack, frames0, done0)
      requires !state.StDone? && Reached(Blocks(strm), Out(strm), Rest(strm), name, check, state, frames0) && (!state.StCheck? ==> done0 == {})
      modifies this`datStack, datStack, strm`curBlock, strm`curPos
      ensures strm.Valid() && Out(strm) == old(Out(strm)) && frames != []
      ensures datStack != [] && datStack[|datStack| - 1] == old(datStack[|datStack| - 1])
      ensures forall d :: d in datStack ==> d in old(datStack) || fresh(d)
      ensures forall d :: d in done ==> d in done0 || d in old(datStack) || fresh(d)
      ensures rv ==> Nested([], datStack, frames, done) && StepsLeft(next) < StepsLeft(state) && Reached(Blocks(strm), Out(strm), Rest(strm), name, check, next, frames)
      ensures rv && StepsLeft(next) > 1 ==> done == {}
      ensures !rv ==> !Accepted(Blocks(strm), Out(strm), name, check)
    {
      hide StreamBase.Valid, Rest, Out, Nested, Elements, Denotes, TrailerOk, CrcOf, Blocks;
      next, frames, done := state, frames0, done0;
      ghost var s := Out(strm);
      match state
      case StIdent =>
        rv := DecodeIdent(strm);
        if rv {
          next := StVersion;
        }
      case StVersion =>
        rv := DecodeVersion(strm);
        if rv {
          assert s[2..][1..] == s[3..];
          next := StElements;
        }
      case StElements =>
        rv, frames, done := DecodeElement(strm, frames0);
        if rv {
          next := if check then StCheck else StDone;
        } else {
          frames := frames0;
        }
      case StCheck =>
        rv := DecodeChecksum(strm);
        if rv {
          next := StDone;
        }
    }

    /** `Decode`: run the decoder state machine over the stream; on failure clear the datum. */
    method Decode(strm: StreamBase, dat: Datum, check: bool, text: Variant -> CString) returns (rv: bool, ghost nodes: set<Datum>)
      requires strm.Valid()
      modifies this`datStack, dat, strm`curBlock, strm`curPos
      ensures strm.Valid() && Out(strm) == old(Out(strm))
      ensures rv <==> Accepted(Blocks(strm), Out(strm), NameOf(old(dat.attribs), text), check)
      ensures rv ==> Denotes(dat, Collapse(Package(Out(strm), NameOf(old(dat.attribs), text)).value), nodes)
      ensures rv ==> |datStack| == |Package(Out(strm), NameOf(old(dat.attribs), text)).value|
      ensures !rv ==> dat.datums == [] && exists name: CString :: dat.attribs == Named(name)
      ensures forall d :: d in nodes ==> d == dat || fresh(d)
    {
      hide StreamBase.Valid, Rest, Out, Nested, Elements, Denotes, Accepted, Blocks, Collapse;
      ghost var name := NameOf(dat.attribs, text);
      ghost var frames, done := [Tree(Named(name), [])], {};
      nodes := {};
      dat.Clear(text);
      Rewound(strm);
      datStack := [dat];
      NestedRoot(dat, name);
      var state := StIdent;
      rv := true;
      var exitFlag := false;
      while !exitFlag
        invariant strm.Valid() && Out(strm) == old(Out(strm)) && frames != []
        invariant datStack != [] && datStack[|datStack| - 1] == dat
        invariant forall d :: d in datStack ==> d == dat || fresh(d)
        invariant forall d :: d in done ==> d == dat || fresh(d)
        invariant rv ==> Nested([], datStack, frames, done)
        invariant rv && StepsLeft(state) > 1 ==> done == {}
        invariant if rv then Reached(Blocks(strm), Out(strm), Rest(strm), name, check, state, frames) else exitFlag && !Accepted(Blocks(strm), Out(strm), name, check)
        invariant exitFlag <==> !rv || state.StDone?
        decreases rv, StepsLeft(state)
      {
        forall i | 0 <= i < |datStack|
          ensures datStack[i] == dat || fresh(datStack[i])
        {
          assert datStack[i] in datStack;
        }
        rv, state, frames, done := ExecDecodeState(strm, state, check, name, frames, done);
        exitFlag := state.StDone? || !rv;
      }
      if rv {
        SameCount([], datStack, frames, done);
        nodes := OpenCollapses(datStack, frames, done);
      } else {
        dat.Clear(text);
      }
    }
  }

  datatype DecoderStates = StIdent | StVersion | StElements | StCheck | StDone

  function StepsLeft(state: DecoderStates): nat {
    match state
    case StIdent => 4
    case StVersion => 3
    case StElements => 2
    case StCheck => 1
    case StDone => 0
  }

  /** The sizes of a stream's blocks. */
  ghost function Blocks(strm: StreamBase): seq<nat>
    reads strm.store
  {
    Lengths(strm.store.Contents())
  }

  /** The CRC that a receiver computes of the octets before `rest`. */
  ghost function CrcOf(sizes: seq<nat>, s: seq<byte>, rest: seq<byte>): uint32 {
    if |rest| <= |s| then AsUint(Cascaded(sizes, s[..|s| - |rest|], XOR_OUT)) else 0
  }

  /** The octets hold a package, followed by its checksum if that is to be checked. */
  ghost predicate Accepted(sizes: seq<nat>, s: seq<byte>, name: CString, check: bool) {
    var p := Package(s, name);
    p.Got? && (check ==> TrailerOk(p.rest, CrcOf(sizes, s, p.rest)))
  }

  /** How far the decoder is when it enters a state. */
  ghost predicate Reached(sizes: seq<nat>, s: seq<byte>, rest: seq<byte>, name: CString, check: bool, state: DecoderStates, frames: seq<Tree>) {
    match state
    case StIdent => rest == s && frames == [Tree(Named(name), [])]
    case StVersion => |s| >= 2 && s[0] == MK_MAGIC && s[1] == MK_PKG && rest == s[2..] && frames == [Tree(Named(name), [])]
    case StElements => |s| >= 3 && s[0] == MK_MAGIC && s[1] == MK_PKG && rest == s[3..] && frames == [Tree(Named(name), [])]
    case StCheck => check && Package(s, name) == Got(frames, rest)
    case StDone => Accepted(sizes, s, name, check) && Package(s, name).value == frames
  }

  /** The type octet and the value of an attribute */
  method AttrExtract(strm: StreamBase) returns (rv: bool, v: Variant)
    requires strm.Valid()
    modifies strm`curBlock, strm`curPos
    ensures strm.Valid() && Out(strm) == old(Out(strm))
    ensures GetAttr(old(Rest(strm))) == Parse(rv, v, Rest(strm))
  {
    hide StreamBase.Valid, Rest, Out, GetVariant;
    v := NoValue;
    ghost var s := Rest(strm);
    var ch;
    rv, ch := OctetExtract(strm);
    if rv {
      assert s[1..] == Rest(strm);
      rv, v := VariantExtract(strm, ch);
    }
  }

  lemma ElementsStep(s: seq<byte>, frames: seq<Tree>, root: bool)
    requires frames != []
    ensures Elements(s, frames, root) ==
      if s == [] then Fail
      else if s[0] == MK_PKG_END then Got(frames, s[1..])
      else if s[0] == MK_DAT then Elements(s[1..], if root then frames else [Tree(map[], [])] + frames, false)
      else if s[0] == MK_DAT_END then Elements(s[1..], Popped(frames), root)
      else if s[0] == MK_CHK || s[0] == MK_CHK_END then Elements(s[1..], frames, root)
      else if IsMarker(s[0]) then
        (match GetAttr(s[1..])
         case Fail => Fail
         case Got(v, rest) => Elements(rest, AttrSet(frames, Marked(s[0]), v), root))
      else Fail
    ensures s != [] && GetAttr(s[1..]).Got? ==> |GetAttr(s[1..]).rest| < |s|
  {
    hide GetAttr;
    if s != [] {
      AttrShrinks(s[1..]);
    }
  }

  method DecodeIdent(strm: StreamBase) returns (rv: bool)
    requires strm.Valid()
    modifies strm`curBlock, strm`curPos
    ensures strm.Valid() && Out(strm) == old(Out(strm))
    ensures var s := old(Rest(strm));
            (rv <==> |s| >= 2 && s[0] == MK_MAGIC && s[1] == MK_PKG) && (rv ==> Rest(strm) == s[2..])
  {
    hide StreamBase.Valid, Rest, Out;
    var ch;
    ghost var s := Rest(strm);
    rv, ch := OctetExtract(strm);
    if rv {
      assert s[1..] == Rest(strm);
    }
    rv := rv && ch == MK_MAGIC;
    if rv {
      rv, ch := OctetExtract(strm);
      if rv {
        assert s[2..] == s[1..][1..] == Rest(strm);
      }
      rv := rv && ch == MK_PKG;
    }
  }

  /** The version is not looked at. */
  method DecodeVersion(strm: StreamBase) returns (rv: bool)
    requires strm.Valid()
    modifies strm`curBlock, strm`curPos
    ensures strm.Valid() && Out(strm) == old(Out(strm))
    ensures (rv <==> old(Rest(strm)) != []) && (rv ==> Rest(strm) == old(Rest(strm))[1..])
  {
    hide StreamBase.Valid, Rest, Out;
    var ch;
    rv, ch := OctetExtract(strm);
  }

  /** Compare the checksum that was sent with that of the octets read so far. */
  method DecodeChecksum(strm: StreamBase) returns (rv: bool)
    requires strm.Valid() && |Rest(strm)| < |Out(strm)|
    modifies strm`curBlock, strm`curPos
    ensures strm.Valid() && Out(strm) == old(Out(strm))
    ensures rv <==> TrailerOk(old(Rest(strm)), CrcOf(Blocks(strm), Out(strm), old(Rest(strm))))
  {
    hide StreamBase.Valid, Rest, Out, Un, CrcOf, Power, Blocks;
    ghost var s := Rest(strm);
    var pos := ReadPos(strm);
    var ch;
    rv, ch := OctetExtract(strm);
    if rv {
      assert s[1..] == Rest(strm);
    }
    rv := rv && ch == MK_CHK;
    if rv {
      rv, ch := OctetExtract(strm);
      if rv {
        assert s[2..] == s[1..][1..] == Rest(strm);
      }
    }
    if rv {
      if ch == CK_CRC32 {
        var crcs;
        rv, crcs := UintExtract(strm, 4);
        if rv {
          assert s[2..][..4] == s[2..6] && s[2..][4..] == s[6..];
          var crcr := ReadCrc(strm, pos, s);
          rv := crcs == crcr;
        }
      } else if ch == 2 || ch == 3 {
        rv := false;
      }
    }
    if rv {
      rv, ch := OctetExtract(strm);
    }
  }

  method ReadPos(strm: StreamBase) returns (pos: nat)
    requires strm.Valid()
    ensures pos == |Out(strm)| - |Rest(strm)|
  {
    hide StreamBase.Valid, StreamBase.Flat, StreamBase.Pos;
    pos := strm.PosGet();
  }

  method ReadCrc(strm: StreamBase, pos: nat, ghost rest: seq<byte>) returns (crc: uint32)
    requires strm.Valid() && |rest| < |Out(strm)| && pos == |Out(strm)| - |rest|
    ensures crc == CrcOf(Blocks(strm), Out(strm), rest)
  {
    hide StreamBase.Valid, StreamBase.Flat, StreamBase.Pos, StreamBase.Len, Cascaded, AsUint;
    LenIsSize(strm);
    var c := strm.Crc32Get(pos);
    crc := AsUint(c);
  }

  lemma LenIsSize(strm: StreamBase)
    requires strm.Valid()
    ensures strm.Len() == |strm.Flat()|
  {
    hide StreamBase.Valid;
  }

  method Rewound(strm: StreamBase)
    requires strm.Valid()
    modifies strm`curBlock, strm`curPos
    ensures strm.Valid() && Out(strm) == old(Out(strm)) && Rest(strm) == Out(strm)
  {
    hide StreamBase.Valid, StreamBase.Flat, StreamBase.Pos;
    var found := strm.Seek(0);
  }

  lemma NestedRoot(dat: Datum, name: CString)
    requires dat.attribs == Named(name) && dat.datums == []
    ensures Nested([], [dat], [Tree(Named(name), [])], {})
  {
    assert [dat][1..] == [] && [Tree(Named(name), [])][1..] == [];
    assert Nested([dat], [], [], {});
  }
}

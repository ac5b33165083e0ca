/** The CRC-32 of cpUtil.cpp: agreement with RFC 1952, cascading, and error detection. */
module Crc32 {
  import opened Bytes
  import opened Reflection

  type word = bv32

  const XOR_OUT: word := 0xffff_ffff
  const GEN: word := 0x04c1_1db7
  const RFC_GEN: word := 0xedb8_8320

  // -------------------------------------------------------------------------
  // Word operations, named so that the algebra below need not look at single bits

  function Xor(a: word, b: word): word { a ^ b }

  function Left(a: word): word { a << 1 }

  function Right(a: word): word { a >> 1 }

  function Right8(a: word): word { a >> 8 }

  predicate Top(a: word) { a & 0x8000_0000 != 0 }

  predicate Low(a: word) { a & 1 == 1 }

  predicate LowOctetClear(a: word) { a & 0xff == 0 }

  /** An octet in the least significant position of a word. */
  function Word(b: byte): word { Bits(b) as bv32 }

  function Shift24(v: bv8): word { (v as bv32) << 24 }

  /** An octet, mirrored, in the most significant position of a word. */
  function Mirrored(b: byte): word { Shift24(Reverse8(Bits(b))) }

  /** Bit reversal of a word by exchanging halves, quarters and so on down to single bits. */
  function Reverse32(v: word): word {
    var a := (v << 16) | (v >> 16);
    var b := ((a & 0x00ff_00ff) << 8) | ((a >> 8) & 0x00ff_00ff);
    var c := ((b & 0x0f0f_0f0f) << 4) | ((b >> 4) & 0x0f0f_0f0f);
    var d := ((c & 0x3333_3333) << 2) | ((c >> 2) & 0x3333_3333);
    ((d & 0x5555_5555) << 1) | ((d >> 1) & 0x5555_5555)
  }

  // -------------------------------------------------------------------------
  // What the source computes

  /** One division step, most significant bit first. */
  function Step(r: word): word {
    if Top(r) then Xor(Left(r), GEN) else Left(r)
  }

  function Steps(r: word, n: nat): word {
    if n == 0 then r else Step(Steps(r, n - 1))
  }

  /** The remainder after `s`, from the remainder `r`. */
  function Run(r: word, s: seq<byte>): word {
    if s == [] then r else Steps(Xor(Run(r, s[..|s| - 1]), Mirrored(s[|s| - 1])), 8)
  }

  function Seed(cascade: word): word {
    if cascade != XOR_OUT then Reverse32(Xor(cascade, XOR_OUT)) else XOR_OUT
  }

  function Crc(s: seq<byte>, cascade: word := XOR_OUT): word {
    Xor(Reverse32(Run(Seed(cascade), s)), XOR_OUT)
  }

  /** `Reflect32`: four look-ups in the mirror table reverse the word. */
  function Reflect32(v: word): (r: word)
    ensures r == Reverse32(v)
  {
    ((ReflectLut((v & 0xff) as bv8) as bv32) << 24)
    | ((ReflectLut(((v >> 8) & 0xff) as bv8) as bv32) << 16)
    | ((ReflectLut(((v >> 16) & 0xff) as bv8) as bv32) << 8)
    | (ReflectLut((v >> 24) as bv8) as bv32)
  }

  /** `CalcCrc32` over `size` octets of memory; a null pointer yields 0. */
  method CalcCrc32(pBuf: Pointer, size: nat, cascade: word) returns (crc: word)
    requires pBuf.To? ==> size <= |pBuf.mem|
    ensures crc == if pBuf.Null? then 0 else Crc(pBuf.mem[..size], cascade)
  {
    hide Xor, Left, Top, Shift24, Reverse32, Reverse8, ReflectLut, Reflect32;
    var remainder := XOR_OUT;
    if pBuf.Null? {
      return 0;
    }
    if cascade != XOR_OUT {
      remainder := Reflect32(Xor(cascade, XOR_OUT));
    }
    var s := pBuf.mem[..size];
    for i := 0 to size
      invariant remainder == Run(Seed(cascade), s[..i])
    {
      ghost var before := remainder;
      remainder := Xor(remainder, Shift24(ReflectLut(Bits(s[i]))));
      for bit := 0 to 8
        invariant remainder == Steps(Xor(before, Mirrored(s[i])), bit)
      {
        if Top(remainder) {
          remainder := Xor(Left(remainder), GEN);
        } else {
          remainder := Left(remainder);
        }
      }
      assert s[..i + 1][..i] == s[..i];
    }
    assert s[..size] == s;
    crc := Xor(Reflect32(remainder), XOR_OUT);
  }

  // -------------------------------------------------------------------------
  // The reference form: section 8 of RFC 1952

  function RfcStep(c: word): word {
    if Low(c) then Xor(RFC_GEN, Right(c)) else Right(c)
  }

  function RfcSteps(c: word, n: nat): word {
    if n == 0 then c else RfcStep(RfcSteps(c, n - 1))
  }

  /** `crc_table[n]` */
  function RfcTable(n: word): word {
    RfcSteps(n, 8)
  }

  /** One round of the loop in `update_crc`. */
  function RfcRound(c: word, b: byte): word {
    Xor(RfcTable((c ^ Word(b)) & 0xff), Right8(c))
  }

  function RfcRun(c: word, s: seq<byte>): word {
    if s == [] then c else RfcRound(RfcRun(c, s[..|s| - 1]), s[|s| - 1])
  }

  /** `update_crc`, whose first call takes 0 */
  function UpdateCrc(crc: word, s: seq<byte>): word {
    Xor(RfcRun(Xor(crc, XOR_OUT), s), XOR_OUT)
  }

  /** The source computes the reference CRC, except that it reads the cascade value 0xffffffff as
      "nothing processed yet". */
  lemma AgreesWithRfc1952(s: seq<byte>, cascade: word)
    ensures Crc(s, cascade) == UpdateCrc(if cascade == XOR_OUT then 0 else cascade, s)
  {
    hide Xor, Reverse32, Run, RfcRun;
    RunIsMirrored(Seed(cascade), s);
    MirrorConstants();
    XorConstants();
    if cascade != XOR_OUT {
      MirrorTwice(Xor(cascade, XOR_OUT));
    }
  }

  lemma {:induction false} RunIsMirrored(r: word, s: seq<byte>)
    ensures Reverse32(Run(r, s)) == RfcRun(Reverse32(r), s)
  {
    hide Xor, Mirrored, Reverse32, RfcRound;
    if s != [] {
      var last := |s| - 1;
      RunIsMirrored(r, s[..last]);
      OctetIsMirrored(Run(r, s[..last]), s[last]);
    }
  }

  lemma OctetIsMirrored(r: word, b: byte)
    ensures Reverse32(Steps(Xor(r, Mirrored(b)), 8)) == RfcRound(Reverse32(r), b)
  {
    hide Xor, Mirrored, Word, Reverse32, RfcRound;
    MirrorXor(r, Mirrored(b));
    MirrorOctet(b);
    MirrorSteps(Xor(r, Mirrored(b)), 8);
    TableSplits(Reverse32(r), b);
  }

  lemma {:induction false} MirrorSteps(r: word, n: nat)
    ensures Reverse32(Steps(r, n)) == RfcSteps(Reverse32(r), n)
  {
    hide Reverse32, Step, RfcStep;
    if n > 0 {
      MirrorSteps(r, n - 1);
      MirrorStep(Steps(r, n - 1));
    }
  }

  lemma MirrorStep(r: word)
    ensures Reverse32(Step(r)) == RfcStep(Reverse32(r))
  {
    hide Xor, Left, Right, Top, Low, Reverse32;
    MirrorTop(r);
    MirrorLeft(r);
    MirrorXor(Left(r), GEN);
    MirrorConstants();
    XorCommutes(Right(Reverse32(r)), RFC_GEN);
  }

  /** Eight reference steps act on the low octet through the table and merely shift the rest. */
  lemma TableSplits(c: word, b: byte)
    ensures RfcSteps(Xor(c, Word(b)), 8) == RfcRound(c, b)
  {
    hide Xor, Low, Right, Right8, LowOctetClear, Word, RfcSteps, RfcStep, Rights;
    var high := c & 0xffff_ff00;
    HighPart(c, b);
    ShiftOut(high);
    RfcStepsSplit((c ^ Word(b)) & 0xff, high, 8);
  }

  lemma {:induction false} RfcStepsSplit(low: word, high: word, n: nat)
    requires forall k: nat | k < n :: !Low(Rights(high, k))
    ensures RfcSteps(Xor(low, high), n) == Xor(RfcSteps(low, n), Rights(high, n))
  {
    hide Xor, Right, Low, RfcStep;
    if n > 0 {
      RfcStepsSplit(low, high, n - 1);
      RfcStepSplits(RfcSteps(low, n - 1), Rights(high, n - 1));
    }
  }

  lemma RfcStepSplits(c: word, d: word)
    requires !Low(d)
    ensures RfcStep(Xor(c, d)) == Xor(RfcStep(c), Right(d))
  {
    hide Xor, Right, Low;
    LowOfXor(c, d);
    RightOfXor(c, d);
    XorAssoc(RFC_GEN, Right(c), Right(d));
  }

  // -------------------------------------------------------------------------
  // Cascading

  /** Feeding a CRC back in continues the computation exactly when that CRC is not 0xffffffff. */
  lemma CascadeContinues(a: seq<byte>, b: seq<byte>, cascade: word)
    ensures Crc(b, Crc(a, cascade)) == Crc(a + b, cascade) <==> Crc(a, cascade) != XOR_OUT
  {
    hide Xor, Reverse32, Run;
    var r := Run(Seed(cascade), a);
    RunAppends(Seed(cascade), a, b);
    MirrorTwice(r);
    XorUndone(Reverse32(r), XOR_OUT);
    if Crc(a, cascade) == XOR_OUT {
      MirrorConstants();
      XorConstants();
      RunIsInjective(r, XOR_OUT, b);
      MirrorTwice(Run(r, b));
      MirrorTwice(Run(XOR_OUT, b));
      XorUndone(Reverse32(Run(r, b)), XOR_OUT);
      XorUndone(Reverse32(Run(XOR_OUT, b)), XOR_OUT);
    }
  }

  /** The excluded value occurs: it is the CRC of four octets 0xff. */
  lemma FourOnesHaveCrcOnes()
    ensures Crc([255, 255, 255, 255]) == XOR_OUT
  {
    hide Xor, Reverse32, Steps, Run, Pack, Pack4;
    var s := [255, 255, 255, 255];
    RunPacked(XOR_OUT, s);
    PackBits(s);
    PackOfOnes();
    XorConstants();
    StepsOfZero(32);
    MirrorConstants();
  }

  /** Four octets that give whatever precedes them the CRC 0xffffffff. */
  function Closing(p: seq<byte>): (x: seq<byte>)
    ensures |x| == 4
  {
    Unpacked(Run(XOR_OUT, p))
  }

  function Unpacked(r: word): (x: seq<byte>)
    ensures |x| == 4
  {
    [Unmirrored(r), Unmirrored(r << 8), Unmirrored(r << 16), Unmirrored(r << 24)]
  }

  function Unmirrored(r: word): byte { OctetOf(Reverse8((r >> 24) as bv8)) }

  /** So the excluded value can occur behind any octets at all. */
  lemma ClosingCloses(p: seq<byte>)
    ensures Crc(p + Closing(p)) == XOR_OUT
  {
    hide Xor, Reverse32, Steps, Run, Pack, Unpacked;
    var r := Run(XOR_OUT, p);
    RunAppends(XOR_OUT, p, Closing(p));
    RunPacked(r, Closing(p));
    PackUnpacked(r);
    XorSame(r);
    StepsOfZero(32);
    MirrorConstants();
    XorConstants();
  }

  lemma EmptyCrc()
    ensures Crc([]) == 0
  {
    hide Reverse32, Xor;
    MirrorConstants();
    XorConstants();
  }

  /** Octets in front of others leave no trace in the CRC exactly if their own CRC is 0. */
  lemma PrefixVanishes(a: seq<byte>, b: seq<byte>)
    ensures Crc(a + b) == Crc(b) <==> Crc(a) == 0
  {
    hide Xor, Reverse32, Run;
    var r := Run(XOR_OUT, a);
    RunAppends(XOR_OUT, a, b);
    RunIsInjective(r, XOR_OUT, b);
    MirrorConstants();
    XorConstants();
    MirrorTwice(r);
    MirrorTwice(Run(r, b));
    MirrorTwice(Run(XOR_OUT, b));
    XorUndone(Reverse32(r), XOR_OUT);
    XorUndone(Reverse32(Run(r, b)), XOR_OUT);
    XorUndone(Reverse32(Run(XOR_OUT, b)), XOR_OUT);
  }

  lemma {:induction false} RunAppends(r: word, a: seq<byte>, b: seq<byte>)
    ensures Run(r, a + b) == Run(Run(r, a), b)
  {
    hide Xor, Mirrored, Steps;
    if b == [] {
      assert a + b == a;
    } else {
      var last := |b| - 1;
      assert (a + b)[..|a + b| - 1] == a + b[..last];
      RunAppends(r, a, b[..last]);
    }
  }

  // -------------------------------------------------------------------------
  // Error detection

  /** Two inputs that differ only inside a window of at most four octets have different CRCs. */
  lemma BurstIsDetected(before: seq<byte>, x: seq<byte>, y: seq<byte>, after: seq<byte>, cascade: word)
    requires |x| == |y| <= 4
    ensures x != y ==> Crc(before + x + after, cascade) != Crc(before + y + after, cascade)
  {
    hide Xor, Reverse32, Run;
    var r := Run(Seed(cascade), before);
    var rx, ry := Run(r, x), Run(r, y);
    RunAppends(Seed(cascade), before, x);
    RunAppends(Seed(cascade), before, y);
    RunAppends(Seed(cascade), before + x, after);
    RunAppends(Seed(cascade), before + y, after);
    if x != y {
      WindowIsInjective(r, x, y);
      RunIsInjective(rx, ry, after);
      MirrorTwice(Run(rx, after));
      MirrorTwice(Run(ry, after));
      XorUndone(Reverse32(Run(rx, after)), XOR_OUT);
      XorUndone(Reverse32(Run(ry, after)), XOR_OUT);
    }
  }

  lemma {:induction false} RunIsInjective(r: word, r': word, s: seq<byte>)
    ensures Run(r, s) == Run(r', s) ==> r == r'
  {
    hide Xor, Mirrored, Steps;
    if s != [] && Run(r, s) == Run(r', s) {
      var last := |s| - 1;
      var m := Mirrored(s[last]);
      StepsAreInjective(Xor(Run(r, s[..last]), m), Xor(Run(r', s[..last]), m), 8);
      XorUndone(Run(r, s[..last]), m);
      XorUndone(Run(r', s[..last]), m);
      RunIsInjective(r, r', s[..last]);
    }
  }

  lemma {:induction false} StepsAreInjective(r: word, r': word, n: nat)
    ensures Steps(r, n) == Steps(r', n) ==> r == r'
  {
    hide Step;
    if n > 0 {
      StepIsInjective(Steps(r, n - 1), Steps(r', n - 1));
      StepsAreInjective(r, r', n - 1);
    }
  }

  /** The generator is odd, so the bit that a step shifts out is the low bit of its result. */
  lemma StepIsInjective(r: word, r': word)
    ensures Step(r) == Step(r') ==> r == r'
  {
    hide Xor, Left, Right, Top, Low;
    StepUndone(r);
    StepUndone(r');
  }

  function Unstep(r: word): word {
    if Low(r) then Xor(Right(Xor(r, GEN)), 0x8000_0000) else Right(r)
  }

  lemma StepUndone(r: word)
    ensures Unstep(Step(r)) == r
  {
    hide Xor, Left, Right, Top, Low;
    LeftUndone(r);
    LeftXorUndone(r);
  }

  lemma WindowIsInjective(r: word, x: seq<byte>, y: seq<byte>)
    requires |x| == |y| <= 4
    ensures Run(r, x) == Run(r, y) ==> x == y
  {
    hide Xor, Run, Steps, Pack;
    RunPacked(r, x);
    RunPacked(r, y);
    StepsAreInjective(Xor(r, Pack(x)), Xor(r, Pack(y)), 8 * |x|);
    XorCommutes(r, Pack(x));
    XorCommutes(r, Pack(y));
    XorUndone(Pack(x), r);
    XorUndone(Pack(y), r);
    if Pack(x) == Pack(y) {
      PackIsInjective(x, y);
    }
  }

  /** Up to four octets, side by side in one word, mirrored. */
  function Pack(x: seq<byte>): word
    requires |x| <= 4
  {
    if x == [] then 0 else Xor(Pack(x[..|x| - 1]), Rights(Mirrored(x[|x| - 1]), 8 * (|x| - 1)))
  }

  lemma {:induction false} RunPacked(r: word, x: seq<byte>)
    requires |x| <= 4
    ensures Run(r, x) == Steps(Xor(r, Pack(x)), 8 * |x|)
  {
    hide Xor, Steps, Mirrored, Rights;
    var n := |x|;
    if n == 0 {
      XorZero(r);
      StepsNone(Xor(r, Pack(x)));
    } else {
      var k, m := 8 * (n - 1), Mirrored(x[n - 1]);
      var u := Xor(r, Pack(x[..n - 1]));
      RunPacked(r, x[..n - 1]);
      EnterEarly(u, x[n - 1], k);
      StepsCompose(Xor(u, Rights(m, k)), k, 8);
      XorAssoc(r, Pack(x[..n - 1]), Rights(m, k));
    }
  }

  /** Entering an octet after `k` steps is entering it shifted before them. */
  lemma EnterEarly(u: word, b: byte, k: nat)
    requires k <= 24
    ensures Xor(Steps(u, k), Mirrored(b)) == Steps(Xor(u, Rights(Mirrored(b), k)), k)
  {
    hide Xor, Steps, Rights, Low, Mirrored;
    MirroredIsHigh(b);
    StepsSplit(u, Mirrored(b), k, k);
  }

  lemma {:induction false} StepsSplit(u: word, d: word, n: nat, k: nat)
    requires n <= k
    requires forall j: nat | j < k :: !Low(Rights(d, j))
    ensures Steps(Xor(u, Rights(d, k)), n) == Xor(Steps(u, n), Rights(d, k - n))
  {
    hide Xor, Step, Low, Right;
    if n > 0 {
      StepsSplit(u, d, n - 1, k);
      StepSplits(Steps(u, n - 1), Rights(d, k - n));
      assert Rights(d, k - n + 1) == Right(Rights(d, k - n));
    }
  }

  lemma StepSplits(u: word, d: word)
    requires !Low(d)
    ensures Step(Xor(u, Right(d))) == Xor(Step(u), d)
  {
    hide Xor, Left, Right, Top, Low;
    TopOfXor(u, d);
    LeftOfXor(u, d);
    XorAssoc(Left(u), d, GEN);
    XorAssoc(Left(u), GEN, d);
    XorCommutes(d, GEN);
  }

  lemma {:induction false} StepsCompose(r: word, m: nat, n: nat)
    ensures Steps(Steps(r, m), n) == Steps(r, m + n)
  {
    hide Step;
    if n > 0 {
      StepsCompose(r, m, n - 1);
    }
  }

  lemma StepsNone(r: word)
    ensures Steps(r, 0) == r
  {
  }

  lemma {:induction false} StepsOfZero(n: nat)
    ensures Steps(0, n) == 0
  {
    if n > 0 {
      StepsOfZero(n - 1);
    }
  }

  // -------------------------------------------------------------------------
  // Bit-level facts

  function Rights(a: word, n: nat): word {
    if n == 0 then a else Right(Rights(a, n - 1))
  }

  lemma HighPart(c: word, b: byte)
    ensures Xor(c, Word(b)) == Xor((c ^ Word(b)) & 0xff, c & 0xffff_ff00)
    ensures Right8(c & 0xffff_ff00) == Right8(c) && LowOctetClear(c & 0xffff_ff00)
  {
  }

  lemma ShiftOut(a: word)
    requires LowOctetClear(a)
    ensures Rights(a, 8) == Right8(a)
    ensures forall k: nat | k < 8 :: !Low(Rights(a, k))
  {
    assert Rights(a, 0) == a;
    assert Rights(a, 1) == a >> 1;
    assert Rights(a, 2) == a >> 2;
    assert Rights(a, 3) == a >> 3;
    assert Rights(a, 4) == a >> 4;
    assert Rights(a, 5) == a >> 5;
    assert Rights(a, 6) == a >> 6;
    assert Rights(a, 7) == a >> 7;
    assert Rights(a, 8) == a >> 8;
  }

  lemma MirrorTwice(v: word)
    ensures Reverse32(Reverse32(v)) == v
  {
  }

  lemma MirrorConstants()
    ensures Reverse32(XOR_OUT) == XOR_OUT && Reverse32(0) == 0
    ensures Reverse32(GEN) == RFC_GEN
  {
  }

  lemma MirrorXor(a: word, b: word)
    ensures Reverse32(Xor(a, b)) == Xor(Reverse32(a), Reverse32(b))
  {
  }

  lemma MirrorLeft(a: word)
    ensures Reverse32(Left(a)) == Right(Reverse32(a))
  {
    hide Reverse32;
    MirrorLeftBits(a);
  }

  lemma MirrorLeftBits(a: word)
    ensures Reverse32(a << 1) == Reverse32(a) >> 1
  {
  }

  lemma MirrorTop(r: word)
    ensures Top(r) == Low(Reverse32(r))
  {
  }

  lemma MirrorOctet(b: byte)
    ensures Reverse32(Mirrored(b)) == Word(b)
  {
    MirrorOctetBits(Bits(b));
  }

  lemma MirrorOctetBits(v: bv8)
    ensures Reverse32(Shift24(Reverse8(v))) == v as bv32
  {
  }

  lemma XorConstants()
    ensures Xor(0, XOR_OUT) == XOR_OUT && Xor(XOR_OUT, XOR_OUT) == 0
  {
  }

  lemma XorCommutes(a: word, b: word)
    ensures Xor(a, b) == Xor(b, a)
  {
  }

  lemma XorAssoc(a: word, b: word, c: word)
    ensures Xor(a, Xor(b, c)) == Xor(Xor(a, b), c)
  {
  }

  lemma LowOfXor(a: word, b: word)
    requires !Low(b)
    ensures Low(Xor(a, b)) == Low(a)
  {
  }

  lemma RightOfXor(a: word, b: word)
    ensures Right(Xor(a, b)) == Xor(Right(a), Right(b))
  {
  }

  lemma XorUndone(a: word, m: word)
    ensures Xor(Xor(a, m), m) == a
  {
  }

  lemma XorZeros()
    ensures forall a :: Xor(a, 0) == a && Xor(0, a) == a
    ensures Right8(0) == 0
  {
  }

  lemma XorZero(a: word)
    ensures Xor(a, 0) == a
  {
  }

  lemma TopOfXor(u: word, d: word)
    requires !Low(d)
    ensures Top(Xor(u, Right(d))) == Top(u)
  {
  }

  lemma LeftOfXor(u: word, d: word)
    requires !Low(d)
    ensures Left(Xor(u, Right(d))) == Xor(Left(u), d)
  {
  }

  lemma LeftUndone(r: word)
    ensures !Top(r) ==> !Low(Left(r)) && Right(Left(r)) == r
  {
  }

  lemma LeftXorUndone(r: word)
    ensures Top(r) ==> Low(Xor(Left(r), GEN))
    ensures Top(r) ==> Xor(Right(Xor(Xor(Left(r), GEN), GEN)), 0x8000_0000) == r
  {
  }

  lemma {:induction false} RightsCompose(a: word, m: nat, n: nat)
    ensures Rights(Rights(a, m), n) == Rights(a, m + n)
  {
    hide Right;
    if n > 0 {
      RightsCompose(a, m, n - 1);
    }
  }

  lemma MirroredIsHigh(b: byte)
    ensures forall k: nat | k < 24 :: !Low(Rights(Mirrored(b), k))
    ensures Rights(Mirrored(b), 0) == Mirrored(b)
    ensures Rights(Mirrored(b), 8) == Right8(Mirrored(b))
    ensures Rights(Mirrored(b), 16) == Right8(Right8(Mirrored(b)))
    ensures Rights(Mirrored(b), 24) == Right8(Right8(Right8(Mirrored(b))))
  {
    hide Low, Right, Right8, LowOctetClear, Mirrored, Rights;
    var m := Mirrored(b);
    MirroredBits(b);
    ShiftOut(m);
    ShiftOut(Right8(m));
    ShiftOut(Right8(Right8(m)));
    RightsNone(m);
    RightsCompose(m, 8, 8);
    RightsCompose(m, 16, 8);
    forall k: nat | k < 24
      ensures !Low(Rights(m, k))
    {
      if k >= 16 {
        RightsCompose(m, 16, k - 16);
      } else if k >= 8 {
        RightsCompose(m, 8, k - 8);
      }
    }
  }

  lemma RightsNone(a: word)
    ensures Rights(a, 0) == a
  {
  }

  lemma MirroredBits(b: byte)
    ensures var m := Mirrored(b);
            LowOctetClear(m) && LowOctetClear(Right8(m)) && LowOctetClear(Right8(Right8(m)))
  {
  }

  lemma XorSame(a: word)
    ensures Xor(a, a) == 0
  {
  }

  lemma PackUnpacked(r: word)
    ensures Pack(Unpacked(r)) == r
  {
    hide Pack, Pack4, Mirrored, Unmirrored;
    var x := Unpacked(r);
    PackBits(x);
    MirroredBack(r);
    MirroredBack(r << 8);
    MirroredBack(r << 16);
    MirroredBack(r << 24);
    PackOctets(r, x[0], x[1], x[2], x[3]);
  }

  lemma MirroredBack(r: word)
    ensures Mirrored(Unmirrored(r)) == r & 0xff00_0000
  {
    hide Reverse8;
    var v := (r >> 24) as bv8;
    BitsOfOctet(Reverse8(v));
    Reverse8Twice(v);
    TopOctet(r);
  }

  lemma TopOctet(r: word)
    ensures Shift24((r >> 24) as bv8) == r & 0xff00_0000
  {
  }

  lemma PackOctets(r: word, a: byte, b: byte, c: byte, d: byte)
    requires Mirrored(a) == r & 0xff00_0000 && Mirrored(b) == (r << 8) & 0xff00_0000
    requires Mirrored(c) == (r << 16) & 0xff00_0000 && Mirrored(d) == (r << 24) & 0xff00_0000
    ensures Pack4(a, b, c, d) == r
  {
    hide Mirrored;
  }

  lemma PackIsInjective(x: seq<byte>, y: seq<byte>)
    requires |x| == |y| <= 4 && Pack(x) == Pack(y)
    ensures x == y
  {
    hide Pack;
    PackBits(x);
    PackBits(y);
    Pack4IsInjective(Nth(x, 0), Nth(x, 1), Nth(x, 2), Nth(x, 3), Nth(y, 0), Nth(y, 1), Nth(y, 2), Nth(y, 3));
  }

  function Nth(x: seq<byte>, i: nat): byte {
    if i < |x| then x[i] else 0
  }

  function Pack4(a: byte, b: byte, c: byte, d: byte): word {
    Xor(Xor(Xor(Mirrored(a), Right8(Mirrored(b))), Right8(Right8(Mirrored(c)))), Right8(Right8(Right8(Mirrored(d)))))
  }

  lemma MirroredZero()
    ensures Mirrored(0) == 0
  {
  }

  lemma PackOfOnes()
    ensures Pack4(255, 255, 255, 255) == XOR_OUT
  {
  }

  lemma Pack4IsInjective(a: byte, b: byte, c: byte, d: byte, a': byte, b': byte, c': byte, d': byte)
    requires Pack4(a, b, c, d) == Pack4(a', b', c', d')
    ensures a == a' && b == b' && c == c' && d == d'
  {
    hide Pack4, Mirrored;
    Unpack(a, b, c, d);
    Unpack(a', b', c', d');
    MirroredIsInjective(a, a');
    MirroredIsInjective(b, b');
    MirroredIsInjective(c, c');
    MirroredIsInjective(d, d');
  }

  lemma Unpack(a: byte, b: byte, c: byte, d: byte)
    ensures var p := Pack4(a, b, c, d);
            && p & 0xff00_0000 == Mirrored(a)
            && (p << 8) & 0xff00_0000 == Mirrored(b)
            && (p << 16) & 0xff00_0000 == Mirrored(c)
            && p << 24 == Mirrored(d)
  {
    hide Mirrored;
    MirroredIsTop(a);
    MirroredIsTop(b);
    MirroredIsTop(c);
    MirroredIsTop(d);
  }

  lemma MirroredIsTop(b: byte)
    ensures Mirrored(b) & 0x00ff_ffff == 0
  {
  }

  lemma MirroredIsInjective(a: byte, b: byte)
    ensures Mirrored(a) == Mirrored(b) ==> a == b
  {
    hide Reverse8;
    HighOctet(Reverse8(Bits(a)), Reverse8(Bits(b)));
    Reverse8Twice(Bits(a));
    Reverse8Twice(Bits(b));
    OctetBits(a);
    OctetBits(b);
  }

  lemma OctetBits(b: byte)
    ensures OctetOf(Bits(b)) == b
  {
    OctetOfBits(b);
  }

  lemma HighOctet(a: bv8, b: bv8)
    ensures Shift24(a) == Shift24(b) ==> a == b
  {
  }

  lemma Reverse8Twice(v: bv8)
    ensures Reverse8(Reverse8(v)) == v
  {
  }

  lemma PackBits(x: seq<byte>)
    requires |x| <= 4
    ensures Pack(x) == Pack4(Nth(x, 0), Nth(x, 1), Nth(x, 2), Nth(x, 3))
  {
    hide Mirrored, Rights, Xor, Right8;
    MirroredZero();
    XorZeros();
    var n := |x|;
    forall k | 1 <= k <= n
      ensures Pack(x[..k]) == Xor(Pack(x[..k - 1]), Rights(Mirrored(x[k - 1]), 8 * (k - 1)))
    {
      assert x[..k][..k - 1] == x[..k - 1];
    }
    assert x[..n] == x;
    assert Pack(x[..0]) == 0;
    if n >= 1 { MirroredIsHigh(x[0]); }
    if n >= 2 { MirroredIsHigh(x[1]); }
    if n >= 3 { MirroredIsHigh(x[2]); }
    if n >= 4 { MirroredIsHigh(x[3]); }
  }
}

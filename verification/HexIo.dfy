/** The hex printer and parser of cpHexIo.cpp. */
module HexIo {
  import opened Bytes

  const CHARS_PER_OCTET := 2

  /** What a caller chooses. */
  datatype Format = Format(groupLenMax: nat, lineLenMax: nat, preLine: bool, postLine: bool,
                           prefix: string, suffix: string, separator: string)

  /** What one call leaves to the next. */
  datatype Counters = Counters(groupLen: nat, lineLen: nat)

  class HexIoCfg {
    var groupLenMax: nat
    var groupLen: nat
    var lineLenMax: nat
    var lineLen: nat
    var preLine: bool
    var postLine: bool
    var preserve: bool
    var finalPass: bool
    var prefix: string
    var suffix: string
    var separator: string

    ghost function Chosen(): Format
      reads this
    {
      Format(groupLenMax, lineLenMax, preLine, postLine, prefix, suffix, separator)
    }

    ghost function Count(): Counters
      reads this
    {
      Counters(groupLen, lineLen)
    }

    constructor ()
      ensures Chosen() == Format(1, 0, false, false, "", "", " ") && Count() == Counters(0, 0) && !preserve && finalPass
    {
      groupLenMax, groupLen, lineLenMax, lineLen := 1, 0, 0, 0;
      preLine, postLine, preserve, finalPass := false, false, false, true;
      prefix, suffix, separator := "", "", " ";
    }
  }

  // -------------------------------------------------------------------------
  // The printer as functions

  /** The end of a group: its suffix */
  function GroupEnd(f: Format, c: Counters, final: bool): (string, Counters) {
    if final || c.groupLen >= f.groupLenMax then (f.suffix, Counters(0, c.lineLen + |f.suffix|)) else ("", c)
  }

  predicate LineFull(f: Format, c: Counters) {
    var tokenLen := |f.prefix| + CHARS_PER_OCTET * f.groupLenMax + |f.suffix|;
    f.lineLenMax > 0 && c.lineLen + tokenLen + (if f.postLine then |f.separator| else 0) > f.lineLenMax
  }

  /** What stands between two groups */
  function GroupGap(f: Format, c: Counters, final: bool): (string, Counters) {
    if final || LineFull(f, c) then ((if f.postLine then f.separator else "") + "\n", c.(lineLen := 0))
    else if c.lineLen > 0 then (f.separator, c.(lineLen := c.lineLen + |f.separator|))
    else ("", c)
  }

  /** The start of a group */
  function GroupStart(f: Format, c: Counters): (string, Counters) {
    var pre := if f.preLine && c.lineLen == 0 then f.separator else "";
    (pre + f.prefix, c.(lineLen := c.lineLen + |pre| + |f.prefix|))
  }

  function Formatted(f: Format, c: Counters, final: bool): (string, Counters) {
    var (a, c1) := GroupEnd(f, c, final);
    if final || c1.groupLen == 0 then
      var (b, c2) := GroupGap(f, c1, final);
      if final then (a + b, c2)
      else
        var (d, c3) := GroupStart(f, c2);
        (a + b + d, c3)
    else (a, c1)
  }

  function Digit(n: nat): char
    requires n < 16
  {
    "0123456789abcdef"[n]
  }

  /** `%2.2x` */
  function Hex(b: byte): string { [Digit(b / 16), Digit(b % 16)] }

  function Printed(f: Format, c: Counters, b: byte): (string, Counters) {
    var (a, c1) := Formatted(f, c, false);
    (a + Hex(b), Counters(c1.groupLen + 1, c1.lineLen + CHARS_PER_OCTET))
  }

  /** The loop of `HexEncode` */
  function PrintedAll(f: Format, c: Counters, input: seq<byte>): (string, Counters) {
    if input == [] then ("", c)
    else
      var last := |input| - 1;
      var (out, c1) := PrintedAll(f, c, input[..last]);
      var (a, c2) := Printed(f, c1, input[last]);
      (out + a, c2)
  }

  function Encoded(f: Format, c: Counters, input: seq<byte>, final: bool): (string, Counters) {
    var (out, c1) := PrintedAll(f, c, input);
    if final then
      var (a, c2) := Formatted(f, c1, true);
      (out + a, c2)
    else (out, c1)
  }

  // -------------------------------------------------------------------------
  // The printer

  lemma Joined(a: string, b: string, c: string)
    ensures a + b + c == a + (b + c) && a + "" == a
  {
  }

  /** Actions when ending a group or on the final pass */
  method EndGroup(output: string, form: HexIoCfg, final: bool) returns (out: string)
    modifies form`groupLen, form`lineLen
    ensures var (a, c) := GroupEnd(form.Chosen(), old(form.Count()), final); out == output + a && form.Count() == c
  {
    Joined(output, "", "");
    out := output;
    if final || form.groupLen >= form.groupLenMax {
      form.groupLen := 0;
      if |form.suffix| > 0 {
        out := out + form.suffix;
        form.lineLen := form.lineLen + |form.suffix|;
      }
    }
  }

  /** A new line if there is no room for another group or on the final pass, or a separator */
  method Gap(output: string, form: HexIoCfg, final: bool) returns (out: string)
    modifies form`lineLen
    ensures var (a, c) := GroupGap(form.Chosen(), old(form.Count()), final); out == output + a && form.Count() == c
  {
    Joined(output, form.separator, "\n");
    Joined(output, "", "\n");
    out := output;
    var tokenLen := |form.prefix| + CHARS_PER_OCTET * form.groupLenMax + |form.suffix|;
    var sepLen := |form.separator|;
    if final || (form.lineLenMax > 0 && form.lineLen + tokenLen + (if form.postLine then sepLen else 0) > form.lineLenMax) {
      if form.postLine {
        out := out + form.separator;
      }
      out := out + "\n";
      form.lineLen := 0;
    } else {
      if form.lineLen > 0 {
        out := out + form.separator;
        form.lineLen := form.lineLen + sepLen;
      }
    }
  }

  /** Actions at a group start when not on the final pass */
  method StartGroup(output: string, form: HexIoCfg) returns (out: string)
    modifies form`lineLen
    ensures var (a, c) := GroupStart(form.Chosen(), old(form.Count())); out == output + a && form.Count() == c
  {
    Joined(output, form.separator, form.prefix);
    Joined(output, "", form.prefix);
    out := output;
    if form.preLine && form.lineLen == 0 {
      out := out + form.separator;
      form.lineLen := form.lineLen + |form.separator|;
    }
    if |form.prefix| > 0 {
      out := out + form.prefix;
      form.lineLen := form.lineLen + |form.prefix|;
    }
  }

  /** Insert formatting into the output. */
  method FormatOutput(output: string, form: HexIoCfg, final: bool) returns (out: string)
    modifies form`groupLen, form`lineLen
    ensures var (a, c) := Formatted(form.Chosen(), old(form.Count()), final); out == output + a && form.Count() == c
  {
    hide GroupEnd, GroupGap, GroupStart;
    ghost var f := form.Chosen();
    ghost var e := GroupEnd(f, form.Count(), final);
    out := EndGroup(output, form, final);
    if final || form.groupLen == 0 {
      ghost var g := GroupGap(f, e.1, final);
      Joined(output, e.0, g.0);
      out := Gap(out, form, final);
      if !final {
        Joined(output, e.0 + g.0, GroupStart(f, g.1).0);
        out := StartGroup(out, form);
      }
    }
  }

  lemma PrintedNone(f: Format, c: Counters)
    ensures PrintedAll(f, c, []) == ("", c)
  {
  }

  lemma PrintedStep(f: Format, c: Counters, input: seq<byte>, i: nat)
    requires i < |input|
    ensures var (out, c1) := PrintedAll(f, c, input[..i]);
      var (a, c2) := Formatted(f, c1, false);
      PrintedAll(f, c, input[..i + 1]) == (out + a + Hex(input[i]), Counters(c2.groupLen + 1, c2.lineLen + CHARS_PER_OCTET))
  {
    hide Formatted, Hex;
    assert input[..i + 1][..i] == input[..i];
    var (out, c1) := PrintedAll(f, c, input[..i]);
    Joined(out, Formatted(f, c1, false).0, Hex(input[i]));
  }

  method HexEncode(input: seq<byte>, form: HexIoCfg) returns (size: nat, output: string)
    modifies form`groupLenMax, form`groupLen, form`lineLen
    ensures form.groupLenMax == if old(form.groupLenMax) == 0 then 1 else old(form.groupLenMax)
    ensures (output, form.Count()) ==
      Encoded(form.Chosen(), if form.preserve then old(form.Count()) else Counters(0, 0), input, form.finalPass)
    ensures size == |output|
  {
    hide Formatted, Hex, PrintedAll;
    output := "";
    if form.groupLenMax == 0 {
      form.groupLenMax := form.groupLenMax + 1;
    }
    if !form.preserve {
      form.groupLen := 0;
      form.lineLen := 0;
    }
    ghost var f, c := form.Chosen(), form.Count();
    PrintedNone(f, c);
    var i := 0;
    while i < |input|
      invariant i <= |input| && form.Chosen() == f && (output, form.Count()) == PrintedAll(f, c, input[..i])
    {
      PrintedStep(f, c, input, i);
      output := FormatOutput(output, form, false);
      output := output + Hex(input[i]);
      form.lineLen := form.lineLen + CHARS_PER_OCTET;
      form.groupLen := form.groupLen + 1;
      i := i + 1;
    }
    assert input[..i] == input;
    if form.finalPass {
      output := FormatOutput(output, form, true);
    }
    size := |output|;
  }

  // -------------------------------------------------------------------------
  // Encoding in chunks

  lemma {:induction false} PrintedAppends(f: Format, c: Counters, a: seq<byte>, b: seq<byte>)
    ensures var (x, c1) := PrintedAll(f, c, a);
      var (y, c2) := PrintedAll(f, c1, b);
      PrintedAll(f, c, a + b) == (x + y, c2)
  {
    hide Printed;
    var (x, c1) := PrintedAll(f, c, a);
    if b == [] {
      assert a + b == a && x + "" == x;
    } else {
      var last := |b| - 1;
      PrintedAppends(f, c, a, b[..last]);
      assert (a + b)[..|a| + last] == a + b[..last];
      var (y, c2) := PrintedAll(f, c1, b[..last]);
      Joined(x, y, Printed(f, c2, b[last]).0);
    }
  }

  /** The output of encoding chunk after chunk, only the last with the final pass */
  function EncodedChunks(f: Format, c: Counters, chunks: seq<seq<byte>>): string
    requires chunks != []
    decreases |chunks|
  {
    if |chunks| == 1 then Encoded(f, c, chunks[0], true).0
    else
      var (x, c1) := Encoded(f, c, chunks[0], false);
      x + EncodedChunks(f, c1, chunks[1..])
  }

  function Concat(chunks: seq<seq<byte>>): seq<byte> {
    if chunks == [] then [] else chunks[0] + Concat(chunks[1..])
  }

  /** Encoding in chunks, with the counters preserved and the final pass only on the last one, is
      encoding all at once. */
  lemma {:induction false} ChunksAreOne(f: Format, c: Counters, chunks: seq<seq<byte>>)
    requires chunks != []
    ensures EncodedChunks(f, c, chunks) == Encoded(f, c, Concat(chunks), true).0
    decreases |chunks|
  {
    hide PrintedAll, Formatted;
    if |chunks| == 1 {
      assert Concat(chunks[1..]) == [] && chunks[0] + [] == chunks[0];
    } else {
      var (x, c1) := PrintedAll(f, c, chunks[0]);
      ChunksAreOne(f, c1, chunks[1..]);
      var rest := Concat(chunks[1..]);
      PrintedAppends(f, c, chunks[0], rest);
      var (y, c2) := PrintedAll(f, c1, rest);
      Joined(x, y, Formatted(f, c2, true).0);
    }
  }

  // -------------------------------------------------------------------------
  // The parser

  predicate HexDigit(ch: char) { '0' <= ch <= '9' || 'A' <= ch <= 'F' || 'a' <= ch <= 'f' }

  function Value(ch: char): nat
    requires HexDigit(ch)
    ensures Value(ch) < 16
  {
    if ch <= '9' then (ch - '0') as nat else if ch <= 'F' then (ch - 'A') as nat + 10 else (ch - 'a') as nat + 10
  }

  /** The digits read of an octet that is not complete */
  type Element = e: string | |e| < 2 && forall k :: 0 <= k < |e| ==> HexDigit(e[k])

  /** One character: the digits that are left, and the octet that became complete, if any */
  function Read(e: Element, ch: char): (Element, seq<byte>) {
    var e1: Element := if (ch == 'x' || ch == 'X') && e == "0" then "" else e;
    if !HexDigit(ch) then (e1, [])
    else if |e1| == 0 then ([ch], [])
    else ("", [Value(e1[0]) * 16 + Value(ch)])
  }

  /** The octets that a text yields, and the digits left over */
  function Scan(e: Element, s: string): (Element, seq<byte>) {
    if s == "" then (e, [])
    else
      var (e1, x) := Scan(e, s[..|s| - 1]);
      var (e2, y) := Read(e1, s[|s| - 1]);
      (e2, x + y)
  }

  function Decoded(s: string): seq<byte> { Scan("", s).1 }

  lemma {:induction false} ScanSize(s: string)
    ensures 2 * |Scan("", s).1| + |Scan("", s).0| <= |s|
  {
    if s != "" {
      ScanSize(s[..|s| - 1]);
    }
  }

  method HexDecode(input: string) returns (index: nat, output: seq<byte>)
    ensures output == Decoded(input) && index == |output|
  {
    hide Read, Scan;
    var size := |input| / 2;
    var element: Element := "";
    output, index := [], 0;
    ScanNone("");
    for i := 0 to |input|
      invariant element == Scan("", input[..i]).0 && output == Scan("", input[..i]).1 && index == |output|
    {
      ScanStep("", input, i);
      ScanSize(input[..i + 1]);
      var octet;
      element, octet := ReadChar(element, input[i]);
      // the buffer is large enough: two characters make at most one octet
      if octet != [] && size > index {
        output := output + octet;
        index := index + 1;
      }
    }
    assert input[..|input|] == input;
  }

  /** One pass of the loop */
  method ReadChar(e: Element, ch: char) returns (element: Element, octet: seq<byte>)
    ensures element == Read(e, ch).0 && octet == Read(e, ch).1 && |octet| <= 1
  {
    var digits: string := e;
    octet := [];
    if (ch == 'x' || ch == 'X') && digits == "0" {
      digits := "";
    }
    if HexDigit(ch) {
      digits := digits + [ch];
    }
    if |digits| == CHARS_PER_OCTET {
      octet := [Value(digits[0]) * 16 + Value(digits[1])];
      digits := "";
    }
    element := digits;
  }

  lemma ScanNone(e: Element)
    ensures Scan(e, "") == (e, [])
  {
  }

  lemma ScanStep(e: Element, s: string, i: nat)
    requires i < |s|
    ensures var (e1, x) := Scan(e, s[..i]);
      var (e2, y) := Read(e1, s[i]);
      Scan(e, s[..i + 1]).0 == e2 && Scan(e, s[..i + 1]).1 == x + y
  {
    hide Read;
    assert s[..i + 1][..i] == s[..i];
  }

  lemma {:induction false} ScanAppends(e: Element, s: string, t: string)
    ensures var (e1, x) := Scan(e, s);
      var (e2, y) := Scan(e1, t);
      Scan(e, s + t).0 == e2 && Scan(e, s + t).1 == x + y
  {
    hide Read;
    if t == "" {
      assert s + t == s;
    } else {
      var last := |t| - 1;
      ScanAppends(e, s, t[..last]);
      assert (s + t)[..|s| + last] == s + t[..last];
    }
  }

  /** A text that a parser between two octets does not notice */
  predicate Neutral(s: string) { Scan("", s).0 == "" && Scan("", s).1 == [] }

  lemma NeutralJoin(s: string, t: string)
    requires Neutral(s) && Neutral(t)
    ensures Neutral(s + t)
  {
    hide Scan;
    ScanAppends("", s, t);
  }

  /** No hex digit in it, or the C prefix */
  lemma {:induction false} NoDigitsNeutral(s: string)
    requires forall k :: 0 <= k < |s| ==> !HexDigit(s[k])
    ensures Neutral(s)
  {
    if s != "" {
      NoDigitsNeutral(s[..|s| - 1]);
    }
  }

  lemma CPrefixNeutral()
    ensures Neutral("0x") && Neutral("0X")
  {
    ScanStep("", "0x", 0);
    ScanStep("", "0x", 1);
    ScanStep("", "0X", 0);
    ScanStep("", "0X", 1);
    assert "0x"[..2] == "0x" && "0X"[..2] == "0X";
    ScanNone("");
    assert "0x"[..0] == "" && "0X"[..0] == "";
  }

  lemma HexScans(b: byte)
    ensures Scan("", Hex(b)).0 == "" && Scan("", Hex(b)).1 == [b]
  {
    hide Digit, Value, HexDigit, Read;
    var h := Hex(b);
    DigitValue(b / 16);
    DigitValue(b % 16);
    ReadPair(h[0], h[1]);
    ScanNone("");
    ScanStep("", h, 0);
    ScanStep("", h, 1);
    assert h[..0] == "" && h[..2] == h;
  }

  lemma ReadPair(high: char, low: char)
    requires HexDigit(high) && HexDigit(low) && low != 'x' && low != 'X'
    ensures Read("", high) == ([high], []) && Read([high], low) == ("", [Value(high) * 16 + Value(low)])
  {
  }

  lemma DigitValue(n: nat)
    requires n < 16
    ensures HexDigit(Digit(n)) && Value(Digit(n)) == n && Digit(n) != 'x' && Digit(n) != 'X'
  {
  }

  ghost predicate NeutralFormat(f: Format) { Neutral(f.prefix) && Neutral(f.suffix) && Neutral(f.separator) }

  lemma FormattedNeutral(f: Format, c: Counters, final: bool)
    requires NeutralFormat(f)
    ensures Neutral(Formatted(f, c, final).0)
  {
    hide Neutral, LineFull;
    NoDigitsNeutral("");
    NoDigitsNeutral("\n");
    var (a, c1) := GroupEnd(f, c, final);
    NeutralJoin(f.separator, "\n");
    NeutralJoin("", "\n");
    var (b, c2) := GroupGap(f, c1, final);
    NeutralJoin(a, b);
    NeutralJoin(f.separator, f.prefix);
    NeutralJoin("", f.prefix);
    NeutralJoin(a + b, GroupStart(f, c2).0);
  }

  lemma {:induction false} PrintedScans(f: Format, c: Counters, input: seq<byte>)
    requires NeutralFormat(f)
    ensures Scan("", PrintedAll(f, c, input).0).0 == "" && Scan("", PrintedAll(f, c, input).0).1 == input
  {
    hide Scan, Formatted, Hex;
    if input == [] {
      ScanNone("");
    } else {
      var last := |input| - 1;
      PrintedScans(f, c, input[..last]);
      var (out, c1) := PrintedAll(f, c, input[..last]);
      var a := Formatted(f, c1, false).0;
      FormattedNeutral(f, c1, false);
      HexScans(input[last]);
      ScanAppends("", a, Hex(input[last]));
      ScanAppends("", out, a + Hex(input[last]));
      assert input[..last] + [input[last]] == input;
    }
  }

  /** For every format whose separator and suffix have no hex digit and whose prefix has none or is
      the C prefix, parsing what was printed gives back the octets, however they are grouped into
      lines. */
  lemma HexRoundTrip(f: Format, c: Counters, input: seq<byte>, final: bool)
    requires forall k :: 0 <= k < |f.separator| ==> !HexDigit(f.separator[k])
    requires forall k :: 0 <= k < |f.suffix| ==> !HexDigit(f.suffix[k])
    requires (forall k :: 0 <= k < |f.prefix| ==> !HexDigit(f.prefix[k])) || f.prefix == "0x" || f.prefix == "0X"
    ensures Decoded(Encoded(f, c, input, final).0) == input
  {
    hide Scan, Formatted, PrintedAll, HexDigit;
    NoDigitsNeutral(f.separator);
    NoDigitsNeutral(f.suffix);
    CPrefixNeutral();
    if forall k :: 0 <= k < |f.prefix| ==> !HexDigit(f.prefix[k]) {
      NoDigitsNeutral(f.prefix);
    }
    PrintedScans(f, c, input);
    var (out, c1) := PrintedAll(f, c, input);
    FormattedNeutral(f, c1, true);
    ScanAppends("", out, Formatted(f, c1, true).0);
  }
}

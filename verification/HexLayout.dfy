/** What the hex printer writes, character by character, and what the hex parser reads. */
module HexLayout {
  import opened Bytes
  import opened HexIo
  import opened HexLines

  // -------------------------------------------------------------------------
  // The text of any input

  /** What stands between octet i - 1 and octet i: nothing inside a group, else the end of the group,
      then either a separator or a line break with the separators that belong to it, then the start
      of the next group.  A line is broken behind every `PerLine` groups, if lines have a maximum. */
  function Between(f: Format, i: nat): string
    requires f.groupLenMax > 0
  {
    if i % f.groupLenMax != 0 then ""
    else
      f.suffix +
      (if f.lineLenMax > 0 && i / f.groupLenMax % PerLine(f) == 0 then PostText(f) + "\n" + PreText(f) else f.separator) +
      f.prefix
  }

  /** What stands before the first octet: a line break of its own when not even one group fits, and
      then the start of a line. */
  function Opening(f: Format): string {
    (if 0 < f.lineLenMax < GroupWidth(f) + Post(f) then PostText(f) + "\n" else "") + PreText(f) + f.prefix
  }

  /** The octets with what stands before each */
  function Body(f: Format, input: seq<byte>): string
    requires f.groupLenMax > 0
  {
    if input == [] then ""
    else
      var i := |input| - 1;
      Body(f, input[..i]) + (if i == 0 then Opening(f) else Between(f, i)) +
      ["0123456789abcdef"[input[i] / 16], "0123456789abcdef"[input[i] % 16]]
  }

  /** Where the printer is behind i octets: in group q of a line, n groups being complete */
  ghost predicate Placed(f: Format, c: Counters, i: nat, n: nat, q: nat, lines: nat)
    requires f.groupLenMax > 0
  {
    && q > 0 && c.lineLen > 0 && 0 < c.groupLen <= f.groupLenMax && i == n * f.groupLenMax + c.groupLen
    && (f.lineLenMax > 0 ==> OnLine(f, c, q) && n == lines * PerLine(f) + (q - 1) && q <= PerLine(f))
  }

  /** Another group fits exactly if the line has not yet its number of groups. */
  lemma FitsBelow(f: Format, q: nat)
    requires f.groupLenMax > 0 && 0 < q <= PerLine(f)
    ensures MoreFits(f, q) <==> q < PerLine(f)
  {
    if Width(f, 1) <= f.lineLenMax {
      PerLineIs(f, q);
    }
  }

  lemma Multiple(i: nat, n: nat, g: nat, p: nat)
    requires 0 < p <= g && i == n * g + p
    ensures i % g == 0 <==> p == g
    ensures p == g ==> i / g == n + 1
  {
    if p == g {
      assert i == (n + 1) * g;
      Quotient(i, g, n + 1, 0);
    } else {
      Quotient(i, g, n, p);
    }
  }

  lemma Quotient(v: nat, d: nat, q: nat, r: nat)
    requires d > 0 && v == q * d + r && r < d
    ensures v / d == q && v % d == r
  {
    var x := v / d;
    assert v == x * d + v % d;
    if x > q {
      assert x * d >= (q + 1) * d by { Monotone(q + 1, x, d); }
      Distribute(q + 1, d);
    } else if x < q {
      assert q * d >= (x + 1) * d by { Monotone(x + 1, q, d); }
      Distribute(x + 1, d);
    }
  }

  /** One octet more: what is printed for it, and where the printer is then. */
  lemma NextOctet(f: Format, c: Counters, i: nat, n: nat, q: nat, lines: nat, b: byte) returns (n': nat, q': nat, lines': nat)
    requires f.groupLenMax > 0 && Placed(f, c, i, n, q, lines)
    ensures Printed(f, c, b).0 == Between(f, i) + Hex(b)
    ensures Placed(f, Printed(f, c, b).1, i + 1, n', q', lines')
  {
    hide Width, PerLine, MoreFits, Hex, OnLine, LineFull, Printed;
    if c.groupLen == f.groupLenMax {
      n' := n + 1;
      q', lines' := NextGroupAt(f, c, i, n, q, lines, b);
    } else {
      n', q', lines' := n, q, lines;
      Multiple(i, n, f.groupLenMax, c.groupLen);
      Inside(f, c, q, b);
      assert "" + Hex(b) == Hex(b);
    }
  }

  lemma Inside(f: Format, c: Counters, q: nat, b: byte)
    requires 0 < c.groupLen < f.groupLenMax
    ensures Printed(f, c, b) == (Hex(b), Counters(c.groupLen + 1, c.lineLen + CHARS_PER_OCTET))
    ensures OnLine(f, c, q) ==> OnLine(f, Counters(c.groupLen + 1, c.lineLen + CHARS_PER_OCTET), q)
  {
    hide Width, MoreFits, Hex;
    assert "" + Hex(b) == Hex(b);
  }

  /** The step over the end of a group */
  lemma NextGroupAt(f: Format, c: Counters, i: nat, n: nat, q: nat, lines: nat, b: byte) returns (q': nat, lines': nat)
    requires c.groupLen == f.groupLenMax > 0 && Placed(f, c, i, n, q, lines)
    ensures Printed(f, c, b).0 == Between(f, i) + Hex(b)
    ensures Placed(f, Printed(f, c, b).1, i + 1, n + 1, q', lines')
  {
    hide Width, PerLine, MoreFits, Hex, LineFull, Printed;
    var g := f.groupLenMax;
    Multiple(i, n, g, g);
    assert (n + 1) * g == n * g + g;
    q', lines' := q, lines;
    if f.lineLenMax > 0 {
      RoomAfter(f, Counters(0, c.lineLen + |f.suffix|), q);
      FitsBelow(f, q);
      Multiple(n + 1, lines, PerLine(f), q);
      if q < PerLine(f) {
        q' := q + 1;
      } else {
        q', lines' := 1, lines + 1;
        assert lines' * PerLine(f) == lines * PerLine(f) + PerLine(f);
      }
      StaysOnLine(f, c, q);
    }
    AtBoundary(f, c, q, b);
  }

  lemma StaysOnLine(f: Format, c: Counters, q: nat)
    requires c.groupLen == f.groupLenMax > 0 && OnLine(f, c, q)
    ensures MoreFits(f, q) ==> OnLine(f, Counters(1, c.lineLen + |f.suffix| + |f.separator| + |f.prefix| + CHARS_PER_OCTET), q + 1)
    ensures OnLine(f, Counters(1, Pre(f) + |f.prefix| + CHARS_PER_OCTET), 1)
  {
    hide Width, MoreFits;
    WidthNext(f, q);
  }

  /** The text between two groups */
  lemma AtBoundary(f: Format, c: Counters, q: nat, b: byte)
    requires f.groupLenMax > 0 && c.groupLen == f.groupLenMax && c.lineLen > 0 && q > 0
    requires f.lineLenMax > 0 ==> (LineFull(f, Counters(0, c.lineLen + |f.suffix|)) <==> !MoreFits(f, q))
    ensures var full := f.lineLenMax > 0 && !MoreFits(f, q);
      && Printed(f, c, b).0 == f.suffix + (if full then PostText(f) + "\n" + PreText(f) else f.separator) + f.prefix + Hex(b)
      && Printed(f, c, b).1 == Counters(1, (if full then Pre(f) else c.lineLen + |f.suffix| + |f.separator|) + |f.prefix| + CHARS_PER_OCTET)
  {
    hide MoreFits, Hex;
    var c1 := Counters(0, c.lineLen + |f.suffix|);
    if LineFull(f, c1) {
      assert f.suffix + (PostText(f) + "\n") + (PreText(f) + f.prefix) == f.suffix + (PostText(f) + "\n" + PreText(f)) + f.prefix;
    } else {
      assert f.suffix + f.separator + ("" + f.prefix) == f.suffix + f.separator + f.prefix;
    }
  }

  lemma {:induction false} PrintedIs(f: Format, input: seq<byte>) returns (n: nat, q: nat, lines: nat)
    requires f.groupLenMax > 0
    ensures PrintedAll(f, Counters(0, 0), input).0 == Body(f, input)
    ensures input != [] ==> Placed(f, PrintedAll(f, Counters(0, 0), input).1, |input|, n, q, lines)
  {
    hide Between, Printed, Placed;
    n, q, lines := 0, 1, 0;
    if input != [] {
      var i := |input| - 1;
      var (out, c) := PrintedAll(f, Counters(0, 0), input[..i]);
      var digits := Hex(input[i]);
      if i == 0 {
        FirstOctet(f, input[0]);
        Joined(out, Opening(f), digits);
      } else {
        n, q, lines := PrintedIs(f, input[..i]);
        n, q, lines := NextOctet(f, c, i, n, q, lines, input[i]);
        Joined(out, Between(f, i), digits);
      }
    }
  }

  lemma FirstOctet(f: Format, b: byte)
    requires f.groupLenMax > 0
    ensures Printed(f, Counters(0, 0), b).0 == Opening(f) + Hex(b)
    ensures Placed(f, Printed(f, Counters(0, 0), b).1, 1, 0, 1, 0)
  {
    hide Hex;
    WidthNext(f, 1);
    var gap := if 0 < f.lineLenMax < GroupWidth(f) + Post(f) then PostText(f) + "\n" else "";
    assert "" + gap + (PreText(f) + f.prefix) == Opening(f);
  }

  /** The whole text, and its end */
  lemma TextIs(f: Format, input: seq<byte>)
    requires f.groupLenMax > 0
    ensures Text(f, input) == Body(f, input) + f.suffix + PostText(f) + "\n"
  {
    hide PrintedAll, Body;
    var n, q, lines := PrintedIs(f, input);
    Joined(Body(f, input), f.suffix, PostText(f) + "\n");
    Joined(Body(f, input) + f.suffix, PostText(f), "\n");
  }

  /** In the default format the octets stand side by side with spaces between, all on one line. */
  lemma DefaultText()
    ensures Text(Format(1, 0, false, false, "", "", " "), [0x01, 0x23, 0x45, 0x67, 0x89, 0xab, 0xcd, 0xef]) == "01 23 45 67 89 ab cd ef\n"
    ensures Text(Format(1, 0, false, false, "", "", " "), []) == "\n"
  {
    hide Text, Body, Hex;
    var f, s := Format(1, 0, false, false, "", "", " "), [0x01, 0x23, 0x45, 0x67, 0x89, 0xab, 0xcd, 0xef];
    TextIs(f, s);
    TextIs(f, []);
    BodyNone(f);
    FirstHalf(f, s);
    BodyStep(f, s, 4);
    assert Body(f, s[..5]) == "01 23 45 67 89";
    BodyStep(f, s, 5);
    assert Body(f, s[..6]) == "01 23 45 67 89 ab";
    BodyStep(f, s, 6);
    assert Body(f, s[..7]) == "01 23 45 67 89 ab cd";
    BodyStep(f, s, 7);
    assert s[..8] == s;
  }

  lemma FirstHalf(f: Format, s: seq<byte>)
    requires f == Format(1, 0, false, false, "", "", " ") && |s| >= 4 && s[..4] == [0x01, 0x23, 0x45, 0x67]
    ensures Body(f, s[..4]) == "01 23 45 67"
  {
    hide Body;
    assert forall k :: 0 <= k < 4 ==> s[k] == s[..4][k];
    BodyStep(f, s, 0);
    assert Body(f, s[..1]) == "01";
    BodyStep(f, s, 1);
    assert Body(f, s[..2]) == "01 23";
    BodyStep(f, s, 2);
    assert Body(f, s[..3]) == "01 23 45";
    BodyStep(f, s, 3);
  }

  lemma BodyNone(f: Format)
    requires f.groupLenMax > 0
    ensures Body(f, []) == ""
  {
  }

  lemma BodyStep(f: Format, s: seq<byte>, i: nat)
    requires i < |s| && f == Format(1, 0, false, false, "", "", " ")
    ensures Body(f, s[..i + 1]) ==
      (if i == 0 then "" else Body(f, s[..i]) + " ") + ["0123456789abcdef"[s[i] / 16], "0123456789abcdef"[s[i] % 16]]
  {
    assert s[..i + 1][..i] == s[..i];
  }

  // -------------------------------------------------------------------------
  // Reading

  /** The digits and their values */
  lemma DigitTable(ch: char, n: nat)
    requires n < 16
    ensures HexDigit(ch) <==> ch in "0123456789ABCDEFabcdef"
    ensures HexDigit("0123456789abcdef"[n]) && Value("0123456789abcdef"[n]) == n
    ensures HexDigit("0123456789ABCDEF"[n]) && Value("0123456789ABCDEF"[n]) == n
  {
    var all := "0123456789ABCDEFabcdef";
    if HexDigit(ch) {
      var i := if ch <= '9' then (ch - '0') as nat else if ch <= 'F' then (ch - 'A') as nat + 10 else (ch - 'a') as nat + 16;
      assert all[i] == ch;
    }
  }

  /** The values of the digits in a text */
  function Digits(s: string): seq<nat> {
    if s == "" then []
    else
      var last := s[|s| - 1];
      Digits(s[..|s| - 1]) + if HexDigit(last) then [Value(last)] else []
  }

  /** Without an x in the text, each two digits make an octet, whatever stands between them; an odd
      one is dropped. */
  lemma DecodedPairs(s: string)
    requires forall k :: 0 <= k < |s| ==> s[k] != 'x' && s[k] != 'X'
    ensures |Decoded(s)| == |Digits(s)| / 2
    ensures forall k :: 0 <= k < |Decoded(s)| ==> Decoded(s)[k] == Digits(s)[2 * k] * 16 + Digits(s)[2 * k + 1]
  {
    ScannedPairs(s);
  }

  lemma {:induction false} ScannedPairs(s: string)
    requires forall k :: 0 <= k < |s| ==> s[k] != 'x' && s[k] != 'X'
    ensures var (e, x), d := Scan("", s), Digits(s);
      && |d| == 2 * |x| + |e| && (e != "" ==> Value(e[0]) == d[|d| - 1])
      && forall k :: 0 <= k < |x| ==> x[k] == d[2 * k] * 16 + d[2 * k + 1]
  {
    hide HexDigit, Value;
    if s != "" {
      ScannedPairs(s[..|s| - 1]);
    }
  }

  /** An x is skipped, and with it a zero in front of it that begins an octet: what `Scan` leaves over
      is the digit that still waits for another one. */
  lemma PrefixSkipped(s: string, t: string, x: string)
    requires x == "x" || x == "X"
    ensures Scan("", s).0 != "0" ==> Decoded(s + x + t) == Decoded(s + t)
    ensures Scan("", s).0 == "" ==> Decoded(s + "0" + x + t) == Decoded(s + t)
  {
    hide Scan, Read, Decoded;
    var e := Scan("", s).0;
    ReadX(e, x);
    ScanOne(e, x);
    if e != "0" {
      Unnoticed(s, x, t);
    }
    if e == "" {
      CPrefixNeutral();
      assert "0" + x == "0x" || "0" + x == "0X";
      Unnoticed(s, "0" + x, t);
      assert s + "0" + x == s + ("0" + x);
    }
  }

  lemma Unnoticed(s: string, m: string, t: string)
    requires Scan(Scan("", s).0, m) == (Scan("", s).0, [])
    ensures Decoded(s + m + t) == Decoded(s + t)
  {
    hide Scan;
    ScanAppends("", s, m);
    ScanAppends("", s + m, t);
    ScanAppends("", s, t);
  }

  lemma ScanOne(e: Element, c: string)
    requires |c| == 1
    ensures Scan(e, c) == Read(e, c[0])
  {
    hide Read;
    ScanNone(e);
    ScanStep(e, c, 0);
    assert c[..0] == "" && c[..1] == c;
    var y := Read(e, c[0]).1;
    assert [] + y == y;
  }

  lemma ReadX(e: Element, x: string)
    requires x == "x" || x == "X"
    ensures Read(e, x[0]) == (if e == "0" then "" else e, [])
  {
  }
}

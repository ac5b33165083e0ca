/** How long the lines of the hex printer are. */
module HexLines {
  import opened Bytes
  import opened HexIo

  // -------------------------------------------------------------------------
  // Lines

  /** The length of what follows the last line feed. */
  function LastLine(s: string): nat {
    if s == "" || s[|s| - 1] == '\n' then 0 else LastLine(s[..|s| - 1]) + 1
  }

  function Max(a: nat, b: nat): nat { if a < b then b else a }

  /** The length of the longest line */
  function Longest(s: string): nat {
    if s == "" then 0 else Max(Longest(s[..|s| - 1]), LastLine(s))
  }

  predicate NoFeed(s: string) { forall k :: 0 <= k < |s| ==> s[k] != '\n' }

  /** It bounds every stretch without a line feed, and is the length of one. */
  lemma {:induction false} LongestIs(s: string)
    ensures forall i, j :: 0 <= i <= j <= |s| && NoFeed(s[i..j]) ==> j - i <= Longest(s)
    ensures exists i, j :: 0 <= i <= j <= |s| && NoFeed(s[i..j]) && j - i == Longest(s)
    ensures LastLine(s) <= |s| && NoFeed(s[|s| - LastLine(s)..])
    ensures forall i :: 0 <= i <= |s| && NoFeed(s[i..]) ==> |s| - i <= LastLine(s)
  {
    if s == "" {
      assert NoFeed(s[0..0]);
    } else {
      var n := |s| - 1;
      var t := s[..n];
      LongestIs(t);
      LastLineIs(s);
      forall i, j | 0 <= i <= j <= |s| && NoFeed(s[i..j])
        ensures j - i <= Longest(s)
      {
        if j <= n {
          assert s[i..j] == t[i..j];
        } else {
          assert s[i..] == s[i..j];
        }
      }
      if Longest(s) == LastLine(s) {
        assert s[|s| - LastLine(s)..|s|] == s[|s| - LastLine(s)..];
      } else {
        var i, j :| 0 <= i <= j <= |t| && NoFeed(t[i..j]) && j - i == Longest(t);
        assert t[i..j] == s[i..j];
      }
    }
  }

  lemma {:induction false} LastLineIs(s: string)
    ensures LastLine(s) <= |s| && NoFeed(s[|s| - LastLine(s)..])
    ensures forall i :: 0 <= i <= |s| && NoFeed(s[i..]) ==> |s| - i <= LastLine(s)
  {
    if s != "" {
      var n := |s| - 1;
      LastLineIs(s[..n]);
      forall i | 0 <= i <= |s| && NoFeed(s[i..])
        ensures |s| - i <= LastLine(s)
      {
        if i < |s| {
          assert s[i..][n - i] == s[n];
          assert s[..n][i..] == s[i..][..n - i];
        }
      }
      if s[n] != '\n' {
        var l := LastLine(s[..n]);
        assert s[n - l..] == s[..n][n - l..] + [s[n]];
      }
    }
  }

  lemma {:induction false} LineGrows(s: string, t: string)
    requires NoFeed(t)
    ensures LastLine(s + t) == LastLine(s) + |t|
    ensures Longest(s + t) == Max(Longest(s), LastLine(s) + |t|)
  {
    if t == "" {
      assert s + t == s;
      if s != "" {
        assert LastLine(s) <= Longest(s);
      }
    } else {
      var n := |t| - 1;
      LineGrows(s, t[..n]);
      assert (s + t)[..|s + t| - 1] == s + t[..n];
    }
  }

  lemma LineEnds(s: string)
    ensures LastLine(s + "\n") == 0 && Longest(s + "\n") == Longest(s)
  {
    assert (s + "\n")[..|s|] == s;
  }

  /** The characters of a whole group, of the separators at the ends of a line, and of a line with
      k groups */
  function GroupWidth(f: Format): nat { |f.prefix| + CHARS_PER_OCTET * f.groupLenMax + |f.suffix| }

  function Pre(f: Format): nat { if f.preLine then |f.separator| else 0 }

  function Post(f: Format): nat { if f.postLine then |f.separator| else 0 }

  function Width(f: Format, k: nat): (w: nat)
    requires k > 0
  {
    if k == 1 then Pre(f) + GroupWidth(f) + Post(f) else Width(f, k - 1) + |f.separator| + GroupWidth(f)
  }

  /** The printer finds room for another group behind k groups. */
  predicate MoreFits(f: Format, k: nat)
    requires k > 0
  {
    Width(f, k) + GroupWidth(f) <= f.lineLenMax
  }

  /** How many groups the printer puts on a line */
  function PerLine(f: Format): (k: nat)
    requires f.groupLenMax > 0
    ensures k > 0
  {
    if Width(f, 1) > f.lineLenMax then 1
    else 1 + (f.lineLenMax - Width(f, 1) + |f.separator|) / (GroupWidth(f) + |f.separator|)
  }

  lemma {:induction false} WidthIs(f: Format, k: nat)
    requires k > 0
    ensures Width(f, k) == Width(f, 1) + (k - 1) * (GroupWidth(f) + |f.separator|)
  {
    hide GroupWidth, Pre, Post;
    if k > 1 {
      WidthIs(f, k - 1);
      var u := GroupWidth(f) + |f.separator|;
      assert (k - 1) * u == (k - 2) * u + u;
    }
  }

  lemma {:induction false} WidthAtLeast(f: Format, k: nat)
    requires k > 0
    ensures Width(f, k) >= GroupWidth(f) + Post(f)
  {
    if k > 1 {
      WidthAtLeast(f, k - 1);
    }
  }

  lemma PerLineIs(f: Format, k: nat)
    requires f.groupLenMax > 0 && k > 0 && Width(f, 1) <= f.lineLenMax
    ensures MoreFits(f, k) <==> k < PerLine(f)
  {
    hide Width;
    WidthIs(f, k);
    var u, x := GroupWidth(f) + |f.separator|, f.lineLenMax - Width(f, 1) + |f.separator|;
    Division(x, u, k);
    assert (k - 1) * u + GroupWidth(f) == k * u - |f.separator| by { Distribute(k, u); }
  }

  lemma Distribute(k: int, u: int)
    ensures (k - 1) * u == k * u - u
  {
  }

  lemma Division(x: nat, u: nat, k: nat)
    requires u > 0
    ensures k * u <= x <==> k <= x / u
  {
    var q := x / u;
    assert x == q * u + x % u;
    if k <= q {
      assert k * u <= q * u by { Monotone(k, q, u); }
    } else {
      assert (q + 1) * u <= k * u by { Monotone(q + 1, k, u); }
      Distribute(q + 1, u);
    }
  }

  lemma Monotone(a: nat, b: nat, u: nat)
    requires a <= b
    ensures a * u <= b * u
  {
  }

  /** No line feed in what a caller chooses, and no line without a limit */
  predicate Lined(f: Format) {
    f.groupLenMax > 0 && f.lineLenMax > 0 && NoFeed(f.prefix) && NoFeed(f.suffix) && NoFeed(f.separator)
  }

  /** The counters in group q of a line: what the line will measure with that group is known. */
  predicate OnLine(f: Format, c: Counters, q: nat) {
    && q > 0 && 0 < c.groupLen <= f.groupLenMax
    && c.lineLen + CHARS_PER_OCTET * (f.groupLenMax - c.groupLen) + |f.suffix| + Post(f) == Width(f, q)
    && (q > 1 ==> MoreFits(f, q - 1))
  }

  /** The output so far and the counters: the line length is that of the last line. */
  predicate Counted(out: string, c: Counters) { LastLine(out) == c.lineLen }

  /** Where the printer puts the next octet. */
  function NextGroup(f: Format, c: Counters, q: nat): nat
    requires q > 0
  {
    if c.groupLen < f.groupLenMax then q else if MoreFits(f, q) then q + 1 else 1
  }

  lemma DigitsNoFeed(b: byte)
    ensures NoFeed(Hex(b)) && |Hex(b)| == CHARS_PER_OCTET
  {
    DigitValue(b / 16);
    DigitValue(b % 16);
  }

  function PostText(f: Format): string { if f.postLine then f.separator else "" }

  function PreText(f: Format): string { if f.preLine then f.separator else "" }

  /** An octet inside its group */
  lemma SameGroup(f: Format, out: string, c: Counters, q: nat, b: byte)
    requires OnLine(f, c, q) && Counted(out, c) && c.groupLen < f.groupLenMax
    ensures var (a, c') := Printed(f, c, b);
            && Counted(out + a, c') && OnLine(f, c', q) && c'.groupLen == c.groupLen + 1
            && Longest(out + a) <= Max(Longest(out), Width(f, q))
  {
    hide Width, Longest, LastLine, NoFeed, Hex, MoreFits;
    DigitsNoFeed(b);
    assert Printed(f, c, b).0 == Hex(b);
    LineGrows(out, Hex(b));
  }

  /** The end of a group and the start of the next one on the same line */
  lemma SameLine(f: Format, out: string, c: Counters, q: nat, b: byte)
    requires Lined(f) && OnLine(f, c, q) && Counted(out, c) && c.groupLen == f.groupLenMax && MoreFits(f, q)
    ensures var (a, c') := Printed(f, c, b);
            && Counted(out + a, c') && OnLine(f, c', q + 1) && c'.groupLen == 1
            && Longest(out + a) <= Max(Longest(out), Width(f, q + 1))
  {
    hide Width, Longest, LastLine, NoFeed, Hex, LineFull;
    DigitsNoFeed(b);
    WidthNext(f, q);
    var c1 := Counters(0, c.lineLen + |f.suffix|);
    RoomAfter(f, c1, q);
    WidthAtLeast(f, q);
    var t := f.suffix + f.separator + f.prefix + Hex(b);
    assert t == f.suffix + f.separator + ("" + f.prefix) + Hex(b);
    assert Printed(f, c, b).0 == t;
    FeedFree(f.suffix, f.separator);
    FeedFree(f.suffix + f.separator, f.prefix);
    FeedFree(f.suffix + f.separator + f.prefix, Hex(b));
    LineGrows(out, t);
  }

  lemma RoomAfter(f: Format, c: Counters, q: nat)
    requires f.lineLenMax > 0 && q > 0 && c.lineLen + Post(f) == Width(f, q)
    ensures LineFull(f, c) <==> !MoreFits(f, q)
  {
    hide Width;
  }

  lemma FeedFree(s: string, t: string)
    requires NoFeed(s) && NoFeed(t)
    ensures NoFeed(s + t)
  {
  }

  /** The start of a line */
  lemma LineStarts(f: Format, done: string, b: byte)
    requires Lined(f) && LastLine(done) == 0
    ensures var out, c := done + (PreText(f) + f.prefix + Hex(b)), Counters(1, Pre(f) + |f.prefix| + CHARS_PER_OCTET);
            Counted(out, c) && OnLine(f, c, 1) && Longest(out) <= Max(Longest(done), Width(f, 1))
  {
    hide Width, Longest, LastLine, NoFeed, Hex;
    NoneNoFeed();
    DigitsNoFeed(b);
    WidthNext(f, 1);
    FeedFree(PreText(f), f.prefix);
    FeedFree(PreText(f) + f.prefix, Hex(b));
    LineGrows(done, PreText(f) + f.prefix + Hex(b));
  }

  /** The end of a line */
  lemma LineDone(f: Format, out: string)
    requires Lined(f)
    ensures var done := out + (f.suffix + PostText(f) + "\n");
            LastLine(done) == 0 && Longest(done) == Max(Longest(out), LastLine(out) + |f.suffix| + Post(f))
  {
    hide Longest, LastLine, NoFeed;
    NoneNoFeed();
    FeedFree(f.suffix, PostText(f));
    LineGrows(out, f.suffix + PostText(f));
    LineEnds(out + (f.suffix + PostText(f)));
    assert out + (f.suffix + PostText(f)) + "\n" == out + (f.suffix + PostText(f) + "\n");
  }

  /** The end of a group and the start of the next one on a new line */
  lemma NextLine(f: Format, out: string, c: Counters, q: nat, b: byte)
    requires Lined(f) && OnLine(f, c, q) && Counted(out, c) && c.groupLen == f.groupLenMax && !MoreFits(f, q)
    ensures var (a, c') := Printed(f, c, b);
            && Counted(out + a, c') && OnLine(f, c', 1) && c'.groupLen == 1
            && Longest(out + a) <= Max(Max(Longest(out), Width(f, q)), Width(f, 1))
  {
    hide Width, Longest, LastLine, NoFeed, Hex, LineFull;
    RoomAfter(f, Counters(0, c.lineLen + |f.suffix|), q);
    var ends, starts := f.suffix + PostText(f) + "\n", PreText(f) + f.prefix + Hex(b);
    assert Printed(f, c, b).0 == ends + starts;
    assert out + (ends + starts) == out + ends + starts;
    LineDone(f, out);
    LineStarts(f, out + ends, b);
  }

  /** One octet more: the line length is still right, and no line is longer than the longest one
      before, the line that was ended, or the line that is going on when its group is full. */
  lemma PrintedLines(f: Format, out: string, c: Counters, q: nat, b: byte)
    requires Lined(f) && OnLine(f, c, q) && Counted(out, c)
    ensures var (a, c') := Printed(f, c, b);
            && Counted(out + a, c') && OnLine(f, c', NextGroup(f, c, q))
            && c'.groupLen == (if c.groupLen < f.groupLenMax then c.groupLen + 1 else 1)
            && Longest(out + a) <= Max(Max(Longest(out), Width(f, q)), Width(f, NextGroup(f, c, q)))
  {
    hide Width, Longest, LastLine, Printed, MoreFits, Lined;
    if c.groupLen < f.groupLenMax {
      SameGroup(f, out, c, q, b);
    } else if MoreFits(f, q) {
      SameLine(f, out, c, q, b);
    } else {
      NextLine(f, out, c, q, b);
    }
  }

  lemma NoneNoFeed()
    ensures NoFeed("")
  {
  }

  lemma WidthNext(f: Format, q: nat)
    requires q > 0
    ensures Width(f, q + 1) == Width(f, q) + |f.separator| + GroupWidth(f)
    ensures Width(f, 1) == Pre(f) + GroupWidth(f) + Post(f)
  {
  }

  /** The first octet */
  lemma FirstLine(f: Format, b: byte)
    requires Lined(f)
    ensures var (a, c) := Printed(f, Counters(0, 0), b);
            Counted(a, c) && OnLine(f, c, 1) && c.groupLen == 1 && Longest(a) <= Width(f, 1)
  {
    hide Width, Longest, LastLine, Hex, Printed, NoFeed, OnLine;
    WidthNext(f, 1);
    NoneNoFeed();
    var done := if LineFull(f, Counters(0, 0)) then PostText(f) + "\n" else "";
    FeedOnly(f);
    FirstText(f, b);
    LineStarts(f, done, b);
  }

  lemma FeedOnly(f: Format)
    requires NoFeed(f.separator)
    ensures LastLine(PostText(f) + "\n") == 0 && Longest(PostText(f) + "\n") == Post(f)
    ensures LastLine("") == 0 && Longest("") == 0
  {
    hide Longest, LastLine, NoFeed;
    NoneNoFeed();
    EmptyLine();
    LineGrows("", PostText(f));
    assert "" + PostText(f) == PostText(f);
    LineEnds(PostText(f));
  }

  lemma FirstText(f: Format, b: byte)
    requires f.groupLenMax > 0
    ensures var done := if LineFull(f, Counters(0, 0)) then PostText(f) + "\n" else "";
            Printed(f, Counters(0, 0), b) == (done + (PreText(f) + f.prefix + Hex(b)), Counters(1, Pre(f) + |f.prefix| + CHARS_PER_OCTET))
  {
    hide Hex, LineFull;
    var done := if LineFull(f, Counters(0, 0)) then PostText(f) + "\n" else "";
    assert "" + done + (PreText(f) + f.prefix) + Hex(b) == done + (PreText(f) + f.prefix + Hex(b));
  }

  lemma EmptyLine()
    ensures LastLine("") == 0 && Longest("") == 0
  {
  }

  /** The end of the output: the last line is ended, too. */
  lemma LastLines(f: Format, out: string, c: Counters)
    requires Lined(f) && Counted(out, c)
    ensures Longest(out + Formatted(f, c, true).0) == Max(Longest(out), c.lineLen + |f.suffix| + Post(f))
  {
    hide Longest, LastLine, NoFeed;
    assert Formatted(f, c, true).0 == f.suffix + (PostText(f) + "\n") == f.suffix + PostText(f) + "\n";
    LineDone(f, out);
  }

  /** Widths that occur are within n. */
  ghost predicate Bounded(f: Format, n: nat) {
    forall q :: q > 0 && (q > 1 ==> MoreFits(f, q - 1)) ==> Width(f, q) <= n
  }

  lemma {:induction false} PrintedWithin(f: Format, input: seq<byte>, n: nat) returns (q: nat)
    requires Lined(f) && Bounded(f, n)
    ensures var (out, c) := PrintedAll(f, Counters(0, 0), input);
            && Counted(out, c) && Longest(out) <= n
            && if input == [] then (out, c) == ("", Counters(0, 0)) else OnLine(f, c, q)
  {
    hide Width, Longest, LastLine, Printed, MoreFits, Lined;
    if input == [] {
      q := 0;
      EmptyLine();
    } else {
      var last := |input| - 1;
      q := PrintedWithin(f, input[..last], n);
      var (out, c) := PrintedAll(f, Counters(0, 0), input[..last]);
      if last == 0 {
        q := 1;
        FirstLine(f, input[last]);
        assert out + Printed(f, c, input[last]).0 == Printed(f, c, input[last]).0;
        assert Width(f, 1) <= n;
      } else {
        PrintedLines(f, out, c, q, input[last]);
        assert Width(f, q) <= n;
        q := NextGroup(f, c, q);
        assert Width(f, q) <= n;
      }
    }
  }

  /** What is printed for an input that is encoded at once */
  function Text(f: Format, input: seq<byte>): string { Encoded(f, Counters(0, 0), input, true).0 }

  lemma TextWithin(f: Format, input: seq<byte>, n: nat)
    requires Lined(f) && Bounded(f, n)
    ensures Longest(Text(f, input)) <= n
  {
    hide Width, Longest, LastLine, Formatted, PrintedAll, MoreFits, Lined;
    var q := PrintedWithin(f, input, n);
    var (out, c) := PrintedAll(f, Counters(0, 0), input);
    LastLines(f, out, c);
    if input == [] {
      WidthNext(f, 1);
      assert Width(f, 1) <= n;
    } else {
      assert Width(f, q) <= n;
    }
  }

  /** Enough octets to reach octet g of group q, if the printer puts so many groups on a line. */
  lemma {:induction false} Reach(f: Format, q: nat, g: nat) returns (input: seq<byte>)
    requires Lined(f) && q > 0 && 0 < g <= f.groupLenMax
    requires forall k :: 0 < k < q ==> MoreFits(f, k)
    ensures var (out, c) := PrintedAll(f, Counters(0, 0), input);
            Counted(out, c) && OnLine(f, c, q) && c.groupLen == g
    decreases q, g
  {
    hide Width, Longest, LastLine, Printed, MoreFits, Lined;
    if q == 1 && g == 1 {
      input := [0];
      FirstLine(f, 0);
      assert input[..0] == [];
      assert "" + Printed(f, Counters(0, 0), 0).0 == Printed(f, Counters(0, 0), 0).0;
    } else {
      var p := if g > 1 then q else q - 1;
      var before := Reach(f, p, if g > 1 then g - 1 else f.groupLenMax);
      input := before + [0];
      assert input[..|input| - 1] == before;
      var (out, c) := PrintedAll(f, Counters(0, 0), before);
      PrintedLines(f, out, c, p, 0);
    }
  }

  lemma TextReaches(f: Format, q: nat) returns (input: seq<byte>)
    requires Lined(f) && q > 0 && forall k :: 0 < k < q ==> MoreFits(f, k)
    ensures Longest(Text(f, input)) >= Width(f, q)
  {
    hide Width, Longest, LastLine, Formatted, PrintedAll, MoreFits;
    input := Reach(f, q, f.groupLenMax);
    var (out, c) := PrintedAll(f, Counters(0, 0), input);
    LastLines(f, out, c);
  }

  /** The line limit is kept for all inputs if and only if as many groups as the printer puts on a
      line fit: it looks for room for the next group before it adds the separator in front of it.
      If one group fits, a line is too long by at most the separator. */
  lemma LineLimit(f: Format)
    requires Lined(f)
    ensures (forall input :: Longest(Text(f, input)) <= f.lineLenMax) <==> Width(f, PerLine(f)) <= f.lineLenMax
    ensures Width(f, 1) <= f.lineLenMax ==> forall input :: Longest(Text(f, input)) <= f.lineLenMax + |f.separator|
  {
    hide Width, Longest, Text, PerLine, GroupWidth;
    var k := PerLine(f);
    if Width(f, 1) <= f.lineLenMax {
      if k > 1 {
        PerLineIs(f, k - 1);
        WidthNext(f, k - 1);
      }
      BoundedBy(f, k, f.lineLenMax + |f.separator|);
      forall input
        ensures Longest(Text(f, input)) <= f.lineLenMax + |f.separator|
      {
        TextWithin(f, input, f.lineLenMax + |f.separator|);
      }
    } else {
      OneGroup(f);
    }
    forall q | 0 < q < k
      ensures MoreFits(f, q)
    {
      PerLineIs(f, q);
    }
    var long := TextReaches(f, k);
    if Width(f, k) <= f.lineLenMax {
      BoundedBy(f, k, f.lineLenMax);
      forall input
        ensures Longest(Text(f, input)) <= f.lineLenMax
      {
        TextWithin(f, input, f.lineLenMax);
      }
    }
  }

  lemma OneGroup(f: Format)
    requires f.groupLenMax > 0
    ensures Width(f, 1) > f.lineLenMax ==> PerLine(f) == 1
  {
  }

  lemma BoundedBy(f: Format, k: nat, n: nat)
    requires Lined(f) && k == PerLine(f) && Width(f, 1) <= f.lineLenMax <= n
    requires k > 1 ==> Width(f, k) <= n
    ensures Bounded(f, n)
  {
    hide Width, PerLine, GroupWidth;
    forall q | q > 0 && (q > 1 ==> MoreFits(f, q - 1))
      ensures Width(f, q) <= n
    {
      if q > 1 {
        PerLineIs(f, q - 1);
        if q < k {
          PerLineIs(f, q);
        }
      }
    }
  }

  /** The same condition by the first line that is too long: there is room for a group behind k
      groups, and then none for the separator. */
  lemma TooLongAt(f: Format)
    requires Lined(f) && Width(f, 1) <= f.lineLenMax
    ensures Width(f, PerLine(f)) > f.lineLenMax <==> exists k :: k > 0 && MoreFits(f, k) && f.lineLenMax < Width(f, k + 1)
  {
    hide Width, PerLine, GroupWidth;
    var n := PerLine(f);
    if Width(f, n) > f.lineLenMax {
      PerLineIs(f, n - 1);
      assert MoreFits(f, n - 1) && f.lineLenMax < Width(f, n - 1 + 1);
    }
    forall k | k > 0 && MoreFits(f, k) && f.lineLenMax < Width(f, k + 1)
      ensures k + 1 == n
    {
      PerLineIs(f, k);
      PerLineIs(f, k + 1);
    }
  }

  const NARROW := Format(1, 7, false, false, "", "", " ")

  lemma NarrowGaps()
    ensures Formatted(NARROW, Counters(0, 0), false) == ("", Counters(0, 0))
    ensures Formatted(NARROW, Counters(1, 2), false) == (" ", Counters(0, 3))
    ensures Formatted(NARROW, Counters(1, 5), false) == (" ", Counters(0, 6))
  {
    assert "" + "" + ("" + "") == "";
    assert "" + " " + ("" + "") == " ";
  }

  /** `lineLenMax` is not a strict maximum: the room for a group is checked before its separator is
      added, so that this line of eight characters gets past a maximum of seven. */
  lemma LineMayBeLonger()
    ensures PrintedAll(NARROW, Counters(0, 0), [0, 1, 2]) == ("00 01 02", Counters(1, 8))
    ensures PerLine(NARROW) == 3 && Width(NARROW, 3) == 8
  {
    hide Formatted, PrintedAll, Hex;
    var c, input: seq<byte> := Counters(0, 0), [0, 1, 2];
    assert input[..0] == [] && input[..3] == input;
    NarrowGaps();
    NarrowHex();
    PrintedNone(NARROW, c);
    PrintedStep(NARROW, c, input, 0);
    PrintedStep(NARROW, c, input, 1);
    PrintedStep(NARROW, c, input, 2);
    assert "" + "" + "00" + " " + "01" + " " + "02" == "00 01 02";
  }

  lemma NarrowHex()
    ensures Hex(0) == "00" && Hex(1) == "01" && Hex(2) == "02"
  {
  }
}

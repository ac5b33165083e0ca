/** Splitting strings and normalizing paths (cpUtil.cpp). */
module Paths {

  // -------------------------------------------------------------------------
  // Tokens

  predicate OccursAt(s: string, d: string, n: nat) {
    n + |d| <= |s| && s[n..n + |d|] == d
  }

  predicate Contains(s: string, d: string) {
    exists n :: 0 <= n <= |s| && OccursAt(s, d, n)
  }

  /** `find`: the first occurrence */
  datatype Found = At(n: nat) | Npos

  method Find(s: string, d: string) returns (f: Found)
    ensures f == FirstOf(s, d)
  {
    var n := 0;
    while n <= |s|
      invariant n <= |s| + 1 && forall k :: 0 <= k < n ==> !OccursAt(s, d, k)
    {
      if n + |d| <= |s| && s[n..n + |d|] == d {
        FirstIs(s, d, n);
        return At(n);
      }
      n := n + 1;
    }
    FirstNone(s, d);
    return Npos;
  }

  function FirstOf(s: string, d: string): Found { FirstFrom(s, d, 0) }

  function FirstFrom(s: string, d: string, n: nat): Found
    decreases |s| + 1 - n
  {
    if n > |s| then Npos else if OccursAt(s, d, n) then At(n) else FirstFrom(s, d, n + 1)
  }

  lemma {:induction false} FirstFromIs(s: string, d: string, m: nat, n: nat)
    requires m <= n <= |s| + 1 && (forall k :: m <= k < n ==> !OccursAt(s, d, k))
    ensures FirstFrom(s, d, m) == FirstFrom(s, d, n)
    decreases n - m
  {
    if m < n {
      FirstFromIs(s, d, m + 1, n);
    }
  }

  lemma FirstIs(s: string, d: string, n: nat)
    requires n <= |s| && OccursAt(s, d, n) && forall k :: 0 <= k < n ==> !OccursAt(s, d, k)
    ensures FirstOf(s, d) == At(n)
  {
    FirstFromIs(s, d, 0, n);
  }

  lemma FirstNone(s: string, d: string)
    requires forall k :: 0 <= k <= |s| ==> !OccursAt(s, d, k)
    ensures FirstOf(s, d) == Npos
  {
    FirstFromIs(s, d, 0, |s| + 1);
  }

  lemma {:induction false} FirstFound(s: string, d: string, m: nat)
    requires m <= |s| + 1
    ensures var f := FirstFrom(s, d, m);
      && (f.At? ==> m <= f.n <= |s| && OccursAt(s, d, f.n) && forall k :: m <= k < f.n ==> !OccursAt(s, d, k))
      && (f.Npos? ==> forall k :: m <= k <= |s| ==> !OccursAt(s, d, k))
    decreases |s| + 1 - m
  {
    if m <= |s| && !OccursAt(s, d, m) {
      FirstFound(s, d, m + 1);
    }
  }

  function Tokens(s: string, d: string): seq<string>
    requires d != []
    decreases |s|
  {
    if s == [] then []
    else
      FirstFound(s, d, 0);
      match FirstOf(s, d)
      case At(n) => [s[..n]] + Tokens(s[n + |d|..], d)
      case Npos => [s]
  }

  function Join(ts: seq<string>, d: string): string {
    if ts == [] then "" else if |ts| == 1 then ts[0] else ts[0] + d + Join(ts[1..], d)
  }

  lemma PrefixContainsNot(s: string, d: string, n: nat)
    requires n <= |s| && d != [] && forall k :: 0 <= k < n ==> !OccursAt(s, d, k)
    ensures !Contains(s[..n], d)
  {
    forall k | 0 <= k <= n
      ensures !OccursAt(s[..n], d, k)
    {
      if k + |d| <= n {
        assert |d| > 0 && !OccursAt(s, d, k);
        assert s[..n][k..k + |d|] == s[k..k + |d|];
      }
    }
  }

  /** With a delimiter behind it, the token ends at the first occurrence. */
  ghost predicate Ended(t: string, d: string) {
    forall k :: 0 <= k < |t| ==> !OccursAt(t + d, d, k)
  }

  /** ts are the pieces of s: every piece but the last ends at the first delimiter behind its start,
      and so does the last, unless it is what remains without one and not empty. */
  ghost predicate Pieces(ts: seq<string>, s: string, d: string) {
    if ts == [] then s == ""
    else
      && (forall i :: 0 <= i < |ts| - 1 ==> Ended(ts[i], d))
      && (|| (s == Join(ts, d) && ts[|ts| - 1] != "" && !Contains(ts[|ts| - 1], d))
          || (s == Join(ts, d) + d && Ended(ts[|ts| - 1], d)))
  }

  lemma EndedIsFirst(t: string, d: string, rest: string)
    requires d != []
    ensures Ended(t, d) <==> FirstOf(t + d + rest, d) == At(|t|)
  {
    var s := t + d + rest;
    forall k | 0 <= k < |t|
      ensures OccursAt(t + d, d, k) <==> OccursAt(s, d, k)
    {
      assert s[k..k + |d|] == (t + d)[k..k + |d|];
    }
    assert OccursAt(s, d, |t|);
    FirstFound(s, d, 0);
    if Ended(t, d) {
      FirstIs(s, d, |t|);
    }
  }

  lemma PiecesStep(ts: seq<string>, s: string, d: string)
    requires d != [] && ts != []
    ensures Pieces(ts, s, d) <==>
      || (ts == [s] && s != "" && !Contains(s, d))
      || (Ended(ts[0], d) && ts[0] + d <= s && Pieces(ts[1..], s[|ts[0]| + |d|..], d))
  {
    hide Ended, Contains;
    var t, rest := ts[0], ts[1..];
    if t + d <= s {
      assert s == t + d + s[|t + d|..];
    }
    if |ts| > 1 {
      assert Join(ts, d) == t + d + Join(rest, d);
      assert t + d + Join(rest, d) + d == t + d + (Join(rest, d) + d);
      assert rest[|rest| - 1] == ts[|ts| - 1];
      assert (forall i :: 0 <= i < |ts| - 1 ==> Ended(ts[i], d)) <==> Ended(t, d) && forall i :: 0 <= i < |rest| - 1 ==> Ended(rest[i], d);
    } else {
      assert ts == [t] && Join(ts, d) == t;
    }
  }

  /** The pieces of a string are its tokens, and nothing else is. */
  lemma {:induction false} TokensExactly(ts: seq<string>, s: string, d: string)
    requires d != []
    ensures Pieces(ts, s, d) <==> ts == Tokens(s, d)
    decreases |s|
  {
    hide Ended, Contains, Join, Pieces, Tokens;
    TokensStep(s, d);
    if ts == [] {
      PiecesNone(s, d);
    } else {
      PiecesStep(ts, s, d);
      var n := |ts[0]|;
      if ts[0] + d <= s {
        var rest := s[n + |d|..];
        assert s == ts[0] + d + rest;
        EndedIsFirst(ts[0], d, rest);
        TokensExactly(ts[1..], rest, d);
        assert ts == [ts[0]] + ts[1..] && s[..n] == ts[0];
        assert FirstOf(s, d).At? ==> |Tokens(s, d)[0]| == FirstOf(s, d).n;
      }
    }
  }

  lemma PiecesNone(s: string, d: string)
    ensures Pieces([], s, d) <==> s == ""
  {
  }

  lemma TokensStep(s: string, d: string)
    requires d != []
    ensures Tokens(s, d) == [] <==> s == ""
    ensures s != "" && !Contains(s, d) ==> Tokens(s, d) == [s] && FirstOf(s, d) == Npos
    ensures FirstOf(s, d).At? ==>
      var n := FirstOf(s, d).n;
      n + |d| <= |s| && s[..n] + d <= s && Tokens(s, d) == [s[..n]] + Tokens(s[n + |d|..], d) && Contains(s, d)
    ensures FirstOf(s, d) == Npos ==> !Contains(s, d)
  {
    FirstFound(s, d, 0);
    if !Contains(s, d) {
      FirstNone(s, d);
    }
    if FirstOf(s, d).At? {
      var n := FirstOf(s, d).n;
      assert s[..n] + d == s[..n + |d|];
    }
  }

  /** No token contains the delimiter, and joined by it they are the input, up to one delimiter at
      its end. */
  lemma TokensJoin(s: string, d: string)
    requires d != []
    ensures forall i :: 0 <= i < |Tokens(s, d)| ==> !Contains(Tokens(s, d)[i], d)
    ensures Join(Tokens(s, d), d) == s || Join(Tokens(s, d), d) + d == s
  {
    hide Tokens, Ended, Contains;
    var ts := Tokens(s, d);
    TokensExactly(ts, s, d);
    forall i | 0 <= i < |ts| && Ended(ts[i], d)
      ensures !Contains(ts[i], d)
    {
      EndedHasNone(ts[i], d);
    }
  }

  lemma EndedHasNone(t: string, d: string)
    requires d != [] && Ended(t, d)
    ensures !Contains(t, d)
  {
    forall k | 0 <= k <= |t|
      ensures !OccursAt(t, d, k)
    {
      if k + |d| <= |t| {
        assert k < |t| && !OccursAt(t + d, d, k);
        assert (t + d)[k..k + |d|] == t[k..k + |d|];
      }
    }
  }

  /** `Tokenize`: with an empty delimiter it would not end. */
  method Tokenize(s: string, d: string) returns (tokens: seq<string>)
    requires d != []
    ensures tokens == Tokens(s, d)
  {
    hide Tokens, Contains;
    TokensNone(d);
    tokens := [];
    var remains := s;
    while |remains| > 0
      invariant tokens + Tokens(remains, d) == Tokens(s, d)
      decreases |remains|
    {
      TokensStep(remains, d);
      var f := Find(remains, d);
      var token;
      if f.At? {
        token := remains[..f.n];
        remains := remains[f.n + |d|..];
      } else {
        token := remains;
        remains := "";
      }
      tokens := tokens + [token];
    }
  }

  lemma TokensNone(d: string)
    requires d != []
    ensures Tokens("", d) == []
  {
  }

  // -------------------------------------------------------------------------
  // Paths

  const PATH_SEP: string := "/"

  /** What is left of the elements when the relative ones are resolved. */
  function Resolve(es: seq<string>): seq<string> {
    if es == [] then []
    else Applied(Resolve(es[..|es| - 1]), es[|es| - 1])
  }

  function Applied(list: seq<string>, e: string): seq<string> {
    if e == "." || e == "" then list
    else if e == ".." then (if list != [] then list[..|list| - 1] else list)
    else list + [e]
  }

  function Render(es: seq<string>): string {
    if es == [] then "" else PATH_SEP + es[0] + Render(es[1..])
  }

  function Normalized(path: string): string { Render(Resolve(Tokens(path, PATH_SEP))) }

  lemma ResolveStep(es: seq<string>, i: nat)
    ensures Resolve([]) == []
    ensures i < |es| ==> Resolve(es[..i + 1]) == Applied(Resolve(es[..i]), es[i])
  {
    hide Applied;
    if i < |es| {
      assert es[..i + 1][..i] == es[..i];
    }
  }

  /** One pass of the loop over the elements */
  method Apply(elements: seq<string>, e: string) returns (list: seq<string>)
    ensures list == Applied(elements, e)
  {
    list := elements;
    if e == "." || e == "" {
      return;
    } else if e == ".." {
      if list != [] {
        list := list[..|list| - 1];
      }
    } else {
      list := list + [e];
    }
  }

  method NormalizePath(path: string) returns (result: string)
    ensures result == Normalized(path)
  {
    hide Tokens, Resolve, Applied;
    ResolveStep([], 0);
    var elements := Tokenize(path, PATH_SEP);
    var list: seq<string> := [];
    var i := 0;
    while i < |elements|
      invariant i <= |elements| && list == Resolve(elements[..i])
    {
      ResolveStep(elements, i);
      list := Apply(list, elements[i]);
      i := i + 1;
    }
    assert elements[..i] == elements;
    result := "";
    ghost var all := Render(list);
    while list != []
      invariant result + Render(list) == all
      decreases |list|
    {
      result := result + PATH_SEP;
      result := result + list[0];
      list := list[1..];
    }
  }

  /** A component that stands for itself */
  predicate Plain(e: string) { e != "" && e != "." && e != ".." && !Contains(e, PATH_SEP) }

  ghost predicate AllPlain(es: seq<string>) { forall i :: 0 <= i < |es| ==> Plain(es[i]) }

  lemma {:induction false} ResolvePlain(es: seq<string>)
    requires forall i :: 0 <= i < |es| ==> !Contains(es[i], PATH_SEP)
    ensures AllPlain(Resolve(es))
  {
    hide Contains, Resolve, Applied, Plain;
    ResolveStep(es, 0);
    if es != [] {
      var n := |es| - 1;
      ResolvePlain(es[..n]);
      ResolveStep(es, n);
      assert es[..n + 1] == es;
      AppliedStaysPlain(Resolve(es[..n]), es[n]);
    }
  }

  lemma AppliedStaysPlain(list: seq<string>, e: string)
    requires AllPlain(list) && !Contains(e, PATH_SEP)
    ensures AllPlain(Applied(list, e))
  {
    hide Contains;
  }

  lemma {:induction false} ResolveSkips(es: seq<string>)
    ensures Resolve([""] + es) == Resolve(es)
  {
    hide Applied, Resolve;
    ResolveStep([""], 0);
    assert [""][..0] == [] && [""][..1] == [""];
    AppliedEmpty();
    if es == [] {
      assert [""] + es == [""];
    } else {
      var n := |es| - 1;
      ResolveSkips(es[..n]);
      ResolveStep(es, n);
      ResolveStep([""] + es, n + 1);
      assert ([""] + es)[..n + 1] == [""] + es[..n] && ([""] + es)[..n + 2] == [""] + es && es[..n + 1] == es;
    }
  }

  lemma {:induction false} ResolveKeeps(es: seq<string>)
    requires AllPlain(es)
    ensures Resolve(es) == es
  {
    hide Plain, Applied, Resolve;
    ResolveStep(es, 0);
    if es != [] {
      var n := |es| - 1;
      ResolveKeeps(es[..n]);
      ResolveStep(es, n);
      assert es[..n + 1] == es && es[..n] + [es[n]] == es;
      assert Plain(es[n]);
      AppliedPlain(es[..n], es[n]);
    }
  }

  lemma AppliedEmpty()
    ensures Applied([], "") == []
  {
  }

  lemma AppliedPlain(list: seq<string>, e: string)
    requires Plain(e)
    ensures Applied(list, e) == list + [e]
  {
    hide Contains;
  }

  lemma NoSep(e: string)
    requires !Contains(e, PATH_SEP)
    ensures forall k :: 0 <= k < |e| ==> e[k] != PATH_SEP[0]
  {
    forall k | 0 <= k < |e|
      ensures e[k] != PATH_SEP[0]
    {
      assert !OccursAt(e, PATH_SEP, k);
    }
  }

  /** A component is split off again. */
  lemma TokenSplits(e: string, rest: string)
    requires !Contains(e, PATH_SEP)
    ensures Tokens(e + PATH_SEP + rest, PATH_SEP) == [e] + Tokens(rest, PATH_SEP)
    ensures e != "" ==> Tokens(e, PATH_SEP) == [e]
  {
    NoSep(e);
    var s := e + PATH_SEP + rest;
    assert OccursAt(s, PATH_SEP, |e|);
    forall k | 0 <= k < |e|
      ensures !OccursAt(s, PATH_SEP, k)
    {
      assert s[k..k + 1][0] == e[k];
    }
    FirstIs(s, PATH_SEP, |e|);
    assert s[..|e|] == e && s[|e| + 1..] == rest;
    FirstNone(e, PATH_SEP);
  }

  /** A rendered list behind its first separator */
  function Body(es: seq<string>): string
    requires es != []
  {
    if |es| == 1 then es[0] else es[0] + PATH_SEP + Body(es[1..])
  }

  lemma {:induction false} RenderBody(es: seq<string>)
    requires es != []
    ensures Render(es) == PATH_SEP + Body(es)
  {
    if |es| > 1 {
      RenderBody(es[1..]);
    }
  }

  lemma {:induction false} TokensOfBody(es: seq<string>)
    requires AllPlain(es) && es != []
    ensures Tokens(Body(es), PATH_SEP) == es
  {
    hide Contains, Tokens;
    assert Plain(es[0]);
    if |es| == 1 {
      TokenSplits(es[0], "");
      assert es == [es[0]];
    } else {
      TokensOfBody(es[1..]);
      TokenSplits(es[0], Body(es[1..]));
      assert [es[0]] + es[1..] == es;
    }
  }

  /** The tokens of a rendered list are its elements, behind an empty one. */
  lemma TokensOfRender(es: seq<string>)
    requires AllPlain(es) && es != []
    ensures Tokens(Render(es), PATH_SEP) == [""] + es
  {
    hide Contains, Tokens, Render, Body, Plain;
    EmptyHasNone();
    RenderBody(es);
    TokensOfBody(es);
    TokenSplits("", Body(es));
    assert "" + PATH_SEP == PATH_SEP;
  }

  lemma EmptyHasNone()
    ensures !Contains("", PATH_SEP)
  {
  }

  /** Normalizing leaves only components that stand for themselves, each behind a separator, and
      doing it again changes nothing. */
  lemma NormalizedIsNormal(path: string)
    ensures var es := Resolve(Tokens(path, PATH_SEP));
      AllPlain(es) && Normalized(path) == Render(es) && (es != [] ==> Tokens(Normalized(path), PATH_SEP) == [""] + es)
    ensures Normalized(Normalized(path)) == Normalized(path)
  {
    hide Contains, FirstOf;
    var es := Resolve(Tokens(path, PATH_SEP));
    TokensJoin(path, PATH_SEP);
    ResolvePlain(Tokens(path, PATH_SEP));
    ResolveKeeps(es);
    ResolveSkips(es);
    if es != [] {
      TokensOfRender(es);
    }
  }

  /** A relative path is normalized like the absolute one with the same components: the result is
      empty or begins with a separator. */
  lemma RelativeIsLost(path: string)
    ensures Normalized(path) == Normalized(PATH_SEP + path)
    ensures Normalized(path) == "" || Normalized(path)[0] == PATH_SEP[0]
  {
    hide Contains, Tokens;
    EmptyHasNone();
    TokenSplits("", path);
    assert "" + PATH_SEP + path == PATH_SEP + path;
    ResolveSkips(Tokens(path, PATH_SEP));
    if Resolve(Tokens(path, PATH_SEP)) != [] {
      RenderBody(Resolve(Tokens(path, PATH_SEP)));
    }
  }

  // -------------------------------------------------------------------------
  // What the relative components do

  lemma ResolveSnoc(a: seq<string>, e: string)
    ensures Resolve(a + [e]) == Applied(Resolve(a), e)
  {
    hide Applied;
    assert (a + [e])[..|a|] == a;
  }

  /** Lists that resolve alike still do with the same elements behind them. */
  lemma {:induction false} ResolveBehind(a: seq<string>, a': seq<string>, b: seq<string>)
    requires Resolve(a) == Resolve(a')
    ensures Resolve(a + b) == Resolve(a' + b)
  {
    hide Resolve, Applied;
    if b == [] {
      assert a + b == a && a' + b == a';
    } else {
      var n := |b| - 1;
      ResolveBehind(a, a', b[..n]);
      ResolveSnoc(a + b[..n], b[n]);
      ResolveSnoc(a' + b[..n], b[n]);
      assert b[..n] + [b[n]] == b;
      assert a + b[..n] + [b[n]] == a + (b[..n] + [b[n]]) && a' + b[..n] + [b[n]] == a' + (b[..n] + [b[n]]);
    }
  }

  /** ".." takes back the component in front of it, or nothing at the root; "." and an empty element
      stand for nothing; any other component is kept behind what is already there. */
  lemma RelativeComponents(a: seq<string>, e: string, b: seq<string>)
    requires Plain(e)
    ensures Resolve(a + [e, ".."] + b) == Resolve(a + b)
    ensures Resolve([".."] + b) == Resolve(b)
    ensures Resolve(a + ["."] + b) == Resolve(a + b) == Resolve(a + [""] + b)
    ensures Resolve(a + [e]) == Resolve(a) + [e]
  {
    hide Resolve, Contains;
    ResolveSnoc(a, e);
    ResolveSnoc(a + [e], "..");
    assert a + [e] + [".."] == a + [e, ".."];
    ResolveBehind(a + [e, ".."], a, b);
    ResolveStep([], 0);
    ResolveSnoc([], "..");
    assert [] + [".."] == [".."] && [] + b == b;
    ResolveBehind([".."], [], b);
    ResolveSnoc(a, ".");
    ResolveBehind(a + ["."], a, b);
    ResolveSnoc(a, "");
    ResolveBehind(a + [""], a, b);
  }

  /** A separator that ended the path ends an empty token when another one follows. */
  function Gap(p: string): seq<string> { if p == "" || p[|p| - 1] == '/' then [""] else [] }

  /** Behind a path and a separator the tokens go on. */
  lemma {:induction false} TokensBehind(p: string, r: string)
    ensures Tokens(p + PATH_SEP + r, PATH_SEP) == Tokens(p, PATH_SEP) + Gap(p) + Tokens(r, PATH_SEP)
    decreases |p|
  {
    hide Contains, Tokens, OccursAt, FirstFrom;
    FirstFound(p, PATH_SEP, 0);
    if p == "" {
      EmptyHasNone();
      TokenSplits("", r);
      TokensNone(PATH_SEP);
    } else if FirstOf(p, PATH_SEP).At? {
      var n := FirstOf(p, PATH_SEP).n;
      PrefixContainsNot(p, PATH_SEP, n);
      SplitAt(p, n);
      TokensBehind(p[n + 1..], r);
      TokensBehindOne(p[..n], p[n + 1..], r);
    } else {
      HasNone(p);
      TokenSplits(p, r);
    }
  }

  lemma SplitAt(p: string, n: nat)
    requires n <= |p| && OccursAt(p, PATH_SEP, n)
    ensures n < |p| && p == p[..n] + PATH_SEP + p[n + 1..]
  {
  }

  lemma TokensBehindOne(x: string, q: string, r: string)
    requires !Contains(x, PATH_SEP)
    requires Tokens(q + PATH_SEP + r, PATH_SEP) == Tokens(q, PATH_SEP) + Gap(q) + Tokens(r, PATH_SEP)
    ensures var p := x + PATH_SEP + q;
            Tokens(p + PATH_SEP + r, PATH_SEP) == Tokens(p, PATH_SEP) + Gap(p) + Tokens(r, PATH_SEP)
  {
    hide Contains, Tokens;
    var p := x + PATH_SEP + q;
    TokenSplits(x, q);
    TokenSplits(x, q + PATH_SEP + r);
    assert p + PATH_SEP + r == x + PATH_SEP + (q + PATH_SEP + r);
    assert Gap(p) == Gap(q);
  }

  lemma HasNone(p: string)
    requires p != "" && forall k :: 0 <= k <= |p| ==> !OccursAt(p, PATH_SEP, k)
    ensures !Contains(p, PATH_SEP) && p[|p| - 1] != '/'
  {
    assert !OccursAt(p, PATH_SEP, |p| - 1);
  }

  lemma {:induction false} RenderSnoc(es: seq<string>, e: string)
    ensures Render(es + [e]) == Render(es) + PATH_SEP + e
  {
    if es != [] {
      RenderSnoc(es[1..], e);
      assert (es + [e])[1..] == es[1..] + [e];
    }
  }

  /** What a component at the end of any path does to the normalized path: a plain one is added,
      ".." behind it takes it away again, and "." and a separator change nothing. */
  lemma NormalizedEnds(p: string, e: string)
    requires Plain(e)
    ensures Normalized(p + "/" + e) == Normalized(p) + "/" + e
    ensures Normalized(p + "/" + e + "/..") == Normalized(p)
    ensures Normalized(p + "/.") == Normalized(p) == Normalized(p + "/")
    ensures Normalized("") == Normalized("..") == ""
  {
    hide Contains, Tokens, Resolve, Render, Applied, Plain, Gap;
    Components(e);
    EndsWith(p, e, [e]);
    assert p + "/" + e + "/.." == p + "/" + e + "/" + "..";
    EndsWith(p + "/" + e, "..", [".."]);
    EndsWith(p, ".", ["."]);
    assert p + "/." == p + "/" + ".";
    EndsWith(p, "", []);
    assert p + "/" + "" == p + "/";
    var before := Resolve(Tokens(p, PATH_SEP));
    RelativeEnds(Tokens(p, PATH_SEP), e);
    RenderSnoc(before, e);
    TokensBehind(p, e);
    GapSkipped(p, Tokens(p, PATH_SEP), [e]);
    ParentEnds(Tokens(p, PATH_SEP) + Gap(p), e);
    GapSkipped(p, Tokens(p, PATH_SEP), []);
    assert Tokens(p, PATH_SEP) + Gap(p) + [] == Tokens(p, PATH_SEP) + Gap(p) && Tokens(p, PATH_SEP) + [] == Tokens(p, PATH_SEP);
    ResolveStep([], 0);
    RelativeComponents([], e, []);
    assert [".."] + [] == [".."];
  }

  lemma GapSkipped(p: string, ts: seq<string>, more: seq<string>)
    ensures Resolve(ts + Gap(p) + more) == Resolve(ts + more)
  {
    hide Resolve, Applied;
    ResolveSnoc(ts, "");
    AppliedNothing(Resolve(ts));
    ResolveBehind(ts + [""], ts, more);
    assert ts + [] == ts;
  }

  lemma AppliedNothing(list: seq<string>)
    ensures Applied(list, "") == Applied(list, ".") == list
  {
  }

  lemma EndsWith(p: string, r: string, ts: seq<string>)
    requires Tokens(r, PATH_SEP) == ts
    ensures Normalized(p + "/" + r) == Render(Resolve(Tokens(p, PATH_SEP) + ts))
  {
    hide Tokens, Resolve, Render, Gap;
    TokensBehind(p, r);
    GapSkipped(p, Tokens(p, PATH_SEP), ts);
  }

  lemma RelativeEnds(ts: seq<string>, e: string)
    requires Plain(e)
    ensures Resolve(ts + [e]) == Resolve(ts) + [e]
    ensures Resolve(ts + ["."]) == Resolve(ts) == Resolve(ts + [])
  {
    hide Resolve, Plain;
    RelativeComponents(ts, e, []);
    assert ts + [] == ts && ts + ["."] + [] == ts + ["."];
  }

  lemma ParentEnds(ts: seq<string>, e: string)
    requires Plain(e)
    ensures Resolve(ts + [e] + [".."]) == Resolve(ts)
  {
    hide Resolve, Plain;
    RelativeComponents(ts, e, []);
    assert ts + [] == ts && ts + [e] + [".."] == ts + [e, ".."] + [];
  }

  lemma Components(e: string)
    requires Plain(e)
    ensures Tokens(e, PATH_SEP) == [e] && e[|e| - 1] != '/'
    ensures Tokens("..", PATH_SEP) == [".."] && Tokens(".", PATH_SEP) == ["."] && Tokens("", PATH_SEP) == []
    ensures Render([]) == ""
  {
    hide Tokens;
    forall t | t == "." || t == ".."
      ensures !Contains(t, PATH_SEP)
    {
      assert forall k :: 0 <= k < |t| ==> t[k] != '/';
      forall k | 0 <= k <= |t|
        ensures !OccursAt(t, PATH_SEP, k)
      {
        if k + 1 <= |t| {
          assert t[k..k + 1][0] == t[k];
        }
      }
    }
    TokenSplits(e, "");
    TokenSplits(".", "");
    TokenSplits("..", "");
    NoSep(e);
    TokensNone(PATH_SEP);
  }
}

/** The block exchange of getopt_long.c: rotation in place, one cycle at a time. */
module PermuteArgs {

  // -------------------------------------------------------------------------
  // gcd

  ghost predicate Combines(x: int, y: int, a: int, b: int, g: int) {
    x * a + y * b == g
  }

  ghost predicate Divides(d: int, a: int) {
    exists q: int :: Product(q, d) == a
  }

  ghost function Product(q: int, d: int): int { q * d }

  /** A positive common divisor that is an integer combination of both numbers. */
  ghost predicate IsGcd(g: int, a: int, b: int) {
    && g > 0
    && Divides(g, a)
    && Divides(g, b)
    && exists x, y :: Combines(x, y, a, b, g)
  }

  /** Such a divisor is the greatest one: every common divisor divides it. */
  lemma GcdIsGreatest(g: int, a: int, b: int, d: int)
    requires IsGcd(g, a, b) && Divides(d, a) && Divides(d, b)
    ensures Divides(d, g)
    ensures d <= g
  {
    var x, y :| Combines(x, y, a, b, g);
    var p :| Product(p, d) == a;
    var q :| Product(q, d) == b;
    assert Product(x * p + y * q, d) == g by {
      assert x * (p * d) == (x * p) * d && y * (q * d) == (y * q) * d;
    }
    if d > 0 {
      MultipleIsFar(x * p + y * q, d);
    }
  }

  method Gcd(a: int, b: int) returns (g: int)
    requires a >= 0 && b > 0
    ensures IsGcd(g, a, b)
  {
    var u, v := a, b;
    var c := u % v;
    ghost var ux, uy, vx, vy := 1, 0, 0, 1;
    while c != 0
      invariant 0 <= u && 0 < v && c == u % v
      invariant Combines(ux, uy, a, b, u) && Combines(vx, vy, a, b, v)
      invariant forall d :: Divides(d, u) && Divides(d, v) ==> Divides(d, a) && Divides(d, b)
      decreases v
    {
      ghost var q := u / v;
      Remainder(u, v, q, c);
      ghost var cx, cy := ux - q * vx, uy - q * vy;
      CombineRemainder(ux, uy, vx, vy, a, b, u, v, q);
      u, v := v, c;
      ux, uy, vx, vy := vx, vy, cx, cy;
      c := u % v;
    }
    assert Product(1, v) == v && Product(u / v, v) == u;
    g := v;
  }

  lemma Remainder(u: int, v: int, q: int, c: int)
    requires v > 0 && q == u / v && c == u % v
    ensures forall d :: Divides(d, v) && Divides(d, c) ==> Divides(d, u)
  {
    forall d | Divides(d, v) && Divides(d, c)
      ensures Divides(d, u)
    {
      var s :| Product(s, d) == v;
      var t :| Product(t, d) == c;
      assert Product(q * s + t, d) == u by {
        assert u == v * q + c;
        assert (q * s) * d == q * (s * d);
      }
    }
  }

  lemma CombineRemainder(ux: int, uy: int, vx: int, vy: int, a: int, b: int, u: int, v: int, q: int)
    requires Combines(ux, uy, a, b, u) && Combines(vx, vy, a, b, v) && v > 0 && q == u / v
    ensures Combines(ux - q * vx, uy - q * vy, a, b, u % v)
  {
    assert (ux - q * vx) * a + (uy - q * vy) * b == (ux * a + uy * b) - q * (vx * a + vy * b);
    assert u % v == u - v * q;
  }

  // -------------------------------------------------------------------------
  // The cycles.  Positions are counted from the start of the first block, which holds m
  // entries; the second holds n.

  /** Where the entry at position p belongs after the exchange. */
  function Target(p: int, m: int, n: int): (q: int)
    requires 0 <= p < m + n && 0 <= m && 0 < n
    ensures 0 <= q < m + n
  {
    if p >= m then p - m else p + n
  }

  /** The k-th position visited from c. */
  ghost function Visit(c: int, k: nat, m: int, n: int): (q: int)
    requires 0 <= c < m + n && 0 <= m && 0 < n
    ensures 0 <= q < m + n
  {
    if k == 0 then c else Target(Visit(c, k - 1, m, n), m, n)
  }

  lemma {:induction false} Unwind(c: int, k: nat, m: int, n: int) returns (w: int)
    requires 0 <= c < m + n && 0 <= m && 0 < n
    ensures Visit(c, k, m, n) == c + k * n - w * (m + n)
  {
    if k == 0 {
      w := 0;
    } else {
      w := Unwind(c, k - 1, m, n);
      Distribute(k - 1, 1, n);
      Distribute(w, 1, m + n);
      if Visit(c, k - 1, m, n) >= m { w := w + 1; }
    }
  }

  /** What the two block lengths, their gcd and the cycle length have in common. */
  ghost predicate Cycles(m: int, n: int, g: int, len: int) {
    && 0 <= m && 0 < n && 0 < g && 0 < len && len * g == m + n
    && IsGcd(g, m, n)
  }

  lemma MultipleIsFar(z: int, d: int)
    requires d > 0
    ensures z >= 1 ==> z * d >= d
    ensures z <= -1 ==> z * d <= -d
    ensures z == 0 ==> z * d == 0
  {
  }

  lemma MultipleInRange(z: int, d: int, x: int)
    requires x == z * d && -d < x < d
    ensures x == 0 && z == 0
  {
    MultipleIsFar(z, d);
  }

  lemma Associate(a: int, b: int, c: int)
    ensures a * (b * c) == (a * b) * c == b * (a * c)
  {
  }

  lemma Distribute(a: int, b: int, c: int)
    ensures (a + b) * c == a * c + b * c
    ensures (a - b) * c == a * c - b * c
    ensures c * (a + b) == c * a + c * b
  {
  }

  /** The gcd as a combination of the range's length and the second block's. */
  lemma Recombine(x: int, y: int, m: int, n: int, g: int)
    requires Combines(x, y, m, n, g)
    ensures g == x * (m + n) + (y - x) * n
  {
    Distribute(m, n, x);
    Distribute(y, x, n);
  }

  /** Two visits to one position are a multiple of the cycle apart. */
  lemma SameVisit(c: int, j: nat, k: nat, m: int, n: int, g: int) returns (z: int)
    requires 0 <= m && 0 < n && IsGcd(g, m, n) && 0 <= c < m + n
    requires Visit(c, j, m, n) == Visit(c, k, m, n)
    ensures (k - j) * g == z * (m + n)
  {
    var x, y :| Combines(x, y, m, n, g);
    Recombine(x, y, m, n, g);
    var wj := Unwind(c, j, m, n);
    var wk := Unwind(c, k, m, n);
    var d, w, t, e := k - j, wk - wj, m + n, y - x;
    Distribute(wk, wj, t);
    Distribute(k, j, n);
    z := x * d + e * w;
    Distribute(x * t, e * n, d);
    Associate(d, x, t);
    Associate(d, e, n);
    Associate(e, w, t);
    Distribute(x * d, e * w, t);
  }

  /** A cycle visits no position twice. */
  lemma VisitsDiffer(c: int, j: nat, k: nat, m: int, n: int, g: int, len: int)
    requires Cycles(m, n, g, len) && 0 <= c < m + n && j < k < len
    ensures Visit(c, j, m, n) != Visit(c, k, m, n)
  {
    if Visit(c, j, m, n) == Visit(c, k, m, n) {
      var z := SameVisit(c, j, k, m, n, g);
      Distribute(len, k - j, g);
      MultipleIsFar(k - j, g);
      MultipleIsFar(len - (k - j), g);
      MultipleIsFar(z, m + n);
    }
  }

  /** After `len` visits a cycle is back where it began. */
  lemma CycleCloses(c: int, m: int, n: int, g: int, len: int)
    requires Cycles(m, n, g, len) && 0 <= c < m + n
    ensures Visit(c, len, m, n) == c
  {
    var n' :| Product(n', g) == n;
    var w := Unwind(c, len, m, n);
    Associate(len, n', g);
    WholeTurnsApart(Visit(c, len, m, n), c, m + n, n', w);
  }

  lemma WholeTurns(q: int, len: int, n': int, g: int)
    ensures (q * len) * (n' * g) == (q * n') * (len * g)
  {
    Associate(q * len, n', g);
    Associate(q, len, n');
    Associate(q * n', len, g);
  }

  /** Stepping k times by n moves s * g, up to whole turns. */
  lemma StepsTo(s: int, x: int, e: int, n: int, n': int, g: int, len: int, k: int, q: int)
    requires n == n' * g && g == x * (len * g) + e * n
    requires k == s * e - q * len
    ensures k * n == s * g - (s * x + q * n') * (len * g)
  {
    var t := len * g;
    WholeTurns(q, len, n', g);
    Distribute(s * e, q * len, n);
    Distribute(x * t, e * n, s);
    Associate(s, x, t);
    Associate(s, e, n);
    Distribute(s * x, q * n', t);
  }

  lemma QuotientRemainder(a: int, d: int) returns (q: int, r: nat)
    requires d > 0
    ensures a == q * d + r && r < d && r == a % d
  {
    q, r := a / d, a % d;
  }

  /** Two places in a range of length t that differ by whole turns are the same place. */
  lemma WholeTurnsApart(a: int, b: int, t: int, u: int, w: int)
    requires 0 <= a < t && 0 <= b < t && a - b == u * t - w * t
    ensures a == b
  {
    Distribute(u, w, t);
    MultipleInRange(u - w, t, a - b);
  }

  lemma Reach(c: int, s: int, m: int, n: int, g: int, len: int) returns (k: nat, u: int)
    requires Cycles(m, n, g, len)
    ensures k < len && k * n == s * g + u * (m + n)
  {
    var x, y :| Combines(x, y, m, n, g);
    Recombine(x, y, m, n, g);
    var n' :| Product(n', g) == n;
    var q, r := QuotientRemainder(s * (y - x), len);
    k, u := r, -(s * x + q * n');
    StepsTo(s, x, y - x, n, n', g, len, k, q);
  }

  /** The cycle from c visits every position that is congruent to c. */
  lemma CycleCovers(c: int, p: int, m: int, n: int, g: int, len: int) returns (k: nat)
    requires Cycles(m, n, g, len) && 0 <= c < m + n && 0 <= p < m + n && p % g == c % g
    ensures k < len && Visit(c, k, m, n) == p
  {
    var pq, pr := QuotientRemainder(p, g);
    var cq, cr := QuotientRemainder(c, g);
    Distribute(pq, cq, g);
    var u;
    k, u := Reach(c, pq - cq, m, n, g, len);
    var w := Unwind(c, k, m, n);
    WholeTurnsApart(Visit(c, k, m, n), p, m + n, u, w);
  }

  /** Positions in one cycle are congruent modulo g. */
  lemma {:induction false} VisitClass(c: int, k: nat, m: int, n: int, g: int, len: int)
    requires Cycles(m, n, g, len) && 0 <= c < m + n
    ensures Visit(c, k, m, n) % g == c % g
  {
    if k > 0 {
      VisitClass(c, k - 1, m, n, g, len);
      TargetClass(Visit(c, k - 1, m, n), m, n, g);
    }
  }

  lemma TargetClass(p: int, m: int, n: int, g: int)
    requires 0 <= m && 0 < n && IsGcd(g, m, n) && 0 <= p < m + n
    ensures Target(p, m, n) % g == p % g
  {
    var m' :| Product(m', g) == m;
    var n' :| Product(n', g) == n;
    if p >= m {
      SameClass(p - m, m', g, m);
    } else {
      SameClass(p, n', g, n);
    }
  }

  lemma SameClass(p: int, q: int, g: int, x: int)
    requires g > 0 && x == q * g
    ensures (p + x) % g == p % g
  {
    var a, r := QuotientRemainder(p + x, g);
    var b, s := QuotientRemainder(p, g);
    Distribute(b, q, g);
    SameRest(a, r, b + q, s, g);
  }

  lemma SameRest(a: int, r: int, b: int, s: int, g: int)
    requires 0 <= r < g && 0 <= s < g && a * g + r == b * g + s
    ensures r == s
  {
    Distribute(b, a, g);
    MultipleInRange(b - a, g, r - s);
  }

  lemma GcdAtMost(m: int, n: int, g: int)
    requires 0 < n && IsGcd(g, m, n)
    ensures 0 < g <= n
  {
    var q :| Product(q, g) == n;
    Distribute(q, 1, g);
    MultipleIsFar(q - 1, g);
    MultipleIsFar(q, g);
  }

  lemma CycleLength(m: int, n: int, g: int)
    requires 0 <= m && 0 < n && IsGcd(g, m, n)
    ensures Cycles(m, n, g, (m + n) / g) && (m + n) / g > 0 && g > 0
  {
    var m' :| Product(m', g) == m;
    var n' :| Product(n', g) == n;
    Distribute(m', n', g);
    var q, r := QuotientRemainder(m + n, g);
    Distribute(m' + n', q, g);
    MultipleInRange(m' + n' - q, g, r);
    MultipleIsFar(q, g);
  }

  // -------------------------------------------------------------------------
  // The exchange

  /** One whole cycle: the positions visited from c, each once, back to c. */
  ghost predicate Orbit(vs: seq<int>, c: int, m: int, n: int)
    requires 0 <= m && 0 < n
  {
    && |vs| > 0 && vs[0] == c
    && (forall k :: 0 <= k < |vs| ==> 0 <= vs[k] < m + n)
    && (forall k :: 0 < k < |vs| ==> vs[k] == Target(vs[k - 1], m, n))
    && Target(vs[|vs| - 1], m, n) == c
    && (forall j, k :: 0 <= j < k < |vs| ==> vs[j] != vs[k])
  }

  /** The positions of vs are those that leave i modulo g. */
  ghost predicate IsClass(vs: seq<int>, i: int, m: int, n: int, g: int)
    requires 0 < g
  {
    forall p :: 0 <= p < m + n ==> (p in vs <==> p % g == i)
  }

  /** The cycle from m + i is an orbit of len positions and consists of a residue class modulo g. */
  lemma OrbitOf(i: nat, m: int, n: int, g: int, len: int) returns (vs: seq<int>)
    requires Cycles(m, n, g, len) && i < g <= n
    ensures |vs| == len && Orbit(vs, m + i, m, n)
    ensures IsClass(vs, i, m, n, g)
  {
    var c := m + i;
    vs := seq(len, k requires 0 <= k => Visit(c, k, m, n));
    CycleCloses(c, m, n, g, len);
    forall j, k | 0 <= j < k < len
      ensures vs[j] != vs[k]
    {
      VisitsDiffer(c, j, k, m, n, g, len);
    }
    ClassOf(m, i, g);
    forall p | 0 <= p < m + n
      ensures p in vs <==> p % g == i
    {
      if p % g == c % g {
        var k := CycleCovers(c, p, m, n, g, len);
        assert vs[k] == p;
      } else {
        forall k | 0 <= k < len
          ensures vs[k] != p
        {
          VisitClass(c, k, m, n, g, len);
        }
      }
    }
  }

  function Min(a: int, b: int): int { if a < b then a else b }

  /** During a cycle: the first j moves are made, the entry still to be placed is parked at the
      cycle's start, and everything off the visited part is as before. */
  ghost predicate Midway<T>(a: seq<T>, was: seq<T>, before: seq<T>, vs: seq<int>, j: nat, m: int, n: int)
    requires 0 <= m && 0 < n && |a| == |was| == |before| == m + n && j <= |vs|
    requires Orbit(vs, if vs == [] then 0 else vs[0], m, n)
  {
    && (forall k :: 0 < k < |vs| && k <= j ==> a[vs[k]] == was[vs[k - 1]])
    && a[vs[0]] == was[vs[Min(j, |vs| - 1)]]
    && (forall p :: 0 <= p < m + n && p !in vs[..Min(j + 1, |vs|)] ==> a[p] == before[p])
  }

  function Swap<T>(a: seq<T>, i: nat, j: nat): (b: seq<T>)
    requires i < |a| && j < |a|
    ensures |b| == |a|
  {
    a[i := a[j]][j := a[i]]
  }

  lemma MidwayStep<T>(a: seq<T>, was: seq<T>, before: seq<T>, vs: seq<int>, c: int, j: nat, m: int, n: int)
    requires 0 <= m && 0 < n && |a| == |was| == |before| == m + n && Orbit(vs, c, m, n) && j < |vs|
    requires Midway(a, was, before, vs, j, m, n)
    requires forall k :: 0 <= k < |vs| ==> before[vs[k]] == was[vs[k]]
    ensures Midway(Swap(a, Target(vs[j], m, n), c), was, before, vs, j + 1, m, n)
  {
    var v := Target(vs[j], m, n);
    if j + 1 == |vs| {
      assert Swap(a, v, c) == a;
    } else {
      assert v == vs[j + 1] && v !in vs[..j + 1];
      assert vs[..j + 2] == vs[..j + 1] + [v];
    }
  }

  /** A finished cycle has moved each of its entries to its target and nothing else. */
  lemma MidwayDone<T>(a: seq<T>, was: seq<T>, before: seq<T>, vs: seq<int>, c: int, m: int, n: int)
    requires 0 <= m && 0 < n && |a| == |was| == |before| == m + n && Orbit(vs, c, m, n)
    requires Midway(a, was, before, vs, |vs|, m, n)
    ensures forall p :: 0 <= p < m + n && p in vs ==> a[Target(p, m, n)] == was[p]
    ensures forall p :: 0 <= p < m + n && p !in vs ==> a[p] == before[p]
  {
    forall p | 0 <= p < m + n && p in vs
      ensures a[Target(p, m, n)] == was[p]
    {
      var k :| 0 <= k < |vs| && vs[k] == p;
      if k + 1 < |vs| {
        assert vs[k + 1] == Target(p, m, n);
      }
    }
    assert vs[..|vs|] == vs;
  }

  /** The state between two cycles: the classes below i are in place, the others untouched. */
  ghost predicate Between<T>(a: seq<T>, was: seq<T>, i: int, m: int, n: int, g: int)
    requires |a| == |was| == m + n && 0 <= m && 0 < n && 0 < g
  {
    && (forall p :: 0 <= p < m + n && p % g < i ==> a[Target(p, m, n)] == was[p])
    && (forall p :: 0 <= p < m + n && p % g >= i ==> a[p] == was[p])
  }

  lemma NextClass<T>(a: seq<T>, was: seq<T>, before: seq<T>, vs: seq<int>, i: nat, m: int, n: int, g: int, len: int)
    requires |a| == |was| == |before| == m + n && Cycles(m, n, g, len) && i < g <= n
    requires Orbit(vs, m + i, m, n) && IsClass(vs, i, m, n, g)
    requires Between(before, was, i, m, n, g)
    requires Midway(a, was, before, vs, |vs|, m, n)
    ensures Between(a, was, i + 1, m, n, g)
  {
    MidwayDone(a, was, before, vs, m + i, m, n);
    forall p | 0 <= p < m + n && p % g < i + 1
      ensures a[Target(p, m, n)] == was[p]
    {
      TargetClass(p, m, n, g);
    }
  }

  lemma ClassOf(m: int, i: nat, g: int)
    requires i < g && Divides(g, m)
    ensures (m + i) % g == i
  {
    var q :| Product(q, g) == m;
    SameClass(i, q, g, m);
    var a, r := QuotientRemainder(i, g);
    MultipleInRange(a, g, i - r);
  }

  lemma Exchanged<T>(a: seq<T>, was: seq<T>, m: int, n: int, g: int)
    requires |a| == |was| == m + n && 0 <= m && 0 < n && 0 < g
    requires Between(a, was, g, m, n, g)
    ensures a == was[m..] + was[..m]
  {
    forall p | 0 <= p < m + n
      ensures a[p] == (was[m..] + was[..m])[p]
    {
      var q := if p < n then p + m else p - n;
      assert Target(q, m, n) == p && q % g < g;
    }
  }

  lemma OrbitStep(vs: seq<int>, c: int, j: nat, m: int, n: int)
    requires 0 <= m && 0 < n && Orbit(vs, c, m, n) && j < |vs|
    ensures 0 <= c < m + n && 0 <= vs[j] < m + n && vs[0] == c
    ensures Target(vs[j], m, n) == if j + 1 < |vs| then vs[j + 1] else c
  {
  }

  lemma MidwayStart<T>(was: seq<T>, before: seq<T>, vs: seq<int>, c: int, i: int, m: int, n: int, g: int)
    requires 0 <= m && 0 < n && 0 < g && |was| == |before| == m + n && Orbit(vs, c, m, n)
    requires Between(before, was, i, m, n, g) && IsClass(vs, i, m, n, g)
    ensures forall k :: 0 <= k < |vs| ==> before[vs[k]] == was[vs[k]]
    ensures Midway(before, was, before, vs, 0, m, n)
  {
    forall k | 0 <= k < |vs|
      ensures before[vs[k]] == was[vs[k]]
    {
      assert vs[k] in vs;
    }
  }

  lemma BetweenStart<T>(was: seq<T>, m: int, n: int, g: int)
    requires |was| == m + n && 0 <= m && 0 < n && 0 < g
    ensures Between(was, was, 0, m, n, g)
  {
    forall p | 0 <= p < m + n
      ensures p % g >= 0
    {
      var q, r := QuotientRemainder(p, g);
    }
  }

  function Whole<T>(head: seq<T>, mid: seq<T>, tail: seq<T>): (s: seq<T>)
    ensures |s| == |head| + |mid| + |tail|
  {
    head + mid + tail
  }

  /** The array with two neighbouring blocks exchanged. */
  function Exchange<T>(s: seq<T>, start: nat, end: nat, optEnd: nat): (r: seq<T>)
    requires start <= end <= optEnd <= |s|
    ensures |r| == |s|
  {
    s[..start] + s[end..optEnd] + s[start..end] + s[optEnd..]
  }

  lemma Parts<T>(s: seq<T>, start: nat, end: nat, optEnd: nat)
    requires start <= end <= optEnd <= |s|
    ensures var head, was, tail, m := s[..start], s[start..optEnd], s[optEnd..], end - start;
            && s == Whole(head, was, tail)
            && Exchange(s, start, end, optEnd) == Whole(head, was[m..] + was[..m], tail)
  {
    var was, m := s[start..optEnd], end - start;
    assert was[m..] == s[end..optEnd] && was[..m] == s[start..end];
  }

  lemma Blocks<T>(h: seq<T>, a: seq<T>, b: seq<T>, t: seq<T>)
    ensures Exchange(h + a + b + t, |h|, |h| + |a|, |h| + |a| + |b|) == h + b + a + t
  {
    var s := h + a + b + t;
    assert s[..|h|] == h && s[|h|..|h| + |a|] == a;
    assert s[|h| + |a|..|h| + |a| + |b|] == b && s[|h| + |a| + |b|..] == t;
  }

  /** Exchanging back restores the array, and no entry is lost or duplicated. */
  lemma ExchangeTwice<T>(s: seq<T>, start: nat, end: nat, optEnd: nat)
    requires start <= end <= optEnd <= |s|
    ensures var r := Exchange(s, start, end, optEnd);
            && Exchange(r, start, start + optEnd - end, optEnd) == s
            && multiset(r) == multiset(s)
  {
    var h, a, b, t := s[..start], s[start..end], s[end..optEnd], s[optEnd..];
    assert s == h + a + b + t;
    Blocks(h, b, a, t);
  }

  lemma Splice<T>(head: seq<T>, cur: seq<T>, tail: seq<T>, i: nat, j: nat)
    requires i < |cur| && j < |cur|
    ensures Swap(Whole(head, cur, tail), |head| + i, |head| + j) == Whole(head, Swap(cur, i, j), tail)
  {
  }

  method SwapEntries<T>(nargv: array<T>, pos: nat, cstart: nat)
    requires pos < nargv.Length && cstart < nargv.Length
    modifies nargv
    ensures nargv[..] == Swap(old(nargv[..]), pos, cstart)
  {
    var swap := nargv[pos];
    nargv[pos] := nargv[cstart];
    nargv[cstart] := swap;
  }

  /** The inner loop: one cycle of exchanges through the position cstart. */
  method ExchangeCycle<T>(end: nat, nnonopts: nat, nopts: nat, cstart: nat, cyclelen: nat, nargv: array<T>,
                          ghost head: seq<T>, ghost before: seq<T>, ghost tail: seq<T>,
                          ghost was: seq<T>, ghost vs: seq<int>) returns (ghost cur: seq<T>)
    requires nargv[..] == Whole(head, before, tail) && |head| == end - nnonopts && 0 < nopts
    requires |before| == |was| == nnonopts + nopts && cyclelen == |vs| > 0
    requires end <= cstart && Orbit(vs, cstart - |head|, nnonopts, nopts)
    requires Midway(before, was, before, vs, 0, nnonopts, nopts)
    requires forall k :: 0 <= k < |vs| ==> before[vs[k]] == was[vs[k]]
    modifies nargv
    ensures |cur| == |was| && nargv[..] == Whole(head, cur, tail)
    ensures Midway(cur, was, before, vs, |vs|, nnonopts, nopts)
  {
    hide Midway, Orbit, Swap, Whole;
    var pos := cstart;
    ghost var c := cstart - |head|;
    cur := before;
    OrbitStep(vs, c, 0, nnonopts, nopts);
    for j := 0 to cyclelen
      invariant |cur| == |was| && nargv[..] == Whole(head, cur, tail)
      invariant pos == |head| + if j < cyclelen then vs[j] else c
      invariant Midway(cur, was, before, vs, j, nnonopts, nopts)
    {
      OrbitStep(vs, c, j, nnonopts, nopts);
      ghost var v := Target(vs[j], nnonopts, nopts);
      if pos >= end {
        pos := pos - nnonopts;
      } else {
        pos := pos + nopts;
      }
      assert pos == |head| + v;
      MidwayStep(cur, was, before, vs, c, j, nnonopts, nopts);
      Splice(head, cur, tail, v, c);
      cur := Swap(cur, v, c);
      SwapEntries(nargv, pos, cstart);
    }
  }

  /** Exchange the block [start, end) with the block [end, optEnd), keeping the order in each. */
  method PermuteArgs<T>(start: nat, end: nat, optEnd: nat, nargv: array<T>)
    requires start <= end < optEnd <= nargv.Length
    modifies nargv
    ensures nargv[..] == Exchange(old(nargv[..]), start, end, optEnd)
  {
    hide Between, Midway, Orbit, Cycles, IsGcd, IsClass, Whole, Target, Exchange;
    ghost var all := nargv[..];
    var nnonopts := end - start;
    var nopts := optEnd - end;
    var ncycle := Gcd(nnonopts, nopts);
    GcdAtMost(nnonopts, nopts, ncycle);
    var cyclelen := (optEnd - start) / ncycle;
    ghost var head, was, tail := all[..start], all[start..optEnd], all[optEnd..];
    ghost var cur := was;
    Parts(all, start, end, optEnd);
    CycleLength(nnonopts, nopts, ncycle);
    BetweenStart(was, nnonopts, nopts, ncycle);
    for i := 0 to ncycle
      invariant |cur| == |was| && nargv[..] == Whole(head, cur, tail)
      invariant Between(cur, was, i, nnonopts, nopts, ncycle)
    {
      var cstart := end + i;
      ghost var before := cur;
      ghost var vs := OrbitOf(i, nnonopts, nopts, ncycle, cyclelen);
      MidwayStart(was, before, vs, nnonopts + i, i, nnonopts, nopts, ncycle);
      cur := ExchangeCycle(end, nnonopts, nopts, cstart, cyclelen, nargv, head, before, tail, was, vs);
      NextClass(cur, was, before, vs, i, nnonopts, nopts, ncycle, cyclelen);
    }
    Exchanged(cur, was, nnonopts, nopts, ncycle);
  }
}

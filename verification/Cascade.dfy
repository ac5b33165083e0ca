/** The CRC of a stream, which `Crc32Get` cascades over the blocks. */
module Cascade {
  import opened Bytes
  import opened Crc32

  /** The CRC of d, cascaded over consecutive pieces of the given sizes. */
  function Cascaded(sizes: seq<nat>, d: seq<byte>, c: word): word {
    if sizes == [] || d == [] then c
    else
      var k := if sizes[0] < |d| then sizes[0] else |d|;
      Cascaded(sizes[1..], d[k..], Crc(d[..k], c))
  }

  function Total(sizes: seq<nat>): nat {
    if sizes == [] then 0 else sizes[0] + Total(sizes[1..])
  }

  /** Blocks behind the data have no influence. */
  lemma {:induction false} CascadeIgnoresSpare(sizes: seq<nat>, more: seq<nat>, d: seq<byte>, c: word)
    requires |d| <= Total(sizes)
    ensures Cascaded(sizes + more, d, c) == Cascaded(sizes, d, c)
  {
    hide Crc;
    if sizes == [] || d == [] {
    } else {
      var k := if sizes[0] < |d| then sizes[0] else |d|;
      assert (sizes + more)[1..] == sizes[1..] + more;
      CascadeIgnoresSpare(sizes[1..], more, d[k..], Crc(d[..k], c));
    }
  }

  /** What the next call is given when `cur` was cascaded since the last fresh start. */
  function Given(cur: seq<byte>): word { if cur == [] then XOR_OUT else Crc(cur) }

  /** How many of the octets cur + d lie before the last fresh start.  The cascade starts afresh at
      a boundary inside the data when the octets since the previous fresh start have the CRC
      0xffffffff; `cur` are those read so far. */
  function FreshStart(sizes: seq<nat>, cur: seq<byte>, d: seq<byte>): nat {
    if sizes == [] || d == [] then 0
    else
      var k := if sizes[0] < |d| then sizes[0] else |d|;
      var cur' := cur + d[..k];
      if d[k..] != [] && Crc(cur') == XOR_OUT then |cur'| + FreshStart(sizes[1..], [], d[k..])
      else FreshStart(sizes[1..], cur', d[k..])
  }

  /** The cascade computes the CRC of what follows the last fresh start.  That is the CRC of all the
      data if and only if the octets before it have the CRC 0. */
  lemma CascadeExactly(sizes: seq<nat>, d: seq<byte>)
    requires d != [] && |d| <= Total(sizes) && (forall i :: 0 <= i < |sizes| ==> sizes[i] > 0)
    ensures var l := FreshStart(sizes, [], d);
            && l < |d| && Cascaded(sizes, d, XOR_OUT) == Crc(d[l..])
            && (Cascaded(sizes, d, XOR_OUT) == Crc(d) <==> Crc(d[..l]) == 0)
  {
    hide Crc, Cascaded, FreshStart;
    var l := FreshStart(sizes, [], d);
    CascadeFromStart(sizes, [], d);
    assert [] + d == d && d == d[..l] + d[l..];
    PrefixVanishes(d[..l], d[l..]);
  }

  lemma {:induction false} CascadeFromStart(sizes: seq<nat>, cur: seq<byte>, d: seq<byte>)
    requires |d| <= Total(sizes) && (forall i :: 0 <= i < |sizes| ==> sizes[i] > 0)
    requires cur + d != [] && (cur != [] && d != [] ==> Crc(cur) != XOR_OUT)
    ensures FreshStart(sizes, cur, d) < |cur + d|
    ensures Cascaded(sizes, d, Given(cur)) == Crc((cur + d)[FreshStart(sizes, cur, d)..])
  {
    hide Crc;
    if d == [] {
      assert cur + d == cur;
    } else {
      var k := if sizes[0] < |d| then sizes[0] else |d|;
      var cur', rest := cur + d[..k], d[k..];
      assert cur + d == cur' + rest;
      OnePiece(cur, d[..k]);
      if rest != [] && Crc(cur') == XOR_OUT {
        CascadeFromStart(sizes[1..], [], rest);
        Behind(cur', rest, FreshStart(sizes[1..], [], rest));
      } else {
        CascadeFromStart(sizes[1..], cur', rest);
      }
    }
  }

  lemma Behind(a: seq<byte>, b: seq<byte>, l: nat)
    ensures [] + b == b && (l <= |b| ==> (a + b)[|a| + l..] == b[l..])
  {
  }

  lemma OnePiece(cur: seq<byte>, piece: seq<byte>)
    requires piece != [] && (cur != [] ==> Crc(cur) != XOR_OUT)
    ensures Crc(piece, Given(cur)) == Crc(cur + piece)
  {
    hide Crc;
    CascadeContinues(cur, piece, XOR_OUT);
    if cur == [] {
      assert cur + piece == piece;
    }
  }

  /** No proper prefix of d that ends where a piece ends has, behind `done`, the CRC 0xffffffff. */
  ghost predicate NoBadBoundary(sizes: seq<nat>, done: seq<byte>, d: seq<byte>) {
    forall k :: 0 < k <= |sizes| && Total(sizes[..k]) < |d| ==> Crc(done + d[..Total(sizes[..k])]) != XOR_OUT
  }

  /** When no block boundary inside the data has the CRC 0xffffffff, the cascade computes the CRC
      of the data as one piece. */
  lemma CascadeIsCrc(sizes: seq<nat>, d: seq<byte>)
    requires |d| <= Total(sizes) && (forall i :: 0 <= i < |sizes| ==> sizes[i] > 0)
    requires NoBadBoundary(sizes, [], d)
    ensures Cascaded(sizes, d, XOR_OUT) == if d == [] then XOR_OUT else Crc(d)
  {
    hide Crc, FreshStart, NoBadBoundary;
    if d != [] {
      NoFreshStart(sizes, [], d);
      CascadeExactly(sizes, d);
      assert d[0..] == d;
    }
  }

  lemma {:induction false} NoFreshStart(sizes: seq<nat>, cur: seq<byte>, d: seq<byte>)
    requires NoBadBoundary(sizes, cur, d)
    ensures FreshStart(sizes, cur, d) == 0
  {
    hide Crc, NoBadBoundary;
    if sizes != [] && d != [] {
      var k := if sizes[0] < |d| then sizes[0] else |d|;
      BoundaryShifts(sizes, cur, d, k);
      NoFreshStart(sizes[1..], cur + d[..k], d[k..]);
    }
  }

  lemma BoundaryShifts(sizes: seq<nat>, done: seq<byte>, d: seq<byte>, k: nat)
    requires sizes != [] && d != [] && k == (if sizes[0] < |d| then sizes[0] else |d|)
    requires NoBadBoundary(sizes, done, d)
    ensures d[k..] != [] ==> Crc(done + d[..k]) != XOR_OUT
    ensures NoBadBoundary(sizes[1..], done + d[..k], d[k..])
  {
    hide Crc;
    assert sizes[..1] == [sizes[0]] && Total([sizes[0]]) == sizes[0];
    forall j | 0 < j <= |sizes[1..]| && Total(sizes[1..][..j]) < |d[k..]|
      ensures Crc(done + d[..k] + d[k..][..Total(sizes[1..][..j])]) != XOR_OUT
    {
      var t := Total(sizes[1..][..j]);
      assert sizes[..j + 1][1..] == sizes[1..][..j];
      assert d[..k] + d[k..][..t] == d[..k + t];
      assert done + d[..k] + d[k..][..t] == done + (d[..k] + d[k..][..t]);
    }
  }

  /** The first piece alone. */
  lemma FirstPiece(a: seq<byte>, b: seq<byte>, sizes: seq<nat>)
    requires sizes != [] && a != []
    ensures sizes[0] == |a| && b != [] ==>
      FreshStart(sizes, [], a + b) == if Crc(a) == XOR_OUT then |a| + FreshStart(sizes[1..], [], b) else FreshStart(sizes[1..], a, b)
    ensures sizes[0] >= |b| ==> FreshStart(sizes, [], b) == 0 && FreshStart(sizes, a, b) == 0
  {
    hide Crc;
    var d := a + b;
    assert d[..|a|] == a && d[|a|..] == b && [] + a == a && b[|b|..] == [];
  }

  /** With two blocks: the CRC of the first must not be 0xffffffff. */
  lemma TwoBlocks(a: seq<byte>, b: seq<byte>, sizes: seq<nat>)
    requires a != [] && b != [] && |sizes| >= 2 && sizes[0] == |a| && sizes[1] >= |b|
    ensures FreshStart(sizes, [], a + b) == if Crc(a) == XOR_OUT then |a| else 0
    ensures Cascaded(sizes, a + b, XOR_OUT) == Crc(a + b) <==> Crc(a) != XOR_OUT
  {
    hide Crc, FreshStart, Cascaded;
    var d, two := a + b, sizes[..2];
    assert d[..|a|] == a && d[..0] == [];
    FirstPiece(a, b, sizes);
    FirstPiece(a, b, two);
    FirstPiece(a, b, sizes[1..]);
    FirstPiece(a, b, two[1..]);
    CascadeExactly(two, d);
    assert two + sizes[2..] == sizes;
    CascadeIgnoresSpare(two, sizes[2..], d, XOR_OUT);
    assert d[0..] == d;
    EmptyCrc();
  }

  /** Any octets can be continued so that the cascade fails at the end of their block. */
  lemma AnyBlockCanFail(p: seq<byte>, b: seq<byte>, sizes: seq<nat>)
    requires b != [] && |sizes| >= 2 && sizes[0] == |p| + 4 && sizes[1] >= |b|
    ensures FreshStart(sizes, [], p + Closing(p) + b) == |p| + 4
    ensures Cascaded(sizes, p + Closing(p) + b, XOR_OUT) != Crc(p + Closing(p) + b)
  {
    hide Crc, Closing, Cascaded, FreshStart;
    ClosingCloses(p);
    TwoBlocks(p + Closing(p), b, sizes);
  }

  /** Two ways to divide the same data lead to the same cascade if and only if the octets between
      the two last fresh starts have the CRC 0. */
  lemma CascadesAgree(sizes: seq<nat>, sizes': seq<nat>, d: seq<byte>)
    requires d != [] && |d| <= Total(sizes) && (forall i :: 0 <= i < |sizes| ==> sizes[i] > 0)
    requires |d| <= Total(sizes') && (forall i :: 0 <= i < |sizes'| ==> sizes'[i] > 0)
    ensures var l, r := FreshStart(sizes, [], d), FreshStart(sizes', [], d);
            && l < |d| && r < |d|
            && (Cascaded(sizes, d, XOR_OUT) == Cascaded(sizes', d, XOR_OUT)
                <==> Crc(if l <= r then d[l..r] else d[r..l]) == 0)
  {
    hide Crc, Cascaded, FreshStart;
    var l, r := FreshStart(sizes, [], d), FreshStart(sizes', [], d);
    CascadeExactly(sizes, d);
    CascadeExactly(sizes', d);
    if l <= r {
      PrefixVanishes(d[l..r], d[r..]);
      assert d[l..] == d[l..r] + d[r..];
    } else {
      PrefixVanishes(d[r..l], d[l..]);
      assert d[r..] == d[r..l] + d[l..];
    }
  }
}

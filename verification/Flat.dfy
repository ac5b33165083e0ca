/** A list of blocks read as one flat sequence, and other facts about sequences. */
module Flat {

  function Min(a: int, b: int): int { if a < b then a else b }

  function Flatten<T>(bs: seq<seq<T>>): seq<T> {
    if bs == [] then [] else Flatten(bs[..|bs| - 1]) + bs[|bs| - 1]
  }

  /** The flat position of the first element of block b. */
  function Offset<T>(bs: seq<seq<T>>, b: nat): nat
    requires b <= |bs|
  {
    |Flatten(bs[..b])|
  }

  /** `s` with the elements from `at` on replaced by `v`. */
  function Overlay<T>(s: seq<T>, at: nat, v: seq<T>): (r: seq<T>)
    requires at + |v| <= |s|
    ensures |r| == |s|
  {
    s[..at] + v + s[at + |v|..]
  }

  lemma OverlayAt<T>(s: seq<T>, at: nat, v: seq<T>)
    requires at + |v| <= |s|
    ensures forall k :: 0 <= k < |s| ==> Overlay(s, at, v)[k] == if at <= k < at + |v| then v[k - at] else s[k]
  {
  }

  lemma OverlayAgain<T>(s: seq<T>, at: nat, v: seq<T>, v': seq<T>)
    requires at + |v| <= |s| && |v'| == |v|
    ensures Overlay(Overlay(s, at, v), at, v') == Overlay(s, at, v')
  {
  }

  lemma OverlayApart<T>(s: seq<T>, at: nat, v: seq<T>, at': nat, v': seq<T>)
    requires at + |v| <= at' && at' + |v'| <= |s|
    ensures Overlay(Overlay(s, at, v), at', v') == Overlay(Overlay(s, at', v'), at, v)
  {
    OverlayAt(s, at, v);
    OverlayAt(s, at', v');
    OverlayAt(Overlay(s, at, v), at', v');
    OverlayAt(Overlay(s, at', v'), at, v);
  }

  lemma {:induction false} FlattenAppends<T>(a: seq<seq<T>>, b: seq<seq<T>>)
    ensures Flatten(a + b) == Flatten(a) + Flatten(b)
  {
    if b == [] {
      assert a + b == a;
    } else {
      var last := |b| - 1;
      assert (a + b)[..|a| + last] == a + b[..last];
      FlattenAppends(a, b[..last]);
    }
  }

  lemma FlattenNone<T>()
    ensures Flatten<T>([]) == []
  {
  }

  lemma FlattenSnoc<T>(bs: seq<seq<T>>, b: nat)
    requires b < |bs|
    ensures Flatten(bs[..b + 1]) == Flatten(bs[..b]) + bs[b]
  {
    assert bs[..b + 1][..b] == bs[..b];
  }

  /** Block b occupies the flat positions from its offset to the next block's. */
  lemma BlockAt<T>(bs: seq<seq<T>>, b: nat)
    requires b < |bs|
    ensures Flatten(bs) == Flatten(bs[..b]) + bs[b] + Flatten(bs[b + 1..])
    ensures Offset(bs, b + 1) == Offset(bs, b) + |bs[b]| <= |Flatten(bs)|
    ensures Flatten(bs)[Offset(bs, b)..Offset(bs, b) + |bs[b]|] == bs[b]
  {
    assert bs == bs[..b + 1] + bs[b + 1..];
    assert bs[..b + 1][..b] == bs[..b];
    FlattenAppends(bs[..b + 1], bs[b + 1..]);
  }

  lemma OverlayMiddle<T>(a: seq<T>, m: seq<T>, c: seq<T>, at: nat, v: seq<T>)
    requires at + |v| <= |m|
    ensures a + Overlay(m, at, v) + c == Overlay(a + m + c, |a| + at, v)
  {
  }

  /** Writing inside one block is writing at the corresponding flat position. */
  lemma OverlayBlock<T>(bs: seq<seq<T>>, b: nat, at: nat, v: seq<T>)
    requires b < |bs| && at + |v| <= |bs[b]|
    ensures var bs' := bs[b := Overlay(bs[b], at, v)];
            && Offset(bs, b) + at + |v| <= |Flatten(bs)|
            && Flatten(bs') == Overlay(Flatten(bs), Offset(bs, b) + at, v)
            && Offset(bs', b) == Offset(bs, b)
  {
    hide Overlay, Flatten;
    var x := Overlay(bs[b], at, v);
    ReplaceBlock(bs, b, x);
    OverlayMiddle(Flatten(bs[..b]), bs[b], Flatten(bs[b + 1..]), at, v);
  }

  lemma ReplaceBlock<T>(bs: seq<seq<T>>, b: nat, x: seq<T>)
    requires b < |bs| && |x| == |bs[b]|
    ensures Flatten(bs) == Flatten(bs[..b]) + bs[b] + Flatten(bs[b + 1..])
    ensures Flatten(bs[b := x]) == Flatten(bs[..b]) + x + Flatten(bs[b + 1..])
    ensures Offset(bs[b := x], b) == Offset(bs, b) && Offset(bs, b) + |x| <= |Flatten(bs)|
  {
    hide Flatten;
    var bs' := bs[b := x];
    assert bs'[..b] == bs[..b] && bs'[b + 1..] == bs[b + 1..];
    BlockAt(bs, b);
    BlockAt(bs', b);
  }

  lemma {:induction false} OffsetMonotone<T>(bs: seq<seq<T>>, b: nat, c: nat)
    requires b <= c <= |bs|
    ensures Offset(bs, b) <= Offset(bs, c) <= |Flatten(bs)|
    decreases |bs| - b
  {
    if b < c {
      BlockAt(bs, b);
      OffsetMonotone(bs, b + 1, c);
    } else if c < |bs| {
      BlockAt(bs, c);
    } else {
      assert bs[..|bs|] == bs;
    }
  }

  lemma OffsetExtends<T>(bs: seq<seq<T>>, more: seq<seq<T>>, b: nat)
    requires b <= |bs|
    ensures Offset(bs + more, b) == Offset(bs, b)
  {
    assert (bs + more)[..b] == bs[..b];
  }

  lemma OffsetEnd<T>(bs: seq<seq<T>>)
    ensures Offset(bs, |bs|) == |Flatten(bs)|
  {
    assert bs[..|bs|] == bs;
  }

  /** The i-th element after x was put in behind k others. */
  function WithAt<T>(s: seq<T>, x: T, k: nat, i: nat): T
    requires k <= |s| && i <= |s|
  {
    if i < k then s[i] else if i == k then x else s[i - 1]
  }

  lemma PutInAt<T>(s: seq<T>, x: T, k: nat)
    requires k <= |s|
    ensures var r := s[..k] + [x] + s[k..];
            |r| == |s| + 1 && forall i :: 0 <= i < |r| ==> r[i] == WithAt(s, x, k, i)
  {
  }
}

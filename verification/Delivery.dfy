/** Every arrival order delivers every message once and whole. */
module Delivery {
  import opened Segment
  import opened BlockStore
  import opened Accum

  const MAX_FRAGMENTS := 0xffff

  // -------------------------------------------------------------------------
  // Runs

  /** The accumulators after a series of arrivals, and the messages delivered on the way. */
  function Run(m: State, ws: seq<Wire>): (State, seq<seq<Wire>>) {
    if ws == [] then (m, [])
    else
      var (m1, d1) := Run(m, ws[..|ws| - 1]);
      var (m2, d2) := Arrive(m1, ws[|ws| - 1]);
      (m2, d1 + d2)
  }

  /** The segments of one message as the accumulator relies on them: numbered from 1 without
      wrap-around, the last one flagged. */
  ghost predicate Numbered(msg: seq<Wire>) {
    && 0 < |msg| <= MAX_FRAGMENTS
    && forall j :: 0 <= j < |msg| ==> FragmentOf(msg[j], Guid(msg[0]), j, |msg|)
  }

  ghost predicate FragmentOf(w: Wire, guid: int, j: nat, n: nat) {
    && Guid(w) == guid
    && (Multipart(w) <==> n > 1)
    && (n > 1 ==> FragNum(w) == j + 1 && (Initial(w) <==> j + 1 == n))
  }

  ghost predicate AllNumbered(msgs: seq<seq<Wire>>) {
    forall i :: 0 <= i < |msgs| ==> Numbered(msgs[i])
  }

  /** An arrival order names segments by message and index, each at most once. */
  ghost predicate Order(msgs: seq<seq<Wire>>, order: seq<(nat, nat)>) {
    && (forall k :: 0 <= k < |order| ==> order[k].0 < |msgs| && order[k].1 < |msgs[order[k].0]|)
    && (forall k, l :: 0 <= k < l < |order| ==> order[k] != order[l])
  }

  function Arrivals(msgs: seq<seq<Wire>>, order: seq<(nat, nat)>): (ws: seq<Wire>)
    requires forall k :: 0 <= k < |order| ==> order[k].0 < |msgs| && order[k].1 < |msgs[order[k].0]|
    ensures |ws| == |order|
  {
    seq(|order|, k requires 0 <= k < |order| => msgs[order[k].0][order[k].1])
  }

  /** Which segments of message i have arrived. */
  function Seen(order: seq<(nat, nat)>, i: nat): set<nat> {
    set p | p in order && p.0 == i :: p.1
  }

  /** Some of its segments have arrived and some have not. */
  predicate Partial(msg: seq<Wire>, s: set<nat>) { 0 < |s| < |msg| }

  /** Messages may share a guid if they take turns: no segment arrives that is to be accumulated
      while another message with its guid has arrived in part. */
  ghost predicate InTurn(msgs: seq<seq<Wire>>, order: seq<(nat, nat)>)
    requires AllNumbered(msgs) && Order(msgs, order)
  {
    forall x, i :: 0 <= x < |order| && 0 <= i < |msgs| ==> Waits(msgs, order[..x], order[x].0, i)
  }

  /** Message i, if it is not k but has its guid, has not begun or is complete. */
  ghost predicate Waits(msgs: seq<seq<Wire>>, before: seq<(nat, nat)>, k: nat, i: nat)
    requires AllNumbered(msgs) && k < |msgs| && i < |msgs|
  {
    i != k && |msgs[k]| > 1 && Guid(msgs[i][0]) == Guid(msgs[k][0]) ==> !Partial(msgs[i], Seen(before, i))
  }

  ghost predicate DistinctGuids(msgs: seq<seq<Wire>>)
    requires AllNumbered(msgs)
  {
    forall i, k :: 0 <= i < k < |msgs| ==> Guid(msgs[i][0]) != Guid(msgs[k][0])
  }

  /** Messages that share no guid need not take turns. */
  lemma DistinctInTurn(msgs: seq<seq<Wire>>, order: seq<(nat, nat)>)
    requires AllNumbered(msgs) && DistinctGuids(msgs) && Order(msgs, order)
    ensures InTurn(msgs, order)
  {
    hide Guid, Numbered;
  }

  // -------------------------------------------------------------------------
  // What an accumulator holds

  /** The segments of msg before k whose index is in s, in order. */
  function Kept(msg: seq<Wire>, s: set<nat>, k: nat): seq<Wire>
    requires k <= |msg|
  {
    if k == 0 then []
    else Kept(msg, s, k - 1) + if k - 1 in s then [msg[k - 1]] else []
  }

  function Held(msg: seq<Wire>, s: set<nat>): Accumulation
    requires |s| < 0x1_0000_0000 && |msg| <= MAX_FRAGMENTS
  {
    Accumulation(if |msg| - 1 in s then |msg| else 0, |s|, Kept(msg, s, |msg|))
  }

  /** The map has exactly the entries of the messages that have arrived in part. */
  ghost predicate Tracks(m: State, msgs: seq<seq<Wire>>, order: seq<(nat, nat)>)
    requires AllNumbered(msgs)
  {
    && (forall i :: 0 <= i < |msgs| ==> Entry(m, msgs[i], Seen(order, i)))
    && (forall g :: g in m ==> exists i :: 0 <= i < |msgs| && Partial(msgs[i], Seen(order, i)) && Guid(msgs[i][0]) == g)
  }

  ghost predicate Entry(m: State, msg: seq<Wire>, s: set<nat>)
    requires Numbered(msg)
  {
    Partial(msg, s) ==> Guid(msg[0]) in m && m[Guid(msg[0])] == Held(msg, s)
  }

  // -------------------------------------------------------------------------
  // Sorted insertion

  lemma {:induction false} KeptFragNums(msg: seq<Wire>, s: set<nat>, k: nat)
    requires Numbered(msg) && |msg| > 1 && k <= |msg|
    ensures forall x :: 0 <= x < |Kept(msg, s, k)| ==> 1 <= FragNum(Kept(msg, s, k)[x]) <= k
  {
    hide FragNum, Guid, Multipart, Initial;
    if k > 0 {
      KeptFragNums(msg, s, k - 1);
      assert FragmentOf(msg[k - 1], Guid(msg[0]), k - 1, |msg|);
    }
  }

  /** The kept segments from index j on. */
  lemma {:induction false} KeptSplits(msg: seq<Wire>, s: set<nat>, j: nat, k: nat) returns (tail: seq<Wire>)
    requires Numbered(msg) && |msg| > 1 && j <= k <= |msg|
    ensures Kept(msg, s, k) == Kept(msg, s, j) + tail
    ensures tail != [] ==> FragNum(tail[0]) > j
    ensures forall t: set<nat> :: (forall x: nat :: j <= x < k ==> (x in t <==> x in s)) ==> Kept(msg, t, k) == Kept(msg, t, j) + tail
  {
    hide FragNum, Guid, Multipart, Initial;
    if j == k {
      tail := [];
    } else {
      var head := KeptSplits(msg, s, j, k - 1);
      var last := if k - 1 in s then [msg[k - 1]] else [];
      tail := head + last;
      assert FragmentOf(msg[k - 1], Guid(msg[0]), k - 1, |msg|);
      forall t: set<nat> | forall x: nat :: j <= x < k ==> (x in t <==> x in s)
        ensures Kept(msg, t, k) == Kept(msg, t, j) + tail
      {
        assert Kept(msg, t, k - 1) == Kept(msg, t, j) + head;
      }
    }
  }

  lemma {:induction false} KeptBelow(msg: seq<Wire>, s: set<nat>, t: set<nat>, k: nat)
    requires k <= |msg| && forall x: nat :: x < k ==> (x in t <==> x in s)
    ensures Kept(msg, s, k) == Kept(msg, t, k)
  {
    if k > 0 {
      KeptBelow(msg, s, t, k - 1);
    }
  }

  /** Inserting a further segment keeps exactly the arrived ones, in order. */
  lemma InsertKeeps(msg: seq<Wire>, s: set<nat>, j: nat)
    requires Numbered(msg) && |msg| > 1 && j < |msg| && j !in s
    ensures Insert(Kept(msg, s, |msg|), msg[j]) == Kept(msg, s + {j}, |msg|)
  {
    hide FragNum, Guid, Multipart, Initial, Insert;
    var n, t := |msg|, s + {j};
    var low := Kept(msg, s, j);
    var tail := KeptSplits(msg, s, j + 1, n);
    KeptBelow(msg, s, t, j);
    KeptFragNums(msg, s, j);
    assert Kept(msg, s, j + 1) == low;
    assert Kept(msg, t, j + 1) == low + [msg[j]];
    assert FragmentOf(msg[j], Guid(msg[0]), j, n);
    var ws := Kept(msg, s, n);
    assert ws[..|low|] == low && ws[|low|..] == tail;
    InsertAt(ws, msg[j], |low|);
  }

  lemma {:induction false} KeptAll(msg: seq<Wire>, s: set<nat>, k: nat)
    requires k <= |msg| && forall x: nat :: x < k ==> x in s
    ensures Kept(msg, s, k) == msg[..k]
  {
    if k > 0 {
      KeptAll(msg, s, k - 1);
    }
  }

  // -------------------------------------------------------------------------
  // Counting

  function Below(n: nat): (s: set<nat>)
    ensures |s| == n
    ensures forall x: nat :: x in s <==> x < n
  {
    if n == 0 then {} else Below(n - 1) + {n - 1}
  }

  /** A set of indices below n has n members only if it has all. */
  lemma FullSet(s: set<nat>, n: nat)
    requires forall x :: x in s ==> x < n
    ensures |s| <= n
    ensures |s| == n ==> s == Below(n)
  {
    SubsetSize(s, Below(n));
  }

  lemma {:induction false} SubsetSize(s: set<nat>, t: set<nat>)
    requires s <= t
    ensures |s| <= |t| && (|s| == |t| ==> s == t)
    decreases s
  {
    if s != {} {
      var x :| x in s;
      SubsetSize(s - {x}, t - {x});
    }
  }

  // -------------------------------------------------------------------------
  // One arrival

  lemma SeenGrows(order: seq<(nat, nat)>, p: (nat, nat), i: nat)
    ensures Seen(order + [p], i) == Seen(order, i) + if p.0 == i then {p.1} else {}
  {
    forall x: nat
      ensures x in Seen(order + [p], i) <==> x in Seen(order, i) || (p.0 == i && x == p.1)
    {
      SeenMember(order + [p], i, x);
      SeenMember(order, i, x);
    }
  }

  lemma SeenMember(order: seq<(nat, nat)>, i: nat, x: nat)
    ensures x in Seen(order, i) <==> (i, x) in order
  {
    if (i, x) in order {
      var p := (i, x);
      assert p in order && p.0 == i && p.1 == x;
    }
  }

  lemma SeenBounds(msgs: seq<seq<Wire>>, order: seq<(nat, nat)>, i: nat)
    requires Order(msgs, order) && i < |msgs|
    ensures forall x :: x in Seen(order, i) ==> x < |msgs[i]|
    ensures |Seen(order, i)| <= |msgs[i]|
  {
    forall x | x in Seen(order, i)
      ensures x < |msgs[i]|
    {
      SeenMember(order, i, x);
    }
    FullSet(Seen(order, i), |msgs[i]|);
  }

  /** Submitting a further segment of a message. */
  lemma SubmittedHolds(msg: seq<Wire>, s: set<nat>, j: nat)
    requires Numbered(msg) && |msg| > 1 && j < |msg| && j !in s
    requires forall x :: x in s ==> x < |msg|
    ensures |s| < |s + {j}| <= |msg|
    ensures Submitted(Held(msg, s), msg[j]) == Held(msg, s + {j})
    ensures Held(msg, s + {j}).Complete() <==> |s + {j}| == |msg|
    ensures |s + {j}| == |msg| ==> Held(msg, s + {j}).wires == msg
  {
    hide FragNum, Guid, Multipart, Initial, Insert, Kept;
    var n, t := |msg|, s + {j};
    FullSet(t, n);
    InsertKeeps(msg, s, j);
    assert FragmentOf(msg[j], Guid(msg[0]), j, n);
    if |t| == n {
      KeptAll(msg, t, n);
      assert msg[..n] == msg;
    }
  }

  lemma {:induction false} HeldNothing(msg: seq<Wire>, k: nat)
    requires k <= |msg|
    ensures Kept(msg, {}, k) == []
  {
    if k > 0 {
      HeldNothing(msg, k - 1);
    }
  }

  lemma NothingHeld(msg: seq<Wire>)
    requires Numbered(msg)
    ensures Held(msg, {}) == EMPTY == SubmittedAll(msg, [])
  {
    HeldNothing(msg, |msg|);
  }

  /** The accumulator that a segment with this guid is submitted to. */
  function AccumFor(m: State, guid: int): Accumulation { if guid in m then m[guid] else EMPTY }

  /** If its turn has come, that is what has arrived of its message. */
  lemma EntryHolds(m: State, msgs: seq<seq<Wire>>, order: seq<(nat, nat)>, k: nat)
    requires AllNumbered(msgs) && Tracks(m, msgs, order) && k < |msgs| && |msgs[k]| > 1
    requires |Seen(order, k)| < |msgs[k]|
    requires forall i :: 0 <= i < |msgs| ==> Waits(msgs, order, k, i)
    ensures AccumFor(m, Guid(msgs[k][0])) == Held(msgs[k], Seen(order, k))
  {
    hide Guid, Kept, Numbered, Seen;
    NoneEmpty(msgs);
    var s := Seen(order, k);
    assert Entry(m, msgs[k], s);
    if s == {} {
      HeldNothing(msgs[k], |msgs[k]|);
      forall i | 0 <= i < |msgs| && Guid(msgs[i][0]) == Guid(msgs[k][0])
        ensures !Partial(msgs[i], Seen(order, i))
      {
        assert Waits(msgs, order, k, i);
      }
    }
  }

  /** What one accumulator holds after some segments of a message were submitted. */
  function SubmittedAll(msg: seq<Wire>, order: seq<nat>): Accumulation
    requires forall k :: 0 <= k < |order| ==> order[k] < |msg|
  {
    if order == [] then EMPTY
    else Submitted(SubmittedAll(msg, order[..|order| - 1]), msg[order[|order| - 1]])
  }

  /** The order does not matter: the accumulator is complete exactly when all segments were
      submitted, and then holds them in order. */
  lemma {:induction false} AnyOrderCompletes(msg: seq<Wire>, order: seq<nat>)
    requires Numbered(msg) && |msg| > 1
    requires forall k :: 0 <= k < |order| ==> order[k] < |msg|
    requires forall k, l :: 0 <= k < l < |order| ==> order[k] != order[l]
    ensures |order| <= |msg| && SubmittedAll(msg, order) == Held(msg, Members(order))
    ensures SubmittedAll(msg, order).Complete() <==> |order| == |msg|
    ensures |order| == |msg| ==> SubmittedAll(msg, order).wires == msg
  {
    hide Numbered, SubmittedAll, Held, Members;
    MembersOf(order, |msg|);
    if order == [] {
      NothingHeld(msg);
    } else {
      var init, last := order[..|order| - 1], order[|order| - 1];
      assert order == init + [last];
      AnyOrderCompletes(msg, init);
      OneMoreMember(init, last);
      OneMoreSubmitted(msg, init, last);
    }
  }

  lemma MembersOf(order: seq<nat>, n: nat)
    requires forall k :: 0 <= k < |order| ==> order[k] < n
    requires forall k, l :: 0 <= k < l < |order| ==> order[k] != order[l]
    ensures (forall x :: x in Members(order) ==> x < n) && |Members(order)| == |order| <= n
    ensures order == [] ==> Members(order) == {}
  {
    FullSet(Members(order), n);
  }

  lemma OneMoreMember(init: seq<nat>, last: nat)
    requires forall k :: 0 <= k < |init| ==> init[k] != last
    ensures last !in Members(init) && Members(init + [last]) == Members(init) + {last}
  {
    assert (init + [last])[..|init|] == init;
  }

  lemma OneMoreSubmitted(msg: seq<Wire>, init: seq<nat>, last: nat)
    requires Numbered(msg) && |msg| > 1 && last < |msg| && last !in Members(init) && |Members(init)| <= |msg|
    requires (forall k :: 0 <= k < |init| ==> init[k] < |msg|) && forall x :: x in Members(init) ==> x < |msg|
    requires SubmittedAll(msg, init) == Held(msg, Members(init))
    ensures var s := Members(init) + {last};
      && |s| <= |msg| && SubmittedAll(msg, init + [last]) == Held(msg, s)
      && (Held(msg, s).Complete() <==> |s| == |msg|) && (|s| == |msg| ==> Held(msg, s).wires == msg)
  {
    hide Numbered, Held, Members, Submitted, Accumulation.Complete;
    assert (init + [last])[..|init|] == init;
    SubmittedHolds(msg, Members(init), last);
  }

  /** The messages that segment p completes, given the segments before it: one or none. */
  function Completes(msgs: seq<seq<Wire>>, order: seq<(nat, nat)>, p: (nat, nat)): seq<nat>
    requires p.0 < |msgs|
  {
    if |Seen(order + [p], p.0)| == |msgs[p.0]| then [p.0] else []
  }

  function Pick(msgs: seq<seq<Wire>>, done: seq<nat>): (r: seq<seq<Wire>>)
    requires forall k :: 0 <= k < |done| ==> done[k] < |msgs|
    ensures |r| == |done|
  {
    seq(|done|, k requires 0 <= k < |done| => msgs[done[k]])
  }

  /** What one arrival does to the entry of its own message, and what it delivers. */
  lemma ArriveOwn(m: State, msg: seq<Wire>, s: set<nat>, j: nat)
    requires Numbered(msg) && j < |msg| && j !in s && forall x :: x in s ==> x < |msg|
    requires |msg| > 1 && |s| < |msg| ==> AccumFor(m, Guid(msg[0])) == Held(msg, s)
    ensures var (m', d) := Arrive(m, msg[j]);
            var g := Guid(msg[0]);
            && |s + {j}| <= |msg| && d == (if |s + {j}| == |msg| then [msg] else [])
            && (if |msg| == 1 then m' == m
                else m' - {g} == m - {g} && (g in m' <==> Partial(msg, s + {j})))
            && Entry(m', msg, s + {j})
  {
    hide Guid, Arrive, Numbered, Held, AccumFor;
    FullSet(s, |msg|);
    FullSet(s + {j}, |msg|);
    assert j in s + {j};
    FragmentGuid(msg, j);
    if |msg| > 1 {
      SubmittedHolds(msg, s, j);
      ArriveMany(m, msg[j]);
    } else {
      assert s == {} && msg == [msg[j]];
      ArriveSingle(m, msg[j]);
    }
  }

  lemma FragmentGuid(msg: seq<Wire>, j: nat)
    requires Numbered(msg) && j < |msg|
    ensures Guid(msg[j]) == Guid(msg[0]) && (Multipart(msg[j]) <==> |msg| > 1)
  {
    hide FragNum, Guid, Multipart, Initial;
    assert FragmentOf(msg[j], Guid(msg[0]), j, |msg|);
  }

  lemma ArriveMany(m: State, w: Wire)
    requires Multipart(w)
    ensures var a, g := Submitted(AccumFor(m, Guid(w)), w), Guid(w);
            var (m', d) := Arrive(m, w);
            && d == (if a.Complete() then [a.wires] else [])
            && m' - {g} == m - {g} && (g in m' <==> !a.Complete()) && (g in m' ==> m'[g] == a)
  {
    hide Guid, Multipart, Submitted, Accumulation.Complete;
    assert Arrive(m, w).0 - {Guid(w)} == m - {Guid(w)};
  }

  lemma ArriveSingle(m: State, w: Wire)
    requires !Multipart(w)
    ensures Arrive(m, w) == (m, [[w]])
  {
    hide Multipart;
  }

  lemma ArriveTracks(m: State, msgs: seq<seq<Wire>>, order: seq<(nat, nat)>, p: (nat, nat))
    requires AllNumbered(msgs) && Order(msgs, order + [p]) && Tracks(m, msgs, order)
    requires p.0 < |msgs| && p.1 < |msgs[p.0]|
    requires forall i :: 0 <= i < |msgs| ==> Waits(msgs, order, p.0, i)
    ensures var (m', d) := Arrive(m, msgs[p.0][p.1]);
            && Tracks(m', msgs, order + [p])
            && d == Pick(msgs, Completes(msgs, order, p))
  {
    hide Guid, Numbered, Arrive, Seen, Held, AccumFor, Partial, Waits;
    NoneEmpty(msgs);
    var (m', d) := Arrive(m, msgs[p.0][p.1]);
    var msg, g := msgs[p.0], Guid(msgs[p.0][0]);
    assert forall k :: 0 <= k < |order| ==> (order + [p])[k] == order[k];
    assert (order + [p])[|order|] == p;
    SeenBounds(msgs, order, p.0);
    SeenMember(order, p.0, p.1);
    SeenGrows(order, p, p.0);
    if |msg| > 1 && |Seen(order, p.0)| < |msg| {
      EntryHolds(m, msgs, order, p.0);
    }
    ArriveOwn(m, msg, Seen(order, p.0), p.1);
    forall i | 0 <= i < |msgs|
      ensures Entry(m', msgs[i], Seen(order + [p], i))
      ensures i != p.0 ==> Seen(order + [p], i) == Seen(order, i)
    {
      SeenGrows(order, p, i);
      if i != p.0 {
        OtherEntry(m, m', msgs, order, p.0, i);
      }
    }
    forall h | h in m'
      ensures exists i :: 0 <= i < |msgs| && Partial(msgs[i], Seen(order + [p], i)) && Guid(msgs[i][0]) == h
    {
      if h == g && |msg| > 1 {
        assert Partial(msgs[p.0], Seen(order + [p], p.0));
      } else {
        OtherGuid(m, m', msgs, order, p, h);
      }
    }
  }

  /** The entries of the other messages stay. */
  lemma OtherEntry(m: State, m': State, msgs: seq<seq<Wire>>, order: seq<(nat, nat)>, k: nat, i: nat)
    requires AllNumbered(msgs) && k < |msgs| && i < |msgs| && i != k && |msgs[k]| > 0
    requires Entry(m, msgs[i], Seen(order, i)) && Waits(msgs, order, k, i)
    requires if |msgs[k]| == 1 then m' == m else m' - {Guid(msgs[k][0])} == m - {Guid(msgs[k][0])}
    ensures Entry(m', msgs[i], Seen(order, i))
  {
    hide Guid, Numbered, Seen, Held;
    NoneEmpty(msgs);
    if |msgs[k]| > 1 && Guid(msgs[i][0]) != Guid(msgs[k][0]) {
      Elsewhere(m, m', Guid(msgs[k][0]), Guid(msgs[i][0]));
    }
  }

  /** An entry that is not the arriving segment's belongs to another message. */
  lemma OtherGuid(m: State, m': State, msgs: seq<seq<Wire>>, order: seq<(nat, nat)>, p: (nat, nat), h: int)
    requires AllNumbered(msgs) && Tracks(m, msgs, order) && p.0 < |msgs| && |msgs[p.0]| > 0
    requires forall i :: 0 <= i < |msgs| && i != p.0 ==> Seen(order + [p], i) == Seen(order, i)
    requires |Seen(order, p.0)| <= |msgs[p.0]|
    requires if |msgs[p.0]| == 1 then m' == m else m' - {Guid(msgs[p.0][0])} == m - {Guid(msgs[p.0][0])} && h != Guid(msgs[p.0][0])
    requires h in m'
    ensures exists i :: 0 <= i < |msgs| && Partial(msgs[i], Seen(order + [p], i)) && Guid(msgs[i][0]) == h
  {
    hide Guid, Numbered, Seen, Held;
    if |msgs[p.0]| > 1 {
      Elsewhere(m, m', Guid(msgs[p.0][0]), h);
    }
    assert h in m;
    var i :| 0 <= i < |msgs| && Partial(msgs[i], Seen(order, i)) && Guid(msgs[i][0]) == h;
    assert i != p.0;
  }

  lemma NoneEmpty(msgs: seq<seq<Wire>>)
    requires AllNumbered(msgs)
    ensures forall i :: 0 <= i < |msgs| ==> |msgs[i]| > 0
  {
  }

  lemma Elsewhere(m: State, m': State, g: int, h: int)
    requires m' - {g} == m - {g} && g != h
    ensures (h in m' <==> h in m) && (h in m ==> m'[h] == m[h])
  {
    assert (h in m' - {g} <==> h in m') && (h in m - {g} <==> h in m);
    if h in m {
      assert (m' - {g})[h] == m'[h] && (m - {g})[h] == m[h];
    }
  }

  // -------------------------------------------------------------------------
  // Every run

  /** The messages in the order in which their last segments arrive. */
  function Completed(msgs: seq<seq<Wire>>, order: seq<(nat, nat)>): (done: seq<nat>)
    requires forall k :: 0 <= k < |order| ==> order[k].0 < |msgs|
    ensures forall k :: 0 <= k < |done| ==> done[k] < |msgs|
  {
    if order == [] then []
    else
      var last := |order| - 1;
      Completed(msgs, order[..last]) + Completes(msgs, order[..last], order[last])
  }

  /** Whatever the arrival order, each message is delivered when its last segment arrives, with
      all its segments in order, and nothing else is delivered; what is left in the map are the
      incomplete messages. */
  lemma {:induction false} EveryOrderDelivers(msgs: seq<seq<Wire>>, order: seq<(nat, nat)>)
    requires AllNumbered(msgs) && Order(msgs, order) && InTurn(msgs, order)
    ensures var (m, d) := Run(map[], Arrivals(msgs, order));
            Tracks(m, msgs, order) && d == Pick(msgs, Completed(msgs, order))
  {
    hide Run, Arrive, Tracks, Numbered, Guid, Seen, Pick, InTurn, Waits;
    RunNothing(map[]);
    if order == [] {
      NothingTracked(msgs);
    } else {
      var last := |order| - 1;
      var before, p := order[..last], order[last];
      assert before + [p] == order;
      OneMoreArrival(msgs, before, p);
      EveryOrderDelivers(msgs, before);
      var ws := Arrivals(msgs, before);
      RunStep(map[], ws, msgs[p.0][p.1]);
      ArriveTracks(Run(map[], ws).0, msgs, before, p);
      PickAppends(msgs, Completed(msgs, before), Completes(msgs, before, p));
    }
  }

  lemma RunStep(m: State, ws: seq<Wire>, w: Wire)
    ensures Run(m, ws + [w]) == (Arrive(Run(m, ws).0, w).0, Run(m, ws).1 + Arrive(Run(m, ws).0, w).1)
  {
    hide Arrive;
    assert (ws + [w])[..|ws|] == ws;
  }

  lemma RunNothing(m: State)
    ensures Run(m, []) == (m, [])
  {
  }

  lemma PickAppends(msgs: seq<seq<Wire>>, a: seq<nat>, b: seq<nat>)
    requires (forall k :: 0 <= k < |a| ==> a[k] < |msgs|) && (forall k :: 0 <= k < |b| ==> b[k] < |msgs|)
    ensures Pick(msgs, a + b) == Pick(msgs, a) + Pick(msgs, b)
  {
  }

  lemma OneMoreArrival(msgs: seq<seq<Wire>>, before: seq<(nat, nat)>, p: (nat, nat))
    requires AllNumbered(msgs) && Order(msgs, before + [p]) && InTurn(msgs, before + [p])
    ensures Order(msgs, before) && InTurn(msgs, before)
    ensures p.0 < |msgs| && p.1 < |msgs[p.0]| && forall i :: 0 <= i < |msgs| ==> Waits(msgs, before, p.0, i)
    ensures Arrivals(msgs, before + [p]) == Arrivals(msgs, before) + [msgs[p.0][p.1]]
  {
    hide Numbered, Waits;
    var order := before + [p];
    assert order[|before|] == p && order[..|before|] == before;
    assert forall x :: 0 <= x < |before| ==> before[x] == order[x] && before[..x] == order[..x];
  }

  lemma NothingTracked(msgs: seq<seq<Wire>>)
    requires AllNumbered(msgs)
    ensures Tracks(map[], msgs, [])
  {
    hide Guid;
    forall i | 0 <= i < |msgs|
      ensures Seen([], i) == {}
    {
    }
  }

  /** A message is delivered at most once, and it is delivered exactly if all its segments
      arrived. */
  lemma {:induction false} DeliveredOnce(msgs: seq<seq<Wire>>, order: seq<(nat, nat)>)
    requires AllNumbered(msgs) && Order(msgs, order)
    ensures var done := Completed(msgs, order);
            && (forall k, l :: 0 <= k < l < |done| ==> done[k] != done[l])
            && (forall i :: 0 <= i < |msgs| ==> (i in done <==> |Seen(order, i)| == |msgs[i]|))
  {
    hide Numbered, Guid, Seen;
    NoneEmpty(msgs);
    if order == [] {
      NoneSeen();
    } else {
      var last := |order| - 1;
      var before, p := order[..last], order[last];
      assert before + [p] == order;
      DeliveredOnce(msgs, before);
      var done := Completed(msgs, before);
      assert Completed(msgs, order) == done + Completes(msgs, before, p);
      forall i | 0 <= i < |msgs|
        ensures i in Completed(msgs, order) <==> |Seen(order, i)| == |msgs[i]|
        ensures i in done ==> i !in Completes(msgs, before, p)
      {
        Progress(msgs, before, p, i);
      }
    }
  }

  lemma NoneSeen()
    ensures forall i :: Seen([], i) == {}
  {
  }

  /** One arrival brings its own message nearer to completion and no other. */
  lemma Progress(msgs: seq<seq<Wire>>, before: seq<(nat, nat)>, p: (nat, nat), i: nat)
    requires Order(msgs, before + [p]) && i < |msgs| && p.0 < |msgs|
    ensures |Seen(before + [p], i)| == |Seen(before, i)| + (if i == p.0 then 1 else 0)
    ensures |Seen(before + [p], i)| <= |msgs[i]|
    ensures i in Completes(msgs, before, p) <==> i == p.0 && |Seen(before + [p], i)| == |msgs[i]|
  {
    hide Seen;
    assert forall k :: 0 <= k < |before| ==> (before + [p])[k] == before[k];
    assert (before + [p])[|before|] == p;
    SeenGrows(before, p, i);
    SeenMember(before, i, p.1);
    SeenBounds(msgs, before + [p], i);
  }

  /** When every segment arrives once, in any order, the accumulators end empty and the delivered
      messages are the sent ones, each exactly once. */
  lemma EveryMessageOnce(msgs: seq<seq<Wire>>, order: seq<(nat, nat)>)
    requires AllNumbered(msgs) && Order(msgs, order) && InTurn(msgs, order)
    requires forall i, j :: 0 <= i < |msgs| && 0 <= j < |msgs[i]| ==> (i, j) in order
    ensures var (m, d) := Run(map[], Arrivals(msgs, order));
            && m == map[]
            && d == Pick(msgs, Completed(msgs, order))
            && |Completed(msgs, order)| == |msgs|
            && forall i :: 0 <= i < |msgs| ==> i in Completed(msgs, order)
  {
    hide Numbered, Guid, Run, Completed;
    NoneEmpty(msgs);
    var (m, d) := Run(map[], Arrivals(msgs, order));
    var done := Completed(msgs, order);
    EveryOrderDelivers(msgs, order);
    DeliveredOnce(msgs, order);
    forall i | 0 <= i < |msgs|
      ensures |Seen(order, i)| == |msgs[i]|
    {
      AllSeen(msgs, order, i);
    }
    assert forall g :: g !in m;
    DistinctIndices(done, |msgs|);
  }

  lemma AllSeen(msgs: seq<seq<Wire>>, order: seq<(nat, nat)>, i: nat)
    requires Order(msgs, order) && i < |msgs|
    requires forall j :: 0 <= j < |msgs[i]| ==> (i, j) in order
    ensures |Seen(order, i)| == |msgs[i]|
  {
    hide Seen;
    forall x: nat
      ensures x in Seen(order, i) <==> x in Below(|msgs[i]|)
    {
      SeenMember(order, i, x);
    }
    assert Seen(order, i) == Below(|msgs[i]|);
  }

  /** Distinct indices below n, all of them: there are n. */
  lemma DistinctIndices(done: seq<nat>, n: nat)
    requires forall k, l :: 0 <= k < l < |done| ==> done[k] != done[l]
    requires forall i: nat :: i in done <==> i < n
    ensures |done| == n
  {
    assert Members(done) == Below(n);
  }

  function Members(done: seq<nat>): (s: set<nat>)
    ensures forall x :: x in s <==> x in done
    ensures (forall k, l :: 0 <= k < l < |done| ==> done[k] != done[l]) ==> |s| == |done|
  {
    if done == [] then {}
    else
      var init := done[..|done| - 1];
      assert done == init + [done[|done| - 1]];
      Members(init) + {done[|done| - 1]}
  }

  // -------------------------------------------------------------------------
  // Taking turns is needed

  /** No two segments have the same contents. */
  ghost predicate AllDistinct(msgs: seq<seq<Wire>>) {
    forall i, j, k, l :: 0 <= i < |msgs| && 0 <= j < |msgs[i]| && 0 <= k < |msgs| && 0 <= l < |msgs[k]| && msgs[i][j] == msgs[k][l]
      ==> i == k && j == l
  }

  /** Messages that share a guid differ in every segment. */
  ghost predicate DifferThroughout(msgs: seq<seq<Wire>>)
    requires AllNumbered(msgs)
  {
    forall i, k, j :: 0 <= i < k < |msgs| && 0 <= j < |msgs[i]| && j < |msgs[k]| && Guid(msgs[i][0]) == Guid(msgs[k][0])
      ==> msgs[i][j] != msgs[k][j]
  }

  lemma DifferentSegments(msgs: seq<seq<Wire>>)
    requires AllNumbered(msgs)
    ensures DifferThroughout(msgs) <==> AllDistinct(msgs)
  {
    hide Guid, Numbered, Multipart, FragNum, Initial;
    NoneEmpty(msgs);
    if DifferThroughout(msgs) {
      forall i, j, k, l | 0 <= i < |msgs| && 0 <= j < |msgs[i]| && 0 <= k < |msgs| && 0 <= l < |msgs[k]| && msgs[i][j] == msgs[k][l]
        ensures i == k && j == l
      {
        SegmentPlace(msgs[i], j);
        SegmentPlace(msgs[k], l);
        assert j == l && Guid(msgs[i][0]) == Guid(msgs[k][0]);
      }
    }
  }

  /** A segment tells its guid and, in a longer message, its place. */
  lemma SegmentPlace(msg: seq<Wire>, j: nat)
    requires Numbered(msg) && j < |msg|
    ensures Guid(msg[j]) == Guid(msg[0]) && (Multipart(msg[j]) <==> |msg| > 1)
    ensures j == if Multipart(msg[j]) then FragNum(msg[j]) - 1 else 0
  {
    hide FragNum, Guid, Multipart, Initial;
    assert FragmentOf(msg[j], Guid(msg[0]), j, |msg|);
  }

  /** Whatever holds u holds w. */
  ghost predicate Joined(ws: seq<Wire>, u: Wire, w: Wire) { u in ws ==> w in ws }

  ghost predicate AllJoined(m: State, u: Wire, w: Wire) {
    forall g :: g in m ==> Joined(m[g].wires, u, w)
  }

  lemma {:induction false} InsertMembers(ws: seq<Wire>, v: Wire)
    ensures forall x :: x in Insert(ws, v) <==> x == v || x in ws
  {
    hide FragNum;
    if ws != [] {
      InsertMembers(ws[1..], v);
      assert ws == [ws[0]] + ws[1..];
    }
  }

  /** An arrival other than u's keeps that. */
  lemma ArriveJoined(m: State, u: Wire, w: Wire, v: Wire)
    requires AllJoined(m, u, w) && v != u
    ensures var (m', d) := Arrive(m, v);
            AllJoined(m', u, w) && forall k :: 0 <= k < |d| ==> Joined(d[k], u, w)
  {
    hide Guid, Multipart, Initial, FragNum, Insert;
    if Multipart(v) {
      InsertMembers(AccumFor(m, Guid(v)).wires, v);
    }
  }

  lemma {:induction false} RunJoined(m: State, u: Wire, w: Wire, ws: seq<Wire>)
    requires AllJoined(m, u, w) && u !in ws
    ensures var (m', d) := Run(m, ws);
            AllJoined(m', u, w) && forall k :: 0 <= k < |d| ==> Joined(d[k], u, w)
  {
    hide Arrive, Joined, AllJoined;
    if ws != [] {
      var last := |ws| - 1;
      RunJoined(m, u, w, ws[..last]);
      ArriveJoined(Run(m, ws[..last]).0, u, w, ws[last]);
    }
  }

  lemma {:induction false} RunAppends(m: State, a: seq<Wire>, b: seq<Wire>)
    ensures Run(m, a + b) == (Run(Run(m, a).0, b).0, Run(m, a).1 + Run(Run(m, a).0, b).1)
  {
    hide Arrive;
    if b == [] {
      assert a + b == a && Run(m, a).1 + [] == Run(m, a).1;
    } else {
      var last := |b| - 1;
      RunAppends(m, a, b[..last]);
      assert (a + b)[..|a| + last] == a + b[..last];
      var d := Arrive(Run(Run(m, a).0, b[..last]).0, b[last]).1;
      assert Run(m, a).1 + Run(Run(m, a).0, b[..last]).1 + d == Run(m, a).1 + (Run(Run(m, a).0, b[..last]).1 + d);
    }
  }

  /** The kept segments are those that have arrived. */
  lemma {:induction false} KeptMembers(msg: seq<Wire>, s: set<nat>, k: nat)
    requires k <= |msg|
    ensures forall j :: 0 <= j < k && j in s ==> msg[j] in Kept(msg, s, k)
    ensures forall x :: x in Kept(msg, s, k) ==> x in msg
  {
    if k > 0 {
      KeptMembers(msg, s, k - 1);
    }
  }

  /** A segment w that arrives out of turn joins the segments of message i: from then on a list that
      holds the arrived segment u of message i holds w. */
  lemma OutOfTurnJoins(msgs: seq<seq<Wire>>, before: seq<(nat, nat)>, p: (nat, nat), i: nat, j: nat)
    requires AllNumbered(msgs) && AllDistinct(msgs) && Order(msgs, before) && InTurn(msgs, before)
    requires p.0 < |msgs| && p.1 < |msgs[p.0]| && i < |msgs| && !Waits(msgs, before, p.0, i)
    requires (i, j) in before
    ensures |msgs[i]| > j
    ensures var (m, d) := Arrive(Run(map[], Arrivals(msgs, before)).0, msgs[p.0][p.1]);
            var u, w := msgs[i][j], msgs[p.0][p.1];
            AllJoined(m, u, w) && forall k :: 0 <= k < |d| ==> Joined(d[k], u, w)
  {
    hide Guid, Numbered, Arrive, Seen, Held, AccumFor, FragNum, Multipart;
    var m := Run(map[], Arrivals(msgs, before)).0;
    EveryOrderDelivers(msgs, before);
    SeenMember(before, i, j);
    SeenBounds(msgs, before, i);
    NoneEmpty(msgs);
    FragmentGuid(msgs[p.0], p.1);
    var u, w, g := msgs[i][j], msgs[p.0][p.1], Guid(msgs[i][0]);
    forall h | h in m && h != g
      ensures u !in m[h].wires
    {
      ElsewhereNot(msgs, before, m, i, j, h);
    }
    JoinedByArrival(m, u, w, g);
  }

  lemma ElsewhereNot(msgs: seq<seq<Wire>>, before: seq<(nat, nat)>, m: State, i: nat, j: nat, h: int)
    requires AllNumbered(msgs) && AllDistinct(msgs) && Order(msgs, before) && Tracks(m, msgs, before)
    requires i < |msgs| && j < |msgs[i]| && h in m && h != Guid(msgs[i][0])
    ensures msgs[i][j] !in m[h].wires
  {
    hide Guid, Numbered, Seen, Kept;
    NoneEmpty(msgs);
    var k :| 0 <= k < |msgs| && Partial(msgs[k], Seen(before, k)) && Guid(msgs[k][0]) == h;
    SeenBounds(msgs, before, k);
    assert Entry(m, msgs[k], Seen(before, k));
    KeptMembers(msgs[k], Seen(before, k), |msgs[k]|);
  }

  lemma JoinedByArrival(m: State, u: Wire, w: Wire, g: int)
    requires Multipart(w) && Guid(w) == g && forall h :: h in m && h != g ==> u !in m[h].wires
    ensures var (m', d) := Arrive(m, w);
            AllJoined(m', u, w) && forall k :: 0 <= k < |d| ==> Joined(d[k], u, w)
  {
    hide Guid, Multipart, Initial, FragNum, Insert;
    InsertMembers(AccumFor(m, g).wires, w);
  }

  /** Every message is delivered whole if and only if messages that share a guid take turns.  (Equal
      segments could stand in for each other.) */
  lemma WholeExactlyInTurn(msgs: seq<seq<Wire>>, order: seq<(nat, nat)>)
    requires AllNumbered(msgs) && DifferThroughout(msgs) && Order(msgs, order)
    requires forall i, j :: 0 <= i < |msgs| && 0 <= j < |msgs[i]| ==> (i, j) in order
    ensures (forall i :: 0 <= i < |msgs| ==> msgs[i] in Run(map[], Arrivals(msgs, order)).1) <==> InTurn(msgs, order)
  {
    hide Run, Waits, Numbered, AllDistinct, DifferThroughout, Completed;
    DifferentSegments(msgs);
    if InTurn(msgs, order) {
      EveryMessageOnce(msgs, order);
      var done := Completed(msgs, order);
      forall i | 0 <= i < |msgs|
        ensures msgs[i] in Pick(msgs, done)
      {
        assert i in done;
        var k :| 0 <= k < |done| && done[k] == i;
        assert Pick(msgs, done)[k] == msgs[i];
      }
    } else {
      var x := FirstOutOfTurn(msgs, order);
      var i :| 0 <= i < |msgs| && !Waits(msgs, order[..x], order[x].0, i);
      NeverWhole(msgs, order, x, i);
    }
  }

  lemma FirstOutOfTurn(msgs: seq<seq<Wire>>, order: seq<(nat, nat)>) returns (x: nat)
    requires AllNumbered(msgs) && Order(msgs, order) && !InTurn(msgs, order)
    ensures x < |order| && order[x].0 < |msgs| && Order(msgs, order[..x]) && InTurn(msgs, order[..x])
    ensures exists i :: 0 <= i < |msgs| && !Waits(msgs, order[..x], order[x].0, i)
  {
    hide Waits, Numbered;
    x := 0;
    while forall i :: 0 <= i < |msgs| ==> Waits(msgs, order[..x], order[x].0, i)
      invariant x < |order| && forall y, i :: 0 <= y < x && 0 <= i < |msgs| ==> Waits(msgs, order[..y], order[y].0, i)
      decreases |order| - x
    {
      x := x + 1;
    }
    assert forall y :: 0 <= y < x ==> order[..x][y] == order[y] && order[..x][..y] == order[..y];
  }

  /** A message of which a segment has arrived and another one has not is not delivered whole once
      a segment arrives out of turn. */
  lemma NeverWhole(msgs: seq<seq<Wire>>, order: seq<(nat, nat)>, x: nat, i: nat)
    requires AllNumbered(msgs) && AllDistinct(msgs) && Order(msgs, order) && x < |order| && i < |msgs|
    requires order[x].0 < |msgs| && Order(msgs, order[..x]) && InTurn(msgs, order[..x])
    requires !Waits(msgs, order[..x], order[x].0, i)
    ensures msgs[i] !in Run(map[], Arrivals(msgs, order)).1
  {
    hide Run, Arrive, Guid, Numbered, Seen, Tracks, Completed;
    var before, p := order[..x], order[x];
    var j := SomeSeen(msgs, before, i);
    var u, w := msgs[i][j], msgs[p.0][p.1];
    var ws, head := Arrivals(msgs, order), Arrivals(msgs, before);
    OutOfTurnJoins(msgs, before, p, i, j);
    assert head == ws[..x] && ws[x] == w;
    NotAgain(msgs, order, x, i, j);
    var m := Arrive(Run(map[], head).0, w).0;
    RunJoined(m, u, w, ws[x + 1..]);
    RunSplits(ws, x);
    EveryOrderDelivers(msgs, before);
    NotYetWhole(msgs, before, i);
    WNotIn(msgs, p, i);
    assert u in msgs[i];
  }

  lemma SomeSeen(msgs: seq<seq<Wire>>, before: seq<(nat, nat)>, i: nat) returns (j: nat)
    requires Order(msgs, before) && i < |msgs| && Seen(before, i) != {}
    ensures (i, j) in before && j < |msgs[i]|
  {
    j :| j in Seen(before, i);
    SeenMember(before, i, j);
    SeenBounds(msgs, before, i);
  }

  lemma NotAgain(msgs: seq<seq<Wire>>, order: seq<(nat, nat)>, x: nat, i: nat, j: nat)
    requires AllDistinct(msgs) && Order(msgs, order) && x < |order| && (i, j) in order[..x]
    ensures i < |msgs| && j < |msgs[i]| && msgs[i][j] !in Arrivals(msgs, order)[x + 1..]
  {
    var y :| 0 <= y < x && order[..x][y] == (i, j);
    assert order[y] == (i, j);
    var ws := Arrivals(msgs, order);
    forall z | x < z < |order|
      ensures ws[z] != msgs[i][j]
    {
      assert order[y] != order[z];
    }
  }

  lemma RunSplits(ws: seq<Wire>, x: nat)
    requires x < |ws|
    ensures var (m1, d1) := Run(map[], ws[..x]);
            var (m2, d2) := Arrive(m1, ws[x]);
            Run(map[], ws).1 == d1 + d2 + Run(m2, ws[x + 1..]).1
  {
    hide Run, Arrive;
    var head, w, tail := ws[..x], ws[x], ws[x + 1..];
    ThreeParts(ws, x);
    RunStep(map[], head, w);
    RunAppends(map[], head + [w], tail);
  }

  lemma ThreeParts(ws: seq<Wire>, x: nat)
    requires x < |ws|
    ensures ws[..x] + [ws[x]] + ws[x + 1..] == ws
  {
  }

  /** A message that has arrived in part has not been delivered. */
  lemma NotYetWhole(msgs: seq<seq<Wire>>, before: seq<(nat, nat)>, i: nat)
    requires AllNumbered(msgs) && AllDistinct(msgs) && Order(msgs, before) && i < |msgs| && Partial(msgs[i], Seen(before, i))
    ensures msgs[i] !in Pick(msgs, Completed(msgs, before))
  {
    hide Numbered, Seen;
    NoneEmpty(msgs);
    var done := Completed(msgs, before);
    DeliveredOnce(msgs, before);
    forall k | 0 <= k < |done|
      ensures Pick(msgs, done)[k] != msgs[i]
    {
      assert done[k] in done;
      DifferentMessages(msgs, done[k], i);
    }
  }

  lemma DifferentMessages(msgs: seq<seq<Wire>>, i: nat, k: nat)
    requires AllDistinct(msgs) && i < |msgs| && k < |msgs| && i != k && |msgs[i]| > 0
    ensures msgs[i] != msgs[k]
  {
    if |msgs[k]| > 0 {
      assert msgs[i][0] != msgs[k][0];
    }
  }

  lemma WNotIn(msgs: seq<seq<Wire>>, p: (nat, nat), i: nat)
    requires AllDistinct(msgs) && p.0 < |msgs| && p.1 < |msgs[p.0]| && i < |msgs| && i != p.0
    ensures msgs[p.0][p.1] !in msgs[i]
  {
  }

  /** The smallest instance: two messages of two segments each that share a guid and overlap are
      both lost, even if their contents are the same. */
  lemma OverlapLoses(a: seq<Wire>, b: seq<Wire>)
    requires Numbered(a) && Numbered(b) && |a| == |b| == 2 && Guid(a[0]) == Guid(b[0])
    ensures Run(map[], [a[0], b[0], a[1], b[1]]).1 == []
    ensures var order := [(0, 0), (1, 0), (0, 1), (1, 1)];
            AllNumbered([a, b]) && Order([a, b], order) && !InTurn([a, b], order)
            && Arrivals([a, b], order) == [a[0], b[0], a[1], b[1]]
  {
    hide Run, Arrive, Guid, FragNum, Multipart, Initial, AccumFor, Seen, InTurn, Order;
    OverlapsThere(a, b);
    var g := Guid(a[0]);
    assert FragmentOf(a[0], g, 0, 2) && FragmentOf(a[1], g, 1, 2) && FragmentOf(b[0], g, 0, 2) && FragmentOf(b[1], g, 1, 2);
    RunNothing(map[]);
    NothingAccumulated(g);
    var m1 := Piled(map[], [], a[0]);
    assert [] + [a[0]] == [a[0]];
    var m2 := Piled(m1, [a[0]], b[0]);
    assert [a[0]] + [b[0]] == [a[0], b[0]];
    var m3 := Piled(m2, [a[0], b[0]], a[1]);
    assert [a[0], b[0]] + [a[1]] == [a[0], b[0], a[1]];
    var m4 := Piled(m3, [a[0], b[0], a[1]], b[1]);
    assert [a[0], b[0], a[1]] + [b[1]] == [a[0], b[0], a[1], b[1]];
  }

  lemma OverlapsThere(a: seq<Wire>, b: seq<Wire>)
    requires Numbered(a) && Numbered(b) && |a| == |b| == 2 && Guid(a[0]) == Guid(b[0])
    ensures var order := [(0, 0), (1, 0), (0, 1), (1, 1)];
            AllNumbered([a, b]) && Order([a, b], order) && !InTurn([a, b], order)
            && Arrivals([a, b], order) == [a[0], b[0], a[1], b[1]]
  {
    hide Guid, Numbered;
    var msgs, order := [a, b], [(0, 0), (1, 0), (0, 1), (1, 1)];
    assert AllNumbered(msgs) && Order(msgs, order);
    assert order[..1] == [(0, 0)];
    forall x: nat
      ensures x in Seen([(0, 0)], 0) <==> x in {0}
    {
      SeenMember([(0, 0)], 0, x);
    }
    assert Seen([(0, 0)], 0) == {0};
    assert !Waits(msgs, order[..1], order[1].0, 0);
  }

  lemma NothingAccumulated(guid: int)
    ensures AccumFor(map[], guid).received == 0 && AccumFor(map[], guid).total == 0
  {
  }

  /** A segment that does not complete its accumulator only counts. */
  lemma Piled(m: State, ws: seq<Wire>, w: Wire) returns (m': State)
    requires Run(map[], ws) == (m, []) && Multipart(w) && AccumFor(m, Guid(w)).received < 0xffff_ffff
    requires var total := if Initial(w) then FragNum(w) else AccumFor(m, Guid(w)).total;
             total == 0 || total != AccumFor(m, Guid(w)).received + 1
    ensures Run(map[], ws + [w]) == (m', [])
    ensures AccumFor(m', Guid(w)).received == AccumFor(m, Guid(w)).received + 1
    ensures AccumFor(m', Guid(w)).total == if Initial(w) then FragNum(w) else AccumFor(m, Guid(w)).total
  {
    hide Run, Arrive, Guid, FragNum, Multipart, Initial, Insert;
    RunStep(map[], ws, w);
    ArriveMany(m, w);
    m' := Arrive(m, w).0;
    var none: seq<seq<Wire>> := [];
    assert !Submitted(AccumFor(m, Guid(w)), w).Complete();
    assert none + none == none;
  }

  // -------------------------------------------------------------------------
  // The thread

  /** The delivered messages by the contents of their buffers. */
  function Contents(bufs: seq<seq<SegBuffer>>): (d: seq<seq<Wire>>)
    ensures |d| == |bufs|
  {
    seq(|bufs|, k requires 0 <= k < |bufs| => Images(bufs[k]))
  }

  /** Each message is a chain of segments of its own, which starts at the head that was delivered. */
  ghost predicate HandedOver(heads: seq<IpcSegment>, lists: seq<seq<IpcSegment>>, bufs: seq<seq<SegBuffer>>, gone: set<IpcSegment>)
    reads gone
  {
    && |heads| == |lists| == |bufs|
    && (forall k, s :: 0 <= k < |lists| && s in lists[k] ==> s in gone)
    && (forall k, l, s :: 0 <= k < l < |lists| && s in lists[k] ==> s !in lists[l])
    && (forall k :: 0 <= k < |lists| ==> Chained(lists[k], bufs[k]) && lists[k] != [] && heads[k] == lists[k][0])
  }

  /** The segments from n on are single and neither in an accumulator nor handed over. */
  ghost predicate Coming(queue: seq<IpcSegment>, n: nat, nodes: set<IpcSegment>, gone: set<IpcSegment>)
    reads queue`next
  {
    forall i :: n <= i < |queue| ==> queue[i] !in nodes && queue[i] !in gone && queue[i].next == null
  }

  /** One pass of the thread's loop */
  method AccumPass(accums: IpcAccumMap, seg: IpcSegment, heads0: seq<IpcSegment>, ghost lists0: seq<seq<IpcSegment>>,
                   ghost bufs0: seq<seq<SegBuffer>>, ghost gone0: set<IpcSegment>)
    returns (heads: seq<IpcSegment>, ghost lists: seq<seq<IpcSegment>>, ghost bufs: seq<seq<SegBuffer>>, ghost gone: set<IpcSegment>)
    requires accums.Valid() && seg !in accums.Nodes && seg !in gone0 && seg.next == null
    requires HandedOver(heads0, lists0, bufs0, gone0) && gone0 !! accums.Nodes
    modifies accums, accums.accums.Values, accums.Nodes`next, seg`next
    ensures accums.Valid() && HandedOver(heads, lists, bufs, gone) && gone !! accums.Nodes
    ensures accums.Value() == Arrive(old(accums.Value()), Image(seg.buffer)).0
    ensures Contents(bufs) == Contents(bufs0) + Arrive(old(accums.Value()), Image(seg.buffer)).1
    ensures forall a :: a in accums.accums.Values ==> a in old(accums.accums.Values) || fresh(a)
    ensures accums.Nodes <= old(accums.Nodes) + {seg} && gone <= gone0 + old(accums.Nodes) + {seg}
  {
    hide Arrive, Chained, Images, Image, HandedOver, IpcAccumMap.Valid, IpcAccumMap.Value;
    heads, lists, bufs, gone := heads0, lists0, bufs0, gone0;
    var message, segs, contents := accums.AccumSegment(seg);
    ContentsGrow(bufs, contents);
    if message != null {
      HandOver(heads, lists, bufs, gone, segs, contents);
      heads, lists, bufs, gone := heads + [message], lists + [segs], bufs + [contents], gone + set s | s in segs;
    }
  }

  /** `AccumThread`: the accumulators after a series of received segments, and the messages that
      the node is notified of, are those of the run. */
  method AccumThread(accums: IpcAccumMap, queue: seq<IpcSegment>, ghost queued: seq<SegBuffer>)
    returns (heads: seq<IpcSegment>, ghost lists: seq<seq<IpcSegment>>, ghost bufs: seq<seq<SegBuffer>>, ghost gone: set<IpcSegment>)
    requires accums.Valid() && (forall i, j :: 0 <= i < j < |queue| ==> queue[i] != queue[j])
    requires Coming(queue, 0, accums.Nodes, {})
    requires |queued| == |queue| && forall i :: 0 <= i < |queue| ==> queue[i].buffer == queued[i]
    modifies accums, accums.accums.Values, accums.Nodes`next, queue`next
    ensures accums.Valid() && HandedOver(heads, lists, bufs, gone) && gone !! accums.Nodes
    ensures (accums.Value(), Contents(bufs)) == Run(old(accums.Value()), Images(queued))
  {
    hide Run, Arrive, Chained, Images, HandedOver, IpcAccumMap.Valid, IpcAccumMap.Value;
    heads, lists, bufs, gone := [], [], [], {};
    ghost var ws := Images(queued);
    RunNothing(accums.Value());
    NothingHandedOver();
    AllImages(queued);
    var n := 0;
    while n < |queue|
      invariant n <= |queue| && accums.Valid() && Coming(queue, n, accums.Nodes, gone)
      invariant forall a :: a in accums.accums.Values ==> a in old(accums.accums.Values) || fresh(a)
      invariant forall s :: s in accums.Nodes ==> s in old(accums.Nodes) || s in queue
      invariant HandedOver(heads, lists, bufs, gone) && gone !! accums.Nodes
      invariant accums.Value() == Run(old(accums.Value()), ws[..n]).0 && Contents(bufs) == Run(old(accums.Value()), ws[..n]).1
    {
      NextWire(old(accums.Value()), queued, n);
      heads, lists, bufs, gone := AccumPass(accums, queue[n], heads, lists, bufs, gone);
      n := n + 1;
    }
    AllImages(queued);
  }

  lemma AllImages(queued: seq<SegBuffer>)
    ensures |Images(queued)| == |queued| && Images(queued)[..|queued|] == Images(queued) && Images(queued)[..0] == []
  {
  }

  lemma NothingHandedOver()
    ensures HandedOver([], [], [], {}) && Contents([]) == []
  {
  }

  lemma HandOver(heads: seq<IpcSegment>, lists: seq<seq<IpcSegment>>, bufs: seq<seq<SegBuffer>>, gone: set<IpcSegment>,
                 segs: seq<IpcSegment>, contents: seq<SegBuffer>)
    requires HandedOver(heads, lists, bufs, gone) && Chained(segs, contents) && segs != []
    requires forall s :: s in segs ==> s !in gone
    ensures HandedOver(heads + [segs[0]], lists + [segs], bufs + [contents], gone + set s | s in segs)
  {
    hide Chained;
  }

  lemma NextWire(m: State, queued: seq<SegBuffer>, n: nat)
    requires n < |queued|
    ensures var ws := Images(queued);
            var (m1, d1) := Run(m, ws[..n]);
            var (m2, d2) := Arrive(m1, Image(queued[n]));
            Run(m, ws[..n + 1]) == (m2, d1 + d2)
  {
    hide Run, Arrive, Image;
    var ws := Images(queued);
    RunStep(m, ws[..n], ws[n]);
    assert ws[..n + 1] == ws[..n] + [ws[n]];
  }

  lemma ContentsGrow(bufs: seq<seq<SegBuffer>>, more: seq<SegBuffer>)
    ensures Contents(bufs) + [] == Contents(bufs) && Contents(bufs + [more]) == Contents(bufs) + [Images(more)]
  {
  }
}

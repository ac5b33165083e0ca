/** How long a message may be: fragment numbers have sixteen bits. */
module FragmentLimit {
  import opened Bytes
  import opened Segment
  import opened Fragment
  import opened Accum
  import opened Delivery

  const MAX_PAYLOAD := MAX_FRAGMENTS * CAPACITY

  /** The segments of a message no longer than that are what the accumulator relies on. */
  lemma FragmentsAreNumbered(h: HeaderImage, p: seq<byte>)
    requires Plain(h) && 0 < |p| <= MAX_PAYLOAD
    ensures Numbered(Fragments(h, p)) && Guid(Fragments(h, p)[0]) == Guid(h)
  {
    hide FragmentAt, FragNum, Guid, Multipart, Initial, Plain;
    var msg := Fragments(h, p);
    forall j | 0 <= j < |msg|
      ensures FragmentOf(msg[j], Guid(h), j, |msg|)
    {
      FragmentFields(h, p, j);
    }
    assert FragmentOf(msg[0], Guid(h), 0, |msg|);
  }

  ghost predicate Sorted(ws: seq<Wire>) {
    forall j, k :: 0 <= j < k < |ws| ==> FragNum(ws[j]) <= FragNum(ws[k])
  }

  lemma {:induction false} InsertSorted(ws: seq<Wire>, w: Wire)
    requires Sorted(ws)
    ensures Sorted(Insert(ws, w))
    ensures forall x :: x in Insert(ws, w) ==> x == w || x in ws
  {
    hide FragNum;
    if ws != [] && FragNum(w) >= FragNum(ws[0]) {
      InsertSorted(ws[1..], w);
      var rest := Insert(ws[1..], w);
      forall k | 0 <= k < |rest|
        ensures FragNum(ws[0]) <= FragNum(rest[k])
      {
        assert rest[k] in rest;
      }
    }
  }

  ghost predicate AllSorted(m: State) {
    forall g :: g in m ==> Sorted(m[g].wires)
  }

  /** Whatever arrives, even segments that no sender made, a delivered message is in the order of
      its fragment numbers. */
  lemma {:induction false} DeliveredSorted(ws: seq<Wire>)
    ensures var (m, d) := Run(map[], ws);
            AllSorted(m) && forall k :: 0 <= k < |d| ==> Sorted(d[k])
  {
    if ws != [] {
      var last := |ws| - 1;
      DeliveredSorted(ws[..last]);
      ArriveSorted(Run(map[], ws[..last]).0, ws[last]);
    }
  }

  lemma ArriveSorted(m: State, w: Wire)
    requires AllSorted(m)
    ensures var (m', d) := Arrive(m, w);
            AllSorted(m') && forall k :: 0 <= k < |d| ==> Sorted(d[k])
  {
    hide Insert, Guid, Multipart, Initial, FragNum;
    if Multipart(w) {
      InsertSorted(if Guid(w) in m then m[Guid(w)].wires else [], w);
    }
  }

  /** Past 65535 segments the numbers wrap around. */
  lemma WrapsAround(h: HeaderImage, p: seq<byte>)
    requires Plain(h) && |p| > MAX_PAYLOAD
    ensures !Sorted(Fragments(h, p))
  {
    hide FragmentAt, FragNum, Guid, Multipart, Initial, Plain;
    var msg := Fragments(h, p);
    FragmentFields(h, p, MAX_FRAGMENTS - 1);
    FragmentFields(h, p, MAX_FRAGMENTS);
    assert FragNum(msg[MAX_FRAGMENTS - 1]) > FragNum(msg[MAX_FRAGMENTS]);
  }

  /** A message can be delivered whole, by any series of arrivals at all, exactly if its payload
      has at most 65535 segments. */
  lemma DeliverableExactly(h: HeaderImage, p: seq<byte>)
    requires Plain(h) && p != []
    ensures (exists ws :: Fragments(h, p) in Run(map[], ws).1) <==> |p| <= 65535 * 1000
  {
    hide Run, FragmentAt, Plain, Numbered, Sorted, Guid;
    var msg := Fragments(h, p);
    if |p| <= MAX_PAYLOAD {
      FragmentsAreNumbered(h, p);
      var order := seq(|msg|, j requires 0 <= j < |msg| => (0, j));
      forall j | 0 <= j < |msg|
        ensures (0, j) in order
      {
        assert order[j] == (0, j);
      }
      DistinctInTurn([msg], order);
      EveryMessageOnce([msg], order);
      var done := Completed([msg], order);
      assert done[0] == 0;
      assert Run(map[], Arrivals([msg], order)).1[0] == msg;
    } else {
      WrapsAround(h, p);
      forall ws
        ensures msg !in Run(map[], ws).1
      {
        DeliveredSorted(ws);
      }
    }
  }
}

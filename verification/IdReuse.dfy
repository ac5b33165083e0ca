/** A run of a node that loses a message, because an id comes up again too early. */
module IdReuse {
  import opened Bytes
  import opened Segment
  import opened Fragment
  import opened Delivery
  import opened Schedule
  import opened EndToEnd
  import TQ = TransmitQueue

  // -------------------------------------------------------------------------
  // Single turns

  /** The message is more urgent than what waits. */
  ghost predicate MostUrgent(msg: seq<Wire>, q: seq<seq<Wire>>) {
    msg != [] && (q != [] ==> q[0] != [] && TQ.MessagePriority(msg) < TQ.MessagePriority(q[0]))
  }

  /** Such a message goes to the front. */
  lemma TransmitStep(msgs: seq<seq<Wire>>, turns: seq<TQ.Turn>, c: nat, q: seq<seq<Wire>>)
    requires TQ.NoneEmpty(msgs) && TQ.Submitted(turns) == c < |msgs| && TQ.Run(msgs, turns).0.queue == q
    requires TQ.NextId(TQ.Run(msgs, turns).0.msgId) == IdAt(c)
    requires MostUrgent(msgs[c], q)
    ensures TQ.Submitted(turns + [TQ.Transmit]) == c + 1
    ensures TQ.Run(msgs, turns + [TQ.Transmit]) == (TQ.Sender(IdAt(c), [Rest(msgs, (c, 0))] + q), TQ.Run(msgs, turns).1)
  {
    hide MostUrgent, TQ.WithFirstId, TQ.Place, Rest, IdAt, TQ.NextId;
    assert (turns + [TQ.Transmit])[..|turns|] == turns;
    FirstRest(msgs, c);
    ToFront(q, msgs[c], IdAt(c));
  }

  lemma ToFront(q: seq<seq<Wire>>, msg: seq<Wire>, id: uint32)
    requires TQ.NoneEmpty(q) && MostUrgent(msg, q)
    ensures TQ.Place(q, TQ.WithFirstId(msg, id)) == [TQ.WithFirstId(msg, id)] + q
  {
    hide Priority, TQ.WithId;
    TQ.WithIdFields(msg[0], id);
  }

  /** The first segment is emitted; the rest of its message stays in front. */
  lemma GetStep(msgs: seq<seq<Wire>>, turns: seq<TQ.Turn>, m: Mark, q: seq<seq<Wire>>)
    requires TQ.NoneEmpty(msgs) && TQ.Submitted(turns) <= |msgs| && Marks(msgs, m) && TQ.Run(msgs, turns).0.queue == [Rest(msgs, m)] + q
    ensures TQ.Submitted(turns + [TQ.Get]) == TQ.Submitted(turns)
    ensures var next := if m.1 + 1 < |msgs[m.0]| then [Rest(msgs, (m.0, m.1 + 1))] else [];
            TQ.Run(msgs, turns + [TQ.Get])
            == (TQ.Sender(TQ.Run(msgs, turns).0.msgId, next + q), TQ.Run(msgs, turns).1 + [Tagged(msgs)[m.0][m.1]])
  {
    hide Rest, Tagged, TQ.WithFirstId;
    assert (turns + [TQ.Get])[..|turns|] == turns;
    assert ([Rest(msgs, m)] + q)[0] == Rest(msgs, m) && ([Rest(msgs, m)] + q)[1..] == q;
    RestAdvances(msgs, m);
  }

  // -------------------------------------------------------------------------
  // The run

  /** A message of two segments, then so many more urgent ones that the last of them, which has two
      segments as well, is given its id. */
  ghost predicate Overtaken(msgs: seq<seq<Wire>>) {
    && |msgs| == TQ.ID_COUNT + 1 && Uniform(msgs)
    && (forall k :: 0 <= k < |msgs| ==> |msgs[k]| == if k == 0 || k == TQ.ID_COUNT then 2 else 1)
    && (forall k :: 0 < k < |msgs| ==> TQ.MessagePriority(msgs[k]) < TQ.MessagePriority(msgs[0]))
  }

  /** Each message is submitted and one segment taken. */
  function Rounds(n: nat): seq<TQ.Turn> {
    if n == 0 then [] else Rounds(n - 1) + [TQ.Transmit] + [TQ.Get]
  }

  function Turns(): seq<TQ.Turn> { Rounds(TQ.ID_COUNT) + [TQ.Transmit] + [TQ.Get] + [TQ.Get] + [TQ.Get] }

  function Firsts(n: nat): (r: seq<Mark>)
    ensures |r| == n
  {
    seq(n, k => (k, 0))
  }

  function Emitted(): (r: seq<Mark>)
    ensures |r| == TQ.ID_COUNT + 3
  {
    Firsts(TQ.ID_COUNT) + [(TQ.ID_COUNT, 0)] + [(TQ.ID_COUNT, 1)] + [(0, 1)]
  }

  lemma {:induction false} AfterRounds(msgs: seq<seq<Wire>>, n: nat)
    requires Overtaken(msgs) && 0 < n <= TQ.ID_COUNT
    ensures TQ.Submitted(Rounds(n)) == n
    ensures TQ.Run(msgs, Rounds(n)) == (TQ.Sender(IdAt(n - 1), [Rest(msgs, (0, 1))]), Arrivals(Tagged(msgs), Firsts(n)))
  {
    hide TQ.Run, TQ.Submitted, Rest, Tagged, IdAt, TQ.NextId, MostUrgent, Overtaken, Arrivals;
    var c := n - 1;
    RoundIs(n);
    OvertakenParts(msgs);
    IdSteps(if c == 0 then 0 else c - 1);
    var q: seq<seq<Wire>> := if c == 0 then [] else [Rest(msgs, (0, 1))];
    if c == 0 {
      NothingSubmitted(msgs);
    } else {
      AfterRounds(msgs, c);
    }
    Urgent(msgs, c, q);
    TransmitStep(msgs, Rounds(c), c, q);
    GetStep(msgs, Rounds(c) + [TQ.Transmit], (c, 0), q);
    FirstsGrow(msgs, c);
    var r := [Rest(msgs, (0, 1))];
    assert [] + r == r && r + [] == r;
  }

  lemma OvertakenParts(msgs: seq<seq<Wire>>)
    requires Overtaken(msgs)
    ensures |msgs| == TQ.ID_COUNT + 1 && TQ.NoneEmpty(msgs)
    ensures forall k :: 0 <= k < |msgs| ==> Marks(msgs, (k, 0)) && |msgs[k]| == if k == 0 || k == TQ.ID_COUNT then 2 else 1
    ensures Marks(msgs, (0, 1))
  {
  }

  lemma Urgent(msgs: seq<seq<Wire>>, c: nat, q: seq<seq<Wire>>)
    requires Overtaken(msgs) && c < |msgs| && q == if c == 0 then [] else [Rest(msgs, (0, 1))]
    ensures MostUrgent(msgs[c], q)
  {
    hide Rest, TQ.MessagePriority;
    RestUrgency(msgs);
  }

  lemma RoundIs(n: nat)
    requires n > 0
    ensures Rounds(n) == Rounds(n - 1) + [TQ.Transmit] + [TQ.Get]
  {
  }

  lemma NothingSubmitted(msgs: seq<seq<Wire>>)
    requires TQ.NoneEmpty(msgs)
    ensures Rounds(0) == [] && TQ.Submitted([]) == 0 && TQ.Run(msgs, []) == (TQ.Sender(0, []), [])
    ensures Firsts(0) == [] && Arrivals(Tagged(msgs), []) == []
  {
  }

  lemma RestUrgency(msgs: seq<seq<Wire>>)
    requires Overtaken(msgs)
    ensures TQ.MessagePriority(Rest(msgs, (0, 1))) == TQ.MessagePriority(msgs[0])
  {
    RestPriority(msgs, (0, 1));
  }

  lemma FirstsGrow(msgs: seq<seq<Wire>>, c: nat)
    requires Overtaken(msgs) && c < TQ.ID_COUNT
    ensures Arrivals(Tagged(msgs), Firsts(c + 1)) == Arrivals(Tagged(msgs), Firsts(c)) + [Tagged(msgs)[c][0]]
  {
  }

  /** The last message is emitted before the rest of the first one. */
  lemma WholeRun(msgs: seq<seq<Wire>>)
    requires Overtaken(msgs)
    ensures TQ.Submitted(Turns()) == |msgs| && TQ.Run(msgs, Turns()).0.queue == []
    ensures TQ.Run(msgs, Turns()).1 == Arrivals(Tagged(msgs), Emitted())
  {
    hide TQ.Run, TQ.Submitted, Rest, Tagged, IdAt, TQ.NextId, TQ.MessagePriority, Rounds, Firsts;
    var n := TQ.ID_COUNT;
    var q := [Rest(msgs, (0, 1))];
    IdSteps(n - 1);
    AfterRounds(msgs, n);
    RestUrgency(msgs);
    var t1 := Rounds(n) + [TQ.Transmit];
    TransmitStep(msgs, Rounds(n), n, q);
    var t2 := t1 + [TQ.Get];
    GetStep(msgs, t1, (n, 0), q);
    var t3 := t2 + [TQ.Get];
    GetStep(msgs, t2, (n, 1), q);
    assert [] + q == q && q + [] == q;
    GetStep(msgs, t3, (0, 1), []);
    EmittedLast(msgs, Firsts(n));
  }

  lemma EmittedLast(msgs: seq<seq<Wire>>, firsts: seq<Mark>)
    requires Overtaken(msgs) && firsts == Firsts(TQ.ID_COUNT)
    ensures var t, n := Tagged(msgs), TQ.ID_COUNT;
            Arrivals(t, Emitted()) == Arrivals(t, firsts) + [t[n][0]] + [t[n][1]] + [t[0][1]]
  {
  }

  // -------------------------------------------------------------------------
  // What the receiver makes of it

  lemma EmittedAt(k: nat)
    requires k < TQ.ID_COUNT + 3
    ensures Emitted()[k] == if k < TQ.ID_COUNT then (k, 0) else if k == TQ.ID_COUNT + 2 then (0, 1) else (TQ.ID_COUNT, k - TQ.ID_COUNT)
  {
  }

  lemma EmittedOrder(msgs: seq<seq<Wire>>)
    requires Overtaken(msgs)
    ensures Order(msgs, Emitted())
    ensures forall i, j :: 0 <= i < |msgs| && 0 <= j < |msgs[i]| ==> (i, j) in Emitted()
    ensures Emitted()[..TQ.ID_COUNT] == Firsts(TQ.ID_COUNT) && Emitted()[TQ.ID_COUNT] == (TQ.ID_COUNT, 0)
  {
    hide Emitted, Uniform;
    var n, order := TQ.ID_COUNT, Emitted();
    assert |order| == n + 3 by {
      EmittedSize();
    }
    forall k | 0 <= k < |order|
      ensures order[k] == if k < n then (k, 0) else if k == n + 2 then (0, 1) else (n, k - n)
    {
      EmittedAt(k);
    }
    forall i, j | 0 <= i < |msgs| && 0 <= j < |msgs[i]|
      ensures (i, j) in order
    {
      assert order[if j == 0 then i else if i == 0 then n + 2 else n + 1] == (i, j);
    }
  }

  lemma EmittedSize()
    ensures |Emitted()| == TQ.ID_COUNT + 3
  {
  }

  /** The first message has been emitted in part when the last one, which has its guid, begins. */
  lemma OutOfTurn(msgs: seq<seq<Wire>>)
    requires |msgs| == TQ.ID_COUNT + 1 && AllNumbered(msgs) && |msgs[0]| == |msgs[TQ.ID_COUNT]| == 2
    requires Order(msgs, Emitted()) && Guid(msgs[0][0]) == Guid(msgs[TQ.ID_COUNT][0])
    requires Emitted()[..TQ.ID_COUNT] == Firsts(TQ.ID_COUNT) && Emitted()[TQ.ID_COUNT] == (TQ.ID_COUNT, 0)
    ensures !InTurn(msgs, Emitted())
  {
    hide Guid, Numbered, Seen;
    var n, before := TQ.ID_COUNT, Firsts(TQ.ID_COUNT);
    forall y: nat
      ensures y in Seen(before, 0) <==> y in {0}
    {
      SeenMember(before, 0, y);
      assert before[0] == (0, 0);
    }
    assert Seen(before, 0) == {0};
    assert !Waits(msgs, Emitted()[..n], Emitted()[n].0, 0);
  }

  /** A node that sends such messages loses one of them, although each is well-formed and the
      transport loses nothing. */
  lemma LosesMessage(sends: seq<Outgoing>)
    requires forall k :: 0 <= k < |sends| ==> sends[k].Sendable()
    requires forall k, l :: 0 <= k < l < |sends| ==> SrcAddr(sends[k].header) == SrcAddr(sends[l].header)
    requires Overtaken(CutAll(sends))
    ensures TQ.NoneEmpty(CutAll(sends)) && TQ.Submitted(Turns()) == |sends| && TQ.Run(CutAll(sends), Turns()).0.queue == []
    ensures exists i :: 0 <= i < |sends| && Cut(Identified(sends)[i]) !in Delivery.Run(map[], TQ.Run(CutAll(sends), Turns()).1).1
  {
    hide Delivery.Run, TQ.Run, TQ.Submitted, Cut, Guid, Outgoing.Sendable, WithHeaderId, InTurn, AllNumbered, DifferThroughout, Emitted, Turns, IdAt, Firsts;
    var msgs, ids := CutAll(sends), CutAll(Identified(sends));
    WholeRun(msgs);
    SendsAreUniform(sends);
    EmittedOrder(msgs);
    AllSendable(sends);
    SameCounts(sends);
    SameOrder(msgs, ids);
    IdsComeBack(sends);
    OutOfTurn(ids);
    WholeExactlyInTurn(ids, Emitted());
    assert forall i :: 0 <= i < |sends| ==> ids[i] == Cut(Identified(sends)[i]);
  }

  lemma SameOrder(msgs: seq<seq<Wire>>, ids: seq<seq<Wire>>)
    requires Order(msgs, Emitted()) && |ids| == |msgs| && forall k :: 0 <= k < |msgs| ==> |ids[k]| == |msgs[k]|
    ensures Order(ids, Emitted())
  {
    hide Emitted;
  }

  lemma AllSendable(sends: seq<Outgoing>)
    requires forall k :: 0 <= k < |sends| ==> sends[k].Sendable()
    ensures forall k :: 0 <= k < |sends| ==> Identified(sends)[k].Sendable()
    ensures AllNumbered(CutAll(Identified(sends)))
  {
    hide Outgoing.Sendable, WithHeaderId, Cut, Numbered;
    forall k | 0 <= k < |sends|
      ensures Identified(sends)[k].Sendable()
    {
      IdentifiedSendable(sends[k], IdAt(k));
    }
    SendableNumbered(Identified(sends));
  }

  /** Only the first and the last message have the same guid, and they differ in their priority. */
  lemma IdsComeBack(sends: seq<Outgoing>)
    requires forall k :: 0 <= k < |sends| ==> sends[k].Sendable() && Identified(sends)[k].Sendable()
    requires forall k, l :: 0 <= k < l < |sends| ==> SrcAddr(sends[k].header) == SrcAddr(sends[l].header)
    requires Overtaken(CutAll(sends)) && AllNumbered(CutAll(Identified(sends)))
    ensures var ids := CutAll(Identified(sends));
            && |ids[0]| > 0 && |ids[TQ.ID_COUNT]| > 0 && Guid(ids[0][0]) == Guid(ids[TQ.ID_COUNT][0]) && DifferThroughout(ids)
  {
    hide Cut, Guid, Outgoing.Sendable, WithHeaderId, IdAt, Numbered, Priority, SrcAddr;
    var ids := CutAll(Identified(sends));
    SendableNumbered(Identified(sends));
    SendableNumbered(sends);
    forall k | 0 <= k < |sends|
      ensures Guid(ids[k][0]) == SrcAddr(sends[0].header) * 0x1_0000_0000 + IdAt(k)
    {
      IdFields(sends[k].header, IdAt(k));
    }
    forall k, l | 0 <= k < l < |sends|
      ensures IdAt(k) == IdAt(l) <==> k == 0 && l == TQ.ID_COUNT
    {
      IdsRepeat(k, l);
      OneCycle(l - k);
    }
    forall j | 0 <= j < |ids[0]| && j < |ids[TQ.ID_COUNT]|
      ensures ids[0][j] != ids[TQ.ID_COUNT][j]
    {
      SegmentUrgency(sends, 0, j);
      SegmentUrgency(sends, TQ.ID_COUNT, j);
      assert TQ.MessagePriority(CutAll(sends)[TQ.ID_COUNT]) < TQ.MessagePriority(CutAll(sends)[0]);
    }
  }

  lemma OneCycle(d: nat)
    requires 0 < d <= TQ.ID_COUNT
    ensures d % TQ.ID_COUNT == 0 <==> d == TQ.ID_COUNT
  {
  }

  lemma SegmentUrgency(sends: seq<Outgoing>, k: nat, j: nat)
    requires k < |sends| && sends[k].Sendable() && Identified(sends)[k].Sendable() && j < |Cut(Identified(sends)[k])|
    ensures |Cut(sends[k])| > 0 && Priority(Cut(Identified(sends)[k])[j]) == TQ.MessagePriority(Cut(sends[k]))
  {
    hide Cut, Outgoing.Sendable, WithHeaderId, IdAt;
    CutPriority(sends[k]);
    CutPriority(Identified(sends)[k]);
    IdFields(sends[k].header, IdAt(k));
  }

  // -------------------------------------------------------------------------
  // An example

  function PlainHeader(priority: byte): HeaderImage {
    seq(SEG_DATA, i => if i == SEG_OPTIONS then priority else 0)
  }

  function Octets(n: nat): (p: seq<byte>)
    ensures |p| == n
  {
    seq(n, _ => 0)
  }

  function ExampleSend(k: nat): Outgoing {
    Outgoing(PlainHeader(if k == 0 then 1 else 0), Octets(if k == 0 || k == TQ.ID_COUNT then CAPACITY + 1 else 1))
  }

  function Example(): (sends: seq<Outgoing>)
    ensures |sends| == TQ.ID_COUNT + 1
  {
    seq(TQ.ID_COUNT + 1, k requires 0 <= k => ExampleSend(k))
  }

  lemma ExampleIsOvertaken()
    ensures forall k :: 0 <= k < |Example()| ==> Example()[k].Sendable()
    ensures forall k, l :: 0 <= k < l < |Example()| ==> SrcAddr(Example()[k].header) == SrcAddr(Example()[l].header)
    ensures Overtaken(CutAll(Example()))
  {
    hide Cut, Outgoing.Sendable, Priority, SrcAddr, Uniform;
    var sends := Example();
    HeaderPlain();
    forall k | 0 <= k < |sends|
      ensures sends[k].Sendable() && SrcAddr(sends[k].header) == SrcAddr(PlainHeader(0))
      ensures |Cut(sends[k])| == if k == 0 || k == TQ.ID_COUNT then 2 else 1
      ensures |Cut(sends[k])| > 0 && TQ.MessagePriority(Cut(sends[k])) == if k == 0 then 1 else 0
    {
      ExampleAt(k);
      CutPriority(sends[k]);
    }
    SendsAreUniform(sends);
  }

  lemma ExampleAt(k: nat)
    requires k <= TQ.ID_COUNT
    ensures Example()[k].Sendable() && |Cut(Example()[k])| == if k == 0 || k == TQ.ID_COUNT then 2 else 1
    ensures Example()[k].header == PlainHeader(if k == 0 then 1 else 0)
  {
    hide Plain, FragmentAt, PlainHeader;
    HeaderPlain();
    assert FragCount(CAPACITY + 1) == 2 && FragCount(1) == 1;
    var o := Example()[k];
    assert |o.payload| == if k == 0 || k == TQ.ID_COUNT then CAPACITY + 1 else 1;
    assert |Cut(o)| == FragCount(|o.payload|);
  }

  lemma HeaderPlain()
    ensures Plain(PlainHeader(0)) && Plain(PlainHeader(1))
    ensures Priority(PlainHeader(0)) == 0 && Priority(PlainHeader(1)) == 1
    ensures SrcAddr(PlainHeader(0)) == SrcAddr(PlainHeader(1))
  {
    hide U32;
    assert PlainHeader(0)[SEG_SRCADDR..SEG_SRCADDR + 4] == PlainHeader(1)[SEG_SRCADDR..SEG_SRCADDR + 4];
    assert Bits(0) == 0 && Bits(1) == 1;
  }

  /** So there is a run of a node that loses a message. */
  lemma SomeRunLoses()
    ensures exists sends: seq<Outgoing>, turns: seq<TQ.Turn> ::
      && (forall k :: 0 <= k < |sends| ==> sends[k].Sendable())
      && (forall k, l :: 0 <= k < l < |sends| ==> SrcAddr(sends[k].header) == SrcAddr(sends[l].header))
      && TQ.NoneEmpty(CutAll(sends)) && TQ.Submitted(turns) == |sends| && TQ.Run(CutAll(sends), turns).0.queue == []
      && (exists i :: 0 <= i < |sends| && Cut(Identified(sends)[i]) !in Delivery.Run(map[], TQ.Run(CutAll(sends), turns).1).1)
  {
    hide Cut, Outgoing.Sendable, Delivery.Run, TQ.Run, TQ.Submitted, Turns, Overtaken, SrcAddr, Example, TQ.NoneEmpty, WithHeaderId;
    ExampleIsOvertaken();
    LosesMessage(Example());
  }
}

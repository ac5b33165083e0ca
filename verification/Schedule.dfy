/** What the transmit queue guarantees over every run: segments of different messages interleave,
    but nothing is lost, repeated or reordered within a priority. */
module Schedule {
  import opened Bytes
  import opened Segment
  import opened TransmitQueue

  // -------------------------------------------------------------------------
  // Ids and marks

  /** The id of the k-th message. */
  function IdAt(k: nat): uint32 { k % ID_COUNT + 1 }

  lemma IdSteps(k: nat)
    ensures NextId(IdAt(k)) == IdAt(k + 1) && NextId(0) == IdAt(0)
  {
  }

  /** Ids are not 0, and two messages share an id exactly if a whole cycle of ids lies between
      them. */
  lemma IdsRepeat(k: nat, l: nat)
    requires k < l
    ensures IdAt(k) != 0
    ensures IdAt(k) == IdAt(l) <==> (l - k) % ID_COUNT == 0
  {
    var a, b := k / ID_COUNT, l / ID_COUNT;
    var d := (b - a) * ID_COUNT;
    assert l - k == d + (l % ID_COUNT - k % ID_COUNT);
    MultipleMod(b - a, l % ID_COUNT - k % ID_COUNT);
  }

  lemma MultipleMod(q: int, r: int)
    requires -ID_COUNT < r < ID_COUNT
    ensures (q * ID_COUNT + r) % ID_COUNT == 0 <==> r == 0
  {
  }

  /** A mark (k, j) names segment j of message k. */
  type Mark = (nat, nat)

  predicate Marks(msgs: seq<seq<Wire>>, m: Mark) {
    m.0 < |msgs| && m.1 < |msgs[m.0]|
  }

  function Tag(msg: seq<Wire>, id: uint32): (r: seq<Wire>)
    ensures |r| == |msg|
  {
    seq(|msg|, j requires 0 <= j < |msg| => WithId(msg[j], id))
  }

  /** Every message with its id in all its segments. */
  function Tagged(msgs: seq<seq<Wire>>): (r: seq<seq<Wire>>)
    ensures |r| == |msgs|
  {
    seq(|msgs|, k requires 0 <= k < |msgs| => Tag(msgs[k], IdAt(k)))
  }

  /** Every segment carries the priority of its message. */
  ghost predicate Uniform(msgs: seq<seq<Wire>>) {
    && NoneEmpty(msgs)
    && forall k, j :: 0 <= k < |msgs| && 0 <= j < |msgs[k]| ==> Priority(msgs[k][j]) == MessagePriority(msgs[k])
  }

  // -------------------------------------------------------------------------
  // The queue and the output, by marks

  /** The queue entry of a message whose next segment is m. */
  function Rest(msgs: seq<seq<Wire>>, m: Mark): (r: seq<Wire>)
    requires Marks(msgs, m)
    ensures r != []
  {
    [WithId(msgs[m.0][m.1], IdAt(m.0))] + msgs[m.0][m.1 + 1..]
  }

  ghost predicate Queued(msgs: seq<seq<Wire>>, q: seq<seq<Wire>>, pend: seq<Mark>) {
    |q| == |pend| && forall x :: 0 <= x < |q| ==> Marks(msgs, pend[x]) && q[x] == Rest(msgs, pend[x])
  }

  function PriorityAt(msgs: seq<seq<Wire>>, k: nat): byte {
    if k < |msgs| && msgs[k] != [] then MessagePriority(msgs[k]) else 0
  }

  ghost predicate Ordered(msgs: seq<seq<Wire>>, pend: seq<Mark>) {
    forall x, y :: 0 <= x < y < |pend| ==> PriorityAt(msgs, pend[x].0) <= PriorityAt(msgs, pend[y].0)
  }

  /** The marks of one priority. */
  function Select(msgs: seq<seq<Wire>>, order: seq<Mark>, p: byte): seq<Mark> {
    if order == [] then []
    else
      var last := order[|order| - 1];
      Select(msgs, order[..|order| - 1], p) + if PriorityAt(msgs, last.0) == p then [last] else []
  }

  /** The segments of message k from j on. */
  function From(msgs: seq<seq<Wire>>, m: Mark): seq<Mark> {
    if Marks(msgs, m) then seq(|msgs[m.0]| - m.1, i requires 0 <= i => (m.0, m.1 + i)) else []
  }

  /** The same if the message has priority p. */
  function RestOf(msgs: seq<seq<Wire>>, m: Mark, p: byte): seq<Mark> {
    if PriorityAt(msgs, m.0) == p then From(msgs, m) else []
  }

  /** The segments of one priority that wait in the queue. */
  function Waiting(msgs: seq<seq<Wire>>, pend: seq<Mark>, p: byte): seq<Mark> {
    if pend == [] then []
    else RestOf(msgs, pend[0], p) + Waiting(msgs, pend[1..], p)
  }

  /** All segments of one priority of the first c messages, in order of submission. */
  function Sent(msgs: seq<seq<Wire>>, c: nat, p: byte): seq<Mark> {
    if c == 0 then []
    else Sent(msgs, c - 1, p) + RestOf(msgs, (c - 1, 0), p)
  }

  lemma {:induction false} WaitingAppends(msgs: seq<seq<Wire>>, a: seq<Mark>, b: seq<Mark>, p: byte)
    ensures Waiting(msgs, a + b, p) == Waiting(msgs, a, p) + Waiting(msgs, b, p)
  {
    hide RestOf;
    if a == [] {
      assert a + b == b;
    } else {
      WaitingAppends(msgs, a[1..], b, p);
      assert (a + b)[1..] == a[1..] + b && (a + b)[0] == a[0];
      Regroup(RestOf(msgs, a[0], p), Waiting(msgs, a[1..], p), Waiting(msgs, b, p));
    }
  }

  lemma Regroup(a: seq<Mark>, b: seq<Mark>, c: seq<Mark>)
    ensures a + (b + c) == a + b + c
  {
  }

  lemma WaitingOne(msgs: seq<seq<Wire>>, m: Mark, p: byte)
    ensures Waiting(msgs, [m], p) == RestOf(msgs, m, p)
  {
    hide RestOf;
    assert [m][1..] == [];
    assert Waiting(msgs, [], p) == [];
  }

  lemma {:induction false} WaitingOthers(msgs: seq<seq<Wire>>, pend: seq<Mark>, p: byte)
    requires forall x :: 0 <= x < |pend| ==> PriorityAt(msgs, pend[x].0) != p
    ensures Waiting(msgs, pend, p) == []
  {
    hide From, PriorityAt;
    if pend != [] {
      WaitingOthers(msgs, pend[1..], p);
    }
  }

  /** The state of a run, by marks: what was emitted and what waits are together, priority by
      priority, what was submitted, in order of submission. */
  ghost predicate Tracks(msgs: seq<seq<Wire>>, c: nat, s: Sender, out: seq<Wire>, order: seq<Mark>, pend: seq<Mark>) {
    && s.msgId == (if c == 0 then 0 else IdAt(c - 1))
    && Queued(msgs, s.queue, pend)
    && (forall x :: 0 <= x < |pend| ==> pend[x].0 < c)
    && Ordered(msgs, pend)
    && Output(msgs, out, order)
    && (forall p: byte :: Balanced(msgs, c, order, pend, p))
  }

  ghost predicate Output(msgs: seq<seq<Wire>>, out: seq<Wire>, order: seq<Mark>) {
    && |out| == |order|
    && forall i :: 0 <= i < |out| ==> Marks(msgs, order[i]) && out[i] == Tagged(msgs)[order[i].0][order[i].1]
  }

  ghost predicate Balanced(msgs: seq<seq<Wire>>, c: nat, order: seq<Mark>, pend: seq<Mark>, p: byte) {
    Select(msgs, order, p) + Waiting(msgs, pend, p) == Sent(msgs, c, p)
  }

  lemma RestPriority(msgs: seq<seq<Wire>>, m: Mark)
    requires Uniform(msgs) && Marks(msgs, m)
    ensures MessagePriority(Rest(msgs, m)) == PriorityAt(msgs, m.0)
  {
    hide Priority, WithId;
    WithIdFields(msgs[m.0][m.1], IdAt(m.0));
    assert Priority(msgs[m.0][m.1]) == MessagePriority(msgs[m.0]);
  }

  lemma QueuedPriorities(msgs: seq<seq<Wire>>, q: seq<seq<Wire>>, pend: seq<Mark>)
    requires Uniform(msgs) && Queued(msgs, q, pend)
    ensures NoneEmpty(q)
    ensures forall x :: 0 <= x < |q| ==> MessagePriority(q[x]) == PriorityAt(msgs, pend[x].0)
  {
    hide MessagePriority, PriorityAt, Uniform, Rest;
    forall x | 0 <= x < |q|
      ensures q[x] != [] && MessagePriority(q[x]) == PriorityAt(msgs, pend[x].0)
    {
      RestPriority(msgs, pend[x]);
    }
  }

  // -------------------------------------------------------------------------
  // One turn

  lemma TransmitTracks(msgs: seq<seq<Wire>>, c: nat, s: Sender, out: seq<Wire>, order: seq<Mark>, pend: seq<Mark>)
    returns (pend': seq<Mark>, x: nat)
    requires Uniform(msgs) && c < |msgs| && s.Valid() && Tracks(msgs, c, s, out, order, pend)
    ensures Tracks(msgs, c + 1, s.Transmitted(msgs[c]), out, order, pend')
    ensures x <= |pend| && pend' == pend[..x] + [(c, 0)] + pend[x..]
  {
    hide MessagePriority, PriorityAt, Uniform, Rest, WithFirstId, Place, IdAt, Output, From, Waiting, Select;
    var id := NextId(s.msgId);
    assert id == IdAt(c) by {
      IdSteps(if c == 0 then 0 else c - 1);
    }
    NoneEmptyOf(msgs);
    var msg := WithFirstId(msgs[c], id);
    assert msg == Rest(msgs, (c, 0)) by {
      FirstRest(msgs, c);
    }
    RestPriority(msgs, (c, 0));
    QueuedPriorities(msgs, s.queue, pend);
    x := PlaceAt(s.queue, msg);
    pend' := pend[..x] + [(c, 0)] + pend[x..];
    forall y | x <= y < |pend|
      ensures PriorityAt(msgs, pend[y].0) > PriorityAt(msgs, c)
    {
      assert MessagePriority(s.queue[x]) == PriorityAt(msgs, pend[x].0);
    }
    assert Ordered(msgs, pend') by {
      forall y | 0 <= y < x
        ensures PriorityAt(msgs, pend[y].0) <= PriorityAt(msgs, c)
      {
        assert MessagePriority(s.queue[y]) == PriorityAt(msgs, pend[y].0);
      }
    }
    forall p: byte {:trigger Balanced(msgs, c + 1, order, pend', p)}
      ensures Balanced(msgs, c + 1, order, pend', p)
    {
      assert Balanced(msgs, c, order, pend, p);
      TransmitBalances(msgs, c, order, pend, x, p);
    }
  }

  lemma NoneEmptyOf(msgs: seq<seq<Wire>>)
    requires Uniform(msgs)
    ensures forall k :: 0 <= k < |msgs| ==> |msgs[k]| > 0
  {
  }

  lemma FirstRest(msgs: seq<seq<Wire>>, c: nat)
    requires NoneEmpty(msgs) && c < |msgs|
    ensures Marks(msgs, (c, 0)) && WithFirstId(msgs[c], IdAt(c)) == Rest(msgs, (c, 0))
  {
  }

  lemma TransmitBalances(msgs: seq<seq<Wire>>, c: nat, order: seq<Mark>, pend: seq<Mark>, x: nat, p: byte)
    requires c < |msgs| && x <= |pend| && Balanced(msgs, c, order, pend, p)
    requires forall y :: x <= y < |pend| ==> PriorityAt(msgs, pend[y].0) > PriorityAt(msgs, c)
    ensures Balanced(msgs, c + 1, order, pend[..x] + [(c, 0)] + pend[x..], p)
  {
    hide From, Select, PriorityAt, Waiting;
    var a, b := pend[..x], pend[x..];
    assert pend == a + b;
    WaitingAppends(msgs, a, b, p);
    WaitingAppends(msgs, a + [(c, 0)], b, p);
    WaitingAppends(msgs, a, [(c, 0)], p);
    WaitingOne(msgs, (c, 0), p);
    assert Sent(msgs, c + 1, p) == Sent(msgs, c, p) + RestOf(msgs, (c, 0), p);
    if PriorityAt(msgs, c) == p {
      WaitingOthers(msgs, b, p);
    }
  }

  lemma GetTracks(msgs: seq<seq<Wire>>, c: nat, s: Sender, out: seq<Wire>, order: seq<Mark>, pend: seq<Mark>)
    returns (pend': seq<Mark>)
    requires Uniform(msgs) && s.Valid() && s.queue != [] && Tracks(msgs, c, s, out, order, pend)
    ensures pend != [] && Tracks(msgs, c, s.Advanced(), out + [s.queue[0][0]], order + [pend[0]], pend')
    ensures pend' == pend[1..] || pend' == [(pend[0].0, pend[0].1 + 1)] + pend[1..]
  {
    hide MessagePriority, PriorityAt, Uniform, WithFirstId, WithId, IdAt, From, Waiting, Select, Tagged, Balanced;
    var m := pend[0];
    var front := s.queue[0];
    NoneEmptyOf(msgs);
    RestAdvances(msgs, m);
    var next := if |front| > 1 then [(m.0, m.1 + 1)] else [];
    pend' := next + pend[1..];
    assert Queued(msgs, s.Advanced().queue, pend');
    assert Ordered(msgs, pend');
    forall p: byte
      ensures Balanced(msgs, c, order + [m], pend', p)
    {
      assert Balanced(msgs, c, order, pend, p);
      GetBalances(msgs, c, order, pend, next, p);
    }
  }

  lemma RestAdvances(msgs: seq<seq<Wire>>, m: Mark)
    requires NoneEmpty(msgs) && Marks(msgs, m)
    ensures var front := Rest(msgs, m);
            && front[0] == Tagged(msgs)[m.0][m.1]
            && (|front| > 1 <==> m.1 + 1 < |msgs[m.0]|)
            && (|front| > 1 ==> WithFirstId(front[1..], MsgId(front[0])) == Rest(msgs, (m.0, m.1 + 1)))
  {
    hide WithId;
    WithIdFields(msgs[m.0][m.1], IdAt(m.0));
  }

  lemma GetBalances(msgs: seq<seq<Wire>>, c: nat, order: seq<Mark>, pend: seq<Mark>, next: seq<Mark>, p: byte)
    requires pend != [] && Marks(msgs, pend[0]) && Balanced(msgs, c, order, pend, p)
    requires next == if pend[0].1 + 1 < |msgs[pend[0].0]| then [(pend[0].0, pend[0].1 + 1)] else []
    ensures Balanced(msgs, c, order + [pend[0]], next + pend[1..], p)
  {
    hide Sent, Waiting, Select, RestOf;
    var m := pend[0];
    WaitingAppends(msgs, [m], pend[1..], p);
    WaitingOne(msgs, m, p);
    assert [m] + pend[1..] == pend;
    SelectGrows(msgs, order, m, p);
    WaitingAppends(msgs, next, pend[1..], p);
    RestSplits(msgs, m, next, p);
  }

  lemma SelectGrows(msgs: seq<seq<Wire>>, order: seq<Mark>, m: Mark, p: byte)
    ensures Select(msgs, order + [m], p) == Select(msgs, order, p) + if PriorityAt(msgs, m.0) == p then [m] else []
  {
    hide PriorityAt;
    assert (order + [m])[..|order|] == order;
  }

  lemma RestSplits(msgs: seq<seq<Wire>>, m: Mark, next: seq<Mark>, p: byte)
    requires Marks(msgs, m)
    requires next == if m.1 + 1 < |msgs[m.0]| then [(m.0, m.1 + 1)] else []
    ensures RestOf(msgs, m, p) == (if PriorityAt(msgs, m.0) == p then [m] else []) + Waiting(msgs, next, p)
  {
    hide PriorityAt;
    assert From(msgs, m) == [m] + From(msgs, (m.0, m.1 + 1));
    if next != [] {
      WaitingOne(msgs, next[0], p);
    }
  }

  // -------------------------------------------------------------------------
  // Ids that come up again

  /** Whenever a message is submitted, no message that still waits has the id that it is given. */
  ghost predicate IdsFree(msgs: seq<seq<Wire>>, turns: seq<Turn>)
    requires NoneEmpty(msgs) && Submitted(turns) <= |msgs|
  {
    turns == [] ||
    var before := turns[..|turns| - 1];
    IdsFree(msgs, before) && (turns[|turns| - 1].Transmit? ==> NewId(Run(msgs, before).0))
  }

  ghost predicate NewId(s: Sender)
    requires s.Valid()
  {
    forall x :: 0 <= x < |s.queue| ==> MsgId(s.queue[x][0]) != NextId(s.msgId)
  }

  /** No two waiting messages have the same id. */
  ghost predicate OneEach(pend: seq<Mark>) {
    forall x, y :: 0 <= x < y < |pend| ==> IdAt(pend[x].0) != IdAt(pend[y].0)
  }

  /** No segment of a longer message was emitted while another message with its id had been emitted
      in part. */
  ghost predicate TookTurns(msgs: seq<seq<Wire>>, order: seq<Mark>) {
    forall x, i :: 0 <= x < |order| && 0 <= i < |msgs| ==> TookTurn(msgs, order[..x], order[x].0, i)
  }

  ghost predicate TookTurn(msgs: seq<seq<Wire>>, before: seq<Mark>, k: nat, i: nat)
    requires i < |msgs|
  {
    i != k && k < |msgs| && |msgs[k]| > 1 && IdAt(i) == IdAt(k) ==> NoneOrAll(msgs, before, i)
  }

  ghost predicate NoneOrAll(msgs: seq<seq<Wire>>, order: seq<Mark>, i: nat)
    requires i < |msgs|
  {
    (forall m: Mark :: m in order ==> m.0 != i) || (forall j: nat :: j < |msgs[i]| ==> (i, j) in order)
  }

  lemma QueuedIds(msgs: seq<seq<Wire>>, q: seq<seq<Wire>>, pend: seq<Mark>)
    requires Queued(msgs, q, pend)
    ensures NoneEmpty(q) && forall x :: 0 <= x < |q| ==> MsgId(q[x][0]) == IdAt(pend[x].0)
  {
    hide WithId, IdAt, MsgId;
    forall x | 0 <= x < |q|
      ensures q[x] != [] && MsgId(q[x][0]) == IdAt(pend[x].0)
    {
      WithIdFields(msgs[pend[x].0][pend[x].1], IdAt(pend[x].0));
    }
  }

  lemma TransmitOneEach(pend: seq<Mark>, x: nat, c: nat)
    requires OneEach(pend) && x <= |pend| && forall y :: 0 <= y < |pend| ==> IdAt(pend[y].0) != IdAt(c)
    ensures OneEach(pend[..x] + [(c, 0)] + pend[x..])
  {
    hide IdAt;
  }

  lemma GetOneEach(pend: seq<Mark>, pend': seq<Mark>)
    requires OneEach(pend) && pend != []
    requires pend' == pend[1..] || pend' == [(pend[0].0, pend[0].1 + 1)] + pend[1..]
    ensures OneEach(pend')
  {
    hide IdAt;
  }

  lemma {:induction false} WaitingMembers(msgs: seq<seq<Wire>>, pend: seq<Mark>, p: byte, m: Mark)
    requires m in Waiting(msgs, pend, p)
    ensures exists y :: 0 <= y < |pend| && pend[y].0 == m.0
  {
    hide PriorityAt;
    if m !in RestOf(msgs, pend[0], p) {
      WaitingMembers(msgs, pend[1..], p, m);
      var y :| 0 <= y < |pend[1..]| && pend[1..][y].0 == m.0;
      assert pend[y + 1].0 == m.0;
    } else {
      assert pend[0].0 == m.0;
    }
  }

  /** A message that has been submitted and does not wait has been emitted; one that has not been
      submitted has no segment in the output. */
  lemma InOrOut(msgs: seq<seq<Wire>>, c: nat, s: Sender, out: seq<Wire>, order: seq<Mark>, pend: seq<Mark>, i: nat)
    requires Uniform(msgs) && Tracks(msgs, c, s, out, order, pend) && i < |msgs|
    requires forall y :: 0 <= y < |pend| ==> pend[y].0 != i
    ensures NoneOrAll(msgs, order, i)
  {
    hide Increasing, Select, Waiting, Sent, PriorityAt, Uniform, Output, Queued, Ordered;
    if i < c {
      forall j: nat | j < |msgs[i]|
        ensures (i, j) in order
      {
        var p := PriorityAt(msgs, i);
        SentAll(msgs, c, (i, j));
        assert Balanced(msgs, c, order, pend, p);
        if (i, j) in Waiting(msgs, pend, p) {
          WaitingMembers(msgs, pend, p, (i, j));
        }
        SelectMembers(msgs, order, p, (i, j));
      }
    } else {
      forall m: Mark | m in order
        ensures m.0 != i
      {
        var p := PriorityAt(msgs, m.0);
        SelectMembers(msgs, order, p, m);
        assert Balanced(msgs, c, order, pend, p);
        SentIncreasing(msgs, c, p);
        assert m in Select(msgs, order, p) + Waiting(msgs, pend, p);
      }
    }
  }

  lemma GetTakesTurn(msgs: seq<seq<Wire>>, c: nat, s: Sender, out: seq<Wire>, order: seq<Mark>, pend: seq<Mark>)
    requires Uniform(msgs) && Tracks(msgs, c, s, out, order, pend) && pend != []
    requires OneEach(pend) && TookTurns(msgs, order)
    ensures TookTurns(msgs, order + [pend[0]])
  {
    hide Uniform, Tracks, NoneOrAll, IdAt;
    var m, order' := pend[0], order + [pend[0]];
    assert forall x :: 0 <= x <= |order| ==> order'[..x] == order[..x];
    assert order'[..|order|] == order;
    forall i | 0 <= i < |msgs|
      ensures TookTurn(msgs, order, m.0, i)
    {
      if i != m.0 && IdAt(i) == IdAt(m.0) {
        InOrOut(msgs, c, s, out, order, pend, i);
      }
    }
  }

  /** Fewer messages than there are ids: no id comes up again. */
  lemma {:induction false} FewMessages(msgs: seq<seq<Wire>>, turns: seq<Turn>)
    requires Uniform(msgs) && Submitted(turns) <= |msgs| && Submitted(turns) <= ID_COUNT
    ensures NoneEmpty(msgs) && IdsFree(msgs, turns)
  {
    hide Uniform, Run, IdAt, MsgId, Ordered, Output, Balanced, Queued;
    NoneEmptyOf(msgs);
    if turns != [] {
      var before := turns[..|turns| - 1];
      FewMessages(msgs, before);
      var order, pend := EveryRunTracks(msgs, before);
      var s := Run(msgs, before).0;
      var c := Submitted(before);
      QueuedIds(msgs, s.queue, pend);
      QueueLength(msgs, s.queue, pend);
      IdSteps(if c == 0 then 0 else c - 1);
      if turns[|turns| - 1].Transmit? {
        forall x | 0 <= x < |s.queue|
          ensures IdAt(pend[x].0) != IdAt(c)
        {
          IdsRepeat(pend[x].0, c);
        }
      }
    }
  }

  lemma QueueLength(msgs: seq<seq<Wire>>, q: seq<seq<Wire>>, pend: seq<Mark>)
    requires Queued(msgs, q, pend)
    ensures |q| == |pend|
  {
  }

  // -------------------------------------------------------------------------
  // Every run

  /** In every run the queue is sorted by priority, every emitted segment carries the id of its
      message, and within each priority the output, followed by what waits, is the concatenation
      of whole messages in the order of submission.  If no id is given that a waiting message has,
      messages with the same id take turns in the output. */
  lemma {:induction false} EveryRunTracks(msgs: seq<seq<Wire>>, turns: seq<Turn>) returns (order: seq<Mark>, pend: seq<Mark>)
    requires Uniform(msgs) && Submitted(turns) <= |msgs|
    ensures var (s, out) := Run(msgs, turns);
            Tracks(msgs, Submitted(turns), s, out, order, pend)
    ensures IdsFree(msgs, turns) ==> OneEach(pend) && TookTurns(msgs, order)
  {
    hide Tracks, Uniform, Sender.Transmitted, Sender.Advanced, OneEach, TookTurns, NewId, IdAt;
    NoneEmptyOf(msgs);
    if turns == [] {
      order, pend := [], [];
      StartTracks(msgs);
    } else {
      var before, last := turns[..|turns| - 1], turns[|turns| - 1];
      var c := Submitted(before);
      order, pend := EveryRunTracks(msgs, before);
      var (s, out) := Run(msgs, before);
      if last.Transmit? {
        var waits, x := pend, 0;
        pend, x := TransmitTracks(msgs, c, s, out, order, waits);
        if IdsFree(msgs, turns) {
          TransmitIds(msgs, c, s, out, order, waits);
          TransmitOneEach(waits, x, c);
        }
      } else if s.queue != [] {
        var rest := GetTracks(msgs, c, s, out, order, pend);
        if IdsFree(msgs, turns) {
          GetOneEach(pend, rest);
          GetTakesTurn(msgs, c, s, out, order, pend);
        }
        order, pend := order + [pend[0]], rest;
      }
    }
  }

  lemma TransmitIds(msgs: seq<seq<Wire>>, c: nat, s: Sender, out: seq<Wire>, order: seq<Mark>, pend: seq<Mark>)
    requires Tracks(msgs, c, s, out, order, pend) && s.Valid() && NewId(s)
    ensures forall y :: 0 <= y < |pend| ==> IdAt(pend[y].0) != IdAt(c)
  {
    hide IdAt, MsgId, Ordered, Output, Balanced, Queued;
    QueuedIds(msgs, s.queue, pend);
    QueueLength(msgs, s.queue, pend);
    IdSteps(if c == 0 then 0 else c - 1);
  }

  lemma StartTracks(msgs: seq<seq<Wire>>)
    ensures Tracks(msgs, 0, Sender(0, []), [], [], []) && OneEach([]) && TookTurns(msgs, [])
  {
    assert forall p: byte :: Balanced(msgs, 0, [], [], p);
  }

  // -------------------------------------------------------------------------
  // Nothing lost, nothing repeated

  predicate Less(a: Mark, b: Mark) {
    a.0 < b.0 || (a.0 == b.0 && a.1 < b.1)
  }

  ghost predicate Increasing(s: seq<Mark>) {
    forall x, y :: 0 <= x < y < |s| ==> Less(s[x], s[y])
  }

  lemma {:induction false} SentIncreasing(msgs: seq<seq<Wire>>, c: nat, p: byte)
    ensures Increasing(Sent(msgs, c, p))
    ensures forall x :: 0 <= x < |Sent(msgs, c, p)| ==> Sent(msgs, c, p)[x].0 < c
  {
    hide PriorityAt, Marks;
    if c > 0 {
      SentIncreasing(msgs, c - 1, p);
    }
  }

  lemma {:induction false} SentAll(msgs: seq<seq<Wire>>, c: nat, m: Mark)
    requires Marks(msgs, m) && m.0 < c
    ensures m in Sent(msgs, c, PriorityAt(msgs, m.0))
  {
    hide PriorityAt;
    if m.0 == c - 1 {
      assert From(msgs, (m.0, 0))[m.1] == m;
    } else {
      SentAll(msgs, c - 1, m);
    }
  }

  lemma {:induction false} SelectMembers(msgs: seq<seq<Wire>>, order: seq<Mark>, p: byte, m: Mark)
    ensures m in Select(msgs, order, p) <==> m in order && PriorityAt(msgs, m.0) == p
  {
    hide PriorityAt;
    if order != [] {
      SelectMembers(msgs, order[..|order| - 1], p, m);
      assert order == order[..|order| - 1] + [order[|order| - 1]];
    }
  }

  /** Increasing in each priority, hence without repetition. */
  lemma {:induction false} EmittedOnce(msgs: seq<seq<Wire>>, order: seq<Mark>)
    requires forall p: byte :: Increasing(Select(msgs, order, p))
    ensures forall x, y :: 0 <= x < y < |order| ==> order[x] != order[y]
  {
    hide PriorityAt, Increasing, Select;
    if order != [] {
      var before, last := order[..|order| - 1], order[|order| - 1];
      assert order == before + [last];
      forall p: byte
        ensures Increasing(Select(msgs, before, p))
      {
        assert Increasing(Select(msgs, order, p));
        SelectGrows(msgs, before, last, p);
        IncreasingParts(Select(msgs, before, p), Select(msgs, order, p)[|Select(msgs, before, p)|..]);
      }
      EmittedOnce(msgs, before);
      LastIsNew(msgs, before, last);
    }
  }

  lemma LastIsNew(msgs: seq<seq<Wire>>, before: seq<Mark>, last: Mark)
    requires Increasing(Select(msgs, before + [last], PriorityAt(msgs, last.0)))
    ensures last !in before
  {
    hide PriorityAt, Select;
    var p := PriorityAt(msgs, last.0);
    SelectGrows(msgs, before, last, p);
    SelectMembers(msgs, before, p, last);
    var s := Select(msgs, before, p);
    forall x | 0 <= x < |s|
      ensures s[x] != last
    {
      assert Less((s + [last])[x], (s + [last])[|s|]);
    }
  }

  lemma IncreasingParts(a: seq<Mark>, b: seq<Mark>)
    requires Increasing(a + b)
    ensures Increasing(a)
  {
    forall x, y | 0 <= x < y < |a|
      ensures Less(a[x], a[y])
    {
      assert Less((a + b)[x], (a + b)[y]);
    }
  }

  /** No segment is emitted twice; once the queue is empty, every segment of every submitted
      message has been emitted. */
  lemma RunIsOrder(msgs: seq<seq<Wire>>, c: nat, s: Sender, out: seq<Wire>, order: seq<Mark>, pend: seq<Mark>)
    requires Uniform(msgs) && Tracks(msgs, c, s, out, order, pend)
    ensures forall x, y :: 0 <= x < y < |order| ==> order[x] != order[y]
    ensures s.queue == [] ==> forall m: Mark :: Marks(msgs, m) && m.0 < c ==> m in order
  {
    hide Increasing, Select, Waiting, Sent, PriorityAt, Marks, Rest, Tagged;
    forall p: byte
      ensures Increasing(Select(msgs, order, p))
    {
      assert Balanced(msgs, c, order, pend, p);
      SentIncreasing(msgs, c, p);
      IncreasingParts(Select(msgs, order, p), Waiting(msgs, pend, p));
    }
    EmittedOnce(msgs, order);
    if s.queue == [] {
      forall m: Mark | Marks(msgs, m) && m.0 < c
        ensures m in order
      {
        var p := PriorityAt(msgs, m.0);
        SentAll(msgs, c, m);
        assert Balanced(msgs, c, order, pend, p);
        NoneWaiting(msgs, p);
        SelectMembers(msgs, order, p, m);
      }
    }
  }

  lemma NoneWaiting(msgs: seq<seq<Wire>>, p: byte)
    ensures Waiting(msgs, [], p) == []
  {
  }

  /** The segment that `SegmentGet` takes next has the least priority number of all segments that
      are queued. */
  lemma MostUrgentFirst(msgs: seq<seq<Wire>>, turns: seq<Turn>)
    requires Uniform(msgs) && Submitted(turns) <= |msgs|
    ensures var q := Run(msgs, turns).0.queue;
            forall x, j :: 0 <= x < |q| && 0 <= j < |q[x]| ==> Priority(q[0][0]) <= Priority(q[x][j])
  {
    hide Priority, Run, Balanced, Output, WithId;
    var order, pend := EveryRunTracks(msgs, turns);
    var q := Run(msgs, turns).0.queue;
    forall x, j | 0 <= x < |q| && 0 <= j < |q[x]|
      ensures Priority(q[0][0]) <= Priority(q[x][j])
    {
      SegmentPriority(msgs, pend[x], j);
      SegmentPriority(msgs, pend[0], 0);
    }
  }

  lemma SegmentPriority(msgs: seq<seq<Wire>>, m: Mark, j: nat)
    requires Uniform(msgs) && Marks(msgs, m) && j < |Rest(msgs, m)|
    ensures Priority(Rest(msgs, m)[j]) == PriorityAt(msgs, m.0)
  {
    hide Priority, WithId;
    WithIdFields(msgs[m.0][m.1], IdAt(m.0));
    assert Priority(msgs[m.0][m.1 + j]) == MessagePriority(msgs[m.0]);
    assert Priority(msgs[m.0][m.1]) == MessagePriority(msgs[m.0]);
  }
}

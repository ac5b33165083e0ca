/** The transmit queue of cpIpcNodeUtil.cpp: message ids, priorities, and preemption between
    segments. */
module TransmitQueue {
  import opened Bytes
  import opened Flat
  import opened Segment
  import opened BlockStore

  // -------------------------------------------------------------------------
  // As functions

  const ID_COUNT := 0xffff_ffff

  /** Message ids skip 0 at wrap-around. */
  function NextId(id: uint32): uint32 {
    if id == 0xffff_ffff then 1 else id + 1
  }

  function WithId(w: Wire, id: uint32): (r: Wire)
    ensures |r| == |w|
  {
    Overlay(w, SEG_MSGID, Be32(id))
  }

  /** The priority of a queued message is that of its first segment. */
  function MessagePriority(msg: seq<Wire>): byte
    requires msg != []
  {
    Priority(msg[0])
  }

  ghost predicate NoneEmpty(q: seq<seq<Wire>>) {
    forall x :: 0 <= x < |q| ==> q[x] != []
  }

  /** Put a message before the first one with a numerically higher priority. */
  function Place(q: seq<seq<Wire>>, msg: seq<Wire>): (r: seq<seq<Wire>>)
    requires NoneEmpty(q) && msg != []
    ensures |r| == |q| + 1 && NoneEmpty(r)
  {
    if q == [] then [msg]
    else if MessagePriority(msg) < MessagePriority(q[0]) then [msg] + q
    else [q[0]] + Place(q[1..], msg)
  }

  /** Where that is. */
  lemma {:induction false} PlaceAt(q: seq<seq<Wire>>, msg: seq<Wire>) returns (x: nat)
    requires NoneEmpty(q) && msg != []
    ensures x <= |q| && Place(q, msg) == q[..x] + [msg] + q[x..]
    ensures forall y :: 0 <= y < x ==> MessagePriority(q[y]) <= MessagePriority(msg)
    ensures x < |q| ==> MessagePriority(msg) < MessagePriority(q[x])
  {
    hide MessagePriority;
    if q == [] || MessagePriority(msg) < MessagePriority(q[0]) {
      x := 0;
    } else {
      var y := PlaceAt(q[1..], msg);
      x := y + 1;
      assert q == [q[0]] + q[1..];
      assert q[..x] == [q[0]] + q[1..][..y];
    }
  }

  /** The id in the first segment; the others are given it as they reach the front. */
  function WithFirstId(msg: seq<Wire>, id: uint32): (r: seq<Wire>)
    requires msg != []
    ensures r != []
  {
    [WithId(msg[0], id)] + msg[1..]
  }

  datatype Sender = Sender(msgId: uint32, queue: seq<seq<Wire>>) {
    ghost predicate Valid() { NoneEmpty(queue) }

    function Transmitted(msg: seq<Wire>): (r: Sender)
      requires Valid() && msg != []
      ensures r.Valid()
    {
      Sender(NextId(msgId), Place(queue, WithFirstId(msg, NextId(msgId))))
    }

    /** The queue after its first segment was taken. */
    function Advanced(): (r: Sender)
      requires Valid() && queue != []
      ensures r.Valid()
    {
      var front := queue[0];
      Sender(msgId, (if |front| > 1 then [WithFirstId(front[1..], MsgId(front[0]))] else []) + queue[1..])
    }
  }

  /** One step of a node: the next message is submitted, or the transmit thread asks for a
      segment. */
  datatype Turn = Transmit | Get

  function Submitted(turns: seq<Turn>): (n: nat)
    ensures n <= |turns|
  {
    if turns == [] then 0 else Submitted(turns[..|turns| - 1]) + if turns[|turns| - 1].Transmit? then 1 else 0
  }

  /** The queue after some turns, and the segments emitted. */
  function Run(msgs: seq<seq<Wire>>, turns: seq<Turn>): (r: (Sender, seq<Wire>))
    requires NoneEmpty(msgs) && Submitted(turns) <= |msgs|
    ensures r.0.Valid()
  {
    if turns == [] then (Sender(0, []), [])
    else
      var (s, out) := Run(msgs, turns[..|turns| - 1]);
      match turns[|turns| - 1]
      case Transmit => (s.Transmitted(msgs[Submitted(turns[..|turns| - 1])]), out)
      case Get => if s.queue == [] then (s, out) else (s.Advanced(), out + [s.queue[0][0]])
  }

  // -------------------------------------------------------------------------
  // As an object

  /** The queued messages as their wire images. */
  function Queue(bufs: seq<seq<SegBuffer>>): (q: seq<seq<Wire>>)
    ensures |q| == |bufs|
  {
    seq(|bufs|, x requires 0 <= x < |bufs| => Images(bufs[x]))
  }

  /** `MsgId(id)` */
  function PutMsgId(b: SegBuffer, id: uint32): SegBuffer {
    Put(b, SEG_MSGID, Be32(id))
  }

  lemma PutMsgIdImage(b: SegBuffer, id: uint32)
    ensures Image(PutMsgId(b, id)) == WithId(Image(b), id)
  {
  }

  lemma ImagesFirst(bufs: seq<SegBuffer>)
    requires bufs != []
    ensures Images(bufs) == [Image(bufs[0])] + Images(bufs[1..]) && Images(bufs)[1..] == Images(bufs[1..])
  {
  }

  lemma FirstIdPut(bufs: seq<SegBuffer>, id: uint32)
    requires bufs != []
    ensures Images(bufs[0 := PutMsgId(bufs[0], id)]) == WithFirstId(Images(bufs), id)
  {
    hide Image, PutMsgId, WithId;
    PutMsgIdImage(bufs[0], id);
    var b := bufs[0 := PutMsgId(bufs[0], id)];
    assert b[1..] == bufs[1..];
    ImagesFirst(b);
    ImagesFirst(bufs);
  }

  lemma FirstPriority(msg: seq<Wire>, id: uint32)
    requires msg != []
    ensures MessagePriority(WithFirstId(msg, id)) == MessagePriority(msg)
  {
    WithIdFields(msg[0], id);
  }

  lemma WithIdFields(w: Wire, id: uint32)
    ensures MsgId(WithId(w, id)) == id && Priority(WithId(w, id)) == Priority(w)
  {
    hide U32;
    OverlayAt(w, SEG_MSGID, Be32(id));
    BigEndian32(id, Be32(id));
    assert WithId(w, id)[SEG_MSGID..SEG_MSGID + 4] == Be32(id);
  }

  lemma QueuePlaced(bufs: seq<seq<SegBuffer>>, i: nat, b: seq<SegBuffer>)
    requires i <= |bufs|
    ensures Queue(bufs[..i] + [b] + bufs[i..]) == Queue(bufs)[..i] + [Images(b)] + Queue(bufs)[i..]
  {
    hide Images;
  }

  method AssignId(seg: IpcSegment, id: uint32, ghost segs: seq<IpcSegment>, ghost bufs: seq<SegBuffer>)
    requires Heads(seg, segs, bufs)
    modifies seg`buffer
    ensures bufs != [] && Heads(seg, segs, bufs[0 := PutMsgId(bufs[0], id)])
  {
    seg.buffer := PutMsgId(seg.buffer, id);
  }

  /** The head of a chain is unlinked, and the segment behind it takes over the message id. */
  method Detach(seg: IpcSegment, next: IpcSegment, ghost segs: seq<IpcSegment>, ghost bufs: seq<SegBuffer>)
    returns (ghost b: seq<SegBuffer>)
    requires Heads(seg, segs, bufs) && seg.next == next
    modifies seg`next, next`buffer
    ensures seg.next == null && seg.buffer == old(seg.buffer) && Heads(next, segs[1..], b)
    ensures Images(bufs) != [] && Images(bufs)[1..] != []
    ensures Images(b) == WithFirstId(Images(bufs)[1..], MsgId(Images(bufs)[0]))
  {
    hide Image, PutMsgId, WithFirstId, MsgId;
    ImagesFirst(bufs);
    var id := MsgId(Image(seg.buffer));
    b := bufs[1..];
    FirstIdPut(b, id);
    next.buffer := PutMsgId(next.buffer, id);
    b := b[0 := next.buffer];
    seg.next := null;
  }

  lemma HeadTail(seg: IpcSegment, segs: seq<IpcSegment>, bufs: seq<SegBuffer>)
    requires Heads(seg, segs, bufs)
    ensures |bufs| == |segs| > 0 && segs[0] == seg
    ensures if |segs| == 1 then seg.next == null else seg.next == segs[1]
    ensures (set s | s in segs) == {seg} + set s | s in segs[1..]
    ensures seg !in segs[1..]
  {
    assert segs == [seg] + segs[1..];
  }

  /** A queue entry: the head of a chain. */
  ghost predicate Heads(seg: IpcSegment, segs: seq<IpcSegment>, bufs: seq<SegBuffer>)
    reads segs
  {
    Chained(segs, bufs) && segs != [] && seg == segs[0]
  }

  class IpcTransmitQueue {
    var msgId: uint32
    var priorityQueue: seq<IpcSegment>
    ghost var Chains: seq<seq<IpcSegment>>
    ghost var Bufs: seq<seq<SegBuffer>>
    ghost var Nodes: set<IpcSegment> // every segment that is queued

    ghost predicate Valid()
      reads this, Nodes
    {
      && |priorityQueue| == |Chains| == |Bufs|
      && (forall x :: 0 <= x < |Chains| ==> Within(Chains[x]) && Heads(priorityQueue[x], Chains[x], Bufs[x]))
      && (forall x, y :: 0 <= x < |Chains| && 0 <= y < |Chains| && x != y ==> Apart(Chains[x], Chains[y]))
    }

    ghost predicate Within(segs: seq<IpcSegment>)
      reads this
    {
      forall i :: 0 <= i < |segs| ==> segs[i] in Nodes
    }

    static ghost predicate Apart(a: seq<IpcSegment>, b: seq<IpcSegment>) {
      forall i, j :: 0 <= i < |a| && 0 <= j < |b| ==> a[i] != b[j]
    }

    ghost function Value(): Sender
      reads this
    {
      Sender(msgId, Queue(Bufs))
    }

    constructor ()
      ensures Valid() && Nodes == {} && Value() == Sender(0, [])
    {
      msgId := 0;
      priorityQueue, Chains, Bufs, Nodes := [], [], [], {};
    }

    /** Queue up a message; the result is its id, 0 for none. */
    method TransmitMessage(seg: IpcSegment?, ghost segs: seq<IpcSegment>, ghost bufs: seq<SegBuffer>) returns (rv: uint32)
      requires Valid() && Chained(segs, bufs) && seg == if segs == [] then null else segs[0]
      requires forall i :: 0 <= i < |segs| ==> segs[i] !in Nodes
      modifies this, segs`buffer
      ensures Valid() && old(Value()).Valid()
      ensures seg == null ==> rv == 0 && Value() == old(Value())
      ensures seg != null ==> rv == msgId && Images(bufs) != [] && Value() == old(Value()).Transmitted(Images(bufs))
      ensures Nodes == old(Nodes) + set s | s in segs
    {
      hide Chained, Image, Images, Priority, WithId, WithFirstId, PutMsgId, NextId, Place;
      NonEmpty();
      if seg == null {
        return 0;
      }
      HeadImage(seg, segs, bufs);
      var priority := Priority(Image(seg.buffer));
      msgId := NextId(msgId);
      rv := msgId;
      AssignId(seg, msgId, segs, bufs);
      ghost var b := bufs[0 := PutMsgId(bufs[0], msgId)];
      FirstIdPut(bufs, msgId);
      FirstPriority(Images(bufs), msgId);
      var i := FindPlace(priority, Images(b));
      QueuePlaced(Bufs, i, b);
      Insert(i, seg, segs, b);
    }

    /** Take the next segment off the queue; what is left of its message stays in front. */
    method SegmentGet() returns (rv: bool, seg: IpcSegment?)
      requires Valid()
      modifies this, Nodes
      ensures Valid() && old(Value()).Valid()
      ensures rv <==> old(Value()).queue != []
      ensures !rv ==> seg == null && Value() == old(Value()) && Nodes == old(Nodes)
      ensures rv ==> seg != null && Image(seg.buffer) == old(Value()).queue[0][0] && seg.next == null
      ensures rv ==> Value() == old(Value()).Advanced() && Nodes == old(Nodes) - {seg} && seg in old(Nodes)
    {
      hide Chained, Image, Images, Priority, WithFirstId, PutMsgId, Place, Heads, Within, Apart;
      NonEmpty();
      rv, seg := false, null;
      if |priorityQueue| > 0 {
        ghost var segs, bufs;
        ghost var q := Queue(Bufs);
        seg, segs, bufs := PopFront();
        HeadImage(seg, segs, bufs);
        var next := seg.next;
        HeadTail(seg, segs, bufs);
        assert segs[0] in old(Nodes);
        if next != null {
          assert segs[1] in old(Nodes);
          ghost var b := Detach(seg, next, segs, bufs);
          Insert(0, next, segs[1..], b);
        }
        rv := true;
      }
    }

    /** `front` and `pop_front` */
    method PopFront() returns (seg: IpcSegment, ghost segs: seq<IpcSegment>, ghost bufs: seq<SegBuffer>)
      requires Valid() && priorityQueue != []
      modifies this`priorityQueue, this`Chains, this`Bufs, this`Nodes
      ensures Valid() && Heads(seg, segs, bufs) && old(Bufs) == [bufs] + Bufs
      ensures forall i :: 0 <= i < |segs| ==> segs[i] !in Nodes
      ensures old(Nodes) == Nodes + set s | s in segs
    {
      hide Heads;
      seg, segs, bufs := priorityQueue[0], Chains[0], Bufs[0];
      assert Within(segs);
      forall x | 0 < x < |Chains|
        ensures Apart(segs, Chains[x])
      {
        assert Apart(Chains[0], Chains[x]);
      }
      priorityQueue, Chains, Bufs := priorityQueue[1..], Chains[1..], Bufs[1..];
      Nodes := Nodes - set s | s in segs;
    }

    lemma NonEmpty()
      requires Valid()
      ensures Value().Valid()
    {
      forall x | 0 <= x < |Bufs|
        ensures Images(Bufs[x]) != []
      {
        assert Heads(priorityQueue[x], Chains[x], Bufs[x]);
      }
    }

    /** The place in front of the first message with a higher priority number. */
    method FindPlace(priority: byte, ghost msg: seq<Wire>) returns (i: nat)
      requires Valid() && msg != [] && MessagePriority(msg) == priority
      ensures i <= |priorityQueue| && Value().Valid()
      ensures Place(Queue(Bufs), msg) == Queue(Bufs)[..i] + [msg] + Queue(Bufs)[i..]
    {
      hide Priority, Image, Chained;
      NonEmpty();
      ghost var q := Queue(Bufs);
      ghost var place := PlaceAt(q, msg);
      i := 0;
      while i < |priorityQueue|
        invariant i <= |priorityQueue|
        invariant forall y :: 0 <= y < i ==> MessagePriority(q[y]) <= priority
      {
        assert Heads(priorityQueue[i], Chains[i], Bufs[i]);
        HeadImage(priorityQueue[i], Chains[i], Bufs[i]);
        if priority < Priority(Image(priorityQueue[i].buffer)) {
          assert priority < MessagePriority(q[i]);
          break;
        }
        i := i + 1;
      }
      assert place == i;
    }

    /** A message goes into the list. */
    method Insert(i: nat, seg: IpcSegment, ghost segs: seq<IpcSegment>, ghost bufs: seq<SegBuffer>)
      requires Valid() && i <= |priorityQueue| && Heads(seg, segs, bufs)
      requires forall i :: 0 <= i < |segs| ==> segs[i] !in Nodes
      modifies this`priorityQueue, this`Chains, this`Bufs, this`Nodes
      ensures Valid() && Bufs == old(Bufs)[..i] + [bufs] + old(Bufs)[i..]
      ensures Nodes == old(Nodes) + set s | s in segs
    {
      hide Heads;
      ghost var p, c, b, n := priorityQueue, Chains, Bufs, Nodes;
      priorityQueue := priorityQueue[..i] + [seg] + priorityQueue[i..];
      Chains := c[..i] + [segs] + c[i..];
      Bufs := b[..i] + [bufs] + b[i..];
      Nodes := n + set s | s in segs;
      PutInAt(p, seg, i);
      PutInAt(c, segs, i);
      PutInAt(b, bufs, i);
      ChainsKept(c, segs, i, Chains, n);
    }

    /** One more chain, of other segments: the chains are still apart and within the nodes. */
    lemma ChainsKept(c: seq<seq<IpcSegment>>, segs: seq<IpcSegment>, i: nat, chains: seq<seq<IpcSegment>>, n: set<IpcSegment>)
      requires i <= |c| && |chains| == |c| + 1 && forall x :: 0 <= x < |chains| ==> chains[x] == WithAt(c, segs, i, x)
      requires forall x, j :: 0 <= x < |c| && 0 <= j < |c[x]| ==> c[x][j] in n
      requires forall x, y :: 0 <= x < |c| && 0 <= y < |c| && x != y ==> Apart(c[x], c[y])
      requires (forall j :: 0 <= j < |segs| ==> segs[j] !in n) && Nodes == n + set s | s in segs
      ensures forall x :: 0 <= x < |chains| ==> Within(chains[x])
      ensures forall x, y :: 0 <= x < |chains| && 0 <= y < |chains| && x != y ==> Apart(chains[x], chains[y])
    {
      forall x | 0 <= x < |c|
        ensures Apart(c[x], segs) && Apart(segs, c[x]) && Within(c[x])
      {
      }
      assert Within(segs);
    }
  }

  lemma HeadImage(seg: IpcSegment, segs: seq<IpcSegment>, bufs: seq<SegBuffer>)
    requires Heads(seg, segs, bufs)
    ensures bufs != [] && Images(bufs) != [] && Images(bufs)[0] == Image(seg.buffer)
  {
  }
}

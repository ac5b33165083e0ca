/** The accumulator of cpIpcAccum.cpp, which collects the segments of one message, and the map of
    accumulators of cpIpcNodeUtil.cpp, which tells messages apart. */
module Accum {
  import opened Bytes
  import opened Flat
  import opened Segment
  import opened BlockStore

  // -------------------------------------------------------------------------
  // As functions

  /** Put w before the first segment with a higher fragment number. */
  function Insert(ws: seq<Wire>, w: Wire): (r: seq<Wire>)
    ensures |r| == |ws| + 1
  {
    if ws == [] then [w]
    else if FragNum(w) < FragNum(ws[0]) then [w] + ws
    else [ws[0]] + Insert(ws[1..], w)
  }

  lemma {:induction false} InsertAt(ws: seq<Wire>, w: Wire, k: nat)
    requires k <= |ws|
    requires forall j :: 0 <= j < k ==> FragNum(ws[j]) <= FragNum(w)
    requires k < |ws| ==> FragNum(w) < FragNum(ws[k])
    ensures Insert(ws, w) == ws[..k] + [w] + ws[k..]
  {
    hide FragNum;
    if k > 0 {
      InsertAt(ws[1..], w, k - 1);
      assert ws == [ws[0]] + ws[1..];
      assert ws[..k] == [ws[0]] + ws[1..][..k - 1];
    }
  }

  /** What an accumulator holds: the expected and the received number of segments, and the
      segments. */
  datatype Accumulation = Accumulation(total: uint32, received: uint32, wires: seq<Wire>) {
    predicate Complete() { wires != [] && total > 0 && total == received }
  }

  const EMPTY := Accumulation(0, 0, [])

  function Submitted(a: Accumulation, w: Wire): Accumulation {
    Accumulation(if Multipart(w) && Initial(w) then FragNum(w) else a.total,
                 (a.received + 1) % 0x1_0000_0000,
                 Insert(a.wires, w))
  }

  type State = map<int, Accumulation>

  /** One arrival: the accumulators afterwards, and the message that is now delivered, if any. */
  function Arrive(m: State, w: Wire): (State, seq<seq<Wire>>) {
    if Multipart(w) then
      var a := Submitted(if Guid(w) in m then m[Guid(w)] else EMPTY, w);
      if a.Complete() then (m - {Guid(w)}, [a.wires]) else (m[Guid(w) := a], [])
    else
      (m, [[w]])
  }

  // -------------------------------------------------------------------------
  // As objects

  class IpcAccum {
    var total: uint32
    var received: uint32
    var head: IpcSegment?
    ghost var Segs: seq<IpcSegment>
    ghost var Bufs: seq<SegBuffer>

    ghost predicate Valid()
      reads this, Segs
    {
      Chained(Segs, Bufs) && head == if Segs == [] then null else Segs[0]
    }

    ghost function Value(): Accumulation
      reads this
    {
      Accumulation(total, received, Images(Bufs))
    }

    constructor ()
      ensures Valid() && Segs == [] && Value() == EMPTY
    {
      total, received, head := 0, 0, null;
      Segs, Bufs := [], [];
    }

    /** Insert a segment in the order of the fragment numbers. */
    method SubmitSegment(seg: IpcSegment)
      requires Valid() && seg !in Segs && seg.next == null
      modifies this, Segs`next, seg`next
      ensures Valid() && Value() == Submitted(old(Value()), Image(seg.buffer))
      ensures forall s :: s in Segs <==> s in old(Segs) || s == seg
    {
      hide Chained, Image, Images, FragNum, Options, Multipart, Initial, Insert;
      received := (received + 1) % 0x1_0000_0000;
      if Multipart(Image(seg.buffer)) && Initial(Image(seg.buffer)) {
        total := FragNum(Image(seg.buffer));
      }
      var prev, k := FindPlace(seg);
      ImagesInserted(Bufs, seg.buffer, k);
      ghost var low, high := Segs[..k], Segs[k..];
      assert Segs == low + high;
      LinkAfter(prev, seg, k);
    }

    lemma Holds()
      requires Valid()
      ensures Value().wires == Images(Bufs) && |Bufs| == |Segs|
    {
    }

    method Complete() returns (complete: bool)
      requires Valid()
      ensures complete == Value().Complete()
    {
      complete := head != null && total > 0 && total == received;
    }

    /** Hand over the segments. */
    method MessageGet() returns (seg: IpcSegment?)
      requires Valid()
      modifies this`head, this`Segs, this`Bufs
      ensures Valid() && Segs == []
      ensures seg == if old(Segs) == [] then null else old(Segs[0])
    {
      seg := head;
      head, Segs, Bufs := null, [], [];
    }

    /** Walk to the first segment with a higher fragment number; `prev` is the one before it. */
    method FindPlace(seg: IpcSegment) returns (prev: IpcSegment?, ghost k: nat)
      requires Valid()
      ensures k <= |Segs| == |Bufs| && prev == if k == 0 then null else Segs[k - 1]
      ensures var ws := Images(Bufs); Insert(ws, Image(seg.buffer)) == ws[..k] + [Image(seg.buffer)] + ws[k..]
    {
      hide Chained, Image, Images, FragNum, Insert;
      k := 0;
      ghost var w, ws := Image(seg.buffer), Images(Bufs);
      prev := null;
      var curr := head;
      ChainNodes(Segs, Bufs);
      ImagesInserted(Bufs, seg.buffer, 0);
      while curr != null
        invariant k <= |Segs| && curr == if k < |Segs| then Segs[k] else null
        invariant prev == if k == 0 then null else Segs[k - 1]
        invariant forall j :: 0 <= j < k ==> FragNum(ws[j]) <= FragNum(w)
        decreases |Segs| - k
      {
        if FragNum(Image(seg.buffer)) < FragNum(Image(curr.buffer)) {
          break;
        }
        prev := curr;
        curr := curr.next;
        k := k + 1;
      }
      InsertAt(ws, w, k);
    }

    /** Link a segment behind k others. */
    method LinkAfter(prev: IpcSegment?, seg: IpcSegment, ghost k: nat)
      requires Valid() && seg !in Segs && seg.next == null && k <= |Segs|
      requires prev == if k == 0 then null else Segs[k - 1]
      modifies this`head, this`Segs, this`Bufs, Segs`next, seg`next
      ensures Valid() && Segs == old(Segs[..k] + [seg] + Segs[k..])
      ensures Bufs == old(Bufs[..k] + [seg.buffer] + Bufs[k..])
    {
      hide Chained, WithAt;
      ChainNodes(Segs, Bufs);
      if prev == null {
        seg.next := head;
        head := seg;
      } else {
        seg.next := prev.next;
        prev.next := seg;
      }
      ghost var all, bufs := Segs[..k] + [seg] + Segs[k..], Bufs[..k] + [seg.buffer] + Bufs[k..];
      PutInAt(Segs, seg, k);
      PutInAt(Bufs, seg.buffer, k);
      ChainGrows(Segs, Bufs, seg, k, all, bufs);
      Segs, Bufs := all, bufs;
    }
  }

  /** A chain is opened behind k segments, and another one is linked there. */
  lemma ChainGrows(segs: seq<IpcSegment>, bufs: seq<SegBuffer>, seg: IpcSegment, k: nat, all: seq<IpcSegment>, allBufs: seq<SegBuffer>)
    requires |bufs| == |segs| && seg !in segs && k <= |segs| && |all| == |allBufs| == |segs| + 1
    requires forall i :: 0 <= i < |all| ==> all[i] == WithAt(segs, seg, k, i)
    requires forall i :: 0 <= i < |all| ==> allBufs[i] == WithAt(bufs, seg.buffer, k, i)
    requires forall i, j :: 0 <= i < j < |segs| ==> segs[i] != segs[j]
    requires forall i :: 0 <= i < |segs| ==> segs[i].buffer == bufs[i]
    requires seg.next == if k < |segs| then segs[k] else null
    requires forall i {:trigger segs[i].next} :: 0 <= i < |segs| ==>
      segs[i].next == if i + 1 == k then seg else if i + 1 < |segs| then segs[i + 1] else null
    ensures Chained(all, allBufs)
  {
    forall i | 0 <= i < |all|
      ensures all[i].next == if i + 1 < |all| then all[i + 1] else null
      ensures all[i].buffer == allBufs[i]
    {
      assert i + 1 < |all| ==> all[i + 1] == WithAt(segs, seg, k, i + 1);
    }
    forall i, j | 0 <= i < j < |all|
      ensures all[i] != all[j]
    {
      assert all[i] == WithAt(segs, seg, k, i) && all[j] == WithAt(segs, seg, k, j);
    }
  }

  type Accums = map<int, IpcAccum>

  /** The accumulators are in order and hold segments of their own, all among the nodes. */
  ghost predicate InOrder(m: Accums, nodes: set<IpcSegment>)
    reads m.Values, nodes
  {
    && (forall g :: g in m ==> m[g] in m.Values && (forall s :: s in m[g].Segs ==> s in nodes) && m[g].Valid())
    && (forall g, h :: g in m && h in m && g != h ==> Apart(m[g], m[h]))
  }

  ghost predicate Apart(a: IpcAccum, b: IpcAccum)
    reads a, b
  {
    a != b && forall s :: s in a.Segs ==> s !in b.Segs
  }

  ghost function ValueOf(m: Accums): State
    reads m.Values
  {
    map g | g in m :: m[g].Value()
  }

  /** One accumulator is set aside with its segments. */
  lemma SetAside(m: Accums, nodes: set<IpcSegment>, guid: int)
    requires InOrder(m, nodes) && guid in m
    ensures InOrder(m - {guid}, nodes - set s | s in m[guid].Segs) && m[guid].Valid()
    ensures m[guid] !in (m - {guid}).Values && forall s :: s in m[guid].Segs ==> s in nodes
  {
    hide IpcAccum.Valid;
    var rest := m - {guid};
    forall g | g in rest
      ensures rest[g] in rest.Values && Apart(m[g], m[guid])
    {
    }
  }

  /** It is put back, or another one in its place. */
  lemma PutBack(rest: Accums, others: set<IpcSegment>, guid: int, a: IpcAccum, nodes: set<IpcSegment>)
    requires InOrder(rest, others) && others <= nodes && guid !in rest && a !in rest.Values
    requires a.Valid() && forall s :: s in a.Segs ==> s in nodes && s !in others
    ensures InOrder(rest[guid := a], nodes)
  {
    hide IpcAccum.Valid;
    var m := rest[guid := a];
    forall g | g in m
      ensures m[g] in m.Values && (g != guid ==> Apart(m[g], a) && Apart(a, m[g]))
    {
      if g != guid {
        assert rest[g] in rest.Values;
      }
    }
  }

  lemma ValueWithout(m: Accums, guid: int)
    ensures ValueOf(m - {guid}) == ValueOf(m) - {guid}
    ensures guid in m ==> guid in ValueOf(m) && ValueOf(m)[guid] == m[guid].Value()
    ensures guid !in m ==> guid !in ValueOf(m)
  {
    hide IpcAccum.Value;
  }

  lemma ValueWith(rest: Accums, guid: int, a: IpcAccum)
    ensures ValueOf(rest[guid := a]) == ValueOf(rest)[guid := a.Value()]
  {
    hide IpcAccum.Value;
  }

  lemma Replaced<T>(m: map<int, T>, guid: int, a: T, b: T)
    ensures guid in m && m[guid] == a ==> (m - {guid})[guid := a] == m
    ensures (m - {guid})[guid := b] == m[guid := b]
    ensures guid !in m ==> m - {guid} == m
  {
  }

  /** Accumulators by message: IpcAccumMap without its contexts. */
  class IpcAccumMap {
    var accums: Accums
    ghost var Nodes: set<IpcSegment> // every segment that waits in some accumulator

    ghost predicate Valid()
      reads this, accums.Values, Nodes
    {
      InOrder(accums, Nodes)
    }

    ghost function Value(): State
      reads this, accums.Values
    {
      ValueOf(accums)
    }

    constructor ()
      ensures Valid() && accums == map[] && Value() == map[] && Nodes == {}
    {
      accums := map[];
      Nodes := {};
    }

    /** The body of the accumulator thread for one received segment: the head of the message to
        deliver, if it is complete. */
    method AccumSegment(seg: IpcSegment) returns (message: IpcSegment?, ghost segs: seq<IpcSegment>, ghost bufs: seq<SegBuffer>)
      requires Valid() && seg !in Nodes && seg.next == null
      modifies this, accums.Values, Nodes`next, seg`next
      ensures Valid() && Value() == Arrive(old(Value()), Image(seg.buffer)).0
      ensures forall a :: a in accums.Values ==> a in old(accums.Values) || fresh(a)
      ensures Arrive(old(Value()), Image(seg.buffer)).1 == if message == null then [] else [Images(bufs)]
      ensures message != null ==> Chained(segs, bufs) && segs != [] && message == segs[0]
      ensures Nodes == old(Nodes) + {seg} - (set s | s in segs)
      ensures forall s :: s in segs ==> s in old(Nodes) || s == seg
    {
      hide Image, Images, Multipart, Guid, Submitted, Chained, Valid, Value, IpcAccum.Valid, IpcAccum.Value;
      message, segs, bufs := null, [], [];
      if Multipart(Image(seg.buffer)) {
        var guid := Guid(Image(seg.buffer));
        var accum := Lookup(guid);
        Submit(guid, seg);
        Known(guid);
        var complete := accum.Complete();
        if complete {
          message, segs, bufs := Take(guid);
        }
      } else {
        message, segs, bufs := seg, [seg], [seg.buffer];
        SingleSegment(seg);
      }
    }

    lemma Known(guid: int)
      requires Valid() && guid in accums
      ensures accums[guid].Valid() && guid in Value() && Value()[guid] == accums[guid].Value()
    {
      hide IpcAccum.Valid, IpcAccum.Value;
      ValueWithout(accums, guid);
    }

    /** The accumulator of a message, a new one if there is none. */
    method Lookup(guid: int) returns (accum: IpcAccum)
      requires Valid()
      modifies this`accums
      ensures Valid() && guid in accums && accums[guid] == accum
      ensures accum in old(accums.Values) || fresh(accum)
      ensures accums == old(accums)[guid := accum]
      ensures Value() == if guid in old(Value()) then old(Value()) else old(Value())[guid := EMPTY]
    {
      hide InOrder, ValueOf, IpcAccum.Valid, IpcAccum.Value;
      ValueWithout(accums, guid);
      if guid !in accums {
        var a := new IpcAccum();
        PutBack(accums, Nodes, guid, a, Nodes);
        ValueWith(accums, guid, a);
        accums := accums[guid := a];
      }
      accum := accums[guid];
    }

    /** Take the message out of a complete accumulator and erase that. */
    method Take(guid: int) returns (message: IpcSegment, ghost segs: seq<IpcSegment>, ghost bufs: seq<SegBuffer>)
      requires Valid() && guid in accums && Value()[guid].Complete()
      modifies this, accums[guid]
      ensures Valid() && accums == old(accums) - {guid} && Value() == old(Value()) - {guid}
      ensures Images(bufs) == old(Value())[guid].wires
      ensures Chained(segs, bufs) && segs != [] && message == segs[0]
      ensures Nodes == old(Nodes) - (set s | s in segs) && forall s :: s in segs ==> s in old(Nodes)
    {
      hide InOrder, ValueOf, Images, Chained, IpcAccum.Value;
      var accum := accums[guid];
      SetAside(accums, Nodes, guid);
      ValueWithout(accums, guid);
      accum.Holds();
      segs, bufs := accum.Segs, accum.Bufs;
      ChainCount(segs, bufs);
      message := accum.MessageGet();
      accums := accums - {guid};
      Nodes := Nodes - set s | s in segs;
    }

    /** Submit a segment to one of the accumulators. */
    method Submit(guid: int, seg: IpcSegment)
      requires Valid() && guid in accums && seg !in Nodes && seg.next == null
      modifies this`Nodes, accums[guid], Nodes`next, seg`next
      ensures Valid() && Nodes == old(Nodes) + {seg}
      ensures Value() == old(Value())[guid := Submitted(old(Value())[guid], Image(seg.buffer))]
    {
      hide InOrder, ValueOf, Image, Submitted, Images, Chained, IpcAccum.Valid, IpcAccum.Value;
      var accum := accums[guid];
      ghost var rest, others := accums - {guid}, Nodes - set s | s in accum.Segs;
      SetAside(accums, Nodes, guid);
      ValueWithout(accums, guid);
      accum.SubmitSegment(seg);
      Nodes := Nodes + {seg};
      PutBack(rest, others, guid, accum, Nodes);
      ValueWith(rest, guid, accum);
      Replaced(accums, guid, accum, accum);
      Replaced(old(Value()), guid, old(Value())[guid], Value()[guid]);
    }
  }

  lemma SingleSegment(seg: IpcSegment)
    requires seg.next == null
    ensures Chained([seg], [seg.buffer]) && Images([seg.buffer]) == [Image(seg.buffer)]
  {
  }

  lemma ImagesInserted(bufs: seq<SegBuffer>, b: SegBuffer, k: nat)
    requires k <= |bufs|
    ensures Images(bufs[..k] + [b] + bufs[k..]) == Images(bufs)[..k] + [Image(b)] + Images(bufs)[k..]
    ensures forall i :: 0 <= i < |bufs| ==> Images(bufs)[i] == Image(bufs[i])
  {
  }

  lemma ChainNodes(segs: seq<IpcSegment>, bufs: seq<SegBuffer>)
    requires Chained(segs, bufs)
    ensures |bufs| == |segs|
    ensures forall i, j :: 0 <= i < j < |segs| ==> segs[i] != segs[j]
    ensures forall i :: 0 <= i < |segs| ==> segs[i].buffer == bufs[i]
    ensures forall i {:trigger segs[i].next} :: 0 <= i < |segs| ==> segs[i].next == if i + 1 < |segs| then segs[i + 1] else null
  {
  }
}

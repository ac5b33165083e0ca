/** How the transmit queue of cpIpcNodeUtil.cpp wakes its transmit thread: any number of senders
    and one transmit thread, in every interleaving of their steps. */
module TransmitSignal {
  import opened Threads

  /** A sender in `TransmitMessage`, about to do what the name says. */
  datatype SenderPc = Outside | Lock(segments: nat) | Insert(segments: nat) | Unlock | Give

  /** The transmit thread in `SegmentGet`, likewise; at Take it waits for the semaphore. */
  datatype TransmitPc = Take | TransmitLock | Pop | CheckQueue | CheckCount | GiveBack | TransmitUnlock

  /** The transmit thread holds the mutex under this number. */
  const TRANSMIT := 0

  const MAX_COUNT := 0xffff_ffff

  /** The semaphore count, the queue as the numbers of segments left in its messages, the mutex,
      and the threads; and how many segments were queued and taken. */
  datatype State = State(count: nat, queue: seq<nat>, mutex: Owner, senders: seq<SenderPc>, transmit: TransmitPc,
                         queued: nat, taken: nat)

  predicate Init(s: State) {
    && s.count == 0 && s.queue == [] && s.mutex == Free && s.transmit == Take && s.queued == s.taken == 0
    && forall i :: 0 <= i < |s.senders| ==> s.senders[i] == Outside
  }

  /** A sender's step; a new message has some number of segments and goes to some place. */
  predicate SenderCan(s: State, i: nat) {
    i < |s.senders| && (s.senders[i].Lock? ==> s.mutex == Free)
  }

  function SenderNext(s: State, i: nat, segments: nat, place: nat): State
    requires SenderCan(s, i)
  {
    match s.senders[i]
    case Outside => s.(senders := s.senders[i := Lock(segments + 1)])
    case Lock(n) => s.(mutex := Held(i + 1), senders := s.senders[i := Insert(n)])
    case Insert(n) =>
      var x := if place < |s.queue| then place else |s.queue|;
      s.(queue := s.queue[..x] + [n] + s.queue[x..], queued := s.queued + n, senders := s.senders[i := Unlock])
    case Unlock => s.(mutex := Free, senders := s.senders[i := Give])
    case Give => s.(count := if s.count < MAX_COUNT then s.count + 1 else s.count, senders := s.senders[i := Outside])
  }

  predicate TransmitCan(s: State) {
    match s.transmit
    case Take => s.count > 0
    case TransmitLock => s.mutex == Free
    case _ => true
  }

  function TransmitNext(s: State): State
    requires TransmitCan(s)
  {
    match s.transmit
    case Take => s.(count := s.count - 1, transmit := TransmitLock)
    case TransmitLock => s.(mutex := Held(TRANSMIT), transmit := Pop)
    case Pop =>
      if s.queue == [] then s.(transmit := CheckQueue)
      else
        var n := s.queue[0];
        s.(queue := (if n > 1 then [n - 1] else []) + s.queue[1..], taken := s.taken + 1, transmit := CheckQueue)
    case CheckQueue => s.(transmit := if s.queue != [] then CheckCount else TransmitUnlock)
    case CheckCount => s.(transmit := if s.count == 0 then GiveBack else TransmitUnlock)
    case GiveBack => s.(count := if s.count < MAX_COUNT then s.count + 1 else s.count, transmit := TransmitUnlock)
    case TransmitUnlock => s.(mutex := Free, transmit := Take)
  }

  // -------------------------------------------------------------------------
  // The invariant

  /** Some sender has inserted a message and not yet signalled it. */
  ghost predicate SignalDue(s: State) {
    exists i :: 0 <= i < |s.senders| && (s.senders[i].Unlock? || s.senders[i].Give?)
  }

  /** A queued segment is never forgotten: the semaphore is signalled, or will be by a sender, or
      the transmit thread is about to look. */
  ghost predicate Awake(s: State) {
    s.queue != [] ==> s.count > 0 || SignalDue(s) || (!s.transmit.Take? && !s.transmit.TransmitUnlock?)
  }

  predicate SenderHolds(s: State, i: nat) { s.mutex == Held(i + 1) }

  ghost predicate Exclusive(s: State) {
    && (s.mutex == Held(TRANSMIT) <==> !s.transmit.Take? && !s.transmit.TransmitLock?)
    && forall i :: 0 <= i < |s.senders| ==> (SenderHolds(s, i) <==> s.senders[i].Insert? || s.senders[i].Unlock?)
  }

  ghost predicate Inv(s: State) {
    && Awake(s) && Exclusive(s)
    && (s.transmit.GiveBack? || s.transmit.CheckCount? ==> s.queue != [])
    && (forall i :: 0 <= i < |s.senders| && s.senders[i].Lock? ==> s.senders[i].segments > 0)
    && (forall i :: 0 <= i < |s.senders| && s.senders[i].Insert? ==> s.senders[i].segments > 0)
    && s.queued == s.taken + Total(s.queue) && forall x :: 0 <= x < |s.queue| ==> s.queue[x] > 0
  }

  function Total(q: seq<nat>): nat { Sum(q, n => n) }

  lemma {:induction false} TotalInserted(q: seq<nat>, x: nat, n: nat)
    requires x <= |q|
    ensures Total(q[..x] + [n] + q[x..]) == Total(q) + n
  {
    var r, last := q[..x] + [n] + q[x..], |q| - 1;
    if x == |q| {
      assert r[..|r| - 1] == q;
    } else {
      TotalInserted(q[..last], x, n);
      assert r[..|r| - 1] == q[..last][..x] + [n] + q[..last][x..];
    }
  }

  lemma {:induction false} TotalFront(q: seq<nat>)
    requires q != []
    ensures Total(q) == q[0] + Total(q[1..])
  {
    TotalInserted(q[1..], 0, q[0]);
    assert q[1..][..0] + [q[0]] + q[1..][0..] == q;
  }

  lemma SenderKeeps(s: State, i: nat, segments: nat, place: nat)
    requires Inv(s) && SenderCan(s, i)
    ensures Inv(SenderNext(s, i, segments, place))
  {
    hide Total;
    var s' := SenderNext(s, i, segments, place);
    var x := if place < |s.queue| then place else |s.queue|;
    if s.senders[i].Insert? {
      TotalInserted(s.queue, x, s.senders[i].segments);
      assert s'.senders[i].Unlock?;
    } else if s.senders[i].Unlock? {
      assert s'.senders[i].Give?;
    } else if s.queue != [] && SignalDue(s) {
      var k :| 0 <= k < |s.senders| && (s.senders[k].Unlock? || s.senders[k].Give?);
      assert k != i ==> s'.senders[k] == s.senders[k];
    }
  }

  lemma TransmitKeeps(s: State)
    requires Inv(s) && TransmitCan(s)
    ensures Inv(TransmitNext(s))
  {
    hide Total;
    var s' := TransmitNext(s);
    if s.transmit.Pop? && s.queue != [] {
      TotalFront(s.queue);
      if s.queue[0] > 1 {
        TotalFront(s'.queue);
        assert s'.queue[1..] == s.queue[1..];
      } else {
        assert s'.queue == s.queue[1..];
      }
    }
    if SignalDue(s) {
      var k :| 0 <= k < |s.senders| && (s.senders[k].Unlock? || s.senders[k].Give?);
      assert s'.senders[k] == s.senders[k];
    }
  }

  // -------------------------------------------------------------------------
  // Every run

  ghost predicate Steps(s: State, s': State) {
    || (exists i: nat, n: nat, x: nat :: SenderCan(s, i) && s' == SenderNext(s, i, n, x))
    || (TransmitCan(s) && s' == TransmitNext(s))
  }

  ghost predicate Run(t: seq<State>) {
    t != [] && Init(t[0]) && forall k :: 0 <= k < |t| - 1 ==> Steps(t[k], t[k + 1])
  }

  lemma {:induction false} RunKeeps(t: seq<State>, k: nat)
    requires Run(t) && k < |t|
    ensures Inv(t[k])
  {
    hide Inv, SenderNext, TransmitNext, SenderCan, TransmitCan;
    if k == 0 {
      InitHolds(t[0]);
    } else {
      RunKeeps(t, k - 1);
      var s := t[k - 1];
      assert Steps(s, t[k - 1 + 1]);
      if TransmitCan(s) && t[k] == TransmitNext(s) {
        TransmitKeeps(s);
      } else {
        var i: nat, n: nat, x: nat :| SenderCan(s, i) && t[k] == SenderNext(s, i, n, x);
        SenderKeeps(s, i, n, x);
      }
    }
  }

  lemma InitHolds(s: State)
    requires Init(s)
    ensures Inv(s)
  {
    assert Total([]) == 0;
  }

  /** No lost wakeup: whenever the queue holds a segment, the semaphore is signalled, a sender is
      about to signal it, or the transmit thread is between its take and its check. */
  lemma NoLostWakeup(t: seq<State>, k: nat)
    requires Run(t) && k < |t|
    ensures Awake(t[k])
    ensures t[k].queued == t[k].taken + Total(t[k].queue)
  {
    RunKeeps(t, k);
  }

  /** If nothing can happen any more but new messages, everything that was queued was taken. */
  lemma AsleepMeansDone(t: seq<State>, k: nat)
    requires Run(t) && k < |t|
    requires !TransmitCan(t[k]) && forall i :: 0 <= i < |t[k].senders| ==> t[k].senders[i] == Outside
    ensures t[k].queue == [] && t[k].taken == t[k].queued
  {
    RunKeeps(t, k);
    var s := t[k];
    MutexIsHeld(t, k);
    assert Total([]) == 0;
  }

  /** The mutex is held by some thread or free. */
  lemma {:induction false} MutexIsHeld(t: seq<State>, k: nat)
    requires Run(t) && k < |t|
    ensures t[k].mutex == Free || t[k].mutex == Held(TRANSMIT) || exists i :: 0 <= i < |t[k].senders| && SenderHolds(t[k], i)
  {
    if k > 0 {
      MutexIsHeld(t, k - 1);
      var s := t[k - 1];
      assert Steps(s, t[k - 1 + 1]);
      if !(TransmitCan(s) && t[k] == TransmitNext(s)) {
        var i: nat, n: nat, x: nat :| SenderCan(s, i) && t[k] == SenderNext(s, i, n, x);
        assert s.senders[i].Lock? ==> SenderHolds(t[k], i);
        assert forall j :: 0 <= j < |s.senders| && t[k].mutex == s.mutex && SenderHolds(s, j) ==> SenderHolds(t[k], j);
      } else {
        assert forall j :: 0 <= j < |s.senders| && t[k].mutex == s.mutex && SenderHolds(s, j) ==> SenderHolds(t[k], j);
      }
    }
  }

  // -------------------------------------------------------------------------
  // Every segment is accounted for

  /** Who takes a step; a sender that is outside submits a message of so many more segments than one. */
  datatype Move = Sends(sender: nat, segments: nat, place: nat) | Transmits

  ghost predicate Moves(s: State, s': State, m: Move) {
    match m
    case Sends(i, n, x) => SenderCan(s, i) && s' == SenderNext(s, i, n, x)
    case Transmits => TransmitCan(s) && s' == TransmitNext(s)
  }

  /** A run with the move of every step */
  ghost predicate Trace(t: seq<State>, m: seq<Move>) {
    |t| == |m| + 1 && Init(t[0]) && forall k :: 0 <= k < |m| ==> Moves(t[k], t[k + 1], m[k])
  }

  /** Every run is such a trace. */
  lemma {:induction false} RunHasMoves(t: seq<State>) returns (m: seq<Move>)
    requires Run(t)
    ensures Trace(t, m)
  {
    hide Steps, Moves, Init;
    if |t| == 1 {
      m := [];
    } else {
      var n := |t| - 1;
      forall k | 0 <= k < n - 1
        ensures Steps(t[..n][k], t[..n][k + 1])
      {
        assert Steps(t[k], t[k + 1]);
      }
      m := RunHasMoves(t[..n]);
      assert Steps(t[n - 1], t[n - 1 + 1]);
      var last := StepHasMove(t[n - 1], t[n]);
      m := m + [last];
    }
  }

  lemma StepHasMove(s: State, s': State) returns (m: Move)
    requires Steps(s, s')
    ensures Moves(s, s', m)
  {
    if TransmitCan(s) && s' == TransmitNext(s) {
      m := Transmits;
    } else {
      var i: nat, n: nat, x: nat :| SenderCan(s, i) && s' == SenderNext(s, i, n, x);
      m := Sends(i, n, x);
    }
  }

  /** The segments of all messages that callers began to submit up to state k */
  function Begun(t: seq<State>, m: seq<Move>, k: nat): nat
    requires k <= |m| < |t|
  {
    if k == 0 then 0
    else
      var i := if m[k - 1].Sends? then m[k - 1].sender else 0;
      Begun(t, m, k - 1) + if m[k - 1].Sends? && i < |t[k - 1].senders| && t[k - 1].senders[i].Outside? then m[k - 1].segments + 1 else 0
  }

  /** How often the transmit thread found a segment */
  function Served(t: seq<State>, m: seq<Move>, k: nat): nat
    requires k <= |m| < |t|
  {
    if k == 0 then 0
    else Served(t, m, k - 1) + if m[k - 1].Transmits? && t[k - 1].transmit.Pop? && t[k - 1].queue != [] then 1 else 0
  }

  /** The segments of a message that its sender has still to insert */
  function Pending(pc: SenderPc): nat {
    match pc
    case Lock(n) => n
    case Insert(n) => n
    case _ => 0
  }

  /** Whatever was submitted is still with its sender, in the queue, or was served. */
  lemma {:induction false} Conserved(t: seq<State>, m: seq<Move>, k: nat)
    requires Trace(t, m) && k < |t|
    ensures Begun(t, m, k) == Sum(t[k].senders, Pending) + Total(t[k].queue) + Served(t, m, k)
    ensures t[k].taken == Served(t, m, k)
    ensures forall x :: 0 <= x < |t[k].queue| ==> t[k].queue[x] > 0
  {
    hide Moves, Init, Total, Sum, Inv, SenderNext, TransmitNext;
    if k == 0 {
      NothingYet(t[0]);
    } else {
      Conserved(t, m, k - 1);
      var s, s' := t[k - 1], t[k - 1 + 1];
      assert Moves(s, s', m[k - 1]);
      assert Inv(s) by {
        TraceRuns(t, m);
        RunKeeps(t, k - 1);
      }
      MoveIs(s, s', m[k - 1]);
      match m[k - 1]
      case Sends(i, n, x) => SenderConserves(s, i, n, x);
      case Transmits => TransmitConserves(s);
    }
  }

  lemma MoveIs(s: State, s': State, m: Move)
    requires Moves(s, s', m)
    ensures m.Sends? ==> SenderCan(s, m.sender) && s' == SenderNext(s, m.sender, m.segments, m.place)
    ensures m.Transmits? ==> TransmitCan(s) && s' == TransmitNext(s)
  {
  }

  lemma TraceRuns(t: seq<State>, m: seq<Move>)
    requires Trace(t, m)
    ensures Run(t)
  {
    forall k | 0 <= k < |t| - 1
      ensures Steps(t[k], t[k + 1])
    {
      assert Moves(t[k], t[k + 1], m[k]);
    }
  }

  lemma NothingYet(s: State)
    requires Init(s)
    ensures Sum(s.senders, Pending) == 0 && Total(s.queue) == 0 && s.queue == [] && s.taken == 0
  {
    SumZero(s.senders, Pending);
  }

  lemma SenderConserves(s: State, i: nat, segments: nat, place: nat)
    requires Inv(s) && SenderCan(s, i)
    ensures var s' := SenderNext(s, i, segments, place);
      && Sum(s'.senders, Pending) + Total(s'.queue) ==
         Sum(s.senders, Pending) + Total(s.queue) + (if s.senders[i].Outside? then segments + 1 else 0)
      && s'.taken == s.taken && forall x :: 0 <= x < |s'.queue| ==> s'.queue[x] > 0
  {
    hide Sum, Total, Awake, Exclusive;
    var s' := SenderNext(s, i, segments, place);
    SumUpdate(s.senders, i, s'.senders[i], Pending);
    if s.senders[i].Insert? {
      TotalInserted(s.queue, if place < |s.queue| then place else |s.queue|, s.senders[i].segments);
    }
  }

  lemma TransmitConserves(s: State)
    requires Inv(s) && TransmitCan(s)
    ensures var s', one := TransmitNext(s), if s.transmit.Pop? && s.queue != [] then 1 else 0;
      && s'.senders == s.senders && Total(s'.queue) + one == Total(s.queue) && s'.taken == s.taken + one
      && forall x :: 0 <= x < |s'.queue| ==> s'.queue[x] > 0
  {
    hide Sum, Total, Awake, Exclusive;
    var s' := TransmitNext(s);
    if s.transmit.Pop? && s.queue != [] {
      TotalFront(s.queue);
      if s.queue[0] > 1 {
        TotalFront(s'.queue);
        assert s'.queue[1..] == s.queue[1..];
      } else {
        assert s'.queue == s.queue[1..];
      }
    }
  }

  /** If nothing can happen any more but new messages, every segment of every message that was ever
      submitted has been served. */
  lemma AllServed(t: seq<State>, m: seq<Move>, k: nat)
    requires Trace(t, m) && k < |t|
    requires !TransmitCan(t[k]) && forall i :: 0 <= i < |t[k].senders| ==> t[k].senders[i] == Outside
    ensures Served(t, m, k) == Begun(t, m, k)
  {
    hide Moves, Init;
    Conserved(t, m, k);
    TraceRuns(t, m);
    AsleepMeansDone(t, k);
    SumZero(t[k].senders, Pending);
    assert Total([]) == 0;
  }
}

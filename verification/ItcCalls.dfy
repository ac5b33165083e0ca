/** What the calls of the bounded queue pass on: the argument of a `Put` and the result of a `Get`,
    in every interleaving. */
module ItcCalls {
  import opened Threads
  import opened ItcQueue

  /** Who takes a step, and the call that it makes if it is idle */
  datatype Move = Move(thread: nat, call: Call)

  /** A run with the move of every step */
  ghost predicate Trace(t: seq<State>, m: seq<Move>) {
    && |t| == |m| + 1 && Init(t[0])
    && forall k :: 0 <= k < |m| ==> Moves(t[k], t[k + 1], m[k])
  }

  ghost predicate Moves(s: State, s': State, m: Move) {
    Enabled(s, m.thread, m.call) && s' == Next(s, m.thread, m.call)
  }

  /** Every run is such a trace. */
  lemma {:induction false} RunHasMoves(t: seq<State>) returns (m: seq<Move>)
    requires Run(t)
    ensures Trace(t, m)
  {
    hide Enabled, Next, Init;
    if |t| == 1 {
      m := [];
    } else {
      var n := |t| - 1;
      assert Run(t[..n]) by {
        forall k | 0 <= k < n - 1
          ensures Steps(t[..n][k], t[..n][k + 1])
        {
          assert Steps(t[k], t[k + 1]);
        }
      }
      m := RunHasMoves(t[..n]);
      assert Steps(t[n - 1], t[n - 1 + 1]);
      var i: nat, c :| Enabled(t[n - 1], i, c) && t[n] == Next(t[n - 1], i, c);
      var m' := m + [Move(i, c)];
      forall k | 0 <= k < |m'|
        ensures Moves(t[k], t[k + 1], m'[k])
      {
        if k < n - 1 {
          assert Moves(t[..n][k], t[..n][k + 1], m[k]);
        }
      }
      m := m';
    }
  }

  lemma TraceKeeps(t: seq<State>, m: seq<Move>, k: nat)
    requires Trace(t, m) && k < |t|
    ensures Inv(t[k]) && |t[k].threads| == |t[0].threads|
  {
    hide Inv, Init, Enabled, Next;
    forall j | 0 <= j < |t| - 1
      ensures Steps(t[j], t[j + 1])
    {
      assert Moves(t[j], t[j + 1], m[j]);
    }
    RunKeeps(t, k);
  }

  // -------------------------------------------------------------------------
  // One call

  /** From step b on, where it began, until state k the thread is in one call. */
  ghost predicate InCall(t: seq<State>, m: seq<Move>, i: nat, b: nat, k: nat)
    requires Trace(t, m) && k < |t|
  {
    && b < k && m[b].thread == i && IsIdle(t[b], i)
    && forall x :: b < x <= k ==> !IsIdle(t[x], i)
  }

  predicate IsIdle(s: State, i: nat) { i < |s.threads| ==> s.threads[i].Idle? }

  /** The thread leaves the deque alone from step a to before step c. */
  ghost predicate Passive(t: seq<State>, m: seq<Move>, i: nat, a: nat, c: nat)
    requires Trace(t, m) && c < |t|
  {
    forall x :: a <= x < c && m[x].thread == i ==> t[x + 1].queue == t[x].queue
  }

  /** What a call does to the deque, and what it has for its caller then */
  predicate Does(call: Call, before: seq<int>, after: seq<int>, pc: Pc) {
    match call
    case Put(e) => after == before + [e]
    case Get => (pc.GetGive? || pc.GetUnlock?) && before == [pc.e] + after
  }

  /** The deque was already changed in this call. */
  predicate Done(pc: Pc) { pc.PutGive? || pc.PutUnlock? || pc.GetGive? || pc.GetUnlock? }

  predicate InPut(pc: Pc) { pc.PutLock? || pc.PutPush? || pc.PutGive? || pc.PutUnlock? }

  /** A thread before its change: what it will do is what was called for. */
  predicate Intends(pc: Pc, call: Call) {
    && (InPut(pc) <==> call.Put?)
    && (pc.PutLock? || pc.PutPush? ==> call == Put(pc.e))
  }

  /** The step of another thread */
  lemma OtherStep(s: State, s': State, m: Move, i: nat)
    requires Moves(s, s', m) && i != m.thread
    ensures |s'.threads| == |s.threads| && (i < |s.threads| ==> s'.threads[i] == s.threads[i])
  {
  }

  /** The step of a thread in a call */
  lemma OwnStep(s: State, s': State, m: Move, call: Call)
    requires Moves(s, s', m) && Inv(s)
    ensures var pc, pc' := s.threads[m.thread], s'.threads[m.thread];
      && (pc.Idle? ==> !Done(pc') && Intends(pc', m.call) && s'.queue == s.queue)
      && (!pc.Idle? && !pc'.Idle? && !Done(pc) && Intends(pc, call) ==>
        Intends(pc', call) && if Done(pc') then Does(call, s.queue, s'.queue, pc') else s'.queue == s.queue)
      && (Done(pc) ==> s'.queue == s.queue && (pc'.Idle? || Done(pc')))
      && (Done(pc) && !pc'.Idle? ==> (Intends(pc, call) ==> Intends(pc', call)) && (pc.GetGive? ==> pc' == GetUnlock(pc.e)))
      && (pc'.Idle? <==> pc.PutUnlock? || pc.GetUnlock?)
  {
    assert Exclusive(s);
    assert s.threads[m.thread].GetPop? ==> s.queue == [s.queue[0]] + s.queue[1..];
  }

  /** A thread in a call: where it began, and the one step in which it changed the deque, if it did
      already. */
  lemma {:induction false} CallSoFar(t: seq<State>, m: seq<Move>, i: nat, k: nat) returns (b: nat, j: nat)
    requires Trace(t, m) && k < |t| && !IsIdle(t[k], i)
    ensures InCall(t, m, i, b, k) && Intends(t[k].threads[i], m[b].call)
    ensures !Done(t[k].threads[i]) ==> Passive(t, m, i, b, k)
    ensures Done(t[k].threads[i]) ==>
      && b < j < k && m[j].thread == i && Passive(t, m, i, b, j) && Passive(t, m, i, j + 1, k)
      && Does(m[b].call, t[j].queue, t[j + 1].queue, t[k].threads[i])
    decreases k
  {
    hide Moves, Init, Inv, Does, Done, Intends;
    TraceKeeps(t, m, k);
    if k == 0 {
      NobodyYet(t[0]);
    } else {
      var s, s' := t[k - 1], t[k - 1 + 1];
      assert Moves(s, s', m[k - 1]);
      TraceKeeps(t, m, k - 1);
      if m[k - 1].thread != i {
        OtherStep(s, s', m[k - 1], i);
        b, j := CallSoFar(t, m, i, k - 1);
      } else if s.threads[i].Idle? {
        OwnStep(s, s', m[k - 1], Get);
        b, j := k - 1, k - 1;
      } else {
        b, j := CallSoFar(t, m, i, k - 1);
        OwnStep(s, s', m[k - 1], m[b].call);
        if Done(s.threads[i]) {
          StillDoes(m[b].call, t[j].queue, t[j + 1].queue, s.threads[i], s'.threads[i]);
        } else if Done(s'.threads[i]) {
          j := k - 1;
        }
      }
    }
  }

  lemma NobodyYet(s: State)
    requires Init(s)
    ensures forall i: nat :: IsIdle(s, i)
  {
  }

  lemma StillDoes(call: Call, before: seq<int>, after: seq<int>, pc: Pc, pc': Pc)
    requires Does(call, before, after, pc) && Done(pc) && Done(pc') && Intends(pc, call) && Intends(pc', call)
    requires !pc.GetUnlock? && (pc.GetGive? ==> pc' == GetUnlock(pc.e))
    ensures Does(call, before, after, pc')
  {
  }

  /** Every call that returns has changed the deque in exactly one of its steps: a `Put` has appended
      its argument, and a `Get` has removed the front element, which it hands over. */
  lemma CallChangesOnce(t: seq<State>, m: seq<Move>, r: nat) returns (b: nat, j: nat)
    requires Trace(t, m) && r < |m| && !IsIdle(t[r], m[r].thread) && IsIdle(t[r + 1], m[r].thread)
    ensures InCall(t, m, m[r].thread, b, r) && b < j < r && m[j].thread == m[r].thread
    ensures Passive(t, m, m[r].thread, b, j) && Passive(t, m, m[r].thread, j + 1, r + 1)
    ensures match m[b].call
            case Put(e) => t[r].threads[m[r].thread].PutUnlock? && t[j + 1].queue == t[j].queue + [e]
            case Get => t[r].threads[m[r].thread].GetUnlock? && t[j].queue == [t[r].threads[m[r].thread].e] + t[j + 1].queue
  {
    hide Moves, Init, Inv;
    b, j := CallSoFar(t, m, m[r].thread, r);
    assert Moves(t[r], t[r + 1], m[r]);
    TraceKeeps(t, m, r);
    OtherStep(t[r], t[r + 1], m[r], m[r].thread + 1);
    SizeStep(t[r], t[r + 1], m[r]);
    OwnStep(t[r], t[r + 1], m[r], m[b].call);
  }

  lemma SizeStep(s: State, s': State, m: Move)
    requires Moves(s, s', m)
    ensures |s'.threads| == |s.threads| && m.thread < |s.threads|
  {
  }

  // -------------------------------------------------------------------------
  // First in, first out

  /** What a step appends to the deque, and what it removes */
  function Added(s: State, s': State): seq<int> {
    if |s'.queue| > |s.queue| then [s'.queue[|s'.queue| - 1]] else []
  }

  function Dropped(s: State, s': State): seq<int> {
    if |s'.queue| < |s.queue| then [s.queue[0]] else []
  }

  /** The elements that were appended up to state k, and those that were removed, in order */
  function Appended(t: seq<State>, k: nat): seq<int>
    requires k < |t|
  {
    if k == 0 then [] else Appended(t, k - 1) + Added(t[k - 1], t[k])
  }

  function Removed(t: seq<State>, k: nat): seq<int>
    requires k < |t|
  {
    if k == 0 then [] else Removed(t, k - 1) + Dropped(t[k - 1], t[k])
  }

  lemma QueueStep(s: State, s': State, m: Move)
    requires Moves(s, s', m) && Exclusive(s)
    ensures s.queue + Added(s, s') == Dropped(s, s') + s'.queue
    ensures s'.pushed == s.pushed + Added(s, s') && s'.popped == s.popped + Dropped(s, s')
  {
    assert s.queue != [] ==> s.queue == [s.queue[0]] + s.queue[1..];
  }

  /** What was appended and not removed is in the deque. */
  lemma {:induction false} FirstInFirstOut(t: seq<State>, m: seq<Move>, k: nat)
    requires Trace(t, m) && k < |t|
    ensures Appended(t, k) == Removed(t, k) + t[k].queue
    ensures t[k].pushed == Appended(t, k) && t[k].popped == Removed(t, k)
  {
    hide Moves, Init, Exclusive, Added, Dropped;
    if k == 0 {
      StartsEmpty(t[0]);
    } else {
      FirstInFirstOut(t, m, k - 1);
      TraceKeeps(t, m, k - 1);
      var s, s' := t[k - 1], t[k - 1 + 1];
      assert Moves(s, s', m[k - 1]);
      QueueStep(s, s', m[k - 1]);
      var gone := Removed(t, k - 1);
      assert gone + s.queue + Added(s, s') == gone + (s.queue + Added(s, s'));
      assert gone + (Dropped(s, s') + s'.queue) == gone + Dropped(s, s') + s'.queue;
    }
  }

  lemma StartsEmpty(s: State)
    requires Init(s)
    ensures s.queue == s.pushed == s.popped == []
  {
  }

  /** The step that appended the n-th element */
  lemma {:induction false} AppendedAt(t: seq<State>, k: nat, n: nat) returns (j: nat)
    requires k < |t| && n < |Appended(t, k)|
    ensures j < k && |Appended(t, j)| == n && |t[j + 1].queue| > |t[j].queue|
    ensures t[j + 1].queue[|t[j + 1].queue| - 1] == Appended(t, k)[n]
  {
    if n < |Appended(t, k - 1)| {
      j := AppendedAt(t, k - 1, n);
    } else {
      j := k - 1;
    }
  }

  /** The call of `Get` that removes the n-th element to be removed returns the argument of the call
      of `Put` that appended the n-th element to be appended. */
  lemma NthGetNthPut(t: seq<State>, m: seq<Move>, r: nat) returns (b: nat, j: nat, b': nat, j': nat)
    requires Trace(t, m) && r < |m| && !IsIdle(t[r], m[r].thread) && IsIdle(t[r + 1], m[r].thread) && t[r].threads[m[r].thread].GetUnlock?
    ensures InCall(t, m, m[r].thread, b, r) && m[b].call == Get && b < j < r && m[j].thread == m[r].thread
    ensures |Removed(t, j + 1)| == |Removed(t, j)| + 1
    ensures j' < j && InCall(t, m, m[j'].thread, b', j') && m[b'].call == Put(t[r].threads[m[r].thread].e)
    ensures |Appended(t, j')| == |Removed(t, j)| && |Appended(t, j' + 1)| == |Appended(t, j')| + 1
  {
    hide Moves, Init, Inv, Exclusive;
    b, j := CallChangesOnce(t, m, r);
    FirstInFirstOut(t, m, j);
    var n := |Removed(t, j)|;
    j' := AppendedAt(t, j, n);
    assert Appended(t, j)[n] == t[j].queue[0];
    b' := Appender(t, m, j');
  }

  /** A step that appends is one of a call of `Put` with that argument. */
  lemma Appender(t: seq<State>, m: seq<Move>, j: nat) returns (b: nat)
    requires Trace(t, m) && j < |m| && |t[j + 1].queue| > |t[j].queue|
    ensures InCall(t, m, m[j].thread, b, j) && m[b].call == Put(t[j + 1].queue[|t[j + 1].queue| - 1])
  {
    hide Init, Inv;
    assert Moves(t[j], t[j + 1], m[j]);
    var x;
    b, x := CallSoFar(t, m, m[j].thread, j);
  }
}

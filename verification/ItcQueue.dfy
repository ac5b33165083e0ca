/** The bounded queue of cpItcQueue.cpp under any number of threads that put and get, in every
    interleaving of their steps. */
module ItcQueue {
  import opened Threads

  /** Where a thread is in `Put` or `Get`: it is about to do what the name says. */
  datatype Pc =
    | Idle
    | PutLock(e: int) | PutPush(e: int) | PutGive | PutUnlock
    | GetLock | GetFront | GetPop(e: int) | GetGive(e: int) | GetUnlock(e: int)

  datatype Call = Put(e: int) | Get

  /** The semaphores, the deque and the mutex, the threads, and all elements ever pushed and
      popped. */
  datatype State = State(depth: nat, semPut: nat, semGet: nat, queue: seq<int>, mutex: Owner,
                         threads: seq<Pc>, pushed: seq<int>, popped: seq<int>)

  predicate Init(s: State) {
    && s.semPut == s.depth && s.semGet == 0 && s.queue == s.pushed == s.popped == [] && s.mutex == Free
    && forall i :: 0 <= i < |s.threads| ==> s.threads[i] == Idle
  }

  /** A thread that cannot take a step waits: for a semaphore or for the mutex. */
  predicate Enabled(s: State, i: nat, c: Call) {
    i < |s.threads| &&
    match s.threads[i]
    case Idle => if c.Put? then s.semPut > 0 else s.semGet > 0
    case PutLock(_) => s.mutex == Free
    case GetLock => s.mutex == Free
    case _ => true
  }

  /** `Give`: no effect at the maximum */
  function Given(count: nat, max: nat): nat { if count < max then count + 1 else count }

  /** Thread i takes its next step; an idle thread makes the call c. */
  function Next(s: State, i: nat, c: Call): State
    requires Enabled(s, i, c)
  {
    var t := s.threads;
    match s.threads[i]
    case Idle =>
      if c.Put? then s.(semPut := s.semPut - 1, threads := t[i := PutLock(c.e)])
      else s.(semGet := s.semGet - 1, threads := t[i := GetLock])
    case PutLock(e) => s.(mutex := Held(i), threads := t[i := PutPush(e)])
    case PutPush(e) => s.(queue := s.queue + [e], pushed := s.pushed + [e], threads := t[i := PutGive])
    case PutGive => s.(semGet := Given(s.semGet, s.depth), threads := t[i := PutUnlock])
    case PutUnlock => s.(mutex := Free, threads := t[i := Idle])
    case GetLock => s.(mutex := Held(i), threads := t[i := GetFront])
    case GetFront => s.(threads := t[i := GetPop(if s.queue == [] then 0 else s.queue[0])])
    case GetPop(e) =>
      s.(queue := if s.queue == [] then [] else s.queue[1..], popped := s.popped + [e], threads := t[i := GetGive(e)])
    case GetGive(e) => s.(semPut := Given(s.semPut, s.depth), threads := t[i := GetUnlock(e)])
    case GetUnlock(e) => s.(mutex := Free, threads := t[i := Idle])
  }

  // -------------------------------------------------------------------------
  // The invariant

  /** Between the take and the give of a call */
  function InFlight(pc: Pc): nat {
    match pc
    case Idle => 0
    case PutUnlock => 0
    case GetUnlock(_) => 0
    case _ => 1
  }

  /** An element that is in the deque but not in the count of the get semaphore */
  function Uncounted(pc: Pc): nat {
    match pc
    case PutGive => 1
    case GetLock => 1
    case GetFront => 1
    case GetPop(_) => 1
    case _ => 0
  }

  predicate Inside(pc: Pc) { !pc.Idle? && !pc.PutLock? && !pc.GetLock? }

  ghost predicate Inv(s: State) {
    && s.semPut + s.semGet + Sum(s.threads, InFlight) == s.depth
    && |s.queue| == s.semGet + Sum(s.threads, Uncounted)
    && s.pushed == s.popped + s.queue
    && Exclusive(s)
  }

  /** Only the holder of the mutex is inside, and it has seen the front element. */
  ghost predicate Exclusive(s: State) {
    forall i :: 0 <= i < |s.threads| ==>
      && (Inside(s.threads[i]) <==> s.mutex == Held(i))
      && (s.threads[i].GetPop? ==> s.queue != [] && s.queue[0] == s.threads[i].e)
  }

  lemma InitHolds(s: State)
    requires Init(s)
    ensures Inv(s)
  {
    SumZero(s.threads, InFlight);
    SumZero(s.threads, Uncounted);
  }

  lemma NextKeeps(s: State, i: nat, c: Call)
    requires Inv(s) && Enabled(s, i, c)
    ensures Inv(Next(s, i, c))
  {
    hide Sum;
    var pc := Next(s, i, c).threads[i];
    SumUpdate(s.threads, i, pc, InFlight);
    SumUpdate(s.threads, i, pc, Uncounted);
  }

  // -------------------------------------------------------------------------
  // Every run

  ghost predicate Run(t: seq<State>) {
    t != [] && Init(t[0]) &&
    forall k :: 0 <= k < |t| - 1 ==> Steps(t[k], t[k + 1])
  }

  ghost predicate Steps(s: State, s': State) {
    exists i: nat, c :: Enabled(s, i, c) && s' == Next(s, i, c)
  }

  lemma {:induction false} RunKeeps(t: seq<State>, k: nat)
    requires Run(t) && k < |t|
    ensures Inv(t[k]) && t[k].depth == t[0].depth && |t[k].threads| == |t[0].threads|
  {
    hide Inv, Init, Enabled, Next;
    if k == 0 {
      InitHolds(t[0]);
    } else {
      RunKeeps(t, k - 1);
      assert Steps(t[k - 1], t[k - 1 + 1]);
      var i: nat, c :| Enabled(t[k - 1], i, c) && t[k] == Next(t[k - 1], i, c);
      NextKeeps(t[k - 1], i, c);
      SameShape(t[k - 1], i, c);
    }
  }

  lemma SameShape(s: State, i: nat, c: Call)
    requires Enabled(s, i, c)
    ensures Next(s, i, c).depth == s.depth && |Next(s, i, c).threads| == |s.threads|
  {
  }

  /** In every state of every run: the deque holds no more than the depth, no thread takes the
      front of an empty deque, no give is lost at the maximum, and elements leave in the order in
      which they came. */
  lemma EveryRunIsSafe(t: seq<State>, k: nat)
    requires Run(t) && k < |t|
    ensures var s := t[k];
      && s.semPut + s.semGet + Sum(s.threads, InFlight) == t[0].depth
      && |s.queue| <= t[0].depth
      && s.pushed == s.popped + s.queue
      && forall i :: 0 <= i < |s.threads| ==>
        && (s.threads[i].GetFront? || s.threads[i].GetPop? ==> s.queue != [])
        && (s.threads[i].PutGive? ==> s.semGet < s.depth)
        && (s.threads[i].GetGive? ==> s.semPut < s.depth)
  {
    var s := t[k];
    RunKeeps(t, k);
    SumAtMost(s.threads, Uncounted, InFlight);
    forall i | 0 <= i < |s.threads|
      ensures Uncounted(s.threads[i]) <= Sum(s.threads, Uncounted) && InFlight(s.threads[i]) <= Sum(s.threads, InFlight)
    {
      SumUpdate(s.threads, i, Idle, Uncounted);
      SumUpdate(s.threads, i, Idle, InFlight);
    }
  }

  /** When no call is under way, the semaphores count the free and the used places exactly. */
  lemma WhenQuiet(t: seq<State>, k: nat)
    requires Run(t) && k < |t| && forall i :: 0 <= i < |t[k].threads| ==> t[k].threads[i] == Idle
    ensures t[k].semGet == |t[k].queue| && t[k].semPut == t[0].depth - |t[k].queue|
  {
    RunKeeps(t, k);
    SumZero(t[k].threads, InFlight);
    SumZero(t[k].threads, Uncounted);
  }

  /** A call under way never blocks for good: some thread inside a call can take a step. */
  lemma CallsProceed(t: seq<State>, k: nat, c: Call)
    requires Run(t) && k < |t| && exists i :: 0 <= i < |t[k].threads| && t[k].threads[i] != Idle
    ensures exists j :: 0 <= j < |t[k].threads| && t[k].threads[j] != Idle && Enabled(t[k], j, c)
  {
    RunKeeps(t, k);
    var s := t[k];
    var i :| 0 <= i < |s.threads| && s.threads[i] != Idle;
    var j := if s.mutex == Free || Inside(s.threads[i]) then i else s.mutex.holder;
    if j >= |s.threads| {
      HolderExists(t, k);
    }
    assert Enabled(s, j, c);
  }

  lemma {:induction false} HolderExists(t: seq<State>, k: nat)
    requires Run(t) && k < |t| && t[k].mutex != Free
    ensures t[k].mutex.holder < |t[k].threads|
  {
    if k > 0 {
      assert Steps(t[k - 1], t[k - 1 + 1]);
      var i: nat, c :| Enabled(t[k - 1], i, c) && t[k] == Next(t[k - 1], i, c);
      if t[k].mutex == t[k - 1].mutex {
        HolderExists(t, k - 1);
      }
    }
  }
}

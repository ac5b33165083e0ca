/** Suspending and resuming a thread (cpThread.cpp): any number of controlling threads and the one
    thread that polls, in every interleaving of their steps. */
module ThreadSuspend {
  import opened Threads

  datatype RunState = Running | Suspended

  datatype Call = Suspend | Resume | ExitReq

  /** A controller in one of the calls, about to do what the name says. */
  datatype Pc = Outside | Lock(call: Call) | SetExit | SetState(call: Call) | Token(call: Call) | Unlock(call: Call)

  /** The polling thread in `ThreadPoll`. */
  datatype PollPc = Working | TakeToken | ReadExit

  datatype State = State(runState: RunState, exitFlag: bool, token: nat, mutex: Owner, controllers: seq<Pc>, poller: PollPc)

  const TOKEN_MAX := 1

  predicate Init(s: State) {
    && !s.exitFlag && s.token == 0 && s.mutex == Free && s.poller == Working
    && forall i :: 0 <= i < |s.controllers| ==> s.controllers[i] == Outside
  }

  predicate ControllerCan(s: State, i: nat) {
    i < |s.controllers| && (s.controllers[i].Lock? ==> s.mutex == Free)
  }

  /** The state in which a call has something to do */
  predicate Applies(call: Call, r: RunState) {
    if call == Suspend then r == Running else r == Suspended
  }

  function ControllerNext(s: State, i: nat, call: Call): State
    requires ControllerCan(s, i)
  {
    var cs := s.controllers;
    match cs[i]
    case Outside => s.(controllers := cs[i := Lock(call)])
    case Lock(c) => s.(mutex := Held(i), controllers := cs[i := if c == ExitReq then SetExit else SetState(c)])
    case SetExit => s.(exitFlag := true, controllers := cs[i := SetState(ExitReq)])
    case SetState(c) =>
      if Applies(c, s.runState) then
        s.(runState := if c == Suspend then Suspended else Running, controllers := cs[i := Token(c)])
      else s.(controllers := cs[i := Unlock(c)])
    case Token(c) =>
      s.(token := if c == Suspend then (if s.token > 0 then s.token - 1 else 0)
                  else if s.token < TOKEN_MAX then s.token + 1 else s.token,
         controllers := cs[i := Unlock(c)])
    case Unlock(_) => s.(mutex := Free, controllers := cs[i := Outside])
  }

  /** Only at TakeToken can the poller be blocked. */
  predicate PollerCan(s: State) { s.poller.TakeToken? ==> s.token > 0 }

  function PollerNext(s: State): State
    requires PollerCan(s)
  {
    match s.poller
    case Working => s.(poller := if s.runState == Suspended then TakeToken else ReadExit)
    case TakeToken => s.(token := s.token - 1, poller := ReadExit)
    case ReadExit => s.(poller := Working)
  }

  // -------------------------------------------------------------------------
  // The invariant

  predicate Inside(pc: Pc) { !pc.Outside? && !pc.Lock? }

  predicate Holds(s: State, i: nat) { s.mutex == Held(i) }

  /** With the mutex free, a suspended thread has no token, and a poller that waits while the
      thread runs has one.  Inside a call the token is still what it was, until it is set. */
  ghost predicate Settled(s: State) {
    && s.token <= TOKEN_MAX
    && (s.runState == Suspended && (s.mutex.Free? || !AtToken(s)) ==> s.token == 0)
    && (s.runState == Running && s.poller.TakeToken? && (s.mutex.Free? || !AtToken(s)) ==> s.token == 1)
  }

  /** The holder of the mutex has changed the run state and not yet the token. */
  ghost predicate AtToken(s: State) {
    exists i :: 0 <= i < |s.controllers| && s.controllers[i].Token?
  }

  ghost predicate Inv(s: State) {
    && Settled(s)
    && forall i :: 0 <= i < |s.controllers| ==>
      && (Holds(s, i) <==> Inside(s.controllers[i]))
      && (s.controllers[i].Token? ==> TokenDue(s, s.controllers[i].call))
  }

  /** What a controller relies on between changing the run state and changing the token. */
  ghost predicate TokenDue(s: State, c: Call) {
    if c == Suspend then s.runState == Suspended && (s.poller.TakeToken? ==> s.token <= 1)
    else s.runState == Running && s.token == 0
  }

  lemma ControllerKeeps(s: State, i: nat, call: Call)
    requires Inv(s) && ControllerCan(s, i)
    ensures Inv(ControllerNext(s, i, call))
  {
    var s' := ControllerNext(s, i, call);
    var pc := s'.controllers[i];
    forall j | 0 <= j < |s.controllers| && j != i
      ensures s'.controllers[j] == s.controllers[j]
      ensures Inside(s.controllers[i]) ==> !s.controllers[j].Token?
    {
      assert Holds(s, i) && Holds(s, j) ==> i == j;
    }
    assert Holds(s, i) <==> Inside(s.controllers[i]);
    assert s.controllers[i].Token? ==> AtToken(s);
    assert pc.Token? ==> AtToken(s');
  }

  lemma PollerKeeps(s: State)
    requires Inv(s) && PollerCan(s)
    ensures Inv(PollerNext(s))
  {
    var s' := PollerNext(s);
    assert AtToken(s) == AtToken(s');
    assert forall i :: 0 <= i < |s.controllers| ==> (Holds(s, i) <==> Holds(s', i));
  }

  // -------------------------------------------------------------------------
  // Every run

  ghost predicate Steps(s: State, s': State) {
    || (exists i: nat, c :: ControllerCan(s, i) && s' == ControllerNext(s, i, c))
    || (PollerCan(s) && s' == PollerNext(s))
  }

  ghost predicate Run(t: seq<State>) {
    t != [] && Init(t[0]) && forall k :: 0 <= k < |t| - 1 ==> Steps(t[k], t[k + 1])
  }

  lemma {:induction false} RunKeeps(t: seq<State>, k: nat)
    requires Run(t) && k < |t|
    ensures Inv(t[k])
  {
    hide Inv, ControllerNext, PollerNext, ControllerCan, PollerCan;
    if k == 0 {
      InitHolds(t[0]);
    } else {
      RunKeeps(t, k - 1);
      var s := t[k - 1];
      assert Steps(s, t[k - 1 + 1]);
      if PollerCan(s) && t[k] == PollerNext(s) {
        PollerKeeps(s);
      } else {
        var i: nat, c :| ControllerCan(s, i) && t[k] == ControllerNext(s, i, c);
        ControllerKeeps(s, i, c);
      }
    }
  }

  lemma InitHolds(s: State)
    requires Init(s)
    ensures Inv(s)
  {
  }

  /** While no controller holds the mutex: a suspended thread has no token to pass with, and a
      thread that was resumed is not blocked. */
  lemma SettledOutside(t: seq<State>, k: nat)
    requires Run(t) && k < |t| && t[k].mutex == Free
    ensures t[k].runState == Suspended ==> t[k].token == 0
    ensures t[k].runState == Running ==> PollerCan(t[k])
  {
    RunKeeps(t, k);
  }

  /** From the moment when `Suspend` has returned, as long as the thread stays suspended: no token
      is there to pass with, and a poll that begins, or that has still to read the state or to wait,
      does not end.  An older poll that is about to return does not matter. */
  lemma {:induction false} NoPassWhileSuspended(t: seq<State>, a: nat, p: nat, b: nat)
    requires Run(t) && a <= p <= b < |t| && t[a].mutex == Free
    requires forall k :: a <= k <= b ==> t[k].runState == Suspended
    ensures t[b].token == 0
    ensures !t[p].poller.ReadExit? ==> !t[b].poller.ReadExit? && (t[p].poller.TakeToken? ==> t[b].poller.TakeToken?)
  {
    hide Inv, Steps;
    SettledOutside(t, a);
    if a < b {
      NoPassWhileSuspended(t, a, if p < b then p else b - 1, b - 1);
      RunKeeps(t, b - 1);
      assert Steps(t[b - 1], t[b - 1 + 1]);
      NoToken(t[b - 1], t[b]);
    }
  }

  lemma NoToken(s: State, s': State)
    requires Inv(s) && Steps(s, s') && s.runState == Suspended && s.token == 0
    ensures s'.runState == Suspended ==> s'.token == 0
    ensures !s.poller.ReadExit? ==> !s'.poller.ReadExit? && (s.poller.TakeToken? ==> s'.poller.TakeToken?)
  {
    if !(PollerCan(s) && s' == PollerNext(s)) {
      var i: nat, c :| ControllerCan(s, i) && s' == ControllerNext(s, i, c);
      assert s.controllers[i].Token? ==> TokenDue(s, s.controllers[i].call);
    }
  }

  lemma OnlyResumeEnds(s: State, s': State)
    requires Steps(s, s') && s.runState == Suspended && s'.runState == Running
    ensures AboutToEnd(s)
  {
    if !(PollerCan(s) && s' == PollerNext(s)) {
      var i: nat, c :| ControllerCan(s, i) && s' == ControllerNext(s, i, c);
      assert s.controllers[i].SetState?;
    }
  }

  /** A controller in `Resume` or `ExitReq` is about to set the run state. */
  ghost predicate AboutToEnd(s: State) {
    exists i :: 0 <= i < |s.controllers| && (s.controllers[i] == SetState(Resume) || s.controllers[i] == SetState(ExitReq))
  }

  /** At step k a `Resume` or an `ExitReq` ends the suspension. */
  ghost predicate Ends(t: seq<State>, k: nat)
    requires k + 1 < |t|
  {
    t[k].runState == Suspended && t[k + 1].runState == Running && AboutToEnd(t[k])
  }

  /** After `Suspend` has returned, a poll passes only behind a later `Resume` or `ExitReq`. */
  lemma PassNeedsResume(t: seq<State>, a: nat, p: nat, b: nat) returns (k: nat)
    requires Run(t) && a <= p <= b < |t| && t[a].mutex == Free && t[a].runState == Suspended
    requires !t[p].poller.ReadExit? && t[b].poller.ReadExit?
    ensures a <= k < b && Ends(t, k)
  {
    hide Steps, AboutToEnd;
    k := a;
    while k < b && t[k + 1].runState == Suspended
      invariant a <= k <= b && forall j :: a <= j <= k ==> t[j].runState == Suspended
    {
      k := k + 1;
    }
    if k == b {
      NoPassWhileSuspended(t, a, p, b);
    } else {
      assert Steps(t[k], t[k + 1]);
      OnlyResumeEnds(t[k], t[k + 1]);
    }
  }

  // -------------------------------------------------------------------------
  // What the calls achieve

  /** The state that a call is to bring about */
  function Aim(call: Call): RunState { if call == Suspend then Suspended else Running }

  /** A controller that is about to return has what it called for, and the exit flag is set once an
      `ExitReq` is past setting it. */
  ghost predicate Effective(s: State) {
    forall i :: 0 <= i < |s.controllers| ==>
      && (s.controllers[i].Unlock? || s.controllers[i].Token? ==> s.runState == Aim(s.controllers[i].call))
      && (Inside(s.controllers[i]) && !s.controllers[i].SetExit? && s.controllers[i].call == ExitReq ==> s.exitFlag)
  }

  lemma StepEffective(s: State, s': State)
    requires Inv(s) && Effective(s) && Steps(s, s')
    ensures Effective(s') && (s.exitFlag ==> s'.exitFlag)
  {
    hide Inv, ControllerNext;
    if !(PollerCan(s) && s' == PollerNext(s)) {
      var i: nat, c :| ControllerCan(s, i) && s' == ControllerNext(s, i, c);
      Alone(s, i);
      ControllerEffective(s, i, c);
    }
  }

  lemma Alone(s: State, i: nat)
    requires Inv(s)
    ensures forall j :: 0 <= j < |s.controllers| && j != i && i < |s.controllers| && Inside(s.controllers[i]) ==> !Inside(s.controllers[j])
  {
    hide Settled, TokenDue;
    assert forall j :: 0 <= j < |s.controllers| ==> (Inside(s.controllers[j]) <==> Holds(s, j));
  }

  lemma ControllerEffective(s: State, i: nat, call: Call)
    requires ControllerCan(s, i) && Effective(s)
    requires forall j :: 0 <= j < |s.controllers| && j != i && Inside(s.controllers[i]) ==> !Inside(s.controllers[j])
    ensures Effective(ControllerNext(s, i, call)) && (s.exitFlag ==> ControllerNext(s, i, call).exitFlag)
  {
    var s' := ControllerNext(s, i, call);
    assert forall j :: 0 <= j < |s.controllers| && j != i ==> s'.controllers[j] == s.controllers[j];
  }

  lemma {:induction false} RunEffective(t: seq<State>, k: nat, n: nat)
    requires Run(t) && k <= n < |t|
    ensures Effective(t[n]) && (t[k].exitFlag ==> t[n].exitFlag)
    decreases n
  {
    hide Inv, Steps;
    if n > 0 {
      RunEffective(t, if k < n then k else 0, n - 1);
      RunKeeps(t, n - 1);
      assert Steps(t[n - 1], t[n - 1 + 1]);
      StepEffective(t[n - 1], t[n]);
    }
  }

  /** A controller keeps to the call that it began, until it returns from it. */
  lemma CallKept(s: State, i: nat, call: Call)
    requires ControllerCan(s, i)
    ensures var pc, pc' := s.controllers[i], ControllerNext(s, i, call).controllers[i];
      && (pc.Outside? ==> pc' == Lock(call))
      && (pc == Lock(ExitReq) ==> pc' == SetExit)
      && (pc.Unlock? ==> pc' == Outside)
      && (!pc.Outside? && !pc.SetExit? && !pc.Unlock? && pc != Lock(ExitReq) ==>
        !pc'.Outside? && !pc'.SetExit? && pc'.call == pc.call)
      && (pc.SetExit? ==> pc' == SetState(ExitReq))
    ensures forall j :: 0 <= j < |s.controllers| && j != i ==> ControllerNext(s, i, call).controllers[j] == s.controllers[j]
  {
  }

  /** When a call returns, the mutex is free, and the thread is suspended after a `Suspend`, and
      running and not blocked after a `Resume` or an `ExitReq`; from an `ExitReq` on the exit flag is
      set for good. */
  lemma CallTakesEffect(t: seq<State>, k: nat, i: nat)
    requires Run(t) && k + 1 < |t| && i < |t[k].controllers|
    requires t[k].controllers[i].Unlock? && |t[k + 1].controllers| == |t[k].controllers| && t[k + 1].controllers[i].Outside?
    ensures t[k + 1].mutex == Free
    ensures if t[k].controllers[i].call == Suspend then t[k + 1].runState == Suspended && t[k + 1].token == 0
            else t[k + 1].runState == Running && PollerCan(t[k + 1])
    ensures t[k].controllers[i].call == ExitReq ==> forall n :: k <= n < |t| ==> t[n].exitFlag
  {
    RunEffective(t, k, k);
    assert Steps(t[k], t[k + 1]);
    SettledOutside(t, k + 1);
    forall n | k <= n < |t| && t[k].controllers[i].call == ExitReq
      ensures t[n].exitFlag
    {
      RunEffective(t, k, n);
    }
  }

  /** One more step of the first controller, or of the poller */
  lemma ControllerRuns(t: seq<State>, s: State, call: Call) returns (u: seq<State>)
    requires Run(t) && t[|t| - 1] == s && ControllerCan(s, 0)
    ensures Run(u) && u == t + [ControllerNext(s, 0, call)]
  {
    u := t + [ControllerNext(s, 0, call)];
    RunGrows(t, ControllerNext(s, 0, call));
  }

  lemma PollerRuns(t: seq<State>, s: State) returns (u: seq<State>)
    requires Run(t) && t[|t| - 1] == s && PollerCan(s)
    ensures Run(u) && u == t + [PollerNext(s)]
  {
    u := t + [PollerNext(s)];
    RunGrows(t, PollerNext(s));
  }

  lemma RunGrows(t: seq<State>, s: State)
    requires Run(t) && Steps(t[|t| - 1], s)
    ensures Run(t + [s])
  {
    hide Steps;
  }

  /** A whole call of the only controller */
  lemma CallRuns(t: seq<State>, s: State, call: Call) returns (u: seq<State>, r: State)
    requires Run(t) && t[|t| - 1] == s && s.controllers == [Outside] && s.mutex == Free && call != ExitReq && Applies(call, s.runState)
    ensures Run(u) && u[|u| - 1] == r
    ensures r == s.(runState := if call == Suspend then Suspended else Running,
                    token := if call == Suspend then (if s.token > 0 then s.token - 1 else 0) else if s.token < TOKEN_MAX then s.token + 1 else s.token)
  {
    u := ControllerRuns(t, s, call);
    var s1 := s.(controllers := [Lock(call)]);
    u := ControllerRuns(u, s1, call);
    var s2 := s1.(mutex := Held(0), controllers := [SetState(call)]);
    u := ControllerRuns(u, s2, call);
    var s3 := ControllerNext(s2, 0, call);
    u := ControllerRuns(u, s3, call);
    var s4 := ControllerNext(s3, 0, call);
    u := ControllerRuns(u, s4, call);
    r := ControllerNext(s4, 0, call);
    assert r.controllers == [Outside];
  }

  /** The mutex is needed: a poll that overlaps `Suspend` can still take an older token and pass. */
  lemma OverlappingPollPasses()
    ensures exists t: seq<State> ::
      Run(t) && |t| > 1 && t[|t| - 1].runState == Suspended && t[|t| - 2].poller == TakeToken && t[|t| - 1].poller == ReadExit
  {
    var s := State(Running, false, 0, Free, [Outside], Working);
    var t := [s];
    t, s := CallRuns(t, s, Suspend);
    t, s := CallRuns(t, s, Resume);
    assert s == State(Running, false, 1, Free, [Outside], Working);
    t := ControllerRuns(t, s, Suspend);
    var s1 := s.(controllers := [Lock(Suspend)]);
    t := ControllerRuns(t, s1, Suspend);
    var s2 := s1.(mutex := Held(0), controllers := [SetState(Suspend)]);
    t := ControllerRuns(t, s2, Suspend);
    var s3 := s2.(runState := Suspended, controllers := [Token(Suspend)]);
    t := PollerRuns(t, s3);
    t := PollerRuns(t, s3.(poller := TakeToken));
  }
}

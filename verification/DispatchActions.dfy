/** What events leave for the step and for the call: the action after a filter ran, and the
    state in which a call waits. */
module DispatchActions {
  import opened Queues
  import opened FilterChain
  import opened DispatchOps
  import opened DispatchRuns

  // ---------------------------------------------------------------- host calls

  /** `h` sets the action while a filter runs. */
  predicate SetsAction(h: HostCall) {
    h == Dispatch(Made) || h == LocalResponse(true)
  }

  lemma {:induction false} CancelKeepsAction(s: State)
    ensures CancelAll(s).action == s.action
    decreases |s.queue|
  {
    if s.queue != [] { CancelKeepsAction(CancelHead(s)); }
  }

  lemma {:induction false} HostCallAction(s: State, h: HostCall)
    ensures DoHostCall(s, h).step == s.step
    ensures DoHostCall(s, h).action ==
            if h == Dispatch(Made) then Pause
            else if h == LocalResponse(true) && s.step != DispatchResponse then Done
            else s.action
  {
    if h.LocalResponse? {
      HostCallResumes(s, h);
      CancelKeepsAction(if s.step == DispatchResponse then s else s.(action := Done));
    }
  }

  lemma {:induction false} QuietCalls(s: State, hs: seq<HostCall>)
    requires forall i :: 0 <= i < |hs| ==> !SetsAction(hs[i])
    ensures DoHostCalls(s, hs).action == s.action
    decreases |hs|
  {
    hide DoHostCall;
    if hs != [] {
      HostCallAction(s, hs[0]);
      QuietCalls(DoHostCall(s, hs[0]), hs[1..]);
    }
  }

  /** The last host call that sets the action decides it. */
  lemma {:induction false} LastCallDecides(s: State, hs: seq<HostCall>, k: nat)
    requires k < |hs| && SetsAction(hs[k]) && s.step != DispatchResponse
    requires forall i :: k < i < |hs| ==> !SetsAction(hs[i])
    ensures DoHostCalls(s, hs).action == if hs[k] == LocalResponse(true) then Done else Pause
    decreases |hs|
  {
    hide DoHostCall;
    HostCallAction(s, hs[0]);
    var s1 := DoHostCall(s, hs[0]);
    if k == 0 { QuietCalls(s1, hs[1..]); } else { LastCallDecides(s1, hs[1..], k - 1); }
  }

  /** The action after a filter ran, outside of dispatch responses: a local response ends the
      step whatever the filter returns, but not if an HTTP call is dispatched after it;
      in all other cases the returned action counts. */
  lemma {:induction false} FilterActionIs(s: State, step: Step, hs: seq<HostCall>, ret: Action, k: nat)
    requires step != DispatchResponse && s.action != Done
    requires forall i :: k < i < |hs| ==> !SetsAction(hs[i])
    requires if k < |hs| then SetsAction(hs[k]) else forall i :: 0 <= i < |hs| ==> !SetsAction(hs[i])
    ensures MayHappen(s, RunFilter(step, hs, ret)) ==>
              Handle(s, RunFilter(step, hs, ret)).action ==
              if k < |hs| && hs[k] == LocalResponse(true) then Done else ret
  {
    hide DoHostCalls;
    var s1 := s.(step := step);
    if k < |hs| { LastCallDecides(s1, hs, k); } else { QuietCalls(s1, hs); }
  }

  lemma {:induction false} NeverDone(s: State, hs: seq<HostCall>)
    requires s.step == DispatchResponse && s.action != Done
    ensures DoHostCalls(s, hs).action != Done
    decreases |hs|
  {
    hide DoHostCall;
    if hs != [] {
      HostCallAction(s, hs[0]);
      NeverDone(DoHostCall(s, hs[0]), hs[1..]);
    }
  }

  /** A callback leaves the action that was there before it, unless its last word is a local
      response; a dispatch callback always does. */
  lemma {:induction false} CallbackActionIs(s: State, id: nat, step: Step, hs: seq<HostCall>, trap: bool, k: nat)
    requires s.action != Done
    requires forall i :: k < i < |hs| ==> !SetsAction(hs[i])
    requires if k < |hs| then SetsAction(hs[k]) else forall i :: 0 <= i < |hs| ==> !SetsAction(hs[i])
    ensures Invoke(s, id, step, Runs(hs, trap)).action ==
            if k < |hs| && hs[k] == LocalResponse(true) && step != DispatchResponse then Done else s.action
  {
    hide DoHostCalls;
    var s1 := Note(s, id, CalledBack).(step := step);
    if step == DispatchResponse {
      NeverDone(s1, hs);
    } else if k < |hs| {
      LastCallDecides(s1, hs, k);
    } else {
      QuietCalls(s1, hs);
    }
  }

  // --------------------------------------------------------------- waiting calls

  /** A call whose socket is not ready stays pending, in the state it has come to, and nothing
      happens to any other operation. */
  lemma {:induction false} WaitingCallStays(s: State, id: nat, io: Io, cb: Callback, at: CallState)
    requires MayHappen(s, HttpReady(id, io, cb)) && DriveCall(s.calls[id].state, io) == Waits(at)
    ensures var s' := Handle(s, HttpReady(id, io, cb));
            && s'.queue == s.queue && s'.calls == s.calls[id := Http(at)] && s'.lives == s.lives
            && s'.resumed == s.resumed && s'.env == Yielding && s'.action == Pause
  {
    hide DriveCall;
    assert s.queue != [];
  }

  /** So it goes on where it waited: the request is built and sent once, over one connection. */
  lemma {:induction false} GoesOnWhereItWaited(s: State, id: nat, io: Io, cb: Callback, at: CallState, later: Io)
    requires MayHappen(s, HttpReady(id, io, cb)) && DriveCall(s.calls[id].state, io) == Waits(at)
    ensures var s' := Handle(s, HttpReady(id, io, cb));
            && id in s'.calls && s'.calls[id].Http?
            && (DriveCall(s'.calls[id].state, later) == Arrives <==>
                && !later.err && !later.trapped && later.read == IoOk
                && (at != Receiving ==> later.built && later.send == IoOk)
                && (at == Connecting ==> later.connect == IoOk))
  {
    hide DriveCall, Handle;
    WaitingCallStays(s, id, io, cb, at);
    WaitsIff(s.calls[id].state, io, at);
    ArrivesIff(at, later);
  }
}

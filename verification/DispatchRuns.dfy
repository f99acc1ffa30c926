/** What holds of a filter's pending operations over every run of events. */
module DispatchRuns {
  import opened Queues
  import opened FilterChain
  import opened DispatchOps
  import FilterChainSteps

  // ----------------------------------------------------------- one event

  /** Everything but the flags and the current step. */
  ghost predicate SameOps(s: State, s': State) {
    && s'.queue == s.queue && s'.calls == s.calls && s'.next == s.next && s'.lives == s.lives
    && s'.resolving == s.resolving && s'.foreign == s.foreign && s'.broken == s.broken
  }

  lemma {:induction false} SameKnown(s: State, s': State, busy: int)
    requires SameOps(s, s') && forall id :: Known(s, id, busy)
    ensures forall id :: Known(s', id, busy)
  {
    forall id ensures Known(s', id, busy) { assert Known(s, id, busy); }
  }

  /** Off the queue, and then into its callback. */
  lemma {:induction false} TakenKnown(s: State, id: nat)
    requires id in s.queue && (forall k :: Known(s, k, -1))
    ensures forall k :: Known(Unqueue(Answered(s, id), id), k, id)
    ensures forall k :: Known(Note(Unqueue(Answered(s, id), id), id, CalledBack), k, id)
  {
    var s1 := Unqueue(Answered(s, id), id);
    var s2 := Note(s1, id, CalledBack);
    assert Known(s, id, -1);
    assert [Queued] + [Unqueued] == [Queued, Unqueued];
    assert [Queued, Unqueued] + [CalledBack] == [Queued, Unqueued, CalledBack];
    forall k ensures Known(s1, k, id) { assert Known(s, k, -1); }
    forall k ensures Known(s2, k, id) { assert Known(s, k, -1); }
  }

  lemma {:induction false} InvokeKnown(s: State, id: nat, step: Step, cb: Callback)
    requires id in s.queue && (forall k :: Known(s, k, -1))
    ensures forall k :: Known(Invoke(Unqueue(Answered(s, id), id), id, step, cb), k, id)
  {
    hide Known, Unqueue, DoHostCalls, Answered;
    TakenKnown(s, id);
    if cb.Runs? {
      var s0 := Note(Unqueue(Answered(s, id), id), id, CalledBack);
      SameKnown(s0, s0.(step := step), id);
      HostCallsKnown(s0.(step := step), cb.hostCalls, id);
      SameKnown(DoHostCalls(s0.(step := step), cb.hostCalls), Invoke(Unqueue(Answered(s, id), id), id, step, cb), id);
    }
  }

  lemma {:induction false} DestroyKnown(s: State, id: nat)
    requires forall k :: Known(s, k, id)
    ensures forall k :: Known(Destroy(s, id), k, -1)
  {
    assert Known(s, id, id);
    assert [Queued, Unqueued, CalledBack] + [Destroyed] == CALLED;
    assert [Queued, Unqueued] + [Destroyed] == SKIPPED;
    forall k ensures Known(Destroy(s, id), k, -1) { assert Known(s, k, id); }
  }

  /** A socket is not a resolver. */
  lemma {:induction false} HttpAnswers(s: State, id: nat)
    requires id in s.queue && id in s.calls && s.calls[id].Http? && Known(s, id, -1)
    ensures Answered(s, id) == s
  {
  }

  lemma {:induction false} FinishKnown(s: State, id: nat, cb: Callback)
    requires id in s.queue && id in s.calls && s.calls[id].Http? && (forall k :: Known(s, k, -1))
    ensures forall k :: Known(Finish(s, id, cb), k, -1)
  {
    hide Known, Unqueue, Invoke, Destroy, Answered;
    HttpAnswers(s, id);
    InvokeKnown(s, id, DispatchResponse, cb);
    DestroyKnown(Invoke(Unqueue(s, id), id, DispatchResponse, cb), id);
  }

  function Waiting(s: State, id: nat, st: CallState): State {
    s.(calls := s.calls[id := Http(st)])
  }

  lemma {:induction false} WaitKnown(s: State, id: nat, st: CallState)
    requires id in s.queue && id in s.calls && s.calls[id].Http? && (forall k :: Known(s, k, -1))
    ensures forall k :: Known(Waiting(s, id, st), k, -1)
  {
    forall k ensures Known(Waiting(s, id, st), k, -1) { assert Known(s, k, -1); }
  }

  lemma {:induction false} HttpKnown(s: State, id: nat, io: Io, cb: Callback)
    requires MayHappen(s, HttpReady(id, io, cb)) && forall k :: Known(s, k, -1)
    ensures forall k :: Known(HttpEvent(s, id, io, cb), k, -1)
  {
    hide Known, Finish, DriveCall;
    match DriveCall(s.calls[id].state, io)
    case Waits(st) =>
      WaitKnown(s, id, st);
      SameKnown(Waiting(s, id, st), HttpEvent(s, id, io, cb), -1);
    case Fails(error) =>
      FinishKnown(s, id, cb);
      SameKnown(Finish(s, id, cb), HttpEvent(s, id, io, cb), -1);
    case Arrives =>
      FinishKnown(s, id, cb);
      SameKnown(Finish(s, id, cb), HttpEvent(s, id, io, cb), -1);
  }

  lemma {:induction false} ForeignKnown(s: State, id: nat, cb: Callback)
    requires id in s.queue && (forall k :: Known(s, k, -1))
    ensures forall k :: Known(ForeignEvent(s, id, cb), k, -1)
  {
    hide Known, Unqueue, Invoke, Answered;
    InvokeKnown(s, id, ForeignCallback, cb);
    var s1 := Invoke(Unqueue(Answered(s, id), id), id, ForeignCallback, cb);
    SameKnown(s1, Settle(s1, false), id);
    DestroyKnown(Settle(s1, false), id);
  }

  lemma {:induction false} DroppedKnown(s: State, id: nat)
    requires id in s.queue && id in s.resolving && (forall k :: Known(s, k, -1))
    ensures forall k :: Known(ForeignDropped(s, id), k, -1)
  {
    assert Known(s, id, -1);
    assert [Queued] + [Unqueued] == [Queued, Unqueued];
    forall k ensures Known(ForeignDropped(s, id), k, -1) { assert Known(s, k, -1); }
  }

  lemma {:induction false} LateKnown(s: State, id: nat)
    requires id !in s.queue && id in s.resolving && (forall k :: Known(s, k, -1))
    ensures forall k :: Known(LateAnswer(s, id), k, -1)
  {
    assert Known(s, id, -1);
    forall k ensures Known(LateAnswer(s, id), k, -1) { assert Known(s, k, -1); }
  }

  lemma {:induction false} HandleKnown(s: State, e: OpEvent)
    requires MayHappen(s, e) && (forall k :: Known(s, k, -1))
    ensures forall k :: Known(Handle(s, e), k, -1)
  {
    hide Known, HttpEvent, ForeignEvent, ForeignDropped, LateAnswer, DoHostCalls;
    match e
    case RunFilter(step, hs, ret) =>
      SameKnown(s, s.(step := step), -1);
      HostCallsKnown(s.(step := step), hs, -1);
      SameKnown(DoHostCalls(s.(step := step), hs), Handle(s, e), -1);
    case HttpReady(id, io, cb) => HttpKnown(s, id, io, cb);
    case ForeignReady(id, cb) => if id in s.queue { ForeignKnown(s, id, cb); } else { LateKnown(s, id); }
    case ForeignNoBuffer(id) => if id in s.queue { DroppedKnown(s, id); } else { LateKnown(s, id); }
  }

  // ---------------------------------------------------------------- every run

  lemma {:induction false} RunKnown(s: State, es: seq<OpEvent>)
    requires Happen(s, es) && forall k :: Known(s, k, -1)
    ensures forall k :: Known(HandleAll(s, es), k, -1)
    decreases |es|
  {
    hide Known, Handle, MayHappen;
    if es != [] {
      HandleKnown(s, es[0]);
      RunKnown(Handle(s, es[0]), es[1..]);
    }
  }

  lemma {:induction false} StartKnowsAll(step: Step)
    ensures forall k :: Known(NoOps(step), k, -1)
  {
  }

  /** After any run of starts, completions, failures, cancellations and local responses
      sent from inside callbacks, an HTTP call that was queued is either pending, and
      nothing but its queueing happened; or it left the queue once, then was either
      called back or cancelled or neither, then was destroyed once. */
  lemma {:induction false} EveryHttpCallEndsOnce(step: Step, es: seq<OpEvent>, id: nat)
    requires Happen(NoOps(step), es)
    ensures var s := HandleAll(NoOps(step), es);
            && (id in s.queue ==> id in s.calls && Life(s, id) == [Queued])
            && (id < s.next && id !in s.foreign && id !in s.queue ==> id !in s.calls && Ended(Life(s, id)))
            && (id >= s.next ==> Life(s, id) == [])
  {
    hide HandleAll, Happen;
    StartKnowsAll(step);
    RunKnown(NoOps(step), es);
    assert Known(HandleAll(NoOps(step), es), id, -1);
  }

  /** What is recorded of a call that completes or fails: its callback if it has a context,
      whatever it does, also when it cancels all pending operations. */
  lemma {:induction false} InvokeLife(s: State, id: nat, step: Step, cb: Callback)
    requires id in s.queue && (forall k :: Known(s, k, -1))
    ensures Life(Invoke(Unqueue(Answered(s, id), id), id, step, cb), id)
            == if cb.Runs? then [Queued, Unqueued, CalledBack] else [Queued, Unqueued]
  {
    hide DoHostCalls;
    assert Known(s, id, -1);
    TakenKnown(s, id);
    assert [Queued] + [Unqueued] == [Queued, Unqueued];
    if cb.Runs? {
      var s0 := Note(Unqueue(Answered(s, id), id), id, CalledBack);
      SameKnown(s0, s0.(step := step), id);
      HostCallsLife(s0.(step := step), cb.hostCalls, id, id);
    }
  }

  /** A completed call is called back if its context could be made, and only then. */
  lemma {:induction false} CompletionCallsBack(s: State, id: nat, cb: Callback)
    requires id in s.queue && id in s.calls && (forall k :: Known(s, k, -1))
    ensures s.calls[id].Http? ==> Life(Finish(s, id, cb), id) == if cb.Runs? then CALLED else SKIPPED
    ensures Life(ForeignEvent(s, id, cb), id) == if cb.Runs? then CALLED else SKIPPED
  {
    hide Unqueue, Invoke, Known, Answered;
    InvokeLife(s, id, DispatchResponse, cb);
    InvokeLife(s, id, ForeignCallback, cb);
    if s.calls[id].Http? { HttpAnswers(s, id); }
  }

  /** Host calls leave operations that are neither pending nor new alone, and complete
      none of the others. */
  lemma {:induction false} HostCallLife(s: State, h: HostCall, busy: int, id: nat)
    requires forall k :: Known(s, k, busy)
    ensures var s' := DoHostCall(s, h);
            && s.next <= s'.next
            && (id < s.next && id !in s.queue ==> id !in s'.queue && Life(s', id) == Life(s, id))
            && (Life(s', id) == SKIPPED ==> Life(s, id) == SKIPPED)
  {
    hide CancelAll;
    assert Known(s, id, busy) && Known(s, s.next, busy);
    if h.LocalResponse? {
      var s1 := if s.step == DispatchResponse then s else s.(action := Done);
      SameKnown(s, s1, busy);
      CancelAllKnown(s1, busy);
      CancelAllLife(s1, id, busy);
      CancelKeepsNext(s1);
    } else {
      assert [] + [Queued] == [Queued] && [] + [Destroyed] == [Destroyed];
    }
  }

  lemma {:induction false} CancelKeepsNext(s: State)
    ensures CancelAll(s).next == s.next
    decreases |s.queue|
  {
    if s.queue != [] { CancelKeepsNext(CancelHead(s)); }
  }

  lemma {:induction false} HostCallsLife(s: State, hs: seq<HostCall>, busy: int, id: nat)
    requires forall k :: Known(s, k, busy)
    ensures var s' := DoHostCalls(s, hs);
            && (id < s.next && id !in s.queue ==> Life(s', id) == Life(s, id))
            && (Life(s', id) == SKIPPED ==> Life(s, id) == SKIPPED)
    decreases |hs|
  {
    hide DoHostCall, Known;
    if hs != [] {
      HostCallLife(s, hs[0], busy, id);
      HostCallKnown(s, hs[0], busy);
      HostCallsLife(DoHostCall(s, hs[0]), hs[1..], busy, id);
    }
  }

  /** Event `e` completes operation `id`, for whose callback no context can be made. */
  ghost predicate CompletesWithout(s: State, e: OpEvent, id: nat)
    requires MayHappen(s, e)
  {
    match e
    case RunFilter(_, _, _) => false
    case HttpReady(k, io, cb) => k == id && cb.NoInstance? && !DriveCall(s.calls[k].state, io).Waits?
    case ForeignReady(k, cb) => k == id && cb.NoInstance? && k in s.queue
    case ForeignNoBuffer(_) => false
  }

  ghost predicate CompletedWithout(s: State, es: seq<OpEvent>, id: nat)
    requires Happen(s, es)
    decreases |es|
  {
    es != [] && (CompletesWithout(s, es[0], id) || CompletedWithout(Handle(s, es[0]), es[1..], id))
  }

  /** The completion of one operation, seen from another one. */
  lemma {:induction false} InvokeOther(s: State, k: nat, step: Step, cb: Callback, id: nat)
    requires k in s.queue && id != k && (forall j :: Known(s, j, -1))
    ensures Life(Invoke(Unqueue(Answered(s, k), k), k, step, cb), id) == SKIPPED <==> Life(s, id) == SKIPPED
  {
    hide DoHostCalls;
    assert Known(s, id, -1);
    TakenKnown(s, k);
    if cb.Runs? {
      var s0 := Note(Unqueue(Answered(s, k), k), k, CalledBack);
      SameKnown(s0, s0.(step := step), k);
      HostCallsLife(s0.(step := step), cb.hostCalls, k, id);
    }
  }

  lemma {:induction false} FinishOther(s: State, k: nat, cb: Callback, id: nat)
    requires k in s.queue && k in s.calls && id != k && (forall j :: Known(s, j, -1))
    ensures s.calls[k].Http? ==> (Life(Finish(s, k, cb), id) == SKIPPED <==> Life(s, id) == SKIPPED)
    ensures Life(ForeignEvent(s, k, cb), id) == SKIPPED <==> Life(s, id) == SKIPPED
  {
    hide Unqueue, Invoke, Known, Answered;
    InvokeOther(s, k, DispatchResponse, cb, id);
    InvokeOther(s, k, ForeignCallback, cb, id);
    if s.calls[k].Http? { HttpAnswers(s, k); }
  }

  lemma {:induction false} HandleSkips(s: State, e: OpEvent, id: nat)
    requires MayHappen(s, e) && (forall k :: Known(s, k, -1))
    ensures Life(Handle(s, e), id) == SKIPPED <==> Life(s, id) == SKIPPED || CompletesWithout(s, e, id)
  {
    hide Finish, ForeignEvent, DoHostCalls, DriveCall;
    assert Known(s, id, -1);
    match e
    case RunFilter(step, hs, ret) =>
      SameKnown(s, s.(step := step), -1);
      HostCallsLife(s.(step := step), hs, -1, id);
    case HttpReady(k, io, cb) =>
      if k == id { CompletionCallsBack(s, id, cb); } else { FinishOther(s, k, cb, id); }
    case ForeignReady(k, cb) =>
      assert Known(s, k, -1);
      if k in s.queue {
        if k == id { CompletionCallsBack(s, id, cb); } else { FinishOther(s, k, cb, id); }
      }
    case ForeignNoBuffer(k) => assert Known(s, k, -1);
  }

  lemma {:induction false} RunSkips(s: State, es: seq<OpEvent>, id: nat)
    requires Happen(s, es) && (forall k :: Known(s, k, -1))
    ensures Life(HandleAll(s, es), id) == SKIPPED <==> Life(s, id) == SKIPPED || CompletedWithout(s, es, id)
    decreases |es|
  {
    hide Known, Handle, MayHappen, CompletesWithout, Life;
    if es != [] {
      HandleSkips(s, es[0], id);
      HandleKnown(s, es[0]);
      RunSkips(Handle(s, es[0]), es[1..], id);
    }
  }

  /** An HTTP call that left the queue. */
  ghost predicate WasQueuedHttp(s: State, id: nat) {
    id < s.next && id !in s.foreign && id !in s.queue && Life(s, id) != [Destroyed]
  }

  /** Exactly when an operation ends without callback and without cancellation: over every
      run, when it completed and no context could be made for its callback. */
  lemma {:induction false} SkippedIff(step: Step, es: seq<OpEvent>, id: nat)
    requires Happen(NoOps(step), es)
    ensures var s := HandleAll(NoOps(step), es);
            && (Life(s, id) == SKIPPED <==> CompletedWithout(NoOps(step), es, id))
            && (WasQueuedHttp(s, id) && !CompletedWithout(NoOps(step), es, id) ==>
                  Life(s, id) == CALLED || Life(s, id) == CANCELLED)
  {
    hide HandleAll, Happen, CompletedWithout;
    StartKnowsAll(step);
    RunSkips(NoOps(step), es, id);
    EveryHttpCallEndsOnce(step, es, id);
  }

  /** Such a call exists. */
  lemma {:induction false} SkipHappens(step: Step, io: Io)
    requires io.err
    ensures var es := [RunFilter(step, [Dispatch(Made)], Pause), HttpReady(0, io, NoInstance)];
            Happen(NoOps(step), es) && Life(HandleAll(NoOps(step), es), 0) == SKIPPED
  {
    var e1, e2 := RunFilter(step, [Dispatch(Made)], Pause), HttpReady(0, io, NoInstance);
    var s0 := NoOps(step);
    var s1 := Handle(s0, e1);
    assert DoHostCalls(s0, [Dispatch(Made)]) == DoHostCall(s0, Dispatch(Made)) by {
      assert [Dispatch(Made)][1..] == [];
    }
    assert s1.queue == [0] && 0 in s1.calls && s1.calls[0].Http? && !s1.broken;
    var s2 := Handle(s1, e2);
    RunOfTwo(s0, e1, e2);
    assert Life(s1, 0) == [Queued] && Life(s2, 0) == [Queued] + [Unqueued] + [Destroyed] == SKIPPED;
  }

  // ------------------------------------------------------------- foreign calls

  /** A local response is among the host calls `hs`, at a time when the foreign call `id` is
      pending. */
  ghost predicate CancelsIn(s: State, hs: seq<HostCall>, id: nat)
    decreases |hs|
  {
    hs != [] && (Cancels(s, hs[0], id) || CancelsIn(DoHostCall(s, hs[0]), hs[1..], id))
  }

  ghost predicate Cancels(s: State, h: HostCall, id: nat) {
    h == LocalResponse(true) && id in s.queue && id in s.calls && s.calls[id].Foreign?
  }

  /** The state in which the callback of operation `k` starts. */
  ghost function InCallback(s: State, k: nat, step: Step): State {
    Note(Unqueue(Answered(s, k), k), k, CalledBack).(step := step)
  }

  /** Event `e` runs a filter or a callback that cancels the foreign call `id`. */
  ghost predicate CancelsAt(s: State, e: OpEvent, id: nat)
    requires MayHappen(s, e)
  {
    match e
    case RunFilter(step, hs, _) => CancelsIn(s.(step := step), hs, id)
    case HttpReady(k, io, cb) =>
      && cb.Runs? && !DriveCall(s.calls[k].state, io).Waits?
      && CancelsIn(InCallback(s, k, DispatchResponse), cb.hostCalls, id)
    case ForeignReady(k, cb) =>
      cb.Runs? && k in s.queue && CancelsIn(InCallback(s, k, ForeignCallback), cb.hostCalls, id)
    case ForeignNoBuffer(_) => false
  }

  ghost predicate CancelledIn(s: State, es: seq<OpEvent>, id: nat)
    requires Happen(s, es)
    decreases |es|
  {
    es != [] && (CancelsAt(s, es[0], id) || CancelledIn(Handle(s, es[0]), es[1..], id))
  }

  /** What is recorded of such a call. */
  ghost predicate WasCancelled(s: State, id: nat) {
    id in s.foreign && (Life(s, id) == CANCELLED || Life(s, id) == CANCELLED + [Unqueued])
  }

  lemma {:induction false} CancelAllForeign(s: State)
    ensures CancelAll(s).foreign == s.foreign
    decreases |s.queue|
  {
    if s.queue != [] { CancelAllForeign(CancelHead(s)); }
  }

  lemma {:induction false} HostCallCancels(s: State, h: HostCall, busy: int, id: nat)
    requires forall k :: Known(s, k, busy)
    ensures WasCancelled(DoHostCall(s, h), id) <==> WasCancelled(s, id) || Cancels(s, h, id)
  {
    hide CancelAll;
    assert Known(s, id, busy) && Known(s, s.next, busy);
    if h.LocalResponse? {
      var s1 := if s.step == DispatchResponse then s else s.(action := Done);
      SameKnown(s, s1, busy);
      CancelAllLife(s1, id, busy);
      CancelAllForeign(s1);
    } else {
      assert [] + [Queued] == [Queued] && [] + [Destroyed] == [Destroyed];
    }
  }

  lemma {:induction false} HostCallsCancel(s: State, hs: seq<HostCall>, busy: int, id: nat)
    requires forall k :: Known(s, k, busy)
    ensures WasCancelled(DoHostCalls(s, hs), id) <==> WasCancelled(s, id) || CancelsIn(s, hs, id)
    decreases |hs|
  {
    hide DoHostCall, Known, WasCancelled, Cancels;
    if hs != [] {
      HostCallCancels(s, hs[0], busy, id);
      HostCallKnown(s, hs[0], busy);
      HostCallsCancel(DoHostCall(s, hs[0]), hs[1..], busy, id);
    }
  }

  /** The completion of operation `k`: only its callback cancels anything. */
  lemma {:induction false} InvokeCancels(s: State, k: nat, step: Step, cb: Callback, id: nat)
    requires k in s.queue && (forall j :: Known(s, j, -1))
    ensures WasCancelled(Invoke(Unqueue(Answered(s, k), k), k, step, cb), id) <==>
            WasCancelled(s, id) || (cb.Runs? && CancelsIn(InCallback(s, k, step), cb.hostCalls, id))
  {
    hide DoHostCalls, CancelsIn;
    assert Known(s, id, -1) && Known(s, k, -1);
    TakenKnown(s, k);
    assert [Queued] + [Unqueued] == [Queued, Unqueued];
    assert [Queued, Unqueued] + [CalledBack] == [Queued, Unqueued, CalledBack];
    if cb.Runs? {
      var s0 := Note(Unqueue(Answered(s, k), k), k, CalledBack);
      SameKnown(s0, s0.(step := step), k);
      HostCallsCancel(s0.(step := step), cb.hostCalls, k, id);
    }
  }

  lemma {:induction false} DestroyCancels(s: State, k: nat, id: nat)
    requires forall j :: Known(s, j, k)
    ensures WasCancelled(Destroy(s, k), id) <==> WasCancelled(s, id)
  {
    assert Known(s, k, k);
    assert [Queued, Unqueued, CalledBack] + [Destroyed] == CALLED && CALLED[2] != CANCELLED[2];
    assert [Queued, Unqueued] + [Destroyed] == SKIPPED;
    assert |Life(Destroy(s, k), k)| <= 4;
  }

  lemma {:induction false} FinishCancels(s: State, k: nat, cb: Callback, id: nat)
    requires k in s.queue && k in s.calls && (forall j :: Known(s, j, -1))
    ensures s.calls[k].Http? ==>
              (WasCancelled(Finish(s, k, cb), id) <==>
               WasCancelled(s, id) || (cb.Runs? && CancelsIn(InCallback(s, k, DispatchResponse), cb.hostCalls, id)))
    ensures WasCancelled(ForeignEvent(s, k, cb), id) <==>
            WasCancelled(s, id) || (cb.Runs? && CancelsIn(InCallback(s, k, ForeignCallback), cb.hostCalls, id))
  {
    hide Unqueue, Invoke, Known, Answered, CancelsIn, Destroy;
    InvokeCancels(s, k, DispatchResponse, cb, id);
    InvokeCancels(s, k, ForeignCallback, cb, id);
    InvokeKnown(s, k, DispatchResponse, cb);
    InvokeKnown(s, k, ForeignCallback, cb);
    DestroyCancels(Invoke(Unqueue(Answered(s, k), k), k, DispatchResponse, cb), k, id);
    var s1 := Invoke(Unqueue(Answered(s, k), k), k, ForeignCallback, cb);
    SameKnown(s1, Settle(s1, false), k);
    DestroyCancels(Settle(s1, false), k, id);
    if s.calls[k].Http? { HttpAnswers(s, k); }
  }

  lemma {:induction false} HandleCancels(s: State, e: OpEvent, id: nat)
    requires MayHappen(s, e) && (forall k :: Known(s, k, -1))
    ensures WasCancelled(Handle(s, e), id) <==> WasCancelled(s, id) || CancelsAt(s, e, id)
  {
    hide Finish, ForeignEvent, DoHostCalls, DriveCall, CancelsIn, InCallback;
    assert Known(s, id, -1);
    match e
    case RunFilter(step, hs, ret) =>
      SameKnown(s, s.(step := step), -1);
      HostCallsCancel(s.(step := step), hs, -1, id);
    case HttpReady(k, io, cb) => FinishCancels(s, k, cb, id);
    case ForeignReady(k, cb) =>
      assert Known(s, k, -1);
      if k in s.queue { FinishCancels(s, k, cb, id); }
    case ForeignNoBuffer(k) => assert Known(s, k, -1);
  }

  lemma {:induction false} RunCancels(s: State, es: seq<OpEvent>, id: nat)
    requires Happen(s, es) && (forall k :: Known(s, k, -1))
    ensures WasCancelled(HandleAll(s, es), id) <==> WasCancelled(s, id) || CancelledIn(s, es, id)
    decreases |es|
  {
    hide Known, Handle, MayHappen, CancelsAt, WasCancelled;
    if es != [] {
      HandleCancels(s, es[0], id);
      HandleKnown(s, es[0]);
      RunCancels(Handle(s, es[0]), es[1..], id);
    }
  }

  /** Over every run that no late answer ended, the resolver of a foreign call may still
      answer, for a call that is not pending, if and only if a filter or a callback of the
      run sent a local response while the call was pending. */
  lemma {:induction false} LateAnswerIff(step: Step, es: seq<OpEvent>, id: nat, cb: Callback)
    requires Happen(NoOps(step), es)
    ensures var s := HandleAll(NoOps(step), es);
            !s.broken ==> (MayHappen(s, ForeignReady(id, cb)) && id !in s.queue
                           <==> CancelledIn(NoOps(step), es, id))
  {
    hide HandleAll, Happen, CancelledIn;
    StartKnowsAll(step);
    RunKnown(NoOps(step), es);
    RunCancels(NoOps(step), es, id);
    assert Known(HandleAll(NoOps(step), es), id, -1);
  }

  /** In all other cases a foreign call ends at most once, or its answer found no buffer. */
  lemma {:induction false} ForeignEndsOnce(step: Step, es: seq<OpEvent>, id: nat)
    requires Happen(NoOps(step), es) && !CancelledIn(NoOps(step), es, id)
    ensures var s := HandleAll(NoOps(step), es);
            id in s.foreign ==>
              Life(s, id) == [Queued] || Ended(Life(s, id)) || Life(s, id) == [Queued, Unqueued]
  {
    hide HandleAll, Happen, CancelledIn;
    StartKnowsAll(step);
    RunKnown(NoOps(step), es);
    RunCancels(NoOps(step), es, id);
    assert Known(HandleAll(NoOps(step), es), id, -1);
  }

  /** The smallest case: a filter starts a foreign call and then sends a local response. */
  lemma {:induction false} LateAnswerHappens(step: Step, cb: Callback)
    requires step != DispatchResponse
    ensures var es := [RunFilter(step, [Resolve(true), LocalResponse(true)], Pause), ForeignReady(0, cb)];
            && Happen(NoOps(step), es)
            && Life(HandleAll(NoOps(step), es), 0) == CANCELLED + [Unqueued]
  {
    var hs := [Resolve(true), LocalResponse(true)];
    var e1, e2 := RunFilter(step, hs, Pause), ForeignReady(0, cb);
    var s0 := NoOps(step);
    var s1 := DoHostCall(s0, Resolve(true));
    assert s1.queue == [0] && Life(s1, 0) == [Queued] && s1.resolving == {0};
    var d := s1.(action := Done);
    assert Without([0], 0) == [] by { assert [0][1..] == []; }
    var s2 := CancelHead(d);
    assert Life(s2, 0) == [Queued] + [Unqueued] + [Cancelled] + [Destroyed] == CANCELLED;
    assert CancelAll(d) == CancelAll(s2) == s2;
    assert hs[1..] == [LocalResponse(true)] && hs[1..][1..] == [];
    assert DoHostCalls(s0, hs) == DoHostCalls(s1, [LocalResponse(true)]) == s2;
    RunOfTwo(s0, e1, e2);
  }

  lemma {:induction false} CancelAllLife(s: State, id: nat, busy: int)
    requires forall k :: Known(s, k, busy)
    ensures Life(CancelAll(s), id) ==
            if id in s.queue then CANCELLED else Life(s, id)
    decreases |s.queue|
  {
    if s.queue != [] {
      assert Known(s, s.queue[0], busy);
      var s1 := CancelHead(s);
      assert [Queued] + [Unqueued] + [Cancelled] + [Destroyed] == CANCELLED;
      forall k ensures Known(s1, k, busy) { CancelHeadKnown(s, k, busy); }
      CancelAllLife(s1, id, busy);
    }
  }

  /** A local response cancels exactly the operations that are pending. */
  lemma {:induction false} LocalResponseCancels(s: State, id: nat, busy: int)
    requires forall k :: Known(s, k, busy)
    ensures var s' := DoHostCall(s, LocalResponse(true));
            && s'.queue == []
            && Life(s', id) == if id in s.queue then CANCELLED else Life(s, id)
  {
    hide CancelAll, Known;
    var s1 := if s.step == DispatchResponse then s else s.(action := Done);
    SameKnown(s, s1, busy);
    CancelAllKnown(s1, busy);
    CancelAllLife(s1, id, busy);
  }

  // ------------------------------------------------------- the states of a call

  /** How far a call in state `st` has come. */
  function Stage(st: CallState): nat {
    match st
    case Start => 0
    case Connecting => 0
    case Sending => 1
    case Receiving => 2
    case Received => 3
  }

  predicate Connected(st: CallState, io: Io) {
    Stage(st) > 0 || io.connect == IoOk
  }

  predicate Sent(st: CallState, io: Io) {
    Stage(st) > 1 || (Connected(st, io) && io.built && io.send == IoOk)
  }

  predicate Read(st: CallState, io: Io) {
    Stage(st) > 2 || (Sent(st, io) && io.read == IoOk)
  }

  /** A call arrives exactly when all stages ahead of it succeed at once and the instance
      has not trapped. */
  lemma {:induction false} ArrivesIff(st: CallState, io: Io)
    ensures DriveCall(st, io) == Arrives <==> !io.err && !io.trapped && Read(st, io)
  {
  }

  /** A call waits exactly at the first stage that is not ready, and never goes back. */
  lemma {:induction false} WaitsIff(st: CallState, io: Io, at: CallState)
    ensures DriveCall(st, io) == Waits(at) <==>
            !io.err &&
            match at
            case Connecting => Stage(st) == 0 && io.connect == IoAgain
            case Sending => Stage(st) <= 1 && Connected(st, io) && io.built && io.send == IoAgain
            case Receiving => Stage(st) <= 2 && Sent(st, io) && io.read == IoAgain
            case _ => false
    ensures DriveCall(st, io) == Waits(at) ==> Stage(st) <= Stage(at)
  {
  }

  /** A failed call reports no error, so that the step is resumed, exactly when its request
      could not be built right after the connection was made. */
  lemma {:induction false} QuietFailureIff(st: CallState, io: Io)
    ensures DriveCall(st, io) == Fails(false) <==>
            !io.err && Stage(st) == 0 && io.connect == IoOk && !io.built
  {
  }

  // ----------------------------------------------------------- resuming the step

  /** Pending operations keep the environment yielding and the action paused. */
  ghost predicate Settled(s: State) {
    s.queue != [] ==> s.env == Yielding && s.action == Pause
  }

  /** The environment continues, and so does the action, exactly when nothing is pending;
      otherwise the environment yields and the action is to pause. */
  ghost predicate SettledExactly(s: State) {
    if s.queue == [] then s.env == Continuing && s.action == Continue
    else s.env == Yielding && s.action == Pause
  }

  /** Whether the handler of a call reports an error. */
  ghost predicate Errs(s: State, e: OpEvent)
    requires MayHappen(s, e)
  {
    e.HttpReady? &&
    match DriveCall(s.calls[e.id].state, e.io)
    case Waits(_) => false
    case Fails(error) => error
    case Arrives => CallbackFails(e.cb)
  }

  lemma {:induction false} HostCallResumes(s: State, h: HostCall)
    ensures DoHostCall(s, h).resumed == s.resumed && DoHostCall(s, h).step == s.step
  {
    if h.LocalResponse? {
      CancelResumes(if s.step == DispatchResponse then s else s.(action := Done));
    }
  }

  lemma {:induction false} CancelResumes(s: State)
    ensures CancelAll(s).resumed == s.resumed && CancelAll(s).step == s.step
    decreases |s.queue|
  {
    if s.queue != [] { CancelResumes(CancelHead(s)); }
  }

  lemma {:induction false} HostCallsResume(s: State, hs: seq<HostCall>)
    ensures DoHostCalls(s, hs).resumed == s.resumed && DoHostCalls(s, hs).step == s.step
    decreases |hs|
  {
    hide DoHostCall;
    if hs != [] {
      HostCallResumes(s, hs[0]);
      HostCallsResume(DoHostCall(s, hs[0]), hs[1..]);
    }
  }

  lemma {:induction false} InvokeResumes(s: State, id: nat, step: Step, cb: Callback)
    ensures var s' := Invoke(s, id, step, cb);
            && s'.resumed == s.resumed
            && s'.step == if cb.Runs? && cb.trap && step == DispatchResponse then step else s.step
  {
    hide DoHostCalls;
    if cb.Runs? { HostCallsResume(Note(s, id, CalledBack).(step := step), cb.hostCalls); }
  }

  lemma {:induction false} FinishResumes(s: State, id: nat, cb: Callback)
    ensures var s' := Finish(s, id, cb);
            s'.resumed == s.resumed && s'.step == if cb.Runs? && cb.trap then DispatchResponse else s.step
  {
    hide Invoke;
    InvokeResumes(Unqueue(s, id), id, DispatchResponse, cb);
  }

  lemma {:induction false} SettleResumes(s: State, error: bool)
    ensures var s' := Settle(s, error);
            && SettledExactly(s') && s'.queue == s.queue && s'.step == s.step
            && s'.resumed == if s.queue == [] && !error then s.resumed + [s.step] else s.resumed
  {
  }

  lemma {:induction false} ForeignResumes(s: State, id: nat, cb: Callback)
    ensures var s' := ForeignEvent(s, id, cb);
            && SettledExactly(s') && s'.step == s.step
            && s'.resumed == if s'.queue == [] then s.resumed + [s.step] else s.resumed
  {
    hide Invoke, Settle;
    var s1 := Invoke(Unqueue(Answered(s, id), id), id, ForeignCallback, cb);
    InvokeResumes(Unqueue(Answered(s, id), id), id, ForeignCallback, cb);
    SettleResumes(s1, false);
  }

  lemma {:induction false} HttpResumes(s: State, id: nat, io: Io, cb: Callback)
    requires MayHappen(s, HttpReady(id, io, cb))
    ensures var s' := HttpEvent(s, id, io, cb);
            && SettledExactly(s')
            && s'.step == (if Traps(s, HttpReady(id, io, cb)) then DispatchResponse else s.step)
            && s'.resumed == (if s'.queue == [] && !Errs(s, HttpReady(id, io, cb)) then s.resumed + [s'.step]
                              else s.resumed)
  {
    hide DriveCall, Finish, Settle;
    FinishResumes(s, id, cb);
    match DriveCall(s.calls[id].state, io)
    case Waits(st) => SettleResumes(s.(calls := s.calls[id := Http(st)]), false);
    case Fails(error) => SettleResumes(Finish(s, id, cb), error);
    case Arrives => SettleResumes(Finish(s, id, cb), CallbackFails(cb));
  }

  /** The completion of an operation resumes the paused step only if nothing is pending
      then, and for that it suffices that no error is reported.  With an error or without,
      the environment and the action continue exactly when nothing is pending: otherwise
      the environment yields and the action is to pause. */
  lemma {:induction false} ResumesOnlyWhenIdle(s: State, e: OpEvent)
    requires MayHappen(s, e) && (e.HttpReady? || (e.ForeignReady? && e.id in s.queue))
    ensures var s' := Handle(s, e);
            && SettledExactly(s')
            && s'.resumed == (if s'.queue == [] && !Errs(s, e) then s.resumed + [s'.step] else s.resumed)
  {
    hide HttpEvent, ForeignEvent, SettledExactly, DriveCall;
    if e.HttpReady? {
      HttpResumes(s, e.id, e.io, e.cb);
    } else {
      ForeignResumes(s, e.id, e.cb);
    }
  }

  /** So the resumed step is under way again: the filter that the chain stands at runs, unless
      it has an error, or no context. */
  lemma {:induction false} ResumedStepRuns(s: State, e: OpEvent, c: Ctx, yieldable: bool, vs: nat -> Verdict)
    requires MayHappen(s, e) && (e.HttpReady? || (e.ForeignReady? && e.id in s.queue))
    requires Handle(s, e).resumed != s.resumed && c.action == Handle(s, e).action
    requires var step := Handle(s, e).step; step != DoneStep && !(RunsOnce(step) && Number(step) <= c.last)
    ensures var step := Handle(s, e).step;
            var ran, i := Resume(c, step, yieldable, vs).ran, Enter(c, step).execIndex;
            && (ran != [] <==> i < |c.ecodes| && c.ecodes[i] == NONE && vs(i).Ran?)
            && (ran != [] ==> ran[0] == i)
  {
    hide Handle, Resume;
    ResumesOnlyWhenIdle(s, e);
    FilterChainSteps.StartsRunningIff(c, Handle(s, e).step, yieldable, vs);
  }

  /** A dropped foreign call leaves the environment continuing, and so breaks this exactly
      when other operations are pending. */
  lemma {:induction false} DroppedSettlesIff(s: State, id: nat)
    requires MayHappen(s, ForeignNoBuffer(id)) && id in s.queue
    ensures var s' := Handle(s, ForeignNoBuffer(id));
            && (Settled(s') <==> forall k :: k in s.queue ==> k == id)
            && s'.resumed == s.resumed
  {
    var s' := Handle(s, ForeignNoBuffer(id));
    assert forall k :: k in s'.queue <==> k in s.queue && k != id;
    if s'.queue != [] {
      assert s'.queue[0] in s'.queue;
    }
  }

  /** Such a run: a filter dispatches an HTTP call and starts a foreign call, whose answer
      then finds no buffer. */
  lemma {:induction false} DroppedUnsettles(step: Step)
    ensures var es := [RunFilter(step, [Dispatch(Made), Resolve(true)], Pause), ForeignNoBuffer(1)];
            Happen(NoOps(step), es) && !Settled(HandleAll(NoOps(step), es))
  {
    var hs := [Dispatch(Made), Resolve(true)];
    var e1, e2 := RunFilter(step, hs, Pause), ForeignNoBuffer(1);
    var s0 := NoOps(step);
    TwoStarts(s0);
    var s1 := Handle(s0, e1);
    assert s1.queue == [1, 0] && s1.resolving == {1} && !s1.broken;
    assert Without([1, 0], 1) == [0] by { assert [1, 0][1..] == [0] && [0][1..] == []; }
    var s2 := Handle(s1, e2);
    assert s2.queue == [0] && s2.env == Continuing;
    RunOfTwo(s0, e1, e2);
  }

  lemma {:induction false} TwoStarts(s: State)
    ensures DoHostCalls(s, [Dispatch(Made), Resolve(true)])
            == DoHostCall(DoHostCall(s, Dispatch(Made)), Resolve(true))
  {
    hide DoHostCall;
    var hs := [Dispatch(Made), Resolve(true)];
    assert hs[1..] == [Resolve(true)] && hs[1..][1..] == [];
  }

  lemma {:induction false} RunOfTwo(s: State, e1: OpEvent, e2: OpEvent)
    requires MayHappen(s, e1) && MayHappen(Handle(s, e1), e2)
    ensures Happen(s, [e1, e2]) && HandleAll(s, [e1, e2]) == Handle(Handle(s, e1), e2)
  {
    hide Handle, MayHappen;
    var s1 := Handle(s, e1);
    assert [e1, e2][1..] == [e2] && [e2][1..] == [];
    assert Happen(Handle(s1, e2), []) && HandleAll(Handle(s1, e2), []) == Handle(s1, e2);
    assert Happen(s1, [e2]) && HandleAll(s1, [e2]) == Handle(s1, e2);
  }

  // ------------------------------------------------------------ the resumed step

  /** Event `e` runs a dispatch callback that traps. */
  ghost predicate Traps(s: State, e: OpEvent)
    requires MayHappen(s, e)
  {
    e.HttpReady? && e.cb.Runs? && e.cb.trap && !DriveCall(s.calls[e.id].state, e.io).Waits?
  }

  ghost predicate Trapped(s: State, es: seq<OpEvent>)
    requires Happen(s, es)
    decreases |es|
  {
    es != [] && (Traps(s, es[0]) || Trapped(Handle(s, es[0]), es[1..]))
  }

  /** The filter itself does not run in a step of its own. */
  ghost predicate OnlyCallbacks(es: seq<OpEvent>) {
    forall i :: 0 <= i < |es| ==> !es[i].RunFilter?
  }

  /** One event: which step is the current one, and which is resumed. */
  lemma {:induction false} StepAfterEvent(s: State, e: OpEvent)
    requires MayHappen(s, e) && !e.RunFilter?
    ensures var s' := Handle(s, e);
            && s'.step == (if Traps(s, e) then DispatchResponse else s.step)
            && (s'.resumed == s.resumed || s'.resumed == s.resumed + [s'.step])
  {
    hide HttpEvent, ForeignEvent, SettledExactly, DriveCall;
    match e
    case HttpReady(id, io, cb) => HttpResumes(s, id, io, cb);
    case ForeignReady(id, cb) => ForeignResumes(s, id, cb);
    case ForeignNoBuffer(id) =>
  }

  /** Callbacks run in steps of their own, and yet the current step stays the paused one
      exactly as long as no dispatch callback traps. */
  lemma {:induction false} StepAfterRun(s: State, es: seq<OpEvent>)
    requires Happen(s, es) && OnlyCallbacks(es)
    ensures HandleAll(s, es).step == if Trapped(s, es) then DispatchResponse else s.step
    decreases |es|
  {
    hide Handle, MayHappen, Traps;
    if es != [] {
      StepAfterEvent(s, es[0]);
      StepAfterRun(Handle(s, es[0]), es[1..]);
    }
  }

  lemma {:induction false} HappenSnoc(s: State, es: seq<OpEvent>, e: OpEvent)
    requires Happen(s, es + [e])
    ensures Happen(s, es) && MayHappen(HandleAll(s, es), e)
    ensures Trapped(s, es + [e]) <==> Trapped(s, es) || Traps(HandleAll(s, es), e)
    decreases |es|
  {
    hide Handle, MayHappen, Traps;
    if es == [] {
      assert [] + [e] == [e] && [e][1..] == [];
    } else {
      assert (es + [e])[0] == es[0] && (es + [e])[1..] == es[1..] + [e];
      HappenSnoc(Handle(s, es[0]), es[1..], e);
    }
  }

  /** An event that resumes a step resumes the paused one if and only if neither it nor an
      event before it ran a dispatch callback that trapped. */
  lemma {:induction false} ResumesThePausedStepIff(s: State, es: seq<OpEvent>, e: OpEvent)
    requires Happen(s, es + [e]) && OnlyCallbacks(es + [e]) && s.step != DispatchResponse
    ensures Happen(s, es) && MayHappen(HandleAll(s, es), e)
    ensures var before, after := HandleAll(s, es), Handle(HandleAll(s, es), e);
            after.resumed != before.resumed ==>
              && |after.resumed| == |before.resumed| + 1
              && (after.resumed[|before.resumed|] == s.step <==> !Trapped(s, es + [e]))
              && (after.resumed[|before.resumed|] == DispatchResponse <==> Trapped(s, es + [e]))
  {
    hide Handle, MayHappen, Traps, HandleAll, Happen, Trapped;
    HappenSnoc(s, es, e);
    assert (es + [e])[|es|] == e && es == (es + [e])[..|es|];
    StepAfterRun(s, es);
    StepAfterEvent(HandleAll(s, es), e);
  }

  lemma {:induction false} TrappedCallback(s: State, a: nat, b: nat, io: Io)
    requires s.queue == [a, b] && a != b && a in s.calls && s.calls[a].Http?
    requires DriveCall(s.calls[a].state, io) == Arrives
    ensures var s1 := HttpEvent(s, a, io, Runs([], true));
            && s1.queue == [b] && s1.step == DispatchResponse && s1.resumed == s.resumed
            && s1.resolving == s.resolving && s1.broken == s.broken
  {
    hide DriveCall;
    assert Without([a, b], a) == [b] by { assert [a, b][1..] == [b] && [b][1..] == []; }
  }

  lemma {:induction false} LastForeign(s: State, b: nat)
    requires s.queue == [b]
    ensures ForeignEvent(s, b, Runs([], false)).resumed == s.resumed + [s.step]
  {
    assert Without([b], b) == [];
  }

  /** Such a case: a dispatch callback traps, then a foreign call completes as the last
      pending operation. */
  lemma {:induction false} TrapChangesResumedStep(s: State, a: nat, b: nat, io: Io)
    requires s.queue == [a, b] && a != b && a in s.calls && s.calls[a].Http? && b in s.resolving && !s.broken
    requires DriveCall(s.calls[a].state, io) == Arrives
    ensures var es := [HttpReady(a, io, Runs([], true)), ForeignReady(b, Runs([], false))];
            && Happen(s, es)
            && HandleAll(s, es).resumed == s.resumed + [DispatchResponse]
  {
    hide DriveCall, HttpEvent, ForeignEvent, Happen, HandleAll;
    var e1, e2 := HttpReady(a, io, Runs([], true)), ForeignReady(b, Runs([], false));
    TrappedCallback(s, a, b, io);
    LastForeign(Handle(s, e1), b);
    RunOfTwo(s, e1, e2);
  }
}

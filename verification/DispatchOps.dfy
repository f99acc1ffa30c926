/** The pending operations of one filter: HTTP dispatch calls and foreign calls, their
    completion, failure and cancellation, and the resumption of the paused step. */
module DispatchOps {
  import opened Queues
  import opened FilterChain

  /** What happens to an operation. */
  datatype Mark = Queued | Unqueued | CalledBack | Cancelled | Destroyed

  datatype CallState = Start | Connecting | Sending | Receiving | Received

  datatype Op = Http(state: CallState) | Foreign

  datatype Env = Continuing | Yielding

  /** `queue` holds the pending operations, head first, `calls` those in memory, and
      `resolving` the foreign calls whose resolver has not answered; `lives`, `foreign`
      and `resumed` record what happened.  After an operation is unlinked that was not
      linked any more, the state is `broken`. */
  datatype State = State(queue: seq<nat>, calls: map<nat, Op>, resolving: set<nat>, next: nat,
                         env: Env, action: Action, step: Step, broken: bool,
                         lives: map<nat, seq<Mark>>, foreign: set<nat>, resumed: seq<Step>)

  function NoOps(step: Step): State {
    State([], map[], {}, 0, Continuing, Continue, step, false, map[], {}, [])
  }

  function Life(s: State, id: nat): seq<Mark> {
    if id in s.lives then s.lives[id] else []
  }

  function Note(s: State, id: nat, m: Mark): State {
    s.(lives := s.lives[id := Life(s, id) + [m]])
  }

  // ------------------------------------------------------------- host calls

  datatype Outcome = NotMade | FailedStart | Made

  /** What a filter does while it runs.  A foreign call is pending only if it is
      asynchronous; a local response is stashed or refused. */
  datatype HostCall = Dispatch(outcome: Outcome) | Resolve(async: bool) | LocalResponse(stashed: bool)

  function StartOp(s: State, op: Op): State {
    var id, started := s.next, if op.Foreign? then {s.next} else {};
    Note(s.(queue := [id] + s.queue, calls := s.calls[id := op], next := id + 1,
            resolving := s.resolving + started, foreign := s.foreign + started), id, Queued)
  }

  function Unqueue(s: State, id: nat): State {
    Note(s.(queue := Without(s.queue, id)), id, Unqueued)
  }

  function Destroy(s: State, id: nat): State {
    Note(s.(calls := s.calls - {id}), id, Destroyed)
  }

  function CancelHead(s: State): (s': State)
    requires s.queue != []
    ensures |s'.queue| < |s.queue|
  {
    var id := s.queue[0];
    Destroy(Note(Unqueue(s, id), id, Cancelled), id)
  }

  function CancelAll(s: State): State
    decreases |s.queue|
  {
    if s.queue == [] then s else CancelAll(CancelHead(s))
  }

  function DoHostCall(s: State, h: HostCall): State {
    match h
    case Dispatch(NotMade) => s
    case Dispatch(FailedStart) => Note(s.(next := s.next + 1), s.next, Destroyed)
    case Dispatch(Made) => StartOp(s, Http(Start)).(action := Pause)
    case Resolve(async) => if async then StartOp(s, Foreign) else s
    case LocalResponse(stashed) =>
      if !stashed then s
      else CancelAll(if s.step == DispatchResponse then s else s.(action := Done))
  }

  function DoHostCalls(s: State, hs: seq<HostCall>): State
    decreases |hs|
  {
    if hs == [] then s else DoHostCalls(DoHostCall(s, hs[0]), hs[1..])
  }

  // -------------------------------------------------------------- callbacks

  /** A callback makes host calls, and may trap after them; or it has no context. */
  datatype Callback = NoInstance | Runs(hostCalls: seq<HostCall>, trap: bool)

  /** A dispatch callback that fails leaves its own step as the current one; without a
      context, no callback runs at all. */
  function Invoke(s: State, id: nat, step: Step, cb: Callback): State {
    match cb
    case NoInstance => s
    case Runs(hs, trap) =>
      var s2 := DoHostCalls(Note(s, id, CalledBack).(step := step), hs);
      s2.(action := if s2.action == Done then Done else s.action,
          step := if trap && step == DispatchResponse then step else s.step)
  }

  predicate CallbackFails(cb: Callback) {
    cb.NoInstance? || cb.trap
  }

  /** The end of every event: the step is resumed when nothing is pending. */
  function Settle(s: State, error: bool): State {
    if s.queue != [] then s.(env := Yielding, action := Pause)
    else
      s.(env := Continuing, action := Continue, resumed := if error then s.resumed else s.resumed + [s.step])
  }

  // ------------------------------------------------------------- HTTP calls

  datatype IoRc = IoOk | IoAgain | IoError

  /** What the socket does, step by step; `trapped` tells of the filter's instance. */
  datatype Io = Io(err: bool, connect: IoRc, built: bool, send: IoRc, read: IoRc, trapped: bool)

  /** `Fails(error)`: the call failed; `error` tells whether an error code is reported. */
  datatype Drive = Waits(state: CallState) | Fails(error: bool) | Arrives

  function DriveRead(io: Io): Drive {
    match io.read
    case IoError => Fails(true)
    case IoAgain => Waits(Receiving)
    case IoOk => if io.trapped then Fails(true) else Arrives
  }

  /** When the request cannot be built, the return code is that of the connect, if any. */
  function DriveSend(io: Io, connected: bool): Drive {
    if !io.built then Fails(!connected)
    else match io.send
      case IoError => Fails(true)
      case IoAgain => Waits(Sending)
      case IoOk => DriveRead(io)
  }

  function DriveCall(st: CallState, io: Io): Drive {
    if io.err then Fails(true)
    else match st
      case Start => DriveConnect(io)
      case Connecting => DriveConnect(io)
      case Sending => DriveSend(io, false)
      case Receiving => DriveRead(io)
      case Received => if io.trapped then Fails(true) else Arrives
  }

  function DriveConnect(io: Io): Drive {
    match io.connect
    case IoError => Fails(true)
    case IoAgain => Waits(Connecting)
    case IoOk => DriveSend(io, true)
  }

  /** Takes a finished call off the queue, runs its callback and frees it. */
  function Finish(s: State, id: nat, cb: Callback): State {
    Destroy(Invoke(Unqueue(s, id), id, DispatchResponse, cb), id)
  }

  function HttpEvent(s: State, id: nat, io: Io, cb: Callback): State
    requires id in s.calls && s.calls[id].Http?
  {
    match DriveCall(s.calls[id].state, io)
    case Waits(st) => Settle(s.(calls := s.calls[id := Http(st)]), false)
    case Fails(error) => Settle(Finish(s, id, cb), error)
    case Arrives => Settle(Finish(s, id, cb), CallbackFails(cb))
  }

  /** The resolver of a foreign call has answered. */
  function Answered(s: State, id: nat): State {
    s.(resolving := s.resolving - {id})
  }

  /** The callback of a foreign call: its memory is freed last. */
  function ForeignEvent(s: State, id: nat, cb: Callback): State {
    Destroy(Settle(Invoke(Unqueue(Answered(s, id), id), id, ForeignCallback, cb), false), id)
  }

  /** No buffer for the answer of a foreign call: it is dropped without a callback. */
  function ForeignDropped(s: State, id: nat): State {
    Unqueue(Answered(s, id), id).(env := Continuing)
  }

  /** The answer for a foreign call that is not pending: its link is taken out of a queue
      that it is not in. */
  function LateAnswer(s: State, id: nat): State {
    Note(Answered(s, id), id, Unqueued).(broken := true)
  }

  // ------------------------------------------------------------------- runs

  datatype OpEvent =
    | RunFilter(step: Step, hostCalls: seq<HostCall>, ret: Action)
    | HttpReady(id: nat, io: Io, cb: Callback)
    | ForeignReady(id: nat, cb: Callback)
    | ForeignNoBuffer(id: nat)

  /** A socket goes with its call, so it only wakes pending ones, and a call that arrives has
      an instance that has not trapped; a resolver answers once for every foreign call,
      pending or not. */
  predicate MayHappen(s: State, e: OpEvent) {
    && !s.broken
    && match e
       case RunFilter(_, _, _) => true
       case HttpReady(id, io, cb) =>
         && id in s.queue && id in s.calls && s.calls[id].Http?
         && (DriveCall(s.calls[id].state, io).Arrives? ==> cb.Runs?)
       case ForeignReady(id, _) => id in s.resolving
       case ForeignNoBuffer(id) => id in s.resolving
  }

  function Handle(s: State, e: OpEvent): State
    requires MayHappen(s, e)
  {
    match e
    case RunFilter(step, hs, ret) =>
      var s1 := DoHostCalls(s.(step := step), hs);
      s1.(action := if s1.action == Done then Done else ret)
    case HttpReady(id, io, cb) => HttpEvent(s, id, io, cb)
    case ForeignReady(id, cb) => if id in s.queue then ForeignEvent(s, id, cb) else LateAnswer(s, id)
    case ForeignNoBuffer(id) => if id in s.queue then ForeignDropped(s, id) else LateAnswer(s, id)
  }

  predicate Happen(s: State, es: seq<OpEvent>)
    decreases |es|
  {
    es == [] || (MayHappen(s, es[0]) && Happen(Handle(s, es[0]), es[1..]))
  }

  function HandleAll(s: State, es: seq<OpEvent>): State
    requires Happen(s, es)
    decreases |es|
  {
    if es == [] then s else HandleAll(Handle(s, es[0]), es[1..])
  }

  // ---------------------------------------------------------- lives of operations

  ghost const CALLED := [Queued, Unqueued, CalledBack, Destroyed]
  ghost const CANCELLED := [Queued, Unqueued, Cancelled, Destroyed]
  ghost const SKIPPED := [Queued, Unqueued, Destroyed]

  /** How an operation can end: called back, cancelled, completed without a callback, or
      not started. */
  ghost predicate Ended(life: seq<Mark>) {
    life == CALLED || life == CANCELLED || life == SKIPPED || life == [Destroyed]
  }

  /** Operation `id` is over, in state `s`. */
  ghost predicate Over(s: State, id: nat) {
    || (id !in s.calls && Ended(Life(s, id)) && (id in s.resolving <==> id in s.foreign && Life(s, id) == CANCELLED))
    || (id in s.calls && s.calls[id].Foreign? && id in s.foreign - s.resolving && Life(s, id) == [Queued, Unqueued])
    || (id !in s.calls && s.broken && id in s.foreign - s.resolving && Life(s, id) == CANCELLED + [Unqueued])
  }

  /** The state agrees with what happened to operation `id`; `busy` is the operation
      whose callback is running. */
  ghost predicate Known(s: State, id: nat, busy: int) {
    if id in s.queue then
      && id in s.calls && id < s.next && id != busy && Life(s, id) == [Queued]
      && (id in s.resolving <==> s.calls[id].Foreign?) && (id in s.foreign <==> s.calls[id].Foreign?)
    else if id == busy then
      && id in s.calls && id < s.next && id !in s.resolving
      && (Life(s, id) == [Queued, Unqueued] || Life(s, id) == [Queued, Unqueued, CalledBack])
    else if id >= s.next then
      id !in s.calls && id !in s.resolving && id !in s.foreign && Life(s, id) == []
    else Over(s, id)
  }

  lemma {:induction false} StartKnown(s: State, op: Op, id: nat, busy: int)
    requires Known(s, id, busy) && Known(s, s.next, busy)
    ensures Known(StartOp(s, op), id, busy)
  {
    if id == s.next { assert [] + [Queued] == [Queued]; }
  }

  lemma {:induction false} CancelHeadKnown(s: State, id: nat, busy: int)
    requires s.queue != [] && Known(s, id, busy) && Known(s, s.queue[0], busy)
    ensures Known(CancelHead(s), id, busy)
  {
    if id == s.queue[0] {
      assert [Queued] + [Unqueued] + [Cancelled] + [Destroyed] == [Queued, Unqueued, Cancelled, Destroyed];
    }
  }

  lemma {:induction false} CancelAllKnown(s: State, busy: int)
    requires forall id :: Known(s, id, busy)
    ensures forall id :: Known(CancelAll(s), id, busy)
    ensures CancelAll(s).queue == []
    decreases |s.queue|
  {
    hide CancelHead, Known;
    if s.queue != [] {
      forall id ensures Known(CancelHead(s), id, busy) { CancelHeadKnown(s, id, busy); }
      CancelAllKnown(CancelHead(s), busy);
    }
  }

  lemma {:induction false} HostCallKnown(s: State, h: HostCall, busy: int)
    requires forall id :: Known(s, id, busy)
    ensures forall id :: Known(DoHostCall(s, h), id, busy)
  {
    hide CancelAll, StartOp;
    match h
    case Dispatch(NotMade) =>
    case Dispatch(FailedStart) =>
      assert [] + [Destroyed] == [Destroyed];
      assert Known(s, s.next, busy);
      forall id ensures Known(DoHostCall(s, h), id, busy) { assert Known(s, id, busy); }
    case Dispatch(Made) =>
      forall id ensures Known(DoHostCall(s, h), id, busy) { StartKnown(s, Http(Start), id, busy); }
    case Resolve(async) =>
      forall id ensures Known(DoHostCall(s, h), id, busy) { StartKnown(s, Foreign, id, busy); }
    case LocalResponse(stashed) =>
      var s1 := if s.step == DispatchResponse then s else s.(action := Done);
      assert forall id {:trigger Known(s1, id, busy)} :: Known(s, id, busy) ==> Known(s1, id, busy);
      CancelAllKnown(s1, busy);
  }

  lemma {:induction false} HostCallsKnown(s: State, hs: seq<HostCall>, busy: int)
    requires forall id :: Known(s, id, busy)
    ensures forall id :: Known(DoHostCalls(s, hs), id, busy)
    decreases |hs|
  {
    hide DoHostCall, Known;
    if hs != [] {
      HostCallKnown(s, hs[0], busy);
      HostCallsKnown(DoHostCall(s, hs[0]), hs[1..], busy);
    }
  }
}

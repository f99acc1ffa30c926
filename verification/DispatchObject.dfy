/** The pending operations of a filter as they are updated in place. */
module DispatchObject {
  import opened Queues
  import opened FilterChain
  import opened DispatchOps

  class Pending {
    var queue: seq<nat>
    var calls: map<nat, Op>
    var resolving: set<nat>
    var next: nat
    var env: Env
    var action: Action
    var step: Step
    ghost var broken: bool
    ghost var lives: map<nat, seq<Mark>>
    ghost var foreign: set<nat>
    ghost var resumed: seq<Step>

    ghost function Abs(): (s: State)
      reads this
    {
      State(queue, calls, resolving, next, env, action, step, broken, lives, foreign, resumed)
    }

    constructor (step: Step)
      ensures Abs() == NoOps(step)
    {
      queue, calls, resolving, next := [], map[], {}, 0;
      env, action, this.step := Continuing, Continue, step;
      broken, lives, foreign, resumed := false, map[], {}, [];
    }

    ghost method Marked(id: nat, m: Mark, s: State)
      requires Abs() == s
      modifies this`lives
      ensures Abs() == Note(s, id, m)
    {
      lives := lives[id := Life(s, id) + [m]];
    }

    method OpsTotal() returns (n: nat)
      ensures n == |queue|
    {
      n := 0;
      for i := 0 to |queue|
        invariant n == i
      {
        n := n + 1;
      }
    }

    method Remove(id: nat, ghost s: State)
      requires Abs() == s
      modifies this
      ensures Abs() == Unqueue(s, id)
    {
      queue := Without(queue, id);
      Marked(id, Unqueued, Abs());
    }

    method Free(id: nat, ghost s: State)
      requires Abs() == s
      modifies this
      ensures Abs() == Destroy(s, id)
    {
      calls := calls - {id};
      Marked(id, Destroyed, Abs());
    }

    method OpsCancel(ghost s: State)
      requires Abs() == s
      modifies this
      ensures Abs() == CancelAll(s)
    {
      while queue != []
        invariant CancelAll(s) == CancelAll(Abs())
        decreases |queue|
      {
        ghost var s1 := Abs();
        var id := queue[0];
        Remove(id, s1);
        Marked(id, Cancelled, Abs());
        Free(id, Abs());
        assert Abs() == CancelHead(s1);
      }
    }

    method Enqueue(op: Op, ghost s: State)
      requires Abs() == s
      modifies this
      ensures Abs() == StartOp(s, op)
    {
      var id := next;
      queue, calls, next := [id] + queue, calls[id := op], next + 1;
      if op.Foreign? {
        resolving := resolving + {id};
        foreign := foreign + {id};
      }
      Marked(id, Queued, Abs());
    }

    method Host(h: HostCall, ghost s: State)
      requires Abs() == s
      modifies this
      ensures Abs() == DoHostCall(s, h)
    {
      hide CancelAll;
      match h {
        case Dispatch(NotMade) =>
        case Dispatch(FailedStart) =>
          next := next + 1;
          Marked(next - 1, Destroyed, Abs());
        case Dispatch(Made) =>
          Enqueue(Http(Start), s);
          action := Pause;
        case Resolve(async) =>
          if async {
            Enqueue(Foreign, s);
          }
        case LocalResponse(stashed) =>
          if stashed {
            if step != DispatchResponse {
              action := Done;
            }
            OpsCancel(Abs());
          }
      }
    }

    method RunHostCalls(hs: seq<HostCall>, ghost s: State)
      requires Abs() == s
      modifies this
      ensures Abs() == DoHostCalls(s, hs)
    {
      hide DoHostCall;
      assert hs[0..] == hs;
      for i := 0 to |hs|
        invariant DoHostCalls(s, hs) == DoHostCalls(Abs(), hs[i..])
      {
        assert hs[i..][0] == hs[i] && hs[i..][1..] == hs[i + 1..];
        Host(hs[i], Abs());
      }
    }

    /** Runs the callback of operation `id` in step `during`. */
    method InvokeCallback(id: nat, during: Step, cb: Callback, ghost s: State)
      requires Abs() == s
      modifies this
      ensures Abs() == Invoke(s, id, during, cb)
    {
      hide DoHostCalls, Note;
      var saved, before := step, action;
      if cb.NoInstance? {
        return;
      }
      Marked(id, CalledBack, s);
      NoteKeeps(s, id, CalledBack);
      step := during;
      RunHostCalls(cb.hostCalls, Abs());
      if action != Done {
        action := before;
      }
      step := if cb.trap && during == DispatchResponse then during else saved;
    }

    method SettleStep(error: bool, ghost s: State)
      requires Abs() == s
      modifies this
      ensures Abs() == Settle(s, error)
    {
      var n := OpsTotal();
      if n > 0 {
        env, action := Yielding, Pause;
      } else {
        env, action := Continuing, Continue;
        if !error {
          resumed := resumed + [step];
        }
      }
    }

    /** The state machine of an HTTP call, from its current state on. */
    method Progress(id: nat, io: Io) returns (d: Drive)
      requires id in calls && calls[id].Http?
      ensures d == DriveCall(calls[id].state, io)
    {
      if io.err {
        return Fails(true);
      }
      var st := calls[id].state;
      var connected := false;
      if st == Start {
        st := Connecting;
      }
      if st == Connecting {
        if io.connect == IoError {
          return Fails(true);
        }
        if io.connect == IoAgain {
          return Waits(Connecting);
        }
        connected := true;
        st := Sending;
      }
      if st == Sending {
        if !io.built {
          return Fails(!connected);
        }
        if io.send == IoError {
          return Fails(true);
        }
        if io.send == IoAgain {
          return Waits(Sending);
        }
        st := Receiving;
      }
      if st == Receiving {
        if io.read == IoError {
          return Fails(true);
        }
        if io.read == IoAgain {
          return Waits(Receiving);
        }
      }
      return if io.trapped then Fails(true) else Arrives;
    }

    method CallEnds(id: nat, cb: Callback, ghost s: State)
      requires Abs() == s
      modifies this
      ensures Abs() == Finish(s, id, cb)
    {
      hide Invoke, Unqueue, Destroy;
      Remove(id, s);
      InvokeCallback(id, DispatchResponse, cb, Abs());
      Free(id, Abs());
    }

    /** The socket of an HTTP call is ready. */
    method ResumeHandler(id: nat, io: Io, cb: Callback, ghost s: State)
      requires Abs() == s && id in calls && calls[id].Http?
      modifies this
      ensures Abs() == HttpEvent(s, id, io, cb)
    {
      hide Settle, Finish, DriveCall;
      var d := Progress(id, io);
      match d {
        case Waits(st) =>
          calls := calls[id := Http(st)];
          SettleStep(false, Abs());
        case Fails(error) =>
          CallEnds(id, cb, s);
          SettleStep(error, Abs());
        case Arrives =>
          CallEnds(id, cb, s);
          SettleStep(CallbackFails(cb), Abs());
      }
    }

    /** A foreign call has its answer: it is taken off the queue, which it may have left
        before. */
    method ForeignHandler(id: nat, cb: Callback, ghost s: State)
      requires Abs() == s && MayHappen(s, ForeignReady(id, cb))
      modifies this
      ensures Abs() == Handle(s, ForeignReady(id, cb))
    {
      hide Settle, Invoke, Destroy;
      resolving := resolving - {id};
      if id !in queue {
        Marked(id, Unqueued, Abs());
        broken := true;
        return;
      }
      Remove(id, Abs());
      InvokeCallback(id, ForeignCallback, cb, Abs());
      SettleStep(false, Abs());
      Free(id, Abs());
    }
  }

  lemma {:induction false} NoteKeeps(s: State, id: nat, m: Mark)
    ensures Note(s, id, m) == s.(lives := Note(s, id, m).lives)
  {
  }
}

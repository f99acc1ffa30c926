/** The filter chain as it is updated in place. */
module FilterChainObject {
  import opened FilterChain

  class Chain {
    var action: Action
    var step: Step
    var execIndex: nat
    var last: nat
    var ecodes: seq<nat>
    /** The filters that resumes ran. */
    ghost var trace: seq<nat>

    ghost function State(): (c: Ctx)
      reads this
    {
      Ctx(action, step, execIndex, last, ecodes)
    }

    constructor (nfilters: nat)
      ensures State() == Ctx(Continue, ReqHeaders, 0, 0, seq(nfilters, _ => NONE)) && Valid(State())
    {
      action, step, execIndex, last := Continue, ReqHeaders, 0, 0;
      ecodes := seq(nfilters, _ => NONE);
    }

    /** The return code of the current action, for filter `i`. */
    method ActionToRc(i: nat, yieldable: bool, ghost c: Ctx) returns (rc: Rc)
      requires State() == c && i < |ecodes|
      modifies this
      ensures trace == old(trace)
      ensures (rc, State()) == Action2rc(c, i, yieldable) && |ecodes| == |c.ecodes|
    {
      if ecodes[i] != NONE {
        return RcFail;
      }
      if step == DoneStep {
        return RcOk;
      }
      match action {
        case Done =>
          action := Continue;
          return RcDone;
        case Continue =>
          return RcOk;
        case Pause =>
          if yieldable {
            return RcAgain;
          }
          if execIndex < |ecodes| {
            ecodes := ecodes[execIndex := RETURN_ACTION];
          }
          return RcFail;
        case Other(_) =>
          ecodes := ecodes[i := UNKNOWN];
          return RcFail;
      }
    }

    method RunFilter(k: nat, s: Step, v: Verdict, ghost c: Ctx)
      requires State() == c && k < |ecodes|
      modifies this
      ensures trace == old(trace) + (if v.Ran? then [k] else [])
      ensures State() == RunStep(c, k, s, v) && |ecodes| == |c.ecodes|
    {
      match v {
        case NoContext(err) =>
          ecodes := ecodes[k := err];
          assert trace == trace + [];
        case Ran(host, ret, rc) =>
          trace := trace + [k];
          step := s;
          action := host;
          if action != ret {
            if action == Done {
              return;
            }
            action := ret;
          }
          ecodes := ecodes[k := Ecode(rc)];
      }
    }

    method MoveOn(s: Step, ghost c: Ctx)
      requires State() == c
      modifies this
      ensures trace == old(trace)
      ensures State() == Advance(c, s) && |ecodes| == |c.ecodes|
    {
      match action {
        case Continue => execIndex := execIndex + 1;
        case Done => execIndex := execIndex + 1;
        case Pause =>
          if s != RespBody {
            execIndex := execIndex + 1;
          }
        case Other(_) =>
      }
    }

    method FinishStep(ghost c: Ctx)
      requires State() == c
      modifies this
      ensures trace == old(trace)
      ensures State() == NextStep(c)
    {
      if execIndex >= |ecodes| {
        last := Number(step);
        execIndex := 0;
      }
    }

    /** Runs filter `i`; `rc` is the return code so far. */
    method TurnOf(i: nat, s: Step, yieldable: bool, v: Verdict, ghost c: Ctx) returns (stop: bool, rc: Rc)
      requires State() == c && i < |ecodes|
      modifies this
      ensures trace == old(trace) + (if TakeTurn(c, i, s, yieldable, v).ran then [i] else [])
      ensures State() == TakeTurn(c, i, s, yieldable, v).ctx
      ensures (stop, rc) == (TakeTurn(c, i, s, yieldable, v).stop, TakeTurn(c, i, s, yieldable, v).rc)
    {
      hide Action2rc, RunStep, Advance, NextStep;
      assert trace == trace + [];
      rc := ActionToRc(i, yieldable, c);
      if rc != RcOk {
        return true, rc;
      }
      if s == DoneStep && v.NoContext? {
        return true, RcOk;
      }
      RunFilter(i, s, v, State());
      if ecodes[i] != NONE {
        return true, RcFail;
      }
      MoveOn(s, State());
      rc := ActionToRc(i, yieldable, State());
      if rc != RcOk && rc != RcAgain {
        return true, rc;
      }
      FinishStep(State());
      return false, rc;
    }

    method ResumeStep(s: Step, yieldable: bool, vs: nat -> Verdict, ghost c: Ctx) returns (rc: Rc)
      requires State() == c
      modifies this
      ensures trace == old(trace) + Resume(c, s, yieldable, vs).ran
      ensures rc == Resume(c, s, yieldable, vs).rc && State() == Resume(c, s, yieldable, vs).ctx
    {
      hide Loop, TakeTurn;
      step := s;
      if s == RespHeaders {
        if last < Number(RespHeaders) {
          execIndex := 0;
        }
      } else if RunsOnce(s) && Number(s) <= last {
        return RcOk;
      }
      var i: nat := execIndex;
      rc := RcOk;
      ghost var goal := Resume(c, s, yieldable, vs);
      ghost var done, start := [], trace;
      assert Resume(c, s, yieldable, vs).ran == [] + Resume(c, s, yieldable, vs).ran;
      while i < |ecodes|
        invariant Same(goal, done, Loop(State(), i, rc, s, yieldable, vs))
        invariant trace == start + done
        decreases |ecodes| - i
      {
        ghost var before, was := State(), rc;
        TurnKeepsFilters(before, i, s, yieldable, vs(i));
        var stop;
        stop, rc := TurnOf(i, s, yieldable, vs(i), before);
        LoopUnfolds(goal, done, before, i, was, s, yieldable, vs);
        ghost var ran := if TakeTurn(before, i, s, yieldable, vs(i)).ran then [i] else [];
        assert start + done + ran == start + (done + ran);
        done := done + ran;
        if stop {
          return rc;
        }
        i := i + 1;
      }
      LoopOver(State(), i, rc, s, yieldable, vs);
    }
  }

  ghost predicate Same(a: Outcome, pre: seq<nat>, b: Outcome) {
    a.rc == b.rc && a.ctx == b.ctx && a.ran == pre + b.ran
  }

  lemma {:induction false} LoopUnfolds(goal: Outcome, pre: seq<nat>, c: Ctx, i: nat, rc: Rc, step: Step,
                                       yieldable: bool, vs: nat -> Verdict)
    requires i < |c.ecodes| && Same(goal, pre, Loop(c, i, rc, step, yieldable, vs))
    ensures var t := TakeTurn(c, i, step, yieldable, vs(i));
            Same(goal, pre + (if t.ran then [i] else []),
                 if t.stop then Outcome(t.rc, t.ctx, []) else Loop(t.ctx, i + 1, t.rc, step, yieldable, vs))
  {
    hide TakeTurn;
    var t := TakeTurn(c, i, step, yieldable, vs(i));
    var ran := if t.ran then [i] else [];
    if !t.stop {
      var rest := Loop(t.ctx, i + 1, t.rc, step, yieldable, vs).ran;
      assert pre + (ran + rest) == pre + ran + rest;
    } else {
      assert pre + ran == pre + ran + [];
    }
  }
}

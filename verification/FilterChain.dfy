/** The proxy-wasm filter chain: a step that runs through all filters, pauses and is
    resumed, over any schedule of resumes, callbacks and host calls. */
module FilterChain {
  import opened Ranges

  datatype Step = ReqHeaders | ReqBody | ReqTrailers | RespHeaders | RespBody | RespTrailers
    | LogStep | DoneStep | Tick | DispatchResponse | ForeignCallback
    | UpstreamSelect | NextUpstream | UpstreamInfo

  function Number(s: Step): nat {
    match s
    case ReqHeaders => 1
    case ReqBody => 2
    case ReqTrailers => 3
    case RespHeaders => 4
    case RespBody => 5
    case RespTrailers => 6
    case LogStep => 7
    case DoneStep => 8
    case Tick => 9
    case DispatchResponse => 10
    case ForeignCallback => 11
    case UpstreamSelect => 12
    case NextUpstream => 13
    case UpstreamInfo => 14
  }

  /** Steps that are skipped once they, or a later step, are completed. */
  predicate RunsOnce(s: Step) {
    s in {ReqHeaders, ReqBody, ReqTrailers, RespTrailers, LogStep, ForeignCallback}
  }

  /** `Other` stands for the actions that the chain does not implement. */
  datatype Action = Continue | Pause | Done | Other(code: nat)

  /** `Fail` stands for an error, or the HTTP status that an error code becomes. */
  datatype Rc = RcOk | RcAgain | RcDone | RcFail

  const NONE: nat := 0
  const INSTANCE_TRAPPED: nat := 8
  const RETURN_ACTION: nat := 9
  const UNKNOWN: nat := 10

  type Failure = e: nat | e != NONE witness UNKNOWN

  datatype CallRc = CallOk | CallAbort | CallError

  /** What running one filter does: no context could be made for it; or it ran, leaving
      `host` as the action after its host calls, and returned `ret`. */
  datatype Verdict = NoContext(err: Failure) | Ran(host: Action, ret: Action, rc: CallRc)

  /** One error code per filter. */
  datatype Ctx = Ctx(action: Action, step: Step, execIndex: nat, last: nat, ecodes: seq<nat>)

  predicate Valid(c: Ctx) {
    c.execIndex <= |c.ecodes|
  }

  function Ecode(rc: CallRc): nat {
    match rc
    case CallOk => NONE
    case CallAbort => INSTANCE_TRAPPED
    case CallError => UNKNOWN
  }

  // ------------------------------------------------------------- operations

  function Action2rc(c: Ctx, i: nat, yieldable: bool): (Rc, Ctx)
    requires i < |c.ecodes|
  {
    if c.ecodes[i] != NONE then (RcFail, c)
    else if c.step == DoneStep then (RcOk, c)
    else match c.action
      case Done => (RcDone, c.(action := Continue))
      case Continue => (RcOk, c)
      case Pause =>
        if yieldable then (RcAgain, c)
        else if c.execIndex < |c.ecodes| then
          (RcFail, c.(ecodes := c.ecodes[c.execIndex := RETURN_ACTION]))
        else (RcFail, c)
      case Other(_) => (RcFail, c.(ecodes := c.ecodes[i := UNKNOWN]))
  }

  function RunStep(c: Ctx, k: nat, step: Step, v: Verdict): Ctx
    requires k < |c.ecodes|
  {
    match v
    case NoContext(err) => c.(ecodes := c.ecodes[k := err])
    case Ran(host, ret, rc) =>
      if host != ret && host == Done then c.(step := step, action := Done)
      else c.(step := step, action := ret, ecodes := c.ecodes[k := Ecode(rc)])
  }

  /** The index moves on, but not when the response body is paused. */
  function Advance(c: Ctx, step: Step): Ctx {
    if c.action in {Continue, Done} || (c.action == Pause && step != RespBody)
    then c.(execIndex := c.execIndex + 1) else c
  }

  /** The last filter completes the step. */
  function NextStep(c: Ctx): Ctx {
    if c.execIndex >= |c.ecodes| then c.(last := Number(c.step), execIndex := 0) else c
  }

  datatype Turn = Turn(stop: bool, rc: Rc, ctx: Ctx, ran: bool)

  /** One turn of the loop, for filter `i`. */
  function TakeTurn(c: Ctx, i: nat, step: Step, yieldable: bool, v: Verdict): Turn
    requires i < |c.ecodes|
  {
    var (rc, c1) := Action2rc(c, i, yieldable);
    if rc != RcOk then Turn(true, rc, c1, false)
    else if step == DoneStep && v.NoContext? then Turn(true, RcOk, c1, false)
    else
      var c2 := RunStep(c1, i, step, v);
      if c2.ecodes[i] != NONE then Turn(true, RcFail, c2, v.Ran?)
      else
        var (rc, c3) := Action2rc(Advance(c2, step), i, yieldable);
        if rc != RcOk && rc != RcAgain then Turn(true, rc, c3, v.Ran?)
        else Turn(false, rc, NextStep(c3), v.Ran?)
  }

  /** `ran` lists the filters that ran the step. */
  datatype Outcome = Outcome(rc: Rc, ctx: Ctx, ran: seq<nat>)

  function Loop(c: Ctx, i: nat, rc: Rc, step: Step, yieldable: bool, vs: nat -> Verdict): Outcome
    decreases |c.ecodes| - i
  {
    if i >= |c.ecodes| then Outcome(rc, c, [])
    else
      TurnKeepsFilters(c, i, step, yieldable, vs(i));
      var t := TakeTurn(c, i, step, yieldable, vs(i));
      var ran := if t.ran then [i] else [];
      if t.stop then Outcome(t.rc, t.ctx, ran)
      else
        var o := Loop(t.ctx, i + 1, t.rc, step, yieldable, vs);
        Outcome(o.rc, o.ctx, ran + o.ran)
  }

  lemma {:induction false} TurnKeepsFilters(c: Ctx, i: nat, step: Step, yieldable: bool, v: Verdict)
    requires i < |c.ecodes|
    ensures |TakeTurn(c, i, step, yieldable, v).ctx.ecodes| == |c.ecodes|
  {
    hide Action2rc, RunStep;
    RcKeepsFilters(c, i, yieldable);
    var c1 := Action2rc(c, i, yieldable).1;
    RunKeepsFilters(c1, i, step, v);
    RcKeepsFilters(Advance(RunStep(c1, i, step, v), step), i, yieldable);
  }

  lemma {:induction false} RcKeepsFilters(c: Ctx, i: nat, yieldable: bool)
    requires i < |c.ecodes|
    ensures |Action2rc(c, i, yieldable).1.ecodes| == |c.ecodes|
  {
  }

  lemma {:induction false} RunKeepsFilters(c: Ctx, k: nat, step: Step, v: Verdict)
    requires k < |c.ecodes|
    ensures |RunStep(c, k, step, v).ecodes| == |c.ecodes|
  {
  }

  /** The start of a step; the first response headers start at the first filter. */
  function Enter(c: Ctx, step: Step): Ctx {
    if step == RespHeaders && c.last < Number(RespHeaders) then c.(step := step, execIndex := 0)
    else c.(step := step)
  }

  /** `vs` tells what running each filter would do. */
  function Resume(c: Ctx, step: Step, yieldable: bool, vs: nat -> Verdict): Outcome {
    var c1 := Enter(c, step);
    if RunsOnce(step) && Number(step) <= c.last then Outcome(RcOk, c1, [])
    else Loop(c1, c1.execIndex, RcOk, step, yieldable, vs)
  }

  // ------------------------------------------------------------- one resume

  /** How far filters ran, up to filter `j`, and where the chain then stands: before
      filter `j`; or past the completed step; or at filter `j - 1`, which failed, or
      which is to be entered again as it paused the response body. */
  ghost predicate StandsAt(c: Ctx, j: nat, step: Step, last: nat) {
    || (c.execIndex == j && c.last == last)
    || (j == |c.ecodes| && c.execIndex == 0 && c.last == Number(step))
    || (c.execIndex + 1 == j <= |c.ecodes| && c.last == last && c.ecodes[c.execIndex] != NONE)
    || (c.execIndex + 1 == j && c.last == last && c.action == Pause && step == RespBody)
  }

  ghost predicate AtTurn(c: Ctx, i: nat, step: Step, yieldable: bool) {
    && c.step == step != DoneStep
    && (c.execIndex == i || PausedBody(c, i, step, yieldable))
  }

  ghost predicate PausedBody(c: Ctx, i: nat, step: Step, yieldable: bool) {
    step == RespBody && c.execIndex + 1 == i && c.action == Pause && yieldable
  }

  lemma {:induction false} TurnStands(c: Ctx, i: nat, step: Step, yieldable: bool, v: Verdict)
    requires i < |c.ecodes| && AtTurn(c, i, step, yieldable)
    ensures var t := TakeTurn(c, i, step, yieldable, v);
            && |t.ctx.ecodes| == |c.ecodes|
            && (t.stop ==> StandsAt(t.ctx, if t.ran then i + 1 else i, step, c.last))
            && (!t.stop ==> t.ran)
            && (!t.stop && i + 1 < |c.ecodes| ==> t.ctx.last == c.last && AtTurn(t.ctx, i + 1, step, yieldable))
            && (!t.stop && i + 1 == |c.ecodes| ==> StandsAt(t.ctx, i + 1, step, c.last))
  {
  }

  /** A resume of any step runs a contiguous range of filters and stops in one of the
      states above. */
  lemma {:induction false} LoopStands(c: Ctx, i: nat, rc: Rc, step: Step, yieldable: bool, vs: nat -> Verdict)
    returns (j: nat)
    requires i < |c.ecodes| && AtTurn(c, i, step, yieldable)
    ensures var o := Loop(c, i, rc, step, yieldable, vs);
            && i <= j <= |c.ecodes| && o.ran == Range(i, j)
            && |o.ctx.ecodes| == |c.ecodes| && StandsAt(o.ctx, j, step, c.last)
    decreases |c.ecodes| - i
  {
    hide Action2rc, RunStep, Advance, NextStep, TakeTurn, AtTurn, StandsAt;
    TurnStands(c, i, step, yieldable, vs(i));
    var t := TakeTurn(c, i, step, yieldable, vs(i));
    if t.stop {
      j := if t.ran then i + 1 else i;
    } else if i + 1 < |c.ecodes| {
      j := LoopStands(t.ctx, i + 1, t.rc, step, yieldable, vs);
    } else {
      j := i + 1;
    }
  }

  lemma {:induction false} ResumeStands(c: Ctx, step: Step, yieldable: bool, vs: nat -> Verdict) returns (j: nat)
    requires Valid(c) && step != DoneStep
    ensures var o, start := Resume(c, step, yieldable, vs), Enter(c, step).execIndex;
            && start <= j <= |c.ecodes| && o.ran == Range(start, j)
            && |o.ctx.ecodes| == |c.ecodes| && StandsAt(o.ctx, j, step, c.last)
            && (RunsOnce(step) && Number(step) <= c.last ==> o == Outcome(RcOk, c.(step := step), []))
  {
    hide Loop, Range, TakeTurn;
    var c1 := Enter(c, step);
    j := c1.execIndex;
    EmptyRange(j);
    if RunsOnce(step) && Number(step) <= c.last {
    } else if c1.execIndex < |c.ecodes| {
      j := LoopStands(c1, c1.execIndex, RcOk, step, yieldable, vs);
    } else {
      LoopOver(c1, c1.execIndex, RcOk, step, yieldable, vs);
    }
  }

  lemma {:induction false} LoopOver(c: Ctx, i: nat, rc: Rc, step: Step, yieldable: bool, vs: nat -> Verdict)
    requires i >= |c.ecodes|
    ensures Loop(c, i, rc, step, yieldable, vs) == Outcome(rc, c, [])
  {
  }

  // --------------------------------------------------------------- all runs

  /** A callback runs a filter out of turn, in the step of its pending operation. */
  datatype Event =
    | Resumed(step: Step, yieldable: bool, vs: nat -> Verdict)
    | SetAction(action: Action)
    | Callback(filter: nat, step: Step, v: Verdict)

  /** Without a context nothing changes, as its error stays with the caller.  Otherwise the
      paused step is restored, unless a dispatch response fails. */
  function CallBack(c: Ctx, k: nat, step: Step, v: Verdict): Ctx
    requires k < |c.ecodes|
  {
    if v.NoContext? then c
    else
      var c1 := RunStep(c, k, step, v);
      if step == DispatchResponse && c1.ecodes[k] != NONE then c1 else c1.(step := c.step)
  }

  function Apply(c: Ctx, e: Event): Outcome
    requires e.Callback? ==> e.filter < |c.ecodes|
  {
    match e
    case Resumed(step, yieldable, vs) => Resume(c, step, yieldable, vs)
    case SetAction(a) => Outcome(RcOk, c.(action := a), [])
    case Callback(k, step, v) => Outcome(RcOk, CallBack(c, k, step, v), [])
  }

  ghost predicate Happens(n: nat, es: seq<Event>) {
    forall i :: 0 <= i < |es| && es[i].Callback? ==> es[i].filter < n
  }

  lemma {:induction false} ApplyKeepsFilters(c: Ctx, e: Event)
    requires e.Callback? ==> e.filter < |c.ecodes|
    ensures |Apply(c, e).ctx.ecodes| == |c.ecodes|
  {
    hide Loop, TakeTurn;
    if e.Resumed? {
      var c1 := Enter(c, e.step);
      LoopKeepsFilters(c1, c1.execIndex, RcOk, e.step, e.yieldable, e.vs);
    }
  }

  lemma {:induction false} LoopKeepsFilters(c: Ctx, i: nat, rc: Rc, step: Step, yieldable: bool, vs: nat -> Verdict)
    ensures |Loop(c, i, rc, step, yieldable, vs).ctx.ecodes| == |c.ecodes|
    decreases |c.ecodes| - i
  {
    if i < |c.ecodes| {
      hide TakeTurn;
      TurnKeepsFilters(c, i, step, yieldable, vs(i));
      var t := TakeTurn(c, i, step, yieldable, vs(i));
      LoopKeepsFilters(t.ctx, i + 1, t.rc, step, yieldable, vs);
    }
  }
}

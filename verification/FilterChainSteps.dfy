/** What sets the steps of the filter chain apart: the response body, which a paused filter
    enters again; the steps that run once and those that run again; and the step at the end
    of the request, which no action holds up. */
module FilterChainSteps {
  import opened Ranges
  import opened FilterChain
  import opened FilterChainRuns

  // ------------------------------------------------------------ the first filter

  /** Nothing keeps filter `i` from running. */
  ghost predicate Ready(c: Ctx, i: nat) {
    i < |c.ecodes| && c.ecodes[i] == NONE && c.action == Continue
  }

  /** A resume runs the filter it starts at if and only if the action is to continue, the
      filter has no error, and a context is found for it. */
  lemma {:induction false} StartsRunningIff(c: Ctx, s: Step, yieldable: bool, vs: nat -> Verdict)
    requires s != DoneStep && !(RunsOnce(s) && Number(s) <= c.last)
    ensures var ran, i := Resume(c, s, yieldable, vs).ran, Enter(c, s).execIndex;
            && (ran != [] <==> Ready(c, i) && vs(i).Ran?)
            && (ran != [] ==> ran[0] == i)
  {
    hide Loop, Advance, NextStep, Ecode;
    var c1 := Enter(c, s);
    var i := c1.execIndex;
    if i >= |c.ecodes| {
      LoopOver(c1, i, RcOk, s, yieldable, vs);
    } else {
      LoopStarts(c1, i, RcOk, s, yieldable, vs);
      assert TakeTurn(c1, i, s, yieldable, vs(i)).ran <==> Ready(c, i) && vs(i).Ran?;
    }
  }

  lemma {:induction false} LoopStarts(c: Ctx, i: nat, rc: Rc, step: Step, yieldable: bool, vs: nat -> Verdict)
    requires i < |c.ecodes| && AtTurn(c, i, step, yieldable)
    ensures var ran := Loop(c, i, rc, step, yieldable, vs).ran;
            && (ran != [] <==> TakeTurn(c, i, step, yieldable, vs(i)).ran)
            && (ran != [] ==> ran[0] == i)
  {
    TurnStands(c, i, step, yieldable, vs(i));
  }

  // ------------------------------------------------------------ the response body

  /** What a filter returns to have the response body buffered. */
  predicate Pauses(v: Verdict) {
    v.Ran? && v.ret == Pause && v.host != Done && v.rc == CallOk
  }

  /** A filter that pauses the response body stays the current one: the resume runs it alone,
      and leaves the index at it and the completed step as it was.  The reply is to yield,
      unless the next filter has an error. */
  lemma {:induction false} BodyPauseStays(c: Ctx, vs: nat -> Verdict)
    requires Ready(c, c.execIndex) && Pauses(vs(c.execIndex))
    ensures var o, i := Resume(c, RespBody, true, vs), c.execIndex;
            && o.ran == [i] && o.ctx == c.(step := RespBody, action := Pause)
            && o.rc == if i + 1 < |c.ecodes| && c.ecodes[i + 1] != NONE then RcFail else RcAgain
  {
    var i, c1 := c.execIndex, c.(step := RespBody);
    var paused := c1.(action := Pause);
    assert c.ecodes[i := NONE] == c.ecodes;
    assert TakeTurn(c1, i, RespBody, true, vs(i)) == Turn(false, RcAgain, paused, true);
    if i + 1 < |c.ecodes| {
      var t := TakeTurn(paused, i + 1, RespBody, true, vs(i + 1));
      assert t.stop && !t.ran && t.ctx == paused;
      assert Loop(paused, i + 1, RcAgain, RespBody, true, vs) == Outcome(t.rc, paused, []);
    } else {
      LoopOver(paused, i + 1, RcAgain, RespBody, true, vs);
    }
    assert [i] + [] == [i];
  }

  lemma {:induction false} BodyTurn(c: Ctx, i: nat, yieldable: bool, v: Verdict)
    requires i < |c.ecodes| && AtTurn(c, i, RespBody, yieldable)
    ensures var t := TakeTurn(c, i, RespBody, yieldable, v);
            && (t.ctx.action == Pause ==> if t.ran then t.ctx.execIndex == i else c.action == Pause)
            && (!t.ran ==> t.stop && t.ctx.execIndex == c.execIndex)
            && (!t.stop && i + 1 < |c.ecodes| ==> AtTurn(t.ctx, i + 1, RespBody, yieldable))
  {
    TurnStands(c, i, RespBody, yieldable, v);
  }

  lemma {:induction false} BodyLoop(c: Ctx, i: nat, rc: Rc, yieldable: bool, vs: nat -> Verdict)
    requires i < |c.ecodes| && AtTurn(c, i, RespBody, yieldable)
    ensures var o := Loop(c, i, rc, RespBody, yieldable, vs);
            && (o.ran == [] ==> o.ctx.execIndex == c.execIndex && (o.ctx.action == Pause ==> c.action == Pause))
            && (o.ran != [] && o.ctx.action == Pause ==> o.ctx.execIndex == o.ran[|o.ran| - 1])
    decreases |c.ecodes| - i
  {
    hide TakeTurn, AtTurn;
    TurnKeepsFilters(c, i, RespBody, yieldable, vs(i));
    BodyTurn(c, i, yieldable, vs(i));
    var t := TakeTurn(c, i, RespBody, yieldable, vs(i));
    if !t.stop {
      if i + 1 < |c.ecodes| {
        BodyLoop(t.ctx, i + 1, t.rc, yieldable, vs);
      } else {
        LoopOver(t.ctx, i + 1, t.rc, RespBody, yieldable, vs);
      }
    }
  }

  /** Whatever filters do, and however many of them ran: a resume of the response body that
      ends with the action to pause leaves the index at the filter that ran last. */
  lemma {:induction false} PausedBodyIsCurrent(c: Ctx, yieldable: bool, vs: nat -> Verdict)
    ensures var o := Resume(c, RespBody, yieldable, vs);
            o.ran != [] && o.ctx.action == Pause ==> o.ctx.execIndex == o.ran[|o.ran| - 1]
  {
    hide Loop;
    var c1 := c.(step := RespBody);
    if c1.execIndex < |c.ecodes| {
      BodyLoop(c1, c1.execIndex, RcOk, yieldable, vs);
    } else {
      LoopOver(c1, c1.execIndex, RcOk, RespBody, yieldable, vs);
    }
  }

  /** So, once the body is buffered and the action is to continue, the next resume of the
      response body enters that filter again, before any other. */
  lemma {:induction false} BodyEnteredAgain(c: Ctx, yieldable: bool, vs: nat -> Verdict, again: nat -> Verdict)
    requires Ready(c, c.execIndex) && Pauses(vs(c.execIndex)) && again(c.execIndex).Ran?
    ensures var es := [Resumed(RespBody, true, vs), SetAction(Continue), Resumed(RespBody, yieldable, again)];
            && Happens(|c.ecodes|, es)
            && var ran := RanIn(c, es);
            |ran| >= 2 && ran[0] == c.execIndex && ran[1] == c.execIndex
  {
    hide Resume, CallBack;
    var i := c.execIndex;
    var e1, e2, e3 := Resumed(RespBody, true, vs), SetAction(Continue), Resumed(RespBody, yieldable, again);
    var es := [e1, e2, e3];
    BodyPauseStays(c, vs);
    var paused := c.(step := RespBody, action := Pause);
    var ready := paused.(action := Continue);
    StartsRunningIff(ready, RespBody, yieldable, again);
    var o := Resume(ready, RespBody, yieldable, again);
    assert es[1..] == [e2, e3] && es[1..][1..] == [e3] && [e3][1..] == [];
    RanInCons(ready, [e3]);
    assert RanIn(ready, [e3]) == o.ran + RanIn(o.ctx, []);
    RanInCons(paused, [e2, e3]);
    assert RanIn(paused, [e2, e3]) == [] + RanIn(ready, [e3]);
    RanInCons(c, es);
    assert RanIn(c, es) == [i] + RanIn(paused, [e2, e3]);
  }

  /** Where the phase cannot yield, a pause fails the resume.  The error goes to the filter at
      the index: the paused one in the response body, and the next one in a step that runs
      once, if there is one. */
  lemma {:induction false} PauseRefused(c: Ctx, s: Step, vs: nat -> Verdict)
    requires Ready(c, c.execIndex) && Pauses(vs(c.execIndex)) && (s == RespBody || MayRun(c, s))
    ensures var o := Resume(c, s, false, vs);
            var at := if s == RespBody then c.execIndex else c.execIndex + 1;
            && o.rc == RcFail && o.ran == [c.execIndex]
            && o.ctx == c.(step := s, action := Pause, execIndex := at,
                           ecodes := if at < |c.ecodes| then c.ecodes[at := RETURN_ACTION] else c.ecodes)
  {
    var i, c1 := c.execIndex, c.(step := s);
    assert c.ecodes[i := NONE] == c.ecodes;
    var t := TakeTurn(c1, i, s, false, vs(i));
    assert t.stop && t.ran;
    assert Resume(c, s, false, vs) == Outcome(t.rc, t.ctx, [i]);
  }

  // ---------------------------------------------------------- once and again

  /** The steps of a request, in their order. */
  const REQUEST_STEPS: seq<Step> := [ReqHeaders, ReqBody, ReqTrailers, RespHeaders, RespBody, RespTrailers, LogStep]

  /** The chain at the start of a request: nothing completed, and no filter failed. */
  ghost predicate AtStart(c: Ctx) {
    && |c.ecodes| > 0 && (forall k :: 0 <= k < |c.ecodes| ==> c.ecodes[k] == NONE)
    && c.execIndex == 0 && c.action == Continue
  }

  lemma {:induction false} RunsThrough(c: Ctx, s: Step, yieldable: bool, vs: nat -> Verdict)
    requires AtStart(c) && s != DoneStep && !(RunsOnce(s) && Number(s) <= c.last)
    requires forall k: nat :: k < |c.ecodes| ==> Continues(vs(k))
    ensures Resume(c, s, yieldable, vs)
            == Outcome(RcOk, c.(step := s, last := Number(s)), Range(0, |c.ecodes|))
  {
    hide Loop, Continues;
    ContinuingCompletes(c.(step := s), 0, RcOk, s, yieldable, vs);
  }

  /** When filters complete step `i` of a request and then step `j` is resumed, all of them
      run, unless it is that step or an earlier one, and not the headers or the body of the
      response: then none of them does. */
  lemma {:induction false} CompletedStepsSkipped(c: Ctx, i: nat, j: nat, yieldable: bool, vs: nat -> Verdict)
    requires AtStart(c) && c.last == 0 && i < 7 && j < 7
    requires forall k: nat :: k < |c.ecodes| ==> Continues(vs(k))
    ensures var first := Resume(c, REQUEST_STEPS[i], yieldable, vs);
            var again := Resume(first.ctx, REQUEST_STEPS[j], yieldable, vs);
            && first.rc == RcOk && first.ran == Range(0, |c.ecodes|)
            && again.rc == RcOk
            && again.ran == if j <= i && j != 3 && j != 4 then [] else Range(0, |c.ecodes|)
  {
    hide Resume, Continues, Range;
    var s, t := REQUEST_STEPS[i], REQUEST_STEPS[j];
    RunsThrough(c, s, yieldable, vs);
    var c1 := c.(step := s, last := Number(s));
    assert Number(s) == i + 1 && Number(t) == j + 1;
    if RunsOnce(t) && Number(t) <= c1.last {
      Skipped(c1, t, yieldable, vs);
    } else {
      RunsThrough(c1, t, yieldable, vs);
    }
  }

  /** These steps run whatever was completed before. */
  lemma {:induction false} StepsRunAgain(c: Ctx, s: Step, yieldable: bool, vs: nat -> Verdict)
    requires AtStart(c) && forall k: nat :: k < |c.ecodes| ==> Continues(vs(k))
    requires s in {RespHeaders, RespBody, Tick, DispatchResponse, UpstreamSelect, NextUpstream, UpstreamInfo}
    ensures Resume(c, s, yieldable, vs).ran == Range(0, |c.ecodes|)
  {
    hide Resume, Continues, Range;
    RunsThrough(c, s, yieldable, vs);
  }

  lemma {:induction false} Skipped(c: Ctx, s: Step, yieldable: bool, vs: nat -> Verdict)
    requires RunsOnce(s) && Number(s) <= c.last
    ensures Resume(c, s, yieldable, vs) == Outcome(RcOk, c.(step := s), [])
  {
  }

  // --------------------------------------------------------------- out of turn

  /** What a callback leaves: it moves neither the index nor the completed step; the paused
      step is the current one again, unless it was a dispatch response that failed; and
      only the error code of its filter can change. */
  lemma {:induction false} CallbackLeaves(c: Ctx, k: nat, step: Step, v: Verdict, i: nat)
    requires k < |c.ecodes|
    ensures var c' := CallBack(c, k, step, v);
            && c'.execIndex == c.execIndex && c'.last == c.last && |c'.ecodes| == |c.ecodes|
            && (v.NoContext? ==> c' == c)
            && (v.Ran? && v.host == Done ==> c'.action == Done)
            && (v.Ran? && v.host != Done ==> c'.action == v.ret)
            && (i != k && i < |c.ecodes| ==> c'.ecodes[i] == c.ecodes[i])
            && c'.step == if v.Ran? && step == DispatchResponse && c'.ecodes[k] != NONE then step else c.step
  {
  }

  // ------------------------------------------------------ the end of the request

  /** The step at the end of the request runs every filter from the index on, whatever the
      action is and whatever filters return, up to the first one without an instance. */
  lemma {:induction false} DoneRunsAll(c: Ctx, yieldable: bool, vs: nat -> Verdict, k: nat)
    requires c.execIndex <= k <= |c.ecodes|
    requires forall i :: 0 <= i < |c.ecodes| ==> c.ecodes[i] == NONE
    requires forall i: nat :: c.execIndex <= i < k ==> vs(i).Ran? && vs(i).rc == CallOk
    requires k < |c.ecodes| ==> vs(k).NoContext?
    ensures var o := Resume(c, DoneStep, yieldable, vs);
            o.rc == RcOk && o.ran == Range(c.execIndex, k) && o.ctx.ecodes == c.ecodes
  {
    hide Loop;
    DoneLoop(c.(step := DoneStep), c.execIndex, RcOk, yieldable, vs, k);
  }

  lemma {:induction false} DoneTurn(c: Ctx, i: nat, yieldable: bool, v: Verdict)
    requires i < |c.ecodes| && c.step == DoneStep && c.ecodes[i] == NONE
    requires v.Ran? ==> v.rc == CallOk
    ensures var t := TakeTurn(c, i, DoneStep, yieldable, v);
            && t.stop == v.NoContext? && t.rc == RcOk && t.ran == v.Ran?
            && t.ctx.step == DoneStep && t.ctx.ecodes == c.ecodes
  {
    assert c.ecodes[i := NONE] == c.ecodes;
  }

  lemma {:induction false} DoneLoop(c: Ctx, i: nat, rc: Rc, yieldable: bool, vs: nat -> Verdict, k: nat)
    requires i <= k <= |c.ecodes| && c.step == DoneStep && rc == RcOk
    requires forall j :: 0 <= j < |c.ecodes| ==> c.ecodes[j] == NONE
    requires forall j: nat :: i <= j < k ==> vs(j).Ran? && vs(j).rc == CallOk
    requires k < |c.ecodes| ==> vs(k).NoContext?
    ensures var o := Loop(c, i, rc, DoneStep, yieldable, vs);
            o.rc == RcOk && o.ran == Range(i, k) && o.ctx.ecodes == c.ecodes
    decreases |c.ecodes| - i
  {
    hide TakeTurn;
    if i < |c.ecodes| {
      DoneTurn(c, i, yieldable, vs(i));
      var t := TakeTurn(c, i, DoneStep, yieldable, vs(i));
      if i < k { DoneLoop(t.ctx, i + 1, t.rc, yieldable, vs, k); }
    }
  }
}

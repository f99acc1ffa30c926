/** What holds of the filter chain over whole runs: the order of filters within a step,
    failed filters, and the restart for the response. */
module FilterChainRuns {
  import opened Ranges
  import opened FilterChain

  ghost function Final(c: Ctx, es: seq<Event>): Ctx
    requires Happens(|c.ecodes|, es)
    decreases |es|
  {
    if es == [] then c
    else
      ApplyKeepsFilters(c, es[0]);
      Final(Apply(c, es[0]).ctx, es[1..])
  }

  /** The filters that resumes ran, in the order of all events. */
  ghost function RanIn(c: Ctx, es: seq<Event>): seq<nat>
    requires Happens(|c.ecodes|, es)
    decreases |es|
  {
    if es == [] then []
    else
      ApplyKeepsFilters(c, es[0]);
      Apply(c, es[0]).ran + RanIn(Apply(c, es[0]).ctx, es[1..])
  }

  // -------------------------------------------------------- the index in bounds

  lemma {:induction false} RcBound(c: Ctx, i: nat, yieldable: bool)
    requires i < |c.ecodes|
    ensures var c' := Action2rc(c, i, yieldable).1;
            |c'.ecodes| == |c.ecodes| && c'.execIndex == c.execIndex
  {
  }

  lemma {:induction false} TurnBound(c: Ctx, i: nat, step: Step, yieldable: bool, v: Verdict)
    requires c.execIndex <= i < |c.ecodes|
    ensures var t := TakeTurn(c, i, step, yieldable, v);
            |t.ctx.ecodes| == |c.ecodes| && t.ctx.execIndex <= i + 1
  {
    hide Action2rc;
    RcBound(c, i, yieldable);
    var (rc, c1) := Action2rc(c, i, yieldable);
    RcBound(Advance(RunStep(c1, i, step, v), step), i, yieldable);
  }

  lemma {:induction false} LoopBound(c: Ctx, i: nat, rc: Rc, step: Step, yieldable: bool, vs: nat -> Verdict)
    requires c.execIndex <= i <= |c.ecodes|
    ensures Valid(Loop(c, i, rc, step, yieldable, vs).ctx)
    decreases |c.ecodes| - i
  {
    hide TakeTurn;
    if i < |c.ecodes| {
      TurnBound(c, i, step, yieldable, vs(i));
      var t := TakeTurn(c, i, step, yieldable, vs(i));
      LoopBound(t.ctx, i + 1, t.rc, step, yieldable, vs);
    }
  }

  /** No event takes the index past the number of filters. */
  lemma {:induction false} ApplyValid(c: Ctx, e: Event)
    requires Valid(c) && (e.Callback? ==> e.filter < |c.ecodes|)
    ensures Valid(Apply(c, e).ctx)
  {
    hide Loop;
    if e.Resumed? {
      var c1 := Enter(c, e.step);
      LoopBound(c1, c1.execIndex, RcOk, e.step, e.yieldable, e.vs);
    }
  }

  lemma {:induction false} IndexNeverExceeds(c: Ctx, es: seq<Event>)
    requires Valid(c) && Happens(|c.ecodes|, es)
    ensures Valid(Final(c, es))
    decreases |es|
  {
    hide Apply, Valid;
    if es != [] {
      ApplyKeepsFilters(c, es[0]);
      ApplyValid(c, es[0]);
      IndexNeverExceeds(Apply(c, es[0]).ctx, es[1..]);
    }
  }

  // ------------------------------------------------------- filters of one step

  /** All resumes are of step `s`. */
  ghost predicate OnlyStep(es: seq<Event>, s: Step) {
    forall i :: 0 <= i < |es| && es[i].Resumed? ==> es[i].step == s
  }

  /** What a callback returns when it succeeds: it did not trap or fail, and it was not cut
      short by a local response. */
  predicate Succeeds(v: Verdict) {
    v.Ran? && v.rc == CallOk && !(v.host == Done && v.ret != Done)
  }

  /** A successful callback on the filter that the chain stands at in step `s`, after that
      filter ran the step; `ran` are the filters that did. */
  ghost predicate Clears(c: Ctx, ran: seq<nat>, s: Step, e: Event) {
    c.last < Number(s) && e.Callback? && e.filter == c.execIndex && e.filter in ran && Succeeds(e.v)
  }

  /** A callback clears the error of its filter if and only if it succeeds. */
  lemma {:induction false} ClearedIff(c: Ctx, k: nat, step: Step, v: Verdict)
    requires k < |c.ecodes| && c.ecodes[k] != NONE
    ensures var c' := CallBack(c, k, step, v);
            && |c'.ecodes| == |c.ecodes| && (c'.ecodes[k] == NONE <==> Succeeds(v))
            && c'.execIndex == c.execIndex && c'.last == c.last
  {
  }

  ghost predicate Undisturbed(c: Ctx, ran: seq<nat>, s: Step, es: seq<Event>)
    requires Happens(|c.ecodes|, es)
    decreases |es|
  {
    es == [] || (
      ApplyKeepsFilters(c, es[0]);
      !Clears(c, ran, s, es[0]) && Undisturbed(Apply(c, es[0]).ctx, ran + Apply(c, es[0]).ran, s, es[1..]))
  }

  /** What ran so far in step `s`, told from the state. */
  ghost predicate Progress(c: Ctx, ran: seq<nat>, s: Step) {
    if Number(s) <= c.last then ran == Range(0, |c.ecodes|)
    else
      || ran == Range(0, c.execIndex)
      || (c.execIndex < |c.ecodes| && c.ecodes[c.execIndex] != NONE && ran == Range(0, c.execIndex + 1))
  }

  lemma {:induction false} StartProgress(c: Ctx, s: Step)
    requires c.execIndex == 0 && c.last < Number(s)
    ensures Progress(c, [], s)
  {
    EmptyRange(0);
  }

  /** A chain that failed at its index does not move. */
  lemma {:induction false} FailedStands(c: Ctx, s: Step, yieldable: bool, vs: nat -> Verdict)
    requires c.execIndex < |c.ecodes| && c.ecodes[c.execIndex] != NONE
    requires RunsOnce(s) && c.last < Number(s)
    ensures Resume(c, s, yieldable, vs) == Outcome(RcFail, c.(step := s), [])
  {
    var c1 := Enter(c, s);
    assert TakeTurn(c1, c1.execIndex, s, yieldable, vs(c1.execIndex)) == Turn(true, RcFail, c1, false);
  }

  lemma {:induction false} StandsProgress(c: Ctx, c': Ctx, ran: seq<nat>, j: nat, s: Step)
    requires c.last < Number(s) && ran == Range(0, c.execIndex) && s != RespBody
    requires c.execIndex <= j && |c'.ecodes| == |c.ecodes| && StandsAt(c', j, s, c.last)
    ensures Progress(c', ran + Range(c.execIndex, j), s)
  {
    RangeJoin(0, c.execIndex, j);
  }

  lemma {:induction false} ResumeProgress(c: Ctx, ran: seq<nat>, s: Step, yieldable: bool, vs: nat -> Verdict)
    requires Valid(c) && RunsOnce(s) && Progress(c, ran, s)
    ensures var o := Resume(c, s, yieldable, vs); Progress(o.ctx, ran + o.ran, s)
  {
    hide Resume, StandsAt, Range;
    var o := Resume(c, s, yieldable, vs);
    var j := ResumeStands(c, s, yieldable, vs);
    if Number(s) <= c.last {
      assert ran + o.ran == ran;
    } else if ran == Range(0, c.execIndex) {
      StandsProgress(c, o.ctx, ran, j, s);
    } else {
      FailedStands(c, s, yieldable, vs);
      assert ran + o.ran == ran;
    }
  }

  lemma {:induction false} ApplyProgress(c: Ctx, ran: seq<nat>, s: Step, e: Event)
    requires Valid(c) && RunsOnce(s) && Progress(c, ran, s)
    requires e.Callback? ==> e.filter < |c.ecodes|
    requires !Clears(c, ran, s, e) && (e.Resumed? ==> e.step == s)
    ensures Progress(Apply(c, e).ctx, ran + Apply(c, e).ran, s)
  {
    hide Resume, Range;
    if e.Resumed? {
      ResumeProgress(c, ran, s, e.yieldable, e.vs);
    } else {
      assert ran + [] == ran;
      if e.Callback? && e.filter == c.execIndex && c.ecodes[e.filter] != NONE {
        RangeMember(0, c.execIndex + 1, e.filter);
        ClearedIff(c, e.filter, e.step, e.v);
      }
    }
  }

  lemma {:induction false} RunProgress(c: Ctx, ran: seq<nat>, s: Step, es: seq<Event>)
    requires Valid(c) && RunsOnce(s) && Progress(c, ran, s)
    requires Happens(|c.ecodes|, es) && OnlyStep(es, s) && Undisturbed(c, ran, s, es)
    ensures Progress(Final(c, es), ran + RanIn(c, es), s)
    ensures |Final(c, es).ecodes| == |c.ecodes|
    decreases |es|
  {
    hide Apply, Valid, Progress, Clears, Number, RunsOnce;
    if es == [] {
      assert ran + [] == ran;
    } else {
      var o := Apply(c, es[0]);
      ApplyKeepsFilters(c, es[0]);
      ApplyValid(c, es[0]);
      ApplyProgress(c, ran, s, es[0]);
      RunProgress(o.ctx, ran + o.ran, s, es[1..]);
      assert ran + o.ran + RanIn(o.ctx, es[1..]) == ran + (o.ran + RanIn(o.ctx, es[1..]));
    }
  }

  /** The filters that ran a step begun at the first filter are 0, .., k - 1, in order and
      each once, for any verdicts and any schedule of resumes, actions and callbacks that
      do not clear the error of a filter that ran.  All of them ran once the step is
      completed. */
  lemma {:induction false} StepRunsInOrder(c: Ctx, s: Step, es: seq<Event>) returns (k: nat)
    requires Valid(c) && RunsOnce(s) && c.execIndex == 0 && c.last < Number(s)
    requires Happens(|c.ecodes|, es) && OnlyStep(es, s) && Undisturbed(c, [], s, es)
    ensures k <= |c.ecodes| && RanIn(c, es) == Range(0, k)
    ensures Final(c, es).last >= Number(s) ==> k == |c.ecodes|
  {
    hide Final, RanIn, Progress, Undisturbed;
    StartProgress(c, s);
    RunProgress(c, [], s, es);
    IndexNeverExceeds(c, es);
    assert [] + RanIn(c, es) == RanIn(c, es);
    k := InOrder(Final(c, es), RanIn(c, es), s);
  }

  lemma {:induction false} InOrder(c: Ctx, ran: seq<nat>, s: Step) returns (k: nat)
    requires Valid(c) && Progress(c, ran, s)
    ensures k <= |c.ecodes| && ran == Range(0, k) && (c.last >= Number(s) ==> k == |c.ecodes|)
  {
    hide Range;
    k := if Number(s) <= c.last then |c.ecodes|
         else if ran == Range(0, c.execIndex) then c.execIndex else c.execIndex + 1;
  }

  lemma {:induction false} RunsJoin(c: Ctx, a: seq<Event>, b: seq<Event>)
    requires Happens(|c.ecodes|, a + b)
    ensures Happens(|c.ecodes|, a) && Happens(|c.ecodes|, b) && |Final(c, a).ecodes| == |c.ecodes|
    ensures RanIn(c, a + b) == RanIn(c, a) + RanIn(Final(c, a), b)
    decreases |a|
  {
    hide Apply;
    assert forall i :: 0 <= i < |a| ==> (a + b)[i] == a[i];
    assert forall i :: 0 <= i < |b| ==> (a + b)[|a| + i] == b[i];
    if a == [] {
      assert a + b == b && [] + RanIn(c, b) == RanIn(c, b);
    } else {
      assert (a + b)[0] == a[0] && (a + b)[1..] == a[1..] + b;
      ApplyKeepsFilters(c, a[0]);
      var o := Apply(c, a[0]);
      RunsJoin(o.ctx, a[1..], b);
      var p, q := RanIn(o.ctx, a[1..]), RanIn(Final(c, a), b);
      assert o.ran + (p + q) == o.ran + p + q;
    }
  }

  /** A filter that may run, runs first. */
  lemma {:induction false} FirstOfResume(c: Ctx, s: Step, yieldable: bool, vs: nat -> Verdict)
    requires MayRun(c, s) && vs(c.execIndex).Ran?
    ensures var ran := Resume(c, s, yieldable, vs).ran; ran != [] && ran[0] == c.execIndex
  {
    var c1 := Enter(c, s);
    assert Action2rc(c1, c1.execIndex, yieldable) == (RcOk, c1);
    assert TakeTurn(c1, c1.execIndex, s, yieldable, vs(c1.execIndex)).ran;
  }

  lemma {:induction false} ContinueAndResume(c: Ctx, s: Step, vs: nat -> Verdict)
    requires RunsOnce(s) && c.last < Number(s) && c.execIndex < |c.ecodes| && c.ecodes[c.execIndex] == NONE
    requires vs(c.execIndex).Ran?
    ensures var ran := RanIn(c, [SetAction(Continue), Resumed(s, true, vs)]); ran != [] && ran[0] == c.execIndex
  {
    hide Resume, CallBack;
    var es := [SetAction(Continue), Resumed(s, true, vs)];
    var c1 := c.(action := Continue);
    FirstOfResume(c1, s, true, vs);
    assert es[1..] == [Resumed(s, true, vs)];
    assert RanIn(c, es) == [] + RanIn(c1, es[1..]);
  }

  /** What a callback that clears an error can be followed by. */
  function Retry(e: Event, s: Step, vs: nat -> Verdict): seq<Event> {
    [e, SetAction(Continue), Resumed(s, true, vs)]
  }

  lemma {:induction false} RetryHappens(n: nat, es: seq<Event>, e: Event, s: Step, vs: nat -> Verdict)
    requires Happens(n, es) && OnlyStep(es, s) && e.Callback? && e.filter < n
    ensures Happens(n, es + Retry(e, s, vs)) && OnlyStep(es + Retry(e, s, vs), s)
  {
  }

  lemma {:induction false} RetryRuns(c: Ctx, ran: seq<nat>, e: Event, s: Step, vs: nat -> Verdict)
    requires RunsOnce(s) && Clears(c, ran, s, e) && e.filter < |c.ecodes| && c.ecodes[e.filter] != NONE
    requires vs(c.execIndex).Ran?
    ensures Happens(|c.ecodes|, Retry(e, s, vs))
    ensures var more := RanIn(c, Retry(e, s, vs)); more != [] && more[0] == c.execIndex
  {
    hide Resume, RanIn, CallBack;
    ClearedIff(c, e.filter, e.step, e.v);
    var c2, more := CallBack(c, e.filter, e.step, e.v), Retry(e, s, vs);
    assert more[1..] == [SetAction(Continue), Resumed(s, true, vs)];
    ContinueAndResume(c2, s, vs);
    RanInCons(c, more);
    assert [] + RanIn(c2, more[1..]) == RanIn(c2, more[1..]);
  }

  lemma {:induction false} RanInCons(c: Ctx, es: seq<Event>)
    requires Happens(|c.ecodes|, es) && es != []
    ensures |Apply(c, es[0]).ctx.ecodes| == |c.ecodes|
    ensures RanIn(c, es) == Apply(c, es[0]).ran + RanIn(Apply(c, es[0]).ctx, es[1..])
  {
    hide Apply;
    ApplyKeepsFilters(c, es[0]);
  }

  /** The condition on callbacks is exact: whatever undisturbed run comes before, a callback
      that clears the error of a filter that ran can be followed by a resume that runs
      this filter a second time. */
  lemma {:induction false} ClearedRunsTwice(c: Ctx, s: Step, es: seq<Event>, e: Event, vs: nat -> Verdict)
    returns (k: nat)
    requires Valid(c) && RunsOnce(s) && c.execIndex == 0 && c.last < Number(s)
    requires Happens(|c.ecodes|, es) && OnlyStep(es, s) && Undisturbed(c, [], s, es)
    requires e.Callback? ==> e.filter < |c.ecodes|
    requires Clears(Final(c, es), RanIn(c, es), s, e) && forall i: nat :: vs(i).Ran?
    ensures Happens(|c.ecodes|, es + Retry(e, s, vs)) && OnlyStep(es + Retry(e, s, vs), s)
    ensures var ran := RanIn(c, es + Retry(e, s, vs));
            k + 1 < |ran| && ran[k] == k && ran[k + 1] == k
  {
    hide Resume, Undisturbed, Final, RanIn, Progress, Apply, Retry, Range, OnlyStep, Happens;
    var c1, ran := Final(c, es), RanIn(c, es);
    k := e.filter;
    StartProgress(c, s);
    RunProgress(c, [], s, es);
    assert [] + ran == ran;
    StandsAtFailed(c1, ran, s);
    RetryHappens(|c.ecodes|, es, e, s, vs);
    RunsJoin(c, es, Retry(e, s, vs));
    RetryRuns(c1, ran, e, s, vs);
    RangeAt(0, k + 1, k);
  }

  /** A filter at the index that ran the step has failed in it. */
  lemma {:induction false} StandsAtFailed(c: Ctx, ran: seq<nat>, s: Step)
    requires Progress(c, ran, s) && c.execIndex in ran && c.execIndex < |c.ecodes|
    ensures c.last < Number(s) ==> ran == Range(0, c.execIndex + 1) && c.ecodes[c.execIndex] != NONE
  {
    RangeMember(0, c.execIndex, c.execIndex);
  }

  /** Such a run: the first filter traps, a callback succeeds, and the chain is resumed. */
  lemma {:induction false} RepeatHappens(c: Ctx, vs: nat -> Verdict, again: nat -> Verdict) returns (k: nat)
    requires c == Ctx(Continue, ReqHeaders, 0, 0, [NONE]) && vs(0) == Ran(Continue, Continue, CallAbort)
    requires forall i: nat :: again(i).Ran?
    ensures var es := [Resumed(ReqHeaders, true, vs)] +
                      Retry(Callback(0, ForeignCallback, Ran(Continue, Continue, CallOk)), ReqHeaders, again);
            && Happens(1, es)
            && var ran := RanIn(c, es);
               k + 1 < |ran| && ran[k] == k && ran[k + 1] == k
  {
    var first := [Resumed(ReqHeaders, true, vs)];
    var e := Callback(0, ForeignCallback, Ran(Continue, Continue, CallOk));
    FailureEndsResume(c, ReqHeaders, true, vs);
    var c1 := Resume(c, ReqHeaders, true, vs).ctx;
    assert first[1..] == [];
    assert Final(c, first) == Final(c1, []) == c1;
    assert RanIn(c, first) == [0] + RanIn(c1, []) == [0];
    k := ClearedRunsTwice(c, ReqHeaders, first, e, again);
  }

  // -------------------------------------------------------- pausing, completing

  /** While the action is to pause, a resume runs no filter. */
  lemma {:induction false} PausedRunsNothing(c: Ctx, s: Step, vs: nat -> Verdict)
    requires c.action == Pause && s != DoneStep && Enter(c, s).execIndex < |c.ecodes|
    requires !(RunsOnce(s) && Number(s) <= c.last)
    ensures var o := Resume(c, s, true, vs);
            && o.ran == [] && o.ctx == Enter(c, s)
            && (o.rc == RcAgain <==> c.ecodes[Enter(c, s).execIndex] == NONE)
  {
    var c1 := Enter(c, s);
    assert !TakeTurn(c1, c1.execIndex, s, true, vs(c1.execIndex)).ran;
  }

  predicate Continues(v: Verdict) {
    v.Ran? && v.ret == Continue && v.host != Done && v.rc == CallOk
  }

  lemma {:induction false} ContinuingTurn(c: Ctx, i: nat, step: Step, yieldable: bool, v: Verdict)
    requires c.execIndex == i < |c.ecodes| && c.step == step && c.action == Continue
    requires c.ecodes[i] == NONE && Continues(v)
    ensures var t := TakeTurn(c, i, step, yieldable, v);
            && !t.stop && t.rc == RcOk && t.ran
            && t.ctx == (if i + 1 < |c.ecodes| then c.(execIndex := i + 1)
                         else c.(execIndex := 0, last := Number(step)))
  {
    assert c.ecodes[i := NONE] == c.ecodes;
  }

  /** When all remaining filters continue, the step runs each of them and completes. */
  lemma {:induction false} ContinuingCompletes(c: Ctx, i: nat, rc: Rc, step: Step, yieldable: bool, vs: nat -> Verdict)
    requires c.execIndex == i < |c.ecodes| && c.step == step && c.action == Continue
    requires forall k :: i <= k < |c.ecodes| ==> c.ecodes[k] == NONE
    requires forall k: nat :: i <= k < |c.ecodes| ==> Continues(vs(k))
    ensures Loop(c, i, rc, step, yieldable, vs)
            == Outcome(RcOk, c.(execIndex := 0, last := Number(step)), Range(i, |c.ecodes|))
    decreases |c.ecodes| - i
  {
    hide TakeTurn, Continues;
    ContinuingTurn(c, i, step, yieldable, vs(i));
    if i + 1 < |c.ecodes| {
      ContinuingCompletes(c.(execIndex := i + 1), i + 1, RcOk, step, yieldable, vs);
    } else {
      LoopOver(c.(execIndex := 0, last := Number(step)), i + 1, RcOk, step, yieldable, vs);
      EmptyRange(i + 1);
    }
  }

  /** The chain stands before a filter that may run step `s`. */
  ghost predicate MayRun(c: Ctx, s: Step) {
    && RunsOnce(s) && c.last < Number(s)
    && c.execIndex < |c.ecodes| && c.ecodes[c.execIndex] == NONE && c.action == Continue
  }

  /** One turn that ends the resume. */
  lemma {:induction false} EndsHere(c: Ctx, s: Step, yieldable: bool, vs: nat -> Verdict, t: Turn)
    requires MayRun(c, s) && t.stop
    requires t == TakeTurn(c.(step := s), c.execIndex, s, yieldable, vs(c.execIndex))
    ensures Resume(c, s, yieldable, vs) == Outcome(t.rc, t.ctx, if t.ran then [c.execIndex] else [])
  {
    hide TakeTurn;
  }

  /** A filter that is done, by a host call or by what it returns, ends the step for now:
      later filters do not run, and later phases continue behind it. */
  lemma {:induction false} DoneEndsResume(c: Ctx, s: Step, yieldable: bool, vs: nat -> Verdict)
    requires MayRun(c, s)
    requires vs(c.execIndex).Ran?
    requires if vs(c.execIndex).host == Done && vs(c.execIndex).ret != Done then true
             else vs(c.execIndex).ret == Done && vs(c.execIndex).rc == CallOk
    ensures Resume(c, s, yieldable, vs)
            == Outcome(RcDone, c.(step := s, execIndex := c.execIndex + 1), [c.execIndex])
  {
    var i := c.execIndex;
    assert c.ecodes[i := NONE] == c.ecodes;
    EndsHere(c, s, yieldable, vs, Turn(true, RcDone, c.(step := s, execIndex := i + 1), true));
  }

  /** A filter that traps or fails, or returns an action that is not implemented, ends the
      step with its error code; the index stays at it. */
  lemma {:induction false} FailureEndsResume(c: Ctx, s: Step, yieldable: bool, vs: nat -> Verdict)
    requires MayRun(c, s) && vs(c.execIndex).Ran? && vs(c.execIndex).host != Done
    requires vs(c.execIndex).rc != CallOk || vs(c.execIndex).ret.Other?
    ensures var o := Resume(c, s, yieldable, vs);
            var code := if vs(c.execIndex).rc == CallAbort then INSTANCE_TRAPPED else UNKNOWN;
            && o.rc == RcFail && o.ran == [c.execIndex] && o.ctx.execIndex == c.execIndex
            && o.ctx.ecodes == c.ecodes[c.execIndex := code] && o.ctx.last == c.last
  {
    var t := TakeTurn(c.(step := s), c.execIndex, s, yieldable, vs(c.execIndex));
    assert c.ecodes[c.execIndex := NONE][c.execIndex := UNKNOWN] == c.ecodes[c.execIndex := UNKNOWN];
    EndsHere(c, s, yieldable, vs, t);
  }

  /** A filter that pauses where the phase can yield: the index is behind it, and the step
      is completed if it was the last one. */
  lemma {:induction false} PauseYields(c: Ctx, s: Step, vs: nat -> Verdict)
    requires MayRun(c, s) && vs(c.execIndex).Ran? && vs(c.execIndex).host != Done
    requires vs(c.execIndex).ret == Pause && vs(c.execIndex).rc == CallOk
    requires c.execIndex + 1 < |c.ecodes| ==> c.ecodes[c.execIndex + 1] == NONE
    ensures Resume(c, s, true, vs) ==
            Outcome(RcAgain,
                    if c.execIndex + 1 < |c.ecodes| then c.(step := s, action := Pause, execIndex := c.execIndex + 1)
                    else c.(step := s, action := Pause, execIndex := 0, last := Number(s)),
                    [c.execIndex])
  {
    var i, c1 := c.execIndex, c.(step := s);
    assert c.ecodes[i := NONE] == c.ecodes;
    var paused := if i + 1 < |c.ecodes| then c1.(action := Pause, execIndex := i + 1)
                  else c1.(action := Pause, execIndex := 0, last := Number(s));
    assert TakeTurn(c1, i, s, true, vs(i)) == Turn(false, RcAgain, paused, true);
    if i + 1 < |c.ecodes| {
      assert TakeTurn(paused, i + 1, s, true, vs(i + 1)) == Turn(true, RcAgain, paused, false);
      assert Loop(paused, i + 1, RcAgain, s, true, vs) == Outcome(RcAgain, paused, []);
    } else {
      LoopOver(paused, i + 1, RcAgain, s, true, vs);
    }
    assert [i] + [] == [i];
  }

  // ------------------------------------------------------------ failed filters

  ghost predicate NoCallbackOn(es: seq<Event>, k: nat) {
    forall i :: 0 <= i < |es| && es[i].Callback? ==> es[i].filter != k
  }

  lemma {:induction false} FailedRc(c: Ctx, i: nat, yieldable: bool, k: nat)
    requires i < |c.ecodes| && k < |c.ecodes| && c.ecodes[k] != NONE
    ensures var (rc, c') := Action2rc(c, i, yieldable);
            && |c'.ecodes| == |c.ecodes| && c'.ecodes[k] != NONE && (rc == RcOk ==> i != k)
  {
  }

  lemma {:induction false} FailedRun(c: Ctx, i: nat, step: Step, v: Verdict, k: nat)
    requires i < |c.ecodes| && i != k < |c.ecodes| && c.ecodes[k] != NONE
    ensures var c' := RunStep(c, i, step, v); |c'.ecodes| == |c.ecodes| && c'.ecodes[k] != NONE
  {
  }

  lemma {:induction false} FailedTurn(c: Ctx, i: nat, step: Step, yieldable: bool, v: Verdict, k: nat)
    requires i < |c.ecodes| && k < |c.ecodes| && c.ecodes[k] != NONE
    ensures var t := TakeTurn(c, i, step, yieldable, v);
            |t.ctx.ecodes| == |c.ecodes| && t.ctx.ecodes[k] != NONE && (t.ran ==> i != k)
  {
    hide Action2rc, RunStep;
    FailedRc(c, i, yieldable, k);
    var (rc, c1) := Action2rc(c, i, yieldable);
    if rc == RcOk {
      FailedRun(c1, i, step, v, k);
      FailedRc(Advance(RunStep(c1, i, step, v), step), i, yieldable, k);
    }
  }

  lemma {:induction false} FailedLoop(c: Ctx, i: nat, rc: Rc, step: Step, yieldable: bool, vs: nat -> Verdict, k: nat)
    requires k < |c.ecodes| && c.ecodes[k] != NONE
    ensures var o := Loop(c, i, rc, step, yieldable, vs);
            |o.ctx.ecodes| == |c.ecodes| && o.ctx.ecodes[k] != NONE && k !in o.ran
    decreases |c.ecodes| - i
  {
    hide TakeTurn;
    if i < |c.ecodes| {
      FailedTurn(c, i, step, yieldable, vs(i), k);
      var t := TakeTurn(c, i, step, yieldable, vs(i));
      FailedLoop(t.ctx, i + 1, t.rc, step, yieldable, vs, k);
    }
  }

  lemma {:induction false} FailedApply(c: Ctx, e: Event, k: nat)
    requires k < |c.ecodes| && c.ecodes[k] != NONE
    requires e.Callback? ==> k != e.filter < |c.ecodes|
    ensures var o := Apply(c, e);
            |o.ctx.ecodes| == |c.ecodes| && o.ctx.ecodes[k] != NONE && k !in o.ran
  {
    hide Loop;
    if e.Resumed? {
      var c1 := Enter(c, e.step);
      FailedLoop(c1, c1.execIndex, RcOk, e.step, e.yieldable, e.vs, k);
    }
  }

  /** A filter that failed is not run again in any step, unless a callback clears it. */
  lemma {:induction false} FailedNeverRuns(c: Ctx, es: seq<Event>, k: nat)
    requires k < |c.ecodes| && c.ecodes[k] != NONE
    requires Happens(|c.ecodes|, es) && NoCallbackOn(es, k)
    ensures k !in RanIn(c, es)
    decreases |es|
  {
    hide Apply;
    if es != [] {
      FailedApply(c, es[0], k);
      FailedNeverRuns(Apply(c, es[0]).ctx, es[1..], k);
    }
  }

  // ------------------------------------------------------------- the response

  /** Only request steps are resumed. */
  ghost predicate RequestOnly(es: seq<Event>) {
    forall i :: 0 <= i < |es| && es[i].Resumed? ==> es[i].step in {ReqHeaders, ReqBody, ReqTrailers}
  }

  lemma {:induction false} RequestApply(c: Ctx, e: Event)
    requires Valid(c) && c.last < Number(RespHeaders)
    requires e.Callback? ==> e.filter < |c.ecodes|
    requires e.Resumed? ==> e.step in {ReqHeaders, ReqBody, ReqTrailers}
    ensures Apply(c, e).ctx.last < Number(RespHeaders)
  {
    hide Resume;
    if e.Resumed? {
      var _ := ResumeStands(c, e.step, e.yieldable, e.vs);
    }
  }

  lemma {:induction false} RequestRun(c: Ctx, es: seq<Event>)
    requires Valid(c) && c.last < Number(RespHeaders)
    requires Happens(|c.ecodes|, es) && RequestOnly(es)
    ensures var c' := Final(c, es);
            Valid(c') && |c'.ecodes| == |c.ecodes| && c'.last < Number(RespHeaders)
    decreases |es|
  {
    hide Apply, Valid;
    if es != [] {
      ApplyKeepsFilters(c, es[0]);
      ApplyValid(c, es[0]);
      RequestApply(c, es[0]);
      RequestRun(Apply(c, es[0]).ctx, es[1..]);
    }
  }

  /** When the first filter runs. */
  ghost predicate FirstMayRun(c: Ctx, vs: nat -> Verdict) {
    |c.ecodes| > 0 && c.ecodes[0] == NONE && c.action == Continue && vs(0).Ran?
  }

  lemma {:induction false} FirstRuns(c: Ctx, yieldable: bool, vs: nat -> Verdict)
    requires Enter(c, RespHeaders).execIndex == 0
    ensures Resume(c, RespHeaders, yieldable, vs).ran != [] <==> FirstMayRun(c, vs)
  {
    hide Loop, Advance, NextStep, Ecode;
    var c1 := Enter(c, RespHeaders);
    if |c.ecodes| == 0 {
      LoopOver(c1, 0, RcOk, RespHeaders, yieldable, vs);
    } else {
      LoopFirst(c1, 0, RcOk, RespHeaders, yieldable, vs);
      assert TakeTurn(c1, 0, RespHeaders, yieldable, vs(0)).ran <==> FirstMayRun(c, vs);
    }
  }

  /** Exactly when a resume of the response headers runs filter 0, be it for the first time
      or again: until the step is completed, or while the index is at filter 0, and when
      that filter may run. */
  lemma {:induction false} HeadersRunFirstIff(c: Ctx, yieldable: bool, vs: nat -> Verdict)
    requires Valid(c)
    ensures 0 in Resume(c, RespHeaders, yieldable, vs).ran <==>
            (c.last < Number(RespHeaders) || c.execIndex == 0) && FirstMayRun(c, vs)
  {
    hide Resume, FirstMayRun, Range;
    var j := ResumeStands(c, RespHeaders, yieldable, vs);
    var start := Enter(c, RespHeaders).execIndex;
    RangeMember(start, j, 0);
    if start == 0 {
      FirstRuns(c, yieldable, vs);
      EmptyRange(0);
    }
  }

  lemma {:induction false} LoopFirst(c: Ctx, i: nat, rc: Rc, step: Step, yieldable: bool, vs: nat -> Verdict)
    requires i < |c.ecodes| && AtTurn(c, i, step, yieldable)
    ensures Loop(c, i, rc, step, yieldable, vs).ran != [] <==> TakeTurn(c, i, step, yieldable, vs(i)).ran
  {
    TurnStands(c, i, step, yieldable, vs(i));
  }

  /** However the request steps ended, the first response headers start at filter 0. */
  lemma {:induction false} ResponseRestarts(c: Ctx, es: seq<Event>, yieldable: bool, vs: nat -> Verdict)
    returns (j: nat)
    requires Valid(c) && c.last < Number(RespHeaders)
    requires Happens(|c.ecodes|, es) && RequestOnly(es)
    ensures var c' := Final(c, es);
            var ran := Resume(c', RespHeaders, yieldable, vs).ran;
            ran == Range(0, j) && (j > 0 <==> FirstMayRun(c', vs))
  {
    hide Resume;
    RequestRun(c, es);
    var c' := Final(c, es);
    FirstRuns(c', yieldable, vs);
    j := ResumeStands(c', RespHeaders, yieldable, vs);
  }

  /** The response headers are not run once: a pause of the first of two filters makes the
      next resume start over. */
  lemma {:induction false} PausedHeadersStartOver(c: Ctx, vs: nat -> Verdict)
    requires c == Ctx(Continue, ReqHeaders, 0, 1, [NONE, NONE])
    requires vs(0) == Ran(Continue, Pause, CallOk) && vs(1) == Ran(Continue, Continue, CallOk)
    ensures var again := [Resumed(RespHeaders, true, vs), SetAction(Continue), Resumed(RespHeaders, true, vs)];
            Happens(2, again) && RanIn(c, again) == [0, 0]
  {
    var e := Resumed(RespHeaders, true, vs);
    var again := [e, SetAction(Continue), e];
    var c0 := c.(step := RespHeaders);
    var c1 := c0.(execIndex := 1, action := Pause);
    assert [NONE, NONE][0 := NONE] == [NONE, NONE];
    assert TakeTurn(c0, 0, RespHeaders, true, vs(0)) == Turn(false, RcAgain, c1, true);
    assert TakeTurn(c1, 1, RespHeaders, true, vs(1)) == Turn(true, RcAgain, c1, false);
    assert Loop(c0, 0, RcOk, RespHeaders, true, vs) == Outcome(RcAgain, c1, [0]);
    assert Apply(c, e) == Outcome(RcAgain, c1, [0]);
    assert again[1..] == [SetAction(Continue), e] && again[1..][1..] == [e] && [e][1..] == [];
    var c2 := c1.(action := Continue);
    assert Apply(c1, SetAction(Continue)) == Outcome(RcOk, c2, []);
    assert Enter(c2, RespHeaders) == c0;
    assert Apply(c2, e) == Outcome(RcAgain, c1, [0]);
    assert RanIn(c2, [e]) == [0] + RanIn(c1, []);
  }

  /** Every resume of the response headers starts at filter 0 until the step is completed,
      and at the index afterwards. */
  lemma {:induction false} HeadersStartAt(c: Ctx, yieldable: bool, vs: nat -> Verdict) returns (j: nat)
    requires Valid(c)
    ensures var start := if c.last < Number(RespHeaders) then 0 else c.execIndex;
            Resume(c, RespHeaders, yieldable, vs).ran == Range(start, j)
  {
    hide Resume;
    j := ResumeStands(c, RespHeaders, yieldable, vs);
  }
}

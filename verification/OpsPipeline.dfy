/** The pipelines of wasm operations: how a plan is loaded, and how a pipeline of calls is
    run over yields and resumes. */
module OpsPipeline {
  import opened Wrappers
  import opened Ranges

  // ------------------------------------------------------------- resuming a phase

  /** `idx` is the index that loading gave the call. */
  datatype Call = Call(idx: nat, hasFunc: bool)

  /** What a call does: no instance could be made; it failed, or left the environment in
      error; it yielded; or it returned. */
  datatype Verdict = NoInstance | Fails | Yields | Returns

  datatype Rc = Declined | Again | Error

  datatype Ctx = Ctx(lastPhase: Option<nat>, curIdx: nat)

  /** `ran` lists the positions of the calls that were executed. */
  datatype Outcome = Outcome(rc: Rc, curIdx: nat, ran: seq<nat>)

  function RunOps(ops: seq<Call>, i: nat, cur: nat, vs: nat -> Verdict): Outcome
    decreases |ops| - i
  {
    if i >= |ops| then Outcome(Declined, cur, [])
    else if !ops[i].hasFunc then Outcome(Error, cur, [])
    else if cur > ops[i].idx then RunOps(ops, i + 1, cur, vs)
    else match vs(i)
      case NoInstance => Outcome(Error, cur, [])
      case Fails => Outcome(Error, cur + 1, [i])
      case Yields => Outcome(Again, cur + 1, [i])
      case Returns =>
        var o := RunOps(ops, i + 1, cur + 1, vs);
        o.(ran := [i] + o.ran)
  }

  /** Another phase than the last one starts over. */
  function StartIdx(c: Ctx, phase: nat): nat {
    if c.lastPhase.Some? && c.lastPhase.value != phase then 0 else c.curIdx
  }

  function Resume(c: Ctx, phase: nat, ops: seq<Call>, vs: nat -> Verdict): (Outcome, Ctx) {
    var o := RunOps(ops, 0, StartIdx(c, phase), vs);
    (o, Ctx(if o.rc == Error then c.lastPhase else Some(phase), o.curIdx))
  }

  /** The indices are the positions in the pipeline. */
  ghost predicate InPlace(ops: seq<Call>) {
    forall i :: 0 <= i < |ops| ==> ops[i].idx == i
  }

  /** One resume executes the calls from the current index on, up to the new one. */
  lemma {:induction false} RunsFromIndex(ops: seq<Call>, i: nat, cur: nat, vs: nat -> Verdict)
    requires InPlace(ops) && i <= cur
    ensures var o := RunOps(ops, i, cur, vs);
            && cur <= o.curIdx && (cur <= |ops| ==> o.curIdx <= |ops|) && o.ran == Range(cur, o.curIdx)
            && (cur > |ops| ==> o.curIdx == cur)
            && (o.rc == Declined ==> o.curIdx >= |ops|)
    decreases |ops| - i
  {
    if i < |ops| {
      if i < cur {
        RunsFromIndex(ops, i + 1, cur, vs);
      } else {
        RunsFromIndex(ops, i + 1, cur + 1, vs);
        OneRange(cur);
      }
    }
    EmptyRange(cur);
  }

  /** All of these calls return but the last one, which yields if the resume yields. */
  lemma {:induction false} ReturnsUntilYield(ops: seq<Call>, i: nat, cur: nat, vs: nat -> Verdict, k: nat)
    requires InPlace(ops) && i <= cur
    ensures var o := RunOps(ops, i, cur, vs);
            && (o.rc == Again <==> o.curIdx > cur && vs(o.curIdx - 1) == Yields)
            && (cur <= k < o.curIdx - 1 ==> vs(k) == Returns)
    decreases |ops| - i
  {
    RunsFromIndex(ops, i, cur, vs);
    if i < |ops| {
      if i < cur {
        ReturnsUntilYield(ops, i + 1, cur, vs, k);
      } else {
        RunsFromIndex(ops, i + 1, cur + 1, vs);
        ReturnsUntilYield(ops, i + 1, cur + 1, vs, k);
      }
    }
  }

  /** A resume reports an error exactly when a call fails or has no instance; the index is
      behind the call that failed, and at the one without an instance. */
  lemma {:induction false} ErrorIff(ops: seq<Call>, i: nat, cur: nat, vs: nat -> Verdict)
    requires InPlace(ops) && i <= cur && forall j :: 0 <= j < |ops| ==> ops[j].hasFunc
    ensures var o := RunOps(ops, i, cur, vs);
            o.rc == Error <==>
            || (o.curIdx > cur && vs(o.curIdx - 1) == Fails)
            || (o.curIdx < |ops| && vs(o.curIdx) == NoInstance && (o.curIdx > cur ==> vs(o.curIdx - 1) == Returns))
    decreases |ops| - i
  {
    RunsFromIndex(ops, i, cur, vs);
    if i < |ops| {
      if i < cur {
        ErrorIff(ops, i + 1, cur, vs);
      } else {
        RunsFromIndex(ops, i + 1, cur + 1, vs);
        ErrorIff(ops, i + 1, cur + 1, vs);
      }
    }
  }

  /** A call without a function fails every resume that comes to it: also one of which the
      index is behind it. */
  lemma {:induction false} MissingFunctionStops(ops: seq<Call>, i: nat, cur: nat, vs: nat -> Verdict, m: nat)
    requires InPlace(ops) && i <= m < |ops| && i <= cur && !ops[m].hasFunc
    requires forall j :: 0 <= j < m ==> ops[j].hasFunc
    ensures var o := RunOps(ops, i, cur, vs);
            && (m <= cur ==> o == Outcome(Error, cur, []))
            && (m > cur ==> o.curIdx <= m && o.rc != Declined)
    decreases |ops| - i
  {
    if i < m { MissingFunctionStops(ops, i + 1, if i < cur then cur else cur + 1, vs, m); }
  }

  lemma {:induction false} OneRange(k: nat)
    ensures Range(k, k + 1) == [k]
  {
    EmptyRange(k + 1);
  }

  // --------------------------------------------------------------- whole phases

  /** Resumes of one phase, each with what the calls do then. */
  ghost function RanIn(c: Ctx, phase: nat, ops: seq<Call>, rs: seq<nat -> Verdict>): seq<nat>
    decreases |rs|
  {
    if rs == [] then [] else
      var (o, c') := Resume(c, phase, ops, rs[0]);
      o.ran + RanIn(c', phase, ops, rs[1..])
  }

  ghost function Final(c: Ctx, phase: nat, ops: seq<Call>, rs: seq<nat -> Verdict>): Ctx
    decreases |rs|
  {
    if rs == [] then c else Final(Resume(c, phase, ops, rs[0]).1, phase, ops, rs[1..])
  }

  ghost predicate NoErrors(c: Ctx, phase: nat, ops: seq<Call>, rs: seq<nat -> Verdict>)
    decreases |rs|
  {
    rs == [] || (
      var (o, c') := Resume(c, phase, ops, rs[0]);
      o.rc != Error && NoErrors(c', phase, ops, rs[1..]))
  }

  lemma {:induction false} PhaseRuns(c: Ctx, phase: nat, ops: seq<Call>, rs: seq<nat -> Verdict>)
    requires InPlace(ops) && NoErrors(c, phase, ops, rs) && rs != []
    ensures var start, c' := StartIdx(c, phase), Final(c, phase, ops, rs);
            && start <= c'.curIdx && (start <= |ops| ==> c'.curIdx <= |ops|) && (start > |ops| ==> c'.curIdx == start)
            && c'.lastPhase == Some(phase) && RanIn(c, phase, ops, rs) == Range(start, c'.curIdx)
    decreases |rs|
  {
    hide RunOps, InPlace;
    var start := StartIdx(c, phase);
    RunsFromIndex(ops, 0, start, rs[0]);
    var (o, c1) := Resume(c, phase, ops, rs[0]);
    if |rs| == 1 {
      assert rs[1..] == [];
      assert o.ran + [] == o.ran;
    } else {
      PhaseRuns(c1, phase, ops, rs[1..]);
      RangeJoin(start, o.curIdx, Final(c, phase, ops, rs).curIdx);
    }
  }

  /** Over any number of yields and resumes of a phase, each call from the start index on is
      executed at most once and in order; all of them are once a resume is declined; and
      then further resumes execute none.  Calls before the start index are not executed. */
  lemma {:induction false} EachCallOnce(c: Ctx, phase: nat, ops: seq<Call>, rs: seq<nat -> Verdict>, vs: nat -> Verdict)
    returns (k: nat)
    requires InPlace(ops) && NoErrors(c, phase, ops, rs)
    ensures var start := StartIdx(c, phase);
            start <= k && (start <= |ops| ==> k <= |ops|) && RanIn(c, phase, ops, rs) == Range(start, k)
    ensures var o := Resume(Final(c, phase, ops, rs), phase, ops, vs).0;
            && (o.rc == Declined ==> o.ran == Range(k, |ops|))
            && (k >= |ops| && (forall i :: 0 <= i < |ops| ==> ops[i].hasFunc) ==> o.rc == Declined && o.ran == [])
  {
    hide RunOps, InPlace;
    k := StartIdx(c, phase);
    EmptyRange(k);
    if rs != [] {
      PhaseRuns(c, phase, ops, rs);
      k := Final(c, phase, ops, rs).curIdx;
    }
    RunsFromIndex(ops, 0, k, vs);
    var o := RunOps(ops, 0, k, vs);
    if k >= |ops| {
      RangeOver(k, |ops|);
      RangeOver(k, o.curIdx);
    }
    if k >= |ops| && forall i :: 0 <= i < |ops| ==> ops[i].hasFunc {
      FinishedRunsNone(ops, 0, k, vs);
    }
  }

  lemma {:induction false} RangeOver(a: nat, b: nat)
    requires a >= b
    ensures Range(a, b) == []
  {
  }

  lemma {:induction false} FinishedRunsNone(ops: seq<Call>, i: nat, cur: nat, vs: nat -> Verdict)
    requires InPlace(ops) && cur >= |ops| && forall j :: 0 <= j < |ops| ==> ops[j].hasFunc
    ensures RunOps(ops, i, cur, vs) == Outcome(Declined, cur, [])
    decreases |ops| - i
  {
    if i < |ops| { FinishedRunsNone(ops, i + 1, cur, vs); }
  }

  // ------------------------------------------------------- where a phase starts

  /** A resume of some phase, with its calls and what they do. */
  datatype Resumption = Resumption(phase: nat, ops: seq<Call>, vs: nat -> Verdict)

  ghost function After(c: Ctx, hs: seq<Resumption>): Ctx
    decreases |hs|
  {
    if hs == [] then c else After(Resume(c, hs[0].phase, hs[0].ops, hs[0].vs).1, hs[1..])
  }

  /** The number of calls executed. */
  ghost function Executed(c: Ctx, hs: seq<Resumption>): nat
    decreases |hs|
  {
    if hs == [] then 0
    else
      var (o, c') := Resume(c, hs[0].phase, hs[0].ops, hs[0].vs);
      |o.ran| + Executed(c', hs[1..])
  }

  /** Every resume reported an error. */
  ghost predicate AllFailed(c: Ctx, hs: seq<Resumption>)
    decreases |hs|
  {
    hs == [] || (
      var (o, c') := Resume(c, hs[0].phase, hs[0].ops, hs[0].vs);
      o.rc == Error && AllFailed(c', hs[1..]))
  }

  lemma {:induction false} RanCounts(ops: seq<Call>, i: nat, cur: nat, vs: nat -> Verdict)
    ensures var o := RunOps(ops, i, cur, vs); o.curIdx == cur + |o.ran|
    decreases |ops| - i
  {
    if i < |ops| {
      RanCounts(ops, i + 1, cur, vs);
      RanCounts(ops, i + 1, cur + 1, vs);
    }
  }

  lemma {:induction false} AfterResumes(c: Ctx, hs: seq<Resumption>, phase: nat)
    requires forall i :: 0 <= i < |hs| ==> hs[i].phase != phase
    requires c.lastPhase != Some(phase)
    ensures var c' := After(c, hs);
            && c'.lastPhase != Some(phase)
            && (c'.lastPhase.None? <==> c.lastPhase.None? && AllFailed(c, hs))
            && (c'.lastPhase.None? ==> c'.curIdx == c.curIdx + Executed(c, hs))
    decreases |hs|
  {
    hide RunOps;
    if hs != [] {
      var h := hs[0];
      RanCounts(h.ops, 0, StartIdx(c, h.phase), h.vs);
      AfterResumes(Resume(c, h.phase, h.ops, h.vs).1, hs[1..], phase);
      LaterNeverNone(Resume(c, h.phase, h.ops, h.vs).1, hs[1..]);
    }
  }

  lemma {:induction false} LaterNeverNone(c: Ctx, hs: seq<Resumption>)
    ensures c.lastPhase.Some? ==> After(c, hs).lastPhase.Some?
    decreases |hs|
  {
    hide RunOps;
    if hs != [] { LaterNeverNone(Resume(c, hs[0].phase, hs[0].ops, hs[0].vs).1, hs[1..]); }
  }

  /** A phase that was not resumed before starts at its first call if and only if some
      earlier resume, of any phase, did not report an error, or no call was executed yet. */
  lemma {:induction false} StartsAtFirstIff(hs: seq<Resumption>, phase: nat)
    requires forall i :: 0 <= i < |hs| ==> hs[i].phase != phase
    ensures StartIdx(After(Ctx(None, 0), hs), phase) == 0 <==>
            !AllFailed(Ctx(None, 0), hs) || Executed(Ctx(None, 0), hs) == 0
  {
    AfterResumes(Ctx(None, 0), hs, phase);
  }

  /** Otherwise calls are skipped: after the only call of the first phase failed, a phase of
      two calls executes the second one alone. */
  lemma {:induction false} FailureSkipsCall(vs: nat -> Verdict)
    requires forall i: nat :: vs(i) == Returns
    ensures var c := After(Ctx(None, 0), [Resumption(0, [Call(0, true)], _ => Fails)]);
            Resume(c, 1, [Call(0, true), Call(1, true)], vs).0.ran == [1]
  {
    var fails: nat -> Verdict := _ => Fails;
    var h := Resumption(0, [Call(0, true)], fails);
    var c := Ctx(None, 0);
    assert RunOps(h.ops, 0, 0, fails) == Outcome(Error, 1, [0]);
    assert [h][1..] == [];
    assert After(c, [h]) == After(Ctx(None, 1), []) == Ctx(None, 1);
    var ops := [Call(0, true), Call(1, true)];
    assert RunOps(ops, 2, 2, vs) == Outcome(Declined, 2, []);
    assert RunOps(ops, 1, 1, vs).ran == [1] + [];
    assert RunOps(ops, 0, 1, vs) == RunOps(ops, 1, 1, vs);
  }
}

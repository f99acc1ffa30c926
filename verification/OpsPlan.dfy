/** Building and loading a plan of wasm calls, and running its pipelines in place. */
module OpsPlan {
  import opened Wrappers
  import opened Ranges
  import opened OpsPipeline

  /** A call operation: its identity and the phases it runs on. */
  datatype Op = Op(id: nat, phases: set<nat>)

  /** One pipeline of operation identities for each phase. */
  type Pipelines = seq<seq<nat>>

  function AddOp(ps: Pipelines, op: Op): (r: Pipelines)
    ensures |r| == |ps|
  {
    seq(|ps|, p requires 0 <= p < |ps| => if p in op.phases then ps[p] + [op.id] else ps[p])
  }

  function AddOps(ps: Pipelines, ops: seq<Op>): Pipelines
    decreases |ops|
  {
    if ops == [] then ps else AddOps(AddOp(ps, ops[0]), ops[1..])
  }

  /** Loading gives each operation its position, pipeline after pipeline. */
  function LoadPipeline(idx: map<nat, nat>, pipeline: seq<nat>, j: nat): map<nat, nat>
    decreases |pipeline| - j
  {
    if j >= |pipeline| then idx else LoadPipeline(idx[pipeline[j] := j], pipeline, j + 1)
  }

  function Load(idx: map<nat, nat>, ps: Pipelines, p: nat): map<nat, nat>
    decreases |ps| - p
  {
    if p >= |ps| then idx else Load(LoadPipeline(idx, ps[p], 0), ps, p + 1)
  }

  // ------------------------------------------------------------ indices given

  lemma {:induction false} PipelineFrame(idx: map<nat, nat>, pipeline: seq<nat>, j: nat, id: nat)
    requires id in idx && (forall k :: j <= k < |pipeline| ==> pipeline[k] != id)
    ensures id in LoadPipeline(idx, pipeline, j) && LoadPipeline(idx, pipeline, j)[id] == idx[id]
    decreases |pipeline| - j
  {
    if j < |pipeline| { PipelineFrame(idx[pipeline[j] := j], pipeline, j + 1, id); }
  }

  lemma {:induction false} PipelineLast(idx: map<nat, nat>, pipeline: seq<nat>, i: nat, j: nat)
    requires i <= j < |pipeline| && (forall k :: j < k < |pipeline| ==> pipeline[k] != pipeline[j])
    ensures var m := LoadPipeline(idx, pipeline, i); pipeline[j] in m && m[pipeline[j]] == j
    decreases j - i
  {
    if i < j {
      PipelineLast(idx[pipeline[i] := i], pipeline, i + 1, j);
    } else {
      PipelineFrame(idx[pipeline[j] := j], pipeline, j + 1, pipeline[j]);
    }
  }

  lemma {:induction false} LoadFrame(idx: map<nat, nat>, ps: Pipelines, p: nat, id: nat)
    requires id in idx && (forall q :: p <= q < |ps| ==> id !in ps[q])
    ensures id in Load(idx, ps, p) && Load(idx, ps, p)[id] == idx[id]
    decreases |ps| - p
  {
    if p < |ps| {
      PipelineFrame(idx, ps[p], 0, id);
      LoadFrame(LoadPipeline(idx, ps[p], 0), ps, p + 1, id);
    }
  }

  /** The index of an operation is its position in the last phase that it runs on. */
  lemma {:induction false} IndexIsLastPosition(idx: map<nat, nat>, ps: Pipelines, from: nat, p: nat, j: nat)
    requires from <= p < |ps| && j < |ps[p]|
    requires forall k :: j < k < |ps[p]| ==> ps[p][k] != ps[p][j]
    requires forall q :: p < q < |ps| ==> ps[p][j] !in ps[q]
    ensures var m := Load(idx, ps, from); ps[p][j] in m && m[ps[p][j]] == j
    decreases p - from
  {
    var idx1 := LoadPipeline(idx, ps[from], 0);
    if from < p {
      IndexIsLastPosition(idx1, ps, from + 1, p, j);
    } else {
      PipelineLast(idx, ps[p], 0, j);
      LoadFrame(idx1, ps, p + 1, ps[p][j]);
    }
  }

  // ------------------------------------------------------------- plans of calls

  /** No operation is at two places. */
  ghost predicate OnePlace(ps: Pipelines) {
    forall p, q, j, k | 0 <= p < |ps| && 0 <= q < |ps| && 0 <= j < |ps[p]| && 0 <= k < |ps[q]| ::
      ps[p][j] == ps[q][k] ==> p == q && j == k
  }

  ghost predicate NotIn(ps: Pipelines, id: nat) {
    forall p :: 0 <= p < |ps| ==> id !in ps[p]
  }

  /** Each operation is listed once and runs on at most one phase. */
  ghost predicate OnePhaseEach(ops: seq<Op>) {
    && (forall i :: 0 <= i < |ops| ==> forall p, q :: p in ops[i].phases && q in ops[i].phases ==> p == q)
    && (forall i, j :: 0 <= i < j < |ops| ==> ops[i].id != ops[j].id)
  }

  lemma {:induction false} AddOpOnePlace(ps: Pipelines, op: Op)
    requires OnePlace(ps) && NotIn(ps, op.id)
    requires forall p, q :: p in op.phases && q in op.phases ==> p == q
    ensures OnePlace(AddOp(ps, op))
  {
    var r := AddOp(ps, op);
    forall p, q, j, k | 0 <= p < |r| && 0 <= q < |r| && 0 <= j < |r[p]| && 0 <= k < |r[q]| && r[p][j] == r[q][k]
      ensures p == q && j == k
    {
      if j < |ps[p]| { assert r[p][j] == ps[p][j] && r[p][j] in ps[p]; }
      if k < |ps[q]| { assert r[q][k] == ps[q][k] && r[q][k] in ps[q]; }
    }
  }

  lemma {:induction false} AddOpsOnePlace(ps: Pipelines, ops: seq<Op>)
    requires OnePlace(ps) && OnePhaseEach(ops)
    requires forall i :: 0 <= i < |ops| ==> NotIn(ps, ops[i].id)
    ensures OnePlace(AddOps(ps, ops)) && |AddOps(ps, ops)| == |ps|
    decreases |ops|
  {
    hide OnePlace;
    if ops != [] {
      AddOpOnePlace(ps, ops[0]);
      var ps1 := AddOp(ps, ops[0]);
      forall i | 0 <= i < |ops[1..]| ensures NotIn(ps1, ops[1..][i].id) {
        assert NotIn(ps, ops[i + 1].id) && ops[1..][i] == ops[i + 1];
      }
      AddOpsOnePlace(ps1, ops[1..]);
    }
  }

  function NoOps(nphases: nat): (ps: Pipelines)
    ensures |ps| == nphases && forall p :: 0 <= p < nphases ==> ps[p] == []
  {
    seq(nphases, _ => [])
  }

  /** The calls of a phase, with the indices that were given. */
  ghost function CallsOf(pipeline: seq<nat>, idx: map<nat, nat>, funcs: nat -> bool): (calls: seq<Call>)
    requires forall j :: 0 <= j < |pipeline| ==> pipeline[j] in idx
    ensures |calls| == |pipeline|
    ensures forall j :: 0 <= j < |pipeline| ==> calls[j] == Call(idx[pipeline[j]], funcs(pipeline[j]))
  {
    seq(|pipeline|, j requires 0 <= j < |pipeline| => Call(idx[pipeline[j]], funcs(pipeline[j])))
  }

  /** A plan whose operations run on one phase each has all indices in place, so each
      call of each phase is executed once and in order. */
  lemma {:induction false} PlanInPlace(nphases: nat, ops: seq<Op>, p: nat, funcs: nat -> bool)
    requires OnePhaseEach(ops) && p < nphases
    ensures var ps := AddOps(NoOps(nphases), ops);
            var idx := Load(map[], ps, 0);
            && |ps| == nphases
            && (forall j :: 0 <= j < |ps[p]| ==> ps[p][j] in idx)
            && InPlace(CallsOf(ps[p], idx, funcs))
  {
    AddOpsOnePlace(NoOps(nphases), ops);
    var ps := AddOps(NoOps(nphases), ops);
    forall j | 0 <= j < |ps[p]| ensures ps[p][j] in Load(map[], ps, 0) && Load(map[], ps, 0)[ps[p][j]] == j {
      assert forall q :: p < q < |ps| ==> ps[p][j] !in ps[q];
      IndexIsLastPosition(map[], ps, 0, p, j);
    }
  }

  // ------------------------------------------------------- plans of the directive

  /** The operations that call directives make: each one is new, and runs on the phase
      that it names. */
  function DirectiveOps(phases: seq<nat>): (ops: seq<Op>)
    ensures |ops| == |phases|
  {
    seq(|phases|, i requires 0 <= i < |phases| => Op(i, {phases[i]}))
  }

  /** The directives of phase `p`, in the order they are written, from the `i`-th on. */
  ghost function On(phases: seq<nat>, p: nat, i: nat): seq<nat>
    decreases |phases| - i
  {
    if i >= |phases| then [] else (if phases[i] == p then [i] else []) + On(phases, p, i + 1)
  }

  lemma {:induction false} AddDirective(ps: Pipelines, phases: seq<nat>, p: nat, i: nat)
    requires i < |phases| && p < |ps|
    ensures AddOps(ps, DirectiveOps(phases)[i..])
            == AddOps(AddOp(ps, Op(i, {phases[i]})), DirectiveOps(phases)[i + 1..])
    ensures AddOp(ps, Op(i, {phases[i]}))[p] == ps[p] + if phases[i] == p then [i] else []
  {
    var ops := DirectiveOps(phases);
    assert ops[i..][0] == ops[i] == Op(i, {phases[i]}) && ops[i..][1..] == ops[i + 1..];
    assert ps[p] + [] == ps[p];
  }

  lemma {:induction false} AddedInOrder(ps: Pipelines, phases: seq<nat>, p: nat, i: nat)
    requires i <= |phases| && p < |ps|
    ensures var r := AddOps(ps, DirectiveOps(phases)[i..]); |r| == |ps| && r[p] == ps[p] + On(phases, p, i)
    decreases |phases| - i
  {
    hide AddOp, DirectiveOps;
    if i < |phases| {
      AddDirective(ps, phases, p, i);
      AddedInOrder(AddOp(ps, Op(i, {phases[i]})), phases, p, i + 1);
      var one, rest: seq<nat> := if phases[i] == p then [i] else [], On(phases, p, i + 1);
      assert ps[p] + one + rest == ps[p] + (one + rest);
    } else {
      assert DirectiveOps(phases)[i..] == [] && ps[p] + [] == ps[p];
    }
  }

  /** The calls of phase `p` in a plan made by directives, as loaded. */
  ghost function DirectiveCalls(nphases: nat, phases: seq<nat>, p: nat, funcs: nat -> bool): seq<Call>
    requires p < nphases
  {
    var ps := AddOps(NoOps(nphases), DirectiveOps(phases));
    DirectivePlan(nphases, phases, p, funcs);
    CallsOf(ps[p], Load(map[], ps, 0), funcs)
  }

  /** Every plan that directives can build: the pipeline of a phase holds the directives of
      that phase in order, and all indices are in place. */
  lemma {:induction false} DirectivePlan(nphases: nat, phases: seq<nat>, p: nat, funcs: nat -> bool)
    requires p < nphases
    ensures var ps := AddOps(NoOps(nphases), DirectiveOps(phases));
            var idx := Load(map[], ps, 0);
            && |ps| == nphases && ps[p] == On(phases, p, 0)
            && (forall j :: 0 <= j < |ps[p]| ==> ps[p][j] in idx)
            && InPlace(CallsOf(ps[p], idx, funcs))
  {
    var ops := DirectiveOps(phases);
    assert OnePhaseEach(ops);
    PlanInPlace(nphases, ops, p, funcs);
    AddedInOrder(NoOps(nphases), phases, p, 0);
    assert ops[0..] == ops && [] + On(phases, p, 0) == On(phases, p, 0);
  }

  /** For every plan of call directives and every phase: over any number of yields and
      resumes, the directives of the phase from the start index on are executed in the
      order they are written, each at most once; all of them are once a resume is
      declined; then none is. */
  lemma {:induction false} DirectivesRunOnce(nphases: nat, phases: seq<nat>, p: nat, funcs: nat -> bool, c: Ctx,
                                             rs: seq<nat -> Verdict>, vs: nat -> Verdict)
    returns (k: nat)
    requires p < nphases && NoErrors(c, p, DirectiveCalls(nphases, phases, p, funcs), rs)
    ensures var calls, start := DirectiveCalls(nphases, phases, p, funcs), StartIdx(c, p);
            && |calls| == |On(phases, p, 0)| && start <= k && (start <= |calls| ==> k <= |calls|)
            && RanIn(c, p, calls, rs) == Range(start, k)
            && var o := Resume(Final(c, p, calls, rs), p, calls, vs).0;
               && (o.rc == Declined ==> o.ran == Range(k, |calls|))
               && (k >= |calls| && (forall i :: 0 <= i < |calls| ==> calls[i].hasFunc) ==>
                     o.rc == Declined && o.ran == [])
  {
    DirectivePlan(nphases, phases, p, funcs);
    k := EachCallOnce(c, p, DirectiveCalls(nphases, phases, p, funcs), rs, vs);
  }

  // ------------------------------------------------------------------ in place

  class Plan {
    var pipelines: Pipelines
    var idx: map<nat, nat>
    var loaded: bool

    constructor (nphases: nat)
      ensures pipelines == NoOps(nphases) && idx == map[] && !loaded
    {
      pipelines, idx, loaded := NoOps(nphases), map[], false;
    }

    /** Adds the operations, each to the pipelines of its phases. */
    method Add(ops: seq<Op>, ghost ps: Pipelines)
      requires pipelines == ps
      modifies this`pipelines
      ensures pipelines == AddOps(ps, ops)
    {
      assert ops[0..] == ops;
      for i := 0 to |ops|
        invariant AddOps(ps, ops) == AddOps(pipelines, ops[i..])
      {
        assert ops[i..][0] == ops[i] && ops[i..][1..] == ops[i + 1..];
        AddOne(ops[i], pipelines);
      }
    }

    method AddOne(op: Op, ghost ps: Pipelines)
      requires pipelines == ps
      modifies this`pipelines
      ensures pipelines == AddOp(ps, op)
    {
      for p := 0 to |pipelines|
        invariant |pipelines| == |ps|
        invariant forall q :: 0 <= q < p ==> pipelines[q] == AddOp(ps, op)[q]
        invariant forall q :: p <= q < |ps| ==> pipelines[q] == ps[q]
      {
        if p in op.phases {
          pipelines := pipelines[p := pipelines[p] + [op.id]];
        }
      }
    }

    method LoadPlan(ghost was: map<nat, nat>)
      requires idx == was
      modifies this`idx, this`loaded
      ensures loaded && idx == if old(loaded) then was else Load(was, pipelines, 0)
    {
      if loaded {
        return;
      }
      for p := 0 to |pipelines|
        invariant Load(was, pipelines, 0) == Load(idx, pipelines, p)
      {
        LoadOne(pipelines[p], idx);
      }
      loaded := true;
    }

    method LoadOne(pipeline: seq<nat>, ghost was: map<nat, nat>)
      requires idx == was
      modifies this`idx
      ensures idx == LoadPipeline(was, pipeline, 0)
    {
      for j := 0 to |pipeline|
        invariant LoadPipeline(was, pipeline, 0) == LoadPipeline(idx, pipeline, j)
      {
        idx := idx[pipeline[j] := j];
      }
    }
  }

  class OpCtx {
    var lastPhase: Option<nat>
    var curIdx: nat
    ghost var trace: seq<nat>

    constructor ()
      ensures lastPhase == None && curIdx == 0 && trace == []
    {
      lastPhase, curIdx, trace := None, 0, [];
    }

    /** One call operation: skipped, executed or failed. */
    method CallHandler(i: nat, op: Call, v: Verdict) returns (rc: Rc)
      modifies this`curIdx, this`trace
      ensures !op.hasFunc ==> rc == Error && curIdx == old(curIdx) && trace == old(trace)
      ensures op.hasFunc && old(curIdx) > op.idx ==> rc == Declined && curIdx == old(curIdx) && trace == old(trace)
      ensures op.hasFunc && old(curIdx) <= op.idx && v == NoInstance ==>
                rc == Error && curIdx == old(curIdx) && trace == old(trace)
      ensures op.hasFunc && old(curIdx) <= op.idx && v != NoInstance ==>
                && curIdx == old(curIdx) + 1 && trace == old(trace) + [i]
                && rc == (match v case Fails => Error case Yields => Again case _ => Declined)
    {
      if !op.hasFunc {
        return Error;
      }
      if curIdx > op.idx {
        return Declined;
      }
      if v == NoInstance {
        return Error;
      }
      trace := trace + [i];
      curIdx := curIdx + 1;
      match v {
        case Fails => rc := Error;
        case Yields => rc := Again;
        case _ => rc := Declined;
      }
    }

    method ResumePhase(phase: nat, ops: seq<Call>, vs: nat -> Verdict, ghost c: Ctx) returns (rc: Rc)
      requires c == Ctx(lastPhase, curIdx)
      modifies this
      ensures rc == Resume(c, phase, ops, vs).0.rc && Ctx(lastPhase, curIdx) == Resume(c, phase, ops, vs).1
      ensures trace == old(trace) + Resume(c, phase, ops, vs).0.ran
    {
      if lastPhase.Some? && lastPhase.value != phase {
        curIdx := 0;
      }
      ghost var goal := RunOps(ops, 0, curIdx, vs);
      ghost var start: seq<nat>, done: seq<nat> := trace, [];
      rc := Declined;
      var i := 0;
      while i < |ops|
        invariant 0 <= i <= |ops| && rc == Declined
        invariant Ends(goal, done, RunOps(ops, i, curIdx, vs))
        invariant trace == start + done && lastPhase == old(lastPhase)
      {
        ghost var cur := curIdx;
        rc := CallHandler(i, ops[i], vs(i));
        EndsStep(goal, done, ops, i, cur, vs);
        if ops[i].hasFunc && cur <= ops[i].idx && vs(i) != NoInstance {
          assert start + done + [i] == start + (done + [i]);
          done := done + [i];
        }
        if rc == Error {
          return;
        }
        if rc == Again {
          break;
        }
        i := i + 1;
      }
      lastPhase := Some(phase);
    }
  }

  /** What is still to come, after `done`, makes the goal. */
  ghost predicate Ends(goal: Outcome, done: seq<nat>, o: Outcome) {
    goal.rc == o.rc && goal.curIdx == o.curIdx && goal.ran == done + o.ran
  }

  lemma {:induction false} EndsStep(goal: Outcome, done: seq<nat>, ops: seq<Call>, i: nat, cur: nat, vs: nat -> Verdict)
    requires i < |ops| && Ends(goal, done, RunOps(ops, i, cur, vs))
    ensures ops[i].hasFunc && cur > ops[i].idx ==> Ends(goal, done, RunOps(ops, i + 1, cur, vs))
    ensures ops[i].hasFunc && cur <= ops[i].idx && vs(i) == Returns ==>
              Ends(goal, done + [i], RunOps(ops, i + 1, cur + 1, vs))
    ensures ops[i].hasFunc && cur <= ops[i].idx && vs(i) != Returns && vs(i) != NoInstance ==>
              goal == Outcome(if vs(i) == Fails then Error else Again, cur + 1, done + [i])
    ensures !ops[i].hasFunc || (cur <= ops[i].idx && vs(i) == NoInstance) ==> goal == Outcome(Error, cur, done)
  {
    if ops[i].hasFunc && cur <= ops[i].idx && vs(i) == Returns {
      var rest := RunOps(ops, i + 1, cur + 1, vs).ran;
      assert done + ([i] + rest) == done + [i] + rest;
    }
  }
}

/** Merging the histograms of several workers into one. */
module HistogramMerge {
  import opened Bytes
  import opened Histogram
  import opened HistogramMass
  import opened HistogramRuns

  /** Adds one bin of a source to the output, which never grows. */
  function MergeBin(out: Hist, b: Bin): (r: Hist)
    requires Ok(out)
  {
    var p := Place(out, UpperBound(b.bound), false);
    AddTo(p.hist, p.index, b.count)
  }

  ghost function MergeBins(out: Hist, bins: seq<Bin>): Hist
    requires Ok(out)
    decreases |bins|
  {
    if bins == [] then out
    else
      MergeBinOk(out, bins[0]);
      MergeBins(MergeBin(out, bins[0]), bins[1..])
  }

  /** Adds the histograms `srcs`, one worker after the other. */
  ghost function Merge(out: Hist, srcs: seq<Hist>): Hist
    requires Ok(out)
    decreases |srcs|
  {
    if srcs == [] then out
    else
      MergeBinsOk(out, srcs[0].bins);
      var o := MergeBins(out, srcs[0].bins);
      MergeSumOk(o, srcs[0].sum);
      Merge(o.(sum := Wrap64(o.sum + srcs[0].sum)), srcs[1..])
  }

  /** The empty output buffer with room for `cap` bins. */
  function EmptyHist(cap: nat): Hist {
    Hist([Bin(MAX, 0)], cap, 0)
  }

  lemma {:induction false} MergeSumOk(h: Hist, s: nat)
    requires Ok(h)
    ensures Ok(h.(sum := Wrap64(h.sum + s)))
  {
  }

  lemma {:induction false} MergeBinOk(out: Hist, b: Bin)
    requires Ok(out)
    ensures Ok(MergeBin(out, b)) && MergeBin(out, b).sum == out.sum && MergeBin(out, b).cap == out.cap
  {
    PlaceInv(out, UpperBound(b.bound), false);
    var p := Place(out, UpperBound(b.bound), false);
    AddToOk(p.hist, p.index, b.count);
  }

  lemma {:induction false} MergeBinsOk(out: Hist, bins: seq<Bin>)
    requires Ok(out)
    ensures Ok(MergeBins(out, bins)) && MergeBins(out, bins).sum == out.sum && MergeBins(out, bins).cap == out.cap
    decreases |bins|
  {
    if bins != [] {
      MergeBinOk(out, bins[0]);
      MergeBinsOk(MergeBin(out, bins[0]), bins[1..]);
    }
  }

  // ------------------------------------------------------- totals over sources

  function MassOf(srcs: seq<Hist>, p: nat -> bool): nat {
    if srcs == [] then 0 else Mass(srcs[0].bins, p) + MassOf(srcs[1..], p)
  }

  function SumOf(srcs: seq<Hist>): nat {
    if srcs == [] then 0 else srcs[0].sum + SumOf(srcs[1..])
  }

  // ---------------------------------------------------------------- one bin

  /** Where a source bin of bound `b` is counted in the output. */
  function Target(out: Hist, b: Word): Word
    requires Ok(out)
  {
    var p := Place(out, UpperBound(b), false);
    p.hist.bins[p.index].bound
  }

  lemma {:induction false} MergeBinMass(out: Hist, b: Bin, p: nat -> bool)
    requires Ok(out)
    ensures var d := if p(Target(out, b.bound)) then b.count else 0;
            && Wrap32(Mass(MergeBin(out, b).bins, p)) == Wrap32(Mass(out.bins, p) + d)
            && (Mass(out.bins, Any()) + b.count < U32 ==>
                  Mass(MergeBin(out, b).bins, p) == Mass(out.bins, p) + d)
  {
    var placed := Place(out, UpperBound(b.bound), false);
    PlaceMass(out, UpperBound(b.bound), false, p);
    PlaceMass(out, UpperBound(b.bound), false, Any());
    assert Any()(placed.hist.bins[placed.index].bound);
    MassCountBound(placed.hist.bins, placed.index, Any());
    AddToMass(placed.hist, placed.index, b.count, p);
  }

  /** No observation goes to a lower bound. */
  lemma {:induction false} TargetAbove(out: Hist, b: Word)
    requires Ok(out)
    ensures Target(out, b) >= b
  {
    PlaceInv(out, UpperBound(b), false);
    UpperBoundMeaning(b);
  }

  // ------------------------------------------------------------------ totals

  lemma {:induction false} MassCons(b: Bin, bins: seq<Bin>, p: nat -> bool)
    requires bins != [] && b == bins[0]
    ensures Mass(bins, p) == (if p(b.bound) then b.count else 0) + Mass(bins[1..], p)
  {
  }

  lemma {:induction false} MergeBinsStep(out: Hist, bins: seq<Bin>)
    requires Ok(out) && bins != []
    ensures Ok(MergeBin(out, bins[0]))
    ensures MergeBins(out, bins) == MergeBins(MergeBin(out, bins[0]), bins[1..])
  {
    MergeBinOk(out, bins[0]);
  }

  lemma {:induction false} MergeNothing(out: Hist)
    requires Ok(out)
    ensures MergeBins(out, []) == out && Merge(out, []) == out && SumOf([]) == 0
    ensures forall p :: Mass([], p) == 0 && MassOf([], p) == 0
    ensures out.sum < U64 ==> Wrap64(out.sum + 0) == out.sum
  {
  }

  lemma {:induction false} MergeBinsTotal(out: Hist, bins: seq<Bin>)
    requires Ok(out)
    ensures Wrap32(Mass(MergeBins(out, bins).bins, Any())) == Wrap32(Mass(out.bins, Any()) + Mass(bins, Any()))
    ensures Mass(out.bins, Any()) + Mass(bins, Any()) < U32 ==>
              Mass(MergeBins(out, bins).bins, Any()) == Mass(out.bins, Any()) + Mass(bins, Any())
    decreases |bins|
  {
    hide *;
    if bins == [] {
      MergeNothing(out);
      return;
    }
    var b, out1 := bins[0], MergeBin(out, bins[0]);
    MergeBinsStep(out, bins);
    MergeBinMass(out, b, Any());
    AnyHolds(Target(out, b.bound));
    AnyHolds(b.bound);
    MassCons(b, bins, Any());
    MergeBinsTotal(out1, bins[1..]);
    Wrap32Chain(Mass(out.bins, Any()), Mass(out1.bins, Any()), b.count, Mass(bins[1..], Any()));
  }

  /** Cumulative counts: at most what was at or below each bound before. */
  lemma {:induction false} MergeBinsCumulative(out: Hist, bins: seq<Bin>, t: nat)
    requires Ok(out) && Mass(out.bins, Any()) + Mass(bins, Any()) < U32
    ensures Mass(MergeBins(out, bins).bins, AtMost(t)) <= Mass(out.bins, AtMost(t)) + Mass(bins, AtMost(t))
    decreases |bins|
  {
    hide *;
    if bins == [] {
      MergeNothing(out);
      return;
    }
    var b, out1 := bins[0], MergeBin(out, bins[0]);
    MergeBinsStep(out, bins);
    MassCons(b, bins, Any());
    MassCons(b, bins, AtMost(t));
    AnyHolds(Target(out, b.bound));
    AnyHolds(b.bound);
    MergeBinMass(out, b, Any());
    MergeBinMass(out, b, AtMost(t));
    TargetAbove(out, b.bound);
    AtMostHolds(t, b.bound);
    AtMostHolds(t, Target(out, b.bound));
    MergeBinsCumulative(out1, bins[1..], t);
  }

  lemma {:induction false} AtMostHolds(t: nat, b: nat)
    ensures AtMost(t)(b) <==> b <= t
  {
  }

  lemma {:induction false} SourcesCons(srcs: seq<Hist>, p: nat -> bool)
    requires srcs != []
    ensures MassOf(srcs, p) == Mass(srcs[0].bins, p) + MassOf(srcs[1..], p)
    ensures SumOf(srcs) == srcs[0].sum + SumOf(srcs[1..])
  {
  }

  /** The output after the first source. */
  ghost function MergeFirst(out: Hist, src: Hist): (r: Hist)
    requires Ok(out)
  {
    var o := MergeBins(out, src.bins);
    o.(sum := Wrap64(o.sum + src.sum))
  }

  lemma {:induction false} MergeStep(out: Hist, srcs: seq<Hist>)
    requires Ok(out) && srcs != []
    ensures var o := MergeFirst(out, srcs[0]);
            && Ok(o) && o.bins == MergeBins(out, srcs[0].bins).bins
            && o.sum == Wrap64(out.sum + srcs[0].sum) && o.cap == out.cap
            && Merge(out, srcs) == Merge(o, srcs[1..])
  {
    MergeBinsOk(out, srcs[0].bins);
    MergeSumOk(MergeBins(out, srcs[0].bins), srcs[0].sum);
  }

  /** Merging conserves the total count (as a 32-bit counter, and exactly when the
      total fits) and the sum of the values. */
  lemma {:induction false} MergeConserves(out: Hist, srcs: seq<Hist>)
    requires Ok(out) && out.sum < U64
    ensures var r := Merge(out, srcs);
            && Ok(r) && r.cap == out.cap
            && Wrap32(Mass(r.bins, Any())) == Wrap32(Mass(out.bins, Any()) + MassOf(srcs, Any()))
            && (Mass(out.bins, Any()) + MassOf(srcs, Any()) < U32 ==>
                  Mass(r.bins, Any()) == Mass(out.bins, Any()) + MassOf(srcs, Any()))
            && r.sum == Wrap64(out.sum + SumOf(srcs))
    decreases |srcs|
  {
    hide *;
    if srcs == [] {
      MergeNothing(out);
      return;
    }
    MergeStep(out, srcs);
    SourcesCons(srcs, Any());
    var o1 := MergeFirst(out, srcs[0]);
    MergeBinsTotal(out, srcs[0].bins);
    MergeConserves(o1, srcs[1..]);
    Wrap32Chain(Mass(out.bins, Any()), Mass(o1.bins, Any()), Mass(srcs[0].bins, Any()), MassOf(srcs[1..], Any()));
    Wrap64Add(SumOf(srcs[1..]), out.sum + srcs[0].sum);
  }

  /** No observation moves to a lower bound: below any bound, the output counts at most
      what the sources count there. */
  lemma {:induction false} MergeNeverLowers(out: Hist, srcs: seq<Hist>, t: nat)
    requires Ok(out) && Mass(out.bins, Any()) + MassOf(srcs, Any()) < U32
    ensures Mass(Merge(out, srcs).bins, AtMost(t)) <= Mass(out.bins, AtMost(t)) + MassOf(srcs, AtMost(t))
    decreases |srcs|
  {
    hide *;
    if srcs == [] {
      MergeNothing(out);
      return;
    }
    MergeStep(out, srcs);
    SourcesCons(srcs, Any());
    SourcesCons(srcs, AtMost(t));
    MergeBinsTotal(out, srcs[0].bins);
    MergeBinsCumulative(out, srcs[0].bins, t);
    MergeNeverLowers(MergeFirst(out, srcs[0]), srcs[1..], t);
  }

  // ----------------------------------------------------------------- exactness

  ghost function BoundSet(bins: seq<Bin>): set<Word> {
    set i | 0 <= i < |bins| :: bins[i].bound
  }

  /** The bounds that the bins of `bins` are merged under. */
  ghost function Targets(bins: seq<Bin>): set<Word> {
    set i | 0 <= i < |bins| :: UpperBound(bins[i].bound)
  }

  ghost function TargetsOf(srcs: seq<Hist>): set<Word> {
    if srcs == [] then {} else Targets(srcs[0].bins) + TargetsOf(srcs[1..])
  }

  /** The output has room for all its bounds and all of `targets`. */
  ghost predicate Room(out: Hist, targets: set<Word>) {
    |BoundSet(out.bins) + targets| <= out.cap
  }

  lemma {:induction false} DistinctSize(bins: seq<Bin>)
    requires Distinct(bins)
    ensures |BoundSet(bins)| == |bins|
  {
    if bins == [] {
      assert BoundSet(bins) == {};
    } else {
      var rest := bins[1..];
      forall i: nat, j: nat | SameBound(rest, i, j) ensures i == j {
        assert SameBound(bins, i + 1, j + 1);
      }
      DistinctSize(rest);
      assert bins[0].bound !in BoundSet(rest) by {
        forall i | 0 <= i < |rest| ensures rest[i].bound != bins[0].bound {
          assert SameBound(bins, 0, i + 1) ==> 0 == i + 1;
        }
      }
      assert BoundSet(bins) == {bins[0].bound} + BoundSet(rest) by {
        assert forall i :: 1 <= i < |bins| ==> bins[i] == rest[i - 1];
      }
    }
  }

  lemma {:induction false} BoundSetInsert(bins: seq<Bin>, j: nat, ub: Word)
    requires j <= |bins|
    ensures BoundSet(bins[..j] + [Bin(ub, 0)] + bins[j..]) == BoundSet(bins) + {ub}
  {
    var r := bins[..j] + [Bin(ub, 0)] + bins[j..];
    forall b | b in BoundSet(bins) + {ub} ensures b in BoundSet(r) {
      if b == ub {
        assert r[j].bound == ub;
      } else {
        var i :| 0 <= i < |bins| && bins[i].bound == b;
        assert r[if i < j then i else i + 1].bound == b;
      }
    }
    forall b | b in BoundSet(r) ensures b in BoundSet(bins) + {ub} {
      var i :| 0 <= i < |r| && r[i].bound == b;
      if i != j { assert bins[if i < j then i else i - 1].bound == b; }
    }
  }

  lemma {:induction false} BoundSetAddTo(h: Hist, i: nat, d: nat)
    requires i < |h.bins|
    ensures BoundSet(AddTo(h, i, d).bins) == BoundSet(h.bins)
  {
    var h' := AddTo(h, i, d);
    assert forall k :: 0 <= k < |h.bins| ==> h'.bins[k].bound == h.bins[k].bound;
  }

  lemma {:induction false} RoomInside(s: set<Word>, t: set<Word>, x: Word)
    requires x in t && x !in s
    ensures |s| < |s + t|
  {
    assert s + t == (s + t - {x}) + {x};
    Subset(s, s + t - {x});
  }

  lemma {:induction false} Subset(a: set<Word>, b: set<Word>)
    requires a <= b
    ensures |a| <= |b|
  {
    assert b == a + (b - a);
  }

  lemma {:induction false} AbsentBound(bins: seq<Bin>, ub: Word)
    requires IndexOf(bins, ub) == |bins|
    ensures ub !in BoundSet(bins)
  {
    forall i: nat | i < |bins| ensures bins[i].bound != ub {
      IndexOfFinds(bins, i);
    }
  }

  /** With room, a bin is merged under its own bound, and room remains. */
  lemma {:induction false} MergeBinFits(out: Hist, b: Bin, targets: set<Word>)
    requires Ok(out) && Room(out, targets) && UpperBound(b.bound) in targets
    ensures Target(out, b.bound) == UpperBound(b.bound)
    ensures Ok(MergeBin(out, b)) && Room(MergeBin(out, b), targets)
  {
    hide BoundSet, Place, UpperBound, Distinct;
    var ub := UpperBound(b.bound);
    var p := Place(out, ub, false);
    PlaceFits(out, ub, targets);
    MergeBinOk(out, b);
    BoundSetAddTo(p.hist, p.index, b.count);
    assert BoundSet(MergeBin(out, b).bins) + targets == BoundSet(out.bins) + targets;
  }

  /** With room, a bound gets a bin of its own. */
  lemma {:induction false} PlaceFits(out: Hist, ub: Word, targets: set<Word>)
    requires Ok(out) && Room(out, targets) && ub in targets
    ensures var p := Place(out, ub, false);
            && p.hist.bins[p.index].bound == ub && p.hist.cap == out.cap
            && BoundSet(p.hist.bins) + targets == BoundSet(out.bins) + targets
  {
    hide BoundSet, Distinct;
    PlaceInv(out, ub, false);
    if IndexOf(out.bins, ub) == |out.bins| {
      DistinctSize(out.bins);
      AbsentBound(out.bins, ub);
      RoomInside(BoundSet(out.bins), targets, ub);
      BoundSetInsert(out.bins, InsertAt(out.bins, ub), ub);
      assert BoundSet(out.bins) + {ub} + targets == BoundSet(out.bins) + targets;
    }
  }

  /** `p`, asked about the bound that a bound is merged under. */
  function Lifted(p: nat -> bool): nat -> bool {
    (b: nat) => p(UpperBound(b))
  }

  lemma {:induction false} LiftedHolds(p: nat -> bool, b: nat)
    ensures Lifted(p)(b) <==> p(UpperBound(b))
  {
  }

  lemma {:induction false} TargetsCons(bins: seq<Bin>)
    requires bins != []
    ensures UpperBound(bins[0].bound) in Targets(bins)
    ensures Targets(bins[1..]) <= Targets(bins)
  {
    forall b | b in Targets(bins[1..]) ensures b in Targets(bins) {
      var i :| 0 <= i < |bins[1..]| && UpperBound(bins[1..][i].bound) == b;
      assert bins[i + 1] == bins[1..][i];
    }
  }

  lemma {:induction false} MergeBinsExact(out: Hist, bins: seq<Bin>, targets: set<Word>, p: nat -> bool)
    requires Ok(out) && Room(out, targets) && Targets(bins) <= targets
    requires Mass(out.bins, Any()) + Mass(bins, Any()) < U32
    ensures Ok(MergeBins(out, bins)) && Room(MergeBins(out, bins), targets)
    ensures Mass(MergeBins(out, bins).bins, p) == Mass(out.bins, p) + Mass(bins, Lifted(p))
    decreases |bins|
  {
    hide *;
    if bins == [] {
      MergeNothing(out);
      return;
    }
    var b, out1 := bins[0], MergeBin(out, bins[0]);
    TargetsCons(bins);
    MergeBinsStep(out, bins);
    MergeBinFits(out, b, targets);
    MergeBinMass(out, b, p);
    MergeBinMass(out, b, Any());
    AnyHolds(Target(out, b.bound));
    AnyHolds(b.bound);
    MassCons(b, bins, Any());
    MassCons(b, bins, Lifted(p));
    LiftedHolds(p, b.bound);
    MergeBinsExact(out1, bins[1..], targets, p);
  }

  lemma {:induction false} TargetsOfCons(srcs: seq<Hist>)
    requires srcs != []
    ensures Targets(srcs[0].bins) <= TargetsOf(srcs) && TargetsOf(srcs[1..]) <= TargetsOf(srcs)
  {
  }

  lemma {:induction false} RoomKept(o: Hist, o1: Hist, targets: set<Word>)
    requires o1.bins == o.bins && o1.cap == o.cap && Room(o, targets)
    ensures Room(o1, targets)
  {
  }

  /** When the output has room for all bounds, the merge is exact: whatever set of
      bounds is asked about, the output counts there what the sources count under
      bounds that map into it. */
  lemma {:induction false} MergeExact(out: Hist, srcs: seq<Hist>, targets: set<Word>, p: nat -> bool)
    requires Ok(out) && Room(out, targets) && TargetsOf(srcs) <= targets
    requires Mass(out.bins, Any()) + MassOf(srcs, Any()) < U32
    ensures Mass(Merge(out, srcs).bins, p) == Mass(out.bins, p) + MassOf(srcs, Lifted(p))
    decreases |srcs|
  {
    hide *;
    if srcs == [] {
      MergeNothing(out);
      return;
    }
    MergeStep(out, srcs);
    SourcesCons(srcs, Any());
    SourcesCons(srcs, Lifted(p));
    TargetsOfCons(srcs);
    MergeBinsOk(out, srcs[0].bins);
    MergeBinsTotal(out, srcs[0].bins);
    MergeBinsExact(out, srcs[0].bins, targets, p);
    var o1 := MergeFirst(out, srcs[0]);
    RoomKept(MergeBins(out, srcs[0].bins), o1, targets);
    MergeExact(o1, srcs[1..], targets, p);
  }

  ghost predicate LogBins(bins: seq<Bin>) {
    forall i :: 0 <= i < |bins| ==> LogBound(bins[i].bound)
  }

  /** What the mapping of bounds does to bins of log2 histograms: nothing, except that
      2^31 joins the maximum. */
  lemma {:induction false} LiftedMass(bins: seq<Bin>, b: Word)
    requires LogBins(bins)
    ensures b != 0x8000_0000 && b != MAX ==> Mass(bins, Lifted(Exactly(b))) == Mass(bins, Exactly(b))
    ensures b == MAX ==> Mass(bins, Lifted(Exactly(b))) == Mass(bins, Exactly(MAX)) + Mass(bins, Exactly(0x8000_0000))
    ensures b == 0x8000_0000 ==> Mass(bins, Lifted(Exactly(b))) == 0
  {
    if bins != [] {
      LiftedMass(bins[1..], b);
      BoundOfBound(bins[0].bound);
    }
  }

  lemma {:induction false} LiftedMassOf(srcs: seq<Hist>, b: Word)
    requires forall i :: 0 <= i < |srcs| ==> LogBins(srcs[i].bins)
    ensures b != 0x8000_0000 && b != MAX ==> MassOf(srcs, Lifted(Exactly(b))) == MassOf(srcs, Exactly(b))
    ensures b == MAX ==>
              MassOf(srcs, Lifted(Exactly(b))) == MassOf(srcs, Exactly(MAX)) + MassOf(srcs, Exactly(0x8000_0000))
    ensures b == 0x8000_0000 ==> MassOf(srcs, Lifted(Exactly(b))) == 0
  {
    if srcs != [] {
      LiftedMass(srcs[0].bins, b);
      LiftedMassOf(srcs[1..], b);
    }
  }

  /** The exact merge, bound by bound. */
  lemma {:induction false} MergeExactPerBound(out: Hist, srcs: seq<Hist>, targets: set<Word>, b: Word)
    requires Ok(out) && Room(out, targets) && TargetsOf(srcs) <= targets
    requires Mass(out.bins, Any()) + MassOf(srcs, Any()) < U32
    requires forall i :: 0 <= i < |srcs| ==> LogBins(srcs[i].bins)
    ensures var merged := Mass(Merge(out, srcs).bins, Exactly(b)) - Mass(out.bins, Exactly(b));
            && (b != 0x8000_0000 && b != MAX ==> merged == MassOf(srcs, Exactly(b)))
            && (b == MAX ==> merged == MassOf(srcs, Exactly(MAX)) + MassOf(srcs, Exactly(0x8000_0000)))
            && (b == 0x8000_0000 ==> merged == 0)
  {
    hide *;
    MergeExact(out, srcs, targets, Exactly(b));
    LiftedMassOf(srcs, b);
  }
}

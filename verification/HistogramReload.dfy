/** What a reload keeps of the counts under each bound: the merged histogram has as many
    bins as a new one, and does not grow. */
module HistogramReload {
  import opened Bytes
  import opened SlabClasses
  import opened Histogram
  import opened HistogramMass
  import opened HistogramRuns
  import opened HistogramMerge
  import opened HistogramOrder

  /** Bins below the maximum were made for a value, so they count something. */
  ghost predicate Counting(bins: seq<Bin>) {
    forall i :: 0 <= i < |bins| && bins[i].bound != MAX ==> bins[i].count > 0
  }

  lemma {:induction false} PlaceCounting(h: Hist, ub: Word, growOk: bool, i: nat)
    requires Ok(h) && Counting(h.bins) && i < |Place(h, ub, growOk).hist.bins|
    ensures var p := Place(h, ub, growOk);
            i != p.index && p.hist.bins[i].bound != MAX ==> p.hist.bins[i].count > 0
  {
    var p := Place(h, ub, growOk);
    if p.hist != h {
      var j := InsertAt(h.bins, ub);
      assert i < j ==> p.hist.bins[i] == h.bins[i];
      assert i > j ==> p.hist.bins[i] == h.bins[i - 1];
    }
  }

  lemma {:induction false} RecordCounting(h: Hist, n: nat, growOk: bool)
    requires Ok(h) && Counting(h.bins) && Mass(h.bins, Any()) + 1 < U32
    ensures Counting(Record(h, n, growOk).bins)
  {
    var p := Place(h, UpperBound(n), growOk);
    PlaceMass(h, UpperBound(n), growOk, Any());
    MassCountBound(p.hist.bins, p.index, Any());
    var bins := Record(h, n, growOk).bins;
    forall i | 0 <= i < |bins| && bins[i].bound != MAX ensures bins[i].count > 0 {
      PlaceCounting(h, UpperBound(n), growOk, i);
    }
  }

  /** This holds of every histogram that was only recorded to, while counts do not wrap. */
  lemma {:induction false} RecordsCounting(h: Hist, obs: seq<Observation>)
    requires Ok(h) && Counting(h.bins) && Mass(h.bins, Any()) + |obs| < U32
    ensures Counting(Records(h, obs).bins)
    decreases |obs|
  {
    hide Record, Mass, Any;
    if obs != [] {
      var o := obs[0];
      RecordsUnfold(h, obs);
      RecordCounting(h, o.value, o.growOk);
      RecordMass(h, o.value, o.growOk, Any());
      AnyHolds(CountedIn(h, o.value, o.growOk));
      RecordsCounting(Record(h, o.value, o.growOk), obs[1..]);
    }
  }

  /** The merged histogram counts under `b` what the sources count under bounds that are
      merged as `b`. */
  ghost predicate KeepsBound(out: Hist, srcs: seq<Hist>, b: Word)
    requires Ok(out)
  {
    Mass(Merge(out, srcs).bins, Exactly(b)) == MassOf(srcs, Lifted(Exactly(b)))
  }

  lemma {:induction false} AbsentMass(bins: seq<Bin>, b: Word)
    requires b !in BoundSet(bins)
    ensures Mass(bins, Exactly(b)) == 0
  {
    if bins != [] {
      assert bins[0].bound in BoundSet(bins);
      forall x | x in BoundSet(bins[1..]) ensures x in BoundSet(bins) {
        var i :| 0 <= i < |bins[1..]| && bins[1..][i].bound == x;
        assert bins[i + 1].bound == x;
      }
      AbsentMass(bins[1..], b);
    }
  }

  lemma {:induction false} TargetMass(bins: seq<Bin>, b: Word)
    requires Counting(bins) && b in Targets(bins) && b != MAX
    ensures Mass(bins, Lifted(Exactly(b))) > 0
  {
    var i :| 0 <= i < |bins| && UpperBound(bins[i].bound) == b;
    UpperBoundMeaning(bins[i].bound);
    assert Lifted(Exactly(b))(bins[i].bound);
    MassCountBound(bins, i, Lifted(Exactly(b)));
  }

  lemma {:induction false} TargetOfMass(srcs: seq<Hist>, b: Word)
    requires (forall i :: 0 <= i < |srcs| ==> Counting(srcs[i].bins)) && b in TargetsOf(srcs) && b != MAX
    ensures MassOf(srcs, Lifted(Exactly(b))) > 0
  {
    if b in Targets(srcs[0].bins) {
      TargetMass(srcs[0].bins, b);
    } else {
      TargetOfMass(srcs[1..], b);
    }
  }

  /** More bounds than bins: one of them is missing. */
  lemma {:induction false} Missing(all: set<Word>, some: set<Word>) returns (b: Word)
    requires |some| < |all|
    ensures b in all && b !in some
  {
    if all <= some {
      Subset(all, some);
      assert false;
    }
    b :| b in all && b !in some;
  }

  lemma {:induction false} NewBounds()
    ensures Ok(NewHist()) && BoundSet(NewHist().bins) == {MAX} && Mass(NewHist().bins, Any()) == 0
    ensures forall b: Word :: Mass(NewHist().bins, Exactly(b)) == 0
  {
    assert forall i, j :: SameBound(NewHist().bins, i, j) ==> i == j;
    assert NewHist().bins[0].bound in BoundSet(NewHist().bins);
    assert NewHist().bins[1..] == [];
  }

  /** A reload keeps the count under every bound, up to 2^31 that joins the maximum, if and
      only if the histograms of all workers have at most five different bounds, that of
      the maximum included. */
  lemma {:induction false} ReloadKeepsBoundsIff(srcs: seq<Hist>)
    requires forall i :: 0 <= i < |srcs| ==> Counting(srcs[i].bins)
    requires MassOf(srcs, Any()) < U32
    ensures Ok(NewHist())
    ensures (forall b: Word :: KeepsBound(NewHist(), srcs, b)) <==> |{MAX} + TargetsOf(srcs)| <= BINS_INIT
  {
    hide Mass, MassOf, Merge, TargetsOf, BoundSet, Ok, Exactly, Lifted;
    NewBounds();
    var all := {MAX as Word} + TargetsOf(srcs);
    if |all| <= BINS_INIT {
      forall b: Word ensures KeepsBound(NewHist(), srcs, b) {
        MergeExact(NewHist(), srcs, TargetsOf(srcs), Exactly(b));
      }
    } else {
      var merged := Merge(NewHist(), srcs);
      MergeConserves(NewHist(), srcs);
      FewBounds(merged);
      var b := Missing(all, BoundSet(merged.bins));
      AbsentMass(merged.bins, b);
      TargetOfMass(srcs, b);
      assert !KeepsBound(NewHist(), srcs, b);
    }
  }

  lemma {:induction false} FewBounds(h: Hist)
    requires Ok(h)
    ensures |BoundSet(h.bins)| <= h.cap && MAX in BoundSet(h.bins)
  {
    DistinctSize(h.bins);
    assert h.bins[|h.bins| - 1].bound in BoundSet(h.bins);
  }

  // -------------------------------------------------------------------- cases

  lemma {:induction false} PowersAreBounds()
    ensures UpperBound(1) == 1 && UpperBound(2) == 2 && UpperBound(4) == 4 && UpperBound(8) == 8
    ensures UpperBound(16) == 16 && UpperBound(MAX) == MAX
  {
    assert Pow2(0) == 1 && Pow2(1) == 2 && Pow2(2) == 4 && Pow2(3) == 8 && Pow2(4) == 16;
    BoundOfBound(1);
    BoundOfBound(2);
    BoundOfBound(4);
    BoundOfBound(8);
    BoundOfBound(16);
    BoundOfBound(MAX);
  }

  lemma {:induction false} FivePlaced(obs: seq<Observation>)
    requires |obs| == 5 && forall i :: 0 <= i < 5 ==> obs[i].growOk
    requires obs[0].value == 1 && obs[1].value == 2 && obs[2].value == 4 && obs[3].value == 8 && obs[4].value == 16
    ensures BoundsPlaced({MAX}, BINS_INIT, obs) == {MAX, 1, 2, 4, 8, 16}
  {
    PowersAreBounds();
    var o1, o2, o3, o4 := obs[1..], obs[1..][1..], obs[1..][1..][1..], obs[1..][1..][1..][1..];
    assert o4[1..] == [];
    assert BoundsPlaced({MAX, 1, 2, 4, 8}, BINS_INIT, o4) == {MAX, 1, 2, 4, 8, 16} by {
      assert |{MAX as Word, 1, 2, 4, 8}| == 5;
      assert {MAX as Word, 1, 2, 4, 8} + {16} == {MAX, 1, 2, 4, 8, 16};
    }
    assert BoundsPlaced({MAX, 1, 2, 4}, BINS_INIT, o3) == BoundsPlaced({MAX, 1, 2, 4, 8}, BINS_INIT, o4) by {
      assert |{MAX as Word, 1, 2, 4}| == 4;
      assert {MAX as Word, 1, 2, 4} + {8} == {MAX, 1, 2, 4, 8};
    }
    assert BoundsPlaced({MAX, 1, 2}, BINS_INIT, o2) == BoundsPlaced({MAX, 1, 2, 4}, BINS_INIT, o3) by {
      assert |{MAX as Word, 1, 2}| == 3;
      assert {MAX as Word, 1, 2} + {4} == {MAX, 1, 2, 4};
    }
    assert BoundsPlaced({MAX, 1}, BINS_INIT, o1) == BoundsPlaced({MAX, 1, 2}, BINS_INIT, o2) by {
      assert |{MAX as Word, 1}| == 2;
      assert {MAX as Word, 1} + {2} == {MAX, 1, 2};
    }
    assert BoundsPlaced({MAX}, BINS_INIT, obs) == BoundsPlaced({MAX, 1}, BINS_INIT, o1) by {
      assert {MAX as Word} + {1} == {MAX, 1};
    }
  }

  lemma {:induction false} FiveRecords(obs: seq<Observation>)
    requires |obs| == 5 && forall i :: 0 <= i < 5 ==> obs[i].growOk
    requires obs[0].value == 1 && obs[1].value == 2 && obs[2].value == 4 && obs[3].value == 8 && obs[4].value == 16
    ensures Ok(NewHist())
    ensures var bins := Records(NewHist(), obs).bins;
            Counting(bins) && Mass(bins, Any()) == 5 && BoundSet(bins) == {MAX, 1, 2, 4, 8, 16}
  {
    hide *;
    NewBounds();
    NewCounting();
    RecordsPlaced(NewHist(), obs);
    FivePlaced(obs);
    RecordsCounting(NewHist(), obs);
    RecordsExact(NewHist(), obs, Any());
    HitsAll(Bounds(NewHist(), obs));
  }

  lemma {:induction false} NewCounting()
    ensures Counting(NewHist().bins) && NewHist().cap == BINS_INIT && 5 < U32
  {
  }

  /** A reload that loses counts: one worker recorded 1, 2, 4, 8 and 16. */
  lemma {:induction false} ReloadLosesBound(obs: seq<Observation>) returns (b: Word)
    requires |obs| == 5 && forall i :: 0 <= i < 5 ==> obs[i].growOk
    requires obs[0].value == 1 && obs[1].value == 2 && obs[2].value == 4 && obs[3].value == 8 && obs[4].value == 16
    ensures Ok(NewHist()) && !KeepsBound(NewHist(), [Records(NewHist(), obs)], b)
  {
    FiveRecords(obs);
    b := SixAreTooMany(Records(NewHist(), obs));
  }

  lemma {:induction false} SixAreTooMany(h: Hist) returns (b: Word)
    requires Counting(h.bins) && Mass(h.bins, Any()) < U32 && BoundSet(h.bins) == {MAX, 1, 2, 4, 8, 16}
    ensures Ok(NewHist()) && !KeepsBound(NewHist(), [h], b)
  {
    hide Mass, MassOf, Merge, KeepsBound, Ok, BoundSet, Targets, Counting, TargetsOf;
    OneSource(h);
    SixTargets(h);
    ReloadKeepsBoundsIff([h]);
    b :| !KeepsBound(NewHist(), [h], b);
  }

  lemma {:induction false} OneSource(h: Hist)
    ensures TargetsOf([h]) == Targets(h.bins) && MassOf([h], Any()) == Mass(h.bins, Any())
  {
    assert [h][1..] == [];
  }

  lemma {:induction false} SixTargets(h: Hist)
    requires BoundSet(h.bins) == {MAX, 1, 2, 4, 8, 16}
    ensures |{MAX} + Targets(h.bins)| > BINS_INIT
  {
    PowersAreBounds();
    forall b | b in BoundSet(h.bins) ensures b in Targets(h.bins) {
      var i :| 0 <= i < |h.bins| && h.bins[i].bound == b;
      assert UpperBound(h.bins[i].bound) == b;
    }
    var six := {MAX as Word, 1, 2, 4, 8, 16};
    assert |six| == 6;
    Subset(six, {MAX} + Targets(h.bins));
  }

  lemma {:induction false} AtTheTop()
    ensures UpperBound(0x4000_0001) == 0x8000_0000 && LogBound(0x8000_0000)
  {
    hide Pow2, BitLength;
    Pow2At31();
    BitLengthBounds(0x4000_0000);
    var k := BitLength(0x4000_0000);
    Pow2Reflects(30, k);
    if k > 31 { Pow2Monotone(31, k - 1); }
    assert k == 31;
  }

  /** What was counted under 2^31 is counted under the maximum after a reload. */
  lemma {:induction false} TopJoinsMaximum(h: Hist)
    requires h == Record(NewHist(), 0x4000_0001, true)
    ensures Ok(NewHist())
    ensures Mass(h.bins, Exactly(0x8000_0000)) == 1 && Mass(h.bins, Exactly(MAX)) == 0
    ensures var merged := Merge(NewHist(), [h]).bins;
            Mass(merged, Exactly(0x8000_0000)) == 0 && Mass(merged, Exactly(MAX)) == 1
  {
    NewBounds();
    OneAtTheTop(h);
    OneSource(h);
    JoinedMass(h);
    MergeExactPerBound(NewHist(), [h], {MAX}, 0x8000_0000);
    MergeExactPerBound(NewHist(), [h], {MAX}, MAX);
  }

  lemma {:induction false} OneAtTheTop(h: Hist)
    requires h == Record(NewHist(), 0x4000_0001, true)
    ensures h.bins == [Bin(0x8000_0000, 1), Bin(MAX, 0)] && LogBins(h.bins)
    ensures Targets(h.bins) == {MAX}
  {
    AtTheTop();
    var b := NewHist().bins;
    assert IndexOf(b, 0x8000_0000) == 1;
    assert Place(NewHist(), 0x8000_0000, true).hist.bins == [Bin(0x8000_0000, 0), Bin(MAX, 0)];
    BoundOfBound(0x8000_0000);
    BoundOfBound(MAX);
    assert UpperBound(h.bins[0].bound) == MAX && UpperBound(h.bins[1].bound) == MAX;
  }

  lemma {:induction false} JoinedMass(h: Hist)
    requires h.bins == [Bin(0x8000_0000, 1), Bin(MAX, 0)]
    ensures Mass(h.bins, Any()) == 1 && Mass(h.bins, Exactly(0x8000_0000)) == 1 && Mass(h.bins, Exactly(MAX)) == 0
    ensures MassOf([h], Exactly(0x8000_0000)) == 1 && MassOf([h], Exactly(MAX)) == 0
  {
    var rest := h.bins[1..];
    assert rest == [Bin(MAX, 0)] && rest[1..] == [] && [h][1..] == [];
    assert Mass(rest, Any()) == 0 && Mass(rest, Exactly(0x8000_0000)) == 0 && Mass(rest, Exactly(MAX)) == 0;
  }
}

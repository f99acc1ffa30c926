/** The order of the bins of a histogram: which bins are sorted, when all are, and which
    bin counts a value for which there is no room. */
module HistogramOrder {
  import opened Bytes
  import opened Histogram
  import opened HistogramRuns
  import opened HistogramMerge

  ghost predicate InOrder(bins: seq<Bin>, i: nat, j: nat) {
    i < j < |bins| ==> bins[i].bound < bins[j].bound
  }

  /** All bins behind the first one are in order. */
  ghost predicate TailSorted(bins: seq<Bin>) {
    forall i: nat, j: nat :: i > 0 ==> InOrder(bins, i, j)
  }

  ghost predicate Sorted(bins: seq<Bin>) {
    forall i: nat, j: nat :: InOrder(bins, i, j)
  }

  lemma {:induction false} FirstAboveIs(bins: seq<Bin>, ub: Word, i: nat, k: nat)
    requires i < |bins| && bins[|bins| - 1].bound > ub && i <= k < FirstAbove(bins, ub, i)
    ensures bins[k].bound <= ub
    decreases |bins| - i
  {
    if i < k { FirstAboveIs(bins, ub, i + 1, k); }
  }

  /** The place for a new bin behind the first one: all before it are smaller, all from it
      on are larger. */
  lemma {:induction false} InsertAtSplits(bins: seq<Bin>, ub: Word, k: nat)
    requires |bins| > 1 && bins[|bins| - 1].bound > ub && IndexOf(bins, ub) == |bins| && TailSorted(bins)
    requires 1 <= k < |bins|
    ensures var j := InsertAt(bins, ub); j >= 1 && (if k < j then bins[k].bound < ub else bins[k].bound > ub)
  {
    var j := InsertAt(bins, ub);
    if k < j {
      FirstAboveIs(bins, ub, 1, k);
      IndexOfFinds(bins, k);
    } else if j < k {
      assert InOrder(bins, j, k);
    }
  }

  lemma {:induction false} InsertSorted(bins: seq<Bin>, ub: Word)
    requires bins != [] && bins[|bins| - 1].bound > ub && IndexOf(bins, ub) == |bins| && TailSorted(bins)
    ensures var j := InsertAt(bins, ub); TailSorted(bins[..j] + [Bin(ub, 0)] + bins[j..])
  {
    var j := InsertAt(bins, ub);
    var r := bins[..j] + [Bin(ub, 0)] + bins[j..];
    if |bins| > 1 {
      forall a: nat, b: nat | a > 0 ensures InOrder(r, a, b) {
        if a < b < |r| {
          if a == j {
            InsertAtSplits(bins, ub, b - 1);
          } else if b == j {
            InsertAtSplits(bins, ub, a);
          } else {
            var a', b' := if a < j then a else a - 1, if b < j then b else b - 1;
            if a' == b' { InsertAtSplits(bins, ub, a); }
            assert InOrder(bins, a', b');
          }
        }
      }
    }
  }

  /** Placing a value keeps the bins behind the first one sorted, and never touches the
      first one once there are two. */
  lemma {:induction false} PlaceSorted(h: Hist, ub: Word, growOk: bool)
    requires Ok(h) && TailSorted(h.bins)
    ensures var p := Place(h, ub, growOk);
            && TailSorted(p.hist.bins)
            && (|h.bins| > 1 ==> p.hist.bins[0] == h.bins[0])
            && (|h.bins| == 1 && |p.hist.bins| > 1 ==> p.hist.bins[0].bound == ub)
            && |p.hist.bins| >= |h.bins|
  {
    if IndexOf(h.bins, ub) == |h.bins| {
      InsertSorted(h.bins, ub);
      if |h.bins| > 1 { InsertAtSplits(h.bins, ub, 1); }
    }
  }

  /** Which bin counts a value when there is no room for its own: the least larger bound
      among the bins behind the first. */
  lemma {:induction false} NextClosestBin(h: Hist, n: nat, growOk: bool, k: nat)
    requires Ok(h) && TailSorted(h.bins) && |h.bins| > 1 && 1 <= k < |h.bins|
    requires IndexOf(h.bins, UpperBound(n)) == |h.bins| && |h.bins| == h.cap && (growOk ==> h.cap == BINS_MAX)
    ensures var p := Place(h, UpperBound(n), growOk);
            && p.hist == h && 1 <= p.index && CountedIn(h, n, growOk) == h.bins[p.index].bound > UpperBound(n)
            && (h.bins[k].bound > UpperBound(n) ==> CountedIn(h, n, growOk) <= h.bins[k].bound)
  {
    var ub := UpperBound(n);
    var j := InsertAt(h.bins, ub);
    InsertAtSplits(h.bins, ub, k);
    if j < k { assert InOrder(h.bins, j, k); }
  }

  // -------------------------------------------------------------------- runs

  lemma {:induction false} AddToSorted(h: Hist, i: nat, d: nat)
    requires i < |h.bins| && TailSorted(h.bins)
    ensures TailSorted(AddTo(h, i, d).bins)
  {
    var bins := AddTo(h, i, d).bins;
    forall a: nat, b: nat | a > 0 ensures InOrder(bins, a, b) { assert InOrder(h.bins, a, b); }
  }

  lemma {:induction false} RecordSorted(h: Hist, n: nat, growOk: bool)
    requires Ok(h) && TailSorted(h.bins)
    ensures var h' := Record(h, n, growOk);
            && TailSorted(h'.bins) && |h'.bins| >= |h.bins|
            && (|h.bins| > 1 ==> h'.bins[0].bound == h.bins[0].bound)
            && (|h.bins| == 1 && |h'.bins| > 1 ==> h'.bins[0].bound == UpperBound(n))
  {
    PlaceSorted(h, UpperBound(n), growOk);
    var p := Place(h, UpperBound(n), growOk);
    AddToSorted(p.hist, p.index, 1);
  }

  /** Over every run of records: the bins behind the first one stay sorted, and the first
      one stays what it is. */
  lemma {:induction false} RecordsSorted(h: Hist, obs: seq<Observation>)
    requires Ok(h) && TailSorted(h.bins)
    ensures var h' := Records(h, obs);
            && TailSorted(h'.bins) && |h'.bins| >= |h.bins| > 0
            && (|h.bins| > 1 ==> h'.bins[0].bound == h.bins[0].bound)
    decreases |obs|
  {
    hide Record, TailSorted;
    if obs != [] {
      var h1 := Record(h, obs[0].value, obs[0].growOk);
      RecordsUnfold(h, obs);
      RecordSorted(h, obs[0].value, obs[0].growOk);
      RecordsSorted(h1, obs[1..]);
    }
  }

  /** The index of the first value that is not counted under the maximum. */
  ghost function FirstOf(obs: seq<Observation>): (f: nat)
    ensures f <= |obs|
    ensures f < |obs| ==> UpperBound(obs[f].value) < MAX
  {
    if obs == [] || UpperBound(obs[0].value) != MAX then 0 else 1 + FirstOf(obs[1..])
  }

  /** Only the bin of the maximum, and room for another one. */
  ghost predicate Fresh(h: Hist) {
    Ok(h) && |h.bins| == 1 && h.cap > 1
  }

  lemma {:induction false} FirstRecord(h: Hist, n: nat, growOk: bool)
    requires Fresh(h)
    ensures var h' := Record(h, n, growOk);
            && (UpperBound(n) == MAX ==> Fresh(h'))
            && (UpperBound(n) != MAX ==> |h'.bins| > 1 && h'.bins[0].bound == UpperBound(n))
            && CountedIn(h, n, growOk) == UpperBound(n)
  {
    RecordOk(h, n, growOk);
    if UpperBound(n) == MAX {
      IndexOfFinds(h.bins, 0);
    } else {
      assert IndexOf(h.bins, UpperBound(n)) == 1;
    }
  }

  lemma {:induction false} OneBinSorted(bins: seq<Bin>)
    requires |bins| <= 1
    ensures Sorted(bins) && TailSorted(bins)
  {
  }

  /** The first bin is that of the first value below the maximum. */
  lemma {:induction false} FirstBin(h: Hist, obs: seq<Observation>)
    requires Fresh(h)
    ensures var bins, f := Records(h, obs).bins, FirstOf(obs);
            && f <= |obs|
            && (f == |obs| ==> |bins| == 1)
            && (f < |obs| ==> |bins| > 1 && bins[0].bound == UpperBound(obs[f].value))
    decreases |obs|
  {
    hide Record, TailSorted, Sorted;
    if obs != [] {
      var h1 := Record(h, obs[0].value, obs[0].growOk);
      RecordsUnfold(h, obs);
      FirstRecord(h, obs[0].value, obs[0].growOk);
      if UpperBound(obs[0].value) == MAX {
        FirstBin(h1, obs[1..]);
      } else {
        OneBinSorted(h.bins);
        RecordSorted(h, obs[0].value, obs[0].growOk);
        RecordsSorted(h1, obs[1..]);
      }
    }
  }

  /** With the rest in order, all bins are sorted if the first one is the least. */
  lemma {:induction false} SortedIfFirstLeast(bins: seq<Bin>)
    requires bins != [] && Distinct(bins) && TailSorted(bins)
    ensures Sorted(bins) <==> forall b :: b in BoundSet(bins) ==> bins[0].bound <= b
  {
    if Sorted(bins) {
      forall b | b in BoundSet(bins) ensures bins[0].bound <= b {
        var i :| 0 <= i < |bins| && bins[i].bound == b;
        assert InOrder(bins, 0, i);
      }
    }
    if forall b :: b in BoundSet(bins) ==> bins[0].bound <= b {
      forall i: nat, j: nat ensures InOrder(bins, i, j) {
        if i == 0 && 0 < j < |bins| {
          assert bins[j].bound in BoundSet(bins);
          assert !SameBound(bins, 0, j);
        }
      }
    }
  }

  /** The bounds that get a bin of their own, told from the values and the allocator: each
      new one does while there is room, or room is made. */
  ghost function BoundsPlaced(bounds: set<Word>, cap: nat, obs: seq<Observation>): set<Word>
    decreases |obs|
  {
    if obs == [] then bounds
    else
      var b, rest := UpperBound(obs[0].value), obs[1..];
      if b in bounds then BoundsPlaced(bounds, cap, rest)
      else if |bounds| < cap then BoundsPlaced(bounds + {b}, cap, rest)
      else if obs[0].growOk && cap < BINS_MAX then BoundsPlaced(bounds + {b}, cap + Increment(cap), rest)
      else BoundsPlaced(bounds, cap, rest)
  }

  lemma {:induction false} RecordPlaced(h: Hist, n: nat, growOk: bool)
    requires Ok(h)
    ensures var b, h', bs := UpperBound(n), Record(h, n, growOk), BoundSet(h.bins);
            if b in bs then BoundSet(h'.bins) == bs && h'.cap == h.cap
            else if |bs| < h.cap then BoundSet(h'.bins) == bs + {b} && h'.cap == h.cap
            else if growOk && h.cap < BINS_MAX then
              BoundSet(h'.bins) == bs + {b} && h'.cap == h.cap + Increment(h.cap)
            else BoundSet(h'.bins) == bs && h'.cap == h.cap
  {
    var b := UpperBound(n);
    var p := Place(h, b, growOk);
    DistinctSize(h.bins);
    BoundSetAddTo(p.hist, p.index, 1);
    if IndexOf(h.bins, b) == |h.bins| {
      AbsentBound(h.bins, b);
      BoundSetInsert(h.bins, InsertAt(h.bins, b), b);
    } else {
      assert h.bins[IndexOf(h.bins, b)].bound in BoundSet(h.bins);
    }
  }

  /** These are the bounds in use. */
  lemma {:induction false} RecordsPlaced(h: Hist, obs: seq<Observation>)
    requires Ok(h)
    ensures BoundSet(Records(h, obs).bins) == BoundsPlaced(BoundSet(h.bins), h.cap, obs)
    decreases |obs|
  {
    hide Record, BoundSet, Ok;
    if obs != [] {
      RecordsUnfold(h, obs);
      RecordPlaced(h, obs[0].value, obs[0].growOk);
      RecordsPlaced(Record(h, obs[0].value, obs[0].growOk), obs[1..]);
    }
  }

  /** Exactly when the bins of a histogram are sorted, for every run of records: when no
      value is below the maximum, or no bound below that of the first such value got a bin
      of its own. */
  lemma {:induction false} SortedIff(obs: seq<Observation>)
    ensures Fresh(NewHist())
    ensures Sorted(Records(NewHist(), obs).bins) <==>
            || FirstOf(obs) == |obs|
            || forall b :: b in BoundsPlaced({MAX}, BINS_INIT, obs) ==> UpperBound(obs[FirstOf(obs)].value) <= b
  {
    hide Sorted, TailSorted, Records, BoundsPlaced, FirstOf, BoundSet;
    NewIsFresh();
    var bins, f := Records(NewHist(), obs).bins, FirstOf(obs);
    FirstBin(NewHist(), obs);
    OneBinSorted(NewHist().bins);
    RecordsSorted(NewHist(), obs);
    RecordsKeep(NewHist(), obs);
    if f == |obs| {
      OneBinSorted(bins);
    } else {
      SortedIfFirstLeast(bins);
      RecordsPlaced(NewHist(), obs);
    }
  }

  lemma {:induction false} NewIsFresh()
    ensures Fresh(NewHist()) && BoundSet(NewHist().bins) == {MAX}
  {
    assert forall i, j :: SameBound(NewHist().bins, i, j) ==> i == j;
    assert NewHist().bins[0].bound in BoundSet(NewHist().bins);
  }

  // ------------------------------------------------------------------ merges

  lemma {:induction false} MergeBinsSorted(out: Hist, bins: seq<Bin>)
    requires Ok(out) && TailSorted(out.bins)
    ensures TailSorted(MergeBins(out, bins).bins)
    decreases |bins|
  {
    hide TailSorted, Place;
    if bins != [] {
      var p := Place(out, UpperBound(bins[0].bound), false);
      PlaceSorted(out, UpperBound(bins[0].bound), false);
      AddToSorted(p.hist, p.index, bins[0].count);
      MergeBinOk(out, bins[0]);
      MergeBinsSorted(MergeBin(out, bins[0]), bins[1..]);
    }
  }

  /** Merging keeps the bins behind the first one sorted as well. */
  lemma {:induction false} MergeSorted(out: Hist, srcs: seq<Hist>)
    requires Ok(out) && TailSorted(out.bins)
    ensures TailSorted(Merge(out, srcs).bins)
    decreases |srcs|
  {
    hide TailSorted, MergeBins;
    if srcs != [] {
      MergeStep(out, srcs);
      MergeBinsSorted(out, srcs[0].bins);
      MergeBinsOk(out, srcs[0].bins);
      MergeSorted(MergeFirst(out, srcs[0]), srcs[1..]);
    }
  }
}

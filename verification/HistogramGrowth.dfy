/** How the array of bins grows: the number of bins allocated, told from the number in use,
    and which values get a bin of their own. */
module HistogramGrowth {
  import opened Bytes
  import opened Histogram
  import opened HistogramRuns
  import opened HistogramMerge
  import opened HistogramOrder

  /** The bins allocated while memory is always found: first five, then four more each time
      that they are all in use, and never more than 18. */
  function Allocated(used: nat): nat {
    if used <= 5 then 5
    else if used <= 9 then 9
    else if used <= 13 then 13
    else if used <= 17 then 17
    else 18
  }

  ghost predicate MemoryFound(obs: seq<Observation>) {
    forall i :: 0 <= i < |obs| ==> obs[i].growOk
  }

  /** The bounds of the values. */
  ghost function Asked(obs: seq<Observation>): set<Word> {
    set i | 0 <= i < |obs| :: UpperBound(obs[i].value)
  }

  lemma {:induction false} AskedCons(obs: seq<Observation>)
    requires obs != []
    ensures Asked(obs) == {UpperBound(obs[0].value)} + Asked(obs[1..])
    ensures MemoryFound(obs) ==> obs[0].growOk && MemoryFound(obs[1..])
  {
    assert forall i :: 1 <= i < |obs| ==> obs[i] == obs[1..][i - 1];
  }

  lemma {:induction false} RecordGrows(h: Hist, n: nat)
    requires Ok(h) && h.cap == Allocated(|h.bins|)
    ensures var h', b, bs := Record(h, n, true), UpperBound(n), BoundSet(h.bins);
            && Ok(h') && h'.cap == Allocated(|h'.bins|)
            && BoundSet(h'.bins) == (if b in bs || |bs| < 18 then bs + {b} else bs)
            && |bs| == |h.bins| <= 18
  {
    hide Record, BoundSet, Distinct;
    RecordOk(h, n, true);
    RecordPlaced(h, n, true);
    DistinctSize(h.bins);
    DistinctSize(Record(h, n, true).bins);
    assert UpperBound(n) in BoundSet(h.bins) ==> BoundSet(h.bins) + {UpperBound(n)} == BoundSet(h.bins);
  }

  /** The bins in use are at most those, and all of those that there is room for. */
  ghost predicate OwnBins(got: set<Word>, asked: set<Word>) {
    got <= asked && |got| == if |asked| <= 18 then |asked| else 18
  }

  lemma {:induction false} RecordsGrow(h: Hist, obs: seq<Observation>)
    requires Ok(h) && h.cap == Allocated(|h.bins|) && MemoryFound(obs)
    ensures var h' := Records(h, obs);
            && h'.cap == Allocated(|h'.bins|)
            && OwnBins(BoundSet(h'.bins), BoundSet(h.bins) + Asked(obs))
    decreases |obs|
  {
    hide Record, BoundSet, Asked, MemoryFound, Ok;
    if obs == [] {
      NoneAsked(h);
    } else {
      var b, h1 := UpperBound(obs[0].value), Record(h, obs[0].value, true);
      var bs, rest := BoundSet(h.bins), Asked(obs[1..]);
      AskedCons(obs);
      RecordsUnfold(h, obs);
      RecordGrows(h, obs[0].value);
      RecordsGrow(h1, obs[1..]);
      assert bs + ({b} + rest) == (bs + {b}) + rest;
      if b !in bs && |bs| >= 18 {
        FullStays(BoundSet(Records(h, obs).bins), bs, {b}, rest);
      }
    }
  }

  lemma {:induction false} NoneAsked(h: Hist)
    requires Ok(h)
    ensures OwnBins(BoundSet(h.bins), BoundSet(h.bins) + Asked([]))
  {
    DistinctSize(h.bins);
    assert BoundSet(h.bins) + Asked([]) == BoundSet(h.bins);
  }

  lemma {:induction false} FullStays(got: set<Word>, bs: set<Word>, b: set<Word>, rest: set<Word>)
    requires OwnBins(got, bs + rest) && |bs| >= 18
    ensures OwnBins(got, (bs + b) + rest)
  {
    Within(bs, bs + rest);
    Within(bs, (bs + b) + rest);
  }

  lemma {:induction false} Within(a: set<Word>, b: set<Word>)
    requires a <= b
    ensures |a| <= |b|
  {
    if a != {} {
      var x :| x in a;
      Within(a - {x}, b - {x});
    }
  }

  lemma {:induction false} SubsetIsAll(a: set<Word>, b: set<Word>)
    requires a <= b && |a| == |b|
    ensures a == b
  {
    if b - a != {} {
      var x :| x in b - a;
      Within(a, b - {x});
    }
  }

  /** While memory is found, for every run of records of a new histogram: five bins are
      allocated, and four more whenever they are all in use, up to 18; and the maximum
      and every bound that occurs has a bin of its own if and only if there are no more
      than 18 of them.  Otherwise 18 of them have. */
  lemma {:induction false} OwnBinsIff(obs: seq<Observation>)
    requires MemoryFound(obs)
    ensures Ok(NewHist())
    ensures var h, asked := Records(NewHist(), obs), {MAX} + Asked(obs);
            && h.cap == Allocated(|h.bins|)
            && (BoundSet(h.bins) == asked <==> |asked| <= 18)
            && (|asked| > 18 ==> |h.bins| == 18 && BoundSet(h.bins) <= asked)
  {
    hide Records, BoundSet, Asked, MemoryFound;
    NewIsFresh();
    RecordsGrow(NewHist(), obs);
    RecordsKeep(NewHist(), obs);
    var h, asked := Records(NewHist(), obs), {MAX} + Asked(obs);
    DistinctSize(h.bins);
    if |asked| <= 18 { SubsetIsAll(BoundSet(h.bins), asked); }
  }
}

/** Runs of records on one histogram, and merges of the histograms of several workers. */
module HistogramRuns {
  import opened Bytes
  import opened SlabClasses
  import opened Histogram
  import opened HistogramMass

  // ----------------------------------------------------------------- records

  /** A recorded value, and whether memory for a larger array would be obtained. */
  datatype Observation = Observation(value: nat, growOk: bool)

  lemma {:induction false} AddToOk(h: Hist, i: nat, d: nat)
    requires Ok(h) && i < |h.bins|
    ensures Ok(AddTo(h, i, d))
  {
    var h' := AddTo(h, i, d);
    assert forall a, b :: SameBound(h'.bins, a, b) ==> SameBound(h.bins, a, b);
  }

  lemma {:induction false} RecordOk(h: Hist, n: nat, growOk: bool)
    requires Ok(h)
    ensures Ok(Record(h, n, growOk))
  {
    PlaceInv(h, UpperBound(n), growOk);
    var p := Place(h, UpperBound(n), growOk);
    AddToOk(p.hist, p.index, 1);
  }

  /** The histogram after recording `obs`. */
  ghost function Records(h: Hist, obs: seq<Observation>): (r: Hist)
    requires Ok(h)
    decreases |obs|
  {
    if obs == [] then h
    else
      RecordOk(h, obs[0].value, obs[0].growOk);
      Records(Record(h, obs[0].value, obs[0].growOk), obs[1..])
  }

  /** For each observation, the bound of the bin that counted it. */
  ghost function Bounds(h: Hist, obs: seq<Observation>): (r: seq<Word>)
    requires Ok(h)
    ensures |r| == |obs|
    decreases |obs|
  {
    if obs == [] then []
    else
      RecordOk(h, obs[0].value, obs[0].growOk);
      [CountedIn(h, obs[0].value, obs[0].growOk)]
      + Bounds(Record(h, obs[0].value, obs[0].growOk), obs[1..])
  }

  lemma {:induction false} RecordsUnfold(h: Hist, obs: seq<Observation>)
    requires Ok(h) && obs != []
    ensures var h1 := Record(h, obs[0].value, obs[0].growOk);
            && Ok(h1)
            && Records(h, obs) == Records(h1, obs[1..])
            && Bounds(h, obs) == [CountedIn(h, obs[0].value, obs[0].growOk)] + Bounds(h1, obs[1..])
            && h1.sum == Wrap64(h.sum + obs[0].value)
            && Values(obs) == obs[0].value + Values(obs[1..])
  {
    RecordOk(h, obs[0].value, obs[0].growOk);
  }

  lemma {:induction false} RecordsNone(h: Hist)
    requires Ok(h)
    ensures Records(h, []) == h && Bounds(h, []) == [] && Values([]) == 0
    ensures h.sum < U64 ==> Wrap64(h.sum + Values([])) == h.sum
    ensures forall p :: Hits([], p) == 0
  {
  }

  lemma {:induction false} AnyHolds(b: nat)
    ensures Any()(b)
  {
  }

  lemma {:induction false} HitsCons(b: Word, bs: seq<Word>, p: nat -> bool)
    ensures Hits([b] + bs, p) == (if p(b) then 1 else 0) + Hits(bs, p)
  {
    assert ([b] + bs)[1..] == bs;
  }

  /** Number of bounds that satisfy `p`. */
  function Hits(bs: seq<Word>, p: nat -> bool): nat {
    if bs == [] then 0 else (if p(bs[0]) then 1 else 0) + Hits(bs[1..], p)
  }

  function Values(obs: seq<Observation>): nat {
    if obs == [] then 0 else obs[0].value + Values(obs[1..])
  }

  /** One record: the count of the bin of `CountedIn` goes up by one. */
  lemma {:induction false} RecordMass(h: Hist, n: nat, growOk: bool, p: nat -> bool)
    requires Ok(h)
    ensures var d := if p(CountedIn(h, n, growOk)) then 1 else 0;
            var h' := Record(h, n, growOk);
            && Wrap32(Mass(h'.bins, p)) == Wrap32(Mass(h.bins, p) + d)
            && (Mass(h.bins, Any()) + 1 < U32 ==> Mass(h'.bins, p) == Mass(h.bins, p) + d)
  {
    var placed := Place(h, UpperBound(n), growOk);
    PlaceMass(h, UpperBound(n), growOk, p);
    PlaceMass(h, UpperBound(n), growOk, Any());
    assert Record(h, n, growOk).bins == AddTo(placed.hist, placed.index, 1).bins;
    assert CountedIn(h, n, growOk) == placed.hist.bins[placed.index].bound;
    assert Any()(placed.hist.bins[placed.index].bound);
    hide *;
    MassCountBound(placed.hist.bins, placed.index, Any());
    AddToMass(placed.hist, placed.index, 1, p);
  }

  /** A value is counted under a bound that is not below it. */
  lemma {:induction false} RecordBound(h: Hist, n: nat, growOk: bool)
    requires Ok(h)
    ensures CountedIn(h, n, growOk) >= (if n <= MAX then n else MAX)
  {
    PlaceInv(h, UpperBound(n), growOk);
    UpperBoundMeaning(n);
  }

  /** Any sequence of records, with growth failing at any point: bounds stay distinct
      and the bin of the maximum last, the array never exceeds 18 bins, and every value
      that fits 32 bits was counted in a bin whose bound is not below it. */
  lemma {:induction false} RecordsKeep(h: Hist, obs: seq<Observation>)
    requires Ok(h)
    ensures Ok(Records(h, obs))
    ensures forall k :: 0 <= k < |obs| ==> Bounds(h, obs)[k] >= (if obs[k].value <= MAX then obs[k].value else MAX)
    decreases |obs|
  {
    hide *;
    if obs == [] {
      RecordsNone(h);
      return;
    }
    var o := obs[0];
    var h1 := Record(h, o.value, o.growOk);
    RecordsUnfold(h, obs);
    RecordBound(h, o.value, o.growOk);
    RecordsKeep(h1, obs[1..]);
    var bs, bs1 := Bounds(h, obs), Bounds(h1, obs[1..]);
    assert forall k :: 0 < k < |obs| ==> bs[k] == bs1[k - 1] && obs[k] == obs[1..][k - 1];
  }

  /** The sum is the sum of the values, as a 64-bit counter. */
  lemma {:induction false} RecordsSum(h: Hist, obs: seq<Observation>)
    requires Ok(h) && h.sum < U64
    ensures Records(h, obs).sum == Wrap64(h.sum + Values(obs))
    decreases |obs|
  {
    hide *;
    if obs == [] {
      RecordsNone(h);
      return;
    }
    var o := obs[0];
    var h1 := Record(h, o.value, o.growOk);
    RecordsUnfold(h, obs);
    RecordsSum(h1, obs[1..]);
    Wrap64Add(Values(obs[1..]), h.sum + o.value);
  }

  /** The counts are the numbers of values counted under each bound, or under any set
      of bounds, as 32-bit counters. */
  lemma {:induction false} RecordsCount(h: Hist, obs: seq<Observation>, p: nat -> bool)
    requires Ok(h)
    ensures Wrap32(Mass(Records(h, obs).bins, p)) == Wrap32(Mass(h.bins, p) + Hits(Bounds(h, obs), p))
    decreases |obs|
  {
    hide *;
    if obs == [] {
      RecordsNone(h);
      return;
    }
    var o := obs[0];
    var h1 := Record(h, o.value, o.growOk);
    RecordsUnfold(h, obs);
    var b, bs1 := CountedIn(h, o.value, o.growOk), Bounds(h1, obs[1..]);
    RecordMass(h, o.value, o.growOk, p);
    RecordsCount(h1, obs[1..], p);
    HitsCons(b, bs1, p);
    Wrap32Chain(Mass(h.bins, p), Mass(h1.bins, p), if p(b) then 1 else 0, Hits(bs1, p));
  }

  lemma {:induction false} Wrap32Chain(a: nat, b: nat, d: nat, x: nat)
    requires Wrap32(b) == Wrap32(a + d)
    ensures Wrap32(b + x) == Wrap32(a + (d + x))
  {
    Wrap32Add(x, b);
    Wrap32Add(x, a + d);
  }

  /** While nothing overflows, the counts are exact. */
  lemma {:induction false} RecordsExact(h: Hist, obs: seq<Observation>, p: nat -> bool)
    requires Ok(h) && Mass(h.bins, Any()) + |obs| < U32
    ensures Mass(Records(h, obs).bins, p) == Mass(h.bins, p) + Hits(Bounds(h, obs), p)
    decreases |obs|
  {
    hide *;
    if obs == [] {
      RecordsNone(h);
      return;
    }
    var o := obs[0];
    var h1 := Record(h, o.value, o.growOk);
    RecordsUnfold(h, obs);
    RecordMass(h, o.value, o.growOk, p);
    RecordMass(h, o.value, o.growOk, Any());
    AnyHolds(CountedIn(h, o.value, o.growOk));
    RecordsExact(h1, obs[1..], p);
    HitsCons(CountedIn(h, o.value, o.growOk), Bounds(h1, obs[1..]), p);
  }

  lemma {:induction false} HitsAll(bs: seq<Word>)
    ensures Hits(bs, Any()) == |bs|
  {
    if bs != [] { HitsAll(bs[1..]); }
  }

  /** From a new histogram, the counts add up to the number of records. */
  lemma {:induction false} CountsAddUp(obs: seq<Observation>)
    requires |obs| < U32
    ensures Mass(Records(NewHist(), obs).bins, Any()) == |obs|
  {
    assert [Bin(MAX, 0)][1..] == [];
    assert Mass(NewHist().bins, Any()) == 0;
    RecordsExact(NewHist(), obs, Any());
    HitsAll(Bounds(NewHist(), obs));
  }

  lemma {:induction false} SmallBounds()
    ensures UpperBound(3) == 4 && UpperBound(2) == 2
  {
    assert BitLength(1) == 1 + BitLength(0) == 1;
    assert BitLength(2) == 1 + BitLength(1);
    assert Pow2(1) == 2 && Pow2(2) == 4;
  }

  lemma {:induction false} RecordThree()
    ensures Record(NewHist(), 3, true) == Hist([Bin(4, 1), Bin(MAX, 0)], BINS_INIT, 3)
  {
    SmallBounds();
    var h := NewHist();
    assert IndexOf(h.bins, 4) == 1;
    assert Place(h, 4, true).hist.bins == [Bin(4, 0), Bin(MAX, 0)];
  }

  lemma {:induction false} RecordTwo()
    ensures Record(Hist([Bin(4, 1), Bin(MAX, 0)], BINS_INIT, 3), 2, true)
            == Hist([Bin(4, 1), Bin(2, 1), Bin(MAX, 0)], BINS_INIT, 5)
  {
    SmallBounds();
    var h := Hist([Bin(4, 1), Bin(MAX, 0)], BINS_INIT, 3);
    assert IndexOf(h.bins, 2) == 2;
    assert InsertAt(h.bins, 2) == 1;
    assert Place(h, 2, true).hist.bins == [Bin(4, 1), Bin(2, 0), Bin(MAX, 0)];
  }

  /** The bins are not kept in order: after recording 3 and then 2, the bin of 2 lies
      behind the bin of 4. */
  lemma {:induction false} BinsNotSorted()
    ensures Record(Record(NewHist(), 3, true), 2, true).bins == [Bin(4, 1), Bin(2, 1), Bin(MAX, 0)]
  {
    RecordThree();
    RecordTwo();
  }
}

/** Metrics: per-worker slots of counters, gauges and histograms, what reading them
    means, and the rebuilding of all metrics for another number of workers. */
module Metrics {
  import opened Bytes
  import opened Histogram
  import opened HistogramMass
  import opened HistogramRuns
  import opened HistogramMerge

  datatype Gauge = Gauge(value: nat, lastUpdate: nat)

  /** One slot per worker. */
  datatype Metric =
    | Counter(counters: seq<nat>)
    | GaugeMetric(gauges: seq<Gauge>)
    | HistMetric(hists: seq<Hist>)

  // ----------------------------------------------------------------- reading

  /** Sum of the workers' counters, as a 64-bit counter. */
  function CounterTotal(cs: seq<nat>): nat {
    if cs == [] then 0 else cs[0] + CounterTotal(cs[1..])
  }

  method GetCounter(cs: seq<nat>) returns (val: nat)
    ensures val == Wrap64(CounterTotal(cs))
  {
    val := 0;
    assert cs[0..] == cs;
    for i := 0 to |cs|
      invariant Wrap64(val + CounterTotal(cs[i..])) == Wrap64(CounterTotal(cs)) && val < U64
    {
      assert cs[i..][1..] == cs[i + 1..];
      Wrap64Add(CounterTotal(cs[i + 1..]), val + cs[i]);
      val := Wrap64(val + cs[i]);
    }
  }

  /** The slot read for a gauge: the first of those updated last. */
  ghost predicate Latest(gs: seq<Gauge>, k: nat) {
    && k < |gs|
    && (forall i :: 0 <= i < k ==> gs[i].lastUpdate < gs[k].lastUpdate)
    && (forall i :: k < i < |gs| ==> gs[i].lastUpdate <= gs[k].lastUpdate)
  }

  function LatestFrom(gs: seq<Gauge>, best: nat, i: nat): (k: nat)
    requires best < i <= |gs|
    ensures k < |gs|
    decreases |gs| - i
  {
    if i == |gs| then best
    else if gs[i].lastUpdate > gs[best].lastUpdate then LatestFrom(gs, i, i + 1)
    else LatestFrom(gs, best, i + 1)
  }

  function GaugeValue(gs: seq<Gauge>): nat
    requires gs != []
  {
    gs[LatestFrom(gs, 0, 1)].value
  }

  method GetGauge(gs: seq<Gauge>) returns (val: nat)
    requires gs != []
    ensures val == GaugeValue(gs)
  {
    val := gs[0].value;
    var l := gs[0].lastUpdate;
    ghost var best := 0;
    for i := 1 to |gs|
      invariant best < i && val == gs[best].value && l == gs[best].lastUpdate
      invariant LatestFrom(gs, 0, 1) == LatestFrom(gs, best, i)
    {
      if gs[i].lastUpdate > l {
        val := gs[i].value;
        l := gs[i].lastUpdate;
        best := i;
      }
    }
  }

  lemma {:induction false} LatestFromIs(gs: seq<Gauge>, best: nat, i: nat)
    requires best < i <= |gs|
    requires forall j :: 0 <= j < best ==> gs[j].lastUpdate < gs[best].lastUpdate
    requires forall j :: best < j < i ==> gs[j].lastUpdate <= gs[best].lastUpdate
    ensures Latest(gs, LatestFrom(gs, best, i))
    decreases |gs| - i
  {
    if i < |gs| {
      if gs[i].lastUpdate > gs[best].lastUpdate {
        LatestFromIs(gs, i, i + 1);
      } else {
        LatestFromIs(gs, best, i + 1);
      }
    }
  }

  /** A gauge reads the slot that was updated last, the first one among equals. */
  lemma {:induction false} GaugeReadsLatest(gs: seq<Gauge>, k: nat)
    requires gs != []
    ensures Latest(gs, k) ==> GaugeValue(gs) == gs[k].value
  {
    LatestFromIs(gs, 0, 1);
    var l := LatestFrom(gs, 0, 1);
    if Latest(gs, k) {
      assert l == k;
    }
  }

  /** What is read from a metric.  A histogram is merged into an output buffer of the
      largest size; its total count is read as a 32-bit counter. */
  datatype Reading = CounterReading(value: nat) | GaugeReading(value: nat)
    | HistReading(count: nat, sum: nat)

  predicate ValidMetric(m: Metric) {
    match m
    case Counter(cs) => cs != []
    case GaugeMetric(gs) => gs != []
    case HistMetric(hs) => hs != []
  }

  /** Every histogram slot is a log2 histogram within its limits. */
  ghost predicate HistsOk(m: Metric) {
    m.HistMetric? ==> forall i :: 0 <= i < |m.hists| ==> Ok(m.hists[i])
  }

  lemma {:induction false} EmptyHistOk(cap: nat)
    requires 0 < cap <= BINS_MAX
    ensures Ok(EmptyHist(cap)) && Mass(EmptyHist(cap).bins, Any()) == 0
  {
    assert forall i, j :: SameBound([Bin(MAX, 0)], i, j) ==> i == j;
    assert [Bin(MAX, 0)][1..] == [];
  }

  ghost function Read(m: Metric): Reading
    requires m.Counter? ==> m.counters != []
    requires m.GaugeMetric? ==> m.gauges != []
  {
    match m
    case Counter(cs) => CounterReading(Wrap64(CounterTotal(cs)))
    case GaugeMetric(gs) => GaugeReading(GaugeValue(gs))
    case HistMetric(hs) =>
      EmptyHistOk(BINS_MAX);
      var merged := Merge(EmptyHist(BINS_MAX), hs);
      HistReading(Wrap32(Mass(merged.bins, Any())), merged.sum)
  }

  /** A histogram reads the total count and sum of all workers. */
  lemma {:induction false} HistReads(hs: seq<Hist>)
    ensures Read(HistMetric(hs)) == HistReading(Wrap32(MassOf(hs, Any())), Wrap64(SumOf(hs)))
  {
    EmptyHistOk(BINS_MAX);
    MergeConserves(EmptyHist(BINS_MAX), hs);
  }

  // ----------------------------------------------------- updates by the workers

  lemma {:induction false} CounterTotalUpdate(cs: seq<nat>, slot: nat, v: nat)
    requires slot < |cs|
    ensures CounterTotal(cs[slot := v]) == CounterTotal(cs) - cs[slot] + v
  {
    if slot == 0 {
      assert cs[0 := v][1..] == cs[1..];
    } else {
      CounterTotalUpdate(cs[1..], slot - 1, v);
      assert cs[slot := v][1..] == cs[1..][slot - 1 := v];
    }
  }

  lemma {:induction false} CounterTotalBound(cs: seq<nat>, slot: nat)
    requires slot < |cs|
    ensures cs[slot] <= CounterTotal(cs)
  {
    if slot > 0 { CounterTotalBound(cs[1..], slot - 1); }
  }

  /** An increment by any worker adds to the reading. */
  lemma {:induction false} IncrementReads(cs: seq<nat>, slot: nat, n: nat)
    requires slot < |cs|
    ensures Wrap64(CounterTotal(cs[slot := Wrap64(cs[slot] + n)])) == Wrap64(CounterTotal(cs) + n)
  {
    CounterTotalUpdate(cs, slot, Wrap64(cs[slot] + n));
    CounterTotalBound(cs, slot);
    Wrap64Add(CounterTotal(cs) - cs[slot], cs[slot] + n);
  }

  /** A signed offset, as it is added to an unsigned counter. */
  function Unsigned(n: int): nat
    requires -U64 < n < U64
  {
    if n < 0 then n + U64 else n
  }

  /** An offset of either sign adds itself to the reading, modulo 2^64. */
  lemma {:induction false} SignedIncrementReads(cs: seq<nat>, slot: nat, n: int)
    requires slot < |cs| && -U64 < n < U64
    ensures Wrap64(CounterTotal(cs[slot := Wrap64(cs[slot] + Unsigned(n))])) == (CounterTotal(cs) + n) % U64
  {
    IncrementReads(cs, slot, Unsigned(n));
    Wrap64IsMod(CounterTotal(cs) + Unsigned(n));
    AddModulus(CounterTotal(cs) + n);
  }

  lemma {:induction false} AddModulus(x: int)
    ensures (x + U64) % U64 == x % U64
  {
  }

  lemma {:induction false} MassOfUpdate(hs: seq<Hist>, slot: nat, h: Hist)
    requires slot < |hs|
    ensures MassOf(hs[slot := h], Any()) == MassOf(hs, Any()) - Mass(hs[slot].bins, Any()) + Mass(h.bins, Any())
    ensures SumOf(hs[slot := h]) == SumOf(hs) - hs[slot].sum + h.sum
    ensures Mass(hs[slot].bins, Any()) <= MassOf(hs, Any()) && hs[slot].sum <= SumOf(hs)
  {
    if slot == 0 {
      assert hs[0 := h][1..] == hs[1..];
    } else {
      MassOfUpdate(hs[1..], slot - 1, h);
      assert hs[slot := h][1..] == hs[1..][slot - 1 := h];
    }
  }

  lemma {:induction false} RecordTotals(h: Hist, n: nat, growOk: bool)
    requires Ok(h)
    ensures Wrap32(Mass(Record(h, n, growOk).bins, Any())) == Wrap32(Mass(h.bins, Any()) + 1)
    ensures Record(h, n, growOk).sum == Wrap64(h.sum + n)
  {
    RecordMass(h, n, growOk, Any());
  }

  /** A value recorded by any worker adds one to the total count and itself to the sum. */
  lemma {:induction false} RecordReads(hs: seq<Hist>, slot: nat, n: nat, growOk: bool)
    requires slot < |hs| && Ok(hs[slot])
    ensures Read(HistMetric(hs[slot := Record(hs[slot], n, growOk)]))
            == HistReading(Wrap32(MassOf(hs, Any()) + 1), Wrap64(SumOf(hs) + n))
  {
    hide *;
    var h, h' := hs[slot], Record(hs[slot], n, growOk);
    MassOfUpdate(hs, slot, h');
    RecordTotals(h, n, growOk);
    HistReads(hs[slot := h']);
    var rest := MassOf(hs, Any()) - Mass(h.bins, Any());
    Wrap32Add(rest, Mass(h'.bins, Any()));
    Wrap32Add(rest, Mass(h.bins, Any()) + 1);
    Wrap64Add(SumOf(hs) - h.sum, h.sum + n);
  }
}
